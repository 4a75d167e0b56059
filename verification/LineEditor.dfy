/** What the line discipline of VLinux0.11/kernel/chr_drv/tty_io.c does to the characters of a terminal,
    as an editor of sequences. */
module LineEditor {
  const Nl := 10
  const Cr := 13
  const Del := 127

  /** The flags of a terminal and its control characters. */
  datatype Config = Config(canon: bool, isig: bool, echo: bool, echoCtl: bool,
                           crNl: bool, noCr: bool, nlCr: bool, lower: bool,
                           intr: int, quit: int, erase: int, kill: int, eof: int, start: int, stop: int)

  /** The cooked characters, what has been echoed, whether output is stopped, and the signals sent. */
  datatype State = State(cooked: seq<int>, out: seq<int>, stopped: bool, signals: seq<bool>)

  datatype Mapped = Dropped | Char(c: int)

  function ToLower(c: int): int { if 65 <= c <= 90 then c + 32 else c }

  /** ICRNL, IGNCR, INLCR and IUCLC. */
  function Input(f: Config, c: int): Mapped {
    if c == Cr && !f.crNl && f.noCr then Dropped
    else
      var d := if c == Cr && f.crNl then Nl else if c == Nl && f.nlCr then Cr else c;
      Char(if f.lower then ToLower(d) else d)
  }

  predicate LineEnd(f: Config, c: int) { c == Nl || c == f.eof }

  /** Where the line that can still be edited begins: behind the last line end. */
  function LineStart(f: Config, s: seq<int>): (n: nat)
    ensures n <= |s| && (n > 0 ==> LineEnd(f, s[n - 1])) && forall i :: n <= i < |s| ==> !LineEnd(f, s[i])
  {
    if s == [] || LineEnd(f, s[|s| - 1]) then |s| else LineStart(f, s[..|s| - 1])
  }

  /** The number of line ends. */
  function Ends(f: Config, s: seq<int>): nat {
    if s == [] then 0 else Ends(f, s[..|s| - 1]) + if LineEnd(f, s[|s| - 1]) then 1 else 0
  }

  /** What rubbing out a character shows. */
  function Rub(c: int): seq<int> { if c < 32 then [Del, Del] else [Del] }

  /** What rubbing out the characters from the last one back to place n shows. */
  function RubBack(s: seq<int>, n: nat): seq<int>
    requires n <= |s|
  {
    if |s| == n then [] else Rub(s[|s| - 1]) + RubBack(s[..|s| - 1], n)
  }

  function Shown(f: Config, c: int): seq<int> {
    if c == Nl then [Nl, Cr] else if c < 32 then (if f.echoCtl then [94, c + 64] else []) else [c]
  }

  /** One character that has been read. */
  function Edit(f: Config, s: State, c0: int): State {
    if Input(f, c0).Dropped? then s else Act(f, s, Input(f, c0).c)
  }

  /** What the character does after the input flags. */
  function Act(f: Config, s: State, c: int): State {
    if f.canon && c == f.kill then Killed(f, s)
    else if f.canon && c == f.erase then Erased(f, s)
    else if f.canon && c == f.stop then s.(stopped := true)
    else if f.canon && c == f.start then s.(stopped := false)
    else if f.isig && c == f.intr then s.(signals := s.signals + [false])
    else if f.isig && c == f.quit then s.(signals := s.signals + [true])
    else s.(cooked := s.cooked + [c], out := if f.echo then s.out + Shown(f, c) else s.out)
  }

  function Killed(f: Config, s: State): State {
    var n := LineStart(f, s.cooked);
    s.(cooked := s.cooked[..n], out := if f.echo then s.out + RubBack(s.cooked, n) else s.out)
  }

  function Erased(f: Config, s: State): State {
    var last := |s.cooked| - 1;
    if LineStart(f, s.cooked) > last then s
    else s.(cooked := s.cooked[..last], out := if f.echo then s.out + Rub(s.cooked[last]) else s.out)
  }

  /** copy_to_cooked: as long as there are characters and room for one. */
  function Cook(f: Config, s: State, input: seq<int>, room: nat): (State, seq<int>)
    decreases |input|
  {
    if input == [] || |s.cooked| >= room then (s, input) else Cook(f, Edit(f, s, input[0]), input[1..], room)
  }

  // ---------- what an editor promises ----------

  /** Whatever is typed, the finished lines stay as they are. */
  lemma LinesStay(f: Config, s: State, c: int)
    ensures LineStart(f, s.cooked) <= |Edit(f, s, c).cooked|
    ensures Edit(f, s, c).cooked[..LineStart(f, s.cooked)] == s.cooked[..LineStart(f, s.cooked)]
    ensures |Edit(f, s, c).cooked| <= |s.cooked| + 1
  {
  }

  lemma {:induction false} CookKeepsLines(f: Config, s: State, input: seq<int>, room: nat)
    ensures LineStart(f, s.cooked) <= |Cook(f, s, input, room).0.cooked|
    ensures Cook(f, s, input, room).0.cooked[..LineStart(f, s.cooked)] == s.cooked[..LineStart(f, s.cooked)]
    ensures |s.cooked| <= room ==> |Cook(f, s, input, room).0.cooked| <= room
    decreases |input|
  {
    hide Edit, LineStart;
    if input != [] && |s.cooked| < room {
      var t := Edit(f, s, input[0]);
      LinesStay(f, s, input[0]);
      CookKeepsLines(f, t, input[1..], room);
      StartGrows(f, s.cooked, t.cooked);
    }
  }

  /** With the finished lines kept, the editable line begins no earlier than before. */
  lemma StartGrows(f: Config, s: seq<int>, t: seq<int>)
    requires LineStart(f, s) <= |t| && t[..LineStart(f, s)] == s[..LineStart(f, s)]
    ensures LineStart(f, t) >= LineStart(f, s)
  {
    if LineStart(f, s) > 0 { assert t[..LineStart(f, s)][LineStart(f, s) - 1] == s[LineStart(f, s) - 1]; }
  }

  /** A character that is put into the line and nothing else. */
  predicate Ordinary(f: Config, c0: int) {
    Input(f, c0).Char? && var c := Input(f, c0).c;
    !LineEnd(f, c) && !(f.canon && c in {f.kill, f.erase, f.stop, f.start}) && !(f.isig && c in {f.intr, f.quit})
  }

  function Typed(f: Config, s: State, input: seq<int>): State
    decreases |input|
  {
    if input == [] then s else Typed(f, Edit(f, s, input[0]), input[1..])
  }

  /** copy_to_cooked takes the first k characters, as if they had been typed one by one; it stops with none left or
      with the room full, and not before. */
  lemma {:induction false} CookIs(f: Config, s: State, input: seq<int>, room: nat, k: int)
    requires |s.cooked| <= room && k == |input| - |Cook(f, s, input, room).1|
    ensures 0 <= k <= |input| && Cook(f, s, input, room) == (Typed(f, s, input[..k]), input[k..])
    ensures k < |input| ==> |Typed(f, s, input[..k]).cooked| == room
    ensures forall j :: 0 <= j < k ==> |Typed(f, s, input[..j]).cooked| < room
    decreases |input|
  {
    hide Edit, LineStart;
    if input != [] && |s.cooked| < room {
      LinesStay(f, s, input[0]);
      CookIs(f, Edit(f, s, input[0]), input[1..], room, k - 1);
      assert input[..k][0] == input[0] && input[..k][1..] == input[1..][..k - 1] && input[k..] == input[1..][k - 1..];
      forall j | 0 <= j < k ensures |Typed(f, s, input[..j]).cooked| < room {
        if j > 0 { assert input[..j][1..] == input[1..][..j - 1] && input[..j][0] == input[0]; }
      }
    }
  }

  /** The erase character takes back the last ordinary one. */
  lemma EraseUndoes(f: Config, s: State, c: int, e: int)
    requires f.canon && Ordinary(f, c) && Input(f, e) == Char(f.erase) && f.erase != f.kill
    ensures Edit(f, Edit(f, s, c), e).cooked == s.cooked
  {
    var t := Edit(f, s, c);
    assert t.cooked == s.cooked + [Input(f, c).c];
  }

  /** An ordinary character prolongs the line. */
  lemma OrdinaryAdds(f: Config, s: State, c: int)
    requires Ordinary(f, c)
    ensures LineStart(f, Edit(f, s, c).cooked) == LineStart(f, s.cooked)
    ensures Edit(f, s, c).cooked[..LineStart(f, s.cooked)] == s.cooked[..LineStart(f, s.cooked)]
  {
    var t := Edit(f, s, c);
    assert t.cooked == s.cooked + [Input(f, c).c] && t.cooked[..|t.cooked| - 1] == s.cooked;
  }

  /** The kill character takes back whatever was typed since the line began. */
  lemma {:induction false} KillUndoes(f: Config, s: State, input: seq<int>, k: int)
    requires f.canon && (forall i :: 0 <= i < |input| ==> Ordinary(f, input[i])) && Input(f, k) == Char(f.kill)
    ensures Edit(f, Typed(f, s, input), k).cooked == s.cooked[..LineStart(f, s.cooked)]
    decreases |input|
  {
    hide LineStart, Ordinary;
    if input != [] {
      hide Edit;
      OrdinaryAdds(f, s, input[0]);
      KillUndoes(f, Edit(f, s, input[0]), input[1..], k);
    }
  }

  // ---------- what the input flags promise ----------

  /** Carriage return (13) becomes newline (10) with ICRNL, and is dropped with IGNCR alone; newline becomes carriage
      return with INLCR; capitals (65 to 90) become small letters with IUCLC; nothing else changes. */
  lemma InputIs(f: Config, c: int)
    ensures Input(f, c) == Dropped <==> c == 13 && f.noCr && !f.crNl
    ensures c == 13 && f.crNl ==> Input(f, c) == Char(10)
    ensures c == 10 && f.nlCr ==> Input(f, c) == Char(13)
    ensures 65 <= c <= 90 && f.lower ==> Input(f, c) == Char(c + 32)
    ensures Input(f, c) == Char(c) <==>
      && !(c == 13 && (f.crNl || f.noCr)) && !(c == 10 && f.nlCr) && !(65 <= c <= 90 && f.lower)
  {
  }

  /** With ICRNL the return key ends the line, whatever the other input flags are. */
  lemma EnterEndsLine(f: Config, s: State)
    requires f.crNl && 10 !in {f.kill, f.erase, f.stop, f.start, f.intr, f.quit}
    ensures Edit(f, s, 13).cooked == s.cooked + [10] && Ends(f, Edit(f, s, 13).cooked) == Ends(f, s.cooked) + 1
    ensures LineStart(f, Edit(f, s, 13).cooked) == |s.cooked| + 1
  {
    assert (s.cooked + [10])[..|s.cooked|] == s.cooked;
  }

  /** What the control characters do, the first of them that a character is. */
  lemma ControlIs(f: Config, s: State, c: int)
    requires Input(f, c).Char? && !(f.canon && Input(f, c).c in {f.kill, f.erase})
    ensures f.canon && Input(f, c).c == f.stop ==> Edit(f, s, c) == State(s.cooked, s.out, true, s.signals)
    ensures f.canon && Input(f, c).c == f.start != f.stop ==> Edit(f, s, c) == State(s.cooked, s.out, false, s.signals)
    ensures !(f.canon && Input(f, c).c in {f.stop, f.start}) && f.isig && Input(f, c).c == f.intr ==>
      Edit(f, s, c) == State(s.cooked, s.out, s.stopped, s.signals + [false])
    ensures !(f.canon && Input(f, c).c in {f.stop, f.start}) && f.isig && Input(f, c).c == f.quit != f.intr ==>
      Edit(f, s, c) == State(s.cooked, s.out, s.stopped, s.signals + [true])
  {
  }

  // ---------- what the user sees ----------

  /** The cells of a line after more output: a delete (127) takes the last one away. */
  function Screen(cells: seq<int>, out: seq<int>): seq<int>
    decreases |out|
  {
    if out == [] then cells
    else if out[0] == 127 then Screen(if cells == [] then [] else cells[..|cells| - 1], out[1..])
    else Screen(cells + [out[0]], out[1..])
  }

  lemma {:induction false} ScreenOn(cells: seq<int>, a: seq<int>, b: seq<int>)
    ensures Screen(cells, a + b) == Screen(Screen(cells, a), b)
    decreases |a|
  {
    if a == [] {
      assert a + b == b;
    } else {
      assert (a + b)[1..] == a[1..] + b;
      ScreenOn(if a[0] == 127 then (if cells == [] then [] else cells[..|cells| - 1]) else cells + [a[0]], a[1..], b);
    }
  }

  lemma ScreenOne(cells: seq<int>, c: int)
    ensures Screen(cells, []) == cells
    ensures Screen(cells, [c]) == if c != 127 then cells + [c] else if cells == [] then [] else cells[..|cells| - 1]
  {
  }

  lemma ScreenTwo(cells: seq<int>, c: int, d: int)
    ensures Screen(cells, [c, d]) == Screen(Screen(cells, [c]), [d])
  {
    ScreenOn(cells, [c], [d]);
    assert [c] + [d] == [c, d];
  }

  /** A control character is shown as ^ and its letter, if ECHOCTL is set; a newline goes to the start of the next line;
      all others are shown as they are. */
  lemma ShownIs(f: Config, letter: char)
    requires letter <= '~'
    ensures '@' <= letter <= '_' && letter != 'J' ==>
      Shown(f, (letter as int) - 64) == if f.echoCtl then ['^' as int, letter as int] else []
    ensures letter >= ' ' ==> Shown(f, letter as int) == [letter as int]
    ensures Shown(f, 10) == [10, 13]
  {
  }

  /** A character of the line that rubbing out removes from the screen again. */
  predicate Rubbable(f: Config, c: int) { if c < 32 then f.echoCtl else c != 127 }

  /** What is shown for a character and then rubbed out leaves the screen as it was, unless it is a control character
      that was not shown, or the delete character itself. */
  lemma RubMatches(f: Config, cells: seq<int>, c: int)
    requires c != 10
    ensures Screen(Screen(cells, Shown(f, c)), Rub(c)) == cells <==> cells == [] || Rubbable(f, c)
  {
    var shown := Screen(cells, Shown(f, c));
    ScreenOne(cells, c);
    if c < 32 {
      ScreenTwo(cells, 94, c + 64);
      ScreenOne(cells, 94);
      ScreenOne(cells + [94], c + 64);
      ScreenTwo(shown, 127, 127);
      ScreenOne(shown, 127);
      ScreenOne(Screen(shown, [127]), 127);
    } else {
      ScreenOne(shown, 127);
    }
  }

  /** So erase takes a character from the screen as from the line. */
  lemma EraseUndoesShown(f: Config, s: State, c: int, e: int)
    requires f.canon && f.echo && Ordinary(f, c) && Input(f, e) == Char(f.erase) && f.erase != f.kill
    ensures Screen([], Edit(f, Edit(f, s, c), e).out) == Screen([], s.out)
      <==> Screen([], s.out) == [] || Rubbable(f, Input(f, c).c)
  {
    hide Screen, Shown, Rub;
    var d := Input(f, c).c;
    var t := Edit(f, s, c);
    assert t.cooked == s.cooked + [d] && t.out == s.out + Shown(f, d);
    assert Edit(f, t, e).out == s.out + Shown(f, d) + Rub(d);
    ScreenOn([], s.out, Shown(f, d));
    ScreenOn([], s.out + Shown(f, d), Rub(d));
    RubMatches(f, Screen([], s.out), d);
  }

  /** What killing the line from place n on would leave on the screen. */
  function AfterKill(s: State, n: nat): seq<int>
    requires n <= |s.cooked|
  {
    Screen([], s.out + RubBack(s.cooked, n))
  }

  lemma OneMoreTyped(f: Config, s: State, c: int, n: nat)
    requires f.echo && Ordinary(f, c) && Rubbable(f, Input(f, c).c) && n <= |s.cooked|
    ensures Edit(f, s, c).cooked == s.cooked + [Input(f, c).c] && AfterKill(Edit(f, s, c), n) == AfterKill(s, n)
  {
    var d := Input(f, c).c;
    var t := Edit(f, s, c);
    hide Edit, Screen, Shown, Rub, Input;
    assert t.out == s.out + Shown(f, d) && t.cooked == s.cooked + [d] by { OrdinaryEdit(f, s, c); }
    assert t.cooked[..|s.cooked|] == s.cooked;
    assert RubBack(t.cooked, n) == Rub(d) + RubBack(s.cooked, n);
    assert t.out + RubBack(t.cooked, n) == s.out + Shown(f, d) + Rub(d) + RubBack(s.cooked, n);
    ScreenOn([], s.out + Shown(f, d) + Rub(d), RubBack(s.cooked, n));
    ScreenOn([], s.out + Shown(f, d), Rub(d));
    ScreenOn([], s.out, Shown(f, d));
    ScreenOn([], s.out, RubBack(s.cooked, n));
    NotNl(f, c);
    RubMatches(f, Screen([], s.out), d);
  }

  lemma NotNl(f: Config, c: int)
    requires Ordinary(f, c)
    ensures Input(f, c).c != 10
  {
  }

  lemma OrdinaryEdit(f: Config, s: State, c: int)
    requires f.echo && Ordinary(f, c)
    ensures Edit(f, s, c).cooked == s.cooked + [Input(f, c).c] && Edit(f, s, c).out == s.out + Shown(f, Input(f, c).c)
  {
  }

  lemma {:induction false} TypedShown(f: Config, s: State, input: seq<int>, n: nat)
    requires f.echo && n <= |s.cooked|
    requires forall i :: 0 <= i < |input| ==> Ordinary(f, input[i]) && Rubbable(f, Input(f, input[i]).c)
    ensures n <= |Typed(f, s, input).cooked| && AfterKill(Typed(f, s, input), n) == AfterKill(s, n)
    decreases |input|
  {
    hide Ordinary, Edit, AfterKill, Input, Rubbable;
    if input != [] {
      OneMoreTyped(f, s, input[0], n);
      TypedShown(f, Edit(f, s, input[0]), input[1..], n);
    }
  }

  lemma {:induction false} TypedStart(f: Config, s: State, input: seq<int>)
    requires forall i :: 0 <= i < |input| ==> Ordinary(f, input[i])
    ensures LineStart(f, Typed(f, s, input).cooked) == LineStart(f, s.cooked)
    decreases |input|
  {
    hide Ordinary, Edit, LineStart;
    if input != [] {
      OrdinaryAdds(f, s, input[0]);
      TypedStart(f, Edit(f, s, input[0]), input[1..]);
    }
  }

  /** Kill leaves on the screen what it would have left before the characters were typed; at the start of a line that
      is what stood there. */
  lemma KillUndoesShown(f: Config, s: State, input: seq<int>, k: int)
    requires f.canon && f.echo && Input(f, k) == Char(f.kill)
    requires forall i :: 0 <= i < |input| ==> Ordinary(f, input[i]) && Rubbable(f, Input(f, input[i]).c)
    ensures Screen([], Edit(f, Typed(f, s, input), k).out) == Screen([], Edit(f, s, k).out)
    ensures LineStart(f, s.cooked) == |s.cooked| ==>
      Screen([], Edit(f, Typed(f, s, input), k).out) == Screen([], s.out)
  {
    hide Ordinary, LineStart, Rubbable, RubBack, Screen;
    var n := LineStart(f, s.cooked);
    TypedShown(f, s, input, n);
    TypedStart(f, s, input);
    if n == |s.cooked| { NothingToRub(s); }
  }

  lemma NothingToRub(s: State)
    ensures s.out + RubBack(s.cooked, |s.cooked|) == s.out
  {
  }

  // ---------- counting line ends ----------

  /** The count of line ends moves with the character put in, and erase and kill do not change it. */
  lemma {:induction false} EndsCut(f: Config, s: seq<int>, n: nat)
    requires LineStart(f, s) <= n <= |s|
    ensures Ends(f, s[..n]) == Ends(f, s)
    decreases |s|
  {
    if n < |s| {
      EndsCut(f, s[..|s| - 1], n);
      assert s[..|s| - 1][..n] == s[..n];
    } else {
      assert s[..n] == s;
    }
  }

  // ---------- reading ----------

  /** How many characters a read of at most nr takes from the cooked ones; in
      canonical mode it ends behind an end of file. */
  function Takes(f: Config, s: seq<int>, nr: nat): (n: nat)
    ensures n <= nr && n <= |s|
  {
    if nr == 0 || s == [] then 0 else if f.canon && s[0] == f.eof then 1 else 1 + Takes(f, s[1..], nr - 1)
  }

  /** The read has met an end of file. */
  predicate MeetsEof(f: Config, s: seq<int>, nr: nat) {
    Takes(f, s, nr) > 0 && f.canon && s[Takes(f, s, nr) - 1] == f.eof
  }

  /** What it returns. */
  function Returns(f: Config, s: seq<int>, nr: nat): seq<int> {
    s[..Takes(f, s, nr) - if MeetsEof(f, s, nr) then 1 else 0]
  }

  /** A read stops at the number asked for, at the end of what is there, or in canonical mode behind the first end of
      file, which it does not return. */
  lemma {:induction false} TakesIs(f: Config, s: seq<int>, nr: nat)
    ensures Takes(f, s, nr) == nr || Takes(f, s, nr) == |s|
      || (Takes(f, s, nr) > 0 && f.canon && s[Takes(f, s, nr) - 1] == f.eof)
    ensures f.canon ==> forall i :: 0 <= i < Takes(f, s, nr) - 1 ==> s[i] != f.eof
    ensures f.canon ==> f.eof !in Returns(f, s, nr)
    ensures Returns(f, s, nr) <= s && Takes(f, s, nr) - 1 <= |Returns(f, s, nr)| <= Takes(f, s, nr)
    decreases nr
  {
    if nr > 0 && s != [] && !(f.canon && s[0] == f.eof) {
      TakesIs(f, s[1..], nr - 1);
      var n := Takes(f, s[1..], nr - 1);
      forall i | 0 <= i < n && f.canon ensures s[i] != f.eof { if i > 0 { assert s[1..][i - 1] == s[i]; } }
      if n > 0 { assert s[1..][n - 1] == s[n]; }
    }
  }

  lemma {:induction false} NoEnds(f: Config, s: seq<int>)
    ensures Ends(f, s) == 0 <==> forall i :: 0 <= i < |s| ==> s[i] != 10 && s[i] != f.eof
  {
    if s != [] {
      var t := s[..|s| - 1];
      NoEnds(f, t);
      if Ends(f, s) == 0 {
        forall i | 0 <= i < |s| ensures s[i] != 10 && s[i] != f.eof {
          if i < |t| { assert t[i] == s[i]; }
        }
      }
    }
  }

  lemma {:induction false} EndsSplit(f: Config, s: seq<int>, n: nat)
    requires n <= |s|
    ensures Ends(f, s) == Ends(f, s[..n]) + Ends(f, s[n..])
    decreases |s|
  {
    if n == |s| {
      assert s[..n] == s && s[n..] == [];
    } else {
      EndsSplit(f, s[..|s| - 1], n);
      assert s[..|s| - 1][..n] == s[..n] && s[..|s| - 1][n..] == s[n..][..|s| - n - 1];
    }
  }
}
