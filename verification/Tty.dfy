/** The queues of a terminal, copy_to_cooked and tty_read (VLinux0.11/kernel/chr_drv/tty_io.c, include/linux/tty.h). */
module Tty {
  import opened LineEditor

  const BufSize := 1024

  /** A ring of characters; head == tail means empty. */
  class TtyQueue {
    const buf: array<int>
    var head: nat
    var tail: nat
    var data: int
    ghost var chars: seq<int>

    ghost predicate Valid()
      reads this, buf
    {
      && buf.Length == BufSize && head < BufSize && tail < BufSize && |chars| < BufSize
      && head == Place(tail, |chars|)
      && forall i :: 0 <= i < |chars| ==> buf[Place(tail, i)] == chars[i]
    }

    constructor ()
      ensures Valid() && chars == [] && data == 0 && fresh(buf)
    {
      buf := new int[BufSize];
      head, tail, data, chars := 0, 0, 0, [];
    }

    predicate Empty()
      reads this
    {
      head == tail
    }

    /** LEFT. */
    function Room(): nat
      reads this
    {
      (tail - head - 1) % BufSize
    }

    lemma Counts()
      requires Valid()
      ensures Empty() <==> chars == []
      ensures Room() == BufSize - 1 - |chars|
    {
    }

    /** GETCH. */
    method Get() returns (c: int)
      requires Valid() && chars != []
      modifies this`tail, this`chars
      ensures Valid() && c == old(chars[0]) && chars == old(chars[1..])
    {
      c := buf[tail];
      tail := (tail + 1) % BufSize;
      chars := chars[1..];
    }

    /** PUTCH: a ring that was full is empty afterwards. */
    method Put(c: int)
      requires Valid()
      modifies this`head, this`chars, buf
      ensures Valid() && chars == if |old(chars)| == BufSize - 1 then [] else old(chars) + [c]
    {
      PlaceOf(tail, |chars|);
      forall i | 0 <= i < |chars| ensures Place(tail, i) != head { Apart(tail, i, |chars|); }
      buf[head] := c;
      head := (head + 1) % BufSize;
      chars := if |chars| == BufSize - 1 then [] else chars + [c];
    }

    /** data += d. */
    method Count(d: int)
      requires Valid()
      modifies this`data
      ensures Valid() && data == old(data) + d
    {
      data := data + d;
    }

    /** LAST. */
    method Last() returns (c: int)
      requires Valid() && chars != []
      ensures c == chars[|chars| - 1]
    {
      PlaceOf(tail, |chars| - 1);
      c := buf[(head - 1) % BufSize];
    }

    /** DEC(head). */
    method DropLast()
      requires Valid() && chars != []
      modifies this`head, this`chars
      ensures Valid() && chars == old(chars[..|chars| - 1])
    {
      PlaceOf(tail, |chars| - 1);
      head := (head - 1) % BufSize;
      chars := chars[..|chars| - 1];
    }
  }

  /** The i-th place from tail on. */
  function Place(tail: nat, i: nat): (p: nat)
    ensures p < BufSize
  {
    (tail + i) % BufSize
  }

  lemma PlaceOf(tail: nat, n: nat)
    ensures (Place(tail, n) + 1) % BufSize == Place(tail, n + 1)
    ensures (Place(tail, n + 1) - 1) % BufSize == Place(tail, n)
  {
  }

  lemma Apart(tail: nat, i: nat, j: nat)
    requires i < j < BufSize + i
    ensures Place(tail, i) != Place(tail, j)
  {
  }

  class TtyStruct {
    const f: Config
    const readQ: TtyQueue
    const writeQ: TtyQueue
    const secondary: TtyQueue
    var stopped: bool
    var signals: seq<bool>
    var out: seq<int>

    /** The queues share nothing, and the writer has taken all output. */
    ghost predicate Sound()
      reads this, Parts()
    {
      && readQ != writeQ && readQ != secondary && writeQ != secondary
      && readQ.buf != writeQ.buf && readQ.buf != secondary.buf && writeQ.buf != secondary.buf
      && readQ.Valid() && writeQ.Valid() && secondary.Valid()
      && writeQ.chars == []
    }

    /** And data counts the line ends to be read. */
    ghost predicate Valid()
      reads this, Parts()
    {
      Sound() && secondary.data == Ends(f, secondary.chars)
    }

    ghost function Parts(): set<object> { {readQ, writeQ, secondary, readQ.buf, writeQ.buf, secondary.buf} }

    ghost function St(): State
      reads this, secondary
    {
      State(secondary.chars, out, stopped, signals)
    }

    constructor (f: Config)
      ensures Valid() && this.f == f && St() == State([], [], false, []) && readQ.chars == [] && fresh(Parts())
    {
      this.f, stopped, signals, out := f, false, [], [];
      readQ := new TtyQueue();
      writeQ := new TtyQueue();
      secondary := new TtyQueue();
    }

    /** The driver takes what is to be written. */
    method Write()
      requires writeQ.Valid()
      modifies this`out, writeQ`tail, writeQ`chars
      ensures writeQ.Valid() && writeQ.chars == [] && out == old(out) + old(writeQ.chars)
    {
      hide TtyQueue.Valid;
      writeQ.Counts();
      while !writeQ.Empty()
        invariant writeQ.Valid() && out + writeQ.chars == old(out) + old(writeQ.chars)
          && (writeQ.Empty() <==> writeQ.chars == [])
        decreases |writeQ.chars|
      {
        ghost var was := writeQ.chars;
        var c := writeQ.Get();
        assert was == [c] + writeQ.chars;
        assert out + was == out + [c] + writeQ.chars;
        out := out + [c];
        writeQ.Counts();
      }
      assert out + [] == out;
    }

    /** Shows that a character was rubbed out. */
    method EchoRub(c: int)
      requires Valid()
      modifies this`out, writeQ, writeQ.buf
      ensures Valid() && St() == old(St()).(out := old(out) + if f.echo then Rub(c) else [])
    {
      hide TtyQueue.Valid;
      if f.echo {
        if c < 32 { writeQ.Put(Del); }
        writeQ.Put(Del);
        Write();
      }
    }

    /** The last character, which is no line end, goes. */
    method RubOne(c: int)
      requires Valid() && secondary.chars != []
        && Ends(f, secondary.chars[..|secondary.chars| - 1]) == Ends(f, secondary.chars)
      modifies this`out, writeQ, writeQ.buf, secondary`head, secondary`chars
      ensures Valid() && stopped == old(stopped) && signals == old(signals)
      ensures secondary.chars == old(secondary.chars[..|secondary.chars| - 1])
        && out == old(out) + if f.echo then Rub(c) else []
    {
      hide TtyQueue.Valid, Rub, Ends;
      EchoRub(c);
      secondary.DropLast();
    }

    /** KILL: the line that is being typed goes. */
    method Kill()
      requires Valid()
      modifies this`out, writeQ, writeQ.buf, secondary`head, secondary`chars
      ensures Valid() && stopped == old(stopped) && signals == old(signals)
      ensures secondary.chars == old(secondary.chars)[..LineStart(f, old(secondary.chars))]
      ensures out == old(out) + if f.echo then RubBack(old(secondary.chars), LineStart(f, old(secondary.chars))) else []
    {
      hide TtyQueue.Valid, RubBack, Rub, LineStart, Ends;
      ghost var s, n, out0 := secondary.chars, LineStart(f, secondary.chars), out;
      ghost var k, shown := |s|, [];
      assert s[..|s|] == s && out + [] == out && [] + RubBack(s, n) == RubBack(s, n);
      while true
        invariant Valid() && n <= k <= |s| && secondary.chars == s[..k] && stopped == old(stopped)
          && signals == old(signals)
        invariant out == out0 + (if f.echo then shown else []) && shown + RubBack(s[..k], n) == RubBack(s, n)
        decreases k
      {
        secondary.Counts();
        if secondary.Empty() { break; }
        var c := secondary.Last();
        if c == Nl || c == f.eof { break; }
        LineOpen(f, s, s[..k]);
        RubOne(c);
        RubStep(shown, s, k, n);
        shown := shown + Rub(c);
        k := k - 1;
      }
      LineClosed(f, s, s[..k]);
      assert shown + [] == shown;
    }

    method Erase()
      requires Valid()
      modifies this`out, writeQ, writeQ.buf, secondary`head, secondary`chars
      ensures Valid() && stopped == old(stopped) && signals == old(signals)
      ensures LineStart(f, old(secondary.chars)) == |old(secondary.chars)| ==> St() == old(St())
      ensures LineStart(f, old(secondary.chars)) < |old(secondary.chars)| ==>
        && secondary.chars == old(secondary.chars[..|secondary.chars| - 1])
        && out == old(out) + if f.echo then Rub(old(secondary.chars[|secondary.chars| - 1])) else []
    {
      hide TtyQueue.Valid, Ends;
      secondary.Counts();
      if secondary.Empty() { return; }
      var c := secondary.Last();
      if c == Nl || c == f.eof { return; }
      EndsCut(f, secondary.chars, |secondary.chars| - 1);
      EchoRub(c);
      secondary.DropLast();
    }

    method Echo(c: int)
      requires Sound()
      modifies this`out, writeQ, writeQ.buf
      ensures Sound() && stopped == old(stopped) && signals == old(signals)
        && out == old(out) + if f.echo then Shown(f, c) else []
    {
      hide TtyQueue.Valid, Ends;
      if f.echo {
        if c == Nl {
          writeQ.Put(Nl);
          writeQ.Put(Cr);
        } else if c < 32 {
          if f.echoCtl {
            writeQ.Put(94);
            writeQ.Put(c + 64);
          }
        } else {
          writeQ.Put(c);
        }
        Write();
      }
    }

    /** A character for the line. */
    method Enter(c: int)
      requires Valid() && |secondary.chars| < BufSize - 1
      modifies this`out, writeQ, writeQ.buf, secondary, secondary.buf
      ensures Valid()
        && St()
         == old(St()).(cooked := old(secondary.chars) + [c], out := old(out) + if f.echo then Shown(f, c) else [])
    {
      hide TtyQueue.Valid, Ends, Shown;
      EndsMore(f, secondary.chars, c);
      if c == Nl || c == f.eof { secondary.Count(1); }
      Echo(c);
      secondary.Put(c);
    }

    method MapInput(c0: int) returns (m: Mapped)
      ensures m == Input(f, c0)
      ensures m == Dropped <==> c0 == 13 && f.noCr && !f.crNl
      ensures m != Dropped && !f.lower ==>
        m == Char(if c0 == 13 && f.crNl then 10 else if c0 == 10 && f.nlCr then 13 else c0)
    {
      var c := c0;
      if c == Cr {
        if f.crNl { c := Nl; } else if f.noCr { return Dropped; }
      } else if c == Nl && f.nlCr {
        c := Cr;
      }
      if f.lower { c := ToLower(c); }
      return Char(c);
    }

    /** One round of copy_to_cooked. */
    method CookOne(c0: int)
      requires Valid() && |secondary.chars| < BufSize - 1
      modifies this, writeQ, writeQ.buf, secondary, secondary.buf
      ensures Valid() && St() == Edit(f, old(St()), c0)
    {
      hide TtyQueue.Valid, Ends, Input, Act;
      var m := MapInput(c0);
      if m.Char? { ActOn(m.c); }
    }

    method ActOn(c: int)
      requires Valid() && |secondary.chars| < BufSize - 1
      modifies this, writeQ, writeQ.buf, secondary, secondary.buf
      ensures Valid() && St() == Act(f, old(St()), c)
    {
      hide TtyQueue.Valid, Ends, Shown, LineStart, RubBack, Rub;
      assert out + [] == out;
      if f.canon && c == f.kill {
        Kill();
      } else if f.canon && c == f.erase {
        Erase();
      } else if f.canon && c == f.stop {
        stopped := true;
      } else if f.canon && c == f.start {
        stopped := false;
      } else if f.isig && c == f.intr {
        signals := signals + [false];
      } else if f.isig && c == f.quit {
        signals := signals + [true];
      } else {
        Enter(c);
      }
    }

    /** Cooks as long as there is something to read and room; no character that has not been read is overwritten. */
    method CopyToCooked()
      requires Valid()
      modifies this, readQ, writeQ, writeQ.buf, secondary, secondary.buf
      ensures Valid() && (St(), readQ.chars) == Cook(f, old(St()), old(readQ.chars), BufSize - 1)
    {
      hide Edit, Ends, TtyQueue.Valid;
      readQ.Counts();
      secondary.Counts();
      while !readQ.Empty() && secondary.Room() != 0
        invariant Valid()
          && Cook(f, St(), readQ.chars, BufSize - 1) == Cook(f, old(St()), old(readQ.chars), BufSize - 1)
        invariant (readQ.Empty() <==> readQ.chars == []) && secondary.Room() == BufSize - 1 - |secondary.chars|
        decreases |readQ.chars|
      {
        var c := readQ.Get();
        CookOne(c);
        readQ.Counts();
        secondary.Counts();
      }
    }

    /** The loop of tty_read without time limit, from one wake-up to the next sleep or the end: got has been
        read before, nr0 more characters are wanted. */
    method ReadSome(nr0: nat, minimum: nat, got: seq<int>) returns (b: seq<int>, nr: nat, done: bool)
      requires Valid()
      modifies secondary
      ensures Valid()
      ensures nr0 == 0 || Waits(f, old(secondary.chars)) ==>
        secondary.chars == old(secondary.chars) && b == got && nr == nr0 && done == (nr0 == 0)
      ensures nr0 > 0 && !Waits(f, old(secondary.chars)) ==>
        && b == got + Returns(f, old(secondary.chars), nr0) && nr == nr0 - (|b| - |got|)
        && secondary.chars == old(secondary.chars)[Takes(f, old(secondary.chars), nr0)..]
        && done == (f.canon || nr == 0 || |b| >= minimum)
    {
      hide TtyQueue.Valid, Returns, Takes, Ends;
      b, nr, done := got, nr0, true;
      if nr == 0 { return; }
      secondary.Counts();
      if secondary.Empty() || (f.canon && secondary.data == 0 && secondary.Room() > 20) {
        return b, nr, false;
      }
      var eof;
      b, nr, eof := Take(nr, b);
      return b, nr, f.canon || nr == 0 || |b| >= minimum;
    }

    /** GETCH, with the count of line ends. */
    method TakeOne() returns (c: int)
      requires Valid() && secondary.chars != []
      modifies secondary
      ensures Valid() && c == old(secondary.chars[0]) && secondary.chars == old(secondary.chars)[1..]
    {
      hide TtyQueue.Valid, Ends;
      EndsFirst(f, secondary.chars);
      c := secondary.Get();
      if c == f.eof || c == Nl { secondary.Count(-1); }
    }

    /** The inner loop of tty_read. */
    method Take(nr0: nat, got: seq<int>) returns (b: seq<int>, nr: nat, eof: bool)
      requires Valid() && nr0 > 0 && secondary.chars != []
      modifies secondary
      ensures Valid() && b == got + Returns(f, old(secondary.chars), nr0)
        && eof == MeetsEof(f, old(secondary.chars), nr0)
      ensures secondary.chars == old(secondary.chars)[Takes(f, old(secondary.chars), nr0)..]
      ensures nr == nr0 - (|b| - |got|)
    {
      hide TtyQueue.Valid, Ends, Takes, Returns, MeetsEof;
      b, nr, eof := got, nr0, false;
      ghost var s, k := secondary.chars, 0;
      TakesStep(f, s, nr0);
      while true
        invariant Valid() && k <= |s| && secondary.chars == s[k..] && 0 < nr && k + nr == nr0 && secondary.chars != []
        invariant b == got + s[..k] && Takes(f, s, nr0) == k + Takes(f, s[k..], nr)
        decreases nr
      {
        TakesStep(f, s[k..], nr);
        var c := TakeOne();
        k := k + 1;
        if c == f.eof && f.canon {
          ReturnsAre(f, s, nr0, k, true);
          return b, nr, true;
        }
        b := b + [c];
        nr := nr - 1;
        TakesStep(f, s[k..], nr);
        secondary.Counts();
        if nr == 0 || secondary.Empty() { break; }
      }
      ReturnsAre(f, s, nr0, k, false);
    }
  }

  lemma EndsMore(f: Config, s: seq<int>, c: int)
    ensures Ends(f, s + [c]) == Ends(f, s) + if LineEnd(f, c) then 1 else 0
  {
    assert (s + [c])[..|s|] == s;
  }

  lemma TakesStep(f: Config, s: seq<int>, nr: nat)
    ensures nr == 0 || s == [] ==> Takes(f, s, nr) == 0
    ensures nr > 0 && s != [] && f.canon && s[0] == f.eof ==> Takes(f, s, nr) == 1
    ensures nr > 0 && s != [] && !(f.canon && s[0] == f.eof) ==> Takes(f, s, nr) == 1 + Takes(f, s[1..], nr - 1)
  {
  }

  lemma EndsFirst(f: Config, s: seq<int>)
    requires s != []
    ensures Ends(f, s) == Ends(f, s[1..]) + if LineEnd(f, s[0]) then 1 else 0
  {
    EndsSplit(f, s, 1);
    assert s[..1] == [s[0]] && [s[0]][..0] == [] && Ends(f, []) == 0;
  }

  lemma ReturnsAre(f: Config, s: seq<int>, nr: nat, k: nat, eof: bool)
    requires 0 < k <= |s| && Takes(f, s, nr) == k && (eof <==> f.canon && s[k - 1] == f.eof)
    ensures MeetsEof(f, s, nr) == eof && Returns(f, s, nr) == s[..k - if eof then 1 else 0]
  {
  }

  /** tty_read goes on sleeping: nothing is there, or in canonical mode no finished line and much room. */
  predicate Waits(f: Config, s: seq<int>) {
    s == [] || (f.canon && Ends(f, s) == 0 && BufSize - 1 - |s| > 20)
  }

  /** It sleeps when nothing is there; in canonical mode also when there is no newline and no end of file and fewer
      than 1003 characters. */
  lemma WaitsIs(f: Config, s: seq<int>)
    ensures Waits(f, s) <==>
      s == [] || (f.canon && |s| < 1003 && forall i :: 0 <= i < |s| ==> s[i] != 10 && s[i] != f.eof)
  {
    NoEnds(f, s);
  }

  /** While the last character is no line end, the line being typed has not been taken back to its start. */
  lemma LineOpen(f: Config, s: seq<int>, t: seq<int>)
    requires t != [] && |t| <= |s| && t == s[..|t|] && LineStart(f, s) <= |t| && !LineEnd(f, t[|t| - 1])
    ensures LineStart(f, s) < |t| && LineStart(f, t) <= |t| - 1 && Ends(f, t[..|t| - 1]) == Ends(f, t)
  {
    EndsCut(f, t, |t| - 1);
  }

  lemma LineClosed(f: Config, s: seq<int>, t: seq<int>)
    requires |t| <= |s| && t == s[..|t|] && LineStart(f, s) <= |t| && (t == [] || LineEnd(f, t[|t| - 1]))
    ensures |t| == LineStart(f, s) && RubBack(t, |t|) == []
  {
    if |t| > LineStart(f, s) { assert !LineEnd(f, s[|t| - 1]); }
  }

  lemma RubStep(shown: seq<int>, s: seq<int>, k: nat, n: nat)
    requires n < k <= |s|
    ensures s[..k][..k - 1] == s[..k - 1]
    ensures shown + RubBack(s[..k], n) == (shown + Rub(s[k - 1])) + RubBack(s[..k - 1], n)
  {
    assert s[..k][..k - 1] == s[..k - 1];
    assert RubBack(s[..k], n) == Rub(s[k - 1]) + RubBack(s[..k - 1], n);
  }
}
