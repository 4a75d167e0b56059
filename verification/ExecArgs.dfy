/** The argument image of VLinux0.11/fs/exec.c: strings packed backwards across pages, and the pointer
    tables made from them. */
module ExecArgs {
  const PageSize := 4096
  const MaxArgPages := 32
  const BlockSize := 1024
  const DataLimit := 0x4000000
  const Top := PageSize * MaxArgPages - 4
  const ArgBase := DataLimit - MaxArgPages * PageSize

  /** A string without its NUL. */
  type Str = seq<int>

  predicate IsStr(s: Str) { forall i :: 0 <= i < |s| ==> 0 < s[i] < 256 }

  ghost predicate AllStrs(strs: seq<Str>) { forall k :: 0 <= k < |strs| ==> IsStr(strs[k]) }

  /** The strings one behind the other, each with its NUL. */
  function Packed(strs: seq<Str>): seq<int> { if strs == [] then [] else strs[0] + [0] + Packed(strs[1..]) }

  lemma {:induction false} PackedTwo(a: seq<Str>, b: seq<Str>)
    ensures Packed(a + b) == Packed(a) + Packed(b)
  {
    if a == [] {
      assert a + b == b;
    } else {
      assert (a + b)[1..] == a[1..] + b && (a + b)[0] == a[0];
      PackedTwo(a[1..], b);
      assert a[0] + [0] + (Packed(a[1..]) + Packed(b)) == a[0] + [0] + Packed(a[1..]) + Packed(b);
    }
  }

  ghost predicate Chars(s: seq<int>) { forall i :: 0 <= i < |s| ==> 0 <= s[i] < 256 }

  lemma {:induction false} PackedChars(a: seq<Str>)
    requires AllStrs(a)
    ensures Chars(Packed(a))
  {
    if a != [] {
      assert IsStr(a[0]);
      PackedChars(a[1..]);
    }
  }

  lemma {:induction false} PackedLonger(a: seq<Str>)
    ensures |Packed(a)| >= |a|
  {
    if a != [] { PackedLonger(a[1..]); }
  }

  // ---------- the pages ----------

  datatype Page = NoPage | Bytes(b: seq<int>)

  ghost predicate PagesOk(page: seq<Page>) {
    |page| == MaxArgPages && forall i :: 0 <= i < |page| && page[i].Bytes? ==> |page[i].b| == PageSize
  }

  /** The byte at address a, -1 where no page is. */
  ghost function ByteAt(page: seq<Page>, a: nat): int
    requires PagesOk(page)
  {
    if a / PageSize < |page| && page[a / PageSize].Bytes? then page[a / PageSize].b[a % PageSize] else -1
  }

  /** The bytes s stand at address a. */
  ghost predicate Laid(page: seq<Page>, a: nat, s: seq<int>)
    requires PagesOk(page)
  {
    forall i :: 0 <= i < |s| ==> ByteAt(page, a + i) == s[i]
  }

  /** Outside [lo, hi) every byte that was there is still there. */
  ghost predicate Kept(page: seq<Page>, page': seq<Page>, lo: nat, hi: nat)
    requires PagesOk(page) && PagesOk(page')
  {
    forall a: nat :: (a < lo || a >= hi) && ByteAt(page, a) != -1 ==> ByteAt(page', a) == ByteAt(page, a)
  }

  function Stored(page: seq<Page>, a: nat, c: int): seq<Page>
    requires a / PageSize < |page| && page[a / PageSize].Bytes? && a % PageSize < |page[a / PageSize].b|
  {
    page[a / PageSize := Bytes(page[a / PageSize].b[a % PageSize := c])]
  }

  lemma StoredBytes(page: seq<Page>, a: nat, c: int)
    requires PagesOk(page) && a / PageSize < |page| && page[a / PageSize].Bytes?
    ensures PagesOk(Stored(page, a, c))
      && forall x: nat :: ByteAt(Stored(page, a, c), x) == if x == a then c else ByteAt(page, x)
  {
    forall x: nat ensures ByteAt(Stored(page, a, c), x) == if x == a then c else ByteAt(page, x) {
      if x / PageSize == a / PageSize && x % PageSize == a % PageSize { assert x == a; }
    }
  }

  lemma NewPageKeeps(page: seq<Page>, i: nat, zeros: seq<int>)
    requires PagesOk(page) && i < |page| && page[i].NoPage? && |zeros| == PageSize
    ensures PagesOk(page[i := Bytes(zeros)])
      && forall x: nat :: ByteAt(page, x) != -1 ==> ByteAt(page[i := Bytes(zeros)], x) == ByteAt(page, x)
  {
  }

  /** While bytes are stored downwards, offset is the place in the current page, or 0 before another page is needed. */
  predicate Spot(page: seq<Page>, p: nat, offset: int) {
    offset == 0 || (offset == p % PageSize && p / PageSize < |page| && page[p / PageSize].Bytes?)
  }

  /** The pages that are not there, and those of them that hold bytes of [lo, hi). */
  ghost function Blanks(page: seq<Page>): set<nat> { set i: nat | i < |page| && page[i].NoPage? }

  ghost function Lacking(page: seq<Page>, lo: nat, hi: nat): set<nat> {
    set i | i in Blanks(page) && lo < hi && PageSize * i < hi && lo < PageSize * i + PageSize
  }

  /** The pages for [lo, hi) have been taken from the free ones, and no other. */
  ghost predicate Paid(page0: seq<Page>, free0: nat, page: seq<Page>, free: nat, lo: nat, hi: nat) {
    Blanks(page) == Blanks(page0) - Lacking(page0, lo, hi) && free + |Lacking(page0, lo, hi)| == free0
  }

  lemma PaidNothing(page: seq<Page>, free: nat, p: nat)
    ensures Paid(page, free, page, free, p, p)
  {
    assert Lacking(page, p, p) == {};
  }

  /** Two stretches, one below the other. */
  lemma PaidBoth(page0: seq<Page>, free0: nat, page1: seq<Page>, free1: nat, page2: seq<Page>, free2: nat, lo: nat,
                 mid: nat, hi: nat)
    requires lo <= mid <= hi && Paid(page0, free0, page1, free1, mid, hi) && Paid(page1, free1, page2, free2, lo, mid)
    ensures Paid(page0, free0, page2, free2, lo, hi)
  {
    LackingBoth(page0, page1, lo, mid, hi);
  }

  lemma LackingBoth(page0: seq<Page>, page1: seq<Page>, lo: nat, mid: nat, hi: nat)
    requires lo <= mid <= hi && Blanks(page1) == Blanks(page0) - Lacking(page0, mid, hi)
    ensures Lacking(page0, lo, hi) == Lacking(page0, mid, hi) + Lacking(page1, lo, mid)
    ensures Lacking(page0, mid, hi) !! Lacking(page1, lo, mid)
    ensures |Lacking(page0, lo, hi)| == |Lacking(page0, mid, hi)| + |Lacking(page1, lo, mid)|
  {
    hide Blanks;
  }

  /** A longer stretch lacks no fewer pages. */
  lemma LackingMore(page: seq<Page>, lo: nat, mid: nat, hi: nat)
    requires lo <= mid
    ensures |Lacking(page, mid, hi)| <= |Lacking(page, lo, hi)|
  {
    hide Blanks;
    FewerPages(Lacking(page, mid, hi), Lacking(page, lo, hi));
  }

  lemma {:induction false} FewerPages(a: set<nat>, b: set<nat>)
    requires a <= b
    ensures |a| <= |b|
  {
    if x :| x in a { FewerPages(a - {x}, b - {x}); }
  }

  /** The one page below p. */
  lemma LackingOne(page: seq<Page>, p: nat)
    requires p > 0
    ensures Lacking(page, p - 1, p) == if (p - 1) / PageSize in Blanks(page) then {(p - 1) / PageSize} else {}
    ensures |Lacking(page, p - 1, p)| == if (p - 1) / PageSize in Blanks(page) then 1 else 0
  {
    hide Blanks;
    assert Lacking(page, p - 1, p) <= {(p - 1) / PageSize};
  }

  /** How far down n bytes below p reach. */
  function Below(p: nat, n: nat): nat { if n <= p then p - n else 0 }

  /** What copy_strings comes back with: the new p, 0 for a failure; or the page index ran out of its array. */
  datatype Copied = Wild | P(p: nat)

  datatype Step = WildStep | NoMemory | Stepped(p: nat, offset: int)

  class ArgPages {
    var page: seq<Page>
    var free: nat

    ghost predicate Valid()
      reads this
    {
      PagesOk(page)
    }

    constructor (free: nat)
      ensures Valid() && this.free == free && forall a: nat :: ByteAt(page, a) == -1
    {
      page, this.free := seq(MaxArgPages, _ => NoPage), free;
    }

    /** One byte below p. */
    method PutByte(c: int, p0: nat, offset0: int) returns (r: Step)
      requires Valid() && p0 <= PageSize * MaxArgPages && Spot(page, p0, offset0) && 0 <= c < 256
      modifies this
      ensures Valid() && (r.WildStep? <==> p0 == 0)
      ensures r.WildStep? ==> page == old(page) && free == old(free)
      ensures r.NoMemory? ==> p0 > 0 && |Lacking(old(page), p0 - 1, p0)| > old(free)
      ensures r.Stepped? ==> p0 > 0 && Paid(old(page), old(free), page, free, p0 - 1, p0)
      ensures r.Stepped? ==>
        && r.p == p0 - 1 && Spot(page, r.p, r.offset) && ByteAt(page, r.p) == c
        && forall a: nat :: a != r.p && ByteAt(old(page), a) != -1 ==> ByteAt(page, a) == ByteAt(old(page), a)
    {
      if p0 == 0 { return WildStep; }
      LackingOne(page, p0);
      var p, offset := p0 - 1, offset0 - 1;
      if offset < 0 {
        offset := p % PageSize;
        if page[p / PageSize].NoPage? {
          if free == 0 { return NoMemory; }
          free := free - 1;
          var zeros := seq(PageSize, _ => 0);
          NewPageKeeps(page, p / PageSize, zeros);
          page := page[p / PageSize := Bytes(zeros)];
        }
      }
      StoredBytes(page, p, c);
      page := page[p / PageSize := Bytes(page[p / PageSize].b[offset := c])];
      return Stepped(p, offset);
    }

    /** One string with its NUL below p, on top of what has been laid already. */
    method PutString(s: Str, p0: nat, offset0: int, ghost rest: seq<int>) returns (r: Step)
      requires Valid() && p0 <= PageSize * MaxArgPages && Spot(page, p0, offset0) && IsStr(s) && Laid(page, p0, rest)
        && Chars(rest)
      modifies this
      ensures Valid()
      ensures r.WildStep? ==> |s| + 1 > p0 && Paid(old(page), old(free), page, free, 0, p0)
      ensures r.NoMemory? ==> |Lacking(old(page), Below(p0, |s| + 1), p0)| > old(free)
      ensures r.Stepped? ==> r.p <= p0 && Paid(old(page), old(free), page, free, r.p, p0)
      ensures r.Stepped? ==>
        && r.p + |s| + 1 == p0 && Spot(page, r.p, r.offset) && Laid(page, r.p, s + [0] + rest)
        && Kept(old(page), page, r.p, p0)
    {
      hide ByteAt, Paid, Lacking;
      var p: nat, offset: int, len: nat := p0, offset0, |s| + 1;
      ghost var all := s + [0] + rest;
      assert all[|s| + 1..] == rest;
      PaidNothing(page, free, p0);
      while len > 0
        invariant len <= |s| + 1 && p + (|s| + 1 - len) == p0 && Valid()
          && Paid(old(page), old(free), page, free, p, p0)
        invariant Spot(page, p, offset) && Laid(page, p, all[len..]) && Kept(old(page), page, p, p0)
      {
        ghost var before, freeBefore := page, free;
        len := len - 1;
        var step := PutByte(if len < |s| then s[len] else 0, p, offset);
        if step.NoMemory? { OutOfPages(old(page), old(free), before, freeBefore, Below(p0, |s| + 1), p - 1, p, p0); }
        if !step.Stepped? { return step; }
        PaidBoth(old(page), old(free), before, freeBefore, page, free, step.p, p, p0);
        LaidMore(before, page, p, all, len);
        KeptMore(old(page), before, page, p, p0);
        p, offset := step.p, step.offset;
      }
      assert all[0..] == all;
      return Stepped(p, offset);
    }

    /** Copies the strings below p, the last one highest. The test p - len < 0 never holds, because p is
        unsigned: strings that do not fit drive p below 0 and the page index out of its array. */
    method CopyStrings(strs: seq<Str>, p0: nat) returns (r: Copied)
      requires Valid() && p0 <= PageSize * MaxArgPages && AllStrs(strs)
      modifies this
      ensures Valid() && r == Fate(old(page), old(free), p0, |Packed(strs)|)
      ensures r.P? && r.p > 0 ==>
        && r.p + |Packed(strs)| == p0 && Laid(page, r.p, Packed(strs)) && Kept(old(page), page, r.p, p0)
        && Paid(old(page), old(free), page, free, r.p, p0)
    {
      hide ByteAt, Packed, Paid, Lacking;
      if p0 == 0 { return P(0); }
      var p: nat, argc: nat, offset: int := p0, |strs|, 0;
      NonePacked(page, p0, strs);
      PaidNothing(page, free, p0);
      assert strs[0..] == strs;
      while argc > 0
        invariant argc <= |strs| && Valid() && Paid(old(page), old(free), page, free, p, p0)
        invariant p + |Packed(strs[argc..])| == p0 && Spot(page, p, offset) && Laid(page, p, Packed(strs[argc..]))
          && Kept(old(page), page, p, p0)
      {
        ghost var before, freeBefore := page, free;
        argc := argc - 1;
        PackedFrom(strs, argc);
        PackedChars(strs[argc + 1..]);
        var step := PutString(strs[argc], p, offset, Packed(strs[argc + 1..]));
        if step.WildStep? {
          PaidBoth(old(page), old(free), before, freeBefore, page, free, 0, p, p0);
          PaidEnough(old(page), old(free), page, free, 0, p0);
          return Wild;
        }
        if step.NoMemory? {
          OutOfPages(old(page), old(free), before, freeBefore, Below(p0, |Packed(strs)|),
            Below(p, |strs[argc]| + 1), p, p0);
          return P(0);
        }
        PaidBoth(old(page), old(free), before, freeBefore, page, free, step.p, p, p0);
        KeptBoth(old(page), before, page, step.p, p, p0);
        p, offset := step.p, step.offset;
      }
      PaidEnough(old(page), old(free), page, free, p, p0);
      return P(p);
    }
  }

  /** What copy_strings comes to with n bytes to store below p0: nothing left at p0 == 0; too few pages; a page index
      below 0 when the bytes do not fit; or all of them stored. */
  ghost function Fate(page: seq<Page>, free: nat, p0: nat, n: nat): Copied {
    if p0 == 0 || |Lacking(page, Below(p0, n), p0)| > free then P(0) else if n > p0 then Wild else P(p0 - n)
  }

  lemma PaidEnough(page0: seq<Page>, free0: nat, page: seq<Page>, free: nat, lo: nat, hi: nat)
    requires Paid(page0, free0, page, free, lo, hi)
    ensures |Lacking(page0, lo, hi)| <= free0
  {
    hide Lacking, Blanks;
  }

  /** Too few pages for the rest are too few for the whole. */
  lemma OutOfPages(page0: seq<Page>, free0: nat, page1: seq<Page>, free1: nat, end: nat, lo: nat, mid: nat, hi: nat)
    requires end <= lo <= mid <= hi && Paid(page0, free0, page1, free1, mid, hi) && |Lacking(page1, lo, mid)| > free1
    ensures |Lacking(page0, end, hi)| > free0
  {
    hide Lacking, Blanks;
    LackingBoth(page0, page1, lo, mid, hi);
    LackingMore(page0, end, lo, hi);
  }

  lemma NonePacked(page: seq<Page>, p: nat, strs: seq<Str>)
    requires PagesOk(page)
    ensures Packed(strs[|strs|..]) == [] && Laid(page, p, []) && Kept(page, page, p, p)
  {
  }

  lemma {:induction false} PackedFrom(strs: seq<Str>, k: nat)
    requires k < |strs|
    ensures Packed(strs[k..]) == strs[k] + [0] + Packed(strs[k + 1..])
    ensures |Packed(strs)| >= |Packed(strs[k..])|
  {
    assert strs[k..][1..] == strs[k + 1..];
    assert strs == strs[..k] + strs[k..];
    PackedTwo(strs[..k], strs[k..]);
  }

  lemma LaidMore(before: seq<Page>, page: seq<Page>, p: nat, all: seq<int>, len: nat)
    requires PagesOk(before) && PagesOk(page) && len < |all| && p > 0 && Laid(before, p, all[len + 1..])
      && ByteAt(page, p - 1) == all[len]
    requires Chars(all)
    requires forall a: nat :: a != p - 1 && ByteAt(before, a) != -1 ==> ByteAt(page, a) == ByteAt(before, a)
    ensures Laid(page, p - 1, all[len..])
  {
    hide ByteAt;
    forall i | 0 <= i < |all[len..]| ensures ByteAt(page, p - 1 + i) == all[len..][i] {
      if i > 0 { assert ByteAt(before, p + (i - 1)) == all[len + 1..][i - 1]; }
    }
  }

  lemma KeptMore(page0: seq<Page>, before: seq<Page>, page: seq<Page>, p: nat, p0: nat)
    requires PagesOk(page0) && PagesOk(before) && PagesOk(page) && 0 < p <= p0 && Kept(page0, before, p, p0)
    requires forall a: nat :: a != p - 1 && ByteAt(before, a) != -1 ==> ByteAt(page, a) == ByteAt(before, a)
    ensures Kept(page0, page, p - 1, p0)
  {
    hide ByteAt;
  }

  lemma KeptBoth(page0: seq<Page>, page1: seq<Page>, page2: seq<Page>, lo: nat, mid: nat, hi: nat)
    requires PagesOk(page0) && PagesOk(page1) && PagesOk(page2) && lo <= mid <= hi && Kept(page0, page1, mid, hi)
      && Kept(page1, page2, lo, mid)
    ensures Kept(page0, page2, lo, hi)
  {
    hide ByteAt;
  }

  // ---------- the pointer tables ----------

  /** User memory; a byte never stored to reads as 0. */
  type Memory = map<nat, int>

  function Byte(m: Memory, a: nat): int { if a in m then m[a] else 0 }

  function Word(m: Memory, a: nat): int {
    Byte(m, a) + 256 * (Byte(m, a + 1) + 256 * (Byte(m, a + 2) + 256 * Byte(m, a + 3)))
  }

  /** put_fs_long. */
  function Put(m: Memory, a: nat, v: nat): Memory {
    m[a := v % 256][a + 1 := v / 256 % 256][a + 2 := v / 65536 % 256][a + 3 := v / 16777216 % 256]
  }

  lemma PutWord(m: Memory, a: nat, v: nat)
    requires v < 0x1_0000_0000
    ensures Word(Put(m, a, v), a) == v
    ensures forall x: nat :: x < a || x >= a + 4 ==> Byte(Put(m, a, v), x) == Byte(m, x)
    ensures forall x: nat :: x + 4 <= a || x >= a + 4 ==> Word(Put(m, a, v), x) == Word(m, x)
  {
    PutBytes(m, a, v);
    FourBytes(v);
    hide Put, Byte;
  }

  lemma PutBytes(m: Memory, a: nat, v: nat)
    ensures forall x: nat :: x < a || x >= a + 4 ==> Byte(Put(m, a, v), x) == Byte(m, x)
    ensures Byte(Put(m, a, v), a) == v % 256 && Byte(Put(m, a, v), a + 1) == v / 256 % 256
    ensures Byte(Put(m, a, v), a + 2) == v / 65536 % 256 && Byte(Put(m, a, v), a + 3) == v / 16777216 % 256
  {
  }

  lemma FourBytes(v: nat)
    requires v < 0x1_0000_0000
    ensures v == v % 256 + 256 * (v / 256 % 256 + 256 * (v / 65536 % 256 + 256 * (v / 16777216 % 256)))
  {
    var q := v / 256;
    assert v == 256 * q + v % 256 && q / 256 == v / 65536 && q / 65536 == v / 16777216;
  }

  ghost predicate MemLaid(m: Memory, a: nat, s: seq<int>) { forall i :: 0 <= i < |s| ==> Byte(m, a + i) == s[i] }

  /** Where the k-th of the strings begins. */
  function Start(strs: seq<Str>, k: nat): nat
    requires k <= |strs|
  {
    |Packed(strs[..k])|
  }

  lemma StartNext(strs: seq<Str>, k: nat)
    requires k < |strs|
    ensures Start(strs, k + 1) == Start(strs, k) + |strs[k]| + 1 <= |Packed(strs)|
    ensures forall i :: 0 <= i <= |strs[k]| ==> Packed(strs)[Start(strs, k) + i] == (strs[k] + [0])[i]
  {
    hide Packed;
    PackedAt(strs, k);
    var a, b, c := Packed(strs[..k]), strs[k] + [0], Packed(strs[k + 1..]);
    forall i | 0 <= i <= |strs[k]| ensures Packed(strs)[|a| + i] == b[i] { assert (a + b + c)[|a| + i] == b[i]; }
  }

  lemma PackedAt(strs: seq<Str>, k: nat)
    requires k < |strs|
    ensures Packed(strs[..k + 1]) == Packed(strs[..k]) + (strs[k] + [0])
    ensures Packed(strs) == Packed(strs[..k]) + (strs[k] + [0]) + Packed(strs[k + 1..])
  {
    hide Packed;
    CutAt(strs, k);
    PackedThree(strs[..k], strs[k], strs[k + 1..]);
  }

  lemma CutAt(strs: seq<Str>, k: nat)
    requires k < |strs|
    ensures strs[..k + 1] == strs[..k] + [strs[k]] && strs[..k] + [strs[k]] + strs[k + 1..] == strs
  {
  }

  lemma PackedThree(a: seq<Str>, s: Str, c: seq<Str>)
    ensures Packed(a + [s]) == Packed(a) + (s + [0])
    ensures Packed(a + [s] + c) == Packed(a) + (s + [0]) + Packed(c)
  {
    hide Packed;
    PackedOne(s);
    PackedTwo(a, [s]);
    PackedTwo(a + [s], c);
  }

  lemma PackedOne(s: Str)
    ensures Packed([s]) == s + [0]
  {
    assert [s][1..] == [] && Packed([]) == [];
  }

  /** Entry k of a table at t points at string first + k of those packed at p. */
  ghost predicate Points(m: Memory, t: nat, p: nat, strs: seq<Str>, first: nat, n: nat) {
    first + n <= |strs| && forall k :: 0 <= k < n ==> Word(m, t + 4 * k) == p + Start(strs, first + k)
  }

  /** The whole stack: argc, argv, envp, the two tables ending in NULL, and above them the strings. */
  ghost predicate Stack(m: Memory, sp: nat, p: nat, args: seq<Str>, envs: seq<Str>) {
    && Word(m, sp) == |args| && Word(m, sp + 4) == sp + 12 && Word(m, sp + 8) == sp + 12 + 4 * (|args| + 1)
    && Points(m, sp + 12, p, args + envs, 0, |args|) && Word(m, sp + 12 + 4 * |args|) == 0
    && Points(m, sp + 16 + 4 * |args|, p, args + envs, |args|, |envs|)
    && Word(m, sp + 16 + 4 * |args| + 4 * |envs|) == 0
    && sp + 20 + 4 * |args| + 4 * |envs| <= p && MemLaid(m, p, Packed(args + envs))
  }

  /** Every pointer of the tables addresses its string, with a NUL behind it. */
  lemma PointsAtStrings(m: Memory, sp: nat, p: nat, args: seq<Str>, envs: seq<Str>, k: nat)
    requires Stack(m, sp, p, args, envs)
    ensures k < |args| ==> Word(m, sp + 12 + 4 * k) >= p && MemLaid(m, Word(m, sp + 12 + 4 * k), args[k] + [0])
    ensures k < |envs| ==>
      Word(m, sp + 16 + 4 * |args| + 4 * k) >= p && MemLaid(m, Word(m, sp + 16 + 4 * |args| + 4 * k), envs[k] + [0])
  {
    hide Word, Packed;
    var all := args + envs;
    if k < |args| { StringAt(m, p, all, k); assert all[k] == args[k]; }
    if k < |envs| { StringAt(m, p, all, |args| + k); assert all[|args| + k] == envs[k]; }
  }

  lemma StringAt(m: Memory, p: nat, strs: seq<Str>, k: nat)
    requires MemLaid(m, p, Packed(strs)) && k < |strs|
    ensures MemLaid(m, p + Start(strs, k), strs[k] + [0])
  {
    hide Packed;
    StartNext(strs, k);
    forall i | 0 <= i < |strs[k] + [0]| ensures Byte(m, p + Start(strs, k) + i) == (strs[k] + [0])[i] {
      assert Byte(m, p + (Start(strs, k) + i)) == Packed(strs)[Start(strs, k) + i];
    }
  }

  /** Address a of the new data segment lies in one of the pages. */
  predicate InPages(page: seq<Page>, a: nat) {
    ArgBase <= a < DataLimit && (a - ArgBase) / PageSize < |page| && page[(a - ArgBase) / PageSize].Bytes?
  }

  lemma LaidSame(m: Memory, m': Memory, p: nat, s: seq<int>)
    requires MemLaid(m, p, s) && forall x: nat :: x >= p ==> Byte(m', x) == Byte(m, x)
    ensures MemLaid(m', p, s)
  {
  }

  class UserMemory {
    var mem: Memory

    constructor ()
      ensures mem == map[]
    {
      mem := map[];
    }

    /** change_ldt: the old memory is gone, the pages stand at the top of the data segment. */
    method MapPages(page: seq<Page>)
      requires PagesOk(page)
      modifies this
      ensures Mapped(page, mem)
    {
      mem := map a: nat | ArgBase <= a < DataLimit && InPages(page, a) ::
        page[(a - ArgBase) / PageSize].b[(a - ArgBase) % PageSize];
      forall x: nat | ByteAt(page, x) != -1
        ensures Byte(mem, x + DataLimit - MaxArgPages * PageSize) == ByteAt(page, x)
      {
        assert x + ArgBase in mem;
      }
    }

    method PutLong(v: nat, a: nat)
      requires v < 0x1_0000_0000
      modifies this
      ensures mem == Put(old(mem), a, v)
    {
      var m := mem;
      m := m[a := v % 256];
      m := m[a + 1 := v / 256 % 256];
      m := m[a + 2 := v / 65536 % 256];
      mem := m[a + 3 := v / 16777216 % 256];
    }

    /** while (get_fs_byte(p++)). */
    method SkipString(p0: nat, ghost s: Str) returns (p: nat)
      requires IsStr(s) && MemLaid(mem, p0, s + [0])
      ensures p == p0 + |s| + 1
    {
      p := p0;
      while Byte(mem, p) != 0
        invariant p0 <= p <= p0 + |s|
        decreases p0 + |s| - p
      {
        assert Byte(mem, p0 + (p - p0)) == (s + [0])[p - p0];
        p := p + 1;
      }
      assert Byte(mem, p0 + (p - p0)) == (s + [0])[p - p0];
      p := p + 1;
    }

    /** A table of n pointers from t on, and NULL, for the strings from p on; p0 is where all strings begin. */
    method FillTable(n: nat, t0: nat, p1: nat, ghost strs: seq<Str>, ghost first: nat, ghost p0: nat) returns (p: nat)
      requires AllStrs(strs) && first + n <= |strs| && MemLaid(mem, p0, Packed(strs)) && p1 == p0 + Start(strs, first)
      requires t0 + 4 * n + 4 <= p0 && p0 + |Packed(strs)| < 0x1_0000_0000
      modifies this
      ensures p == p0 + Start(strs, first + n) && Points(mem, t0, p0, strs, first, n) && Word(mem, t0 + 4 * n) == 0
      ensures forall x: nat :: x < t0 || x >= t0 + 4 * n + 4 ==> Byte(mem, x) == Byte(old(mem), x)
      ensures forall x: nat :: x + 4 <= t0 || x >= t0 + 4 * n + 4 ==> Word(mem, x) == Word(old(mem), x)
    {
      hide Word, Put, Packed, Byte;
      p := p1;
      var t, k := t0, 0;
      while k < n
        invariant k <= n && t == t0 + 4 * k && p == p0 + Start(strs, first + k) && Points(mem, t0, p0, strs, first, k)
        invariant forall x: nat :: x < t0 || x >= t0 + 4 * k ==> Byte(mem, x) == Byte(old(mem), x)
        invariant forall x: nat :: x + 4 <= t0 || x >= t0 + 4 * k ==> Word(mem, x) == Word(old(mem), x)
      {
        StartNext(strs, first + k);
        PutWord(mem, t, p);
        PutLong(p, t);
        assert MemLaid(mem, p0, Packed(strs));
        StringAt(mem, p0, strs, first + k);
        assert IsStr(strs[first + k]);
        p := SkipString(p, strs[first + k]);
        t := t + 4;
        k := k + 1;
      }
      PutWord(mem, t, 0);
      PutLong(0, t);
    }

    /** create_tables. */
    method CreateTables(p0: nat, ghost args: seq<Str>, ghost envs: seq<Str>, argc: nat, envc: nat) returns (sp: nat)
      requires argc == |args| && envc == |envs| && AllStrs(args) && AllStrs(envs)
        && MemLaid(mem, p0, Packed(args + envs))
      requires 4 * (argc + envc) + 24 <= p0 && p0 + |Packed(args + envs)| < 0x1_0000_0000
      modifies this
      ensures Stack(mem, sp, p0, args, envs) && sp % 4 == 0 && sp + 4 * (argc + envc) + 24 > p0
    {
      hide Word, Put, Packed, Byte, MemLaid, Points;
      ghost var m0 := mem;
      sp := p0 - p0 % 4;
      sp := sp - 4 * (envc + 1);
      var envp := sp;
      sp := sp - 4 * (argc + 1);
      var argv := sp;
      sp := PutHeader(sp, envp, argv, argc);
      ghost var all := args + envs;
      LaidSame(m0, mem, p0, Packed(all));
      assert all[..0] == [];
      NothingPacked();
      ghost var m1 := mem;
      var p := FillTable(argc, argv, p0, all, 0, p0);
      LaidSame(m1, mem, p0, Packed(all));
      ghost var m := mem;
      p := FillTable(envc, envp, p, all, argc, p0);
      LaidSame(m, mem, p0, Packed(all));
      PointsSame(m, mem, argv, p0, all, argc, envp);
    }

    method PutHeader(sp0: nat, envp: nat, argv: nat, argc: nat) returns (sp: nat)
      requires sp0 >= 12 && envp < 0x1_0000_0000 && argv < 0x1_0000_0000 && argc < 0x1_0000_0000
      modifies this
      ensures sp == sp0 - 12 && Word(mem, sp) == argc && Word(mem, sp + 4) == argv && Word(mem, sp + 8) == envp
      ensures forall x: nat :: x < sp || x >= sp0 ==> Byte(mem, x) == Byte(old(mem), x)
    {
      hide Word, Put, Byte;
      sp := sp0 - 4;
      PutWord(mem, sp, envp);
      PutLong(envp, sp);
      sp := sp - 4;
      PutWord(mem, sp, argv);
      PutLong(argv, sp);
      sp := sp - 4;
      PutWord(mem, sp, argc);
      PutLong(argc, sp);
    }
  }

  lemma NothingPacked()
    ensures Packed([]) == []
  {
  }

  lemma PointsSame(m: Memory, m': Memory, t: nat, p: nat, strs: seq<Str>, n: nat, above: nat)
    requires Points(m, t, p, strs, 0, n) && t + 4 * n <= above
      && forall x: nat :: x + 4 <= above ==> Word(m', x) == Word(m, x)
    ensures Points(m', t, p, strs, 0, n)
  {
    hide Word;
  }

  // ---------- the arguments of a script ----------

  const Newline := 10
  const Slash := 47

  predicate Blank(c: int) { c == 32 || c == 9 }

  datatype OptStr = NoStr | SomeStr(s: Str)

  /** The interpreter of a script, its name without directories, and its argument; or none can be found. */
  datatype Bang = NoInterp | Script(interp: Str, iName: Str, iArg: OptStr)

  /** What a script brings along are strings. */
  predicate BangOk(b: Bang) { b.Script? ==> IsStr(b.iName) && (b.iArg.SomeStr? ==> IsStr(b.iArg.s)) }

  ghost predicate NoBlank(s: Str) { forall i :: 0 <= i < |s| ==> !Blank(s[i]) }

  /** The line is k blanks, a name, and if a blank follows, the rest as argument. */
  ghost predicate Reads(line: Str, k: nat, b: Bang) {
    && k < |line| && (forall i :: 0 <= i < k ==> Blank(line[i])) && !Blank(line[k])
    && b.Script? && b.interp != [] && NoBlank(b.interp)
    && if b.iArg.NoStr? then line[k..] == b.interp
       else (k + |b.interp| < |line| && Blank(line[k + |b.interp|])
             && line[k..] == b.interp + [line[k + |b.interp|]] + b.iArg.s)
  }

  /** What follows the last slash. */
  ghost predicate LastPart(name: Str, part: Str) {
    |part| <= |name| && name[|name| - |part|..] == part && Slash !in part
      && (|part| < |name| ==> name[|name| - |part| - 1] == Slash)
  }

  /** strchr: the first newline, or the end. */
  method FindNewline(text: Str) returns (end: nat)
    ensures end <= |text| && Newline !in text[..end] && (end < |text| ==> text[end] == Newline)
  {
    end := 0;
    while end < |text| && text[end] != Newline
      invariant end <= |text| && Newline !in text[..end]
    {
      end := end + 1;
    }
  }

  method SkipBlanks(line: Str) returns (cp: nat)
    ensures cp <= |line| && (forall i :: 0 <= i < cp ==> Blank(line[i])) && (cp < |line| ==> !Blank(line[cp]))
  {
    cp := 0;
    while cp < |line| && Blank(line[cp])
      invariant cp <= |line| && forall i :: 0 <= i < cp ==> Blank(line[i])
    {
      cp := cp + 1;
    }
  }

  /** The end of the name that begins at start, and the place behind its last slash. */
  method ScanName(line: Str, start: nat) returns (cp: nat, name: nat)
    requires start < |line| && !Blank(line[start])
    ensures start < cp <= |line| && (forall i :: start <= i < cp ==> !Blank(line[i]))
      && (cp < |line| ==> Blank(line[cp]))
    ensures start <= name <= cp && (forall i :: name <= i < cp ==> line[i] != Slash)
      && (name > start ==> line[name - 1] == Slash)
  {
    cp, name := start, start;
    while cp < |line| && !Blank(line[cp])
      invariant start <= name <= cp <= |line| && (forall i :: start <= i < cp ==> !Blank(line[i]))
      invariant (forall i :: name <= i < cp ==> line[i] != Slash) && (name > start ==> line[name - 1] == Slash)
    {
      if line[cp] == Slash { name := cp + 1; }
      cp := cp + 1;
    }
  }

  /** What stands before the first c. */
  function UpTo(s: seq<int>, c: int): seq<int> { if s == [] || s[0] == c then [] else [s[0]] + UpTo(s[1..], c) }

  lemma {:induction false} UpToIs(s: seq<int>, c: int, end: nat)
    requires end <= |s| && c !in s[..end] && (end < |s| ==> s[end] == c)
    ensures UpTo(s, c) == s[..end]
  {
    if end > 0 {
      var rest := s[1..];
      assert forall i :: 0 <= i < end - 1 ==> rest[i] == s[i + 1] && s[..end][i + 1] == s[i + 1];
      assert [s[0]] + rest[..end - 1] == s[..end];
      UpToIs(rest, c, end - 1);
    }
  }

  /** The text of a block behind its first two characters, up to a NUL or the end of the block, and its first line. */
  function Text(block: seq<int>): Str
    requires |block| == BlockSize
  {
    UpTo(block[2..], 0)
  }

  function FirstLine(block: seq<int>): Str
    requires |block| == BlockSize
  {
    UpTo(Text(block), Newline)
  }

  lemma {:induction false} UpToSays(s: seq<int>, c: int)
    ensures UpTo(s, c) <= s && c !in UpTo(s, c) && (|UpTo(s, c)| < |s| ==> s[|UpTo(s, c)|] == c)
  {
    if s != [] && s[0] != c { UpToSays(s[1..], c); }
  }

  lemma {:induction false} UpToPast(s: seq<int>, c: int, n: nat)
    requires n < |s| && forall i :: 0 <= i <= n ==> s[i] != c
    ensures n < |UpTo(s, c)|
  {
    if n > 0 { UpToPast(s[1..], c, n - 1); }
  }

  /** What the text behind the first two characters means: spaces and tabs up to s, the interpreter up to e, whose last
      part begins at t, and unless the line ends there a space or tab and the argument; at n stands the newline, and no
      NUL and no other newline before it. */
  ghost predicate NamedBy(text: seq<int>, s: nat, t: nat, e: nat, n: nat, b: Bang) {
    && s < e <= n < |text| && s <= t <= e && text[n] == 10
    && (forall i :: 0 <= i < n ==> text[i] != 10 && text[i] != 0)
    && (forall i :: 0 <= i < s ==> text[i] in {32, 9}) && (forall i :: s <= i < e ==> text[i] !in {32, 9})
    && (t > s ==> text[t - 1] == 47) && (forall i :: t <= i < e ==> text[i] != 47)
    && b.Script? && b.interp == text[s..e] && b.iName == text[t..e]
    && if e == n then b.iArg == NoStr else text[e] in {32, 9} && b.iArg == SomeStr(text[e + 1..n])
  }

  /** n is where the first line of the text ends. */
  ghost predicate LineEndsAt(text: seq<int>, n: nat) {
    n < |text| && text[n] == 10 && forall i :: 0 <= i < n ==> text[i] != 10 && text[i] != 0
  }

  lemma TextSays(block: seq<int>)
    requires |block| == BlockSize
    ensures FirstLine(block) <= Text(block) <= block[2..]
    ensures Newline in Text(block) ==> LineEndsAt(block[2..], |FirstLine(block)|)
    ensures forall n :: LineEndsAt(block[2..], n) ==> Newline in Text(block) && |FirstLine(block)| == n
  {
    hide UpTo;
    UpToSays(block[2..], 0);
    UpToSays(Text(block), Newline);
    if |FirstLine(block)| == |Text(block)| { assert FirstLine(block) == Text(block); }
    forall n: nat | LineEndsAt(block[2..], n) ensures Newline in Text(block) && |FirstLine(block)| == n {
      UpToPast(block[2..], 0, n);
      assert forall i :: 0 <= i <= n ==> Text(block)[i] == block[2..][i];
      UpToIs(Text(block), Newline, n);
    }
  }

  lemma BangSays(text: seq<int>, line: Str, k: nat, b: Bang)
    requires LineEndsAt(text, |line|) && line <= text && Reads(line, k, b) && LastPart(b.interp, b.iName)
    ensures exists t, e :: NamedBy(text, k, t, e, |line|, b)
  {
    hide LastPart, Reads;
    LineParts(line, k, b);
    var e := k + |b.interp|;
    PartSays(b.interp, b.iName);
    var t := e - |b.iName|;
    NameInLine(line, b.interp, k, t, e, b.iName);
    NamedInText(text, line, k, t, e, b);
  }

  lemma NamedInText(text: seq<int>, line: Str, k: nat, t: nat, e: nat, b: Bang)
    requires LineEndsAt(text, |line|) && line <= text && k < e <= |line| && k <= t <= e && b.Script?
    requires b.interp == line[k..e] && b.iName == line[t..e]
    requires forall i :: 0 <= i < e ==> (line[i] in {32, 9} <==> i < k)
    requires (t > k ==> line[t - 1] == 47) && forall i :: t <= i < e ==> line[i] != 47
    requires if e == |line| then b.iArg == NoStr else line[e] in {32, 9} && b.iArg == SomeStr(line[e + 1..])
    ensures NamedBy(text, k, t, e, |line|, b)
  {
    InText(text, line, k, t, e);
  }

  lemma InText(text: seq<int>, line: Str, k: nat, t: nat, e: nat)
    requires line <= text && k <= t <= e <= |line|
    ensures text[k..e] == line[k..e] && text[t..e] == line[t..e]
    ensures e < |line| ==> text[e] == line[e] && text[e + 1..|line|] == line[e + 1..]
    ensures forall i :: 0 <= i < |line| ==> text[i] == line[i]
  {
  }

  lemma LineParts(line: Str, k: nat, b: Bang)
    requires Reads(line, k, b)
    ensures b.Script? && k < k + |b.interp| <= |line| && b.interp == line[k..k + |b.interp|]
    ensures forall i :: 0 <= i < k + |b.interp| ==> (line[i] in {32, 9} <==> i < k)
    ensures if k + |b.interp| == |line| then b.iArg == NoStr
      else Blank(line[k + |b.interp|]) && b.iArg == SomeStr(line[k + |b.interp| + 1..])
  {
    var e := k + |b.interp|;
    assert line[k..e] == line[k..][..|b.interp|];
    forall i | k <= i < e ensures line[i] !in {32, 9} { assert line[i] == b.interp[i - k] && !Blank(b.interp[i - k]); }
    if e < |line| { assert line[e + 1..] == line[k..][|b.interp| + 1..]; }
  }

  lemma NameInLine(line: Str, name: Str, k: nat, t: nat, e: nat, part: Str)
    requires k <= t <= e <= |line| && name == line[k..e] && t + |part| == e
    requires name[t - k..] == part && (t > k ==> name[t - k - 1] == 47) && forall i :: 0 <= i < |part| ==> part[i] != 47
    ensures part == line[t..e] && (t > k ==> line[t - 1] == 47) && forall i :: t <= i < e ==> line[i] != 47
  {
    SliceOfSlice(line, k, t, e);
    forall i | t <= i < e ensures line[i] != 47 { assert part[i - t] == line[i]; }
  }

  lemma SliceOfSlice(line: Str, k: nat, t: int, e: nat)
    requires k <= e <= |line|
    ensures k <= t <= e ==> line[t..e] == line[k..e][t - k..]
    ensures k < t <= e ==> line[t - 1] == line[k..e][t - k - 1]
  {
  }

  lemma PartSays(name: Str, part: Str)
    requires LastPart(name, part)
    ensures |part| <= |name| && name[|name| - |part|..] == part && (|part| < |name| ==> name[|name| - |part| - 1] == 47)
    ensures forall i :: 0 <= i < |part| ==> part[i] != 47
  {
  }

  /** strncpy of the 1022 characters that follow the first two. */
  method CopyText(block: seq<int>) returns (buf: Str)
    requires |block| == BlockSize
    ensures buf == Text(block) && (Chars(block) ==> IsStr(buf))
  {
    buf := [];
    while |buf| < BlockSize - 2 && block[2 + |buf|] != 0
      invariant |buf| <= BlockSize - 2 && buf == block[2..][..|buf|] && 0 !in buf && (Chars(block) ==> IsStr(buf))
    {
      buf := buf + [block[2 + |buf|]];
    }
    UpToIs(block[2..], 0, |buf|);
  }

  /** The part of do_execve that reads the first line of a script, from the first block of its file. */
  method ParseBang(block: seq<int>) returns (b: Bang)
    requires |block| == BlockSize
    ensures b.Script? ==> exists s, t, e, n :: NamedBy(block[2..], s, t, e, n, b)
    ensures b.NoInterp? ==> forall s, t, e, n, x :: !NamedBy(block[2..], s, t, e, n, x)
    ensures Chars(block) ==> BangOk(b)
  {
    hide UpTo, Reads, LastPart, Text, NamedBy, LineEndsAt;
    var text := CopyText(block);
    var end := FindNewline(text);
    if end == |text| {
      assert text[..end] == text && Newline !in Text(block);
      NoneNamed(block);
      return NoInterp;
    }
    UpToIs(text, Newline, end);
    assert FirstLine(block) == text[..end] && text[end] == Newline && Newline in Text(block);
    b := ParseLine(text[..end]);
    if b.Script? {
      ghost var k: nat :| Reads(FirstLine(block), k, b);
      TextSays(block);
      BangSays(block[2..], FirstLine(block), k, b);
    } else {
      NoneNamed(block);
    }
  }

  lemma NoneNamed(block: seq<int>)
    requires |block| == BlockSize
    requires Newline !in Text(block) || forall i :: 0 <= i < |FirstLine(block)| ==> Blank(FirstLine(block)[i])
    ensures forall s, t, e, n, x :: !NamedBy(block[2..], s, t, e, n, x)
  {
    hide FirstLine, Text, NamedBy, Blank;
    forall s: nat, t: nat, e: nat, n: nat, x | NamedBy(block[2..], s, t, e, n, x) ensures false {
      NamedLine(block, s, t, e, n, x);
    }
  }

  lemma NamedLine(block: seq<int>, s: nat, t: nat, e: nat, n: nat, b: Bang)
    requires |block| == BlockSize && NamedBy(block[2..], s, t, e, n, b)
    ensures Newline in Text(block) && s < |FirstLine(block)| && !Blank(FirstLine(block)[s])
  {
    hide FirstLine, Text;
    TextSays(block);
    assert LineEndsAt(block[2..], n);
    assert FirstLine(block)[s] == block[2..][s];
  }

  /** The name and the argument in one line. */
  method ParseLine(buf: Str) returns (b: Bang)
    ensures b.NoInterp? <==> forall i :: 0 <= i < |buf| ==> Blank(buf[i])
    ensures b.Script? ==> LastPart(b.interp, b.iName) && exists blanks: nat :: Reads(buf, blanks, b)
    ensures IsStr(buf) ==> BangOk(b)
  {
    hide LastPart, Reads, Blank;
    var start := SkipBlanks(buf);
    if start == |buf| { return NoInterp; }
    var cp, name := ScanName(buf, start);
    b := Script(buf[start..cp], buf[name..cp], if cp < |buf| then SomeStr(buf[cp + 1..]) else NoStr);
    NameParts(buf, start, cp, name);
    ReadsIs(buf, start, cp, b);
    PartsOk(buf, start, cp, name);
  }

  lemma ReadsIs(buf: Str, start: nat, cp: nat, b: Bang)
    requires start < cp <= |buf| && (forall i :: 0 <= i < start ==> Blank(buf[i]))
      && (forall i :: start <= i < cp ==> !Blank(buf[i])) && (cp < |buf| ==> Blank(buf[cp]))
    requires b.Script? && b.interp == buf[start..cp]
    requires b.iArg == if cp < |buf| then SomeStr(buf[cp + 1..]) else NoStr
    ensures Reads(buf, start, b)
  {
    hide Blank;
    assert !Blank(buf[start]);
    forall i | 0 <= i < |b.interp| ensures !Blank(b.interp[i]) { assert b.interp[i] == buf[start + i]; }
    if cp < |buf| {
      assert buf[start..] == buf[start..cp] + [buf[cp]] + buf[cp + 1..];
    } else {
      assert buf[start..] == buf[start..cp];
    }
  }

  lemma PartsOk(buf: Str, start: nat, cp: nat, name: nat)
    requires start <= name <= cp <= |buf|
    ensures IsStr(buf) ==> IsStr(buf[name..cp]) && (cp < |buf| ==> IsStr(buf[cp + 1..]))
  {
  }

  lemma NameParts(buf: Str, start: nat, cp: nat, name: nat)
    requires start <= name <= cp <= |buf| && (forall i :: name <= i < cp ==> buf[i] != Slash)
      && (name > start ==> buf[name - 1] == Slash)
    ensures LastPart(buf[start..cp], buf[name..cp])
  {
    assert buf[start..cp][name - start..] == buf[name..cp];
  }

  /** The argument list of the new program. */
  function NewArgs(filename: Str, argv: seq<Str>, bang: Bang): seq<Str> {
    if bang.NoInterp? then argv
    else
      [bang.iName] + (if bang.iArg.SomeStr? then [bang.iArg.s] else []) + [filename]
      + if argv == [] then [] else argv[1..]
  }

  /** The argc that do_execve arrives at: counted down by one for argv[0] even if there is none. */
  function NewArgc(argv: seq<Str>, bang: Bang): int {
    if bang.NoInterp? then |argv| else |argv| - 1 + (if bang.iArg.SomeStr? then 3 else 2)
  }

  /** A script started with an empty argument list loses one: exactly then argc is not the number of arguments. */
  lemma ArgcRight(filename: Str, argv: seq<Str>, bang: Bang)
    ensures NewArgc(argv, bang) == |NewArgs(filename, argv, bang)| <==> bang.NoInterp? || argv != []
    ensures bang.Script? && argv == [] ==> NewArgc(argv, bang) == |NewArgs(filename, argv, bang)| - 1
  {
  }

  /** The pages stand at the top of the new data segment. */
  ghost predicate Mapped(page: seq<Page>, m: Memory)
    requires PagesOk(page)
  {
    forall a: nat :: ByteAt(page, a) != -1 ==> Byte(m, a + DataLimit - MaxArgPages * PageSize) == ByteAt(page, a)
  }

  lemma LaidMapped(page: seq<Page>, m: Memory, p: nat, s: seq<int>)
    requires PagesOk(page) && Mapped(page, m) && Laid(page, p, s) && Chars(s)
    ensures MemLaid(m, p + DataLimit - MaxArgPages * PageSize, s)
  {
    hide ByteAt, Byte;
    forall i | 0 <= i < |s| ensures Byte(m, p + DataLimit - MaxArgPages * PageSize + i) == s[i] {
      assert ByteAt(page, p + i) == s[i];
    }
  }

  /** The argument part of do_execve: the strings of envp, argv and a script's interpreter. */
  method CopyAll(pages: ArgPages, filename: Str, argv: seq<Str>, envp: seq<Str>, bang: Bang) returns (r: Copied)
    requires pages.Valid() && IsStr(filename) && AllStrs(argv) && AllStrs(envp)
    requires BangOk(bang)
    modifies pages
    ensures pages.Valid()
    ensures r.P? && r.p > 0 <==> Room(old(pages.page), old(pages.free), |Packed(NewArgs(filename, argv, bang) + envp)|)
    ensures r.P? && r.p > 0 ==>
      && Laid(pages.page, r.p, Packed(NewArgs(filename, argv, bang) + envp))
      && r.p + |Packed(NewArgs(filename, argv, bang) + envp)| == Top
    ensures r.Wild? ==> |Packed(NewArgs(filename, argv, bang) + envp)| > Top
  {
    hide Packed, ByteAt, CopiedSo, NewArgs, AllStrs, Room;
    ghost var tail := if argv == [] then [] else argv[1..];
    ghost var page0, free0 := pages.page, pages.free;
    NothingCopied(pages.page, pages.free);
    StrsOf(filename, argv, envp, bang);
    ArgsAre(filename, argv, envp, bang);
    r := CopyMore(pages, envp, P(Top), [], page0, free0);
    if bang.NoInterp? {
      r := CopyMore(pages, argv, r, envp + [], page0, free0);
    } else {
      r := CopyMore(pages, if argv == [] then [] else argv[1..], r, envp + [], page0, free0);
      r := CopyMore(pages, [filename], r, tail + (envp + []), page0, free0);
      if bang.iArg.SomeStr? {
        r := CopyMore(pages, [bang.iArg.s], r, [filename] + (tail + (envp + [])), page0, free0);
        r := CopyMore(pages, [bang.iName], r, [bang.iArg.s] + ([filename] + (tail + (envp + []))), page0, free0);
      } else {
        r := CopyMore(pages, [bang.iName], r, [filename] + (tail + (envp + [])), page0, free0);
      }
    }
    CopiedIs(page0, free0, pages.page, pages.free, r, NewArgs(filename, argv, bang) + envp);
  }

  lemma NothingCopied(page: seq<Page>, free: nat)
    requires PagesOk(page)
    ensures CopiedSo(page, free, page, free, P(Top), [])
  {
    PaidNothing(page, free, Top);
    assert Lacking(page, Top, Top) == {};
  }

  lemma CopiedIs(page0: seq<Page>, free0: nat, page: seq<Page>, free: nat, r: Copied, done: seq<Str>)
    requires PagesOk(page) && CopiedSo(page0, free0, page, free, r, done)
    ensures r.P? && r.p > 0 <==> Room(page0, free0, |Packed(done)|)
    ensures r.P? && r.p > 0 ==> Laid(page, r.p, Packed(done)) && r.p + |Packed(done)| == Top
    ensures r.Wild? ==> |Packed(done)| > Top
  {
  }

  lemma StrsOf(filename: Str, argv: seq<Str>, envp: seq<Str>, bang: Bang)
    requires IsStr(filename) && AllStrs(argv) && AllStrs(envp)
    requires BangOk(bang)
    ensures AllStrs([]) && AllStrs([filename]) && AllStrs(if argv == [] then [] else argv[1..]) && AllStrs(envp + [])
    ensures AllStrs((if argv == [] then [] else argv[1..]) + (envp + []))
    ensures AllStrs([filename] + ((if argv == [] then [] else argv[1..]) + (envp + [])))
    ensures bang.Script? ==> AllStrs([bang.iName])
    ensures bang.Script? && bang.iArg.SomeStr? ==>
      AllStrs([bang.iArg.s])
        && AllStrs([bang.iArg.s] + ([filename] + ((if argv == [] then [] else argv[1..]) + (envp + []))))
  {
  }

  lemma ArgsAre(filename: Str, argv: seq<Str>, envp: seq<Str>, bang: Bang)
    ensures bang.NoInterp? ==> argv + (envp + []) == NewArgs(filename, argv, bang) + envp
    ensures bang.Script? && bang.iArg.NoStr? ==>
      [bang.iName] + ([filename] + ((if argv == [] then [] else argv[1..]) + (envp + [])))
        == NewArgs(filename, argv, bang) + envp
    ensures bang.Script? && bang.iArg.SomeStr? ==>
      [bang.iName] + ([bang.iArg.s] + ([filename] + ((if argv == [] then [] else argv[1..]) + (envp + []))))
        == NewArgs(filename, argv, bang) + envp
  {
  }

  /** n bytes fit below Top, with a byte to spare, and there are the pages for them. */
  ghost predicate Room(page: seq<Page>, free: nat, n: nat) { n < Top && |Lacking(page, Top - n, Top)| <= free }

  /** What has been copied so far, or why not. */
  ghost predicate CopiedSo(page0: seq<Page>, free0: nat, page: seq<Page>, free: nat, r: Copied, done: seq<Str>)
    requires PagesOk(page)
  {
    && (r.P? && r.p > 0 <==> Room(page0, free0, |Packed(done)|))
    && (r.P? && r.p > 0 ==>
          && Laid(page, r.p, Packed(done)) && r.p + |Packed(done)| == Top
          && Paid(page0, free0, page, free, r.p, Top))
    && (r.Wild? ==> |Packed(done)| > Top)
  }

  /** More bytes need no less room. */
  lemma RoomLess(page: seq<Page>, free: nat, n: nat, m: nat)
    requires n <= m && Room(page, free, m)
    ensures Room(page, free, n)
  {
    LackingMore(page, Top - m, Top - n, Top);
  }

  /** Room for n bytes and then for m more. */
  lemma RoomMore(page0: seq<Page>, free0: nat, page1: seq<Page>, free1: nat, p: nat, n: nat, m: nat)
    requires 0 < p && p + n == Top && Paid(page0, free0, page1, free1, p, Top)
    ensures Room(page0, free0, n + m) <==> m < p && |Lacking(page1, p - m, p)| <= free1
  {
    if m <= p { LackingBoth(page0, page1, p - m, p, Top); }
  }

  method CopyMore(pages: ArgPages, strs: seq<Str>, r0: Copied, ghost done: seq<Str>, ghost page0: seq<Page>,
                  ghost free0: nat)
    returns (r: Copied)
    requires pages.Valid() && AllStrs(strs) && AllStrs(done) && CopiedSo(page0, free0, pages.page, pages.free, r0, done)
    modifies pages
    ensures pages.Valid() && CopiedSo(page0, free0, pages.page, pages.free, r, strs + done)
  {
    hide Packed, ByteAt, Room, Paid, Lacking;
    PackedTwo(strs, done);
    ghost var n, m := |Packed(done)|, |Packed(strs)|;
    if Room(page0, free0, n + m) { RoomLess(page0, free0, n, n + m); }
    if r0.Wild? { return Wild; }
    ghost var before, freeBefore := pages.page, pages.free;
    if r0.p > PageSize * MaxArgPages { assert false; }
    r := pages.CopyStrings(strs, r0.p);
    if r0.p > 0 {
      RoomMore(page0, free0, before, freeBefore, r0.p, n, m);
      if r.P? && r.p > 0 {
        PaidBoth(page0, free0, before, freeBefore, pages.page, pages.free, r.p, r0.p, Top);
        PackedChars(done);
        LaidOver(before, pages.page, r.p, r0.p, Packed(strs), Packed(done));
      }
    }
  }

  lemma LaidOver(before: seq<Page>, page: seq<Page>, lo: nat, hi: nat, s: seq<int>, t: seq<int>)
    requires PagesOk(before) && PagesOk(page) && lo + |s| == hi && Laid(page, lo, s) && Laid(before, hi, t)
      && Kept(before, page, lo, hi) && Chars(t)
    ensures Laid(page, lo, s + t)
  {
    hide ByteAt;
    forall i | 0 <= i < |s + t| ensures ByteAt(page, lo + i) == (s + t)[i] {
      if i >= |s| { assert ByteAt(before, hi + (i - |s|)) == t[i - |s|]; }
    }
  }

  datatype Started = NoMem | Crashed | Running(sp: nat, p: nat)

  /** The image of a new program. Its stack names all its arguments, except that a script started with no
      arguments at all loses its own name to the environment. */
  method StartProgram(pages: ArgPages, user: UserMemory, filename: Str, argv: seq<Str>, envp: seq<Str>, bang: Bang)
    returns (r: Started)
    requires pages.Valid() && IsStr(filename) && AllStrs(argv) && AllStrs(envp)
    requires BangOk(bang)
    modifies pages, user
    ensures r.Running? && (bang.NoInterp? || argv != []) ==>
      Stack(user.mem, r.sp, r.p, NewArgs(filename, argv, bang), envp)
    ensures r.Running? && bang.Script? && argv == [] ==>
      Stack(user.mem, r.sp, r.p, NewArgs(filename, argv, bang)[..NewArgc(argv, bang)],
            if envp == [] then [] else [filename] + envp[..|envp| - 1])
    ensures r.Running? <==> Room(old(pages.page), old(pages.free), |Packed(NewArgs(filename, argv, bang) + envp)|)
    ensures r.Crashed? ==> |Packed(NewArgs(filename, argv, bang) + envp)| > Top
  {
    hide Packed, ByteAt, Byte, Word, NewArgs, Room;
    ghost var all := NewArgs(filename, argv, bang) + envp;
    var c := CopyAll(pages, filename, argv, envp, bang);
    if c.Wild? { return Crashed; }
    if c.p == 0 { return NoMem; }
    AllOfThem(filename, argv, envp, bang);
    PackedLonger(all);
    PackedChars(all);
    user.MapPages(pages.page);
    LaidMapped(pages.page, user.mem, c.p, Packed(all));
    var p := c.p + DataLimit - MaxArgPages * PageSize;
    var argc: nat := NewArgc(argv, bang);
    ghost var args, envs := all[..argc], all[argc..argc + |envp|];
    SplitAt(all, argc, |envp|);
    PackedPrefix(user.mem, p, args + envs, all[argc + |envp|..]);
    var sp := user.CreateTables(p, args, envs, argc, |envp|);
    Parts(filename, argv, envp, bang);
    return Running(sp, p);
  }

  lemma AllOfThem(filename: Str, argv: seq<Str>, envp: seq<Str>, bang: Bang)
    requires IsStr(filename) && AllStrs(argv) && AllStrs(envp)
    requires BangOk(bang)
    ensures AllStrs(NewArgs(filename, argv, bang) + envp) && 0 <= NewArgc(argv, bang)
    ensures NewArgc(argv, bang) + |envp| <= |NewArgs(filename, argv, bang) + envp|
  {
  }

  lemma SplitAt(all: seq<Str>, argc: nat, envc: nat)
    requires argc + envc <= |all| && AllStrs(all)
    ensures all[..argc] + all[argc..argc + envc] + all[argc + envc..] == all
    ensures AllStrs(all[..argc]) && AllStrs(all[argc..argc + envc])
  {
  }

  lemma PackedPrefix(m: Memory, p: nat, some: seq<Str>, rest: seq<Str>)
    requires MemLaid(m, p, Packed(some + rest))
    ensures MemLaid(m, p, Packed(some)) && |Packed(some)| <= |Packed(some + rest)|
  {
    hide Packed, Byte;
    PackedTwo(some, rest);
    forall i | 0 <= i < |Packed(some)| ensures Byte(m, p + i) == Packed(some)[i] {
      assert Packed(some + rest)[i] == Packed(some)[i];
    }
  }

  lemma Parts(filename: Str, argv: seq<Str>, envp: seq<Str>, bang: Bang)
    requires 0 <= NewArgc(argv, bang) && NewArgc(argv, bang) + |envp| <= |NewArgs(filename, argv, bang) + envp|
    ensures bang.NoInterp? || argv != [] ==>
      && (NewArgs(filename, argv, bang) + envp)[..NewArgc(argv, bang)] == NewArgs(filename, argv, bang)
      && (NewArgs(filename, argv, bang) + envp)[NewArgc(argv, bang)..NewArgc(argv, bang) + |envp|] == envp
    ensures bang.Script? && argv == [] ==> NewArgc(argv, bang) + 1 == |NewArgs(filename, argv, bang)|
    ensures bang.Script? && argv == [] ==>
      && (NewArgs(filename, argv, bang) + envp)[..NewArgc(argv, bang)]
         == NewArgs(filename, argv, bang)[..NewArgc(argv, bang)]
      && (NewArgs(filename, argv, bang) + envp)[NewArgc(argv, bang)..NewArgc(argv, bang) + |envp|]
        == if envp == [] then [] else [filename] + envp[..|envp| - 1]
  {
  }
}
