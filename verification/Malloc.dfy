/** malloc and free_s of VLinux0.11/lib/malloc.c. */
module Malloc {
  import opened Buckets
  import Counting

  datatype Result = BadArg | OutOfMemory | Chunk(p: Ptr)

  /** The bucket for a length: the smallest that is large enough. */
  ghost predicate Suits(b: nat, len: nat) {
    b < NrBuckets && Size(b) >= len && forall c :: 0 <= c < b ==> Size(c) < len
  }

  /** It wastes less than half of a chunk, unless the length is below 9. */
  lemma SuitsIs(b: nat, len: nat)
    requires Suits(b, len)
    ensures len <= Counting.Pow2(b + 4) && (b == 0 || Counting.Pow2(b + 4) < 2 * len)
  {
    SizeIs(b);
    if b > 0 {
      SizeIs(b - 1);
      assert Size(b - 1) < len;
    }
  }

  /** No bucket in use is on this page. */
  ghost predicate Unknown(w: World, v: View, page: nat) {
    forall e :: 0 <= e < |w.desc| && e < |v.place| && v.place[e] >= 0 ==> w.desc[e].page != page
  }

  /** malloc panics: every bucket for this length is used up, and there are not the pages for a new one - one for
      its chunks and, when no descriptor is free, one for descriptors. */
  ghost predicate Starved(w: World, v: View, len: nat) {
    && |v.place| == |w.desc| && |w.pool| <= (if w.freeDesc == -1 then 1 else 0)
    && forall e :: 0 <= e < |w.desc| && v.place[e] >= 0 && Suits(v.place[e], len) ==> w.desc[e].freeptr == Nil
  }

  /** Nothing inside a live chunk has been written, but perhaps at one address. */
  ghost predicate Untouched(w: World, v: View, w': World, but: Ptr) {
    forall d: nat, p, o, a :: Inside(w, v, d, p, o, a) && At(p, a) != but ==> SameWord(w, w', p, a)
  }

  ghost predicate SameWord(w: World, w': World, p: nat, a: nat) {
    At(p, a) in w.mem ==> At(p, a) in w'.mem && w'.mem[At(p, a)] == w.mem[At(p, a)]
  }

  /** The step keeps exactly the live chunks and what they hold. */
  ghost predicate SameLive(w: World, v: View, w': World, v': View) {
    (forall d: nat, p, o :: LiveSame(w, v, w', v', d, p, o)) && Untouched(w, v, w', Nil)
  }

  /** Some bucket for this length has a free chunk. */
  ghost predicate Usable(w: World, v: View, len: nat) {
    && |v.place| == |w.desc|
    && exists e :: 0 <= e < |w.desc| && v.place[e] >= 0 && Suits(v.place[e], len) && w.desc[e].freeptr != Nil
  }

  /** The pages that malloc takes: one for a new bucket, and one for descriptors if none is free. */
  ghost function Pages(w: World, v: View, len: nat): nat {
    if Usable(w, v, len) then 0 else if w.freeDesc == -1 then 2 else 1
  }

  /** Pages n fewer than before, and no other ones. */
  ghost predicate Took(pool: set<nat>, pool': set<nat>, n: nat) { pool' <= pool && |pool'| == |pool| - n }

  class Allocator {
    var chain: seq<int>
    var desc: seq<Desc>
    var freeDesc: int
    var mem: map<Ptr, Ptr>
    var pool: set<nat>
    ghost var view: View

    function W(): World
      reads this
    {
      World(chain, desc, freeDesc, mem, pool)
    }

    ghost predicate Valid()
      reads this
    {
      Inv(W(), view)
    }

    constructor (pages: set<nat>)
      requires 0 !in pages
      ensures Valid() && pool == pages && forall p, o :: !Live(W(), view, p, o)
    {
      chain, desc, freeDesc, mem, pool := seq(NrBuckets, _ => -1), [], -1, map[], pages;
      view := View(seq(NrBuckets, _ => []), [], [], map[]);
    }

    /** get_free_page: 0 when there is none. */
    method GetFreePage() returns (page: nat)
      ensures if pool == {} then page == 0 else page in pool
    {
      if pool == {} { return 0; }
      var p :| p in pool;
      return p;
    }

    /** Makes a page of free descriptors; false where the kernel panics. */
    method InitBucketDesc() returns (ok: bool)
      requires Valid()
      modifies this
      ensures Valid() && ok == (old(pool) != {}) && (if ok then freeDesc != -1 else pool == {})
        && SameLive(old(W()), old(view), W(), view)
      ensures ok ==> Took(old(pool), pool, 1)
    {
      hide Inv, LiveIn, LiveSame;
      var page := GetFreePage();
      InvIs(W(), view);
      if pool == {} { return false; }
      ExtendKeeps(W(), view, page);
      forall d: nat, p, o ensures LiveSame(W(), view, Extended(W(), page), ExtendedView(W(), view), d, p, o) {
        ExtendedLive(W(), view, page, d, p, o);
      }
      view := ExtendedView(W(), view);
      var first := |desc|;
      var more := NewPage(first);
      desc := desc + more;
      pool := pool - {page};
      freeDesc := first;
      return true;
    }

    /** The descriptors of a page, each linked to the next, the last to the free ones. */
    method NewPage(first: nat) returns (more: seq<Desc>)
      requires first == |desc|
      ensures more == NewDescs(W())
    {
      more := [];
      while |more| < DescsPerPage
        invariant |more| <= DescsPerPage
        invariant forall i :: 0 <= i < |more| ==>
          more[i] == Desc(0, if i + 1 < DescsPerPage then first + i + 1 else freeDesc, Nil, 0, 0)
      {
        more := more + [Desc(0, if |more| + 1 < DescsPerPage then first + |more| + 1 else freeDesc, Nil, 0, 0)];
      }
    }

    method FindBucket(len: nat) returns (b: nat)
      ensures b <= NrBuckets && (b < NrBuckets ==> Suits(b, len)) && (b == NrBuckets <==> len > PageSize)
    {
      b := 0;
      while b < NrBuckets && Size(b) < len
        invariant b <= NrBuckets && forall c :: 0 <= c < b ==> Size(c) < len
      {
        b := b + 1;
      }
      if b == NrBuckets { assert Size(8) < len; }
    }

    /** The first descriptor of the chain with a free chunk, -1 if there is none. */
    method FindDesc(b: nat) returns (d: int)
      requires Valid() && b < NrBuckets
      ensures -1 <= d < |desc| && (d >= 0 ==> |view.place| == |desc| && view.place[d] == b && desc[d].freeptr != Nil)
      ensures d == -1 ==>
        |view.place| == |desc| && forall e :: 0 <= e < |desc| && view.place[e] == b ==> desc[e].freeptr == Nil
    {
      hide InUse, Listed, NoDup;
      ghost var s, i := view.chains[b], 0;
      d := chain[b];
      Heads(W(), view, b);
      while d != -1
        invariant i <= |s| && d == (if i < |s| then s[i] else -1)
        invariant forall k :: 0 <= k < i ==> s[k] < |desc| && desc[s[k]].freeptr == Nil
        decreases |s| - i
      {
        ListedNext(desc, chain[b], s, i);
        assert d in s;
        if desc[d].freeptr != Nil { return; }
        d := desc[d].next;
        i := i + 1;
      }
    }

    /** A new bucket of free chunks at the head of its chain; false where the kernel panics. */
    method NewBucket(b: nat) returns (d: nat, ok: bool)
      requires Valid() && b < NrBuckets
      modifies this
      ensures ok == (|old(pool)| > if old(freeDesc) == -1 then 1 else 0)
      ensures ok ==> Took(old(pool), pool, if old(freeDesc) == -1 then 2 else 1)
      ensures ok ==>
        Lists(W(), view) && InUse(W(), view, d) && |view.place| == |desc| && SameLive(old(W()), old(view), W(), view)
      ensures ok ==> d < |desc| && view.place[d] == b && desc[d].freeptr != Nil
    {
      hide Inv, SameLive, Lists, InUse;
      ghost var w0, v0 := W(), view;
      if freeDesc == -1 {
        ok := InitBucketDesc();
        if !ok { return 0, false; }
      } else {
        InvIs(w0, v0);
      }
      ghost var w1, v1 := W(), view;
      d, ok := OpenBucket(b);
      if ok { SameLiveTwice(w0, v0, w1, v1, W(), view); }
    }

    method OpenBucket(b: nat) returns (d: nat, ok: bool)
      requires Valid() && b < NrBuckets && freeDesc != -1
      modifies this
      ensures ok == (old(pool) != {}) && (ok ==> Took(old(pool), pool, 1))
      ensures ok ==>
        Lists(W(), view) && InUse(W(), view, d) && |view.place| == |desc| && SameLive(old(W()), old(view), W(), view)
      ensures ok ==> d < |desc| && view.place[d] == b && desc[d].freeptr != Nil
    {
      hide Inv, LiveIn, LiveSame, Lists, InUse, Size, PageThreaded, AllOffs;
      ghost var w, v := W(), view;
      DescInside(w, v);
      NoZero(w, v);
      d := freeDesc;
      var page := GetFreePage();
      if page == 0 {
        freeDesc := desc[d].next;
        return d, false;
      }
      OpenKeeps(w, v, b, page);
      forall e: nat, p, o ensures LiveSame(w, v, Opened(w, b, page), OpenedView(v, b, d), e, p, o) {
        OpenedLive(w, v, b, page, e, p, o);
      }
      OpenedWords(w, v, b, page);
      freeDesc := desc[d].next;
      desc := desc[d := Desc(page, desc[d].next, At(page, 0), 0, Size(b))];
      ThreadPage(page, b);
      desc := desc[d := desc[d].(next := chain[b])];
      chain := chain[b := d];
      pool := pool - {page};
      view := OpenedView(v, b, d);
      assert W() == Opened(w, b, page);
      PlacesAre(W(), view);
      return d, true;
    }

    /** The loop that threads the free chunks through the page. */
    method ThreadPage(page: nat, b: nat)
      requires b < NrBuckets
      modifies this`mem
      ensures mem == PageThreaded(old(mem), page, b)
    {
      hide Size, Chunks;
      ChunkCount(b);
      var cp, i := 0, Chunks(b);
      while i > 1
        invariant 1 <= i <= Chunks(b) && cp == (Chunks(b) - i) * Size(b)
        invariant mem == Threads(old(mem), page, Size(b), Chunks(b) - i)
      {
        Step(Chunks(b) - i, Size(b));
        mem := mem[At(page, cp) := At(page, cp + Size(b))];
        cp := cp + Size(b);
        i := i - 1;
      }
      mem := mem[At(page, cp) := Nil];
    }

    /** A chunk of the smallest bucket that is large enough, which nobody else has. */
    method Alloc(len: nat) returns (r: Result, ghost d: nat)
      requires Valid()
      modifies this
      ensures (r.BadArg? <==> len > PageSize) && (r.BadArg? ==> W() == old(W()) && view == old(view))
      ensures r.OutOfMemory? <==> len <= PageSize && Starved(old(W()), old(view), len)
      ensures r.Chunk? ==> Took(old(pool), pool, Pages(old(W()), old(view), len))
      ensures r.Chunk? ==>
        && Valid() && r.p.At? && r.p.page > 0 && LiveIn(W(), view, d, r.p.page, r.p.off)
        && Suits(view.place[d], len) && !Live(old(W()), old(view), r.p.page, r.p.off)
        && LiveBut(old(W()), old(view), W(), view, r.p.page, r.p.off) && Untouched(old(W()), old(view), W(), Nil)
        && Happens(old(W()), old(view), Got(r.p), W(), view)
    {
      hide Inv, Live, LiveBut, SameLive, LiveSame, Lists, InUse, BucketOk, Size, IsChunk;
      ghost var w0, v0 := W(), view;
      d := 0;
      var b := FindBucket(len);
      if b == NrBuckets { return BadArg, 0; }
      var e := FindDesc(b);
      ghost var unused := -1;
      if e == -1 {
        var ok;
        e, ok := NewBucket(b);
        if !ok { return OutOfMemory, 0; }
        unused := e;
      } else {
        InvIs(w0, v0);
      }
      d := e;
      ghost var w, v := W(), view;
      assert SameLive(w0, v0, w, v);
      TakeKeeps(w, v, d, unused);
      TakenLive(w, v, d, unused);
      PagePositive(w, v, d, unused);
      var retval := desc[e].freeptr;
      desc := desc[e := desc[e].(freeptr := mem[retval])];
      desc := desc[e := desc[e].(refcnt := desc[e].refcnt + 1)];
      assert W() == Taken(w, d);
      view := v.(offs := v.offs[d := v.offs[d][1..]]);
      SameThenBut(w0, v0, w, v, W(), view, retval.page, retval.off);
      LiveOf(W(), view, d, retval.page, retval.off);
      return Chunk(retval), d;
    }

    /** The descriptor of a page among the buckets not smaller than the size given;
        prev is the one before it in its chain. */
    method FindPage(page: nat, size: nat) returns (b: nat, d: int, prev: int, ghost i: nat)
      requires Valid()
      ensures b <= NrBuckets && |view.place| == |desc| && |view.chains| == NrBuckets == |chain|
      ensures b < NrBuckets ==>
        && Size(b) >= size && i < |view.chains[b]| && d == view.chains[b][i] < |desc| && desc[d].page == page
        && view.place[d] == b
        && prev == (if i > 0 then view.chains[b][i - 1] else -1) && prev < |desc| && (i == 0 ==> chain[b] == d)
      ensures b == NrBuckets ==>
        forall e :: 0 <= e < |desc| && 0 <= view.place[e] < NrBuckets && desc[e].page == page ==>
        Size(view.place[e]) < size
    {
      hide InUse, Listed, NoDup, Size;
      b, d, prev, i := 0, -1, -1, 0;
      while b < NrBuckets
        invariant b <= NrBuckets
        invariant forall e :: 0 <= e < |desc| && 0 <= view.place[e] < b && desc[e].page == page ==>
          Size(view.place[e]) < size
      {
        prev := -1;
        if Size(b) >= size {
          ghost var s := view.chains[b];
          i := 0;
          d := chain[b];
          Heads(W(), view, b);
          while d != -1
            invariant i <= |s| && d == (if i < |s| then s[i] else -1) && prev == (if i > 0 then s[i - 1] else -1)
              && prev < |desc|
            invariant forall k :: 0 <= k < i ==> s[k] < |desc| && desc[s[k]].page != page
            decreases |s| - i
          {
            ListedNext(desc, chain[b], s, i);
            assert d in s;
            if desc[d].page == page { return; }
            prev := d;
            d := desc[d].next;
            i := i + 1;
          }
        }
        b := b + 1;
      }
    }

    /** Unlinks a bucket without live chunks, gives its page back and its descriptor to the free ones. */
    method CloseBucket(b: nat, d: nat, prev: int, ghost i: nat)
      requires Lists(W(), view) && b < NrBuckets && |view.chains| == NrBuckets == |chain| && |view.place| == |desc|
      requires i < |view.chains[b]| && view.chains[b][i] == d < |desc| && desc[d].refcnt == 0 && InUse(W(), view, d)
      requires prev == (if i > 0 then view.chains[b][i - 1] else -1) && prev < |desc|
      modifies this
      ensures Valid() && mem == old(mem) && pool == old(pool) + {old(desc[d]).page}
      ensures forall e: nat, p, o :: LiveSame(old(W()), old(view), W(), view, e, p, o)
    {
      hide Inv, LiveIn, LiveSame, Lists, InUse, BucketOk;
      ghost var w, v := W(), view;
      CloseKeeps(w, v, b, i);
      forall e: nat, p, o ensures LiveSame(w, v, Closed(w, v, b, i), ClosedView(v, b, i), e, p, o) {
        ClosedLive(w, v, b, i, e, p, o);
      }
      ClosedIs(w, v, b, i);
      if prev != -1 {
        desc := desc[prev := desc[prev].(next := desc[d].next)];
      } else {
        chain := chain[b := desc[d].next];
      }
      pool := pool + {desc[d].page};
      desc := desc[d := desc[d].(next := freeDesc)];
      freeDesc := d;
      view := ClosedView(v, b, i);
      assert W() == Closed(w, v, b, i);
    }

    /** Takes back a live chunk; false where the kernel panics, because the page belongs to no bucket or the size named
        is larger than the chunk's bucket. */
    method FreeS(page: nat, off: nat, size: nat, ghost d0: nat) returns (ok: bool)
      requires Valid() && (Unknown(W(), view, page) || LiveIn(W(), view, d0, page, off))
      modifies this
      ensures old(Unknown(W(), view, page)) ==> !ok
      ensures !old(Unknown(W(), view, page)) ==> ok == (Size(old(view.place[d0])) >= size)
      ensures ok ==>
        && Valid() && !Live(W(), view, page, off) && LiveBut(old(W()), old(view), W(), view, page, off)
        && Untouched(old(W()), old(view), W(), At(page, off))
        && Happens(old(W()), old(view), Freed(page, off), W(), view)
        && pool == old(pool) + (if old(desc[d0].refcnt) == 1 then {page} else {})
      ensures !ok ==> W() == old(W()) && view == old(view)
    {
      hide Inv, Live, LiveSame, LiveBut, Lists, InUse, BucketOk, Size, IsChunk, Listed, NoDup;
      ghost var w0, v0 := W(), view;
      var b, e, prev;
      ghost var i;
      b, e, prev, i := FindPage(page, size);
      if b == NrBuckets { return false; }
      var d: nat := e;
      InvIs(w0, v0);
      assert !Unknown(w0, v0, page);
      OwnPage(w0, v0, -1, d, d0, off);
      LiveOf(w0, v0, d0, page, off);
      GiveKeeps(w0, v0, d, off);
      GivenLive(w0, v0, d, off);
      ghost var w1, v1 := Given(w0, d, off), v0.(offs := v0.offs[d := [off] + v0.offs[d]]);
      mem := mem[At(page, off) := desc[d].freeptr];
      desc := desc[d := desc[d].(freeptr := At(page, off))];
      desc := desc[d := desc[d].(refcnt := desc[d].refcnt - 1)];
      view := v1;
      assert W() == w1;
      if desc[d].refcnt == 0 {
        CloseBucket(b, d, prev, i);
        ButThenSame(w0, v0, w1, v1, W(), view, page, off);
      } else {
        StillUsed(w1, v1, d);
      }
      return true;
    }

    /** The holder of a chunk writes into it. */
    method Store(page: nat, off: nat, a: nat, x: Ptr, ghost d: nat)
      requires Valid() && Inside(W(), view, d, page, off, a)
      modifies this`mem
      ensures Happens(old(W()), view, Stored(page, a), W(), view) && mem == old(mem)[At(page, a) := x]
    {
      hide Inv, Inside;
      StoreKeeps(W(), view, d, page, off, a, x);
      mem := mem[At(page, a) := x];
    }

    /** Other code takes and gives back pages. */
    method UsePages(now: set<nat>)
      requires Valid() && MayBeFree(W(), view, now)
      modifies this`pool
      ensures Happens(old(W()), view, PagesUsed, W(), view) && pool == now
    {
      hide Inv, Inside;
      PoolKeeps(W(), view, now);
      pool := now;
    }
  }

  // ---------- whole runs ----------

  /** Calls of malloc and free_s, stores into chunks, and what other code does with pages. */
  datatype Event = Got(p: Ptr) | Freed(page: nat, off: nat) | Stored(page: nat, a: nat) | PagesUsed

  ghost predicate Happens(w: World, v: View, e: Event, w': World, v': View) {
    && Inv(w, v) && Inv(w', v')
    && match e
       case Got(p) =>
         p.At? && !Live(w, v, p.page, p.off) && Live(w', v', p.page, p.off) && LiveBut(w, v, w', v', p.page, p.off)
         && Untouched(w, v, w', Nil)
       case Freed(page, off) =>
         Live(w, v, page, off) && !Live(w', v', page, off) && LiveBut(w, v, w', v', page, off)
           && Untouched(w, v, w', At(page, off))
       case Stored(page, a) =>
         (forall d: nat, p, o :: LiveSame(w, v, w', v', d, p, o)) && Untouched(w, v, w', At(page, a))
       case PagesUsed => SameLive(w, v, w', v')
  }

  ghost predicate Happened(ws: seq<World>, vs: seq<View>, es: seq<Event>) {
    && |ws| == |vs| == |es| + 1
    && forall k :: 0 <= k < |es| ==> Happens(ws[k], vs[k], es[k], ws[k + 1], vs[k + 1])
  }

  ghost predicate NotStored(es: seq<Event>, n: nat, page: nat, a: nat)
    requires n <= |es|
  {
    forall k :: 0 <= k < n ==> es[k] != Stored(page, a)
  }

  lemma StepSurvives(w: World, v: View, e: Event, w': World, v': View, d: nat, page: nat, off: nat)
    requires Happens(w, v, e, w', v') && LiveIn(w, v, d, page, off) && e != Freed(page, off)
    ensures LiveIn(w', v', d, page, off) && LiveSame(w, v, w', v', d, page, off)
    ensures forall a :: Inside(w, v, d, page, off, a) ==> e != Got(At(page, a))
    ensures forall a :: Inside(w, v, d, page, off, a) && e != Stored(page, a) ==> SameWord(w, w', page, a)
  {
    hide LiveIn, Inv;
    assert Live(w, v, page, off);
    assert LiveSame(w, v, w', v', d, page, off);
    if e.Freed? && e.page == page {
      forall a | Inside(w, v, d, page, off, a) ensures a != e.off { OtherStart(w, v, d, page, off, a, e.off); }
    }
    if e.Got? && e.p.page == page {
      forall a | Inside(w, v, d, page, off, a) ensures a != e.p.off {
        if a != off { OtherStart(w', v', d, page, off, a, e.p.off); }
      }
    }
  }

  /** Another live chunk does not start inside this one. */
  lemma OtherStart(w: World, v: View, d: nat, page: nat, off: nat, a: nat, other: nat)
    requires Inv(w, v) && Inside(w, v, d, page, off, a) && Live(w, v, page, other) && other != off
    ensures a != other
  {
    var e: nat :| LiveIn(w, v, e, page, other);
    OwnPage(w, v, -1, d, e, other);
    Beside(other, off, a, Size(v.place[d]));
  }

  lemma LiveOf(w: World, v: View, d: nat, page: nat, off: nat)
    requires LiveIn(w, v, d, page, off)
    ensures Live(w, v, page, off)
  {
  }

  /** In any run of calls, stores and page traffic a chunk that nobody frees stays its holder's: no part of it
      is handed out again, and what is not overwritten stays in it. */
  lemma {:induction false} ChunkSurvives(ws: seq<World>, vs: seq<View>, es: seq<Event>, n: nat, d: nat, page: nat,
                                         off: nat)
    requires Happened(ws, vs, es) && n <= |es| && LiveIn(ws[0], vs[0], d, page, off)
    requires forall k :: 0 <= k < n ==> es[k] != Freed(page, off)
    ensures LiveIn(ws[n], vs[n], d, page, off) && vs[n].place[d] == vs[0].place[d]
    ensures forall k, a :: 0 <= k < n && Inside(ws[0], vs[0], d, page, off, a) ==> es[k] != Got(At(page, a))
    ensures forall a :: Inside(ws[0], vs[0], d, page, off, a) && NotStored(es, n, page, a) ==>
      SameWord(ws[0], ws[n], page, a)
  {
    if n > 0 {
      ChunkSurvives(ws, vs, es, n - 1, d, page, off);
      assert Happens(ws[n - 1], vs[n - 1], es[n - 1], ws[n - 1 + 1], vs[n - 1 + 1]);
      StepSurvives(ws[n - 1], vs[n - 1], es[n - 1], ws[n], vs[n], d, page, off);
    }
  }

  lemma ClosedIs(w: World, v: View, b: nat, i: nat)
    requires Lists(w, v) && b < NrBuckets && i < |v.chains[b]|
    ensures i > 0 ==> v.chains[b][i - 1] != v.chains[b][i]
  {
  }

  /** A bucket that still has a chunk out. */
  lemma StillUsed(w: World, v: View, d: nat)
    requires Lists(w, v) && InUse(w, v, d) && d < |w.desc| && w.desc[d].refcnt > 0
    ensures Inv(w, v)
  {
    hide BucketOk, Lists;
  }

  lemma Heads(w: World, v: View, b: nat)
    requires Inv(w, v) && b < NrBuckets
    ensures Listed(w.desc, w.chain[b], v.chains[b]) && w.chain[b] == if v.chains[b] == [] then -1 else v.chains[b][0]
    ensures forall d :: d in v.chains[b] ==> d < |w.desc|
  {
    ListedIn(w.desc, w.chain[b], v.chains[b]);
  }

  lemma DescInside(w: World, v: View)
    requires Inv(w, v) && w.freeDesc != -1
    ensures 0 <= w.freeDesc < |w.desc|
  {
    FreeHead(w, v);
  }

  lemma PlacesAre(w: World, v: View)
    requires Lists(w, v)
    ensures |v.place| == |w.desc|
  {
  }

  lemma SameLiveTwice(w: World, v: View, w1: World, v1: View, w2: World, v2: View)
    requires SameLive(w, v, w1, v1) && SameLive(w1, v1, w2, v2)
    ensures SameLive(w, v, w2, v2)
  {
    hide LiveIn;
    forall d: nat, p, o ensures LiveSame(w, v, w2, v2, d, p, o) {
      assert LiveSame(w, v, w1, v1, d, p, o) && LiveSame(w1, v1, w2, v2, d, p, o);
    }
    forall d: nat, p, o, a | Inside(w, v, d, p, o, a) ensures Inside(w1, v1, d, p, o, a) {
      assert LiveSame(w, v, w1, v1, d, p, o);
    }
  }

  /** After a step that keeps the live chunks, another one handed out a chunk. */
  lemma SameThenBut(w: World, v: View, w1: World, v1: View, w2: World, v2: View, page: nat, off: nat)
    requires SameLive(w, v, w1, v1) && LiveBut(w1, v1, w2, v2, page, off) && !Live(w1, v1, page, off)
      && w2.mem == w1.mem
    ensures LiveBut(w, v, w2, v2, page, off) && !Live(w, v, page, off) && Untouched(w, v, w2, Nil)
  {
    hide LiveIn;
    forall d: nat, p, o | !(p == page && o == off) ensures LiveSame(w, v, w2, v2, d, p, o) {
      assert LiveSame(w, v, w1, v1, d, p, o) && LiveSame(w1, v1, w2, v2, d, p, o);
    }
    forall d: nat ensures !LiveIn(w, v, d, page, off) { assert LiveSame(w, v, w1, v1, d, page, off); }
  }

  /** After a step that took back a chunk, another one kept the live chunks. */
  lemma ButThenSame(w: World, v: View, w1: World, v1: View, w2: World, v2: View, page: nat, off: nat)
    requires LiveBut(w, v, w1, v1, page, off) && !Live(w1, v1, page, off)
    requires forall d: nat, p, o :: LiveSame(w1, v1, w2, v2, d, p, o)
    ensures LiveBut(w, v, w2, v2, page, off) && !Live(w2, v2, page, off)
  {
    hide LiveIn;
    forall d: nat, p, o | !(p == page && o == off) ensures LiveSame(w, v, w2, v2, d, p, o) {
      assert LiveSame(w, v, w1, v1, d, p, o) && LiveSame(w1, v1, w2, v2, d, p, o);
    }
    forall d: nat ensures !LiveIn(w2, v2, d, page, off) { assert LiveSame(w1, v1, w2, v2, d, page, off); }
  }

  lemma NoZero(w: World, v: View)
    requires Inv(w, v)
    ensures 0 !in w.pool
  {
  }

  lemma InvIs(w: World, v: View)
    requires Inv(w, v)
    ensures Lists(w, v) && InUse(w, v, -1)
    ensures SameLive(w, v, w, v)
  {
  }

  lemma Step(k: nat, size: nat)
    ensures (k + 1) * size == k * size + size
  {
  }

  lemma PagePositive(w: World, v: View, d: nat, unused: int)
    requires InUse(w, v, unused) && d < |w.desc| && 0 <= v.place[d] < NrBuckets
    ensures w.desc[d].page > 0
  {
    assert BucketOk(w.desc[d], w.mem, v.place[d], v.offs[d]);
  }

  /** Threading a free page writes into no live chunk. */
  lemma OpenedWords(w: World, v: View, b: nat, page: nat)
    requires Inv(w, v) && b < NrBuckets && page in w.pool && 0 <= w.freeDesc < |w.desc| && b < |w.chain|
    ensures Untouched(w, v, Opened(w, b, page), Nil)
  {
    hide Size, PageThreaded, AllOffs, BucketOk;
    PageIsThreaded(w.mem, page, b);
  }
}
