/** The timer list of VLinux0.11/kernel/sched.c: each entry holds the ticks after the entry before it. */
module Timers {

  /** A pending callback and the ticks it waits after the entry before it. */
  datatype Entry = Entry(delta: int, fn: nat)

  /** Every entry waits at least a tick after the one before it. */
  ghost predicate Positive(s: seq<Entry>) { forall i :: 0 <= i < |s| ==> s[i].delta > 0 }

  /** When the k-th entry is due: the ticks up to and with its own. */
  function Due(s: seq<Entry>, k: nat): int
    requires k < |s|
  {
    if k == 0 then s[0].delta else s[0].delta + Due(s[1..], k - 1)
  }

  /** add_timer: the entry goes behind all that are due earlier; the entry behind it keeps its delta. */
  function Insert(s: seq<Entry>, ticks: int, fn: nat): seq<Entry> {
    if s == [] || s[0].delta >= ticks then [Entry(ticks, fn)] + s
    else [s[0]] + Insert(s[1..], ticks - s[0].delta, fn)
  }

  /** Where the new entry comes to stand. */
  function Place(s: seq<Entry>, ticks: int): (i: nat)
    ensures i <= |s|
  {
    if s == [] || s[0].delta >= ticks then 0 else 1 + Place(s[1..], ticks - s[0].delta)
  }

  /** The rest of its time that the new entry waits after the one before it. */
  function Residual(s: seq<Entry>, ticks: int): int {
    if s == [] || s[0].delta >= ticks then ticks else Residual(s[1..], ticks - s[0].delta)
  }

  /** The list afterwards: the old one with the entry put in. */
  lemma {:induction false} InsertIs(s: seq<Entry>, ticks: int, fn: nat)
    requires Positive(s) && ticks > 0
    ensures Residual(s, ticks) > 0
    ensures Insert(s, ticks, fn) == s[..Place(s, ticks)] + [Entry(Residual(s, ticks), fn)] + s[Place(s, ticks)..]
  {
    if s != [] && s[0].delta < ticks { InsertIs(s[1..], ticks - s[0].delta, fn); }
  }

  lemma InsertPositive(s: seq<Entry>, ticks: int, fn: nat)
    requires Positive(s) && ticks > 0
    ensures Positive(Insert(s, ticks, fn))
  {
    InsertIs(s, ticks, fn);
  }

  /** The new entry is due after exactly the ticks asked for; those ahead keep their times; all those
      behind slip by the new entry's residual. */
  lemma {:induction false} InsertDue(s: seq<Entry>, ticks: int, fn: nat, k: nat)
    requires Positive(s) && ticks > 0 && k < |Insert(s, ticks, fn)|
    ensures |Insert(s, ticks, fn)| == |s| + 1
    ensures k == Place(s, ticks) ==> Insert(s, ticks, fn)[k].fn == fn && Due(Insert(s, ticks, fn), k) == ticks
    ensures k < Place(s, ticks) ==> Insert(s, ticks, fn)[k] == s[k] && Due(Insert(s, ticks, fn), k) == Due(s, k) < ticks
    ensures k > Place(s, ticks) ==>
      && Insert(s, ticks, fn)[k] == s[k - 1] && Due(s, k - 1) >= ticks
      && Due(Insert(s, ticks, fn), k) == Due(s, k - 1) + Residual(s, ticks)
    decreases s
  {
    hide Insert, Place, Residual, Due;
    InsertStep(s, ticks, fn);
    InsertIs(s, ticks, fn);
    var t := Insert(s, ticks, fn);
    DueStep(t, k);
    if k > 0 { DueStep(s, k - 1); }
    if s == [] || s[0].delta >= ticks {
      assert t[1..] == s;
      if k > 0 { DuePositive(s, k - 1); }
    } else {
      assert t[1..] == Insert(s[1..], ticks - s[0].delta, fn);
      if k > 0 { InsertDue(s[1..], ticks - s[0].delta, fn, k - 1); }
      if k < |s| { DueStep(s, k); }
    }
  }

  lemma InsertStep(s: seq<Entry>, ticks: int, fn: nat)
    ensures s == [] || s[0].delta >= ticks ==>
      Insert(s, ticks, fn) == [Entry(ticks, fn)] + s && Place(s, ticks) == 0 && Residual(s, ticks) == ticks
    ensures s != [] && s[0].delta < ticks ==>
      && Insert(s, ticks, fn) == [s[0]] + Insert(s[1..], ticks - s[0].delta, fn)
      && Place(s, ticks) == 1 + Place(s[1..], ticks - s[0].delta)
      && Residual(s, ticks) == Residual(s[1..], ticks - s[0].delta)
  {
  }

  lemma DueStep(s: seq<Entry>, k: nat)
    requires k < |s|
    ensures Due(s, k) == s[0].delta + if k == 0 then 0 else Due(s[1..], k - 1)
  {
  }

  lemma {:induction false} DuePositive(s: seq<Entry>, k: nat)
    requires Positive(s) && k < |s|
    ensures Due(s, k) >= s[0].delta > 0 && Due(s, k) >= k + 1
  {
    if k > 0 { DuePositive(s[1..], k - 1); }
  }

  // ---------- ticks ----------

  /** The entries without those that are due. */
  function Pending(s: seq<Entry>): seq<Entry> { if s == [] || s[0].delta > 0 then s else Pending(s[1..]) }

  function Fired(s: seq<Entry>): seq<nat> { if s == [] || s[0].delta > 0 then [] else [s[0].fn] + Fired(s[1..]) }

  /** One tick less to wait for the first entry, and with it for all. */
  function Ticked(s: seq<Entry>): seq<Entry> { if s == [] then s else s[0 := s[0].(delta := s[0].delta - 1)] }

  /** do_timer on the list. */
  function Tick(s: seq<Entry>): seq<Entry> { Pending(Ticked(s)) }

  function TickFired(s: seq<Entry>): seq<nat> { Fired(Ticked(s)) }

  /** With positive deltas a tick fires the first entry if it waits for one tick, and nothing else. */
  lemma TickIs(s: seq<Entry>)
    requires Positive(s)
    ensures Positive(Tick(s))
    ensures s != [] && s[0].delta == 1 ==> TickFired(s) == [s[0].fn] && Tick(s) == s[1..]
    ensures s == [] || s[0].delta > 1 ==> TickFired(s) == [] && Tick(s) == Ticked(s)
  {
    if s != [] {
      var t := Ticked(s);
      assert t[1..] == s[1..];
      if s[0].delta == 1 {
        assert Pending(t) == Pending(t[1..]) && Fired(t) == [s[0].fn] + Fired(t[1..]);
        assert t[1..] == [] || t[1..][0] == s[1];
      }
    }
  }

  function Ticks(s: seq<Entry>, n: nat): seq<Entry> { if n == 0 then s else Tick(Ticks(s, n - 1)) }

  /** What the n-th tick from now fires. */
  function FiredAt(s: seq<Entry>, n: nat): seq<nat>
    requires n > 0
  {
    TickFired(Ticks(s, n - 1))
  }

  lemma {:induction false} TicksFrom(s: seq<Entry>, n: nat)
    requires n > 0
    ensures Ticks(s, n) == Ticks(Tick(s), n - 1)
  {
    if n > 1 { TicksFrom(s, n - 1); }
  }

  lemma {:induction false} DueShift(s: seq<Entry>, k: nat)
    requires k < |s| && s != []
    ensures Due(Ticked(s), k) == Due(s, k) - 1
    ensures k > 0 ==> Due(s[1..], k - 1) == Due(s, k) - s[0].delta
  {
    if k > 0 { assert Ticked(s)[1..] == s[1..]; }
  }

  /** If no timer is added, an entry stays until the tick at which it is due, and that tick fires it alone. */
  lemma {:induction false} FiresWhenDue(s: seq<Entry>, k: nat, n: nat)
    requires Positive(s) && k < |s| && n > 0
    ensures n == Due(s, k) ==> FiredAt(s, n) == [s[k].fn]
    ensures n < Due(s, k) ==>
      exists j :: 0 <= j < |Ticks(s, n)| && Ticks(s, n)[j].fn == s[k].fn && Due(Ticks(s, n), j) == Due(s, k) - n
    decreases n
  {
    hide Due, Tick, TickFired, Ticks;
    TickIs(s);
    TicksFrom(s, n);
    DuePositive(s, k);
    TickMoves(s, k);
    if n > 1 {
      TicksFrom(s, n - 1);
      if Due(s, k) > 1 {
        var j := if s[0].delta == 1 then k - 1 else k;
        FiresWhenDue(Tick(s), j, n - 1);
      }
    } else {
      NoTicks(s);
      NoTicks(Tick(s));
    }
  }

  lemma NoTicks(s: seq<Entry>)
    ensures Ticks(s, 0) == s
  {
  }

  /** A tick fires the k-th entry or brings it one tick nearer. */
  lemma TickMoves(s: seq<Entry>, k: nat)
    requires Positive(s) && k < |s|
    ensures Due(s, k) == 1 ==> k == 0 && TickFired(s) == [s[k].fn]
    ensures Due(s, k) > 1 ==> 0 <= (if s[0].delta == 1 then k - 1 else k) < |Tick(s)|
    ensures Due(s, k) > 1 ==> Tick(s)[if s[0].delta == 1 then k - 1 else k].fn == s[k].fn
    ensures Due(s, k) > 1 ==> Due(Tick(s), if s[0].delta == 1 then k - 1 else k) == Due(s, k) - 1
  {
    hide Tick, TickFired;
    TickIs(s);
    DuePositive(s, k);
    DueShift(s, k);
  }

  function Fns(s: seq<Entry>): multiset<nat> { if s == [] then multiset{} else multiset{s[0].fn} + Fns(s[1..]) }

  function Bag(s: seq<nat>): multiset<nat> { multiset(s) }

  /** Callbacks are neither lost nor called twice: a tick moves some from the list to those called. */
  lemma {:induction false} FiresOnce(s: seq<Entry>)
    ensures Fns(Pending(s)) + Bag(Fired(s)) == Fns(s)
  {
    if s != [] && s[0].delta <= 0 {
      FiresOnce(s[1..]);
      assert Bag([s[0].fn] + Fired(s[1..])) == multiset{s[0].fn} + Bag(Fired(s[1..]));
    }
  }

  lemma TickConserves(s: seq<Entry>)
    ensures Fns(Tick(s)) + Bag(TickFired(s)) == Fns(s)
  {
    FiresOnce(Ticked(s));
    if s != [] { assert Ticked(s)[1..] == s[1..]; }
  }

  lemma {:induction false} InsertConserves(s: seq<Entry>, ticks: int, fn: nat)
    ensures Fns(Insert(s, ticks, fn)) == Fns(s) + multiset{fn}
  {
    if s == [] || s[0].delta >= ticks {
      assert ([Entry(ticks, fn)] + s)[1..] == s;
    } else {
      InsertConserves(s[1..], ticks - s[0].delta, fn);
      assert ([s[0]] + Insert(s[1..], ticks - s[0].delta, fn))[1..] == Insert(s[1..], ticks - s[0].delta, fn);
    }
  }

  // ---------- the list in memory ----------

  const TimeRequests := 64

  /** A slot of timer_list; fn and next are -1 for NULL. */
  datatype Slot = Slot(jiffies: int, fn: int, next: int)

  function First(chain: seq<nat>): int { if chain == [] then -1 else chain[0] }

  /** The used slots, linked in this order. */
  ghost predicate Chained(slots: seq<Slot>, head: int, chain: seq<nat>) {
    && head == First(chain)
    && (forall i, j :: 0 <= i < j < |chain| ==> chain[i] != chain[j])
    && (forall i :: 0 <= i < |chain| ==> LinkAt(slots, chain, i))
    && (forall p :: 0 <= p < |slots| ==> (slots[p].fn >= 0 <==> p in chain))
  }

  predicate LinkAt(slots: seq<Slot>, chain: seq<nat>, i: nat)
    requires i < |chain|
  {
    chain[i] < |slots| && slots[chain[i]].next == (if i + 1 < |chain| then chain[i + 1] else -1)
  }

  /** The chain holds these entries. */
  ghost predicate Holds(slots: seq<Slot>, chain: seq<nat>, s: seq<Entry>) {
    |s| == |chain| && forall i :: 0 <= i < |s| ==> EntryAt(slots, chain, s, i)
  }

  predicate EntryAt(slots: seq<Slot>, chain: seq<nat>, s: seq<Entry>, i: nat)
    requires i < |s| && i < |chain|
  {
    chain[i] < |slots| && slots[chain[i]].jiffies == s[i].delta && slots[chain[i]].fn == s[i].fn
  }

  datatype Outcome = Ignored | Called | Queued | NoneFree

  lemma HeadIs(slots: seq<Slot>, head: int, chain: seq<nat>, s: seq<Entry>)
    requires Chained(slots, head, chain) && Holds(slots, chain, s)
    ensures |chain| == |s| && (head == -1 <==> s == [])
    ensures head != -1 ==>
      0 <= head < |slots| && chain[0] == head && slots[head].jiffies == s[0].delta && slots[head].fn == s[0].fn
  {
    if s != [] { assert EntryAt(slots, chain, s, 0) && LinkAt(slots, chain, 0); }
  }

  lemma HeadTicks(slots: seq<Slot>, head: int, chain: seq<nat>, s: seq<Entry>)
    requires Chained(slots, head, chain) && Holds(slots, chain, s) && s != [] && 0 <= head < |slots|
    ensures Chained(slots[head := slots[head].(jiffies := slots[head].jiffies - 1)], head, chain)
    ensures Holds(slots[head := slots[head].(jiffies := slots[head].jiffies - 1)], chain, Ticked(s))
  {
    var slots' := slots[head := slots[head].(jiffies := slots[head].jiffies - 1)];
    forall i | 0 <= i < |chain| ensures LinkAt(slots', chain, i) && EntryAt(slots', chain, Ticked(s), i) {
      assert LinkAt(slots, chain, i) && EntryAt(slots, chain, s, i);
    }
  }

  /** A free slot put in front. */
  lemma Hooked(slots: seq<Slot>, head: int, chain: seq<nat>, s: seq<Entry>, p: nat, jiffies: int, fn: nat)
    requires Chained(slots, head, chain) && Holds(slots, chain, s) && p < |slots| && slots[p].fn < 0
    ensures Chained(slots[p := Slot(jiffies, fn, head)], p, [p] + chain)
    ensures Holds(slots[p := Slot(jiffies, fn, head)], [p] + chain, [Entry(jiffies, fn)] + s)
  {
    var slots', chain', s' := slots[p := Slot(jiffies, fn, head)], [p] + chain, [Entry(jiffies, fn)] + s;
    assert p !in chain;
    forall i | 0 <= i < |chain'| ensures LinkAt(slots', chain', i) && EntryAt(slots', chain', s', i) {
      if i > 0 { assert LinkAt(slots, chain, i - 1) && EntryAt(slots, chain, s, i - 1) && chain[i - 1] in chain; }
    }
  }

  /** The first slot given back. */
  lemma Unhooked(slots: seq<Slot>, head: int, chain: seq<nat>, s: seq<Entry>)
    requires Chained(slots, head, chain) && Holds(slots, chain, s) && s != []
    ensures 0 <= head < |slots| && slots[head].fn == s[0].fn
    ensures Chained(slots[head := slots[head].(fn := -1)], slots[head].next, chain[1..])
    ensures Holds(slots[head := slots[head].(fn := -1)], chain[1..], s[1..])
  {
    HeadIs(slots, head, chain, s);
    assert LinkAt(slots, chain, 0) && EntryAt(slots, chain, s, 0);
    var slots', chain', s' := slots[head := slots[head].(fn := -1)], chain[1..], s[1..];
    forall i | 0 <= i < |chain'| ensures LinkAt(slots', chain', i) && EntryAt(slots', chain', s', i) {
      assert LinkAt(slots, chain, i + 1) && EntryAt(slots, chain, s, i + 1);
    }
    forall p | 0 <= p < |slots| ensures slots'[p].fn >= 0 <==> p in chain' {
      assert p in chain <==> p == chain[0] || p in chain';
    }
  }

  /** The new entry has moved behind i others; `left` of its time remains. */
  ghost predicate Moving(slots: seq<Slot>, head: int, chain: seq<nat>, s: seq<Entry>, i: nat, left: int, fn: nat,
                         p: nat) {
    && Chained(slots, head, chain) && i <= |s| && |chain| == |s| + 1 && p == chain[i]
    && Holds(slots, chain, s[..i] + [Entry(left, fn)] + s[i..])
  }

  /** The slot behind the new entry's, and its entry. */
  lemma NextIs(slots: seq<Slot>, head: int, chain: seq<nat>, s: seq<Entry>, i: nat, left: int, fn: nat, p: nat)
    requires Moving(slots, head, chain, s, i, left, fn, p)
    ensures i <= |s| && p < |slots| && slots[p].jiffies == left && slots[p].fn == fn
    ensures i == |s| <==> slots[p].next == -1
    ensures i < |s| ==> 0 <= slots[p].next < |slots| && slots[p].next != p
    ensures i < |s| ==> slots[slots[p].next].jiffies == s[i].delta && slots[slots[p].next].fn == s[i].fn
  {
    var t := s[..i] + [Entry(left, fn)] + s[i..];
    assert LinkAt(slots, chain, i) && EntryAt(slots, chain, t, i);
    if i < |s| { assert LinkAt(slots, chain, i + 1) && EntryAt(slots, chain, t, i + 1); }
  }

  /** The contents of two neighbouring slots swapped, the new one's time reduced. */
  lemma Swapped(slots: seq<Slot>, head: int, chain: seq<nat>, s: seq<Entry>, i: nat, left: int, fn: nat, p: nat)
    requires Moving(slots, head, chain, s, i, left, fn, p) && i < |s| && s[i].delta < left
    requires p < |slots| && 0 <= slots[p].next < |slots|
    ensures Moving(SwapOf(slots, p, slots[p].next, s[i], left - s[i].delta, fn), head, chain, s, i + 1,
      left - s[i].delta, fn, slots[p].next)
    ensures s[..i] + Insert(s[i..], left, fn) == s[..i + 1] + Insert(s[i + 1..], left - s[i].delta, fn)
  {
    var t, t' := s[..i] + [Entry(left, fn)] + s[i..], s[..i + 1] + [Entry(left - s[i].delta, fn)] + s[i + 1..];
    assert LinkAt(slots, chain, i);
    var slots' := SwapOf(slots, chain[i], chain[i + 1], s[i], left - s[i].delta, fn);
    assert EntryAt(slots, chain, t, i) && EntryAt(slots, chain, t, i + 1);
    forall k | 0 <= k < |chain| ensures LinkAt(slots', chain, k) && EntryAt(slots', chain, t', k) {
      assert LinkAt(slots, chain, k) && EntryAt(slots, chain, t, k);
    }
    assert s[i..][1..] == s[i + 1..] && s[..i] + [s[i]] == s[..i + 1];
    assert chain[i] in chain && chain[i + 1] in chain;
  }

  /** The loop ends where Insert puts the entry. */
  lemma Settled(slots: seq<Slot>, head: int, chain: seq<nat>, s: seq<Entry>, i: nat, left: int, fn: nat, p: nat)
    requires Moving(slots, head, chain, s, i, left, fn, p) && (i < |s| ==> s[i].delta >= left)
    ensures Chained(slots, head, chain) && Holds(slots, chain, s[..i] + Insert(s[i..], left, fn))
  {
    assert s[..i] + [Entry(left, fn)] + s[i..] == s[..i] + ([Entry(left, fn)] + s[i..]);
  }

  function SwapOf(slots: seq<Slot>, p: nat, n: nat, e: Entry, rest: int, fn: nat): (r: seq<Slot>)
    requires p < |slots| && n < |slots|
    ensures |r| == |slots|
  {
    slots[p := slots[p].(jiffies := e.delta, fn := e.fn)][n := slots[n].(jiffies := rest, fn := fn)]
  }

  class TimerList {
    var slots: seq<Slot>
    var nextTimer: int
    ghost var chain: seq<nat>
    ghost var entries: seq<Entry>

    ghost predicate Valid()
      reads this
    {
      |slots| == TimeRequests && Chained(slots, nextTimer, chain) && Holds(slots, chain, entries) && Positive(entries)
    }

    constructor ()
      ensures Valid() && entries == []
    {
      slots := seq(TimeRequests, _ => Slot(0, -1, -1));
      nextTimer, chain, entries := -1, [], [];
    }

    /** fn is -1 for NULL; a non-positive time calls the function at once. */
    method AddTimer(jiffies: int, fn: int) returns (r: Outcome)
      requires Valid() && fn >= -1
      modifies this
      ensures r.NoneFree? <==> fn >= 0 && jiffies > 0 && forall p :: 0 <= p < TimeRequests ==> old(slots[p].fn) >= 0
      ensures r.NoneFree? || (Valid() && r == if fn < 0 then Ignored else if jiffies <= 0 then Called else Queued)
      ensures r.Queued? ==> entries == Insert(old(entries), jiffies, fn)
      ensures !r.Queued? ==> entries == old(entries)
    {
      if fn < 0 { return Ignored; }
      if jiffies <= 0 { return Called; }
      var p := 0;
      while p < TimeRequests && slots[p].fn >= 0
        invariant p <= TimeRequests && forall k :: 0 <= k < p ==> slots[k].fn >= 0
      {
        p := p + 1;
      }
      if p >= TimeRequests { return NoneFree; }
      ghost var s := entries;
      Hooked(slots, nextTimer, chain, s, p, jiffies, fn);
      slots := slots[p := Slot(jiffies, fn, nextTimer)];
      nextTimer := p;
      chain := [p] + chain;
      assert s[..0] + [Entry(jiffies, fn)] + s[0..] == [Entry(jiffies, fn)] + s;
      assert s[..0] + Insert(s[0..], jiffies, fn) == Insert(s, jiffies, fn);
      MoveBack(p, s, jiffies, fn);
      entries := Insert(s, jiffies, fn);
      InsertPositive(s, jiffies, fn);
      return Queued;
    }

    /** Moves the new entry, in the first slot p, behind those that are due earlier. */
    method MoveBack(p0: nat, ghost s: seq<Entry>, ghost ticks: int, ghost fn: nat)
      requires |slots| == TimeRequests && Moving(slots, nextTimer, chain, s, 0, ticks, fn, p0) && Positive(s)
      modifies this`slots
      ensures |slots| == TimeRequests && Chained(slots, nextTimer, chain) && Holds(slots, chain, Insert(s, ticks, fn))
    {
      hide Chained, Holds, Insert, Positive, Moving, SwapOf;
      var p: nat := p0;
      ghost var i, left := 0, ticks;
      NextIs(slots, nextTimer, chain, s, i, left, fn, p);
      assert s[..0] + Insert(s[0..], ticks, fn) == Insert(s, ticks, fn);
      while slots[p].next != -1 && slots[slots[p].next].jiffies < slots[p].jiffies
        invariant |slots| == TimeRequests && i <= |s| && Moving(slots, nextTimer, chain, s, i, left, fn, p)
        invariant p < |slots| && slots[p].jiffies == left && -1 <= slots[p].next < |slots|
        invariant Insert(s, ticks, fn) == s[..i] + Insert(s[i..], left, fn)
        decreases |s| - i
      {
        NextIs(slots, nextTimer, chain, s, i, left, fn, p);
        Swapped(slots, nextTimer, chain, s, i, left, fn, p);
        var n: nat := slots[p].next;
        left := left - s[i].delta;
        SwapWith(p, n);
        p := n;
        i := i + 1;
        NextIs(slots, nextTimer, chain, s, i, left, fn, p);
      }
      NextIs(slots, nextTimer, chain, s, i, left, fn, p);
      Settled(slots, nextTimer, chain, s, i, left, fn, p);
    }

    method SwapWith(p: nat, n: nat)
      requires p < |slots| && n < |slots| && p != n && slots[n].fn >= 0 && slots[p].fn >= 0
      modifies this`slots
      ensures slots == SwapOf(old(slots), p, n, Entry(old(slots[n].jiffies), old(slots[n].fn)),
                              old(slots[p].jiffies) - old(slots[n].jiffies), old(slots[p].fn))
    {
      slots := slots[p := slots[p].(jiffies := slots[p].jiffies - slots[n].jiffies)];
      var fn := slots[p].fn;
      slots := slots[p := slots[p].(fn := slots[n].fn)];
      slots := slots[n := slots[n].(fn := fn)];
      var jiffies := slots[p].jiffies;
      slots := slots[p := slots[p].(jiffies := slots[n].jiffies)];
      slots := slots[n := slots[n].(jiffies := jiffies)];
    }

    /** The part of do_timer about the list; fired are the functions called, in order. */
    method DoTimer() returns (fired: seq<nat>)
      requires Valid()
      modifies this
      ensures Valid() && entries == Tick(old(entries)) && fired == TickFired(old(entries))
    {
      hide Chained, Holds, Positive, Pending, Fired, Tick, TickFired;
      fired := [];
      ghost var s0 := entries;
      HeadIs(slots, nextTimer, chain, entries);
      FireStep(fired, s0);
      if nextTimer == -1 { return; }
      TickIs(s0);
      HeadTicks(slots, nextTimer, chain, entries);
      slots := slots[nextTimer := slots[nextTimer].(jiffies := slots[nextTimer].jiffies - 1)];
      entries := Ticked(entries);
      HeadIs(slots, nextTimer, chain, entries);
      while nextTimer != -1 && slots[nextTimer].jiffies <= 0
        invariant |slots| == TimeRequests && Chained(slots, nextTimer, chain) && Holds(slots, chain, entries)
        invariant nextTimer != -1 ==>
          0 <= nextTimer < TimeRequests && entries != [] && slots[nextTimer].jiffies == entries[0].delta
        invariant |chain| == |entries| && (nextTimer == -1 ==> entries == [])
        invariant Pending(entries) == Tick(s0) && fired + Fired(entries) == TickFired(s0)
        decreases |entries|
      {
        Unhooked(slots, nextTimer, chain, entries);
        FireStep(fired, entries);
        fired := fired + [slots[nextTimer].fn];
        slots := slots[nextTimer := slots[nextTimer].(fn := -1)];
        nextTimer := slots[nextTimer].next;
        chain, entries := chain[1..], entries[1..];
        HeadIs(slots, nextTimer, chain, entries);
      }
      FireStep(fired, entries);
    }
  }

  lemma FireStep(fired: seq<nat>, s: seq<Entry>)
    ensures Tick(s) == Pending(Ticked(s)) && fired + TickFired(s) == fired + Fired(Ticked(s))
      && [] + TickFired(s) == TickFired(s)
    ensures s == [] || s[0].delta > 0 ==> Pending(s) == s && fired + Fired(s) == fired
    ensures s == [] ==> Tick(s) == s && TickFired(s) == []
    ensures s != [] && s[0].delta <= 0 ==>
      Pending(s) == Pending(s[1..]) && fired + Fired(s) == fired + [s[0].fn] + Fired(s[1..])
  {
  }
}
