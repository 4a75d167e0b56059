/** The order in which add_request of VLinux0.11/kernel/blk_drv/ll_rw_blk.c keeps the requests of a device. */
module Elevator {

  /** What IN_ORDER compares: reads (0) before writes (1), then the device, then the sector. */
  datatype Key = Key(cmd: int, dev: int, sector: int)

  predicate InOrder(a: Key, b: Key) {
    a.cmd < b.cmd || (a.cmd == b.cmd && (a.dev < b.dev || (a.dev == b.dev && a.sector < b.sector)))
  }

  /** A strict total order. */
  lemma InOrderRules(a: Key, b: Key, c: Key)
    ensures !InOrder(a, a) && (a != b ==> InOrder(a, b) || InOrder(b, a)) && !(InOrder(a, b) && InOrder(b, a))
    ensures InOrder(a, b) && InOrder(b, c) ==> InOrder(a, c)
  {
  }

  ghost predicate Distinct(s: seq<Key>) { forall i, j :: 0 <= i < j < |s| ==> s[i] != s[j] }

  ghost predicate Rising(s: seq<Key>) { forall i :: 0 <= i < |s| - 1 ==> InOrder(s[i], s[i + 1]) }

  /** The queue rises, falls back once at most, and rises again. */
  ghost predicate OneFall(s: seq<Key>) { exists d :: 0 <= d <= |s| && Rising(s[..d]) && Rising(s[d..]) }

  /** Where add_request stops: behind entry i. */
  predicate Fits(s: seq<Key>, i: nat, k: Key)
    requires i + 1 < |s|
  {
    (InOrder(s[i], k) || !InOrder(s[i], s[i + 1])) && InOrder(k, s[i + 1])
  }

  /** The first entry from i on behind which k fits, or the last. */
  function Position(s: seq<Key>, i: nat, k: Key): (p: nat)
    requires i < |s|
    ensures i <= p < |s|
    ensures p + 1 < |s| ==> Fits(s, p, k)
    ensures forall j :: i <= j < p ==> !Fits(s, j, k)
    decreases |s| - i
  {
    if i + 1 == |s| || Fits(s, i, k) then i else Position(s, i + 1, k)
  }

  /** s with x behind its p-th entry. */
  function InsertAt<T>(s: seq<T>, p: nat, x: T): (r: seq<T>)
    requires p < |s|
    ensures |r| == |s| + 1
  {
    s[..p + 1] + [x] + s[p + 1..]
  }

  lemma InsertAtIs<T>(s: seq<T>, p: nat, x: T, i: nat)
    requires p < |s| && i <= |s|
    ensures |InsertAt(s, p, x)| == |s| + 1
    ensures InsertAt(s, p, x)[i] == if i <= p then s[i] else if i == p + 1 then x else s[i - 1]
  {
  }

  function Insert(s: seq<Key>, k: Key): seq<Key> { if s == [] then [k] else InsertAt(s, Position(s, 0, k), k) }

  lemma RisingParts(s: seq<Key>, d: nat)
    requires Rising(s) && d <= |s|
    ensures Rising(s[..d]) && Rising(s[d..])
  {
    forall i | 0 <= i < |s[d..]| - 1 ensures InOrder(s[d..][i], s[d..][i + 1]) {
      assert InOrder(s[d + i], s[d + i + 1]);
    }
  }

  lemma RisingJoin(a: seq<Key>, b: seq<Key>)
    requires Rising(a) && Rising(b) && (a != [] && b != [] ==> InOrder(a[|a| - 1], b[0]))
    ensures Rising(a + b)
  {
    forall i | 0 <= i < |a + b| - 1 ensures InOrder((a + b)[i], (a + b)[i + 1]) {
      if i >= |a| { assert InOrder(b[i - |a|], b[i - |a| + 1]); }
    }
  }

  /** In a rising queue the key goes to its place, or to the end. */
  lemma IntoRising(s: seq<Key>, k: Key)
    requires Rising(s) && s != [] && k !in s
    ensures OneFall(Insert(s, k))
  {
    var p := Position(s, 0, k);
    var a, b := s[..p + 1], s[p + 1..];
    RisingParts(s, p + 1);
    var t := Insert(s, k);
    assert Rising([k]);
    if p + 1 < |s| {
      assert InOrder(s[p], s[p + 1]);
      RisingJoin(a, [k]);
      RisingJoin(a + [k], b);
      assert t == a + [k] + b && t[..|t|] == t && t[|t|..] == [];
    } else {
      assert t == s + [k] && t[..|s|] == s && t[|s|..] == [k];
    }
  }

  lemma FallAt(t: seq<Key>, x: seq<Key>, y: seq<Key>)
    requires t == x + y && Rising(x) && Rising(y)
    ensures OneFall(t)
  {
    assert t[..|x|] == x && t[|x|..] == y;
  }

  /** Inside a rising run the key separates two neighbours. */
  lemma Between(a: seq<Key>, p: nat, k: Key)
    requires Rising(a) && p + 1 < |a| && InOrder(a[p], k) && InOrder(k, a[p + 1])
    ensures Rising(a[..p + 1] + [k] + a[p + 1..])
  {
    RisingParts(a, p + 1);
    RisingJoin(a[..p + 1], [k]);
    RisingJoin(a[..p + 1] + [k], a[p + 1..]);
  }

  /** In a queue that falls once behind entry d - 1 it stays at one fall. */
  lemma IntoFalling(s: seq<Key>, d: nat, k: Key)
    requires 0 < d < |s| && Rising(s[..d]) && Rising(s[d..]) && InOrder(s[d], s[d - 1]) && k !in s
    ensures OneFall(Insert(s, k))
  {
    hide OneFall, Rising, InOrder;
    var p := Position(s, 0, k);
    if p + 1 < |s| { Fitting(s, p, k); }
    if p + 1 < d {
      IntoFirst(s, d, p, k);
    } else if p + 1 == d {
      BetweenRuns(s, d, k);
    } else if p + 1 < |s| {
      IntoSecond(s, d, p, k);
    } else {
      AtTheEnd(s, d, k);
      BehindAll(s, d, k);
    }
  }

  /** What it means that k fits behind entry p of a queue without equal neighbours. */
  lemma Fitting(s: seq<Key>, p: nat, k: Key)
    requires p + 1 < |s| && Fits(s, p, k)
    ensures InOrder(k, s[p + 1]) && (InOrder(s[p], s[p + 1]) ==> InOrder(s[p], k))
  {
  }

  /** Inside the first run. */
  lemma IntoFirst(s: seq<Key>, d: nat, p: nat, k: Key)
    requires p + 1 < d < |s| && Rising(s[..d]) && Rising(s[d..])
    requires InOrder(k, s[p + 1]) && (InOrder(s[p], s[p + 1]) ==> InOrder(s[p], k))
    ensures OneFall(InsertAt(s, p, k))
  {
    hide OneFall, InOrder;
    var a := s[..d];
    assert InOrder(a[p], a[p + 1]);
    Between(a, p, k);
    CutLeft(s, d, p + 1, k);
    FallAt(InsertAt(s, p, k), a[..p + 1] + [k] + a[p + 1..], s[d..]);
  }

  /** Between the runs. */
  lemma BetweenRuns(s: seq<Key>, d: nat, k: Key)
    requires 0 < d < |s| && Rising(s[..d]) && Rising(s[d..]) && InOrder(k, s[d])
    ensures OneFall(InsertAt(s, d - 1, k))
  {
    hide OneFall, InOrder;
    RisingJoin([k], s[d..]);
    CutLeft(s, d, d, k);
    FallAt(InsertAt(s, d - 1, k), s[..d], [k] + s[d..]);
  }

  /** Inside the second run. */
  lemma IntoSecond(s: seq<Key>, d: nat, p: nat, k: Key)
    requires 0 < d <= p && p + 1 < |s| && Rising(s[..d]) && Rising(s[d..])
    requires InOrder(k, s[p + 1]) && (InOrder(s[p], s[p + 1]) ==> InOrder(s[p], k))
    ensures OneFall(InsertAt(s, p, k))
  {
    hide OneFall, InOrder;
    var b, q := s[d..], p - d;
    assert InOrder(b[q], b[q + 1]) && b[q] == s[p] && b[q + 1] == s[p + 1];
    Between(b, q, k);
    CutRight(s, d, q + 1, k);
    FallAt(InsertAt(s, p, k), s[..d], b[..q + 1] + [k] + b[q + 1..]);
  }

  /** Behind both. */
  lemma BehindAll(s: seq<Key>, d: nat, k: Key)
    requires 0 < d < |s| && Rising(s[..d]) && Rising(s[d..]) && InOrder(s[|s| - 1], k)
    ensures OneFall(InsertAt(s, |s| - 1, k))
  {
    hide OneFall, InOrder;
    var b := s[d..];
    assert b[|b| - 1] == s[|s| - 1];
    RisingJoin(b, [k]);
    CutRight(s, d, |b|, k);
    FallAt(InsertAt(s, |s| - 1, k), s[..d], b + [k]);
  }

  lemma CutLeft(s: seq<Key>, d: nat, p: nat, k: Key)
    requires p <= d <= |s|
    ensures s[..p] + [k] + s[p..] == (s[..d][..p] + [k] + s[..d][p..]) + s[d..]
    ensures p == d ==> s[..p] + [k] + s[p..] == s[..d] + ([k] + s[d..])
  {
  }

  lemma CutRight(s: seq<Key>, d: nat, p: nat, k: Key)
    requires d <= |s| && p <= |s| - d
    ensures s[..d + p] + [k] + s[d + p..] == s[..d] + (s[d..][..p] + [k] + s[d..][p..])
    ensures p == |s| - d ==> s[..d + p] + [k] + s[d + p..] == s[..d] + (s[d..] + [k])
  {
  }

  /** A key that fits nowhere in a queue with a fall is larger than the last. */
  lemma AtTheEnd(s: seq<Key>, d: nat, k: Key)
    requires 0 < d < |s| && Rising(s[d..]) && InOrder(s[d], s[d - 1]) && k !in s
    requires forall j :: 0 <= j < |s| - 1 ==> !Fits(s, j, k)
    ensures InOrder(s[|s| - 1], k)
  {
    InOrderRules(s[d - 1], s[d], s[d]);
    assert !Fits(s, d - 1, k);
    InOrderRules(k, s[d], k);
    var j := d;
    while j < |s| - 1
      invariant d <= j < |s| && InOrder(s[j], k)
    {
      assert !Fits(s, j, k);
      InOrderRules(k, s[j + 1], k);
      j := j + 1;
    }
  }

  lemma InsertFalls(s: seq<Key>, k: Key)
    requires OneFall(s) && Distinct(s) && k !in s
    ensures OneFall(Insert(s, k))
  {
    hide Insert;
    if s == [] {
      Single(k);
    } else {
      var d :| 0 <= d <= |s| && Rising(s[..d]) && Rising(s[d..]);
      assert s[..d] + s[d..] == s;
      if 0 < d < |s| && !InOrder(s[d - 1], s[d]) {
        InOrderRules(s[d - 1], s[d], s[d]);
        IntoFalling(s, d, k);
      } else {
        RisingJoin(s[..d], s[d..]);
        IntoRising(s, k);
      }
    }
  }

  lemma Single(k: Key)
    ensures OneFall(Insert([], k))
  {
    assert Insert([], k)[..0] == [] && Rising(Insert([], k)[..0]) && Rising(Insert([], k)[0..]);
  }

  lemma CutDistinct(s: seq<Key>, p: nat, k: Key)
    requires Distinct(s) && k !in s && p <= |s|
    ensures Distinct(s[..p] + [k] + s[p..]) && multiset(s[..p] + [k] + s[p..]) == multiset(s) + multiset{k}
  {
    assert s == s[..p] + s[p..];
  }

  /** add_request keeps at most one fall and never displaces the head, which may be under way. */
  lemma InsertKeeps(s: seq<Key>, k: Key)
    requires OneFall(s) && Distinct(s) && k !in s
    ensures OneFall(Insert(s, k)) && Distinct(Insert(s, k))
    ensures s != [] ==> Insert(s, k)[0] == s[0]
    ensures |Insert(s, k)| == |s| + 1 && multiset(Insert(s, k)) == multiset(s) + multiset{k}
  {
    hide OneFall;
    InsertFalls(s, k);
    if s != [] { CutDistinct(s, Position(s, 0, k) + 1, k); }
  }

  /** end_request takes the head off. */
  lemma TailKeeps(s: seq<Key>)
    requires OneFall(s) && Distinct(s) && s != []
    ensures OneFall(s[1..]) && Distinct(s[1..])
  {
    var d :| 0 <= d <= |s| && Rising(s[..d]) && Rising(s[d..]);
    if d == 0 {
      assert s[0..] == s;
      RisingParts(s, 1);
      FallAt(s[1..], [], s[1..]);
    } else {
      RisingParts(s[..d], 1);
      assert s[..d][1..] + s[d..] == s[1..];
      FallAt(s[1..], s[..d][1..], s[d..]);
    }
  }

  // ---------- where a request goes ----------

  /** Both parts rise, and the second one starts below the end of the first. */
  ghost predicate Runs<T(!new)>(before: (T, T) -> bool, s: seq<T>, d: nat) {
    && 0 < d <= |s|
    && (forall i, j :: 0 <= i < j < d ==> before(s[i], s[j]))
    && (forall i, j :: d <= i < j < |s| ==> before(s[i], s[j]))
    && (d < |s| ==> before(s[d], s[d - 1]))
  }

  /** Place p parts what goes before x from what goes behind it: in the first run, if x belongs between its head and
      another one of it, and else in the second. */
  ghost predicate Parts<T(!new)>(before: (T, T) -> bool, s: seq<T>, d: nat, p: nat, x: T) {
    && Runs(before, s, d)
    && if before(s[0], x) && exists j :: 0 < j < d && before(x, s[j]) then
         && 0 < p < d && (forall j :: 0 <= j < p ==> before(s[j], x)) && (forall j :: p <= j < d ==> before(x, s[j]))
       else
         && d <= p <= |s| && (forall j :: d <= j < p ==> before(s[j], x))
         && (forall j :: p <= j < |s| ==> before(x, s[j]))
  }

  ghost predicate AtItsPlace<T(!new)>(before: (T, T) -> bool, s: seq<T>, p: nat, x: T) {
    if s == [] then p == 0 else exists d :: Parts(before, s, d, p, x)
  }

  /** Neighbours in order are enough. */
  lemma {:induction false} RisingPairs(s: seq<Key>, i: nat, j: nat)
    requires Rising(s) && i < j < |s|
    ensures InOrder(s[i], s[j])
  {
    hide InOrder;
    assert InOrder(s[j - 1], s[j]);
    if i < j - 1 {
      RisingPairs(s, i, j - 1);
      InOrderRules(s[i], s[j - 1], s[j]);
    }
  }

  lemma RunsIs(s: seq<Key>, d: nat)
    requires 0 < d <= |s| && Rising(s[..d]) && Rising(s[d..]) && (d < |s| ==> InOrder(s[d], s[d - 1]))
    ensures Runs(InOrder, s, d)
  {
    forall i, j | 0 <= i < j < d ensures InOrder(s[i], s[j]) { RisingPairs(s[..d], i, j); }
    forall i, j | d <= i < j < |s| ensures InOrder(s[i], s[j]) {
      RisingPairs(s[d..], i - d, j - d);
      assert s[d..][i - d] == s[i] && s[d..][j - d] == s[j];
    }
  }

  lemma RunsExist(s: seq<Key>)
    requires OneFall(s) && Distinct(s) && s != []
    ensures exists d :: Runs(InOrder, s, d)
  {
    hide InOrder, Distinct;
    var d :| 0 <= d <= |s| && Rising(s[..d]) && Rising(s[d..]);
    assert s[..d] + s[d..] == s && s[..|s|] == s && s[|s|..] == [];
    if 0 < d < |s| && InOrder(s[d], s[d - 1]) {
      RunsIs(s, d);
    } else {
      if 0 < d < |s| { Different(s, d - 1, d); }
      RisingJoin(s[..d], s[d..]);
      RunsIs(s, |s|);
    }
  }

  lemma Different(s: seq<Key>, i: nat, j: nat)
    requires Distinct(s) && i < j < |s|
    ensures InOrder(s[i], s[j]) || InOrder(s[j], s[i])
  {
    InOrderRules(s[i], s[j], s[j]);
  }

  /** k is in order with each entry, one way or the other. */
  lemma Sides(s: seq<Key>, k: Key)
    requires k !in s
    ensures forall j :: 0 <= j < |s| ==> InOrder(s[j], k) != InOrder(k, s[j])
  {
    forall j | 0 <= j < |s| ensures InOrder(s[j], k) != InOrder(k, s[j]) { InOrderRules(s[j], k, k); }
  }

  /** What is in order with one entry of a run is in order with those beyond it. */
  lemma Beyond(s: seq<Key>, i: nat, j: nat, k: Key)
    requires i < |s| && j < |s| && InOrder(s[i], s[j])
    ensures InOrder(s[j], k) ==> InOrder(s[i], k)
    ensures InOrder(k, s[i]) ==> InOrder(k, s[j])
  {
    InOrderRules(s[i], s[j], k);
    InOrderRules(k, s[i], s[j]);
  }

  /** The position found, from below: nothing before it that k could have gone behind. */
  lemma NotEarlier(s: seq<Key>, d: nat, k: Key, p: nat, i: nat)
    requires Runs(InOrder, s, d) && k !in s && p == Position(s, 0, k) && i < p
    ensures i + 1 != d && InOrder(s[i], k) ==> InOrder(s[i + 1], k)
    ensures i + 1 == d ==> InOrder(s[d], k)
  {
    hide InOrder, Position;
    assert !Fits(s, i, k);
    Sides(s, k);
    if i + 1 == d { InOrderRules(s[d], s[d - 1], s[d]); }
  }

  lemma {:induction false} SmallerUpTo(s: seq<Key>, d: nat, k: Key, p: nat, from: nat, i: nat)
    requires Runs(InOrder, s, d) && k !in s && p == Position(s, 0, k) && from <= i <= p
    requires InOrder(s[from], k) && (i < d || from >= d)
    ensures InOrder(s[i], k)
  {
    hide InOrder, Position, Runs;
    if from < i {
      SmallerUpTo(s, d, k, p, from, i - 1);
      NotEarlier(s, d, k, p, i - 1);
    }
  }

  /** In the first run: everything up to the position is before k, everything beyond it behind k. */
  lemma InFirst(s: seq<Key>, d: nat, k: Key, p: nat, j: nat)
    requires Runs(InOrder, s, d) && k !in s && InOrder(s[0], k) && 0 < j < d && InOrder(k, s[j])
    requires p == Position(s, 0, k)
    ensures p < j && (forall i :: 0 <= i <= p ==> InOrder(s[i], k)) && InOrder(k, s[p + 1])
  {
    hide InOrder;
    Sides(s, k);
    if p >= j { SmallerUpTo(s, d, k, p, 0, j); }
    forall i | 0 <= i <= p ensures InOrder(s[i], k) { SmallerUpTo(s, d, k, p, 0, i); }
  }

  lemma RestOfRun(s: seq<Key>, d: nat, k: Key, p: nat, end: nat)
    requires Runs(InOrder, s, d) && p + 1 < end && (end == d || (d <= p + 1 && end == |s|)) && InOrder(k, s[p + 1])
    ensures end <= |s| && forall i :: p + 1 <= i < end ==> InOrder(k, s[i])
  {
    hide InOrder;
    forall i | p + 1 <= i < end ensures InOrder(k, s[i]) { if p + 1 < i { Beyond(s, p + 1, i, k); } }
  }

  lemma FitsInFirst(s: seq<Key>, d: nat, k: Key, p: nat)
    requires Runs(InOrder, s, d) && p + 1 < d && Fits(s, p, k)
    ensures InOrder(s[0], k) && InOrder(k, s[p + 1])
  {
    hide InOrder;
    InOrderRules(s[p], s[p + 1], s[p]);
    if p > 0 { Beyond(s, 0, p, k); }
  }

  /** Among the second run. */
  lemma InSecond(s: seq<Key>, d: nat, k: Key, p: nat)
    requires Runs(InOrder, s, d) && k !in s && p == Position(s, 0, k) && d <= p + 1
    ensures forall j :: d <= j <= p ==> InOrder(s[j], k)
    ensures forall j :: p + 1 <= j < |s| ==> InOrder(k, s[j])
  {
    hide InOrder;
    Sides(s, k);
    if p + 1 < |s| { RestOfRun(s, d, k, p, |s|); }
    if d <= p { NotEarlier(s, d, k, p, d - 1); }
    forall j | d <= j <= p ensures InOrder(s[j], k) { SmallerUpTo(s, d, k, p, d, j); }
  }

  lemma PartsAt(s: seq<Key>, d: nat, k: Key, p: nat)
    requires Runs(InOrder, s, d) && k !in s && p == Position(s, 0, k)
    ensures Parts(InOrder, s, d, p + 1, k)
  {
    hide InOrder;
    if InOrder(s[0], k) && exists j :: 0 < j < d && InOrder(k, s[j]) {
      var j :| 0 < j < d && InOrder(k, s[j]);
      InFirst(s, d, k, p, j);
      RestOfRun(s, d, k, p, d);
    } else {
      if p + 1 < d { FitsInFirst(s, d, k, p); }
      InSecond(s, d, k, p);
    }
  }

  /** add_request puts the key at its place. */
  lemma PlaceIs(s: seq<Key>, k: Key)
    requires OneFall(s) && Distinct(s) && k !in s
    ensures AtItsPlace(InOrder, s, if s == [] then 0 else Position(s, 0, k) + 1, k)
  {
    if s != [] {
      RunsExist(s);
      var d :| Runs(InOrder, s, d);
      PartsAt(s, d, k, Position(s, 0, k));
    }
  }

  /** A request in the middle of its two sectors has an odd sector; all others have even ones. */
  ghost predicate EvenBut(s: seq<Key>, n: nat) { forall i :: n <= i < |s| ==> s[i].sector % 2 == 0 }

  function Stepped(k: Key): Key { k.(sector := k.sector + 1) }

  /** The driver moves on to the second sector of the head: it stays where it is in the order. */
  lemma StepKeeps(s: seq<Key>, k: Key)
    requires OneFall(s) && Distinct(s) && s != [] && EvenBut(s, 0)
    ensures OneFall(s[0 := Stepped(s[0])]) && Distinct(s[0 := Stepped(s[0])])
    ensures k.sector % 2 == 0 && k !in s ==>
      && k !in s[0 := Stepped(s[0])]
      && (InOrder(k, Stepped(s[0])) <==> InOrder(k, s[0])) && (InOrder(Stepped(s[0]), k) <==> InOrder(s[0], k))
  {
    var t := s[0 := Stepped(s[0])];
    var d :| 0 <= d <= |s| && Rising(s[..d]) && Rising(s[d..]);
    forall j | 0 < j < |s| ensures s[j] != Stepped(s[0]) && (InOrder(s[0], s[j]) ==> InOrder(t[0], t[j])) { }
    forall i | 0 <= i < d - 1 ensures InOrder(t[..d][i], t[..d][i + 1]) { assert InOrder(s[..d][i], s[..d][i + 1]); }
    forall i | 0 <= i < |s| - d - 1 ensures InOrder(t[d..][i], t[d..][i + 1]) {
      assert InOrder(s[d..][i], s[d..][i + 1]);
    }
    assert Rising(t[..d]) && Rising(t[d..]);
    forall i, j | 0 <= i < j < |t| ensures t[i] != t[j] { }
  }
}
