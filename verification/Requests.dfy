/** The request slots and the device queues of VLinux0.11/kernel/blk_drv/ll_rw_blk.c and blk.h. */
module Requests {
  import opened Elevator

  const NrRequest := 32
  const NrBlkDev := 7
  const Read := 0
  const Write := 1

  /** A slot; dev is -1 when it is free, next is -1 for NULL. */
  datatype Request = Request(dev: int, cmd: int, sector: int, nrSectors: int, bh: nat, next: int)

  /** What the driver sees of a buffer. */
  datatype Buffer = Buffer(dev: nat, block: nat, uptodate: bool, dirt: bool, lock: bool)

  datatype World = World(request: seq<Request>, current: seq<int>, bufs: seq<Buffer>)

  function Major(dev: int): int { dev / 256 }

  function KeyOf(r: Request): Key { Key(r.cmd, r.dev, r.sector) }

  ghost function Keys(request: seq<Request>, q: seq<nat>): seq<Key>
    requires forall i :: 0 <= i < |q| ==> q[i] < |request|
  {
    seq(|q|, i requires 0 <= i < |q| => KeyOf(request[q[i]]))
  }

  predicate LinkAt(request: seq<Request>, q: seq<nat>, i: nat)
    requires i < |q|
  {
    q[i] < |request| && request[q[i]].next == (if i + 1 < |q| then q[i + 1] else -1)
  }

  ghost predicate Linked(request: seq<Request>, head: int, q: seq<nat>) {
    && head == (if q == [] then -1 else q[0])
    && (forall i, j :: 0 <= i < j < |q| ==> q[i] != q[j])
    && (forall i :: 0 <= i < |q| ==> LinkAt(request, q, i))
  }

  /** A busy slot is for a locked buffer and its block; writes use the lower two thirds. */
  predicate SlotOk(r: Request, i: nat, bufs: seq<Buffer>) {
    r.dev >= 0 ==>
      && r.bh < |bufs| && bufs[r.bh].lock && r.dev == bufs[r.bh].dev && 0 < Major(r.dev) < NrBlkDev
      && 1 <= r.nrSectors <= 2 && r.sector + r.nrSectors == 2 * bufs[r.bh].block + 2
      && (r.cmd == Read || (r.cmd == Write && i < NrRequest * 2 / 3))
  }

  /** No two buffers are for the same block, as the buffer cache guarantees. */
  predicate OneEach(bufs: seq<Buffer>) {
    forall i, j :: 0 <= i < j < |bufs| && bufs[i].dev != 0 ==>
      bufs[i].dev != bufs[j].dev || bufs[i].block != bufs[j].block
  }

  /** The queue of one device. */
  ghost predicate QueueOk(request: seq<Request>, head: int, q: seq<nat>, m: int) {
    && Linked(request, head, q) && (forall i :: 0 <= i < |q| ==> q[i] < |request|)
    && (forall i :: 0 <= i < |q| ==> request[q[i]].dev >= 0 && Major(request[q[i]].dev) == m)
    && OneFall(Keys(request, q)) && Distinct(Keys(request, q)) && EvenBut(Keys(request, q), 1)
  }

  /** The slots: busy ones are in the queue of their device; each buffer is in one at most, and those in `waiting`,
      locked for a request that found no slot yet, are in none. */
  ghost predicate SlotsOk(request: seq<Request>, bufs: seq<Buffer>, qs: seq<seq<nat>>, waiting: set<nat>)
    requires |request| == NrRequest && |qs| == NrBlkDev
  {
    && (forall i :: 0 <= i < NrRequest ==> SlotOk(request[i], i, bufs))
    && (forall i :: 0 <= i < NrRequest && request[i].dev >= 0 ==>
       i in qs[Major(request[i].dev)] && request[i].bh !in waiting)
    && (forall i, j :: 0 <= i < j < NrRequest && request[i].dev >= 0 && request[j].dev >= 0 ==>
       request[i].bh != request[j].bh)
    && (forall b :: b in waiting ==> b < |bufs| && bufs[b].lock && 0 < Major(bufs[b].dev) < NrBlkDev)
  }

  ghost predicate Inv(w: World, qs: seq<seq<nat>>, waiting: set<nat>) {
    && |w.request| == NrRequest && |w.current| == NrBlkDev == |qs| && OneEach(w.bufs)
    && (forall m :: 0 <= m < NrBlkDev ==> QueueOk(w.request, w.current[m], qs[m], m))
    && SlotsOk(w.request, w.bufs, qs, waiting)
  }

  /** A queue none of whose slots changed. */
  lemma QueueSame(request: seq<Request>, request': seq<Request>, head: int, q: seq<nat>, m: int)
    requires QueueOk(request, head, q, m) && |request'| == |request|
    requires forall i :: 0 <= i < |q| ==> request'[q[i]] == request[q[i]]
    ensures QueueOk(request', head, q, m)
  {
    forall i | 0 <= i < |q| ensures LinkAt(request', q, i) { assert LinkAt(request, q, i); }
    assert Keys(request', q) == Keys(request, q);
  }

  /** Slot s put into a queue behind its p-th entry. */
  function Placed(request: seq<Request>, q: seq<nat>, p: nat, s: nat, r: Request): seq<Request>
    requires s < |request| && p < |q| && q[p] < |request|
  {
    var next := request[q[p]].next;
    request[s := r.(next := next)][q[p] := request[q[p]].(next := s)]
  }

  lemma LinkedInsert(request: seq<Request>, head: int, q: seq<nat>, p: nat, s: nat, r: Request)
    requires Linked(request, head, q) && p < |q| && s < |request| && s !in q
    ensures q[p] < |request| && Linked(Placed(request, q, p, s, r), head, InsertAt<nat>(q, p, s))
  {
    hide InsertAt;
    assert LinkAt(request, q, p);
    var q', request' := InsertAt<nat>(q, p, s), Placed(request, q, p, s, r);
    InsertAtIs<nat>(q, p, s, 0);
    forall i, j | 0 <= i < j < |q'| ensures q'[i] != q'[j] {
      InsertAtIs<nat>(q, p, s, i);
      InsertAtIs<nat>(q, p, s, j);
    }
    forall i | 0 <= i < |q'| ensures q'[i] < |request| && LinkAt(request', q', i) {
      LinkInserted(request, head, q, p, s, r, i);
    }
  }

  lemma LinkInserted(request: seq<Request>, head: int, q: seq<nat>, p: nat, s: nat, r: Request, i: nat)
    requires Linked(request, head, q) && p < |q| && s < |request| && s !in q && i <= |q| && q[p] < |request|
    ensures |InsertAt<nat>(q, p, s)| == |q| + 1 && LinkAt(Placed(request, q, p, s, r), InsertAt<nat>(q, p, s), i)
  {
    hide InsertAt;
    InsertAtIs<nat>(q, p, s, i);
    if i < |q| { InsertAtIs<nat>(q, p, s, i + 1); }
    assert LinkAt(request, q, p);
    if i <= p { assert LinkAt(request, q, i); }
    if i > p + 1 { assert LinkAt(request, q, i - 1); }
  }

  lemma KeysInsert(request: seq<Request>, head: int, q: seq<nat>, p: nat, s: nat, r: Request)
    requires Linked(request, head, q) && s < |request| && s !in q && p < |q|
      && forall i :: 0 <= i < |q| ==> q[i] < |request|
    ensures q[p] < |request| && forall i :: 0 <= i < |InsertAt<nat>(q, p, s)| ==> InsertAt<nat>(q, p, s)[i] < |request|
    ensures Keys(Placed(request, q, p, s, r), InsertAt<nat>(q, p, s)) == InsertAt(Keys(request, q), p, KeyOf(r))
  {
    hide InsertAt;
    var q', request' := InsertAt<nat>(q, p, s), Placed(request, q, p, s, r);
    InsertAtIs<nat>(q, p, s, 0);
    InsertAtIs(Keys(request, q), p, KeyOf(r), 0);
    forall i | 0 <= i < |q'| ensures q'[i] < |request| { InsertAtIs<nat>(q, p, s, i); }
    forall i | 0 <= i < |q'| ensures KeyOf(request'[q'[i]]) == InsertAt(Keys(request, q), p, KeyOf(r))[i] {
      InsertAtIs<nat>(q, p, s, i);
      InsertAtIs(Keys(request, q), p, KeyOf(r), i);
    }
    var keys, want := Keys(request', q'), InsertAt(Keys(request, q), p, KeyOf(r));
    assert |keys| == |want| && forall i :: 0 <= i < |keys| ==> keys[i] == want[i];
  }

  /** A request for another buffer has another key. */
  lemma OtherKey(bufs: seq<Buffer>, x: Request, i: nat, r: Request)
    requires OneEach(bufs) && SlotOk(x, i, bufs) && x.dev >= 0 && x.bh != r.bh && r.bh < |bufs|
    requires r.dev == bufs[r.bh].dev > 0 && r.sector == 2 * bufs[r.bh].block
    ensures KeyOf(x) != KeyOf(r)
  {
    var a, b := if x.bh < r.bh then x.bh else r.bh, if x.bh < r.bh then r.bh else x.bh;
    assert bufs[a].dev != 0 ==> bufs[a].dev != bufs[b].dev || bufs[a].block != bufs[b].block;
  }

  lemma KeyFresh(w: World, qs: seq<seq<nat>>, waiting: set<nat>, m: nat, r: Request)
    requires Inv(w, qs, waiting) && m < NrBlkDev && r.bh in waiting && r.bh < |w.bufs|
    requires r.dev == w.bufs[r.bh].dev > 0 && r.sector == 2 * w.bufs[r.bh].block
    ensures (forall i :: 0 <= i < |qs[m]| ==> qs[m][i] < NrRequest) && KeyOf(r) !in Keys(w.request, qs[m])
  {
    hide OneEach, SlotOk;
    assert QueueOk(w.request, w.current[m], qs[m], m);
    forall i | 0 <= i < |qs[m]| ensures KeyOf(w.request[qs[m][i]]) != KeyOf(r) {
      OtherKey(w.bufs, w.request[qs[m][i]], qs[m][i], r);
    }
  }

  // ---------- a request is queued ----------

  /** r can be put into the free slot s. */
  ghost predicate Ready(w: World, qs: seq<seq<nat>>, waiting: set<nat>, s: nat, r: Request) {
    && Inv(w, qs, waiting) && s < NrRequest && w.request[s].dev < 0 && r.bh in waiting && r.bh < |w.bufs|
    && r.dev == w.bufs[r.bh].dev && r.sector == 2 * w.bufs[r.bh].block && r.nrSectors == 2
    && 0 < Major(r.dev) < NrBlkDev
    && (r.cmd == Read || (r.cmd == Write && s < NrRequest * 2 / 3))
  }

  ghost function NewQueue(w: World, q: seq<nat>, s: nat, r: Request): seq<nat>
    requires forall i :: 0 <= i < |q| ==> q[i] < |w.request|
  {
    if q == [] then [s] else InsertAt<nat>(q, Position(Keys(w.request, q), 0, KeyOf(r)), s)
  }

  /** Reads go before writes; of two with the same command the lower device goes first, and on one device the lower
      sector. */
  predicate Earlier(a: Request, b: Request) {
    if a.cmd != b.cmd then a.cmd == Read else if a.dev != b.dev then a.dev < b.dev else a.sector < b.sector
  }

  lemma EarlierIs(a: Request, b: Request)
    requires a.cmd in {Read, Write} && b.cmd in {Read, Write}
    ensures Earlier(a, b) <==> InOrder(KeyOf(a), KeyOf(b))
  {
  }

  /** In a run without a descent no write stands before a read, and requests of one command rise by device and
      sector. */
  lemma {:induction false} RunIs(at: seq<Request>, i: nat, j: nat)
    requires i < j < |at| && forall n :: i <= n < j ==> InOrder(KeyOf(at[n]), KeyOf(at[n + 1]))
    requires forall n :: i <= n <= j ==> at[n].cmd in {Read, Write}
    ensures !(at[i].cmd == 1 && at[j].cmd == 0)
    ensures at[i].cmd == at[j].cmd ==>
      at[i].dev <= at[j].dev && (at[i].dev == at[j].dev ==> at[i].sector < at[j].sector)
  {
    hide InOrder;
    EarlierIs(at[j - 1], at[j]);
    assert InOrder(KeyOf(at[j - 1]), KeyOf(at[j - 1 + 1]));
    if i < j - 1 { RunIs(at, i, j - 1); }
  }

  function Members(request: seq<Request>, q: seq<nat>): seq<Request>
    requires forall i :: 0 <= i < |q| ==> q[i] < |request|
  {
    seq(|q|, i requires 0 <= i < |q| => request[q[i]])
  }

  /** Slot s with request r has joined queue q, now q', where the elevator has it. */
  ghost predicate InPlace(request: seq<Request>, q: seq<nat>, q': seq<nat>, s: nat, r: Request) {
    && (forall i :: 0 <= i < |q| ==> q[i] < |request|)
    && exists p :: 0 <= p <= |q| && q' == q[..p] + [s] + q[p..] && AtItsPlace(Earlier, Members(request, q), p, r)
  }

  lemma PartsOf(at: seq<Request>, keys: seq<Key>, d: nat, p: nat, r: Request)
    requires |keys| == |at| && forall i :: 0 <= i < |at| ==> keys[i] == KeyOf(at[i]) && at[i].cmd in {Read, Write}
    requires r.cmd in {Read, Write} && Parts(InOrder, keys, d, p, KeyOf(r))
    ensures Parts(Earlier, at, d, p, r)
  {
    hide InOrder, Earlier;
    forall i, j | 0 <= i < |at| && 0 <= j < |at| ensures Earlier(at[i], at[j]) <==> InOrder(keys[i], keys[j]) {
      EarlierIs(at[i], at[j]);
    }
    forall i | 0 <= i < |at|
      ensures (Earlier(at[i], r) <==> InOrder(keys[i], KeyOf(r))) && (Earlier(r, at[i]) <==> InOrder(KeyOf(r), keys[i]))
    {
      EarlierIs(at[i], r);
      EarlierIs(r, at[i]);
    }
  }

  lemma PlaceOf(at: seq<Request>, keys: seq<Key>, p: nat, r: Request)
    requires |keys| == |at| && forall i :: 0 <= i < |at| ==> keys[i] == KeyOf(at[i]) && at[i].cmd in {Read, Write}
    requires r.cmd in {Read, Write} && AtItsPlace(InOrder, keys, p, KeyOf(r))
    ensures AtItsPlace(Earlier, at, p, r)
  {
    hide Parts;
    if at != [] {
      var d :| Parts(InOrder, keys, d, p, KeyOf(r));
      PartsOf(at, keys, d, p, r);
    }
  }

  lemma QueueCommands(w: World, qs: seq<seq<nat>>, waiting: set<nat>, m: nat)
    requires Inv(w, qs, waiting) && m < NrBlkDev
    ensures |qs| == NrBlkDev && forall i :: 0 <= i < |qs[m]| ==>
      qs[m][i] < |w.request| && w.request[qs[m][i]].cmd in {Read, Write}
  {
    hide OneFall, Distinct, EvenBut, OneEach, Linked;
    assert QueueOk(w.request, w.current[m], qs[m], m);
    forall i | 0 <= i < |qs[m]| ensures w.request[qs[m][i]].cmd in {Read, Write} {
      assert SlotOk(w.request[qs[m][i]], qs[m][i], w.bufs);
    }
  }

  /** add_request puts the request where the elevator has it. */
  lemma AddedInPlace(w: World, qs: seq<seq<nat>>, waiting: set<nat>, s: nat, r: Request)
    requires Ready(w, qs, waiting, s, r) && |qs| == NrBlkDev
      && forall i :: 0 <= i < |qs[Major(r.dev)]| ==> qs[Major(r.dev)][i] < |w.request|
    ensures InPlace(w.request, qs[Major(r.dev)], NewQueue(w, qs[Major(r.dev)], s, r), s, r)
  {
    hide OneFall, Distinct, EvenBut, AtItsPlace, InOrder, Earlier, SlotsOk, OneEach, NewQueue, Keys, InPlace;
    var m := Major(r.dev);
    QueueCommands(w, qs, waiting, m);
    KeyFresh(w, qs, waiting, m, r);
    FreeSlot(w, qs, waiting, s, m);
    QueueInPlace(w, qs[m], w.current[m], s, m, r);
  }

  lemma QueueInPlace(w: World, q: seq<nat>, head: int, s: nat, m: int, r: Request)
    requires QueueOk(w.request, head, q, m) && (forall i :: 0 <= i < |q| ==> q[i] < |w.request|)
    requires forall i :: 0 <= i < |q| ==> w.request[q[i]].cmd in {Read, Write}
    requires r.cmd in {Read, Write} && KeyOf(r) !in Keys(w.request, q)
    ensures InPlace(w.request, q, NewQueue(w, q, s, r), s, r)
  {
    hide OneFall, Distinct, EvenBut, AtItsPlace, InOrder, Earlier, Linked;
    var p := if q == [] then 0 else Position(Keys(w.request, q), 0, KeyOf(r)) + 1;
    PlaceIs(Keys(w.request, q), KeyOf(r));
    PlaceOf(Members(w.request, q), Keys(w.request, q), p, r);
    assert NewQueue(w, q, s, r) == q[..p] + [s] + q[p..];
  }

  /** A read larger than the head goes before every write of the head's run. */
  lemma PlaceOfRead(at: seq<Request>, d: nat, p: nat, r: Request, j: nat)
    requires Parts(Earlier, at, d, p, r) && j < |at| && r.cmd == Read && at[0].cmd == Read
    requires Earlier(at[0], r) && at[j].cmd == Write && forall i :: 0 <= i < j ==> Earlier(at[i], at[i + 1])
    ensures 0 < p <= j && forall i :: 0 <= i < p ==> at[i].cmd == Read && at[i].dev <= r.dev
  {
    if d <= j { NoDescent(at[d - 1], at[d]); }
    assert Earlier(r, at[j]);
    if j < p { NoDescent(r, at[j]); }
  }

  lemma NoDescent(a: Request, b: Request)
    ensures !(Earlier(a, b) && Earlier(b, a))
  {
  }

  /** So a read that is added behind a head with a smaller sector does not wait for the writes of its run. */
  lemma ReadsFirst(request: seq<Request>, q: seq<nat>, q': seq<nat>, s: nat, r: Request, j: nat)
    requires InPlace(request, q, q', s, r) && j < |q|
    requires r.cmd == Read && request[q[0]].cmd == Read && request[q[0]].dev == r.dev
      && request[q[0]].sector < r.sector
    requires request[q[j]].cmd == Write && forall i :: 0 <= i < j ==> Earlier(request[q[i]], request[q[i + 1]])
    ensures exists p :: (0 < p <= j && q' == q[..p] + [s] + q[p..]
      && forall i :: 0 <= i < p ==> request[q[i]].cmd == Read && request[q[i]].dev <= r.dev)
  {
    hide Earlier, Parts;
    var at := Members(request, q);
    var p :| 0 <= p <= |q| && q' == q[..p] + [s] + q[p..] && AtItsPlace(Earlier, at, p, r);
    var d :| Parts(Earlier, at, d, p, r);
    BySector(at[0], r);
    forall i | 0 <= i < j ensures Earlier(at[i], at[i + 1]) { assert Earlier(request[q[i]], request[q[i + 1]]); }
    PlaceOfRead(at, d, p, r, j);
    forall i | 0 <= i < p ensures request[q[i]].cmd == Read && request[q[i]].dev <= r.dev {
      assert at[i].cmd == Read && at[i].dev <= r.dev;
    }
  }

  lemma BySector(a: Request, b: Request)
    requires a.cmd == b.cmd && a.dev == b.dev && a.sector < b.sector
    ensures Earlier(a, b)
  {
  }

  /** The slots after add_request. */
  ghost function NewSlots(w: World, q: seq<nat>, s: nat, r: Request): seq<Request>
    requires s < |w.request| && forall i :: 0 <= i < |q| ==> q[i] < |w.request|
  {
    if q == [] then w.request[s := r.(next := -1)]
      else Placed(w.request, q, Position(Keys(w.request, q), 0, KeyOf(r)), s, r)
  }

  lemma FreeSlot(w: World, qs: seq<seq<nat>>, waiting: set<nat>, s: nat, m: nat)
    requires Inv(w, qs, waiting) && s < NrRequest && w.request[s].dev < 0 && m < NrBlkDev
    ensures s !in qs[m] && (forall i :: 0 <= i < |qs[m]| ==> qs[m][i] < NrRequest)
      && Linked(w.request, w.current[m], qs[m])
    ensures QueueOk(w.request, w.current[m], qs[m], m)
  {
    hide SlotsOk, OneEach;
    assert QueueOk(w.request, w.current[m], qs[m], m);
  }

  /** The queue of the device takes the request at its place. */
  lemma AddedQueue(w: World, qs: seq<seq<nat>>, waiting: set<nat>, s: nat, r: Request)
    requires Ready(w, qs, waiting, s, r)
    ensures 0 < Major(r.dev) < NrBlkDev && forall i :: 0 <= i < |qs[Major(r.dev)]| ==> qs[Major(r.dev)][i] < NrRequest
    ensures QueueOk(NewSlots(w, qs[Major(r.dev)], s, r), if qs[Major(r.dev)] == [] then s else w.current[Major(r.dev)],
                    NewQueue(w, qs[Major(r.dev)], s, r), Major(r.dev))
    ensures forall x :: x in NewQueue(w, qs[Major(r.dev)], s, r) <==> x == s || x in qs[Major(r.dev)]
    ensures qs[Major(r.dev)] != [] ==> NewQueue(w, qs[Major(r.dev)], s, r)[0] == qs[Major(r.dev)][0]
  {
    hide Inv, OneFall, Distinct, EvenBut, Position, InsertAt, Insert;
    ReadyFacts(w, qs, waiting, s, r);
    var m := Major(r.dev);
    var q := qs[m];
    FreeSlot(w, qs, waiting, s, m);
    KeyFresh(w, qs, waiting, m, r);
    if q == [] {
      OneSlot(w.request[s := r.(next := -1)], s, r, m);
    } else {
      var p := Position(Keys(w.request, q), 0, KeyOf(r));
      LinkedInsert(w.request, w.current[m], q, p, s, r);
      KeysInsert(w.request, w.current[m], q, p, s, r);
      InsertKeeps(Keys(w.request, q), KeyOf(r));
      InsertIs(Keys(w.request, q), KeyOf(r));
      EvenAfter(Keys(w.request, q), p, KeyOf(r));
      MembersAfter(q, p, s);
      QueueMajors(w.request, q, p, s, r, m);
    }
  }

  lemma InsertIs(s: seq<Key>, k: Key)
    requires s != []
    ensures Insert(s, k) == InsertAt(s, Position(s, 0, k), k)
  {
  }

  lemma ReadyFacts(w: World, qs: seq<seq<nat>>, waiting: set<nat>, s: nat, r: Request)
    requires Ready(w, qs, waiting, s, r)
    ensures |w.request| == NrRequest && |w.current| == NrBlkDev == |qs|
  {
  }

  lemma OneSlot(request: seq<Request>, s: nat, r: Request, m: int)
    requires s < |request| && request[s] == r.(next := -1) && r.dev >= 0 && Major(r.dev) == m
    ensures QueueOk(request, s, [s], m)
  {
    assert LinkAt(request, [s], 0);
    var k := Keys(request, [s]);
    assert k[..0] == [] && Rising(k[..0]) && Rising(k[0..]);
  }

  lemma EvenAfter(s: seq<Key>, p: nat, k: Key)
    requires EvenBut(s, 1) && p < |s| && k.sector % 2 == 0
    ensures EvenBut(InsertAt(s, p, k), 1)
  {
    hide InsertAt;
    InsertAtIs(s, p, k, 0);
    forall i | 1 <= i < |s| + 1 ensures InsertAt(s, p, k)[i].sector % 2 == 0 { InsertAtIs(s, p, k, i); }
  }

  lemma MembersAfter(q: seq<nat>, p: nat, s: nat)
    requires p < |q|
    ensures forall x :: x in InsertAt<nat>(q, p, s) <==> x == s || x in q
    ensures InsertAt<nat>(q, p, s) != [] && InsertAt<nat>(q, p, s)[0] == q[0]
  {
    assert q == q[..p + 1] + q[p + 1..];
  }

  lemma QueueMajors(request: seq<Request>, q: seq<nat>, p: nat, s: nat, r: Request, m: int)
    requires p < |q| && s < |request| && s !in q && r.dev >= 0 && Major(r.dev) == m
    requires forall i :: 0 <= i < |q| ==> q[i] < |request| && request[q[i]].dev >= 0 && Major(request[q[i]].dev) == m
    ensures forall i :: 0 <= i < |InsertAt<nat>(q, p, s)| ==> InsertAt<nat>(q, p, s)[i] < |request|
    ensures forall i :: 0 <= i < |InsertAt<nat>(q, p, s)| ==>
      Placed(request, q, p, s, r)[InsertAt<nat>(q, p, s)[i]].dev >= 0
        && Major(Placed(request, q, p, s, r)[InsertAt<nat>(q, p, s)[i]].dev) == m
  {
    hide InsertAt;
    InsertAtIs<nat>(q, p, s, 0);
    forall i | 0 <= i < |InsertAt<nat>(q, p, s)| ensures InsertAt<nat>(q, p, s)[i] < |request| {
      InsertAtIs<nat>(q, p, s, i);
    }
    forall i | 0 <= i < |InsertAt<nat>(q, p, s)|
      ensures Placed(request, q, p, s, r)[InsertAt<nat>(q, p, s)[i]].dev >= 0
        && Major(Placed(request, q, p, s, r)[InsertAt<nat>(q, p, s)[i]].dev) == m
    {
      InsertAtIs<nat>(q, p, s, i);
    }
  }

  /** add_request keeps everything. */
  lemma AddedKeeps(w: World, qs: seq<seq<nat>>, waiting: set<nat>, s: nat, r: Request, w': World)
    requires Ready(w, qs, waiting, s, r) && |w.current| == NrBlkDev == |qs|
    requires forall i :: 0 <= i < |qs[Major(r.dev)]| ==> qs[Major(r.dev)][i] < |w.request|
    requires w'.request == NewSlots(w, qs[Major(r.dev)], s, r)
    requires w'.current == if qs[Major(r.dev)] == [] then w.current[Major(r.dev) := s] else w.current
    requires w'.bufs == w.bufs[r.bh := w.bufs[r.bh].(dirt := false)]
    ensures Inv(w', qs[Major(r.dev) := NewQueue(w, qs[Major(r.dev)], s, r)], waiting - {r.bh})
  {
    hide OneFall, Distinct, EvenBut, Position, InsertAt, Insert, QueueOk, NewQueue, NewSlots;
    var m := Major(r.dev);
    AddedQueue(w, qs, waiting, s, r);
    FreeSlot(w, qs, waiting, s, m);
    Only(w, qs[m], s, r);
    forall k | 0 <= k < NrBlkDev && k != m ensures QueueOk(w'.request, w'.current[k], qs[k], k) {
      FreeSlot(w, qs, waiting, s, k);
      Elsewhere(w, qs, waiting, m, k);
      QueueSame(w.request, w'.request, w.current[k], qs[k], k);
    }
    AddedSlots(w, qs, waiting, s, r, w');
    hide SlotsOk;
  }

  lemma AddedSlots(w: World, qs: seq<seq<nat>>, waiting: set<nat>, s: nat, r: Request, w': World)
    requires Ready(w, qs, waiting, s, r) && |w.current| == NrBlkDev == |qs|
    requires forall i :: 0 <= i < |qs[Major(r.dev)]| ==> qs[Major(r.dev)][i] < |w.request|
    requires w'.request == NewSlots(w, qs[Major(r.dev)], s, r)
      && w'.bufs == w.bufs[r.bh := w.bufs[r.bh].(dirt := false)]
    ensures SlotsOk(w'.request, w'.bufs, qs[Major(r.dev) := NewQueue(w, qs[Major(r.dev)], s, r)], waiting - {r.bh})
  {
    hide OneFall, Distinct, EvenBut, Position, InsertAt, Insert, QueueOk, NewQueue, NewSlots;
    var m := Major(r.dev);
    AddedQueue(w, qs, waiting, s, r);
    FreeSlot(w, qs, waiting, s, m);
    Only(w, qs[m], s, r);
    forall i | 0 <= i < NrRequest && w'.request[i].dev >= 0
      ensures i in qs[m := NewQueue(w, qs[m], s, r)][Major(w'.request[i].dev)]
    {
      assert i == s || i in qs[Major(w.request[i].dev)];
    }
  }

  /** Only slot s and next pointers within the queue change. */
  lemma Only(w: World, q: seq<nat>, s: nat, r: Request)
    requires s < |w.request| && s !in q && forall i :: 0 <= i < |q| ==> q[i] < |w.request|
    ensures |NewSlots(w, q, s, r)| == |w.request| && NewSlots(w, q, s, r)[s].(next := r.next) == r
    ensures forall i :: 0 <= i < |w.request| && i != s ==>
      NewSlots(w, q, s, r)[i].(next := w.request[i].next) == w.request[i]
    ensures forall i :: 0 <= i < |w.request| && i != s && i !in q ==> NewSlots(w, q, s, r)[i] == w.request[i]
  {
  }

  /** Queues of different devices share no slot. */
  lemma Elsewhere(w: World, qs: seq<seq<nat>>, waiting: set<nat>, m: nat, k: nat)
    requires Inv(w, qs, waiting) && m < NrBlkDev && k < NrBlkDev && m != k
    ensures forall i :: i in qs[k] ==> i !in qs[m]
  {
    hide SlotsOk, OneEach, OneFall, Distinct, EvenBut;
    assert QueueOk(w.request, w.current[m], qs[m], m) && QueueOk(w.request, w.current[k], qs[k], k);
  }

  /** end_request takes the head of a queue off and frees its slot. */
  lemma EndedKeeps(w: World, qs: seq<seq<nat>>, waiting: set<nat>, m: nat, uptodate: bool, w': World)
    requires Inv(w, qs, waiting) && m < NrBlkDev && qs[m] != [] && qs[m][0] < NrRequest && |w'.request| == NrRequest
    requires w'.request == w.request[qs[m][0] := w'.request[qs[m][0]]] && w'.request[qs[m][0]].dev == -1
    requires w.request[qs[m][0]].bh < |w.bufs|
    requires w'.current == w.current[m := w.request[qs[m][0]].next]
    requires w'.bufs
      == w.bufs[w.request[qs[m][0]].bh := w.bufs[w.request[qs[m][0]].bh].(uptodate := uptodate, lock := false)]
    ensures Inv(w', qs[m := qs[m][1..]], waiting)
  {
    hide OneFall, Distinct, EvenBut, QueueOk;
    var s := qs[m][0];
    HeadBusy(w, qs, waiting, m);
    TailQueue(w.request, w'.request, w.current[m], qs[m], m);
    forall k | 0 <= k < NrBlkDev && k != m ensures QueueOk(w'.request, w'.current[k], qs[k], k) {
      Elsewhere(w, qs, waiting, m, k);
      assert s in qs[m];
      assert QueueOk(w.request, w.current[k], qs[k], k);
      QueueInside(w.request, w.current[k], qs[k], k);
      QueueSame(w.request, w'.request, w.current[k], qs[k], k);
    }
    forall i | 0 <= i < NrRequest && w'.request[i].dev >= 0
      ensures i in qs[m := qs[m][1..]][Major(w'.request[i].dev)] && SlotOk(w'.request[i], i, w'.bufs)
    {
      assert i != s && i in qs[Major(w.request[i].dev)] && SlotOk(w.request[i], i, w.bufs);
    }
  }

  lemma QueueInside(request: seq<Request>, head: int, q: seq<nat>, m: int)
    requires QueueOk(request, head, q, m)
    ensures forall i :: 0 <= i < |q| ==> q[i] < |request|
  {
  }

  lemma HeadBusy(w: World, qs: seq<seq<nat>>, waiting: set<nat>, m: nat)
    requires Inv(w, qs, waiting) && m < NrBlkDev
    ensures |w.request| == NrRequest && |w.current| == NrBlkDev == |qs| && (w.current[m] == -1 <==> qs[m] == [])
    ensures qs[m] != [] ==>
      && w.current[m] == qs[m][0] < NrRequest && w.request[qs[m][0]].dev >= 0 && Major(w.request[qs[m][0]].dev) == m
      && w.request[qs[m][0]].bh < |w.bufs| && w.bufs[w.request[qs[m][0]].bh].lock && w.request[qs[m][0]].bh !in waiting
  {
    hide OneFall, Distinct, EvenBut, OneEach;
    assert QueueOk(w.request, w.current[m], qs[m], m);
    if qs[m] != [] { assert SlotOk(w.request[qs[m][0]], qs[m][0], w.bufs); }
  }

  lemma TailQueue(request: seq<Request>, request': seq<Request>, head: int, q: seq<nat>, m: int)
    requires QueueOk(request, head, q, m) && q != [] && q[0] < |request| == |request'|
      && request' == request[q[0] := request'[q[0]]]
    ensures QueueOk(request', request[q[0]].next, q[1..], m)
  {
    hide OneFall, Distinct, EvenBut;
    assert LinkAt(request, q, 0);
    var r := q[1..];
    forall i | 0 <= i < |r| ensures LinkAt(request', r, i) { assert LinkAt(request, q, i + 1); }
    assert Keys(request', r) == Keys(request, q)[1..];
    TailKeeps(Keys(request, q));
    EvenTail(Keys(request, q));
  }

  lemma EvenTail(s: seq<Key>)
    requires EvenBut(s, 1) && s != []
    ensures EvenBut(s[1..], 1)
  {
  }

  // ---------- the driver's tables ----------

  lemma NoRequests(w: World)
    requires |w.request| == NrRequest && (forall i :: 0 <= i < NrRequest ==> w.request[i].dev == -1)
    requires w.current == seq(NrBlkDev, _ => -1) && OneEach(w.bufs)
    ensures Inv(w, seq(NrBlkDev, _ => []), {})
  {
    forall m | 0 <= m < NrBlkDev ensures QueueOk(w.request, w.current[m], [], m) {
      var k := Keys(w.request, []);
      assert k[..0] == [] && Rising(k[..0]) && Rising(k[0..]);
    }
  }

  lemma LockedKeeps(w: World, qs: seq<seq<nat>>, waiting: set<nat>, b: nat)
    requires Inv(w, qs, waiting) && b < |w.bufs| && !w.bufs[b].lock && 0 < Major(w.bufs[b].dev) < NrBlkDev
    ensures b !in waiting && Inv(w.(bufs := w.bufs[b := w.bufs[b].(lock := true)]), qs, waiting + {b})
  {
    hide QueueOk;
    forall i | 0 <= i < NrRequest && w.request[i].dev >= 0 ensures w.request[i].bh != b {
      assert SlotOk(w.request[i], i, w.bufs);
    }
    forall i | 0 <= i < NrRequest ensures SlotOk(w.request[i], i, w.bufs[b := w.bufs[b].(lock := true)]) {
      assert SlotOk(w.request[i], i, w.bufs);
    }
  }

  lemma UnlockedKeeps(w: World, qs: seq<seq<nat>>, waiting: set<nat>, b: nat)
    requires Inv(w, qs, waiting) && b < |w.bufs| && b in waiting
    ensures Inv(w.(bufs := w.bufs[b := w.bufs[b].(lock := false)]), qs, waiting - {b})
  {
    hide QueueOk;
    forall i | 0 <= i < NrRequest ensures SlotOk(w.request[i], i, w.bufs[b := w.bufs[b].(lock := false)]) {
      assert SlotOk(w.request[i], i, w.bufs);
    }
  }

  /** What may happen to the buffers while the driver works: tasks store into them, set flags, and give unlocked ones
      to other blocks, but nobody unlocks a locked one or gives it away. */
  predicate MayBecome(bufs: seq<Buffer>, now: seq<Buffer>) {
    && |now| == |bufs| && OneEach(now)
    && forall i :: 0 <= i < |bufs| && bufs[i].lock ==>
      now[i].lock && now[i].dev == bufs[i].dev && now[i].block == bufs[i].block
  }

  lemma MeanwhileKeeps(w: World, qs: seq<seq<nat>>, waiting: set<nat>, now: seq<Buffer>)
    requires Inv(w, qs, waiting) && MayBecome(w.bufs, now)
    ensures Inv(w.(bufs := now), qs, waiting)
  {
    hide QueueOk, OneEach;
    forall i | 0 <= i < NrRequest ensures SlotOk(w.request[i], i, now) { assert SlotOk(w.request[i], i, w.bufs); }
  }

  /** What the i-th of a queue points at. */
  lemma NextIn(request: seq<Request>, head: int, q: seq<nat>, i: nat)
    requires Linked(request, head, q) && i < |q|
    ensures q[i] < |request| && request[q[i]].next == (if i + 1 < |q| then q[i + 1] else -1)
    ensures i + 1 < |q| ==> q[i + 1] < |request|
  {
    assert LinkAt(request, q, i);
    if i + 1 < |q| { assert LinkAt(request, q, i + 1); }
  }

  lemma PositionStep(request: seq<Request>, q: seq<nat>, i: nat, r: Request)
    requires i < |q| && forall j :: 0 <= j < |q| ==> q[j] < |request|
    ensures i + 1 == |q| ==> Position(Keys(request, q), i, KeyOf(r)) == i
    ensures i + 1 < |q| ==>
      Position(Keys(request, q), i, KeyOf(r)) ==
        if (InOrder(KeyOf(request[q[i]]), KeyOf(r)) || !InOrder(KeyOf(request[q[i]]), KeyOf(request[q[i + 1]])))
          && InOrder(KeyOf(r), KeyOf(request[q[i + 1]]))
        then i else Position(Keys(request, q), i + 1, KeyOf(r))
  {
  }

  lemma PlacedIs(w: World, q: seq<nat>, p: nat, s: nat, r: Request, request: seq<Request>)
    requires s < |w.request| && s !in q && q != [] && p < |q| && (forall i :: 0 <= i < |q| ==> q[i] < |w.request|)
    requires p == Position(Keys(w.request, q), 0, KeyOf(r))
    requires request == w.request[s := r.(next := w.request[q[p]].next)][q[p] := w.request[q[p]].(next := s)]
    ensures request == NewSlots(w, q, s, r)
  {
  }

  lemma NewSlotsEmpty(w: World, q: seq<nat>, s: nat, r: Request)
    requires s < |w.request| && q == []
    ensures w.request[s := r.(next := -1)] == NewSlots(w, q, s, r)
  {
  }

  lemma StepHeadKeeps(w: World, qs: seq<seq<nat>>, waiting: set<nat>, m: nat)
    requires Inv(w, qs, waiting) && m < NrBlkDev && qs[m] != [] && qs[m][0] < NrRequest
      && w.request[qs[m][0]].nrSectors == 2
    ensures Inv(w.(request := w.request[qs[m][0] := NextOf(w.request[qs[m][0]])]), qs, waiting)
  {
    hide OneFall, Distinct, QueueOk, EvenBut;
    var s := qs[m][0];
    var request' := w.request[s := NextOf(w.request[s])];
    HeadBusy(w, qs, waiting, m);
    assert SlotOk(w.request[s], s, w.bufs);
    StepQueue(w.request, w.current[m], qs[m], m);
    forall k | 0 <= k < NrBlkDev && k != m ensures QueueOk(request', w.current[k], qs[k], k) {
      Elsewhere(w, qs, waiting, m, k);
      assert s in qs[m];
      QueueInside(w.request, w.current[k], qs[k], k);
      QueueSame(w.request, request', w.current[k], qs[k], k);
    }
    forall i | 0 <= i < NrRequest ensures SlotOk(request'[i], i, w.bufs) { assert SlotOk(w.request[i], i, w.bufs); }
  }

  function NextOf(r: Request): Request { r.(sector := r.sector + 1, nrSectors := r.nrSectors - 1) }

  lemma StepQueue(request: seq<Request>, head: int, q: seq<nat>, m: int)
    requires QueueOk(request, head, q, m) && q != [] && q[0] < |request| && request[q[0]].sector % 2 == 0
    ensures QueueOk(request[q[0] := NextOf(request[q[0]])], head, q, m)
  {
    hide OneFall, Distinct;
    var request' := request[q[0] := NextOf(request[q[0]])];
    forall i | 0 <= i < |q| ensures LinkAt(request', q, i) { assert LinkAt(request, q, i); }
    var s := Keys(request, q);
    assert Keys(request', q) == s[0 := Stepped(s[0])];
    StepKeeps(s, s[0]);
  }

  datatype Reply = NoDevice | MustWait | Skipped | Unneeded | NoSlot | Queued

  class BlockDevices {
    var request: seq<Request>
    var current: seq<int>
    var bufs: seq<Buffer>
    const present: seq<bool>
    ghost var queues: seq<seq<nat>>
    var waiting: set<nat>

    function W(): World
      reads this
    {
      World(request, current, bufs)
    }

    ghost predicate Valid()
      reads this
    {
      Inv(W(), queues, waiting) && |present| == NrBlkDev && !present[0]
    }

    predicate Present(dev: nat)
      requires |present| == NrBlkDev
    {
      Major(dev) < NrBlkDev && present[Major(dev)]
    }

    /** blk_dev_init, for unlocked buffers of different blocks. */
    constructor (bufs: seq<Buffer>, present: seq<bool>)
      requires OneEach(bufs) && |present| == NrBlkDev && !present[0]
      ensures Valid() && this.bufs == bufs && waiting == {} && forall m :: 0 <= m < NrBlkDev ==> queues[m] == []
    {
      var slots: seq<Request> := [];
      while |slots| < NrRequest
        invariant |slots| <= NrRequest && forall i :: 0 <= i < |slots| ==> slots[i].dev == -1
      {
        slots := slots + [Request(-1, 0, 0, 0, 0, -1)];
      }
      request, current := slots, seq(NrBlkDev, _ => -1);
      this.bufs, this.present := bufs, present;
      queues, waiting := seq(NrBlkDev, _ => []), {};
      new;
      NoRequests(W());
    }

    /** ll_rw_block up to the first point where it may sleep; ahead is READA or WRITEA. */
    method LlRwBlock(cmd: int, ahead: bool, bh: nat) returns (r: Reply)
      requires Valid() && bh < |bufs| && (cmd == Read || cmd == Write)
      modifies this
      ensures Valid() && HeadsStay(old(queues), queues)
      ensures r ==
        if !old(Present(bufs[bh].dev)) then NoDevice
        else if old(bufs[bh].lock) then (if ahead then Skipped else MustWait)
        else if old(if cmd == Write then !bufs[bh].dirt else bufs[bh].uptodate) then Unneeded
        else if old(HasSlot(request, cmd)) then Queued
        else if ahead then Skipped else NoSlot
      ensures !r.Queued? && !r.NoSlot? ==> W() == old(W()) && queues == old(queues)
      ensures r.NoSlot? ==>
        W() == old(W()).(bufs := old(bufs)[bh := old(bufs[bh]).(lock := true)]) && queues == old(queues)
      ensures r.Queued? ==> bufs == old(bufs)[bh := old(bufs[bh]).(lock := true, dirt := false)]
      ensures r.Queued? ==>
        exists req :: Chosen(old(request), cmd, req) && Added(old(W()), W(), old(queues), queues, req, cmd, bh)
      ensures waiting == if r.NoSlot? then old(waiting) + {bh} else old(waiting)
    {
      hide Inv, OneEach, Added, Chosen;
      var major := Major(bufs[bh].dev);
      if major >= NrBlkDev || !present[major] { return NoDevice; }
      if bufs[bh].lock { return if ahead then Skipped else MustWait; }
      if (cmd == Write && !bufs[bh].dirt) || (cmd == Read && bufs[bh].uptodate) { return Unneeded; }
      LockedKeeps(W(), queues, waiting, bh);
      bufs := bufs[bh := bufs[bh].(lock := true)];
      waiting := waiting + {bh};
      ghost var w := W();
      r := MakeRequest(cmd, ahead, bh);
      if r.Queued? { AddedLocked(old(W()), w, W(), old(queues), queues, cmd, bh); }
    }

    /** The part of make_request after the buffer is locked; also what is repeated when it awakes. */
    method MakeRequest(cmd: int, ahead: bool, bh: nat) returns (r: Reply)
      requires Valid() && bh < |bufs| && bh in waiting && (cmd == Read || cmd == Write)
      modifies this
      ensures Valid() && HeadsStay(old(queues), queues)
      ensures r == if old(HasSlot(request, cmd)) then Queued else if ahead then Skipped else NoSlot
      ensures waiting == if r.NoSlot? then old(waiting) else old(waiting) - {bh}
      ensures r.Queued? ==> bufs == old(bufs)[bh := old(bufs[bh]).(dirt := false)]
      ensures r.Queued? ==>
        exists req :: Chosen(old(request), cmd, req) && Added(old(W()), W(), old(queues), queues, req, cmd, bh)
      ensures r.Skipped? ==>
        W() == old(W()).(bufs := old(bufs)[bh := old(bufs[bh]).(lock := false)]) && queues == old(queues)
      ensures r.NoSlot? ==> W() == old(W()) && queues == old(queues)
    {
      hide Inv;
      StepFacts(W(), queues, waiting);
      var req := FindSlot(cmd);
      if req < 0 {
        if ahead {
          UnlockedKeeps(W(), queues, waiting, bh);
          bufs := bufs[bh := bufs[bh].(lock := false)];
          waiting := waiting - {bh};
          return Skipped;
        }
        return NoSlot;
      }
      ghost var w, qs := W(), queues;
      FreeSlot(w, qs, waiting, req, Major(bufs[bh].dev));
      AddRequest(req, RequestFor(bufs[bh], cmd, bh));
      ReadyFacts(w, qs, old(waiting), req, RequestFor(w.bufs[bh], cmd, bh));
      assert Added(w, W(), qs, queues, req, cmd, bh);
      return Queued;
    }

    /** The highest free slot that the command may use, -1 if there is none. */
    method FindSlot(cmd: int) returns (req: int)
      requires Valid() && (cmd == Read || cmd == Write)
      ensures -1 <= req < Limit(cmd) && |request| == NrRequest && (req >= 0 ==> request[req].dev < 0)
      ensures if HasSlot(request, cmd) then Chosen(request, cmd, req) else req == -1
      ensures LastFree(request, req, if cmd == Read then 32 else 21)
    {
      hide QueueOk, SlotsOk, OneEach;
      req := Limit(cmd) - 1;
      while req >= 0 && request[req].dev >= 0
        invariant -1 <= req < Limit(cmd) && forall i :: req < i < Limit(cmd) ==> request[i].dev >= 0
      {
        req := req - 1;
      }
    }

    /** add_request. */
    method AddRequest(req: nat, r: Request)
      requires Valid() && Ready(W(), queues, waiting, req, r)
      modifies this
      ensures Valid() && HeadsStay(old(queues), queues) && waiting == old(waiting) - {r.bh}
      ensures queues == old(queues)[Major(r.dev) := NewQueue(old(W()), old(queues)[Major(r.dev)], req, r)]
      ensures InPlace(old(request), old(queues)[Major(r.dev)], queues[Major(r.dev)], req, r)
      ensures request == NewSlots(old(W()), old(queues)[Major(r.dev)], req, r)
      ensures bufs == old(bufs)[r.bh := old(bufs[r.bh]).(dirt := false)]
    {
      hide Inv, OneFall, Distinct, EvenBut, Insert, InsertAt, NewSlots, NewQueue, Fits, Placed, InPlace;
      ReadyFacts(W(), queues, waiting, req, r);
      ghost var w, qs, wt := W(), queues, waiting;
      assert Ready(w, qs, wt, req, r);
      var m := Major(r.dev);
      ghost var q := qs[m];
      FreeSlot(w, qs, waiting, req, m);
      HeadBusy(w, qs, waiting, m);
      request := request[req := r.(next := -1)];
      bufs := bufs[r.bh := bufs[r.bh].(dirt := false)];
      if current[m] == -1 {
        current := current[m := req];
      } else {
        PutBehind(req, r, m, w, q);
      }
      if q == [] { NewSlotsEmpty(w, q, req, r); }
      AddedQueue(w, qs, wt, req, r);
      AddedInPlace(w, qs, wt, req, r);
      AddedKeeps(w, qs, wt, req, r, W());
      queues := qs[m := NewQueue(w, q, req, r)];
      waiting := waiting - {r.bh};
    }

    /** The search of add_request for the entry behind which the request goes. */
    method PutBehind(req: nat, r: Request, m: nat, ghost w: World, ghost q: seq<nat>)
      requires m < |current| && Linked(w.request, current[m], q) && q != []
        && (forall i :: 0 <= i < |q| ==> q[i] < |w.request|)
      requires req < |w.request| == NrRequest && req !in q && current[m] == q[0]
        && request == w.request[req := r.(next := -1)]
      modifies this`request
      ensures request == NewSlots(w, q, req, r)
    {
      hide Linked, Position, NewSlots;
      ghost var i := 0;
      var tmp := current[m];
      NextIn(w.request, current[m], q, 0);
      while request[tmp].next != -1
            && !((InOrder(KeyOf(request[tmp]), KeyOf(r))
               || !InOrder(KeyOf(request[tmp]), KeyOf(request[request[tmp].next])))
                 && InOrder(KeyOf(r), KeyOf(request[request[tmp].next])))
        invariant request == w.request[req := r.(next := -1)] && i < |q| && tmp == q[i] && tmp != req
        invariant 0 <= tmp < NrRequest && -1 <= request[tmp].next < NrRequest
          && request[tmp].next == w.request[q[i]].next
        invariant Position(Keys(w.request, q), i, KeyOf(r)) == Position(Keys(w.request, q), 0, KeyOf(r))
        decreases |q| - i
      {
        NextIn(w.request, current[m], q, i);
        PositionStep(w.request, q, i, r);
        tmp := request[tmp].next;
        i := i + 1;
        NextIn(w.request, current[m], q, i);
      }
      NextIn(w.request, current[m], q, i);
      PositionStep(w.request, q, i, r);
      request := request[req := request[req].(next := request[tmp].next)];
      request := request[tmp := request[tmp].(next := req)];
      PlacedIs(w, q, i, req, r, request);
    }

    /** The interrupt after a sector of the request under way: it goes on with the next sector or is done. */
    method SectorDone(m: nat) returns (done: bool)
      requires Valid() && m < NrBlkDev && current[m] != -1
      modifies this
      ensures Valid() && waiting == old(waiting) && old(queues)[m] != []
        && old(queues)[m][0] == old(current)[m] < NrRequest
      ensures done == (old(request)[old(queues)[m][0]].nrSectors == 1)
      ensures !done ==>
        && request == old(request)[old(queues)[m][0] := NextOf(old(request)[old(queues)[m][0]])]
        && queues == old(queues) && current == old(current) && bufs == old(bufs)
      ensures done ==>
        && queues == old(queues)[m := old(queues)[m][1..]]
        && request == old(request)[old(queues)[m][0] := NextOf(old(request)[old(queues)[m][0]]).(dev := -1)]
        && current == old(current)[m := old(request)[old(queues)[m][0]].next]
        && old(request)[old(queues)[m][0]].bh < |old(bufs)|
        && bufs == old(bufs)[old(request)[old(queues)[m][0]].bh :=
                     old(bufs[request[queues[m][0]].bh]).(uptodate := true, lock := false)]
    {
      hide Inv;
      HeadBusy(W(), queues, waiting, m);
      HeadSectors(W(), queues, waiting, m);
      ghost var w := W();
      var r := request[current[m]];
      if r.nrSectors == 2 { StepHeadKeeps(w, queues, waiting, m); }
      request := request[current[m] := r.(sector := r.sector + 1, nrSectors := r.nrSectors - 1)];
      done := request[current[m]].nrSectors == 0;
      if done { FinishHead(m, true, w); }
    }

    /** The request under way is done: its buffer is unlocked, its slot free, the next one is up. */
    method EndRequest(m: nat, uptodate: bool)
      requires Valid() && m < NrBlkDev && current[m] != -1
      modifies this
      ensures Valid() && queues == old(queues)[m := old(queues)[m][1..]] && waiting == old(waiting)
      ensures old(queues)[m] != [] && old(queues)[m][0] == old(current)[m] < NrRequest == |old(request)|
      ensures request == old(request)[old(current)[m] := old(request)[old(current)[m]].(dev := -1)]
      ensures current == old(current)[m := old(request)[old(current)[m]].next]
      ensures old(request)[old(queues)[m][0]].bh < |old(bufs)|
      ensures bufs == old(bufs)[old(request)[old(queues)[m][0]].bh :=
                        old(bufs[request[queues[m][0]].bh]).(uptodate := uptodate, lock := false)]
    {
      hide Inv;
      HeadBusy(W(), queues, waiting, m);
      FinishHead(m, uptodate, W());
    }

    /** The same; w is the state before the driver counted the last sector of the head. */
    method FinishHead(m: nat, uptodate: bool, ghost w: World)
      requires Inv(w, queues, waiting) && |present| == NrBlkDev && !present[0] && m < NrBlkDev && |queues| == NrBlkDev
        && queues[m] != []
      requires current == w.current && bufs == w.bufs && |w.current| == NrBlkDev
        && current[m] == queues[m][0] < NrRequest
      requires |request| == |w.request| == NrRequest && request == w.request[current[m] := request[current[m]]]
      requires request[current[m]].bh == w.request[current[m]].bh < |bufs|
        && request[current[m]].next == w.request[current[m]].next
      modifies this
      ensures Valid() && queues == old(queues)[m := old(queues)[m][1..]] && waiting == old(waiting)
      ensures request == old(request)[old(current)[m] := old(request)[old(current)[m]].(dev := -1)]
      ensures current == old(current)[m := old(request)[old(current)[m]].next]
      ensures bufs == old(bufs)[old(request)[old(queues)[m][0]].bh :=
                        old(bufs[request[queues[m][0]].bh]).(uptodate := uptodate, lock := false)]
    {
      hide Inv;
      var cur := current[m];
      var bh := request[cur].bh;
      bufs := bufs[bh := bufs[bh].(uptodate := uptodate, lock := false)];
      request := request[cur := request[cur].(dev := -1)];
      current := current[m := request[cur].next];
      EndedKeeps(w, queues, waiting, m, uptodate, W());
      queues := queues[m := queues[m][1..]];
    }

    /** Somebody else uses the buffers. */
    method UseBuffers(now: seq<Buffer>)
      requires Valid() && MayBecome(bufs, now)
      modifies this`bufs
      ensures Valid() && bufs == now
    {
      hide Inv;
      MeanwhileKeeps(W(), queues, waiting, now);
      bufs := now;
    }

    /** One step, if it is possible. */
    method Step(e: Event)
      requires Valid()
      modifies this
      ensures Valid() && KeepsBut(old(W()), W(), Ended(old(W()), e))
      ensures !e.Sector? && !e.Failed? ==> HeadsStay(old(queues), queues)
    {
      hide Inv, MayBecome;
      StepFacts(W(), queues, waiting);
      match e
      case Ask(cmd, ahead, bh) => if bh < |bufs| && (cmd == Read || cmd == Write) { AskStep(cmd, ahead, bh); }
      case Again(cmd, bh) => if bh in waiting && (cmd == Read || cmd == Write) { AgainStep(cmd, bh); }
      case Sector(m) => if m < NrBlkDev && current[m] != -1 { SectorStep(m); }
      case Failed(m) => if m < NrBlkDev && current[m] != -1 { FailedStep(m); }
      case Meanwhile(now) => if MayBecome(bufs, now) { UseBuffers(now); }
    }

    method AskStep(cmd: int, ahead: bool, bh: nat)
      requires Valid() && bh < |bufs| && (cmd == Read || cmd == Write)
      modifies this
      ensures Valid() && KeepsBut(old(W()), W(), -1) && HeadsStay(old(queues), queues)
    {
      hide Inv, Added, Chosen;
      StepFacts(W(), queues, waiting);
      var r := LlRwBlock(cmd, ahead, bh);
      if r.Queued? { AddedKeepsOthers(old(W()), W(), old(queues), queues, old(waiting), cmd, bh); }
    }

    method AgainStep(cmd: int, bh: nat)
      requires Valid() && bh < |bufs| && bh in waiting && (cmd == Read || cmd == Write)
      modifies this
      ensures Valid() && KeepsBut(old(W()), W(), -1) && HeadsStay(old(queues), queues)
    {
      hide Inv, Added, Chosen;
      StepFacts(W(), queues, waiting);
      var r := MakeRequest(cmd, false, bh);
      if r.Queued? { AddedKeepsOthers(old(W()), W(), old(queues), queues, old(waiting), cmd, bh); }
    }

    method SectorStep(m: nat)
      requires Valid() && m < NrBlkDev && |current| == NrBlkDev && current[m] != -1
      modifies this
      ensures Valid() && KeepsBut(old(W()), W(), old(current)[m])
    {
      hide Inv;
      StepFacts(W(), queues, waiting);
      var _ := SectorDone(m);
    }

    method FailedStep(m: nat)
      requires Valid() && m < NrBlkDev && |current| == NrBlkDev && current[m] != -1
      modifies this
      ensures Valid() && KeepsBut(old(W()), W(), old(current)[m])
    {
      hide Inv;
      StepFacts(W(), queues, waiting);
      EndRequest(m, false);
    }

    /** Any interleaving: a request stays in its slot until an event on its device ends it. */
    method Run(events: seq<Event>)
      requires Valid()
      modifies this
      ensures Valid() && Undisturbed(old(W()), W(), events, |events|)
    {
      hide Inv, KeepsBut, Undisturbed;
      NothingYet(W(), queues, waiting, events);
      var n := 0;
      while n < |events|
        invariant n <= |events| && Valid() && Undisturbed(old(W()), W(), events, n)
      {
        ghost var w, qs, wt := W(), queues, waiting;
        Step(events[n]);
        EventKeeps(old(W()), w, W(), qs, wt, events, n);
        n := n + 1;
      }
    }
  }

  /** The busy slots for whose device no event was an end of a request. */
  ghost predicate Undisturbed(w: World, w': World, events: seq<Event>, n: nat) {
    && |w.request| == |w'.request| == NrRequest && n <= |events|
    && forall i :: 0 <= i < NrRequest && w.request[i].dev >= 0 && NotEnded(events, n, Major(w.request[i].dev)) ==>
         StillThere(w, w', i)
  }

  predicate NotEnded(events: seq<Event>, n: nat, m: int)
    requires n <= |events|
  {
    forall k :: 0 <= k < n ==> !Ends(events[k], m)
  }

  lemma NothingYet(w: World, qs: seq<seq<nat>>, waiting: set<nat>, events: seq<Event>)
    requires Inv(w, qs, waiting)
    ensures Undisturbed(w, w, events, 0)
  {
    StepFacts(w, qs, waiting);
    hide Inv;
  }

  lemma EventKeeps(w0: World, w: World, w': World, qs: seq<seq<nat>>, waiting: set<nat>, events: seq<Event>, n: nat)
    requires Undisturbed(w0, w, events, n) && n < |events| && Inv(w, qs, waiting)
    requires KeepsBut(w, w', Ended(w, events[n]))
    ensures Undisturbed(w0, w', events, n + 1)
  {
    hide Inv, Ended;
    StepFacts(w, qs, waiting);
    forall i | 0 <= i < NrRequest && w0.request[i].dev >= 0 && NotEnded(events, n + 1, Major(w0.request[i].dev))
      ensures StillThere(w0, w', i)
    {
      assert StillThere(w0, w, i) && !Ends(events[n], Major(w0.request[i].dev));
      if i == Ended(w, events[n]) { EndedOf(w, qs, waiting, events[n], i); }
    }
  }

  lemma AddedKeepsOthers(w: World, w': World, qs: seq<seq<nat>>, qs': seq<seq<nat>>, waiting: set<nat>, cmd: int,
                         bh: nat)
    requires Inv(w, qs, waiting) && |w.request| == NrRequest
    requires exists req :: Chosen(w.request, cmd, req) && Added(w, w', qs, qs', req, cmd, bh)
    ensures KeepsBut(w, w', -1)
  {
    hide Inv, Added;
    var req :| Chosen(w.request, cmd, req) && Added(w, w', qs, qs', req, cmd, bh);
    AddedSays(w, w', qs, qs', waiting, req, cmd, bh);
  }

  lemma StepFacts(w: World, qs: seq<seq<nat>>, waiting: set<nat>)
    requires Inv(w, qs, waiting)
    ensures |w.request| == NrRequest && |w.current| == NrBlkDev == |qs|
    ensures forall b :: b in waiting ==> b < |w.bufs| && 0 < Major(w.bufs[b].dev) < NrBlkDev
    ensures forall i :: 0 <= i < NrRequest ==> StillThere(w, w, i)
  {
  }

  /** Steps of tasks, of the driver, and of everybody else who uses the buffers. */
  datatype Event =
    | Ask(cmd: int, ahead: bool, bh: nat)
    | Again(cmd: int, bh: nat)
    | Sector(m: nat)
    | Failed(m: nat)
    | Meanwhile(now: seq<Buffer>)

  /** The event may end the request under way on device m. */
  predicate Ends(e: Event, m: int) { (e.Sector? && e.m == m) || (e.Failed? && e.m == m) }

  /** The request in slot i is still there, unchanged but for its link. */
  predicate StillThere(w: World, w': World, i: nat)
    requires i < |w.request| && i < |w'.request|
  {
    w'.request[i].(next := w.request[i].next) == w.request[i]
  }

  /** Every busy slot but one keeps its request. */
  ghost predicate KeepsBut(w: World, w': World, but: int) {
    && |w.request| == |w'.request| == NrRequest
    && forall i :: 0 <= i < NrRequest && w.request[i].dev >= 0 && i != but ==> StillThere(w, w', i)
  }

  /** The request that the event may end, -1 if none. */
  function Ended(w: World, e: Event): int {
    if (e.Sector? || e.Failed?) && e.m < |w.current| then w.current[e.m] else -1
  }

  lemma EndedOf(w: World, qs: seq<seq<nat>>, waiting: set<nat>, e: Event, i: nat)
    requires Inv(w, qs, waiting) && |w.current| == NrBlkDev && i < |w.request| && i == Ended(w, e)
    ensures Ends(e, Major(w.request[i].dev))
  {
    HeadBusy(w, qs, waiting, e.m);
  }

  /** The head has one or two sectors to go. */
  lemma HeadSectors(w: World, qs: seq<seq<nat>>, waiting: set<nat>, m: nat)
    requires Inv(w, qs, waiting) && m < NrBlkDev && |qs| == NrBlkDev && qs[m] != []
      && qs[m][0] < NrRequest == |w.request|
    requires w.request[qs[m][0]].dev >= 0
    ensures 1 <= w.request[qs[m][0]].nrSectors <= 2
  {
    assert SlotOk(w.request[qs[m][0]], qs[m][0], w.bufs);
  }

  /** The last free one of the first n slots, -1 if there is none. */
  predicate LastFree(request: seq<Request>, req: int, n: nat) {
    -1 <= req < n <= |request| && (req >= 0 ==> request[req].dev < 0) && forall i :: req < i < n ==> request[i].dev >= 0
  }

  /** What the two commands find: reads may use all 32 slots, writes 21 of them. */
  lemma SlotsFor(request: seq<Request>)
    requires |request| == 32
    ensures HasSlot(request, Read) <==> exists i :: 0 <= i < 32 && request[i].dev < 0
    ensures HasSlot(request, Write) <==> exists i :: 0 <= i < 21 && request[i].dev < 0
    ensures forall req :: req >= 0 ==> (Chosen(request, Read, req) <==> LastFree(request, req, 32))
    ensures forall req :: req >= 0 ==> (Chosen(request, Write, req) <==> LastFree(request, req, 21))
  {
  }

  /** Slots below this bound may be used. */
  function Limit(cmd: int): nat { if cmd == Read then NrRequest else NrRequest * 2 / 3 }

  predicate HasSlot(request: seq<Request>, cmd: int) {
    exists i :: 0 <= i < Limit(cmd) && i < |request| && request[i].dev < 0
  }

  /** The slot that is used: the highest free one. */
  predicate Chosen(request: seq<Request>, cmd: int, req: int) {
    && 0 <= req < Limit(cmd) && req < |request| && request[req].dev < 0
    && forall i :: req < i < Limit(cmd) && i < |request| ==> request[i].dev >= 0
  }

  /** The request that make_request fills in. */
  function RequestFor(b: Buffer, cmd: int, bh: nat): Request { Request(b.dev, cmd, 2 * b.block, 2, bh, -1) }

  /** A request for buffer bh is in slot req and in the queue of its device, at the place that the order gives it. */
  ghost predicate Added(w: World, w': World, qs: seq<seq<nat>>, qs': seq<seq<nat>>, req: nat, cmd: int, bh: nat) {
    && bh < |w.bufs| && |qs| == NrBlkDev && Major(w.bufs[bh].dev) < NrBlkDev && req < |w.request|
    && (forall i :: 0 <= i < |qs[Major(w.bufs[bh].dev)]| ==> qs[Major(w.bufs[bh].dev)][i] < |w.request|)
    && qs' == qs[Major(w.bufs[bh].dev) :=
         NewQueue(w, qs[Major(w.bufs[bh].dev)], req, RequestFor(w.bufs[bh], cmd, bh))]
    && w'.request == NewSlots(w, qs[Major(w.bufs[bh].dev)], req, RequestFor(w.bufs[bh], cmd, bh))
    && 0 <= Major(w.bufs[bh].dev)
    && InPlace(w.request, qs[Major(w.bufs[bh].dev)], qs'[Major(w.bufs[bh].dev)], req, RequestFor(w.bufs[bh], cmd, bh))
  }

  lemma AddedLocked(w: World, locked: World, w': World, qs: seq<seq<nat>>, qs': seq<seq<nat>>, cmd: int, bh: nat)
    requires bh < |w.bufs| && locked == w.(bufs := w.bufs[bh := w.bufs[bh].(lock := true)])
    requires exists req :: Chosen(w.request, cmd, req) && Added(locked, w', qs, qs', req, cmd, bh)
    ensures exists req :: Chosen(w.request, cmd, req) && Added(w, w', qs, qs', req, cmd, bh)
  {
    hide InPlace, Position, InsertAt;
    var req :| Chosen(w.request, cmd, req) && Added(locked, w', qs, qs', req, cmd, bh);
    assert Added(w, w', qs, qs', req, cmd, bh);
  }

  /** What that means: one slot more is busy, with this command, block and buffer; all other requests stay what and
      where they are, up to their links. */
  lemma AddedSays(w: World, w': World, qs: seq<seq<nat>>, qs': seq<seq<nat>>, waiting: set<nat>, req: nat, cmd: int,
                  bh: nat)
    requires Inv(w, qs, waiting) && Chosen(w.request, cmd, req) && req < NrRequest
      && Added(w, w', qs, qs', req, cmd, bh)
    ensures |w'.request| == |w.request|
      && w'.request[req].(next := -1) == Request(w.bufs[bh].dev, cmd, 2 * w.bufs[bh].block, 2, bh, -1)
    ensures forall i :: 0 <= i < |w.request| && i != req ==>
      w'.request[i].(next := w.request[i].next) == w.request[i]
    ensures |qs| == NrBlkDev == |qs'| && 0 <= Major(w.bufs[bh].dev) < NrBlkDev
      && InPlace(w.request, qs[Major(w.bufs[bh].dev)], qs'[Major(w.bufs[bh].dev)], req,
                 Request(w.bufs[bh].dev, cmd, 2 * w.bufs[bh].block, 2, bh, -1))
    ensures |qs'| == NrBlkDev && forall m, x :: 0 <= m < NrBlkDev ==>
      (x in qs'[m] <==> x in qs[m] || (m == Major(w.bufs[bh].dev) && x == req))
  {
    hide Inv, Position, InsertAt, NewSlots, InPlace;
    var m := Major(w.bufs[bh].dev);
    var r := RequestFor(w.bufs[bh], cmd, bh);
    FreeSlot(w, qs, waiting, req, m);
    Only(w, qs[m], req, r);
    if qs[m] != [] { MembersAfter(qs[m], Position(Keys(w.request, qs[m]), 0, KeyOf(r)), req); }
    assert forall x :: x in NewQueue(w, qs[m], req, r) <==> x in qs[m] || x == req;
    assert qs'[m] == NewQueue(w, qs[m], req, r) && forall k :: 0 <= k < NrBlkDev && k != m ==> qs'[k] == qs[k];
    hide NewQueue;
  }

  /** A busy slot is in the queue of its device and in no other. */
  lemma BusyOnce(w: World, qs: seq<seq<nat>>, waiting: set<nat>, i: nat, m: nat)
    requires Inv(w, qs, waiting) && i < NrRequest && m < NrBlkDev
    ensures i in qs[m] <==> w.request[i].dev >= 0 && Major(w.request[i].dev) == m
  {
    hide OneFall, Distinct, EvenBut;
    if i in qs[m] {
      var k :| 0 <= k < |qs[m]| && qs[m][k] == i;
    }
  }

  ghost function Writes(request: seq<Request>): set<nat> {
    set i: nat | i < |request| && request[i].dev >= 0 && request[i].cmd == Write
  }

  /** At least a third of the slots is never used by writes. */
  lemma WritesLimited(w: World, qs: seq<seq<nat>>, waiting: set<nat>)
    requires Inv(w, qs, waiting)
    ensures |Writes(w.request)| <= NrRequest * 2 / 3
  {
    hide QueueOk, OneEach;
    forall i | i in Writes(w.request) ensures i in Numbers(NrRequest * 2 / 3) {
      assert SlotOk(w.request[i], i, w.bufs);
    }
    SmallerSet(Writes(w.request), Numbers(NrRequest * 2 / 3));
  }

  ghost function Numbers(n: nat): (s: set<nat>)
    ensures |s| == n && forall i :: i in s <==> 0 <= i < n
  {
    if n == 0 then {} else Numbers(n - 1) + {n - 1}
  }

  lemma {:induction false} SmallerSet(a: set<nat>, b: set<nat>)
    requires a <= b
    ensures |a| <= |b|
  {
    if x :| x in a { SmallerSet(a - {x}, b - {x}); }
  }

  /** No request under way is displaced. */
  ghost predicate HeadsStay(qs: seq<seq<nat>>, qs': seq<seq<nat>>) {
    |qs'| == |qs| && forall m :: 0 <= m < |qs| && qs[m] != [] ==> qs'[m] != [] && qs'[m][0] == qs[m][0]
  }
}
