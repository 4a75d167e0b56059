/** The bucket allocator of VLinux0.11/lib/malloc.c as values: descriptors, chains and the free lists
    threaded through the pages. */
module Buckets {
  import Counting

  const PageSize := 4096
  const NrBuckets := 9
  const DescsPerPage := 256

  /** The sizes of bucket_dir. */
  function Size(b: nat): (s: nat)
    requires b < NrBuckets
    ensures 16 <= s <= PageSize && PageSize % s == 0
  {
    if b == 0 then 16 else if b == 1 then 32 else if b == 2 then 64 else if b == 3 then 128 else if b == 4 then 256
    else if b == 5 then 512 else if b == 6 then 1024 else if b == 7 then 2048 else 4096
  }

  /** The powers of two from 16 to 4096. */
  lemma SizeIs(b: nat)
    requires b < NrBuckets
    ensures Size(b) == Counting.Pow2(b + 4)
  {
    assert Counting.Pow2(4) == 16 && Counting.Pow2(8) == 256 && Counting.Pow2(12) == 4096;
  }

  function Chunks(b: nat): nat
    requires b < NrBuckets
  {
    PageSize / Size(b)
  }

  /** An address: a page and an offset in it. */
  datatype Ptr = Nil | At(page: nat, off: nat)

  datatype Desc = Desc(page: nat, next: int, freeptr: Ptr, refcnt: nat, size: nat)

  /** Descriptors are named by their index, -1 is NULL; mem holds the pointers
      stored in chunks; pool are the free pages. */
  datatype World = World(chain: seq<int>, desc: seq<Desc>, freeDesc: int, mem: map<Ptr, Ptr>, pool: set<nat>)

  /** Proof data: the chains, the free descriptors, the bucket of every descriptor (-1:
      free), the free chunks of each. */
  datatype View = View(chains: seq<seq<nat>>, freeDescs: seq<nat>, place: seq<int>, offs: map<nat, seq<nat>>)

  ghost predicate NoDup(s: seq<nat>) { forall i, j :: 0 <= i < j < |s| ==> s[i] != s[j] }

  /** The descriptors s are linked in this order from head on. */
  ghost predicate Listed(desc: seq<Desc>, head: int, s: seq<nat>)
    decreases |s|
  {
    if s == [] then head == -1 else head == s[0] && s[0] < |desc| && Listed(desc, desc[s[0]].next, s[1..])
  }

  /** The free chunks of a page, threaded in this order from p on. */
  ghost predicate Threaded(mem: map<Ptr, Ptr>, page: nat, p: Ptr, offs: seq<nat>)
    decreases |offs|
  {
    if offs == [] then p == Nil
    else p == At(page, offs[0]) && p in mem && Threaded(mem, page, mem[p], offs[1..])
  }

  predicate IsChunk(b: nat, off: nat)
    requires b < NrBuckets
  {
    off < PageSize && off % Size(b) == 0
  }

  ghost predicate BucketOk(x: Desc, mem: map<Ptr, Ptr>, b: nat, offs: seq<nat>)
    requires b < NrBuckets
  {
    && x.size == Size(b) && x.page > 0 && Threaded(mem, x.page, x.freeptr, offs) && NoDup(offs)
    && (forall o :: o in offs ==> IsChunk(b, o)) && x.refcnt + |offs| == Chunks(b)
  }

  ghost predicate Lists(w: World, v: View) {
    && |w.chain| == NrBuckets == |v.chains| && |v.place| == |w.desc|
    && (forall b :: 0 <= b < NrBuckets ==> Listed(w.desc, w.chain[b], v.chains[b]) && NoDup(v.chains[b]))
    && Listed(w.desc, w.freeDesc, v.freeDescs) && NoDup(v.freeDescs)
    && (forall d :: 0 <= d < |w.desc| ==> -1 <= v.place[d] < NrBuckets)
    && (forall b, d :: 0 <= b < NrBuckets && 0 <= d < |w.desc| ==> (d in v.chains[b] <==> v.place[d] == b))
    && (forall d :: 0 <= d < |w.desc| ==> (d in v.freeDescs <==> v.place[d] == -1))
  }

  /** Every bucket in use is in order, on a page of its own; only `unused` may still have no chunk out. */
  ghost predicate InUse(w: World, v: View, unused: int) {
    && |v.place| == |w.desc|
    && (forall d :: 0 <= d < |w.desc| && 0 <= v.place[d] < NrBuckets ==>
          d in v.offs && BucketOk(w.desc[d], w.mem, v.place[d], v.offs[d]) && w.desc[d].page !in w.pool)
    && (forall d :: 0 <= d < |w.desc| && 0 <= v.place[d] < NrBuckets && d != unused ==> w.desc[d].refcnt > 0)
    && (forall d, e :: 0 <= d < e < |w.desc| && 0 <= v.place[d] < NrBuckets && 0 <= v.place[e] < NrBuckets ==>
          w.desc[d].page != w.desc[e].page)
    && 0 !in w.pool
  }

  ghost predicate Inv(w: World, v: View) { Lists(w, v) && InUse(w, v, -1) }

  /** The chunk at (page, off) has been handed out by descriptor d. */
  ghost predicate LiveIn(w: World, v: View, d: nat, page: nat, off: nat) {
    && d < |w.desc| && |v.place| == |w.desc| && 0 <= v.place[d] < NrBuckets && d in v.offs
    && w.desc[d].page == page && IsChunk(v.place[d], off) && off !in v.offs[d]
  }

  ghost predicate Live(w: World, v: View, page: nat, off: nat) { exists d: nat :: LiveIn(w, v, d, page, off) }

  /** Two different live chunks share no byte. */
  lemma LiveApart(w: World, v: View, d: nat, e: nat, page: nat, a: nat, b: nat)
    requires Inv(w, v) && LiveIn(w, v, d, page, a) && LiveIn(w, v, e, page, b) && a < b
    ensures d == e && a + w.desc[d].size <= b && b + w.desc[d].size <= PageSize
  {
    assert BucketOk(w.desc[d], w.mem, v.place[d], v.offs[d]);
    Multiples(a, b, Size(v.place[d]));
  }

  lemma Multiples(a: nat, b: nat, s: nat)
    requires s > 0 && a % s == 0 && b % s == 0 && a < b && PageSize % s == 0 && b < PageSize
    ensures a + s <= b && b + s <= PageSize
  {
    var x, y, z := a / s, b / s, PageSize / s;
    assert a == s * x && b == s * y && PageSize == s * z;
    if x >= y { TimesGrows(s, y, x); }
    if y >= z { TimesGrows(s, z, y); }
    TimesGrows(s, x + 1, y);
    TimesGrows(s, y + 1, z);
  }

  lemma TimesGrows(s: nat, a: nat, b: nat)
    requires a <= b
    ensures s * a <= s * b
  {
  }

  // ---------- frames ----------

  lemma {:induction false} ListedSame(desc: seq<Desc>, desc': seq<Desc>, head: int, s: seq<nat>)
    requires Listed(desc, head, s) && |desc'| >= |desc|
      && forall d :: d in s ==> d < |desc| && desc'[d].next == desc[d].next
    ensures Listed(desc', head, s)
    decreases |s|
  {
    if s != [] {
      assert s[0] in s;
      var t := s[1..];
      forall d | d in t ensures d in s { }
      assert Listed(desc, desc[s[0]].next, t);
      ListedSame(desc, desc', desc[s[0]].next, t);
    }
  }

  lemma {:induction false} ListedIn(desc: seq<Desc>, head: int, s: seq<nat>)
    requires Listed(desc, head, s)
    ensures forall d :: d in s ==> d < |desc|
    decreases |s|
  {
    if s != [] {
      assert s == [s[0]] + s[1..];
      ListedIn(desc, desc[s[0]].next, s[1..]);
    }
  }

  lemma {:induction false} ThreadedSame(mem: map<Ptr, Ptr>, mem': map<Ptr, Ptr>, page: nat, p: Ptr, offs: seq<nat>)
    requires Threaded(mem, page, p, offs)
    requires forall o :: o in offs && At(page, o) in mem ==>
      At(page, o) in mem' && mem'[At(page, o)] == mem[At(page, o)]
    ensures Threaded(mem', page, p, offs)
    decreases |offs|
  {
    if offs != [] { ThreadedSame(mem, mem', page, mem[p], offs[1..]); }
  }

  predicate NextAt(desc: seq<Desc>, s: seq<nat>, i: nat)
    requires i < |s|
  {
    s[i] < |desc| && desc[s[i]].next == (if i + 1 < |s| then s[i + 1] else -1)
  }

  lemma {:induction false} ListedNext(desc: seq<Desc>, head: int, s: seq<nat>, i: nat)
    requires Listed(desc, head, s) && i < |s|
    ensures NextAt(desc, s, i) && head == s[0]
    decreases |s|
  {
    if i > 0 { ListedNext(desc, desc[s[0]].next, s[1..], i - 1); }
  }

  /** A list from its links. */
  lemma {:induction false} ListedFrom(desc: seq<Desc>, head: int, s: seq<nat>)
    requires head == (if s == [] then -1 else s[0]) && forall i :: 0 <= i < |s| ==> NextAt(desc, s, i)
    ensures Listed(desc, head, s)
    decreases |s|
  {
    if s != [] {
      assert NextAt(desc, s, 0);
      forall i | 0 <= i < |s[1..]| ensures NextAt(desc, s[1..], i) { assert NextAt(desc, s, i + 1); }
      ListedFrom(desc, desc[s[0]].next, s[1..]);
    }
  }

  // ---------- a chunk is taken ----------

  function Taken(w: World, d: nat): World
    requires d < |w.desc| && w.desc[d].freeptr in w.mem
  {
    w.(desc := w.desc[d := w.desc[d].(freeptr := w.mem[w.desc[d].freeptr], refcnt := w.desc[d].refcnt + 1)])
  }

  lemma TakeKeeps(w: World, v: View, d: nat, unused: int)
    requires Lists(w, v) && InUse(w, v, unused) && d < |w.desc| && 0 <= v.place[d] < NrBuckets
      && w.desc[d].freeptr != Nil
    requires unused == -1 || unused == d
    ensures d in v.offs && v.offs[d] != [] && w.desc[d].freeptr == At(w.desc[d].page, v.offs[d][0])
      && w.desc[d].freeptr in w.mem
    ensures Inv(Taken(w, d), v.(offs := v.offs[d := v.offs[d][1..]]))
    ensures v.offs[d][0] !in v.offs[d][1..] && IsChunk(v.place[d], v.offs[d][0])
  {
    hide Lists;
    assert BucketOk(w.desc[d], w.mem, v.place[d], v.offs[d]);
    var w', v' := Taken(w, d), v.(offs := v.offs[d := v.offs[d][1..]]);
    forall o | o in v.offs[d][1..] ensures o in v.offs[d] { }
    assert v.offs[d][0] in v.offs[d];
    ListsSame(w, w', v, v');
    forall e | 0 <= e < |w.desc| && 0 <= v.place[e] < NrBuckets && e != d
      ensures BucketOk(w'.desc[e], w'.mem, v.place[e], v'.offs[e])
    {
      assert BucketOk(w.desc[e], w.mem, v.place[e], v.offs[e]);
    }
  }

  /** Next pointers and places did not change. */
  lemma ListsSame(w: World, w': World, v: View, v': View)
    requires Lists(w, v) && w'.chain == w.chain && w'.freeDesc == w.freeDesc && |w'.desc| == |w.desc|
    requires forall d :: 0 <= d < |w.desc| ==> w'.desc[d].next == w.desc[d].next
    requires v' == v.(offs := v'.offs)
    ensures Lists(w', v')
  {
    forall b | 0 <= b < NrBuckets ensures Listed(w'.desc, w'.chain[b], v.chains[b]) {
      ListedIn(w.desc, w.chain[b], v.chains[b]);
      ListedSame(w.desc, w'.desc, w.chain[b], v.chains[b]);
    }
    ListedIn(w.desc, w.freeDesc, v.freeDescs);
    ListedSame(w.desc, w'.desc, w.freeDesc, v.freeDescs);
  }

  // ---------- a chunk comes back ----------

  function Given(w: World, d: nat, off: nat): World
    requires d < |w.desc| && w.desc[d].refcnt > 0
  {
    var p := At(w.desc[d].page, off);
    w.(mem := w.mem[p := w.desc[d].freeptr],
      desc := w.desc[d := w.desc[d].(freeptr := p, refcnt := w.desc[d].refcnt - 1)])
  }

  lemma GiveKeeps(w: World, v: View, d: nat, off: nat)
    requires Inv(w, v) && d < |w.desc| && LiveIn(w, v, d, w.desc[d].page, off)
    ensures w.desc[d].refcnt > 0
    ensures Lists(Given(w, d, off), v.(offs := v.offs[d := [off] + v.offs[d]]))
    ensures InUse(Given(w, d, off), v.(offs := v.offs[d := [off] + v.offs[d]]), d)
  {
    hide Lists;
    assert BucketOk(w.desc[d], w.mem, v.place[d], v.offs[d]);
    var w', v' := Given(w, d, off), v.(offs := v.offs[d := [off] + v.offs[d]]);
    ListsSame(w, w', v, v');
    forall e | 0 <= e < |w.desc| && 0 <= v.place[e] < NrBuckets
      ensures BucketOk(w'.desc[e], w'.mem, v.place[e], v'.offs[e])
    {
      assert BucketOk(w.desc[e], w.mem, v.place[e], v.offs[e]);
      ThreadedSame(w.mem, w'.mem, w.desc[e].page, w.desc[e].freeptr, v.offs[e]);
      if e == d { GivenThreaded(w.mem, w.desc[d], off, v.offs[d]); }
    }
  }

  lemma GivenThreaded(mem: map<Ptr, Ptr>, x: Desc, off: nat, offs: seq<nat>)
    requires Threaded(mem, x.page, x.freeptr, offs) && off !in offs && NoDup(offs)
    ensures Threaded(mem[At(x.page, off) := x.freeptr], x.page, At(x.page, off), [off] + offs) && NoDup([off] + offs)
  {
    ThreadedSame(mem, mem[At(x.page, off) := x.freeptr], x.page, x.freeptr, offs);
    assert ([off] + offs)[1..] == offs;
  }

  // ---------- more descriptors ----------

  /** The descriptors of a new page, linked before the free ones. */
  function NewDescs(w: World): seq<Desc> {
    seq(DescsPerPage, i => Desc(0, if i + 1 < DescsPerPage then |w.desc| + i + 1 else w.freeDesc, Nil, 0, 0))
  }

  function Extended(w: World, page: nat): World {
    w.(desc := w.desc + NewDescs(w), freeDesc := |w.desc|, pool := w.pool - {page})
  }

  function ExtendedView(w: World, v: View): View {
    v.(freeDescs := seq(DescsPerPage, i requires 0 <= i => |w.desc| + i) + v.freeDescs,
      place := v.place + seq(DescsPerPage, _ => -1))
  }

  lemma ExtendKeeps(w: World, v: View, page: nat)
    requires Inv(w, v)
    ensures Inv(Extended(w, page), ExtendedView(w, v))
  {
    ExtendLists(w, v, page);
    hide BucketOk, Lists;
  }

  lemma ExtendLists(w: World, v: View, page: nat)
    requires Lists(w, v)
    ensures Lists(Extended(w, page), ExtendedView(w, v))
  {
    var w', v' := Extended(w, page), ExtendedView(w, v);
    ListedIn(w.desc, w.freeDesc, v.freeDescs);
    forall b | 0 <= b < NrBuckets
      ensures Listed(w'.desc, w'.chain[b], v'.chains[b]) && (forall d :: d in v.chains[b] ==> d < |w.desc|)
    {
      ListedIn(w.desc, w.chain[b], v.chains[b]);
      ListedSame(w.desc, w'.desc, w.chain[b], v.chains[b]);
    }
    ExtendedFree(w, v);
    ExtendedPlaces(w, v);
  }

  lemma ExtendedFree(w: World, v: View)
    requires Lists(w, v)
    ensures Listed(w.desc + NewDescs(w), |w.desc|, ExtendedView(w, v).freeDescs) && NoDup(ExtendedView(w, v).freeDescs)
  {
    var s, desc' := ExtendedView(w, v).freeDescs, w.desc + NewDescs(w);
    ListedIn(w.desc, w.freeDesc, v.freeDescs);
    forall i | 0 <= i < |s| ensures NextAt(desc', s, i) {
      if i >= DescsPerPage { ListedNext(w.desc, w.freeDesc, v.freeDescs, i - DescsPerPage); }
      if i == DescsPerPage - 1 && v.freeDescs != [] { ListedNext(w.desc, w.freeDesc, v.freeDescs, 0); }
    }
    ListedFrom(desc', |w.desc|, s);
    forall i, j | 0 <= i < j < |s| ensures s[i] != s[j] {
      if i < DescsPerPage <= j { assert s[j] in v.freeDescs; }
      if i >= DescsPerPage { assert v.freeDescs[i - DescsPerPage] != v.freeDescs[j - DescsPerPage]; }
    }
  }

  lemma ExtendedPlaces(w: World, v: View)
    requires Lists(w, v)
    ensures forall d :: 0 <= d < |w.desc| + DescsPerPage ==>
      (d in ExtendedView(w, v).freeDescs <==> ExtendedView(w, v).place[d] == -1)
  {
    var s, n := seq(DescsPerPage, i requires 0 <= i => |w.desc| + i), |w.desc|;
    ListedIn(w.desc, w.freeDesc, v.freeDescs);
    forall d | 0 <= d < n + DescsPerPage
      ensures d in s + v.freeDescs <==> (v.place + seq(DescsPerPage, _ => -1))[d] == -1
    {
      if d >= n { assert s[d - n] == d; }
    }
  }

  // ---------- a new bucket ----------

  /** The first k chunks of a page threaded. */
  function Threads(mem: map<Ptr, Ptr>, page: nat, size: nat, k: nat): map<Ptr, Ptr> {
    if k == 0 then mem else Threads(mem, page, size, k - 1)[At(page, (k - 1) * size) := At(page, k * size)]
  }

  function AllOffs(b: nat): seq<nat>
    requires b < NrBuckets
  {
    seq(Chunks(b), k requires 0 <= k => k * Size(b))
  }

  /** The memory after the loop of malloc. */
  function PageThreaded(mem: map<Ptr, Ptr>, page: nat, b: nat): map<Ptr, Ptr>
    requires b < NrBuckets
  {
    Threads(mem, page, Size(b), Chunks(b) - 1)[At(page, (Chunks(b) - 1) * Size(b)) := Nil]
  }

  lemma {:induction false} ThreadsAt(mem: map<Ptr, Ptr>, page: nat, size: nat, k: nat, j: nat)
    requires size > 0
    ensures j < k ==>
      At(page, j * size) in Threads(mem, page, size, k)
      && Threads(mem, page, size, k)[At(page, j * size)] == At(page, (j + 1) * size)
    ensures forall p :: p in mem && (p == Nil || p.page != page) ==>
      p in Threads(mem, page, size, k) && Threads(mem, page, size, k)[p] == mem[p]
  {
    if k > 0 {
      ThreadsAt(mem, page, size, k - 1, j);
      if j < k - 1 { TimesDiffer(size, j, k - 1); }
    }
  }

  lemma TimesDiffer(s: nat, a: nat, b: nat)
    requires a < b && s > 0
    ensures s * a < s * b && a * s < b * s
  {
    TimesGrows(s, a + 1, b);
    assert s * (a + 1) == s * a + s && a * s == s * a && b * s == s * b;
  }

  lemma {:induction false} ThreadedFrom(mem: map<Ptr, Ptr>, page: nat, offs: seq<nat>, i: nat)
    requires i < |offs| && forall k :: i <= k < |offs| ==> WordAt(mem, page, offs, k)
    ensures Threaded(mem, page, At(page, offs[i]), offs[i..])
    decreases |offs| - i
  {
    assert WordAt(mem, page, offs, i);
    assert offs[i..][1..] == offs[i + 1..];
    if i + 1 < |offs| { ThreadedFrom(mem, page, offs, i + 1); }
  }

  predicate WordAt(mem: map<Ptr, Ptr>, page: nat, offs: seq<nat>, k: nat)
    requires k < |offs|
  {
    At(page, offs[k]) in mem && mem[At(page, offs[k])] == if k + 1 < |offs| then At(page, offs[k + 1]) else Nil
  }

  lemma ChunkCount(b: nat)
    requires b < NrBuckets
    ensures 0 < Chunks(b) && Chunks(b) * Size(b) == PageSize
  {
  }

  lemma PageIsThreaded(mem: map<Ptr, Ptr>, page: nat, b: nat)
    requires b < NrBuckets
    ensures Threaded(PageThreaded(mem, page, b), page, At(page, 0), AllOffs(b)) && NoDup(AllOffs(b))
      && |AllOffs(b)| == Chunks(b)
    ensures forall o :: o in AllOffs(b) ==> IsChunk(b, o)
    ensures forall p :: p in mem && (p == Nil || p.page != page) ==>
      p in PageThreaded(mem, page, b) && PageThreaded(mem, page, b)[p] == mem[p]
  {
    hide Size, Chunks;
    ChunkCount(b);
    var n, size, offs, mem' := Chunks(b), Size(b), AllOffs(b), PageThreaded(mem, page, b);
    forall k | 0 <= k < n ensures WordAt(mem', page, offs, k) {
      ThreadsAt(mem, page, size, n - 1, k);
      if k < n - 1 { TimesDiffer(size, k, n - 1); }
    }
    ThreadsAt(mem, page, size, n - 1, n);
    ThreadedFrom(mem', page, offs, 0);
    assert offs[0..] == offs && offs[0] == 0;
    forall i, j | 0 <= i < j < n ensures offs[i] != offs[j] { TimesDiffer(size, i, j); }
    forall k | 0 <= k < n ensures IsChunk(b, offs[k]) { ChunkAt(b, k); }
  }

  lemma ChunkAt(b: nat, k: nat)
    requires b < NrBuckets && k < Chunks(b)
    ensures IsChunk(b, k * Size(b))
  {
    if b == 0 { assert k * 16 % 16 == 0; }
    if b == 1 { assert k * 32 % 32 == 0; }
    if b == 2 { assert k * 64 % 64 == 0; }
    if b == 3 { assert k * 128 % 128 == 0; }
    if b == 4 { assert k * 256 % 256 == 0; }
    if b == 5 { assert k * 512 % 512 == 0; }
    if b == 6 { assert k * 1024 % 1024 == 0; }
    if b == 7 { assert k * 2048 % 2048 == 0; }
    if b == 8 { assert k * 4096 % 4096 == 0; }
  }

  /** A free descriptor becomes the first of chain b, with all chunks of a new page. */
  function Opened(w: World, b: nat, page: nat): World
    requires b < NrBuckets && b < |w.chain| && 0 <= w.freeDesc < |w.desc|
  {
    var d: nat := w.freeDesc;
    World(w.chain[b := d], w.desc[d := Desc(page, w.chain[b], At(page, 0), 0, Size(b))], w.desc[d].next,
          PageThreaded(w.mem, page, b), w.pool - {page})
  }

  function OpenedView(v: View, b: nat, d: nat): View
    requires b < NrBuckets && b < |v.chains| && d < |v.place| && v.freeDescs != []
  {
    View(v.chains[b := [d] + v.chains[b]], v.freeDescs[1..], v.place[d := b], v.offs[d := AllOffs(b)])
  }

  lemma FreeHead(w: World, v: View)
    requires Lists(w, v) && w.freeDesc != -1
    ensures v.freeDescs != [] && w.freeDesc == v.freeDescs[0] < |w.desc| && v.place[v.freeDescs[0]] == -1
    ensures Listed(w.desc, w.desc[v.freeDescs[0]].next, v.freeDescs[1..]) && NoDup(v.freeDescs[1..])
      && v.freeDescs[0] !in v.freeDescs[1..]
  {
    var t := v.freeDescs[1..];
    assert v.freeDescs[0] in v.freeDescs;
    forall i, j | 0 <= i < j < |t| ensures t[i] != t[j] { assert v.freeDescs[i + 1] != v.freeDescs[j + 1]; }
  }

  lemma OpenKeeps(w: World, v: View, b: nat, page: nat)
    requires Inv(w, v) && b < NrBuckets && w.freeDesc != -1 && page in w.pool
    ensures 0 <= w.freeDesc < |w.desc| && w.freeDesc < |v.place| && b < |w.chain| && b < |v.chains| && v.freeDescs != []
    ensures Lists(Opened(w, b, page), OpenedView(v, b, w.freeDesc))
      && InUse(Opened(w, b, page), OpenedView(v, b, w.freeDesc), w.freeDesc)
  {
    FreeHead(w, v);
    OpenLists(w, v, b, page);
    OpenInUse(w, v, b, page);
  }

  lemma OpenLists(w: World, v: View, b: nat, page: nat)
    requires Lists(w, v) && b < NrBuckets && w.freeDesc != -1
    ensures 0 <= w.freeDesc < |w.desc| && v.freeDescs != []
    ensures Lists(Opened(w, b, page), OpenedView(v, b, w.freeDesc))
  {
    hide PageThreaded, Size, AllOffs;
    FreeHead(w, v);
    var d: nat := w.freeDesc;
    var w', v' := Opened(w, b, page), OpenedView(v, b, d);
    forall c | 0 <= c < NrBuckets ensures d !in v.chains[c] && Listed(w'.desc, w.chain[c], v.chains[c]) {
      ListedBeside(w.desc, w'.desc, w.chain[c], v.chains[c], d);
    }
    var t := v.freeDescs[1..];
    ListedBeside(w.desc, w'.desc, w.desc[d].next, t, d);
    hide Listed;
    assert v'.chains[b][1..] == v.chains[b];
    forall e | 0 <= e < |w.desc| ensures e in t <==> v'.place[e] == -1 { assert v.freeDescs == [d] + t; }
  }

  lemma ListedBeside(desc: seq<Desc>, desc': seq<Desc>, head: int, s: seq<nat>, d: nat)
    requires Listed(desc, head, s) && d !in s && |desc'| == |desc|
      && forall e :: 0 <= e < |desc| && e != d ==> desc'[e] == desc[e]
    ensures Listed(desc', head, s)
  {
    ListedIn(desc, head, s);
    ListedSame(desc, desc', head, s);
  }

  lemma OpenInUse(w: World, v: View, b: nat, page: nat)
    requires InUse(w, v, -1) && b < NrBuckets && b < |w.chain| && b < |v.chains| && page in w.pool
      && 0 <= w.freeDesc < |w.desc| && v.freeDescs != []
    requires v.place[w.freeDesc] == -1
    ensures InUse(Opened(w, b, page), OpenedView(v, b, w.freeDesc), w.freeDesc)
  {
    hide Size, PageThreaded, AllOffs, Threaded, NoDup, IsChunk;
    var d: nat := w.freeDesc;
    var w', v' := Opened(w, b, page), OpenedView(v, b, d);
    PageIsThreaded(w.mem, page, b);
    forall e | 0 <= e < |w.desc| && 0 <= v.place[e] < NrBuckets
      ensures BucketOk(w'.desc[e], w'.mem, v'.place[e], v'.offs[e])
    {
      assert BucketOk(w.desc[e], w.mem, v.place[e], v.offs[e]) && w.desc[e].page !in w.pool;
      ThreadedSame(w.mem, w'.mem, w.desc[e].page, w.desc[e].freeptr, v.offs[e]);
    }
    assert page > 0;
  }

  // ---------- an empty bucket is given back ----------

  /** s without its i-th element. */
  function Cut(s: seq<nat>, i: nat): seq<nat>
    requires i < |s|
  {
    s[..i] + s[i + 1..]
  }

  /** The i-th descriptor of chain b is unlinked and put before the free ones; its page goes back. */
  function Closed(w: World, v: View, b: nat, i: nat): World
    requires b < NrBuckets && b < |w.chain| && b < |v.chains| && i < |v.chains[b]| && v.chains[b][i] < |w.desc|
    requires i > 0 ==> v.chains[b][i - 1] < |w.desc|
  {
    var d, s := v.chains[b][i], v.chains[b];
    var desc := if i > 0 then w.desc[s[i - 1] := w.desc[s[i - 1]].(next := w.desc[d].next)] else w.desc;
    World(if i > 0 then w.chain
      else w.chain[b := w.desc[d].next], desc[d := desc[d].(next := w.freeDesc)], d, w.mem, w.pool + {w.desc[d].page})
  }

  function ClosedView(v: View, b: nat, i: nat): View
    requires b < NrBuckets && b < |v.chains| && i < |v.chains[b]| && v.chains[b][i] < |v.place|
  {
    v.(chains := v.chains[b := Cut(v.chains[b], i)], freeDescs := [v.chains[b][i]] + v.freeDescs,
      place := v.place[v.chains[b][i] := -1])
  }

  lemma CutFacts(s: seq<nat>, i: nat)
    requires NoDup(s) && i < |s|
    ensures NoDup(Cut(s, i)) && forall d :: d in Cut(s, i) <==> d in s && d != s[i]
    ensures |Cut(s, i)| == |s| - 1 && forall k :: 0 <= k < |s| - 1 ==> Cut(s, i)[k] == if k < i then s[k] else s[k + 1]
  {
    forall d ensures d in Cut(s, i) <==> d in s && d != s[i] {
      if d in s {
        var k :| 0 <= k < |s| && s[k] == d;
        if k != i { assert Cut(s, i)[if k < i then k else k - 1] == d; }
      }
    }
  }

  lemma CloseChain(w: World, v: View, b: nat, i: nat)
    requires Lists(w, v) && b < NrBuckets && i < |v.chains[b]|
    ensures v.chains[b][i] < |w.desc| && (i > 0 ==> v.chains[b][i - 1] < |w.desc|)
    ensures Listed(Closed(w, v, b, i).desc, Closed(w, v, b, i).chain[b], Cut(v.chains[b], i))
  {
    var s := v.chains[b];
    ListedNext(w.desc, w.chain[b], s, i);
    if i > 0 { ListedNext(w.desc, w.chain[b], s, i - 1); }
    CutFacts(s, i);
    var t, desc' := Cut(s, i), Closed(w, v, b, i).desc;
    forall k | 0 <= k < |t| ensures NextAt(desc', t, k) {
      ListedNext(w.desc, w.chain[b], s, if k < i then k else k + 1);
      assert s[if k < i then k else k + 1] != s[i];
      if i > 0 && k != i - 1 { assert s[if k < i then k else k + 1] != s[i - 1]; }
    }
    ListedFrom(desc', Closed(w, v, b, i).chain[b], t);
  }

  lemma CloseKeeps(w: World, v: View, b: nat, i: nat)
    requires Lists(w, v) && b < NrBuckets && i < |v.chains[b]| && v.chains[b][i] < |w.desc|
      && (i > 0 ==> v.chains[b][i - 1] < |w.desc|)
    requires InUse(w, v, v.chains[b][i])
    ensures Inv(Closed(w, v, b, i), ClosedView(v, b, i))
  {
    hide Lists, InUse;
    CloseLists(w, v, b, i);
    ClosedInUse(w, v, b, i);
  }

  lemma CloseLists(w: World, v: View, b: nat, i: nat)
    requires Lists(w, v) && b < NrBuckets && i < |v.chains[b]| && v.chains[b][i] < |w.desc|
      && (i > 0 ==> v.chains[b][i - 1] < |w.desc|)
    ensures Lists(Closed(w, v, b, i), ClosedView(v, b, i))
  {
    hide Cut, NoDup, Listed;
    var s := v.chains[b];
    var d := s[i];
    var w', v' := Closed(w, v, b, i), ClosedView(v, b, i);
    CloseChain(w, v, b, i);
    NoDupOf(w, v, b);
    CutFacts(s, i);
    CloseOthers(w, v, b, i);
    assert v'.freeDescs[1..] == v.freeDescs;
    ClosedSizes(w, v, b, i);
    ClosedPlaces(w, v, b, i);
  }

  lemma ClosedPlaces(w: World, v: View, b: nat, i: nat)
    requires Lists(w, v) && b < NrBuckets && i < |v.chains[b]| && v.chains[b][i] < |w.desc|
    ensures forall c, e :: 0 <= c < NrBuckets && 0 <= e < |w.desc| ==>
      (e in ClosedView(v, b, i).chains[c] <==> ClosedView(v, b, i).place[e] == c)
    ensures forall e :: 0 <= e < |w.desc| ==>
      (e in ClosedView(v, b, i).freeDescs <==> ClosedView(v, b, i).place[e] == -1)
  {
    hide Cut, Listed, NoDup;
    NoDupOf(w, v, b);
    CutFacts(v.chains[b], i);
    assert v.chains[b][i] in v.chains[b];
    var v' := ClosedView(v, b, i);
    forall c, e | 0 <= c < NrBuckets && 0 <= e < |w.desc| ensures e in v'.chains[c] <==> v'.place[e] == c {
      assert e in v.chains[c] <==> v.place[e] == c;
    }
  }

  lemma NoDupOf(w: World, v: View, b: nat)
    requires Lists(w, v) && b < NrBuckets
    ensures NoDup(v.chains[b])
  {
  }

  lemma ClosedSizes(w: World, v: View, b: nat, i: nat)
    requires |w.chain| == NrBuckets && b < NrBuckets && b < |v.chains| && i < |v.chains[b]|
      && v.chains[b][i] < |w.desc| && (i > 0 ==> v.chains[b][i - 1] < |w.desc|)
    ensures |Closed(w, v, b, i).chain| == NrBuckets && |Closed(w, v, b, i).desc| == |w.desc|
    ensures Closed(w, v, b, i).freeDesc == v.chains[b][i]
  {
  }

  lemma CloseOthers(w: World, v: View, b: nat, i: nat)
    requires Lists(w, v) && b < NrBuckets && i < |v.chains[b]| && v.chains[b][i] < |w.desc|
      && (i > 0 ==> v.chains[b][i - 1] < |w.desc|)
    ensures forall c :: 0 <= c < NrBuckets && c != b ==>
      Listed(Closed(w, v, b, i).desc, Closed(w, v, b, i).chain[c], v.chains[c])
    ensures Listed(Closed(w, v, b, i).desc, v.chains[b][i], [v.chains[b][i]] + v.freeDescs)
      && NoDup([v.chains[b][i]] + v.freeDescs)
  {
    var s, w' := v.chains[b], Closed(w, v, b, i);
    var d := s[i];
    assert d in s;
    if i > 0 { assert s[i - 1] in s; }
    assert v.place[d] == b && (i > 0 ==> v.place[s[i - 1]] == b);
    forall c | 0 <= c < NrBuckets && c != b ensures Listed(w'.desc, w'.chain[c], v.chains[c]) {
      assert d !in v.chains[c] && (i > 0 ==> s[i - 1] !in v.chains[c]);
      ListedIn(w.desc, w.chain[c], v.chains[c]);
      ListedSame(w.desc, w'.desc, w.chain[c], v.chains[c]);
    }
    assert d !in v.freeDescs && (i > 0 ==> s[i - 1] !in v.freeDescs);
    ListedIn(w.desc, w.freeDesc, v.freeDescs);
    ListedSame(w.desc, w'.desc, w.freeDesc, v.freeDescs);
    assert ([d] + v.freeDescs)[1..] == v.freeDescs;
  }

  lemma ClosedInUse(w: World, v: View, b: nat, i: nat)
    requires Lists(w, v) && b < NrBuckets && i < |v.chains[b]| && v.chains[b][i] < |w.desc|
      && (i > 0 ==> v.chains[b][i - 1] < |w.desc|)
    requires InUse(w, v, v.chains[b][i])
    ensures InUse(Closed(w, v, b, i), ClosedView(v, b, i), -1)
  {
    hide Listed, NoDup, Threaded, IsChunk, Size, Chunks, Cut;
    var d := v.chains[b][i];
    assert d in v.chains[b];
    assert v.place[d] == b && BucketOk(w.desc[d], w.mem, b, v.offs[d]);
    if i > 0 { assert v.chains[b][i - 1] in v.chains[b]; }
    var w', v' := Closed(w, v, b, i), ClosedView(v, b, i);
    forall e | 0 <= e < |w.desc| && 0 <= v'.place[e] < NrBuckets
      ensures BucketOk(w'.desc[e], w'.mem, v'.place[e], v'.offs[e]) && w'.desc[e].page !in w'.pool
    {
      assert e != d && BucketOk(w.desc[e], w.mem, v.place[e], v.offs[e]);
    }
  }

  // ---------- which chunks are live ----------

  /** A list of all its chunks leaves none of a page out. */
  lemma AllFree(b: nat, offs: seq<nat>, off: nat)
    requires b < NrBuckets && NoDup(offs) && |offs| == Chunks(b) && (forall o :: o in offs ==> IsChunk(b, o))
      && IsChunk(b, off)
    ensures off in offs
  {
    hide Size, Chunks;
    ChunkCount(b);
    var size, n := Size(b), Chunks(b);
    var s := seq(n, i requires 0 <= i < |offs| => offs[i] / size + 1);
    forall i | 0 <= i < n ensures 1 <= s[i] <= n && offs[i] == size * (s[i] - 1) {
      assert offs[i] in offs;
      Quotient(offs[i], size, n);
    }
    forall i, j | 0 <= i < j < n ensures s[i] != s[j] {
      assert offs[i] != offs[j] && offs[i] == size * (s[i] - 1) && offs[j] == size * (s[j] - 1);
    }
    Quotient(off, size, n);
    Counting.Filled(s, n, off / size + 1);
    var i :| 0 <= i < n && s[i] == off / size + 1;
    assert offs[i] == off;
  }

  lemma Quotient(o: nat, size: nat, n: nat)
    requires size > 0 && o % size == 0 && n * size == PageSize && o < PageSize
    ensures 0 <= o / size < n && o == size * (o / size)
  {
    var q := o / size;
    assert o == size * q + o % size;
    if q >= n { TimesGrows(size, n, q); }
  }

  /** Descriptor d has handed out the chunk in both states or in none, and it is of the same size. */
  ghost predicate LiveSame(w: World, v: View, w': World, v': View, d: nat, page: nat, off: nat) {
    && (LiveIn(w', v', d, page, off) <==> LiveIn(w, v, d, page, off))
    && (LiveIn(w, v, d, page, off) ==> v'.place[d] == v.place[d])
  }

  /** The live chunks after a step: those before, but for one. */
  ghost predicate LiveBut(w: World, v: View, w': World, v': View, page: nat, off: nat) {
    forall d: nat, p, o :: !(p == page && o == off) ==> LiveSame(w, v, w', v', d, p, o)
  }

  /** A live chunk belongs to the one descriptor of its page. */
  lemma OwnPage(w: World, v: View, unused: int, d: nat, e: nat, off: nat)
    requires InUse(w, v, unused) && d < |w.desc| && 0 <= v.place[d] < NrBuckets && LiveIn(w, v, e, w.desc[d].page, off)
    ensures e == d
  {
    hide BucketOk, IsChunk;
  }

  /** Descriptor d's list of free chunks changed by one; nothing else did. */
  lemma LiveMoves(w: World, v: View, w': World, v': View, d: nat, off: nat)
    requires |w'.desc| == |w.desc| && d < |w.desc| && |v.place| == |w.desc| && v'.place == v.place && d in v.offs
      && d in v'.offs
    requires forall e :: 0 <= e < |w.desc| ==> w'.desc[e].page == w.desc[e].page
    requires forall e: nat :: e != d ==> (e in v'.offs <==> e in v.offs) && (e in v.offs ==> v'.offs[e] == v.offs[e])
    requires forall o :: o != off ==> (o in v'.offs[d] <==> o in v.offs[d])
    ensures LiveBut(w, v, w', v', w.desc[d].page, off)
  {
    hide IsChunk;
  }

  /** malloc hands out a chunk that was not live. */
  lemma TakenLive(w: World, v: View, d: nat, unused: int)
    requires Lists(w, v) && InUse(w, v, unused) && d < |w.desc| && 0 <= v.place[d] < NrBuckets
      && w.desc[d].freeptr != Nil
    requires d in v.offs && v.offs[d] != [] && w.desc[d].freeptr in w.mem && v.offs[d][0] !in v.offs[d][1..]
      && IsChunk(v.place[d], v.offs[d][0])
    ensures LiveBut(w, v, Taken(w, d), v.(offs := v.offs[d := v.offs[d][1..]]), w.desc[d].page, v.offs[d][0])
    ensures LiveIn(Taken(w, d), v.(offs := v.offs[d := v.offs[d][1..]]), d, w.desc[d].page, v.offs[d][0])
    ensures !Live(w, v, w.desc[d].page, v.offs[d][0])
  {
    hide Lists, IsChunk;
    var off := v.offs[d][0];
    assert v.offs[d] == [off] + v.offs[d][1..];
    LiveMoves(w, v, Taken(w, d), v.(offs := v.offs[d := v.offs[d][1..]]), d, off);
    forall e: nat ensures !LiveIn(w, v, e, w.desc[d].page, off) {
      if LiveIn(w, v, e, w.desc[d].page, off) { OwnPage(w, v, unused, d, e, off); }
    }
  }

  lemma GivenLive(w: World, v: View, d: nat, off: nat)
    requires Inv(w, v) && d < |w.desc| && LiveIn(w, v, d, w.desc[d].page, off) && w.desc[d].refcnt > 0
    ensures LiveBut(w, v, Given(w, d, off), v.(offs := v.offs[d := [off] + v.offs[d]]), w.desc[d].page, off)
    ensures !Live(Given(w, d, off), v.(offs := v.offs[d := [off] + v.offs[d]]), w.desc[d].page, off)
  {
    hide Lists;
    var w', v' := Given(w, d, off), v.(offs := v.offs[d := [off] + v.offs[d]]);
    GiveKeeps(w, v, d, off);
    LiveMoves(w, v, w', v', d, off);
    hide IsChunk, BucketOk;
    forall e: nat ensures !LiveIn(w', v', e, w.desc[d].page, off) {
      if LiveIn(w', v', e, w.desc[d].page, off) { OwnPage(w', v', d, d, e, off); }
    }
  }

  /** A bucket with a count of 0 has nothing live. */
  lemma ClosedLive(w: World, v: View, b: nat, i: nat, e: nat, p: nat, o: nat)
    requires Lists(w, v) && b < NrBuckets && i < |v.chains[b]| && v.chains[b][i] < |w.desc|
      && (i > 0 ==> v.chains[b][i - 1] < |w.desc|)
    requires InUse(w, v, v.chains[b][i]) && w.desc[v.chains[b][i]].refcnt == 0
    ensures LiveSame(w, v, Closed(w, v, b, i), ClosedView(v, b, i), e, p, o)
  {
    hide Listed, NoDup, Threaded, Size, Chunks, Cut;
    var d := v.chains[b][i];
    assert d in v.chains[b] && v.place[d] == b;
    assert BucketOk(w.desc[d], w.mem, b, v.offs[d]);
    hide IsChunk;
    if e == d && IsChunk(b, o) { AllFree(b, v.offs[d], o); }
  }

  lemma ExtendedLive(w: World, v: View, page: nat, e: nat, p: nat, o: nat)
    requires Inv(w, v)
    ensures LiveSame(w, v, Extended(w, page), ExtendedView(w, v), e, p, o)
  {
    hide BucketOk, IsChunk;
  }

  lemma OpenedLive(w: World, v: View, b: nat, page: nat, e: nat, p: nat, o: nat)
    requires Inv(w, v) && b < NrBuckets && w.freeDesc != -1 && page in w.pool
    requires 0 <= w.freeDesc < |w.desc| && w.freeDesc < |v.place| && b < |w.chain| && b < |v.chains|
      && v.freeDescs != []
    ensures LiveSame(w, v, Opened(w, b, page), OpenedView(v, b, w.freeDesc), e, p, o)
  {
    hide BucketOk, PageThreaded, AllOffs, Size, IsChunk;
    FreeHead(w, v);
    PageIsThreaded(w.mem, page, b);
    if e == w.freeDesc && IsChunk(b, o) { AllFree(b, AllOffs(b), o); }
  }

  // ---------- what others do meanwhile ----------

  /** Address a of page p is inside the chunk at o that descriptor d has handed out. */
  ghost predicate Inside(w: World, v: View, d: nat, p: nat, o: nat, a: nat) {
    LiveIn(w, v, d, p, o) && o <= a < o + Size(v.place[d])
  }

  /** The holder of a chunk may write anything anywhere in it. */
  lemma StoreKeeps(w: World, v: View, d: nat, p: nat, o: nat, a: nat, x: Ptr)
    requires Inv(w, v) && Inside(w, v, d, p, o, a)
    ensures Inv(w.(mem := w.mem[At(p, a) := x]), v)
  {
    hide Size, Chunks, Threaded;
    var w' := w.(mem := w.mem[At(p, a) := x]);
    forall e | 0 <= e < |w.desc| && 0 <= v.place[e] < NrBuckets
      ensures BucketOk(w'.desc[e], w'.mem, v.place[e], v.offs[e])
    {
      assert BucketOk(w.desc[e], w.mem, v.place[e], v.offs[e]);
      if e == d {
        forall f | f in v.offs[d] ensures f != a { Beside(f, o, a, Size(v.place[d])); }
      }
      ThreadedSame(w.mem, w'.mem, w.desc[e].page, w.desc[e].freeptr, v.offs[e]);
    }
    hide BucketOk;
    ListsSame(w, w', v, v);
  }

  /** The start of one chunk is not inside another one. */
  lemma Beside(f: nat, o: nat, a: nat, s: nat)
    requires s > 0 && f % s == 0 && o % s == 0 && f != o && PageSize % s == 0 && f < PageSize && o < PageSize
    requires o <= a < o + s
    ensures f != a
  {
    if f < o { Multiples(f, o, s); } else { Multiples(o, f, s); }
  }

  /** Other code takes free pages and gives back pages, but not page 0 and no page of a bucket. */
  ghost predicate MayBeFree(w: World, v: View, pool: set<nat>) {
    && 0 !in pool && |v.place| == |w.desc|
    && forall d :: 0 <= d < |w.desc| && 0 <= v.place[d] < NrBuckets ==> w.desc[d].page !in pool
  }

  lemma PoolKeeps(w: World, v: View, pool: set<nat>)
    requires Inv(w, v) && MayBeFree(w, v, pool)
    ensures Inv(w.(pool := pool), v)
  {
    hide BucketOk;
  }
}
