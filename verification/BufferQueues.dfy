/** The hash chains and the free ring of the buffer cache (VLinux0.11/fs/buffer.c): buffer heads are
    named by their index from start_buffer, -1 is NULL. */
module BufferQueues {
  type Data = seq<int>

  datatype Head = Head(dev: bv32, blocknr: bv32, uptodate: bool, dirt: bool, count: nat, lock: bool,
                       prev: int, next: int, prevFree: int, nextFree: int, data: Data)

  const NrHash := 307

  function HashFn(dev: bv32, block: bv32): (h: nat)
    ensures h < NrHash
  {
    ((dev ^ block) as nat) % NrHash
  }

  /** start_buffer, hash_table and free_list. */
  datatype Queues = Queues(buf: seq<Head>, hash: seq<int>, free: int)

  ghost predicate Distinct(s: seq<int>) { forall i, j :: 0 <= i < j < |s| ==> s[i] != s[j] }

  ghost predicate Within(s: seq<int>, n: nat) { forall i :: 0 <= i < |s| ==> 0 <= s[i] < n }

  // ---------- hash chains ----------

  /** The buffers of c are chained in this order from head on. */
  ghost predicate Chain(buf: seq<Head>, head: int, c: seq<int>) {
    && Within(c, |buf|) && Distinct(c)
    && head == (if c == [] then -1 else c[0])
    && forall i :: 0 <= i < |c| ==> LinkAt(buf, c, i)
  }

  ghost predicate LinkAt(buf: seq<Head>, c: seq<int>, i: nat)
    requires i < |c|
  {
    && 0 <= c[i] < |buf|
    && buf[c[i]].next == (if i + 1 < |c| then c[i + 1] else -1)
    && buf[c[i]].prev == (if i > 0 then c[i - 1] else -1)
  }

  predicate Keyed(b: Head, h: nat) { b.dev != 0 && HashFn(b.dev, b.blocknr) == h }

  /** Two blocks have one chain exactly when device and block number, combined by exclusive or, agree modulo 307. */
  lemma OneChain(b: Head, dev: bv32, block: bv32, x: int, y: int)
    requires x == (b.dev ^ b.blocknr) as int && y == (dev ^ block) as int
    ensures Keyed(b, HashFn(dev, block)) <==> b.dev != 0 && (x - y) % 307 == 0
  {
    HashIs(b.dev, b.blocknr, x);
    HashIs(dev, block, y);
    hide HashFn;
    SameRest(x, y);
  }

  lemma HashIs(dev: bv32, block: bv32, x: int)
    requires x == (dev ^ block) as int
    ensures HashFn(dev, block) == x % 307
  {
  }

  lemma SameRest(x: int, y: int)
    ensures x % 307 == y % 307 <==> (x - y) % 307 == 0
  {
    assert x - y == 307 * (x / 307 - y / 307) + (x % 307 - y % 307);
  }

  /** Every buffer with a device, but `out`, is in the chain of its hash value and in no other. */
  ghost predicate Hashed(q: Queues, chains: seq<seq<int>>, out: int) {
    && |q.hash| == NrHash && |chains| == NrHash
    && (forall h :: 0 <= h < NrHash ==> Chain(q.buf, q.hash[h], chains[h]))
    && (forall h, j :: 0 <= h < NrHash && 0 <= j < |q.buf| ==> (j in chains[h] <==> j != out && Keyed(q.buf[j], h)))
    && (forall j :: 0 <= j < |q.buf| && j != out && q.buf[j].dev == 0 ==> q.buf[j].prev == -1 && q.buf[j].next == -1)
  }

  /** No two buffers, not counting `out`, are for the same block of a device. */
  ghost predicate Unique(buf: seq<Head>, out: int) {
    forall j, k :: 0 <= j < k < |buf| && j != out && k != out && buf[j].dev != 0 ==>
      buf[j].dev != buf[k].dev || buf[j].blocknr != buf[k].blocknr
  }

  function SetPrev(buf: seq<Head>, j: int, p: int): seq<Head> {
    if 0 <= j < |buf| then buf[j := buf[j].(prev := p)] else buf
  }

  function SetNext(buf: seq<Head>, j: int, n: int): seq<Head> {
    if 0 <= j < |buf| then buf[j := buf[j].(next := n)] else buf
  }

  /** The first half of remove_from_queues. */
  function Unhashed(q: Queues, b: nat): Queues
    requires b < |q.buf| && |q.hash| == NrHash
  {
    var p, n, h := q.buf[b].prev, q.buf[b].next, HashFn(q.buf[b].dev, q.buf[b].blocknr);
    var buf := SetNext(SetPrev(q.buf, n, p), p, n);
    q.(buf := buf, hash := if q.hash[h] == b then q.hash[h := n] else q.hash)
  }

  /** The second half of insert_into_queues. */
  function Rehashed(q: Queues, b: nat): Queues
    requires b < |q.buf| && |q.hash| == NrHash
  {
    if q.buf[b].dev == 0 then q.(buf := q.buf[b := q.buf[b].(prev := -1, next := -1)])
    else
      var h := HashFn(q.buf[b].dev, q.buf[b].blocknr);
      var head := q.hash[h];
      q.(buf := SetPrev(q.buf[b := q.buf[b].(prev := -1, next := head)], head, b), hash := q.hash[h := b])
  }

  ghost function Without(c: seq<int>, b: int): (r: seq<int>)
    ensures b !in c ==> r == c
  {
    if c == [] then [] else if c[0] == b then c[1..] else [c[0]] + Without(c[1..], b)
  }

  lemma {:induction false} WithoutAt(c: seq<int>, i: nat)
    requires Distinct(c) && i < |c|
    ensures Without(c, c[i]) == c[..i] + c[i + 1..]
  {
    if i > 0 {
      assert c[1..][i - 1] == c[i] && c[0] != c[i];
      WithoutAt(c[1..], i - 1);
    }
  }

  lemma ChainKept(buf: seq<Head>, buf': seq<Head>, head: int, c: seq<int>)
    requires Chain(buf, head, c) && |buf'| == |buf|
    requires forall i :: 0 <= i < |c| ==> buf'[c[i]].prev == buf[c[i]].prev && buf'[c[i]].next == buf[c[i]].next
    ensures Chain(buf', head, c)
  {
    forall i | 0 <= i < |c| ensures LinkAt(buf', c, i) { assert LinkAt(buf, c, i); }
  }

  /** What a chain says of its i-th buffer. */
  lemma ChainAt(buf: seq<Head>, head: int, c: seq<int>, i: nat)
    requires Chain(buf, head, c) && i < |c|
    ensures 0 <= c[i] < |buf|
    ensures buf[c[i]].next == if i + 1 < |c| then c[i + 1] else -1
    ensures buf[c[i]].prev == if i > 0 then c[i - 1] else -1
    ensures forall k :: 0 <= k < |c| ==> (c[k] == c[i] <==> k == i)
    ensures i + 1 < |c| ==> 0 <= c[i + 1] < |buf| && forall k :: 0 <= k < |c| ==> (c[k] == c[i + 1] <==> k == i + 1)
    ensures i > 0 ==> 0 <= c[i - 1] < |buf| && forall k :: 0 <= k < |c| ==> (c[k] == c[i - 1] <==> k == i - 1)
    ensures head == c[i] <==> i == 0
  {
    assert LinkAt(buf, c, i);
  }

  /** The position in c of the k-th element of c without its i-th. */
  function Skip(k: nat, i: nat): nat { if k < i then k else k + 1 }

  lemma CutSeq(c: seq<int>, i: nat, n: nat, c': seq<int>)
    requires Within(c, n) && Distinct(c) && i < |c| && c' == c[..i] + c[i + 1..]
    ensures Within(c', n) && Distinct(c')
    ensures forall k :: 0 <= k < |c'| ==> c'[k] == c[Skip(k, i)]
  {
  }

  lemma LessAt(buf: seq<Head>, head: int, c: seq<int>, i: nat, c': seq<int>, k: nat)
    requires Chain(buf, head, c) && i < |c| && 0 <= c[i] < |buf| && |c'| == |c| - 1 && k < |c'|
    requires forall l :: 0 <= l < |c'| ==> c'[l] == c[Skip(l, i)]
    ensures LinkAt(SetNext(SetPrev(buf, buf[c[i]].next, buf[c[i]].prev), buf[c[i]].prev, buf[c[i]].next), c', k)
  {
    hide Within, Distinct;
    ChainAt(buf, head, c, i);
    ChainAt(buf, head, c, Skip(k, i));
  }

  /** A buffer taken out of its chain. */
  lemma ChainLess(buf: seq<Head>, head: int, c: seq<int>, i: nat)
    requires Chain(buf, head, c) && i < |c|
    ensures Chain(SetNext(SetPrev(buf, buf[c[i]].next, buf[c[i]].prev), buf[c[i]].prev, buf[c[i]].next),
                  if head == c[i] then buf[c[i]].next else head, c[..i] + c[i + 1..])
  {
    hide Within, Distinct;
    ChainAt(buf, head, c, i);
    var b := c[i];
    var p, n := buf[b].prev, buf[b].next;
    var buf', c' := SetNext(SetPrev(buf, n, p), p, n), c[..i] + c[i + 1..];
    CutSeq(c, i, |buf|, c');
    forall k | 0 <= k < |c'| ensures LinkAt(buf', c', k) { LessAt(buf, head, c, i, c', k); }
    hide SetPrev, SetNext;
    if c' != [] { ChainAt(buf, head, c, if i == 0 then 1 else 0); }
  }

  /** A buffer put in front of a chain. */
  lemma ChainMore(buf: seq<Head>, head: int, c: seq<int>, b: nat)
    requires Chain(buf, head, c) && b < |buf| && b !in c
    ensures Chain(SetPrev(buf[b := buf[b].(prev := -1, next := head)], head, b), b, [b] + c)
  {
    var buf', c' := SetPrev(buf[b := buf[b].(prev := -1, next := head)], head, b), [b] + c;
    assert forall k :: 0 < k < |c'| ==> c'[k] == c[k - 1];
    assert Within(c', |buf'|) && Distinct(c');
    forall k | 0 <= k < |c'| ensures LinkAt(buf', c', k) {
      if k > 0 {
        ChainAt(buf, head, c, k - 1);
        assert c[k - 1] != b;
      }
      if c != [] { ChainAt(buf, head, c, 0); }
    }
  }

  /** Only links of buffers in chain h changed; the others chains stand. */
  lemma OtherChains(q: Queues, chains: seq<seq<int>>, out: int, buf: seq<Head>, h0: nat, k: nat)
    requires Hashed(q, chains, out) && h0 < NrHash && k < NrHash && k != h0 && |buf| == |q.buf|
    requires forall j :: 0 <= j < |buf| && j != out && !Keyed(q.buf[j], h0) ==>
      buf[j].prev == q.buf[j].prev && buf[j].next == q.buf[j].next
    ensures Chain(buf, q.hash[k], chains[k])
  {
    hide HashFn;
    var c := chains[k];
    assert Chain(q.buf, q.hash[k], c);
    forall i | 0 <= i < |c| ensures buf[c[i]].prev == q.buf[c[i]].prev && buf[c[i]].next == q.buf[c[i]].next {
      assert c[i] in c;
      assert Keyed(q.buf[c[i]], k);
    }
    ChainKept(q.buf, buf, q.hash[k], c);
  }

  lemma {:induction false} WithoutIn(c: seq<int>, b: int, j: int)
    requires Distinct(c)
    ensures j in Without(c, b) <==> j in c && j != b
  {
    if b in c {
      var i :| 0 <= i < |c| && c[i] == b;
      WithoutAt(c, i);
    }
  }

  ghost function ChainsWithout(chains: seq<seq<int>>, h: nat, b: nat): seq<seq<int>>
    requires h < |chains|
  {
    chains[h := Without(chains[h], b)]
  }

  lemma UnhashKeeps(q: Queues, chains: seq<seq<int>>, b: nat)
    requires Hashed(q, chains, -1) && b < |q.buf|
    ensures Hashed(Unhashed(q, b), ChainsWithout(chains, HashFn(q.buf[b].dev, q.buf[b].blocknr), b), b)
  {
    hide HashFn, Within, Distinct, Chain, Without, Keyed;
    var h0 := HashFn(q.buf[b].dev, q.buf[b].blocknr);
    ChainFacts(q.buf, q.hash[h0], chains[h0]);
    if q.buf[b].dev == 0 {
      forall h: nat ensures !Keyed(q.buf[b], h) { NotKeyed(q.buf[b], h); }
      assert ChainsWithout(chains, h0, b) == chains && Unhashed(q, b) == q;
    } else {
      UnhashChains(q, chains, b);
      UnhashMembers(q, Unhashed(q, b), chains, b);
    }
  }

  lemma NotKeyed(b: Head, h: nat)
    ensures b.dev == 0 ==> !Keyed(b, h)
    ensures b.dev != 0 && HashFn(b.dev, b.blocknr) == h ==> Keyed(b, h)
  {
  }

  lemma UnhashChains(q: Queues, chains: seq<seq<int>>, b: nat)
    requires Hashed(q, chains, -1) && b < |q.buf| && q.buf[b].dev != 0
    ensures forall k :: 0 <= k < NrHash ==>
      Chain(Unhashed(q, b).buf, Unhashed(q, b).hash[k],
        ChainsWithout(chains, HashFn(q.buf[b].dev, q.buf[b].blocknr), b)[k])
    ensures forall j :: 0 <= j < |q.buf| && q.buf[j].dev == 0 ==> Unhashed(q, b).buf[j] == q.buf[j]
  {
    hide HashFn, Within, Distinct, Chain, Without, Keyed;
    var h0 := HashFn(q.buf[b].dev, q.buf[b].blocknr);
    var q', c := Unhashed(q, b), chains[h0];
    NotKeyed(q.buf[b], h0);
    ChainFacts(q.buf, q.hash[h0], c);
    var i :| 0 <= i < |c| && c[i] == b;
    WithoutAt(c, i);
    ChainLess(q.buf, q.hash[h0], c, i);
    LinksInside(q.buf, q.hash[h0], c, i);
    forall k | 0 <= k < NrHash && k != h0 ensures Chain(q'.buf, q'.hash[k], chains[k]) {
      OtherChains(q, chains, -1, q'.buf, h0, k);
    }
    forall j | 0 <= j < |q.buf| && q.buf[j].dev == 0 ensures q'.buf[j] == q.buf[j] { NotKeyed(q.buf[j], h0); }
  }

  lemma UnhashMembers(q: Queues, q': Queues, chains: seq<seq<int>>, b: nat)
    requires Hashed(q, chains, -1) && b < |q.buf| == |q'.buf| && q.buf[b].dev != 0
    requires forall j :: 0 <= j < |q.buf| ==> q'.buf[j].dev == q.buf[j].dev && q'.buf[j].blocknr == q.buf[j].blocknr
    ensures forall h, j :: 0 <= h < NrHash && 0 <= j < |q'.buf| ==>
      (j in ChainsWithout(chains, HashFn(q.buf[b].dev, q.buf[b].blocknr), b)[h] <==> j != b && Keyed(q'.buf[j], h))
  {
    var h0 := HashFn(q.buf[b].dev, q.buf[b].blocknr);
    hide HashFn;
    assert Chain(q.buf, q.hash[h0], chains[h0]);
    forall h, j | 0 <= h < NrHash && 0 <= j < |q'.buf|
      ensures j in ChainsWithout(chains, h0, b)[h] <==> j != b && Keyed(q'.buf[j], h)
    {
      WithoutIn(chains[h0], b, j);
    }
  }

  lemma ChainFacts(buf: seq<Head>, head: int, c: seq<int>)
    requires Chain(buf, head, c)
    ensures Distinct(c) && (c == [] <==> head == -1) && (head != -1 ==> head in c)
    ensures forall j :: j in c ==> 0 <= j < |buf|
  {
  }

  /** The neighbours of a chained buffer are in its chain. */
  lemma LinksInside(buf: seq<Head>, head: int, c: seq<int>, i: nat)
    requires Chain(buf, head, c) && i < |c|
    ensures buf[c[i]].prev == -1 || buf[c[i]].prev in c
    ensures buf[c[i]].next == -1 || buf[c[i]].next in c
  {
    ChainAt(buf, head, c, i);
  }

  lemma RehashKeeps(q: Queues, chains: seq<seq<int>>, b: nat)
    requires Hashed(q, chains, b) && b < |q.buf|
    ensures Hashed(Rehashed(q, b), RehashedChains(q.buf[b], chains, b), -1)
  {
    hide HashFn, Within, Distinct, Chain, Keyed;
    var h0 := HashFn(q.buf[b].dev, q.buf[b].blocknr);
    var q', chains' := Rehashed(q, b), RehashedChains(q.buf[b], chains, b);
    ChainFacts(q.buf, q.hash[h0], chains[h0]);
    if q.buf[b].dev == 0 {
      forall h: nat ensures !Keyed(q.buf[b], h) && !Keyed(q'.buf[b], h) {
        NotKeyed(q.buf[b], h);
        NotKeyed(q'.buf[b], h);
      }
      forall k | 0 <= k < NrHash ensures Chain(q'.buf, q'.hash[k], chains'[k]) { ChainBeside(q, chains, b, k, q'.buf); }
      forall j | 0 <= j < |q.buf| ensures forall h: nat :: Keyed(q'.buf[j], h) <==> Keyed(q.buf[j], h) {
        KeyedSame(q.buf[j], q'.buf[j]);
      }
    } else {
      RehashChains(q, chains, b);
      RehashMembers(q, q', chains, b);
      KeyedSame(q.buf[b], q'.buf[b]);
    }
  }

  ghost function RehashedChains(h: Head, chains: seq<seq<int>>, b: nat): seq<seq<int>>
    requires |chains| == NrHash
  {
    if h.dev == 0 then chains else chains[HashFn(h.dev, h.blocknr) := [b] + chains[HashFn(h.dev, h.blocknr)]]
  }

  lemma KeyedSame(b: Head, b': Head)
    requires b.dev == b'.dev && b.blocknr == b'.blocknr
    ensures forall h: nat :: Keyed(b', h) <==> Keyed(b, h)
  {
  }

  /** A chain does not mind what happens to the buffer that is out. */
  lemma ChainBeside(q: Queues, chains: seq<seq<int>>, b: nat, k: nat, buf: seq<Head>)
    requires Hashed(q, chains, b) && k < NrHash && |buf| == |q.buf|
    requires forall j :: 0 <= j < |buf| && j != b ==> buf[j].prev == q.buf[j].prev && buf[j].next == q.buf[j].next
    ensures Chain(buf, q.hash[k], chains[k])
  {
    hide HashFn, Keyed;
    assert Chain(q.buf, q.hash[k], chains[k]);
    forall i | 0 <= i < |chains[k]|
      ensures buf[chains[k][i]].prev == q.buf[chains[k][i]].prev && buf[chains[k][i]].next == q.buf[chains[k][i]].next
    {
      assert chains[k][i] in chains[k];
    }
    ChainKept(q.buf, buf, q.hash[k], chains[k]);
  }

  lemma RehashMembers(q: Queues, q': Queues, chains: seq<seq<int>>, b: nat)
    requires Hashed(q, chains, b) && b < |q.buf| == |q'.buf| && q.buf[b].dev != 0
    requires forall j :: 0 <= j < |q.buf| ==> q'.buf[j].dev == q.buf[j].dev && q'.buf[j].blocknr == q.buf[j].blocknr
    ensures forall h, j :: 0 <= h < NrHash && 0 <= j < |q'.buf| ==>
      (j in RehashedChains(q.buf[b], chains, b)[h] <==> Keyed(q'.buf[j], h))
  {
    hide HashFn;
  }

  lemma RehashChains(q: Queues, chains: seq<seq<int>>, b: nat)
    requires Hashed(q, chains, b) && b < |q.buf| && q.buf[b].dev != 0
    ensures forall k :: 0 <= k < NrHash ==>
      Chain(Rehashed(q, b).buf, Rehashed(q, b).hash[k], RehashedChains(q.buf[b], chains, b)[k])
    ensures forall j :: 0 <= j < |q.buf| && q.buf[j].dev == 0 ==> Rehashed(q, b).buf[j] == q.buf[j]
  {
    hide HashFn, Within, Distinct, Chain, Keyed;
    var h0 := HashFn(q.buf[b].dev, q.buf[b].blocknr);
    var q', c := Rehashed(q, b), chains[h0];
    ChainFacts(q.buf, q.hash[h0], c);
    assert b !in c;
    ChainMore(q.buf, q.hash[h0], c, b);
    forall k | 0 <= k < NrHash && k != h0 ensures Chain(q'.buf, q'.hash[k], chains[k]) {
      OtherChains(q, chains, b, q'.buf, h0, k);
    }
    forall j | 0 <= j < |q.buf| && q.buf[j].dev == 0 ensures q'.buf[j] == q.buf[j] { NotKeyed(q.buf[j], h0); }
  }

  // ---------- the free ring ----------

  function Succ(i: nat, n: nat): nat { if i + 1 < n then i + 1 else 0 }
  function Pred(i: nat, n: nat): int { if i > 0 then i - 1 else n - 1 }

  ghost predicate RingAt(buf: seq<Head>, r: seq<int>, i: nat)
    requires i < |r|
  {
    && 0 <= r[i] < |buf|
    && buf[r[i]].nextFree == r[Succ(i, |r|)] && buf[r[i]].prevFree == r[Pred(i, |r|)]
  }

  /** The free list is one doubly linked ring of the buffers r, starting at free. */
  ghost predicate Ring(buf: seq<Head>, free: int, r: seq<int>) {
    r != [] && Within(r, |buf|) && Distinct(r) && r[0] == free && forall i :: 0 <= i < |r| ==> RingAt(buf, r, i)
  }

  function SetPrevFree(buf: seq<Head>, j: int, p: int): seq<Head> {
    if 0 <= j < |buf| then buf[j := buf[j].(prevFree := p)] else buf
  }

  function SetNextFree(buf: seq<Head>, j: int, n: int): seq<Head> {
    if 0 <= j < |buf| then buf[j := buf[j].(nextFree := n)] else buf
  }

  /** The second half of remove_from_queues. */
  function Unlisted(q: Queues, b: nat): Queues
    requires b < |q.buf|
  {
    var p, n := q.buf[b].prevFree, q.buf[b].nextFree;
    q.(buf := SetPrevFree(SetNextFree(q.buf, p, n), n, p), free := if q.free == b then n else q.free)
  }

  /** The first half of insert_into_queues. */
  function Listed(q: Queues, b: nat): Queues
    requires b < |q.buf| && 0 <= q.free < |q.buf|
  {
    var buf1 := SetNextFree(q.buf, b, q.free);
    var buf2 := SetPrevFree(buf1, b, buf1[q.free].prevFree);
    var buf3 := SetNextFree(buf2, buf2[q.free].prevFree, b);
    q.(buf := SetPrevFree(buf3, q.free, b))
  }

  lemma RingFacts(buf: seq<Head>, free: int, r: seq<int>, i: nat)
    requires Ring(buf, free, r) && i < |r|
    ensures 0 <= r[i] < |buf| && buf[r[i]].nextFree == r[Succ(i, |r|)] && buf[r[i]].prevFree == r[Pred(i, |r|)]
    ensures 0 <= r[Succ(i, |r|)] < |buf| && 0 <= r[Pred(i, |r|)] < |buf|
    ensures forall k :: 0 <= k < |r| ==> (r[k] == r[i] <==> k == i)
    ensures forall k :: 0 <= k < |r| ==> (r[k] == r[Succ(i, |r|)] <==> k == Succ(i, |r|))
    ensures forall k :: 0 <= k < |r| ==> (r[k] == r[Pred(i, |r|)] <==> k == Pred(i, |r|))
    ensures free == r[0]
  {
    assert RingAt(buf, r, i);
  }

  lemma UnlistFields(q: Queues, b: nat)
    requires b < |q.buf| && 0 <= q.buf[b].prevFree < |q.buf| && 0 <= q.buf[b].nextFree < |q.buf|
    ensures |Unlisted(q, b).buf| == |q.buf|
    ensures forall j :: 0 <= j < |q.buf| ==>
      && Unlisted(q, b).buf[j].nextFree == (if j == q.buf[b].prevFree then q.buf[b].nextFree else q.buf[j].nextFree)
      && Unlisted(q, b).buf[j].prevFree == (if j == q.buf[b].nextFree then q.buf[b].prevFree else q.buf[j].prevFree)
    ensures Unlisted(q, b).free == if q.free == b then q.buf[b].nextFree else q.free
  {
  }

  lemma UnlistAt(q: Queues, r: seq<int>, i: nat, r': seq<int>, k: nat)
    requires Ring(q.buf, q.free, r) && i < |r| && |r| > 1 && |r'| == |r| - 1 && k < |r'| && 0 <= r[i] < |q.buf|
    requires forall l :: 0 <= l < |r'| ==> r'[l] == r[Skip(l, i)]
    ensures RingAt(Unlisted(q, r[i]).buf, r', k)
  {
    hide Within, Distinct, Unlisted;
    RingFacts(q.buf, q.free, r, i);
    UnlistFields(q, r[i]);
    RingFacts(q.buf, q.free, r, Skip(k, i));
  }

  /** A buffer taken out of a ring of several. */
  lemma UnlistKeeps(q: Queues, r: seq<int>, i: nat)
    requires Ring(q.buf, q.free, r) && i < |r| && |r| > 1
    ensures 0 <= r[i] < |q.buf| && Ring(Unlisted(q, r[i]).buf, Unlisted(q, r[i]).free, r[..i] + r[i + 1..])
    ensures r[i] !in r[..i] + r[i + 1..]
  {
    hide Within, Distinct, Unlisted, RingAt;
    RingFacts(q.buf, q.free, r, i);
    UnlistFields(q, r[i]);
    var q', r' := Unlisted(q, r[i]), r[..i] + r[i + 1..];
    CutSeq(r, i, |q.buf|, r');
    forall k | 0 <= k < |r'| ensures RingAt(q'.buf, r', k) { UnlistAt(q, r, i, r', k); }
    RingFacts(q.buf, q.free, r, 0);
  }

  /** A buffer put at the end of a ring. */
  lemma ListKeeps(q: Queues, r: seq<int>, b: nat)
    requires Ring(q.buf, q.free, r) && b < |q.buf| && b !in r
    ensures 0 <= q.free < |q.buf| && Ring(Listed(q, b).buf, Listed(q, b).free, r + [b])
  {
    var r' := r + [b];
    RingFacts(q.buf, q.free, r, 0);
    assert Within(r', |q.buf|) && Distinct(r');
    hide Within, Distinct;
    forall k | 0 <= k < |r'| ensures RingAt(Listed(q, b).buf, r', k) { ListAt(q, r, b, k); }
    hide Listed;
    ListFields(q, b);
  }

  lemma ListFields(q: Queues, b: nat)
    requires b < |q.buf| && 0 <= q.free < |q.buf| && b != q.free
    ensures |Listed(q, b).buf| == |q.buf| && Listed(q, b).free == q.free
    ensures forall j :: 0 <= j < |q.buf| ==>
      && Listed(q, b).buf[j].nextFree
         == (if j == q.buf[q.free].prevFree then b else if j == b then q.free else q.buf[j].nextFree)
      && Listed(q, b).buf[j].prevFree ==
         if j == q.free then b else if j == b then q.buf[q.free].prevFree else q.buf[j].prevFree
  {
  }

  lemma ListAt(q: Queues, r: seq<int>, b: nat, k: nat)
    requires Ring(q.buf, q.free, r) && b < |q.buf| && b !in r && 0 <= q.free < |q.buf| && k <= |r|
    ensures RingAt(Listed(q, b).buf, r + [b], k)
  {
    hide Within, Distinct, Listed;
    RingFacts(q.buf, q.free, r, 0);
    ListFields(q, b);
    if k < |r| {
      RingFacts(q.buf, q.free, r, k);
      assert r[k] != b;
    }
  }

  /** A ring of one buffer survives both. */
  lemma OnlyOne(q: Queues, b: nat)
    requires Ring(q.buf, q.free, [b])
    ensures b < |q.buf| && Unlisted(q, b) == q
  {
    RingFacts(q.buf, q.free, [b], 0);
  }

  lemma ListOnlyOne(q: Queues, b: nat)
    requires Ring(q.buf, q.free, [b])
    ensures b < |q.buf| && q.free == b && Ring(Listed(q, b).buf, Listed(q, b).free, [b])
  {
    RingFacts(q.buf, q.free, [b], 0);
    assert RingAt(Listed(q, b).buf, [b], 0);
  }

  // ---------- the whole ----------

  /** The invariant of the queues. */
  ghost predicate Linked(q: Queues, chains: seq<seq<int>>, ring: seq<int>) {
    && Hashed(q, chains, -1) && Unique(q.buf, -1)
    && Ring(q.buf, q.free, ring) && (forall j :: 0 <= j < |q.buf| ==> j in ring)
  }

  /** What getblk does with the buffer it takes. */
  function Requeued(q: Queues, b: nat, dev: bv32, block: bv32): Queues
    requires b < |q.buf| && |q.hash| == NrHash && 0 <= Unlisted(Unhashed(q, b), b).free < |q.buf|
  {
    var q1 := Unlisted(Unhashed(q, b), b);
    Rehashed(Listed(q1.(buf := q1.buf[b := q1.buf[b].(dev := dev, blocknr := block)]), b), b)
  }

  lemma RingSame(buf: seq<Head>, buf': seq<Head>, free: int, r: seq<int>)
    requires Ring(buf, free, r) && SameFree(buf, buf')
    ensures Ring(buf', free, r)
  {
    forall i | 0 <= i < |r| ensures RingAt(buf', r, i) { assert RingAt(buf, r, i); }
  }

  lemma HashedSame(q: Queues, q': Queues, chains: seq<seq<int>>, out: int)
    requires Hashed(q, chains, out) && q'.hash == q.hash && SameHash(q.buf, q'.buf)
    requires forall j :: 0 <= j < |q.buf| && j != out ==>
      q'.buf[j].dev == q.buf[j].dev && q'.buf[j].blocknr == q.buf[j].blocknr
    ensures Hashed(q', chains, out)
  {
    hide HashFn, Keyed;
    forall h | 0 <= h < NrHash ensures Chain(q'.buf, q'.hash[h], chains[h]) {
      ChainKept(q.buf, q'.buf, q.hash[h], chains[h]);
    }
    forall j | 0 <= j < |q.buf| && j != out ensures forall h: nat :: Keyed(q'.buf[j], h) <==> Keyed(q.buf[j], h) {
      KeyedSame(q.buf[j], q'.buf[j]);
    }
  }

  ghost function NewRing(ring: seq<int>, b: int): seq<int> { Without(ring, b) + [b] }

  /** Fields outside the links, and everything of the other buffers but the links, stay. */
  ghost predicate OnlyLinks(buf: seq<Head>, buf': seq<Head>) {
    && |buf'| == |buf|
    && forall j :: 0 <= j < |buf| ==>
         buf'[j]
           == buf[j].(prev := buf'[j].prev, next := buf'[j].next, prevFree := buf'[j].prevFree,
           nextFree := buf'[j].nextFree)
  }

  lemma SetTouches(buf: seq<Head>, j: int, v: int)
    ensures OnlyLinks(buf, SetPrev(buf, j, v)) && SameFree(buf, SetPrev(buf, j, v))
    ensures OnlyLinks(buf, SetNext(buf, j, v)) && SameFree(buf, SetNext(buf, j, v))
  {
  }

  lemma SetFreeTouches(buf: seq<Head>, j: int, v: int)
    ensures OnlyLinks(buf, SetPrevFree(buf, j, v)) && SameHash(buf, SetPrevFree(buf, j, v))
    ensures OnlyLinks(buf, SetNextFree(buf, j, v)) && SameHash(buf, SetNextFree(buf, j, v))
  {
  }

  ghost predicate SameFree(buf: seq<Head>, buf': seq<Head>) {
    |buf'| == |buf|
      && forall j :: 0 <= j < |buf| ==> buf'[j].nextFree == buf[j].nextFree && buf'[j].prevFree == buf[j].prevFree
  }

  ghost predicate SameHash(buf: seq<Head>, buf': seq<Head>) {
    |buf'| == |buf| && forall j :: 0 <= j < |buf| ==> buf'[j].next == buf[j].next && buf'[j].prev == buf[j].prev
  }

  lemma TouchesTwice(a: seq<Head>, b: seq<Head>, c: seq<Head>)
    ensures OnlyLinks(a, b) && OnlyLinks(b, c) ==> OnlyLinks(a, c)
    ensures SameFree(a, b) && SameFree(b, c) ==> SameFree(a, c)
    ensures SameHash(a, b) && SameHash(b, c) ==> SameHash(a, c)
  {
  }

  lemma UnlistTouches(q: Queues, b: nat)
    requires b < |q.buf|
    ensures OnlyLinks(q.buf, Unlisted(q, b).buf) && Unlisted(q, b).hash == q.hash && SameHash(q.buf, Unlisted(q, b).buf)
  {
    hide OnlyLinks, SameHash, SetNextFree, SetPrevFree;
    var p, n := q.buf[b].prevFree, q.buf[b].nextFree;
    SetFreeTouches(q.buf, p, n);
    SetFreeTouches(SetNextFree(q.buf, p, n), n, p);
    TouchesTwice(q.buf, SetNextFree(q.buf, p, n), Unlisted(q, b).buf);
  }

  lemma UnhashTouches(q: Queues, b: nat)
    requires b < |q.buf| && |q.hash| == NrHash
    ensures |Unhashed(q, b).hash| == NrHash
    ensures OnlyLinks(q.buf, Unhashed(q, b).buf) && Unhashed(q, b).free == q.free && SameFree(q.buf, Unhashed(q, b).buf)
  {
    hide OnlyLinks, SameFree, SetNext, SetPrev, HashFn;
    var p, n := q.buf[b].prev, q.buf[b].next;
    SetTouches(q.buf, n, p);
    SetTouches(SetPrev(q.buf, n, p), p, n);
    TouchesTwice(q.buf, SetPrev(q.buf, n, p), Unhashed(q, b).buf);
  }

  lemma ListTouches(q: Queues, b: nat)
    requires b < |q.buf| && 0 <= q.free < |q.buf|
    ensures OnlyLinks(q.buf, Listed(q, b).buf) && Listed(q, b).hash == q.hash && SameHash(q.buf, Listed(q, b).buf)
  {
    hide OnlyLinks, SameHash;
    var buf1 := SetNextFree(q.buf, b, q.free);
    var buf2 := SetPrevFree(buf1, b, buf1[q.free].prevFree);
    var buf3 := SetNextFree(buf2, buf2[q.free].prevFree, b);
    SetFreeTouches(q.buf, b, q.free);
    SetFreeTouches(buf1, b, buf1[q.free].prevFree);
    SetFreeTouches(buf2, buf2[q.free].prevFree, b);
    SetFreeTouches(buf3, q.free, b);
    TouchesTwice(q.buf, buf1, buf2);
    TouchesTwice(q.buf, buf2, buf3);
    TouchesTwice(q.buf, buf3, Listed(q, b).buf);
  }

  lemma RehashTouches(q: Queues, b: nat)
    requires b < |q.buf| && |q.hash| == NrHash
    ensures OnlyLinks(q.buf, Rehashed(q, b).buf) && Rehashed(q, b).free == q.free && SameFree(q.buf, Rehashed(q, b).buf)
  {
    hide HashFn, OnlyLinks, SameFree;
    if q.buf[b].dev == 0 {
      RelinkTouches(q.buf, b, -1);
    } else {
      var head := q.hash[HashFn(q.buf[b].dev, q.buf[b].blocknr)];
      var buf1 := q.buf[b := q.buf[b].(prev := -1, next := head)];
      RelinkTouches(q.buf, b, head);
      SetTouches(buf1, head, b);
      hide SetPrev;
      TouchesTwice(q.buf, buf1, Rehashed(q, b).buf);
    }
  }

  lemma RelinkTouches(buf: seq<Head>, b: nat, n: int)
    requires b < |buf|
    ensures OnlyLinks(buf, buf[b := buf[b].(prev := -1, next := n)])
      && SameFree(buf, buf[b := buf[b].(prev := -1, next := n)])
  {
  }

  function Rekeyed(q: Queues, b: nat, dev: bv32, block: bv32): Queues
    requires b < |q.buf|
  {
    q.(buf := q.buf[b := q.buf[b].(dev := dev, blocknr := block)])
  }

  lemma RequeueRing(q: Queues, ring: seq<int>, b: nat, dev: bv32, block: bv32)
    requires b < |q.buf| && |q.hash| == NrHash && Ring(q.buf, q.free, ring) && b in ring
    ensures 0 <= Unlisted(Unhashed(q, b), b).free < |q.buf|
    ensures Ring(Requeued(q, b, dev, block).buf, Requeued(q, b, dev, block).free, NewRing(ring, b))
  {
    hide Unhashed, Unlisted, Listed, Rehashed, Ring, OnlyLinks;
    UnhashTouches(q, b);
    var q1 := Unhashed(q, b);
    RingSame(q.buf, q1.buf, q.free, ring);
    RingDistinct(q.buf, q.free, ring);
    var q2 := Unlisted(q1, b);
    UnlistTouches(q1, b);
    var i :| 0 <= i < |ring| && ring[i] == b;
    WithoutAt(ring, i);
    var cut := ring[..i] + ring[i + 1..];
    var rest := if |ring| > 1 then cut else ring;
    if |ring| > 1 { UnlistKeeps(q1, ring, i); } else { assert ring == [b] && cut == []; OnlyOne(q1, b); }
    FreeIn(q2.buf, q2.free, rest);
    var q3 := Rekeyed(q2, b, dev, block);
    RingSame(q2.buf, q3.buf, q2.free, rest);
    var q4 := Listed(q3, b);
    ListTouches(q3, b);
    if |ring| > 1 { ListKeeps(q3, cut, b); } else { ListOnlyOne(q3, b); assert cut + [b] == [b]; }
    assert cut + [b] == NewRing(ring, b);
    RehashTouches(q4, b);
    RingSame(q4.buf, Rehashed(q4, b).buf, q4.free, NewRing(ring, b));
  }

  lemma FreeIn(buf: seq<Head>, free: int, r: seq<int>)
    requires Ring(buf, free, r)
    ensures 0 <= free < |buf|
  {
    RingFacts(buf, free, r, 0);
  }

  lemma RequeueHash(q: Queues, chains: seq<seq<int>>, b: nat, dev: bv32, block: bv32)
    requires b < |q.buf| && Hashed(q, chains, -1) && 0 <= Unlisted(Unhashed(q, b), b).free < |q.buf|
    ensures Hashed(Requeued(q, b, dev, block), NewChains(q.buf[b], chains, b, dev, block), -1)
  {
    hide Unhashed, Unlisted, Listed, Rehashed, HashFn, Hashed, RehashedChains, ChainsWithout;
    HashedSizes(q, chains, -1);
    UnhashKeeps(q, chains, b);
    UnhashTouches(q, b);
    var q1, chains1 := Unhashed(q, b), ChainsWithout(chains, HashFn(q.buf[b].dev, q.buf[b].blocknr), b);
    var q2 := Unlisted(q1, b);
    UnlistTouches(q1, b);
    HashedSame(q1, q2, chains1, b);
    var q3 := Rekeyed(q2, b, dev, block);
    HashedSame(q2, q3, chains1, b);
    var q4 := Listed(q3, b);
    ListTouches(q3, b);
    HashedSame(q3, q4, chains1, b);
    HashedSizes(q4, chains1, b);
    RehashKeeps(q4, chains1, b);
    ChainsOfKey(q4.buf[b], q.buf[b].(dev := dev, blocknr := block), chains1, b);
  }

  lemma ChainsOfKey(h: Head, k: Head, chains: seq<seq<int>>, b: nat)
    requires |chains| == NrHash && h.dev == k.dev && h.blocknr == k.blocknr
    ensures RehashedChains(h, chains, b) == RehashedChains(k, chains, b)
  {
  }

  lemma HashedSizes(q: Queues, chains: seq<seq<int>>, out: int)
    requires Hashed(q, chains, out)
    ensures |q.hash| == NrHash == |chains|
  {
  }

  lemma RequeueTouches(q: Queues, b: nat, dev: bv32, block: bv32)
    requires b < |q.buf| && |q.hash| == NrHash && 0 <= Unlisted(Unhashed(q, b), b).free < |q.buf|
    ensures OnlyLinks(Rekeyed(q, b, dev, block).buf, Requeued(q, b, dev, block).buf)
  {
    hide Unhashed, Unlisted, Listed, Rehashed;
    var q1 := Unhashed(q, b);
    UnhashTouches(q, b);
    var q2 := Unlisted(q1, b);
    UnlistTouches(q1, b);
    TouchesTwice(q.buf, q1.buf, q2.buf);
    var q3 := Rekeyed(q2, b, dev, block);
    assert OnlyLinks(Rekeyed(q, b, dev, block).buf, q3.buf);
    hide OnlyLinks;
    var q4 := Listed(q3, b);
    ListTouches(q3, b);
    RehashTouches(q4, b);
    TouchesTwice(Rekeyed(q, b, dev, block).buf, q3.buf, q4.buf);
    TouchesTwice(Rekeyed(q, b, dev, block).buf, q4.buf, Rehashed(q4, b).buf);
  }

  /** The invariant survives getblk's taking a buffer for a block that no other buffer is for. */
  lemma RequeueKeeps(q: Queues, chains: seq<seq<int>>, ring: seq<int>, b: nat, dev: bv32, block: bv32)
    requires Linked(q, chains, ring) && b < |q.buf|
    requires forall j :: 0 <= j < |q.buf| && j != b && dev != 0 ==> q.buf[j].dev != dev || q.buf[j].blocknr != block
    ensures |q.hash| == NrHash && |chains| == NrHash && 0 <= Unlisted(Unhashed(q, b), b).free < |q.buf|
    ensures Linked(Requeued(q, b, dev, block), NewChains(q.buf[b], chains, b, dev, block), NewRing(ring, b))
    ensures OnlyLinks(Rekeyed(q, b, dev, block).buf, Requeued(q, b, dev, block).buf)
  {
    hide Hashed, Requeued, Unlisted, Unhashed, Ring, NewChains;
    HashedSizes(q, chains, -1);
    RequeueRing(q, ring, b, dev, block);
    RequeueHash(q, chains, b, dev, block);
    RequeueTouches(q, b, dev, block);
    RingDistinct(q.buf, q.free, ring);
    forall j | 0 <= j < |q.buf| ensures j in NewRing(ring, b) { WithoutIn(ring, b, j); }
  }

  lemma RingDistinct(buf: seq<Head>, free: int, r: seq<int>)
    requires Ring(buf, free, r)
    ensures Distinct(r)
  {
  }

  ghost function NewChains(h: Head, chains: seq<seq<int>>, b: nat, dev: bv32, block: bv32): seq<seq<int>>
    requires |chains| == NrHash
  {
    RehashedChains(h.(dev := dev, blocknr := block), ChainsWithout(chains, HashFn(h.dev, h.blocknr), b), b)
  }
}
