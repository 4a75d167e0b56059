/** createData, createBytes and QRBitBuffer of
    smurfs/src/main/resources/static/lib/qrcode/qrcode.js. */
module QrBlocks {
  import opened Galois
  import opened ReedSolomon
  import opened QrReader
  import opened Counting

  datatype RSBlock = RSBlock(totalCount: nat, dataCount: nat)

  // ---------- interleaving, section 7.6 of ISO/IEC 18004:2015 ----------

  /** The codewords from column i, block r on: column by column, skipping blocks that have ended. */
  function Columns(blocks: seq<Poly>, max: nat, i: nat, r: nat): Poly
    decreases if i < max then max - i else 0, if r < |blocks| then |blocks| - r else 0
  {
    if i >= max then []
    else if r >= |blocks| then Columns(blocks, max, i + 1, 0)
    else (if i < |blocks[r]| then [blocks[r][i]] else []) + Columns(blocks, max, i, r + 1)
  }

  /** How much of block q has been dealt before column i, block r. */
  function Dealt(len: nat, q: nat, i: nat, r: nat): (n: nat)
    ensures n <= len
  {
    if q < r && i < len then i + 1 else if i <= len then i else len
  }

  ghost predicate Lengths(blocks: seq<Poly>, lens: seq<nat>, max: nat) {
    |lens| == |blocks| && forall q :: 0 <= q < |blocks| ==> lens[q] == |blocks[q]| <= max
  }

  /** The blocks as far as they have been dealt. */
  ghost predicate Got(blocks: seq<Poly>, got: seq<Poly>, i: nat, r: nat) {
    |got| == |blocks| && forall q :: 0 <= q < |blocks| ==> got[q] == blocks[q][..Dealt(|blocks[q]|, q, i, r)]
  }

  lemma GotNext(blocks: seq<Poly>, got: seq<Poly>, i: nat, r: nat)
    requires Got(blocks, got, i, r) && r < |blocks|
    ensures i < |blocks[r]| ==> Got(blocks, got[r := got[r] + [blocks[r][i]]], i, r + 1)
    ensures i >= |blocks[r]| ==> Got(blocks, got, i, r + 1)
  {
    if i < |blocks[r]| {
      assert blocks[r][..i] + [blocks[r][i]] == blocks[r][..i + 1];
    }
  }

  lemma ColumnsStep(blocks: seq<Poly>, max: nat, i: nat, r: nat, rest: Poly)
    requires i < max && r < |blocks|
    ensures i < |blocks[r]| ==>
      Columns(blocks, max, i, r) + rest == [blocks[r][i]] + (Columns(blocks, max, i, r + 1) + rest)
    ensures i >= |blocks[r]| ==> Columns(blocks, max, i, r) + rest == Columns(blocks, max, i, r + 1) + rest
    ensures |Columns(blocks, max, i, r)| == |Columns(blocks, max, i, r + 1)| + if i < |blocks[r]| then 1 else 0
  {
    ColumnsNext(blocks, max, i, r);
    hide Columns;
    var next := Columns(blocks, max, i, r + 1);
    if i < |blocks[r]| { assert ([blocks[r][i]] + next) + rest == [blocks[r][i]] + (next + rest); }
  }

  lemma ColumnsNext(blocks: seq<Poly>, max: nat, i: nat, r: nat)
    requires i < max && r < |blocks|
    ensures Columns(blocks, max, i, r)
      == (if i < |blocks[r]| then [blocks[r][i]] else []) + Columns(blocks, max, i, r + 1)
  {
  }

  lemma ColumnsTurn(blocks: seq<Poly>, max: nat, i: nat)
    ensures i < max ==> Columns(blocks, max, i, |blocks|) == Columns(blocks, max, i + 1, 0)
    ensures i >= max ==> Columns(blocks, max, i, 0) == []
  {
  }

  /** De-interleaving gives back all blocks, whatever follows them. */
  lemma {:induction false} DealColumns(blocks: seq<Poly>, lens: seq<nat>, max: nat, i: nat, r: nat, rest: Poly,
                                       got: seq<Poly>)
    requires Lengths(blocks, lens, max) && |got| == |blocks| && r <= |blocks| && Got(blocks, got, i, r)
    ensures Deal(lens, max, i, r, Columns(blocks, max, i, r) + rest, got) == blocks
    decreases if i < max then max - i else 0, |blocks| - r
  {
    hide Columns;
    ColumnsTurn(blocks, max, i);
    if i >= max {
      forall q | 0 <= q < |blocks| ensures got[q] == blocks[q] { }
    } else if r >= |blocks| {
      DealColumns(blocks, lens, max, i + 1, 0, rest, got);
    } else {
      ColumnsStep(blocks, max, i, r, rest);
      GotNext(blocks, got, i, r);
      if i < |blocks[r]| {
        var tail := Columns(blocks, max, i, r + 1) + rest;
        assert ([blocks[r][i]] + tail)[1..] == tail;
        DealColumns(blocks, lens, max, i, r + 1, rest, got[r := got[r] + [blocks[r][i]]]);
      } else {
        DealColumns(blocks, lens, max, i, r + 1, rest, got);
      }
    }
  }

  /** All blocks interleaved, and dealt out again. */
  lemma Deinterleave(blocks: seq<Poly>, lens: seq<nat>, max: nat, rest: Poly)
    requires Lengths(blocks, lens, max)
    ensures Deal(lens, max, 0, 0, Columns(blocks, max, 0, 0) + rest, seq(|lens|, _ => [])) == blocks
  {
    DealColumns(blocks, lens, max, 0, 0, rest, seq(|lens|, _ => []));
  }

  /** What is still to be dealt of the first n blocks. */
  ghost function Undealt(blocks: seq<Poly>, i: nat, r: nat, n: nat): nat
    requires n <= |blocks|
  {
    if n == 0 then 0 else Undealt(blocks, i, r, n - 1) + |blocks[n - 1]| - Dealt(|blocks[n - 1]|, n - 1, i, r)
  }

  lemma {:induction false} UndealtStep(blocks: seq<Poly>, i: nat, r: nat, n: nat)
    requires n <= |blocks| && r < |blocks|
    ensures Undealt(blocks, i, r, n) == Undealt(blocks, i, r + 1, n) + if r < n && i < |blocks[r]| then 1 else 0
  {
    if n > 0 { UndealtStep(blocks, i, r, n - 1); }
  }

  lemma {:induction false} UndealtTurn(blocks: seq<Poly>, i: nat, n: nat)
    requires n <= |blocks|
    ensures Undealt(blocks, i, |blocks|, n) == Undealt(blocks, i + 1, 0, n)
  {
    if n > 0 { UndealtTurn(blocks, i, n - 1); }
  }

  lemma {:induction false} UndealtEnd(blocks: seq<Poly>, i: nat, n: nat)
    requires n <= |blocks| && forall q :: 0 <= q < n ==> |blocks[q]| <= i
    ensures Undealt(blocks, i, 0, n) == 0
  {
    if n > 0 { UndealtEnd(blocks, i, n - 1); }
  }

  lemma {:induction false} ColumnsLength(blocks: seq<Poly>, max: nat, i: nat, r: nat)
    requires r <= |blocks| && i <= max && (i == max ==> r == 0) && forall q :: 0 <= q < |blocks| ==> |blocks[q]| <= max
    ensures |Columns(blocks, max, i, r)| == Undealt(blocks, i, r, |blocks|)
    decreases max - i, |blocks| - r
  {
    hide Columns, Undealt, Dealt;
    ColumnsTurn(blocks, max, i);
    if i == max {
      UndealtEnd(blocks, i, |blocks|);
    } else if r == |blocks| {
      UndealtTurn(blocks, i, |blocks|);
      ColumnsLength(blocks, max, i + 1, 0);
    } else {
      UndealtStep(blocks, i, r, |blocks|);
      ColumnsStep(blocks, max, i, r, []);
      ColumnsLength(blocks, max, i, r + 1);
    }
  }

  // ---------- error correction of one block ----------

  /** The n codewords ec make data, followed by them, a polynomial with the roots a^0 .. a^(n-1). */
  ghost predicate Corrects(data: Poly, ec: Poly, n: nat) {
    |ec| == n && forall i :: 0 <= i < n ==> Eval(data + ec, i) == 0
  }

  lemma AddSame(b: bv8)
    ensures Add(b, b) == 0
  {
  }

  /** The remainder of data shifted by n, with leading zeros, is the error correction. */
  lemma RemainderCorrects(data: Poly, n: nat, rest: Poly)
    requires |rest| <= n
    requires forall x: nat :: Eval(Gen(n), x) == 0 ==> Eval(rest, x) == Eval(Stripped(data) + Blank(n), x)
    ensures Corrects(data, seq(n - |rest|, _ => Num(0)) + rest, n)
  {
    hide Eval, Add, Gen;
    var ec := seq(n - |rest|, _ => Num(0)) + rest;
    forall i | 0 <= i < n ensures Eval(data + ec, i) == 0 {
      GenRoots(n, i);
      StrippedEval(data, i);
      EvalAppend(Stripped(data), Blank(n), i);
      EvalZero(Blank(n), i);
      EvalStripped(seq(n - |rest|, _ => Num(0)), rest, i);
      EvalAppend(data, ec, i);
      AddRules(Shifted(i, n, Eval(data, i)), 0, 0, 0);
      AddSame(Eval(rest, i));
    }
  }

  /** When the error correction of a block throws: a generator on the way has a coefficient 0, or the last one
      has and is needed. */
  ghost predicate Encodable(data: Poly, n: nat) {
    Buildable(n) && (Stripped(data) == [] || NoZero(Gen(n)))
  }

  method ErrorCorrection(math: QRMath, data: Poly, n: nat) returns (r: Result<Poly>)
    requires math.Valid()
    ensures r.Throws? <==> !Encodable(data, n)
    ensures r.Ok? ==> Corrects(data, r.v, n)
  {
    hide Eval, Gen, Buildable;
    var g := GetErrorCorrectPolynomial(math, n);
    if g.Throws? { return Throws; }
    var rsPoly := g.v;
    var rawPoly := NewPolynomial(data, |rsPoly| - 1);
    var m := Mod(math, rawPoly, rsPoly);
    if m.Throws? { return Throws; }
    var modPoly := m.v;
    RemainderCorrects(data, n, modPoly);
    var ec: Poly := [];
    while |ec| < n
      invariant |ec| <= n && ec == (seq(n - |modPoly|, _ => Num(0)) + modPoly)[..|ec|]
    {
      var modIndex := |ec| + |modPoly| - n;
      ec := ec + [if modIndex >= 0 then modPoly[modIndex] else Num(0)];
    }
    assert ec == seq(n - |modPoly|, _ => Num(0)) + modPoly;
    return Ok(ec);
  }

  // ---------- createBytes ----------

  function EcCount(b: RSBlock): int { b.totalCount - b.dataCount }

  /** Where the data of block k starts. */
  function Offset(rs: seq<RSBlock>, k: nat): nat
    requires k <= |rs|
  {
    if k == 0 then 0 else Offset(rs, k - 1) + rs[k - 1].dataCount
  }

  function Totals(rs: seq<RSBlock>, k: nat): nat
    requires k <= |rs|
  {
    if k == 0 then 0 else Totals(rs, k - 1) + rs[k - 1].totalCount
  }

  /** A byte beyond the end of the buffer is undefined, and 0xff & undefined is 0. */
  function ByteOf(buffer: seq<bv8>, i: nat): bv8 { if i < |buffer| then buffer[i] else 0 }

  function DataBlock(buffer: seq<bv8>, rs: seq<RSBlock>, k: nat): Poly
    requires k < |rs|
  {
    seq(rs[k].dataCount, i requires 0 <= i => Num(ByteOf(buffer, i + Offset(rs, k))))
  }

  function DataBlocks(buffer: seq<bv8>, rs: seq<RSBlock>, n: nat): seq<Poly>
    requires n <= |rs|
  {
    seq(n, k requires 0 <= k < |rs| => DataBlock(buffer, rs, k))
  }

  /** No block is longer than max, and max is 0 or the length of one. */
  ghost predicate IsMax(blocks: seq<Poly>, max: nat) {
    (forall q :: 0 <= q < |blocks| ==> |blocks[q]| <= max)
      && (max == 0 || exists q :: 0 <= q < |blocks| && |blocks[q]| == max)
  }

  ghost predicate BlocksCorrect(buffer: seq<bv8>, rs: seq<RSBlock>, ecs: seq<Poly>, n: nat)
    requires n <= |rs|
  {
    |ecs| == n
      && forall k :: 0 <= k < n ==> EcCount(rs[k]) >= 0 && Corrects(DataBlock(buffer, rs, k), ecs[k], EcCount(rs[k]))
  }

  ghost predicate BlocksEncodable(buffer: seq<bv8>, rs: seq<RSBlock>, n: nat)
    requires n <= |rs|
  {
    forall k :: 0 <= k < n ==> EcCount(rs[k]) >= 0 && Encodable(DataBlock(buffer, rs, k), EcCount(rs[k]))
  }

  /** v is the data blocks and their error correction ecs, each interleaved. */
  ghost predicate CodewordsOf(buffer: seq<bv8>, rs: seq<RSBlock>, v: Poly, ecs: seq<Poly>, maxDc: nat, maxEc: nat) {
    && BlocksCorrect(buffer, rs, ecs, |rs|) && IsMax(DataBlocks(buffer, rs, |rs|), maxDc) && IsMax(ecs, maxEc)
    && v == Columns(DataBlocks(buffer, rs, |rs|), maxDc, 0, 0) + Columns(ecs, maxEc, 0, 0)
    && |v| == Totals(rs, |rs|)
  }

  ghost predicate Codewords(buffer: seq<bv8>, rs: seq<RSBlock>, v: Poly) {
    exists ecs, maxDc, maxEc :: CodewordsOf(buffer, rs, v, ecs, maxDc, maxEc)
  }

  /** The lengths of the blocks are those of the table, so a reader gets all blocks back from the codewords. */
  lemma ReadsBack(buffer: seq<bv8>, rs: seq<RSBlock>, v: Poly, ecs: seq<Poly>, maxDc: nat, maxEc: nat)
    requires CodewordsOf(buffer, rs, v, ecs, maxDc, maxEc) && forall k :: 0 <= k < |rs| ==> EcCount(rs[k]) >= 0
    ensures Deal(DataLens(rs), maxDc, 0, 0, v, seq(|rs|, _ => [])) == DataBlocks(buffer, rs, |rs|)
    ensures |Columns(ecs, maxEc, 0, 0)| <= |v|
    ensures Deal(EcLens(rs), maxEc, 0, 0, v[|v| - |Columns(ecs, maxEc, 0, 0)|..], seq(|rs|, _ => [])) == ecs
  {
    hide Columns, Deal, Corrects;
    BlockLengths(buffer, rs, ecs);
    var data, ec := Columns(DataBlocks(buffer, rs, |rs|), maxDc, 0, 0), Columns(ecs, maxEc, 0, 0);
    assert v[|v| - |ec|..] == ec + [];
    Deinterleave(DataBlocks(buffer, rs, |rs|), DataLens(rs), maxDc, ec);
    Deinterleave(ecs, EcLens(rs), maxEc, []);
  }

  function DataLens(rs: seq<RSBlock>): seq<nat> { seq(|rs|, k requires 0 <= k < |rs| => rs[k].dataCount) }

  function EcLens(rs: seq<RSBlock>): seq<nat>
    requires forall k :: 0 <= k < |rs| ==> EcCount(rs[k]) >= 0
  {
    seq(|rs|, k requires 0 <= k < |rs| => EcCount(rs[k]))
  }

  lemma BlockLengths(buffer: seq<bv8>, rs: seq<RSBlock>, ecs: seq<Poly>)
    requires BlocksCorrect(buffer, rs, ecs, |rs|)
    ensures |DataBlocks(buffer, rs, |rs|)| == |rs|
      && forall k :: 0 <= k < |rs| ==> |DataBlocks(buffer, rs, |rs|)[k]| == rs[k].dataCount
    ensures |ecs| == |rs| && forall k :: 0 <= k < |rs| ==> |ecs[k]| == EcCount(rs[k])
  {
  }

  /** Data and error correction, each interleaved; every block is a codeword. */
  method CreateBytes(math: QRMath, buffer: seq<bv8>, rs: seq<RSBlock>) returns (r: Result<Poly>)
    requires math.Valid() && forall k :: 0 <= k < |rs| ==> rs[k].dataCount <= rs[k].totalCount
    ensures r.Throws? <==> !BlocksEncodable(buffer, rs, |rs|)
    ensures r.Ok? ==> Codewords(buffer, rs, r.v)
    ensures r.Ok? ==> (Received(DataLens(rs), r.v)
      == seq(DataCount(rs), i requires 0 <= i => Num(if i < |buffer| then buffer[i] else 0)))
  {
    hide Encodable, Corrects, Columns, DataBlock, DataBlocks, BlocksCorrect, BlocksEncodable, IsMax, Totals, Received,
      DataCount;
    NoBlocks(buffer, rs);
    var offset: nat, dcMax: nat, ecMax: nat := 0, 0, 0;
    var dcdata: seq<Poly>, ecdata: seq<Poly> := [], [];
    var k := 0;
    while k < |rs|
      invariant k <= |rs| && offset == Offset(rs, k)
      invariant dcdata == DataBlocks(buffer, rs, k) && IsMax(dcdata, dcMax) && IsMax(ecdata, ecMax)
      invariant BlocksCorrect(buffer, rs, ecdata, k) && BlocksEncodable(buffer, rs, k)
    {
      var dcCount: nat, ecCount: nat := rs[k].dataCount, rs[k].totalCount - rs[k].dataCount;
      MaxMore(dcdata, dcMax, dcCount);
      MaxMore(ecdata, ecMax, ecCount);
      dcMax := if dcMax < dcCount then dcCount else dcMax;
      ecMax := if ecMax < ecCount then ecCount else ecMax;
      var dc := ReadBlock(buffer, offset, dcCount);
      BlockIs(buffer, rs, k, dc);
      offset := offset + dcCount;
      var ec := ErrorCorrection(math, dc, ecCount);
      BlocksMore(buffer, rs, ecdata, k, ec);
      if ec.Throws? { return Throws; }
      dcdata, ecdata := dcdata + [dc], ecdata + [ec.v];
      k := k + 1;
    }
    var data := Interleave(dcdata, dcMax);
    var ecPart := Interleave(ecdata, ecMax);
    LengthIs(buffer, rs, ecdata, dcMax, ecMax);
    assert CodewordsOf(buffer, rs, data + ecPart, ecdata, dcMax, ecMax);
    MessageBack(buffer, rs, data + ecPart);
    return Ok(data + ecPart);
  }

  lemma NoBlocks(buffer: seq<bv8>, rs: seq<RSBlock>)
    ensures DataBlocks(buffer, rs, 0) == [] && BlocksCorrect(buffer, rs, [], 0) && BlocksEncodable(buffer, rs, 0)
      && IsMax([], 0)
  {
  }

  lemma BlockIs(buffer: seq<bv8>, rs: seq<RSBlock>, k: nat, dc: Poly)
    requires k < |rs| && dc == seq(rs[k].dataCount, i requires 0 <= i => Num(ByteOf(buffer, i + Offset(rs, k))))
    ensures dc == DataBlock(buffer, rs, k) && |dc| == rs[k].dataCount
    ensures DataBlocks(buffer, rs, k) + [dc] == DataBlocks(buffer, rs, k + 1)
  {
  }

  lemma BlocksMore(buffer: seq<bv8>, rs: seq<RSBlock>, ecs: seq<Poly>, k: nat, ec: Result<Poly>)
    requires k < |rs| && EcCount(rs[k]) >= 0 && BlocksCorrect(buffer, rs, ecs, k) && BlocksEncodable(buffer, rs, k)
    requires ec.Throws? <==> !Encodable(DataBlock(buffer, rs, k), EcCount(rs[k]))
    requires ec.Ok? ==> Corrects(DataBlock(buffer, rs, k), ec.v, EcCount(rs[k]))
    ensures ec.Throws? ==> !BlocksEncodable(buffer, rs, |rs|)
    ensures ec.Ok? ==>
      |ec.v| == EcCount(rs[k]) && BlocksCorrect(buffer, rs, ecs + [ec.v], k + 1) && BlocksEncodable(buffer, rs, k + 1)
  {
    hide Encodable, Corrects, DataBlock;
    if ec.Ok? { CorrectsLength(DataBlock(buffer, rs, k), ec.v, EcCount(rs[k])); }
  }

  lemma CorrectsLength(data: Poly, ec: Poly, n: nat)
    requires Corrects(data, ec, n)
    ensures |ec| == n
  {
  }

  /** The maximum after one more block. */
  lemma MaxMore(blocks: seq<Poly>, max: nat, n: nat)
    requires IsMax(blocks, max)
    ensures forall b: Poly :: |b| == n ==> IsMax(blocks + [b], if max < n then n else max)
  {
    forall b: Poly | |b| == n ensures IsMax(blocks + [b], if max < n then n else max) {
      assert (blocks + [b])[|blocks|] == b;
      if max != 0 {
        var q :| 0 <= q < |blocks| && |blocks[q]| == max;
        assert (blocks + [b])[q] == blocks[q];
      }
    }
  }

  method ReadBlock(buffer: seq<bv8>, offset: nat, n: nat) returns (dc: Poly)
    ensures dc == seq(n, i requires 0 <= i => Num(ByteOf(buffer, i + offset)))
  {
    dc := [];
    while |dc| < n
      invariant |dc| <= n && forall i :: 0 <= i < |dc| ==> dc[i] == Num(ByteOf(buffer, i + offset))
    {
      dc := dc + [Num(ByteOf(buffer, |dc| + offset))];
    }
  }

  /** The two nested loops that interleave. */
  method Interleave(blocks: seq<Poly>, max: nat) returns (data: Poly)
    ensures data == Columns(blocks, max, 0, 0)
  {
    hide Columns;
    data := [];
    var i := 0;
    while i < max
      invariant i <= max && data + Columns(blocks, max, i, 0) == Columns(blocks, max, 0, 0)
    {
      var r := 0;
      while r < |blocks|
        invariant r <= |blocks| && data + Columns(blocks, max, i, r) == Columns(blocks, max, 0, 0)
      {
        ColumnsStep(blocks, max, i, r, []);
        if i < |blocks[r]| {
          Appended(data, blocks[r][i], Columns(blocks, max, i, r), Columns(blocks, max, i, r + 1));
          data := data + [blocks[r][i]];
        } else {
          assert Columns(blocks, max, i, r) + [] == Columns(blocks, max, i, r);
          assert Columns(blocks, max, i, r + 1) + [] == Columns(blocks, max, i, r + 1);
        }
        r := r + 1;
      }
      ColumnsTurn(blocks, max, i);
      i := i + 1;
    }
    ColumnsTurn(blocks, max, i);
    assert data + [] == data;
  }

  lemma Appended(data: Poly, c: Coef, s: Poly, t: Poly)
    requires s + [] == [c] + (t + [])
    ensures data + s == (data + [c]) + t
  {
    assert s + [] == s && t + [] == t;
  }

  lemma {:induction false} AllUndealt(blocks: seq<Poly>, n: nat)
    requires n <= |blocks|
    ensures Undealt(blocks, 0, 0, n) == Lens(blocks, n)
  {
    if n > 0 { AllUndealt(blocks, n - 1); }
  }

  ghost function Lens(blocks: seq<Poly>, n: nat): nat
    requires n <= |blocks|
  {
    if n == 0 then 0 else Lens(blocks, n - 1) + |blocks[n - 1]|
  }

  lemma {:induction false} LensAre(buffer: seq<bv8>, rs: seq<RSBlock>, ecs: seq<Poly>, n: nat)
    requires n <= |rs| && BlocksCorrect(buffer, rs, ecs, |rs|)
    ensures Lens(DataBlocks(buffer, rs, |rs|), n) + Lens(ecs, n) == Totals(rs, n)
  {
    if n > 0 { LensAre(buffer, rs, ecs, n - 1); }
  }

  lemma LengthIs(buffer: seq<bv8>, rs: seq<RSBlock>, ecs: seq<Poly>, maxDc: nat, maxEc: nat)
    requires BlocksCorrect(buffer, rs, ecs, |rs|) && IsMax(DataBlocks(buffer, rs, |rs|), maxDc) && IsMax(ecs, maxEc)
    ensures |Columns(DataBlocks(buffer, rs, |rs|), maxDc, 0, 0) + Columns(ecs, maxEc, 0, 0)| == Totals(rs, |rs|)
  {
    hide Columns, Undealt;
    ColumnsLength(DataBlocks(buffer, rs, |rs|), maxDc, 0, 0);
    ColumnsLength(ecs, maxEc, 0, 0);
    AllUndealt(DataBlocks(buffer, rs, |rs|), |rs|);
    AllUndealt(ecs, |rs|);
    LensAre(buffer, rs, ecs, |rs|);
  }

  // ---------- the blocks joined are the buffer ----------

  /** The bytes of the buffer in that range, 0 beyond its end. */
  function Stretch(buffer: seq<bv8>, from: nat, to: nat): Poly
    requires from <= to
  {
    seq(to - from, i requires 0 <= i => Num(if from + i < |buffer| then buffer[from + i] else 0))
  }

  lemma StretchOn(buffer: seq<bv8>, rs: seq<RSBlock>, k: nat, to: nat)
    requires k < |rs| && Offset(rs, k + 1) <= to
    ensures DataBlock(buffer, rs, k) + Stretch(buffer, Offset(rs, k + 1), to) == Stretch(buffer, Offset(rs, k), to)
  {
    var from, mid := Offset(rs, k), Offset(rs, k + 1);
    forall i | 0 <= i < to - from
      ensures (DataBlock(buffer, rs, k) + Stretch(buffer, mid, to))[i] == Stretch(buffer, from, to)[i]
    {
      if i >= mid - from {
        assert from + i == mid + (i - (mid - from));
      } else {
        assert DataBlock(buffer, rs, k)[i] == Num(ByteOf(buffer, i + from));
        assert i + from == from + i;
      }
    }
  }

  lemma {:induction false} JoinedFrom(buffer: seq<bv8>, rs: seq<RSBlock>, k: nat)
    requires k <= |rs|
    ensures Offset(rs, k) <= Offset(rs, |rs|)
    ensures Joined(DataBlocks(buffer, rs, |rs|)[k..]) == Stretch(buffer, Offset(rs, k), Offset(rs, |rs|))
    decreases |rs| - k
  {
    hide DataBlock;
    if k < |rs| {
      JoinedFrom(buffer, rs, k + 1);
      StretchOn(buffer, rs, k, Offset(rs, |rs|));
      assert DataBlocks(buffer, rs, |rs|)[k..][1..] == DataBlocks(buffer, rs, |rs|)[k + 1..];
    }
  }

  lemma {:induction false} OffsetIs(rs: seq<RSBlock>, k: nat)
    requires k <= |rs|
    ensures Offset(rs, k) == DataCount(rs[..k])
  {
    if k > 0 {
      OffsetIs(rs, k - 1);
      assert rs[..k][..k - 1] == rs[..k - 1];
    }
  }

  lemma {:induction false} MaxOfIs(lens: seq<nat>)
    ensures forall q :: 0 <= q < |lens| ==> lens[q] <= MaxOf(lens)
    ensures MaxOf(lens) == 0 || exists q :: 0 <= q < |lens| && lens[q] == MaxOf(lens)
  {
    if lens != [] {
      MaxOfIs(lens[1..]);
      forall q | 0 <= q < |lens| ensures lens[q] <= MaxOf(lens) {
        if q > 0 { assert lens[1..][q - 1] == lens[q]; }
      }
      if MaxOf(lens) > 0 && MaxOf(lens) != lens[0] {
        var q :| 0 <= q < |lens[1..]| && lens[1..][q] == MaxOf(lens);
        assert lens[q + 1] == MaxOf(lens);
      }
    }
  }

  lemma MaxIs(blocks: seq<Poly>, lens: seq<nat>, max: nat)
    requires IsMax(blocks, max) && Lengths(blocks, lens, max)
    ensures MaxOf(lens) == max
  {
    hide MaxOf;
    MaxOfIs(lens);
    if max > 0 {
      var q :| 0 <= q < |blocks| && |blocks[q]| == max;
      assert lens[q] == max;
    }
  }

  /** The codewords dealt out and joined again are the bytes of the buffer, each once and in their order. */
  lemma MessageBack(buffer: seq<bv8>, rs: seq<RSBlock>, v: Poly)
    requires Codewords(buffer, rs, v) && forall k :: 0 <= k < |rs| ==> EcCount(rs[k]) >= 0
    ensures Received(DataLens(rs), v)
      == seq(DataCount(rs), i requires 0 <= i => Num(if i < |buffer| then buffer[i] else 0))
  {
    hide Columns, Deal, MaxOf, Joined, Corrects, DataBlocks, DataCount, IsMax;
    var ecs, maxDc, maxEc :| CodewordsOf(buffer, rs, v, ecs, maxDc, maxEc);
    ReadsBack(buffer, rs, v, ecs, maxDc, maxEc);
    DataLengths(buffer, rs, maxDc);
    MaxIs(DataBlocks(buffer, rs, |rs|), DataLens(rs), maxDc);
    JoinedFrom(buffer, rs, 0);
    OffsetIs(rs, |rs|);
    assert rs[..|rs|] == rs && DataBlocks(buffer, rs, |rs|)[0..] == DataBlocks(buffer, rs, |rs|);
    assert Stretch(buffer, 0, DataCount(rs))
      == seq(DataCount(rs), i requires 0 <= i => Num(if i < |buffer| then buffer[i] else 0));
  }

  lemma DataLengths(buffer: seq<bv8>, rs: seq<RSBlock>, max: nat)
    requires IsMax(DataBlocks(buffer, rs, |rs|), max)
    ensures Lengths(DataBlocks(buffer, rs, |rs|), DataLens(rs), max)
  {
  }

  // ---------- where a codeword stands ----------

  /** The codewords from column i, block r on are the end of all of them. */
  lemma {:induction false} ColumnsTail(blocks: seq<Poly>, max: nat, i: nat, r: nat)
    requires i < max && r <= |blocks|
    ensures |Columns(blocks, max, i, r)| <= |Columns(blocks, max, 0, 0)|
    ensures Columns(blocks, max, i, r)
      == Columns(blocks, max, 0, 0)[|Columns(blocks, max, 0, 0)| - |Columns(blocks, max, i, r)|..]
    decreases i, r
  {
    hide Columns;
    if r > 0 {
      ColumnsTail(blocks, max, i, r - 1);
      ColumnsNext(blocks, max, i, r - 1);
    } else if i > 0 {
      ColumnsTail(blocks, max, i - 1, |blocks|);
      ColumnsTurn(blocks, max, i - 1);
    }
  }

  /** How many codewords of the first n blocks stand before byte i of block r: of a block before it i + 1,
      of one behind it i, or all it has. */
  function Before(lens: seq<nat>, i: nat, r: nat, n: nat): nat
    requires n <= |lens|
  {
    if n == 0 then 0 else Before(lens, i, r, n - 1) + Min(lens[n - 1], if n - 1 < r then i + 1 else i)
  }

  function Min(a: nat, b: nat): nat { if a < b then a else b }

  lemma {:induction false} BeforeIs(blocks: seq<Poly>, lens: seq<nat>, max: nat, i: nat, r: nat, n: nat)
    requires Lengths(blocks, lens, max) && n <= |blocks|
    ensures Before(lens, i, r, n) + Undealt(blocks, i, r, n) == Undealt(blocks, 0, 0, n)
  {
    if n > 0 { BeforeIs(blocks, lens, max, i, r, n - 1); }
  }

  /** Byte i of block r stands behind the columns before it and the blocks before it in its own column. */
  lemma StandsAt(blocks: seq<Poly>, lens: seq<nat>, max: nat, r: nat, i: nat)
    requires Lengths(blocks, lens, max) && r < |blocks| && i < |blocks[r]|
    ensures Before(lens, i, r, |lens|) < |Columns(blocks, max, 0, 0)|
    ensures Columns(blocks, max, 0, 0)[Before(lens, i, r, |lens|)] == blocks[r][i]
  {
    hide Columns, Undealt, Before;
    ColumnsTail(blocks, max, i, r);
    ColumnsNext(blocks, max, i, r);
    ColumnsLength(blocks, max, i, r);
    ColumnsLength(blocks, max, 0, 0);
    BeforeIs(blocks, lens, max, i, r, |blocks|);
  }

  // ---------- the bit buffer ----------

  /** 0x80 >>> k. */
  function Mask(k: nat): bv8
    requires k < 8
  {
    if k == 0 then 0x80 else if k == 1 then 0x40 else if k == 2 then 0x20 else if k == 3 then 0x10
    else if k == 4 then 8 else if k == 5 then 4 else if k == 6 then 2 else 1
  }

  function BitOf(b: bv8, k: nat): bool
    requires k < 8
  {
    b & Mask(k) != 0
  }

  lemma MaskOr(b: bv8, k: nat, j: nat)
    requires k < 8 && j < 8
    ensures BitOf(b | Mask(k), j) <==> j == k || BitOf(b, j)
    ensures !BitOf(0, j)
  {
  }

  lemma {:induction false} Pow2Positive(n: nat)
    ensures Pow2(n) > 0
  {
    if n > 0 { Pow2Positive(n - 1); }
  }

  /** The n low bits of num, the highest first. */
  function BitsOf(num: nat, n: nat): seq<bool> { seq(n, i requires 0 <= i < n => BitAt(num, n, i)) }

  function BitAt(num: nat, n: nat, i: nat): bool
    requires i < n
  {
    Pow2Positive(n - 1 - i);
    (num / Pow2(n - 1 - i)) % 2 == 1
  }

  function BitIn(buffer: seq<bv8>, i: nat): bool
    requires i < 8 * |buffer|
  {
    BitOf(buffer[i / 8], i % 8)
  }

  lemma PushZero(buffer: seq<bv8>)
    ensures forall i: nat :: i < 8 * |buffer| + 8 ==> (BitIn(buffer + [0], i) <==> i < 8 * |buffer| && BitIn(buffer, i))
  {
    forall i: nat | i < 8 * |buffer| + 8 ensures BitIn(buffer + [0], i) <==> i < 8 * |buffer| && BitIn(buffer, i) {
      MaskOr(0, 0, i % 8);
    }
  }

  /** buffer[n / 8] |= 0x80 >>> n % 8. */
  function WithBit(buffer: seq<bv8>, n: nat): (r: seq<bv8>)
    requires n < 8 * |buffer|
    ensures |r| == |buffer|
  {
    buffer[n / 8 := buffer[n / 8] | Mask(n % 8)]
  }

  lemma SetBitIn(buffer: seq<bv8>, n: nat)
    requires n < 8 * |buffer|
    ensures forall i: nat :: i < 8 * |buffer| ==> (BitIn(WithBit(buffer, n), i) <==> i == n || BitIn(buffer, i))
  {
    hide Mask, BitOf;
    forall i: nat | i < 8 * |buffer| ensures BitIn(WithBit(buffer, n), i) <==> i == n || BitIn(buffer, i) {
      MaskOr(buffer[n / 8], n % 8, i % 8);
    }
  }

  ghost function BitsIn(buffer: seq<bv8>, n: nat): (s: seq<bool>)
    requires n <= 8 * |buffer|
    ensures |s| == n
  {
    seq(n, i requires 0 <= i < n => BitIn(buffer, i))
  }

  class QRBitBuffer {
    var buffer: seq<bv8>
    var length: nat

    /** Just enough bytes, the bits not used yet are 0. */
    ghost predicate Valid()
      reads this
    {
      |buffer| == (length + 7) / 8 && forall i: nat :: length <= i < 8 * |buffer| ==> !BitIn(buffer, i)
    }

    ghost function Bits(): seq<bool>
      reads this
      requires Valid()
    {
      BitsIn(buffer, length)
    }

    constructor ()
      ensures Valid() && Bits() == []
    {
      buffer, length := [], 0;
    }

    method PutBit(bit: bool)
      requires Valid()
      modifies this
      ensures Valid() && Bits() == old(Bits()) + [bit] && length == old(length) + 1
    {
      hide BitIn, Mask;
      ghost var b0, n0 := buffer, length;
      var bufIndex := length / 8;
      PushZero(buffer);
      if |buffer| <= bufIndex { buffer := buffer + [0]; }
      ghost var b1 := buffer;
      assert forall i: nat :: i < 8 * |b1| ==> (BitIn(b1, i) <==> i < n0 && BitIn(b0, i));
      if bit { SetBit(length); }
      assert forall i: nat :: i < 8 * |buffer| ==> (BitIn(buffer, i) <==> (bit && i == n0) || BitIn(b1, i));
      length := length + 1;
      assert BitsIn(buffer, n0 + 1) == BitsIn(b0, n0) + [bit];
    }

    method SetBit(n: nat)
      requires n < 8 * |buffer|
      modifies this`buffer
      ensures |buffer| == |old(buffer)|
        && forall i: nat :: i < 8 * |buffer| ==> (BitIn(buffer, i) <==> i == n || BitIn(old(buffer), i))
    {
      hide BitIn, Mask;
      SetBitIn(buffer, n);
      buffer := buffer[n / 8 := buffer[n / 8] | Mask(n % 8)];
      assert buffer == WithBit(old(buffer), n);
    }

    method Put(num: nat, n: nat)
      requires Valid()
      modifies this
      ensures Valid() && Bits() == old(Bits()) + BitsOf(num, n) && length == old(length) + n
    {
      hide BitAt, BitsIn;
      ghost var bits := Bits();
      var i := 0;
      assert BitsOf(num, n)[..0] == [] && bits + [] == bits;
      while i < n
        invariant i <= n && Valid() && Bits() == bits + BitsOf(num, n)[..i] && length == old(length) + i
      {
        assert bits + BitsOf(num, n)[..i + 1] == bits + BitsOf(num, n)[..i] + [BitAt(num, n, i)];
        PutBit(BitAt(num, n, i));
        i := i + 1;
      }
      assert BitsOf(num, n)[..n] == BitsOf(num, n);
    }

    method Get(index: nat) returns (bit: bool)
      requires Valid() && index < length
      ensures bit == Bits()[index]
    {
      bit := BitOf(buffer[index / 8], index % 8);
    }
  }

  // ---------- createData ----------

  function ByteBits(bytes: seq<nat>): seq<bool> {
    if bytes == [] then [] else ByteBits(bytes[..|bytes| - 1]) + BitsOf(bytes[|bytes| - 1], 8)
  }

  function SegmentBits(s: Segment): seq<bool> {
    BitsOf(s.mode, 4) + BitsOf(|s.bytes|, s.lengthBits) + ByteBits(s.bytes)
  }

  function AllBits(list: seq<Segment>): seq<bool> {
    if list == [] then [] else AllBits(list[..|list| - 1]) + SegmentBits(list[|list| - 1])
  }

  function Falses(n: nat): seq<bool> { seq(n, _ => false) }

  const Pad0 := 0xEC
  const Pad1 := 0x11

  /** n pad bytes, alternating. */
  function PadBytes(n: nat): seq<bool> {
    if n == 0 then [] else PadBytes(n - 1) + BitsOf(if n % 2 == 1 then Pad0 else Pad1, 8)
  }

  lemma {:induction false} PadLength(n: nat)
    ensures |PadBytes(n)| == 8 * n
  {
    if n > 0 { PadLength(n - 1); }
  }

  lemma PadMore(bits: seq<bool>, n: nat)
    ensures bits + PadBytes(n) + BitsOf(if n % 2 == 0 then Pad0 else Pad1, 8) == bits + PadBytes(n + 1)
  {
    hide BitsOf;
  }

  lemma PadNone(bits: seq<bool>)
    ensures bits + PadBytes(0) == bits
  {
  }

  /** Bits from n up to the next byte boundary. */
  function Up(n: nat): nat { if n % 8 == 0 then 0 else 8 - n % 8 }

  lemma UpStep(n: nat)
    ensures (n + Up(n)) % 8 == 0 && (n % 8 == 0 <==> Up(n) == 0)
    ensures n % 8 != 0 ==> Up(n + 1) == Up(n) - 1
  {
    var q, r := n / 8, n % 8;
    assert n == 8 * q + r;
    if r == 0 {
    } else if r == 7 {
      assert n + 1 == 8 * (q + 1) + 0;
    } else {
      assert n + 1 == 8 * q + (r + 1) && n + Up(n) == 8 * (q + 1);
    }
  }

  function Terminator(len: nat, capacity: nat): nat { if len + 4 <= capacity then 4 else 0 }

  /** Terminator and bits up to a byte boundary. */
  function Closing(len: nat, capacity: nat): nat { Terminator(len, capacity) + Up(len + Terminator(len, capacity)) }

  /** The bits of a symbol of so many data bytes: the segments, the terminator,
      zeros to the byte, alternating pad bytes. */
  function Symbol(bits: seq<bool>, bytes: nat): seq<bool>
    requires |bits| <= 8 * bytes
  {
    var closed := bits + Falses(Closing(|bits|, 8 * bytes));
    closed + PadBytes(if |closed| <= 8 * bytes then bytes - |closed| / 8 else 0)
  }

  /** The symbol is full and begins with the segments. */
  lemma SymbolFits(bits: seq<bool>, bytes: nat)
    requires |bits| <= 8 * bytes
    ensures |Symbol(bits, bytes)| == 8 * bytes && Symbol(bits, bytes)[..|bits|] == bits
  {
    hide PadBytes, Up;
    var closed := bits + Falses(Closing(|bits|, 8 * bytes));
    UpStep(|bits| + Terminator(|bits|, 8 * bytes));
    UpInside(|bits| + Terminator(|bits|, 8 * bytes), bytes);
    assert |closed| % 8 == 0 && |closed| <= 8 * bytes;
    PadLength(bytes - |closed| / 8);
  }

  function DataCount(rs: seq<RSBlock>): nat {
    if rs == [] then 0 else DataCount(rs[..|rs| - 1]) + rs[|rs| - 1].dataCount
  }

  /** The bits of these bytes. */
  ghost predicate Carries(bytes: seq<bv8>, bits: seq<bool>) { 8 * |bytes| == |bits| && BitsIn(bytes, |bits|) == bits }

  // ---------- reading the message back ----------

  lemma TopBitIs(b: bv8, k: nat)
    requires k < 8
    ensures BitFromTop(b, k) <==> BitOf(b, k)
  {
    if k < 4 { TopBitLow(b, k); } else { TopBitHigh(b, k); }
  }

  lemma TopBitLow(b: bv8, k: nat)
    requires k < 4
    ensures BitFromTop(b, k) <==> BitOf(b, k)
  {
    if k == 0 {
    } else if k == 1 {
    } else if k == 2 {
    } else {
    }
  }

  lemma TopBitHigh(b: bv8, k: nat)
    requires 4 <= k < 8
    ensures BitFromTop(b, k) <==> BitOf(b, k)
  {
    if k == 4 {
    } else if k == 5 {
    } else if k == 6 {
    } else {
    }
  }

  lemma BitsBack(bytes: seq<bv8>, bits: seq<bool>, p: Poly)
    requires Carries(bytes, bits) && |p| == |bytes| && forall i :: 0 <= i < |p| ==> p[i] == Num(bytes[i])
    ensures MessageBits(p) == bits
  {
    hide BitFromTop, BitOf;
    forall i | 0 <= i < |bits| ensures MessageBits(p)[i] == bits[i] {
      TopBitIs(bytes[i / 8], i % 8);
      assert BitsIn(bytes, |bits|)[i] == BitIn(bytes, i);
    }
  }

  /** num / 2p == (num / 2) / p. */
  lemma HalvesFirst(num: nat, p: nat)
    requires p > 0
    ensures num / (2 * p) == num / 2 / p
  {
    var q, r := num / 2 / p, num / 2 % p;
    assert num / 2 == q * p + r;
    QuotientIs(num, 2 * p, q, 2 * r + num % 2);
  }

  lemma QuotientIs(num: nat, d: nat, q: nat, r: nat)
    requires r < d && num == q * d + r
    ensures num / d == q
  {
    var q1, r1 := num / d, num % d;
    assert num == q1 * d + r1;
    AtLeast(q, r, q1, r1, d);
    AtLeast(q1, r1, q, r, d);
  }

  lemma AtLeast(q: nat, r: nat, q1: nat, r1: nat, d: nat)
    requires r < d && q * d + r == q1 * d + r1
    ensures q1 <= q
  {
    if q < q1 { TimesMore(q, q1, d); }
  }

  lemma TimesMore(a: nat, b: nat, d: nat)
    requires a < b
    ensures a * d + d <= b * d
  {
    var c := b - a - 1;
    assert b * d == (a + 1 + c) * d == a * d + d + c * d;
  }

  lemma BitsOfHalf(num: nat, n: nat)
    requires n > 0
    ensures BitsOf(num, n)[..n - 1] == BitsOf(num / 2, n - 1) && BitsOf(num, n)[n - 1] == (num % 2 == 1)
  {
    forall i | 0 <= i < n - 1 ensures BitAt(num, n, i) == BitAt(num / 2, n - 1, i) {
      Pow2Positive(n - 2 - i);
      HalvesFirst(num, Pow2(n - 2 - i));
    }
  }

  /** A number that fits comes back from its bits. */
  lemma {:induction false} ValueBack(num: nat, n: nat)
    requires num < Pow2(n)
    ensures BitsValue(BitsOf(num, n)) == num
  {
    hide BitAt;
    if n > 0 {
      BitsOfHalf(num, n);
      ValueBack(num / 2, n - 1);
    }
  }

  lemma Pow2Of8()
    ensures Pow2(8) == 256 && Pow2(4) == 16
  {
  }

  lemma {:induction false} ByteBitsAt(bytes: seq<nat>, k: nat)
    requires k < |bytes|
    ensures |ByteBits(bytes)| == 8 * |bytes| && ByteBits(bytes)[8 * k..8 * k + 8] == BitsOf(bytes[k], 8)
  {
    hide BitAt;
    var front := bytes[..|bytes| - 1];
    if front == [] {
      assert ByteBits(front) == [];
    } else {
      ByteBitsAt(front, if k < |front| then k else 0);
    }
  }

  lemma ByteBitsLength(bytes: seq<nat>)
    ensures |ByteBits(bytes)| == 8 * |bytes|
  {
    if bytes != [] { ByteBitsAt(bytes, 0); }
  }

  lemma BytesBack(bytes: seq<nat>, tail: seq<bool>)
    requires forall k :: 0 <= k < |bytes| ==> bytes[k] < 256
    ensures 8 * |bytes| <= |ByteBits(bytes) + tail| && ReadBytes(ByteBits(bytes) + tail, |bytes|) == bytes
  {
    hide ByteBits, BitsOf, BitsValue;
    ByteBitsLength(bytes);
    forall k | 0 <= k < |bytes| ensures BitsValue((ByteBits(bytes) + tail)[8 * k..8 * k + 8]) == bytes[k] {
      ByteBitsAt(bytes, k);
      Pow2Of8();
      ValueBack(bytes[k], 8);
      assert (ByteBits(bytes) + tail)[8 * k..8 * k + 8] == ByteBits(bytes)[8 * k..8 * k + 8];
    }
  }

  lemma {:induction false} FirstSegment(list: seq<Segment>)
    requires list != []
    ensures AllBits(list) == SegmentBits(list[0]) + AllBits(list[1..])
  {
    hide SegmentBits;
    if |list| > 1 {
      FirstSegment(list[..|list| - 1]);
      assert list[..|list| - 1][1..] == list[1..][..|list| - 2];
    } else {
      assert list[..0] == [] && list[1..] == [];
    }
  }

  /** The bits of a segment, item by item. */
  lemma SegmentParts(s: Segment, rest: seq<bool>)
    ensures |SegmentBits(s)| == 4 + s.lengthBits + 8 * |s.bytes|
    ensures (SegmentBits(s) + rest)[..4] == BitsOf(s.mode, 4)
    ensures (SegmentBits(s) + rest)[4..] == BitsOf(|s.bytes|, s.lengthBits) + (ByteBits(s.bytes) + rest)
  {
    hide BitAt, ByteBits;
    ByteBitsLength(s.bytes);
  }

  lemma CountParts(count: seq<bool>, bytes: seq<bool>, rest: seq<bool>)
    ensures (count + (bytes + rest))[..|count|] == count && (count + (bytes + rest))[|count|..] == bytes + rest
    ensures (count + (bytes + rest))[|count| + |bytes|..] == rest
  {
  }

  lemma OneSegmentBack(s: Segment, rest: seq<bool>, lengthBits: nat -> nat)
    requires ReadableOne(s, lengthBits)
    ensures ReadSegments(SegmentBits(s) + rest, lengthBits) == [s] + ReadSegments(rest, lengthBits)
  {
    hide BitAt, ByteBits, SegmentBits, BitsValue, ReadBytes, BitsOf;
    SegmentParts(s, rest);
    Pow2Of8();
    ValueBack(s.mode, 4);
    RestBack(s, rest, lengthBits);
  }

  lemma RestBack(s: Segment, rest: seq<bool>, lengthBits: nat -> nat)
    requires ReadableOne(s, lengthBits)
    ensures ReadRest(s.mode, BitsOf(|s.bytes|, s.lengthBits) + (ByteBits(s.bytes) + rest), lengthBits)
      == [s] + ReadSegments(rest, lengthBits)
  {
    hide BitAt, ByteBits, SegmentBits, BitsValue, ReadBytes, ReadSegments, BitsOf;
    ByteBitsLength(s.bytes);
    BitsOfLength(|s.bytes|, s.lengthBits);
    CountParts(BitsOf(|s.bytes|, s.lengthBits), ByteBits(s.bytes), rest);
    ValueBack(|s.bytes|, s.lengthBits);
    BytesBack(s.bytes, rest);
  }

  lemma BitsOfLength(num: nat, n: nat)
    ensures |BitsOf(num, n)| == n
  {
  }

  /** A reader gets back the segments, with what follows them left to read. */
  lemma {:induction false} SegmentsBack(list: seq<Segment>, rest: seq<bool>, lengthBits: nat -> nat)
    requires Readable(list, lengthBits)
    ensures ReadSegments(AllBits(list) + rest, lengthBits) == list + ReadSegments(rest, lengthBits)
    ensures |AllBits(list)| == MessageLength(list)
  {
    hide SegmentBits, ReadSegments;
    if list == [] {
      assert AllBits(list) + rest == rest && list + ReadSegments(rest, lengthBits) == ReadSegments(rest, lengthBits);
    } else {
      hide AllBits, ReadableOne;
      FirstSegment(list);
      SegmentsBack(list[1..], rest, lengthBits);
      assert AllBits(list) + rest == SegmentBits(list[0]) + (AllBits(list[1..]) + rest);
      SegmentParts(list[0], rest);
      OneSegmentBack(list[0], AllBits(list[1..]) + rest, lengthBits);
      assert [list[0]] + (list[1..] + ReadSegments(rest, lengthBits)) == list + ReadSegments(rest, lengthBits);
    }
  }

  lemma {:induction false} AllLength(list: seq<Segment>)
    ensures |AllBits(list)| == MessageLength(list)
  {
    hide SegmentBits;
    if list != [] {
      hide AllBits;
      FirstSegment(list);
      AllLength(list[1..]);
      SegmentParts(list[0], []);
    } else {
      assert AllBits(list) == [];
    }
  }

  lemma {:induction false} PadByteAt(n: nat, k: nat)
    requires k < n
    ensures |PadBytes(n)| == 8 * n && BitsValue(PadBytes(n)[8 * k..8 * k + 8]) == if k % 2 == 0 then 236 else 17
  {
    hide BitsValue, BitAt;
    PadLength(n);
    PadLength(n - 1);
    if k < n - 1 {
      PadByteAt(n - 1, k);
      assert PadBytes(n)[8 * k..8 * k + 8] == PadBytes(n - 1)[8 * k..8 * k + 8];
    } else {
      Pow2Of8();
      ValueBack(236, 8);
      ValueBack(17, 8);
      assert PadBytes(n)[8 * k..8 * k + 8] == BitsOf(if k % 2 == 0 then Pad0 else Pad1, 8);
    }
  }

  lemma ClosingEnds(len: nat, bytes: nat)
    requires len <= 8 * bytes
    ensures len + Closing(len, 8 * bytes) == 8 * PadStart(len, bytes)
  {
    hide Up;
    var n := len + Terminator(len, 8 * bytes);
    UpTo(n);
    if len + 4 > 8 * bytes { SameByte(len, bytes); }
  }

  lemma UpTo(n: nat)
    ensures n + Up(n) == 8 * ((n + 7) / 8)
  {
  }

  lemma SameByte(len: nat, bytes: nat)
    requires len <= 8 * bytes < len + 4
    ensures (len + 7) / 8 == bytes < (len + 11) / 8
  {
  }

  /** What stands behind the message in a symbol. */
  lemma SymbolPadded(bits: seq<bool>, bytes: nat)
    requires |bits| <= 8 * bytes
    ensures Padded(Symbol(bits, bytes), |bits|, bytes)
  {
    hide PadBytes, Closing, BitsValue;
    var s, len, f := Symbol(bits, bytes), |bits|, PadStart(|bits|, bytes);
    ClosingEnds(len, bytes);
    SymbolFits(bits, bytes);
    var closed := bits + Falses(Closing(len, 8 * bytes));
    assert s == closed + PadBytes(bytes - f);
    forall k | f <= k < bytes ensures BitsValue(s[8 * k..8 * k + 8]) == if (k - f) % 2 == 0 then 236 else 17 {
      PadByteAt(bytes - f, k - f);
      assert s[8 * k..8 * k + 8] == PadBytes(bytes - f)[8 * (k - f)..8 * (k - f) + 8];
    }
  }

  /** A reader finds no segment in the padding. */
  lemma NothingBehind(bits: seq<bool>, bytes: nat, lengthBits: nat -> nat)
    requires |bits| <= 8 * bytes
    ensures ReadSegments(Symbol(bits, bytes)[|bits|..], lengthBits) == []
  {
    var tail := Symbol(bits, bytes)[|bits|..];
    SymbolPadded(bits, bytes);
    SymbolFits(bits, bytes);
    if |tail| >= 4 {
      assert tail[..4] == Falses(4);
      ZeroBits();
      Pow2Positive(4);
      ValueBack(0, 4);
    }
  }

  lemma MessageRead(list: seq<Segment>, bytes: nat, lengthBits: nat -> nat)
    requires |AllBits(list)| <= 8 * bytes && Readable(list, lengthBits)
    ensures ReadSegments(Symbol(AllBits(list), bytes), lengthBits) == list
  {
    hide AllBits, Symbol, ReadSegments, Readable;
    var s, n := Symbol(AllBits(list), bytes), |AllBits(list)|;
    SymbolFits(AllBits(list), bytes);
    assert s == AllBits(list) + s[n..];
    SegmentsBack(list, s[n..], lengthBits);
    NothingBehind(AllBits(list), bytes, lengthBits);
  }

  /** A reader that deals the codewords out gets the segments and, behind them, the padding of section 7.4.10 of
      ISO/IEC 18004:2015. */
  ghost predicate CarriesMessage(rs: seq<RSBlock>, v: Poly, list: seq<Segment>) {
    && Padded(MessageBits(Received(DataLens(rs), v)), MessageLength(list), DataCount(rs))
    && forall lengthBits :: Readable(list, lengthBits) ==>
         ReadSegments(MessageBits(Received(DataLens(rs), v)), lengthBits) == list
  }

  lemma MessageCarried(bytes: seq<bv8>, rs: seq<RSBlock>, v: Poly, list: seq<Segment>)
    requires |AllBits(list)| <= 8 * DataCount(rs) && Carries(bytes, Symbol(AllBits(list), DataCount(rs)))
    requires Received(DataLens(rs), v)
      == seq(DataCount(rs), i requires 0 <= i => Num(if i < |bytes| then bytes[i] else 0))
    ensures CarriesMessage(rs, v, list)
  {
    hide AllBits, Symbol, ReadSegments, Readable, Received, DataCount, BitsIn, Padded;
    SymbolFits(AllBits(list), DataCount(rs));
    BitsBack(bytes, Symbol(AllBits(list), DataCount(rs)), Received(DataLens(rs), v));
    SymbolPadded(AllBits(list), DataCount(rs));
    AllLength(list);
    forall lengthBits | Readable(list, lengthBits)
      ensures ReadSegments(Symbol(AllBits(list), DataCount(rs)), lengthBits) == list
    {
      MessageRead(list, DataCount(rs), lengthBits);
    }
  }

  /** The codewords of a message: throws when it does not fit or cannot be encoded. */
  method CreateData(math: QRMath, rs: seq<RSBlock>, list: seq<Segment>)
    returns (r: Result<Poly>)
    requires math.Valid() && forall k :: 0 <= k < |rs| ==> rs[k].dataCount <= rs[k].totalCount
    ensures |AllBits(list)| > 8 * DataCount(rs) ==> r.Throws?
    ensures |AllBits(list)| <= 8 * DataCount(rs) ==> exists bytes ::
      && Carries(bytes, Symbol(AllBits(list), DataCount(rs)))
      && if BlocksEncodable(bytes, rs, |rs|) then r.Ok? && Codewords(bytes, rs, r.v) else r.Throws?
    ensures r.Ok? ==> CarriesMessage(rs, r.v, list)
  {
    hide BlocksCorrect, BlocksEncodable, Columns, BitsOf, Symbol, Codewords, CarriesMessage, Received, DataLens;
    var buffer := new QRBitBuffer();
    WriteSegments(buffer, list);
    var totalDataCount := 0;
    var k := 0;
    while k < |rs|
      invariant k <= |rs| && totalDataCount == DataCount(rs[..k])
    {
      assert rs[..k + 1][..k] == rs[..k];
      totalDataCount := totalDataCount + rs[k].dataCount;
      k := k + 1;
    }
    assert rs[..|rs|] == rs;
    if buffer.length > totalDataCount * 8 { return Throws; }
    Fill(buffer, totalDataCount);
    SymbolFits(AllBits(list), totalDataCount);
    r := CreateBytes(math, buffer.buffer, rs);
    assert Carries(buffer.buffer, Symbol(AllBits(list), DataCount(rs)));
    if r.Ok? { MessageCarried(buffer.buffer, rs, r.v, list); }
  }

  method WriteSegments(buffer: QRBitBuffer, list: seq<Segment>)
    requires buffer.Valid() && buffer.Bits() == []
    modifies buffer
    ensures buffer.Valid() && buffer.Bits() == AllBits(list)
  {
    hide BitsOf, BitsIn;
    var i := 0;
    while i < |list|
      invariant i <= |list| && buffer.Valid() && buffer.Bits() == AllBits(list[..i])
    {
      ghost var before := buffer.Bits();
      var data := list[i];
      buffer.Put(data.mode, 4);
      buffer.Put(|data.bytes|, data.lengthBits);
      ghost var header := buffer.Bits();
      var k := 0;
      assert data.bytes[..0] == [] && header + [] == header;
      while k < |data.bytes|
        invariant k <= |data.bytes| && buffer.Valid() && buffer.Bits() == header + ByteBits(data.bytes[..k])
      {
        assert data.bytes[..k + 1][..k] == data.bytes[..k];
        Regroup(header, ByteBits(data.bytes[..k]), BitsOf(data.bytes[k], 8), []);
        buffer.Put(data.bytes[k], 8);
        k := k + 1;
      }
      assert data.bytes[..k] == data.bytes && list[..i + 1][..i] == list[..i];
      Regroup(before, BitsOf(data.mode, 4), BitsOf(|data.bytes|, data.lengthBits), ByteBits(data.bytes));
      i := i + 1;
    }
    assert list[..|list|] == list;
  }

  lemma Regroup(a: seq<bool>, b: seq<bool>, c: seq<bool>, d: seq<bool>)
    ensures a + b + c + d == a + (b + c + d) && (a + b) + c == a + (b + c)
  {
  }

  /** Terminator, zeros and pad bytes. */
  method Fill(buffer: QRBitBuffer, totalDataCount: nat)
    requires buffer.Valid() && buffer.length <= totalDataCount * 8
    modifies buffer
    ensures buffer.Valid() && buffer.length == totalDataCount * 8
    ensures buffer.Bits() == Symbol(old(buffer.Bits()), totalDataCount)
  {
    hide BitsOf, PadBytes, BitsIn, BitIn, Symbol, Closing, Up, Falses;
    ghost var bits, len := buffer.Bits(), buffer.length;
    ZeroBits();
    BitsLength(bits, 0);
    if buffer.length + 4 <= totalDataCount * 8 { buffer.Put(0, 4); }
    ByteUp(buffer, bits, len);
    SymbolIs(bits, totalDataCount, len);
    PadUp(buffer, totalDataCount);
  }

  lemma SymbolIs(bits: seq<bool>, bytes: nat, len: nat)
    requires |bits| == len <= 8 * bytes
    ensures (len + Closing(len, 8 * bytes)) % 8 == 0 && len + Closing(len, 8 * bytes) <= 8 * bytes
    ensures Closing(len, 8 * bytes) == Terminator(len, 8 * bytes) + Up(len + Terminator(len, 8 * bytes))
    ensures Symbol(bits, bytes)
      == bits + Falses(Closing(len, 8 * bytes)) + PadBytes(bytes - (len + Closing(len, 8 * bytes)) / 8)
  {
    hide PadBytes, Up;
    UpStep(len + Terminator(len, 8 * bytes));
    BitsLength(bits, Closing(len, 8 * bytes));
    UpInside(len + Terminator(len, 8 * bytes), bytes);
  }

  lemma UpInside(n: nat, bytes: nat)
    requires n <= 8 * bytes
    ensures n + Up(n) <= 8 * bytes
  {
  }

  method ByteUp(buffer: QRBitBuffer, ghost bits: seq<bool>, ghost len: nat)
    requires buffer.Valid() && len <= buffer.length && buffer.Bits() == bits + Falses(buffer.length - len)
    modifies buffer
    ensures buffer.Valid() && buffer.length == old(buffer.length) + Up(old(buffer.length))
    ensures buffer.Bits() == bits + Falses(buffer.length - len)
  {
    hide BitsIn, BitIn, Up;
    UpStep(buffer.length);
    while buffer.length % 8 != 0
      invariant buffer.Valid() && len <= buffer.length && buffer.Bits() == bits + Falses(buffer.length - len)
      invariant buffer.length + Up(buffer.length) == old(buffer.length) + Up(old(buffer.length))
      decreases Up(buffer.length)
    {
      ghost var n: nat := buffer.length - len;
      UpStep(buffer.length);
      UpStep(buffer.length + 1);
      assert Falses(n) + [false] == Falses(n + 1);
      buffer.PutBit(false);
      assert bits + Falses(n) + [false] == bits + Falses(n + 1);
    }
    UpStep(buffer.length);
  }

  lemma BitsLength(bits: seq<bool>, n: nat)
    ensures |bits + Falses(n)| == |bits| + n && bits + Falses(0) == bits
  {
  }

  lemma ZeroBits()
    ensures BitsOf(0, 4) == Falses(4)
  {
    forall i | 0 <= i < 4 ensures !BitAt(0, 4, i) { Pow2Positive(3 - i); }
  }

  method PadUp(buffer: QRBitBuffer, totalDataCount: nat)
    requires buffer.Valid() && buffer.length % 8 == 0 && buffer.length <= totalDataCount * 8
    modifies buffer
    ensures buffer.Valid() && buffer.length == totalDataCount * 8
    ensures buffer.Bits() == old(buffer.Bits()) + PadBytes(totalDataCount - old(buffer.length) / 8)
  {
    hide BitsOf, BitsIn, BitIn, PadBytes, QRBitBuffer.Valid, QRBitBuffer.Bits;
    ghost var bits, n := buffer.Bits(), 0;
    PadNone(bits);
    while true
      invariant buffer.Valid() && n % 2 == 0 && buffer.length == old(buffer.length) + 8 * n <= totalDataCount * 8
      invariant buffer.Bits() == bits + PadBytes(n)
      decreases totalDataCount * 8 - buffer.length
    {
      if buffer.length >= totalDataCount * 8 { break; }
      buffer.Put(Pad0, 8);
      n := n + 1;
      PadMore(bits, n - 1);
      if buffer.length >= totalDataCount * 8 { break; }
      buffer.Put(Pad1, 8);
      n := n + 1;
      PadMore(bits, n - 1);
    }
  }
}
