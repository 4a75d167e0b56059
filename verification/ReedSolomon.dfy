/** QRMath, QRPolynomial and the generator polynomials of
    smurfs/src/main/resources/static/lib/qrcode/qrcode.js. */
module ReedSolomon {
  import opened Galois

  /** What a slot of a JavaScript array of coefficients holds; a slot never stored to is undefined. */
  datatype Coef = Undef | Num(b: bv8)

  /** A call that may throw. */
  datatype Result<T> = Throws | Ok(v: T)

  type Poly = seq<Coef>

  /** The value in arithmetic: undefined ^ x is x. */
  function V(c: Coef): bv8 { if c.Undef? then 0 else c.b }

  /** The value at a^r; the first coefficient is the highest. */
  ghost function Eval(p: Poly, r: nat): bv8 {
    if p == [] then 0 else Add(Times(r, Eval(p[..|p| - 1], r)), V(p[|p| - 1]))
  }

  /** b times x^n at x = a^r. */
  ghost function Shifted(r: nat, n: nat, b: bv8): bv8 { if n == 0 then b else Times(r, Shifted(r, n - 1, b)) }

  lemma {:induction false} ShiftedZero(r: nat, n: nat)
    ensures Shifted(r, n, 0) == 0
  {
    if n > 0 {
      ShiftedZero(r, n - 1);
      TimesZero(r);
    }
  }

  lemma {:induction false} EvalAppend(p: Poly, q: Poly, r: nat)
    ensures Eval(p + q, r) == Add(Shifted(r, |q|, Eval(p, r)), Eval(q, r))
    decreases |q|
  {
    hide Times, Add;
    AddRules(Eval(p, r), 0, 0, 0);
    if q == [] {
      assert p + q == p;
    } else {
      var q' := q[..|q| - 1];
      assert (p + q)[..|p + q| - 1] == p + q';
      EvalAppend(p, q', r);
      TimesAdd(r, Shifted(r, |q'|, Eval(p, r)), Eval(q', r));
      AddRules(Times(r, Shifted(r, |q'|, Eval(p, r))), Times(r, Eval(q', r)), V(q[|q| - 1]), 0);
    }
  }

  /** A sum of polynomials of the same length. */
  ghost predicate IsSum(s: Poly, p: Poly, q: Poly) {
    |s| == |p| == |q| && forall i :: 0 <= i < |s| ==> V(s[i]) == Add(V(p[i]), V(q[i]))
  }

  lemma {:induction false} EvalSum(s: Poly, p: Poly, q: Poly, r: nat)
    requires IsSum(s, p, q)
    ensures Eval(s, r) == Add(Eval(p, r), Eval(q, r))
    decreases |s|
  {
    hide Times, Add;
    AddRules(0, 0, 0, 0);
    if s != [] {
      var n := |s| - 1;
      EvalSum(s[..n], p[..n], q[..n], r);
      TimesAdd(r, Eval(p[..n], r), Eval(q[..n], r));
      AddRules(Times(r, Eval(p[..n], r)), Times(r, Eval(q[..n], r)), V(p[n]), V(q[n]));
    }
  }

  /** A multiple of a polynomial. */
  ghost predicate IsMultiple(s: Poly, f: bv8, p: Poly) {
    |s| == |p| && forall i :: 0 <= i < |s| ==> V(s[i]) == Mul(f, V(p[i]))
  }

  lemma {:induction false} EvalMultiple(s: Poly, f: bv8, p: Poly, r: nat)
    requires IsMultiple(s, f, p)
    ensures Eval(s, r) == Mul(f, Eval(p, r))
    decreases |s|
  {
    hide Times, Mul, Add;
    if s == [] {
      MulZero(f);
    } else {
      var n := |s| - 1;
      EvalMultiple(s[..n], f, p[..n], r);
      MulTimes(f, r, Eval(p[..n], r));
      MulAdd(f, Times(r, Eval(p[..n], r)), V(p[n]));
    }
  }

  ghost predicate AllZero(p: Poly) { forall i :: 0 <= i < |p| ==> V(p[i]) == 0 }

  lemma {:induction false} EvalZero(p: Poly, r: nat)
    requires AllZero(p)
    ensures Eval(p, r) == 0
    decreases |p|
  {
    hide Times, Add;
    AddRules(0, 0, 0, 0);
    if p != [] {
      EvalZero(p[..|p| - 1], r);
      TimesZero(r);
    }
  }

  /** Leading coefficients of value 0 do not matter. */
  lemma EvalStripped(z: Poly, p: Poly, r: nat)
    requires AllZero(z)
    ensures Eval(z + p, r) == Eval(p, r)
  {
    hide Add;
    EvalAppend(z, p, r);
    EvalZero(z, r);
    ShiftedZero(r, |p|);
    AddRules(Eval(p, r), 0, 0, 0);
  }

  // ---------- QRMath ----------

  class QRMath {
    const exp: array<bv8>
    const log: array<int>

    /** EXP_TABLE[i] is a^i; LOG_TABLE[b] is the exponent of b, and -1, undefined, for 0. */
    ghost predicate Valid()
      reads exp, log
    {
      && exp.Length == 256 && log.Length == 256
      && (forall i :: 0 <= i < 256 ==> exp[i] == Exp(i))
      && (forall b: bv8 :: b != 0 ==> 0 <= log[b] < 255 && Exp(log[b]) == b)
    }

    constructor ()
      ensures Valid() && fresh(exp) && fresh(log)
    {
      exp := new bv8[256];
      log := new int[256](_ => -1);
      new;
      hide Exp;
      SmallPowers();
      var bit: bv8 := 1;
      var i := 0;
      while i < 8
        invariant i <= 8 && (i < 8 ==> bit == Exp(i)) && forall k :: 0 <= k < i ==> exp[k] == Exp(k)
      {
        exp[i] := bit;
        bit := bit << 1;
        i := i + 1;
        assert i < 8 ==> bit == Exp(i) by {
          assert i == 1 || i == 2 || i == 3 || i == 4 || i == 5 || i == 6 || i == 7 || i == 8;
        }
      }
      while i < 256
        invariant 8 <= i <= 256 && forall k :: 0 <= k < i ==> exp[k] == Exp(k)
      {
        Recurrence(i);
        exp[i] := Add(Add(Add(exp[i - 4], exp[i - 5]), exp[i - 6]), exp[i - 8]);
        i := i + 1;
      }
      FillLog();
    }

    method FillLog()
      requires exp.Length == 256 && log.Length == 256 && (exp as object) != log
        && forall i :: 0 <= i < 256 ==> exp[i] == Exp(i)
      modifies log
      ensures Valid()
    {
      hide Exp;
      var i := 0;
      while i < 255
        invariant i <= 255 && forall k :: 0 <= k < i ==> log[Exp(k)] == k
      {
        forall k | 0 <= k < i ensures Exp(k) as int != exp[i] as int {
          if Exp(k) as int == exp[i] as int {
            SameByte(Exp(k), exp[i]);
            ExpInjective(k, i);
          }
        }
        log[exp[i]] := i;
        i := i + 1;
      }
      forall b: bv8 | b != 0 ensures 0 <= log[b] < 255 && Exp(log[b]) == b {
        LogExists(b);
        var k :| 0 <= k < 255 && Exp(k) == b;
        assert log[Exp(k)] == k;
      }
    }

    /** Throws for 0. */
    method Glog(n: bv8) returns (r: Result<nat>)
      requires Valid()
      ensures r == if n == 0 then Throws else Ok(Log(n))
    {
      hide Exp;
      if n < 1 { return Throws; }
      ExpInjective(log[n], Log(n));
      return Ok(log[n]);
    }

    method Gexp(n0: int) returns (b: bv8)
      requires Valid()
      ensures b == Exp(n0 % 255)
    {
      hide Exp;
      var n := n0;
      while n < 0
        invariant n % 255 == n0 % 255
      {
        n := n + 255;
      }
      while n >= 256
        invariant n >= 0 && n % 255 == n0 % 255
      {
        n := n - 255;
      }
      ExpMod(n);
      return exp[n];
    }
  }

  // ---------- QRPolynomial ----------

  /** The coefficients without leading zeros. */
  function Stripped(num: Poly): (p: Poly)
    ensures p == [] || p[0] != Num(0)
  {
    if num != [] && num[0] == Num(0) then Stripped(num[1..]) else num
  }

  function Blank(n: nat): Poly { seq(n, _ => Undef) }

  ghost predicate NoZero(p: Poly) { forall i :: 0 <= i < |p| ==> p[i] != Num(0) }

  lemma {:induction false} StrippedAt(num: Poly, k: nat)
    requires k <= |num| && (forall i :: 0 <= i < k ==> num[i] == Num(0)) && (k < |num| ==> num[k] != Num(0))
    ensures Stripped(num) == num[k..]
  {
    if k > 0 { StrippedAt(num[1..], k - 1); }
  }

  lemma {:induction false} StrippedEval(num: Poly, r: nat)
    ensures Eval(Stripped(num), r) == Eval(num, r)
    ensures |Stripped(num)| <= |num|
  {
    if num != [] && num[0] == Num(0) {
      StrippedEval(num[1..], r);
      assert num == [num[0]] + num[1..];
      EvalStripped([num[0]], num[1..], r);
    }
  }

  /** The constructor: leading zeros are dropped, shift slots are left undefined at the end. */
  method NewPolynomial(num: Poly, shift: nat) returns (p: Poly)
    ensures p == Stripped(num) + Blank(shift)
  {
    var offset := 0;
    while offset < |num| && num[offset] == Num(0)
      invariant offset <= |num| && forall i :: 0 <= i < offset ==> num[i] == Num(0)
    {
      offset := offset + 1;
    }
    StrippedAt(num, offset);
    p := Blank(|num| - offset + shift);
    var i := 0;
    while i < |num| - offset
      invariant i <= |num| - offset && |p| == |num| - offset + shift
      invariant p == num[offset..offset + i] + Blank(|p| - i)
    {
      p := p[i := num[i + offset]];
      i := i + 1;
    }
  }

  /** gexp(glog(c) + glog(d)): undefined counts as 0, a stored 0 throws. */
  method Product(math: QRMath, c: Coef, d: Coef) returns (r: Result<bv8>)
    requires math.Valid()
    ensures r == if c == Num(0) || d == Num(0) then Throws else Ok(Mul(V(c), V(d)))
  {
    hide Exp, Times;
    MulZero(V(c));
    MulZero(V(d));
    var sum := 0;
    if c.Num? {
      var l := math.Glog(c.b);
      if l.Throws? { return Throws; }
      sum := sum + l.v;
    }
    if d.Num? {
      var l := math.Glog(d.b);
      if l.Throws? { return Throws; }
      sum := sum + l.v;
    }
    if c.Undef? || d.Undef? { return Ok(0); }
    var b := math.Gexp(sum);
    ExpMod(sum);
    ExpTwice(Log(c.b), Log(d.b));
    return Ok(b);
  }

  /** The share of coefficient i of p in coefficient k of the product, using e up to j. */
  ghost function Share(p: Poly, e: Poly, i: nat, j: nat, k: nat): bv8
    requires i < |p| && j <= |e|
  {
    if i <= k < i + j then Mul(V(p[i]), V(e[k - i])) else 0
  }

  /** Coefficient k of the product of the first i coefficients of p with e. */
  ghost function Conv(p: Poly, e: Poly, i: nat, k: nat): bv8
    requires i <= |p|
  {
    if i == 0 then 0 else Add(Conv(p, e, i - 1, k), Share(p, e, i - 1, |e|, k))
  }

  method Multiply(math: QRMath, p: Poly, e: Poly) returns (r: Result<Poly>)
    requires math.Valid()
    ensures r.Throws? <==> |p| + |e| == 0 || (p != [] && e != [] && !(NoZero(p) && NoZero(e)))
    ensures r.Ok? && p != [] && e != [] ==> r.v == Stripped(ProductOf(p, e))
  {
    hide Mul;
    if |p| + |e| == 0 { return Throws; }
    var n := |p| + |e| - 1;
    var num := Blank(n);
    var i := 0;
    while i < |p|
      invariant i <= |p| && |num| == n && RowsDone(p, e, i, 0, num)
      invariant i > 0 && e != [] ==> NoZero(e) && NoZero(p[..i])
    {
      var j := 0;
      while j < |e|
        invariant j <= |e| && |num| == n && RowsDone(p, e, i, j, num)
        invariant j > 0 ==> p[i] != Num(0) && NoZero(e[..j])
      {
        var x := Product(math, p[i], e[j]);
        if x.Throws? { return Throws; }
        StoreDone(p, e, i, j, num);
        num := num[i + j := Num(Add(V(num[i + j]), x.v))];
        j := j + 1;
      }
      assert e[..|e|] == e;
      RowDone(p, e, i, num);
      i := i + 1;
    }
    assert p[..|p|] == p;
    if p != [] && e != [] { AllDone(p, e, num); }
    num := NewPolynomial(num, 0);
    assert Blank(0) == [] && num + [] == num;
    return Ok(num);
  }

  /** num after i rows of the product and j steps of the next. */
  ghost predicate RowsDone(p: Poly, e: Poly, i: nat, j: nat, num: Poly)
  {
    && i <= |p| && j <= |e| && (j > 0 ==> i < |p|)
    && (forall k :: 0 <= k < |num| ==> V(num[k]) == Add(Conv(p, e, i, k), if i < |p| then Share(p, e, i, j, k) else 0))
    && (forall k :: 0 <= k < |num| && e != [] && (k < i + j || (i > 0 && k < i - 1 + |e|)) ==> num[k].Num?)
  }

  lemma StoreDone(p: Poly, e: Poly, i: nat, j: nat, num: Poly)
    requires i < |p| && j < |e| && |num| == |p| + |e| - 1 && RowsDone(p, e, i, j, num)
    ensures RowsDone(p, e, i, j + 1, num[i + j := Num(Add(V(num[i + j]), Mul(V(p[i]), V(e[j]))))])
  {
    hide Add, Mul, Conv;
    forall k: nat ensures Add(Conv(p, e, i, k), 0) == Conv(p, e, i, k) { AddRules(Conv(p, e, i, k), 0, 0, 0); }
  }

  lemma RowDone(p: Poly, e: Poly, i: nat, num: Poly)
    requires i < |p| && RowsDone(p, e, i, |e|, num)
    ensures RowsDone(p, e, i + 1, 0, num)
  {
    hide Add, Mul;
    var n := i + 1;
    forall k: nat ensures Add(Conv(p, e, n, k), 0) == Conv(p, e, n, k) { AddRules(Conv(p, e, n, k), 0, 0, 0); }
  }

  /** The product, with leading zeros if it has any. */
  ghost function ProductOf(p: Poly, e: Poly): Poly
    requires p != [] && e != []
  {
    seq(|p| + |e| - 1, k requires 0 <= k => Num(Conv(p, e, |p|, k)))
  }

  lemma AllDone(p: Poly, e: Poly, num: Poly)
    requires p != [] && e != [] && |num| == |p| + |e| - 1 && RowsDone(p, e, |p|, 0, num)
    ensures num == ProductOf(p, e)
  {
    hide Add, Conv;
    forall k: nat ensures Add(Conv(p, e, |p|, k), 0) == Conv(p, e, |p|, k) { AddRules(Conv(p, e, |p|, k), 0, 0, 0); }
  }

  // ---------- the product as a polynomial ----------

  ghost function ConvSeq(p: Poly, e: Poly, i: nat): Poly
    requires p != [] && e != [] && i <= |p|
  {
    seq(|p| + |e| - 1, k requires 0 <= k => Num(Conv(p, e, i, k)))
  }

  /** Row i of the product: e times coefficient i of p, in its place. */
  ghost function RowSeq(p: Poly, e: Poly, i: nat): Poly
    requires e != [] && i < |p|
  {
    Blank(i) + seq(|e|, k requires 0 <= k < |e| => Num(Mul(V(p[i]), V(e[k])))) + Blank(|p| - 1 - i)
  }

  /** The first i coefficients of p, the others 0. */
  function Front(p: Poly, i: nat): Poly
    requires i <= |p|
  {
    p[..i] + Blank(|p| - i)
  }

  lemma {:induction false} ShiftedMul(r: nat, n: nat, b: bv8, c: bv8)
    ensures Shifted(r, n, Mul(b, c)) == Mul(Shifted(r, n, b), c)
  {
    hide Mul, Times;
    if n > 0 {
      ShiftedMul(r, n - 1, b, c);
      MulSwap(Shifted(r, n - 1, b), c);
      MulSwap(Shifted(r, n, b), c);
      MulTimes(c, r, Shifted(r, n - 1, b));
    }
  }

  lemma RowEval(p: Poly, e: Poly, i: nat, r: nat)
    requires e != [] && i < |p|
    ensures Eval(RowSeq(p, e, i), r) == Shifted(r, |p| - 1 - i, Mul(V(p[i]), Eval(e, r)))
  {
    hide Eval, Shifted, Mul, Add;
    var m := seq(|e|, k requires 0 <= k < |e| => Num(Mul(V(p[i]), V(e[k]))));
    EvalStripped(Blank(i), m + Blank(|p| - 1 - i), r);
    assert RowSeq(p, e, i) == Blank(i) + (m + Blank(|p| - 1 - i));
    EvalAppend(m, Blank(|p| - 1 - i), r);
    EvalZero(Blank(|p| - 1 - i), r);
    EvalMultiple(m, V(p[i]), e, r);
    AddRules(Shifted(r, |p| - 1 - i, Eval(m, r)), 0, 0, 0);
  }

  lemma FrontEval(p: Poly, i: nat, r: nat)
    requires i < |p|
    ensures Eval(Front(p, i + 1), r) == Add(Eval(Front(p, i), r), Shifted(r, |p| - 1 - i, V(p[i])))
  {
    hide Eval, Shifted, Add;
    var one := Blank(i) + [p[i]] + Blank(|p| - 1 - i);
    forall k | 0 <= k < |p| ensures V(Front(p, i + 1)[k]) == Add(V(Front(p, i)[k]), V(one[k])) {
      AddRules(V(Front(p, i)[k]), 0, 0, 0);
      AddRules(V(one[k]), 0, 0, 0);
    }
    EvalSum(Front(p, i + 1), Front(p, i), one, r);
    assert one == Blank(i) + ([p[i]] + Blank(|p| - 1 - i));
    EvalStripped(Blank(i), [p[i]] + Blank(|p| - 1 - i), r);
    EvalAppend([p[i]], Blank(|p| - 1 - i), r);
    EvalZero(Blank(|p| - 1 - i), r);
    AddRules(Shifted(r, |p| - 1 - i, V(p[i])), 0, 0, 0);
    EvalOne(p[i], r);
  }

  lemma EvalOne(c: Coef, r: nat)
    ensures Eval([c], r) == V(c)
  {
    TimesZero(r);
    assert Eval([], r) == 0;
    assert [c][..0] == [];
    AddRules(V(c), 0, 0, 0);
  }

  lemma {:induction false} ConvEval(p: Poly, e: Poly, i: nat, r: nat)
    requires p != [] && e != [] && i <= |p|
    ensures Eval(ConvSeq(p, e, i), r) == Mul(Eval(Front(p, i), r), Eval(e, r))
  {
    hide Eval, Shifted, Mul, Add;
    if i == 0 {
      EvalZero(ConvSeq(p, e, 0), r);
      EvalZero(Front(p, 0), r);
      MulZero(Eval(e, r));
    } else {
      ConvEval(p, e, i - 1, r);
      RowSum(p, e, i - 1);
      EvalSum(ConvSeq(p, e, i), ConvSeq(p, e, i - 1), RowSeq(p, e, i - 1), r);
      RowEval(p, e, i - 1, r);
      ShiftedMul(r, |p| - i, V(p[i - 1]), Eval(e, r));
      FrontEval(p, i - 1, r);
      MulAddLeft(Eval(Front(p, i - 1), r), Shifted(r, |p| - i, V(p[i - 1])), Eval(e, r));
    }
  }

  lemma RowSum(p: Poly, e: Poly, i: nat)
    requires p != [] && e != [] && i < |p|
    ensures IsSum(ConvSeq(p, e, i + 1), ConvSeq(p, e, i), RowSeq(p, e, i))
  {
    hide Mul, Add;
    var s, t, u := ConvSeq(p, e, i + 1), ConvSeq(p, e, i), RowSeq(p, e, i);
    forall k | 0 <= k < |s| ensures V(s[k]) == Add(V(t[k]), V(u[k])) {
      assert V(u[k]) == Share(p, e, i, |e|, k);
    }
  }

  lemma MulAddLeft(b: bv8, c: bv8, d: bv8)
    ensures Mul(Add(b, c), d) == Add(Mul(b, d), Mul(c, d))
  {
    hide Mul, Add;
    MulAdd(d, b, c);
    MulSwap(d, b);
    MulSwap(d, c);
    MulSwap(d, Add(b, c));
  }

  /** The value of a product is the product of the values. */
  lemma ProductEval(p: Poly, e: Poly, r: nat)
    requires p != [] && e != []
    ensures Eval(Stripped(ProductOf(p, e)), r) == Mul(Eval(p, r), Eval(e, r))
  {
    hide Eval;
    ConvEval(p, e, |p|, r);
    assert Front(p, |p|) == p;
    StrippedEval(ProductOf(p, e), r);
  }

  // ---------- the generator ----------

  lemma {:induction false} LeadCoef(p: Poly, e: Poly, i: nat)
    requires e != [] && 1 <= i <= |p|
    ensures Conv(p, e, i, 0) == Mul(V(p[0]), V(e[0]))
  {
    hide Mul, Add;
    AddRules(Mul(V(p[0]), V(e[0])), 0, 0, 0);
    if i > 1 { LeadCoef(p, e, i - 1); }
  }

  lemma GenLeads(p: Poly, b: bv8)
    requires p != [] && p[0] == Num(1)
    ensures ProductOf(p, [Num(1), Num(b)])[0] == Num(1)
    ensures Stripped(ProductOf(p, [Num(1), Num(b)])) == ProductOf(p, [Num(1), Num(b)])
  {
    LeadCoef(p, [Num(1), Num(b)], |p|);
    MulOne(1);
  }

  /** The product of (x + a^i) for i < n. */
  ghost function Gen(n: nat): (p: Poly)
    ensures p != [] && p[0] == Num(1) && |p| == n + 1
  {
    if n == 0 then [Num(1)] else
      GenLeads(Gen(n - 1), Exp(n - 1));
      ProductOf(Gen(n - 1), [Num(1), Num(Exp(n - 1))])
  }

  /** a^i is a root for i < n. */
  lemma {:induction false} GenRoots(n: nat, i: nat)
    requires i < n
    ensures Eval(Gen(n), i) == 0
  {
    hide Exp;
    var e := [Num(1), Num(Exp(n - 1))];
    ProductEval(Gen(n - 1), e, i);
    GenLeads(Gen(n - 1), Exp(n - 1));
    if i < n - 1 {
      GenRoots(n - 1, i);
    } else {
      LinearRoot(i);
      MulZero(Eval(Gen(n - 1), i));
    }
    MulZero(Eval(e, i));
  }

  lemma LinearRoot(i: nat)
    ensures Eval([Num(1), Num(Exp(i))], i) == 0
  {
    EvalOne(Num(1), i);
    assert [Num(1), Num(Exp(i))][..1] == [Num(1)];
    AddRules(Exp(i), 0, 0, 0);
  }

  /** The generator of degree n can be built: no generator on the way has a coefficient 0. */
  ghost predicate Buildable(n: nat) { forall k :: 0 <= k < n ==> NoZero(Gen(k)) }

  method GetErrorCorrectPolynomial(math: QRMath, n: nat) returns (r: Result<Poly>)
    requires math.Valid()
    ensures r == if Buildable(n) then Ok(Gen(n)) else Throws
  {
    hide Exp, ProductOf;
    var a := [Num(1)];
    var i := 0;
    while i < n
      invariant i <= n && a == Gen(i) && Buildable(i)
    {
      var g := math.Gexp(i);
      ExpMod(i);
      ExpNonzero(i);
      GenLeads(a, g);
      var m := Multiply(math, a, [Num(1), Num(g)]);
      if m.Throws? { return Throws; }
      a := m.v;
      i := i + 1;
    }
    return Ok(a);
  }

  // ---------- the remainder ----------

  lemma Quotient(b: bv8, c: bv8, ratio: int)
    requires b != 0 && c != 0 && ratio == Log(b) - Log(c)
    ensures Mul(Exp(ratio % 255), c) == b
  {
    hide Exp, Times, Mul;
    MulExp(ratio % 255, c);
    ExpTwice(ratio % 255, Log(c));
    ExpMod(ratio % 255 + Log(c));
  }

  lemma Scaled(ratio: int, c: bv8, f: bv8)
    requires c != 0 && f == Exp(ratio % 255)
    ensures Exp((Log(c) + ratio) % 255) == Mul(f, c)
  {
    hide Exp, Times, Mul;
    MulExp(ratio % 255, c);
    ExpTwice(ratio % 255, Log(c));
    ExpMod(ratio % 255 + Log(c));
    ModSum(ratio, Log(c));
  }

  lemma ModSum(a: int, b: int)
    ensures (b + a) % 255 == (a % 255 + b) % 255
  {
    assert b + a == 255 * (a / 255) + (a % 255 + b);
  }

  /** e times f, shifted up and added to p. */
  ghost function Reduced(p: Poly, e: Poly, f: bv8): Poly {
    seq(|p|, k requires 0 <= k < |p| => if k < |e| then Num(Add(V(p[k]), Mul(f, V(e[k])))) else p[k])
  }

  lemma ReducedSum(p: Poly, e: Poly, f: bv8)
    requires |p| >= |e|
    ensures IsSum(Reduced(p, e, f), p, seq(|e|, k requires 0 <= k < |e| => Num(Mul(f, V(e[k])))) + Blank(|p| - |e|))
  {
    hide Mul, Add;
    forall k | 0 <= k < |p| ensures Add(V(p[k]), 0) == V(p[k]) { AddRules(V(p[k]), 0, 0, 0); }
  }

  /** One step of mod does not change the value at a root of e. */
  lemma ReducedEval(p: Poly, e: Poly, f: bv8, x: nat)
    requires |p| >= |e| && Eval(e, x) == 0
    ensures Eval(Reduced(p, e, f), x) == Eval(p, x)
  {
    hide Mul, Add, Eval, Shifted, Reduced;
    var m := seq(|e|, k requires 0 <= k < |e| => Num(Mul(f, V(e[k]))));
    ReducedSum(p, e, f);
    EvalSum(Reduced(p, e, f), p, m + Blank(|p| - |e|), x);
    EvalAppend(m, Blank(|p| - |e|), x);
    EvalMultiple(m, f, e, x);
    MulZero(f);
    ShiftedZero(x, |p| - |e|);
    EvalZero(Blank(|p| - |e|), x);
    AddRules(Eval(p, x), 0, 0, 0);
  }

  lemma FirstGone(c: Coef, d: Coef, f: bv8)
    requires if c.Num? then Mul(f, V(d)) == c.b else f == 0
    ensures Add(V(c), Mul(f, V(d))) == 0
  {
    hide Mul;
    MulZero(V(d));
    AddRules(V(c), 0, 0, 0);
  }

  lemma StripsFirst(num: Poly)
    requires num != [] && num[0] == Num(0)
    ensures |Stripped(num)| < |num|
  {
    StrippedEval(num[1..], 0);
  }

  /** Takes multiples of e away until the rest is shorter than e. */
  method Mod(math: QRMath, p: Poly, e: Poly) returns (r: Result<Poly>)
    requires math.Valid() && e != [] && e[0].Num? && e[0].b != 0 && (p == [] || p[0] != Num(0))
    ensures r.Throws? <==> |p| >= |e| && !NoZero(e)
    ensures r.Ok? ==> |r.v| < |e| && (|p| < |e| ==> r.v == p)
    ensures r.Ok? ==> forall x: nat :: Eval(e, x) == 0 ==> Eval(r.v, x) == Eval(p, x)
    decreases |p|
  {
    hide Exp, Times, Mul, Add, Eval, Reduced;
    if |p| < |e| { return Ok(p); }
    var ratio := 0;
    ghost var f: bv8 := 0;
    if p[0].Num? {
      var l0 := math.Glog(p[0].b);
      var l1 := math.Glog(e[0].b);
      ratio := l0.v - l1.v;
      f := Exp(ratio % 255);
      Quotient(p[0].b, e[0].b, ratio);
    }
    var num := Reduce(math, p, e, ratio, f);
    if num.Throws? { return Throws; }
    FirstOut(p, e, f);
    var next := NewPolynomial(num.v, 0);
    assert next == Stripped(num.v);
    forall x: nat | Eval(e, x) == 0 ensures Eval(next, x) == Eval(p, x) {
      StrippedEval(num.v, x);
      ReducedEval(p, e, f, x);
    }
    r := Mod(math, next, e);
  }

  /** num[i] ^= gexp(glog(e[i]) + ratio); an undefined first coefficient makes the ratio NaN, which adds nothing. */
  method Reduce(math: QRMath, p: Poly, e: Poly, ratio: int, ghost f: bv8) returns (r: Result<Poly>)
    requires math.Valid() && 0 < |e| <= |p| && f == if p[0].Num? then Exp(ratio % 255) else 0
    ensures r == if NoZero(e) then Ok(Reduced(p, e, f)) else Throws
  {
    hide Exp, Times, Mul, Add;
    var num := p;
    var i := 0;
    while i < |e|
      invariant i <= |e| && |num| == |p| && NoZero(e[..i])
      invariant forall k :: 0 <= k < |p| ==> num[k] == if k < i then Num(Add(V(p[k]), Mul(f, V(e[k])))) else p[k]
    {
      var x: bv8 := 0;
      if e[i].Num? {
        var l := math.Glog(e[i].b);
        if l.Throws? { return Throws; }
        if p[0].Num? {
          x := math.Gexp(l.v + ratio);
          Scaled(ratio, e[i].b, f);
        }
      }
      MulZero(f);
      MulZero(V(e[i]));
      num := num[i := Num(Add(V(p[i]), x))];
      i := i + 1;
    }
    assert e[..|e|] == e;
    assert num == Reduced(p, e, f);
    return Ok(num);
  }

  lemma FirstOut(p: Poly, e: Poly, f: bv8)
    requires 0 < |e| <= |p| && if p[0].Num? then Mul(f, V(e[0])) == p[0].b else f == 0
    ensures |Stripped(Reduced(p, e, f))| < |p|
  {
    FirstGone(p[0], e[0], f);
    StripsFirst(Reduced(p, e, f));
  }
}
