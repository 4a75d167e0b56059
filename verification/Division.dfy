/** Division of polynomials over GF(256): what the roots a^0 .. a^(n-1) of a codeword mean (section 7.5.2 of
    ISO/IEC 18004:2015), for the encoder of smurfs/src/main/resources/static/lib/qrcode/qrcode.js. */
module Division {
  import opened Galois
  import opened ReedSolomon
  import opened QrBlocks

  /** p is q times e plus r. */
  ghost predicate Divides(p: Poly, e: Poly, q: Poly, r: Poly) {
    && e != [] && |r| == |e| - 1 && |p| == |q| + |r|
    && forall k :: 0 <= k < |p| ==> V(p[k]) == Add(Conv(q, e, |q|, k), if k >= |q| then V(r[k - |q|]) else 0)
  }

  /** p is q times e. */
  ghost predicate IsProduct(p: Poly, q: Poly, e: Poly) {
    e != [] && |p| == |q| + |e| - 1 && forall k :: 0 <= k < |p| ==> V(p[k]) == Conv(q, e, |q|, k)
  }

  /** The product row by row: the first coefficient's row, and the product of the others one place further. */
  lemma {:induction false} ConvFirst(c: Coef, q: Poly, e: Poly, i: nat, k: nat)
    requires i <= |q|
    ensures Conv([c] + q, e, i + 1, k) ==
      Add(if k < |e| then Mul(V(c), V(e[k])) else 0, if k > 0 then Conv(q, e, i, k - 1) else 0)
  {
    hide Mul, Add;
    var first := if k < |e| then Mul(V(c), V(e[k])) else 0;
    AddRules(first, 0, 0, 0);
    if i > 0 {
      ConvFirst(c, q, e, i - 1, k);
      assert ([c] + q)[i] == q[i - 1];
      AddRules(first, if k > 0 then Conv(q, e, i - 1, k - 1) else 0, Share([c] + q, e, i, |e|, k), 0);
      AddRules(0, 0, 0, 0);
    } else {
      AddRules(0, 0, 0, 0);
    }
  }

  /** Division with remainder by a polynomial that begins with 1. */
  lemma {:induction false} QuotientExists(p: Poly, e: Poly)
    requires e != [] && e[0] == Num(1) && |p| >= |e| - 1
    ensures exists q, r :: Divides(p, e, q, r)
    decreases |p|
  {
    hide Mul, Add, Conv;
    if |p| == |e| - 1 {
      NoQuotient(p, e);
    } else {
      var f := V(p[0]);
      var rest := Reduced(p, e, f)[1..];
      QuotientExists(rest, e);
      var q, r :| Divides(rest, e, q, r);
      LongDivision(p, e, q, r);
      assert Divides(p, e, [Num(f)] + q, r);
    }
  }

  lemma NoQuotient(p: Poly, e: Poly)
    requires e != [] && |p| == |e| - 1
    ensures Divides(p, e, [], p)
  {
    hide Add;
    forall k | 0 <= k < |p| ensures V(p[k]) == Add(Conv([], e, 0, k), V(p[k])) { AddRules(V(p[k]), 0, 0, 0); }
  }

  /** The first coefficient of p is that of the quotient. */
  lemma LongDivision(p: Poly, e: Poly, q: Poly, r: Poly)
    requires e != [] && e[0] == Num(1) && |p| >= |e| && Divides(Reduced(p, e, V(p[0]))[1..], e, q, r)
    ensures Divides(p, e, [Num(V(p[0]))] + q, r)
  {
    hide Mul, Add, Conv;
    var f := V(p[0]);
    var rest := Reduced(p, e, f)[1..];
    var q1 := [Num(f)] + q;
    forall k | 0 <= k < |p| ensures V(p[k]) == Add(Conv(q1, e, |q1|, k), if k >= |q1| then V(r[k - |q1|]) else 0) {
      ConvFirst(Num(f), q, e, |q|, k);
      if k == 0 {
        MulOne(f);
        MulSwap(f, 1);
        AddRules(f, 0, 0, 0);
      } else {
        var m := if k < |e| then Mul(f, V(e[k])) else 0;
        var c := Conv(q, e, |q|, k - 1);
        var t := if k >= |q1| then V(r[k - |q1|]) else 0;
        assert V(rest[k - 1]) == Add(c, t);
        Undone(V(p[k]), m, c, t);
        AddRules(V(p[k]), 0, 0, 0);
        assert Add(V(p[k]), m) == Add(c, t);
      }
    }
  }

  lemma Undone(x: bv8, m: bv8, c: bv8, t: bv8)
    ensures Add(x, m) == Add(c, t) ==> x == Add(Add(m, c), t)
  {
  }

  /** Values of a division. */
  lemma DivisionEval(p: Poly, e: Poly, q: Poly, r: Poly, x: nat)
    requires Divides(p, e, q, r)
    ensures Eval(p, x) == Add(Mul(Eval(q, x), Eval(e, x)), Eval(r, x))
  {
    hide Mul, Add, Conv;
    if q == [] {
      assert IsSum(p, Blank(|p|), r) by {
        forall k | 0 <= k < |p| ensures V(p[k]) == Add(0, V(r[k])) { NoRows(e, k); }
      }
      EvalSum(p, Blank(|p|), r, x);
      EvalZero(Blank(|p|), x);
      MulZero(Eval(e, x));
    } else {
      var b := Blank(|q|) + r;
      assert IsSum(p, ProductOf(q, e), b);
      EvalSum(p, ProductOf(q, e), b, x);
      EvalStripped(Blank(|q|), r, x);
      StrippedEval(ProductOf(q, e), x);
      ProductEval(q, e, x);
    }
  }

  lemma NoRows(e: Poly, k: nat)
    ensures Conv([], e, 0, k) == 0
  {
  }

  lemma {:induction false} ZeroRows(q: Poly, e: Poly, i: nat, k: nat)
    requires AllZero(q) && i <= |q|
    ensures Conv(q, e, i, k) == 0
  {
    hide Mul, Add;
    if i > 0 {
      ZeroRows(q, e, i - 1, k);
      AddRules(0, 0, 0, 0);
      if i - 1 <= k < i - 1 + |e| { MulZero(V(e[k - (i - 1)])); }
    }
  }

  /** x + a^i at a^j. */
  lemma LinearAt(i: nat, j: nat)
    ensures Eval([Num(1), Num(Exp(i))], j) == Add(Exp(j), Exp(i))
  {
    hide Add;
    EvalOne(Num(1), j);
    assert [Num(1), Num(Exp(i))][..1] == [Num(1)];
  }

  lemma SumZero(b: bv8, c: bv8)
    ensures Add(b, c) == 0 <==> b == c
  {
  }

  /** A polynomial of n coefficients with n different roots is 0. */
  lemma {:induction false} RootsVanish(p: Poly, n: nat)
    requires |p| == n <= 255 && forall i :: 0 <= i < n ==> Eval(p, i) == 0
    ensures AllZero(p)
    decreases n
  {
    hide Mul, Add, Conv, Eval, Exp;
    if n > 0 {
      var e := [Num(1), Num(Exp(n - 1))];
      QuotientExists(p, e);
      var q, r :| Divides(p, e, q, r);
      forall i | 0 <= i < n ensures i < n - 1 ==> Eval(q, i) == 0 {
        if i < n - 1 { RootOfQuotient(p, q, r, n - 1, i); }
      }
      RootsVanish(q, n - 1);
      LastRoot(p, q, r, n - 1);
      forall k | 0 <= k < n ensures V(p[k]) == 0 {
        ZeroRows(q, e, |q|, k);
        AddRules(0, 0, 0, 0);
      }
    }
  }

  /** Dividing by x + a^m leaves the value at a^m. */
  lemma LastRoot(p: Poly, q: Poly, r: Poly, m: nat)
    requires Divides(p, [Num(1), Num(Exp(m))], q, r) && Eval(p, m) == 0
    ensures |r| == 1 && V(r[0]) == 0
  {
    hide Mul, Add, Conv, Exp, Eval;
    DivisionEval(p, [Num(1), Num(Exp(m))], q, r, m);
    LinearRoot(m);
    MulSwap(Eval(q, m), 0);
    MulZero(Eval(q, m));
    AddRules(Eval(r, m), 0, 0, 0);
    EvalOne(r[0], m);
    assert r == [r[0]];
  }

  /** The other roots are roots of the quotient. */
  lemma RootOfQuotient(p: Poly, q: Poly, r: Poly, m: nat, i: nat)
    requires i < m < 255 && Divides(p, [Num(1), Num(Exp(m))], q, r) && Eval(p, m) == 0 && Eval(p, i) == 0
    ensures Eval(q, i) == 0
  {
    hide Mul, Add, Conv, Exp, Eval;
    LastRoot(p, q, r, m);
    EvalOne(r[0], i);
    assert r == [r[0]];
    DivisionEval(p, [Num(1), Num(Exp(m))], q, r, i);
    AddRules(Mul(Eval(q, i), Eval([Num(1), Num(Exp(m))], i)), 0, 0, 0);
    LinearAt(m, i);
    SumZero(Exp(i), Exp(m));
    if Exp(i) == Exp(m) { ExpInjective(i, m); }
    if Eval(q, i) != 0 { MulNonzero(Eval(q, i), Add(Exp(i), Exp(m))); }
  }

  /** Codewords correct a block exactly when the whole is a multiple of the product of the (x + a^i). */
  lemma CorrectsIsMultiple(data: Poly, ec: Poly, n: nat)
    requires n <= 255
    ensures Corrects(data, ec, n) <==> |ec| == n && exists q :: |q| == |data| && IsProduct(data + ec, q, Gen(n))
  {
    hide Eval, Mul, Add, Conv, Gen;
    if Corrects(data, ec, n) {
      QuotientExists(data + ec, Gen(n));
      var q, r :| Divides(data + ec, Gen(n), q, r);
      forall i | 0 <= i < n ensures Eval(r, i) == 0 {
        GenRoots(n, i);
        DivisionEval(data + ec, Gen(n), q, r, i);
        AtRoot(Eval(q, i), Eval(r, i));
      }
      RootsVanish(r, n);
      NoRemainder(data + ec, q, r, Gen(n));
    }
    if |ec| == n && exists q :: |q| == |data| && IsProduct(data + ec, q, Gen(n)) {
      var q :| |q| == |data| && IsProduct(data + ec, q, Gen(n));
      NoRemainder(data + ec, q, Blank(n), Gen(n));
      forall i | 0 <= i < n ensures Eval(data + ec, i) == 0 {
        GenRoots(n, i);
        DivisionEval(data + ec, Gen(n), q, Blank(n), i);
        EvalZero(Blank(n), i);
        AtRoot(Eval(q, i), 0);
      }
    }
  }

  lemma AtRoot(q: bv8, r: bv8)
    ensures Add(Mul(q, 0), r) == r
  {
    hide Mul, Add;
    MulZero(q);
    AddRules(r, 0, 0, 0);
  }

  lemma NoRemainder(p: Poly, q: Poly, r: Poly, e: Poly)
    requires e != [] && |r| == |e| - 1 && |p| == |q| + |r| && AllZero(r)
    ensures Divides(p, e, q, r) <==> IsProduct(p, q, e)
  {
    hide Add, Conv;
    forall k: nat ensures Add(Conv(q, e, |q|, k), 0) == Conv(q, e, |q|, k) { AddRules(Conv(q, e, |q|, k), 0, 0, 0); }
  }

  /** A block has one error correction only. */
  lemma OneCorrection(data: Poly, a: Poly, b: Poly, n: nat)
    requires n <= 255 && Corrects(data, a, n) && Corrects(data, b, n)
    ensures forall i :: 0 <= i < n ==> V(a[i]) == V(b[i])
  {
    hide Eval, Add, Shifted;
    var s := seq(n, i requires 0 <= i < n => Num(Add(V(a[i]), V(b[i]))));
    forall i | 0 <= i < n ensures Eval(s, i) == 0 {
      EvalSum(s, a, b, i);
      EvalAppend(data, a, i);
      EvalAppend(data, b, i);
      SumZero(Shifted(i, n, Eval(data, i)), Eval(a, i));
      SumZero(Shifted(i, n, Eval(data, i)), Eval(b, i));
      SumZero(Eval(a, i), Eval(b, i));
    }
    RootsVanish(s, n);
    forall i | 0 <= i < n ensures V(a[i]) == V(b[i]) {
      assert V(s[i]) == 0;
      SumZero(V(a[i]), V(b[i]));
    }
  }
}
