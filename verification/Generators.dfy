/** The coefficients of the generator polynomials of smurfs/src/main/resources/static/lib/qrcode/qrcode.js:
    for which lengths glog never meets a 0. */
module Generators {
  import opened Galois
  import opened ReedSolomon
  import opened QrBlocks

  /** Coefficient j of the product of the (x + a^i) for i < n, counted from the highest; 0 outside. */
  ghost function G(n: nat, j: int): bv8 { if 0 <= j <= n then V(Gen(n)[j]) else 0 }

  /** A product with x + b: every coefficient stays where it is, and goes one place further times b. */
  lemma {:induction false} LinearConv(p: Poly, b: bv8, i: nat, k: nat)
    requires i <= |p|
    ensures Conv(p, [Num(1), Num(b)], i, k)
      == Add(if k < i then V(p[k]) else 0, if 1 <= k <= i then Mul(V(p[k - 1]), b) else 0)
  {
    hide Mul, Add;
    AddRules(0, 0, 0, 0);
    if i > 0 {
      LinearConv(p, b, i - 1, k);
      MulOne(V(p[i - 1]));
      MulSwap(V(p[i - 1]), 1);
      var moved := if 1 <= k <= i - 1 then Mul(V(p[k - 1]), b) else 0;
      AddRules(moved, V(p[i - 1]), 0, 0);
      AddRules(V(p[i - 1]), 0, 0, 0);
      AddRules(Mul(V(p[i - 1]), b), 0, 0, 0);
      AddRules(if k < i - 1 then V(p[k]) else 0, moved, 0, 0);
    }
  }

  lemma NextGenerator(n: nat, j: int)
    ensures G(n + 1, j) == Add(G(n, j), Times(n, G(n, j - 1)))
  {
    hide Mul, Add, Times;
    AddRules(0, 0, 0, 0);
    TimesZero(n);
    if 0 <= j <= n + 1 {
      LinearConv(Gen(n), Exp(n), n + 1, j);
      if j > 0 {
        MulSwap(G(n, j - 1), Exp(n));
        MulExp(n, G(n, j - 1));
      }
    }
  }

  lemma Ends(n: nat)
    ensures G(n, 0) == 1 && G(0, 1) == 0
  {
  }

  /** (a^j + 1) times coefficient j is (a^n + a^(j-1)) times the one before it. */
  lemma {:induction false} Neighbours(n: nat, j: nat)
    requires j >= 1
    ensures Add(Times(j, G(n, j)), G(n, j)) == Add(Times(n, G(n, j - 1)), Times(j - 1, G(n, j - 1)))
    decreases n
  {
    hide Add, Times, Gen, G;
    if n == 0 {
      NoneBeyond(j);
    } else {
      var f, g, h := G(n - 1, j), G(n - 1, j - 1), G(n - 1, j - 2);
      NextGenerator(n - 1, j);
      NextGenerator(n - 1, j - 1);
      Neighbours(n - 1, j);
      if j >= 2 { Neighbours(n - 1, j - 1); } else { FirstOnes(n - 1); }
      Spread(n - 1, j, f, g);
      Shifts(n - 1, j, g, h);
      Cancel(Times(j, f), f, Times(n - 1, g), Times(j - 1, g), Times(j + n - 1, g),
             Times(n, g), Times(2 * n - 1, h), Times(n + j - 2, h));
    }
  }

  lemma NoneBeyond(j: nat)
    requires j >= 1
    ensures Add(Times(j, G(0, j)), G(0, j)) == Add(Times(0, G(0, j - 1)), Times(j - 1, G(0, j - 1)))
  {
    hide Times;
    TimesZero(j);
    TimesZero(0);
    TimesZero(j - 1);
    if j == 1 { Same(Times(0, G(0, 0))); }
  }

  lemma Same(b: bv8)
    ensures Add(b, b) == 0
  {
  }

  /** Before the first coefficient there is none. */
  lemma FirstOnes(n: nat)
    ensures G(n, -1) == 0 && Times(0, G(n, 0)) == G(n, 0)
  {
  }

  lemma Spread(n: nat, j: nat, f: bv8, g: bv8)
    ensures Times(j, Add(f, Times(n, g))) == Add(Times(j, f), Times(j + n, g))
  {
    hide Add, Times;
    TimesAdd(j, f, Times(n, g));
    TimesTwice(j, n, g);
  }

  /** The second neighbours, times a^(n+1). */
  lemma Shifts(n: nat, j: nat, g: bv8, h: bv8)
    requires j >= 1 && (j >= 2 ==> Add(Times(j - 1, g), g) == Add(Times(n, h), Times(j - 2, h)))
    requires j == 1 ==> h == 0 && Times(0, g) == g
    ensures Add(Times(j + n, g), Times(n + 1, g)) == Add(Times(2 * n + 1, h), Times(n + j - 1, h))
    ensures Times(n + 1, Add(g, Times(n, h))) == Add(Times(n + 1, g), Times(2 * n + 1, h))
    ensures Times(j - 1, Add(g, Times(n, h))) == Add(Times(j - 1, g), Times(n + j - 1, h))
  {
    hide Add, Times;
    Spread(n, n + 1, g, h);
    Spread(n, j - 1, g, h);
    if j == 1 {
      TimesZero(2 * n + 1);
      TimesZero(n);
      Same(Times(n + 1, g));
      Same(0);
    } else {
      TimesAdd(n + 1, Times(j - 1, g), g);
      TimesTwice(n + 1, j - 1, g);
      TimesAdd(n + 1, Times(n, h), Times(j - 2, h));
      TimesTwice(n + 1, n, h);
      TimesTwice(n + 1, j - 2, h);
    }
  }

  lemma Cancel(jf: bv8, f: bv8, ng: bv8, jg: bv8, both: bv8, n1g: bv8, nnh: bv8, njh: bv8)
    requires Add(jf, f) == Add(ng, jg) && Add(both, n1g) == Add(nnh, njh)
    ensures Add(Add(jf, both), Add(f, ng)) == Add(Add(n1g, nnh), Add(jg, njh))
  {
    hide Add;
    AddRules(jf, both, f, ng);
    Twice(ng, jg, both);
    AddRules(n1g, nnh, jg, njh);
    Twice(n1g, jg, both);
  }

  lemma Twice(x: bv8, y: bv8, z: bv8)
    ensures Add(Add(x, y), Add(z, x)) == Add(y, z)
  {
    hide Add;
    AddRules(x, y, z, x);
    AddRules(x, z, y, x);
    AddRules(x, y, x, z);
    AddRules(z, x, 0, 0);
    AddRules(x, 0, 0, 0);
    AddRules(Add(y, z), 0, 0, 0);
  }

  /** Two powers of a, fewer than 255 apart, never agree on a number but 0. */
  lemma PowersDiffer(i: nat, j: nat, b: bv8)
    requires i < j < i + 255 && Times(i, b) == Times(j, b)
    ensures b == 0
  {
    hide Times;
    if b != 0 {
      var l := Log(b);
      assert Exp(l) == b;
      TimesTwice(i, l, 1);
      TimesTwice(j, l, 1);
      TimesTwice(i + l, j - i, 1);
      assert Times(i + l, 1) == Times(i + l, Exp(j - i));
      TimesInjective(i + l, 1, Exp(j - i));
      Order();
      assert false;
    }
  }

  /** Generators of fewer than 255 roots have no coefficient 0. */
  lemma {:induction false} Nonzero(n: nat, j: nat)
    requires j <= n < 255
    ensures G(n, j) != 0
    decreases j
  {
    hide Times, Gen, G, Add;
    Ends(n);
    if j > 0 {
      Nonzero(n, j - 1);
      Neighbours(n, j);
      if G(n, j) == 0 {
        TimesZero(j);
        Same(0);
        Equal(Times(n, G(n, j - 1)), Times(j - 1, G(n, j - 1)));
        PowersDiffer(j - 1, n, G(n, j - 1));
      }
    }
  }

  lemma Equal(b: bv8, c: bv8)
    requires Add(b, c) == 0
    ensures b == c
  {
  }

  /** The product over all powers of a is x^255 + 1. */
  lemma AllPowers()
    ensures G(255, 1) == 0
  {
    hide Times, Gen, G, Add;
    Ends(255);
    Neighbours(255, 1);
    TimesTwice(255, 0, 1);
    Order();
    assert Times(255, 1) == 1;
    FirstOnes(255);
    Same(1);
    Equal(Times(1, G(255, 1)), G(255, 1));
    TimesOnce(G(255, 1));
    PowersDiffer(0, 1, G(255, 1));
  }

  lemma TimesOnce(b: bv8)
    ensures Times(0, b) == b
  {
  }

  /** getErrorCorrectPolynomial throws exactly above 255. */
  lemma BuildableIs(n: nat)
    ensures Buildable(n) <==> n <= 255
  {
    hide Gen;
    forall k | 0 <= k < n && k < 255 ensures NoZero(Gen(k)) { NoZeroBelow(k); }
    if n > 255 { ZeroAt255(); }
  }

  lemma NoZeroBelow(n: nat)
    requires n < 255
    ensures NoZero(Gen(n))
  {
    forall j | 0 <= j < |Gen(n)| ensures Gen(n)[j] != Num(0) { Nonzero(n, j); }
  }

  lemma ZeroAt255()
    ensures !NoZero(Gen(255))
  {
    hide Gen;
    AllPowers();
    StoredAt(255, 1);
  }

  lemma StoredAt(n: nat, j: nat)
    requires n > 0 && j <= n
    ensures |Gen(n)| == n + 1 && Gen(n)[j] == Num(G(n, j))
  {
  }

  /** A block can be encoded with up to 254 correction codewords; with 255 only if all its data are 0. */
  lemma EncodableIs(data: Poly, n: nat)
    ensures Encodable(data, n) <==> n <= 254 || (n == 255 && Stripped(data) == [])
  {
    hide Gen, Buildable;
    BuildableIs(n);
    if n <= 254 { NoZeroBelow(n); } else if n == 255 { ZeroAt255(); }
  }

  /** createBytes never throws for blocks with up to 254 correction codewords. */
  lemma BlocksEncodableIs(buffer: seq<bv8>, rs: seq<RSBlock>, n: nat)
    requires n <= |rs|
    ensures BlocksEncodable(buffer, rs, n) <==> forall k :: 0 <= k < n ==>
      EcCount(rs[k]) >= 0
        && (EcCount(rs[k]) <= 254 || (EcCount(rs[k]) == 255 && Stripped(DataBlock(buffer, rs, k)) == []))
  {
    hide Encodable, Stripped, DataBlock;
    forall k | 0 <= k < n && EcCount(rs[k]) >= 0
      ensures Encodable(DataBlock(buffer, rs, k), EcCount(rs[k])) <==>
        EcCount(rs[k]) <= 254 || (EcCount(rs[k]) == 255 && Stripped(DataBlock(buffer, rs, k)) == [])
    {
      EncodableIs(DataBlock(buffer, rs, k), EcCount(rs[k]));
    }
  }
}
