/** The field with 256 elements behind QRMath in
    smurfs/src/main/resources/static/lib/qrcode/qrcode.js: its tables and its laws. */
module Galois {
  import Counting

  /** Multiplication by the primitive element a, modulo x^8 + x^4 + x^3 + x^2 + 1. */
  function XTime(b: bv8): bv8 { if b & 0x80 == 0 then b << 1 else (b << 1) ^ 0x1D }

  /** The sum of two elements. */
  function Add(b: bv8, c: bv8): bv8 { b ^ c }

  /** b times a^i. */
  function Times(i: nat, b: bv8): bv8 { if i == 0 then b else XTime(Times(i - 1, b)) }

  /** a^i. */
  function Exp(i: nat): bv8 { Times(i, 1) }

  lemma {:induction false} TimesTwice(i: nat, j: nat, b: bv8)
    ensures Times(i, Times(j, b)) == Times(i + j, b)
  {
    if i > 0 { TimesTwice(i - 1, j, b); }
  }

  lemma TopBit(b: bv8, c: bv8)
    ensures (b ^ c) & 0x80 == (b & 0x80) ^ (c & 0x80)
    ensures b & 0x80 == 0 || b & 0x80 == 0x80
  {
  }

  lemma ShiftXor(b: bv8, c: bv8)
    ensures (b ^ c) << 1 == (b << 1) ^ (c << 1)
  {
  }

  lemma XorRules(x: bv8, y: bv8, r: bv8)
    ensures (x ^ r) ^ y == (x ^ y) ^ r && x ^ (y ^ r) == (x ^ y) ^ r && (x ^ r) ^ (y ^ r) == x ^ y
  {
  }

  lemma XTimeXor(b: bv8, c: bv8)
    ensures XTime(Add(b, c)) == Add(XTime(b), XTime(c))
  {
    TopBit(b, c);
    TopBit(c, b);
    ShiftXor(b, c);
    XorRules(b << 1, c << 1, 0x1D);
  }

  lemma {:induction false} TimesAdd(i: nat, b: bv8, c: bv8)
    ensures Times(i, Add(b, c)) == Add(Times(i, b), Times(i, c))
  {
    hide XTime, Add;
    if i > 0 {
      TimesAdd(i - 1, b, c);
      XTimeXor(Times(i - 1, b), Times(i - 1, c));
    }
  }

  lemma {:induction false} TimesZero(i: nat)
    ensures Times(i, 0) == 0
  {
    if i > 0 { TimesZero(i - 1); }
  }

  lemma XTimeInjective(b: bv8, c: bv8)
    requires XTime(b) == XTime(c)
    ensures b == c
  {
  }

  lemma {:induction false} TimesInjective(i: nat, b: bv8, c: bv8)
    requires Times(i, b) == Times(i, c)
    ensures b == c
  {
    if i > 0 {
      XTimeInjective(Times(i - 1, b), Times(i - 1, c));
      TimesInjective(i - 1, b, c);
    }
  }

  // ---------- the order of a is 255 ----------

  function X4(v: bv8): bv8 { XTime(XTime(XTime(XTime(v)))) }
  function X16(v: bv8): bv8 { X4(X4(X4(X4(v)))) }

  /** None of v, av, ..., a^15 v is 1. */
  predicate Apart4(v: bv8) { v != 1 && XTime(v) != 1 && XTime(XTime(v)) != 1 && XTime(XTime(XTime(v))) != 1 }
  predicate Apart16(v: bv8) { Apart4(v) && Apart4(X4(v)) && Apart4(X4(X4(v))) && Apart4(X4(X4(X4(v)))) }

  /** No power of a below the n-th, but the 0-th, is 1. */
  ghost predicate NoOne(n: nat) { forall d :: 0 < d < n ==> Exp(d) != 1 }

  lemma Four(n: nat, v: bv8)
    requires Exp(n) == v && NoOne(n) && Apart4(v)
    ensures Exp(n + 4) == X4(v) && NoOne(n + 4)
  {
    hide XTime;
    assert Exp(n + 1) == XTime(Exp(n)) && Exp(n + 2) == XTime(Exp(n + 1)) && Exp(n + 3) == XTime(Exp(n + 2))
      && Exp(n + 4) == XTime(Exp(n + 3));
  }

  lemma Sixteen(n: nat, v: bv8, w: bv8)
    requires Exp(n) == v && NoOne(n) && Apart16(v) && X16(v) == w
    ensures Exp(n + 16) == w && NoOne(n + 16)
  {
    hide X4, Apart4, Exp, NoOne;
    Four(n, v);
    Four(n + 4, X4(v));
    Four(n + 8, X4(X4(v)));
    Four(n + 12, X4(X4(X4(v))));
  }

  lemma PowerOne()
    ensures Exp(1) == 2 && NoOne(1)
  {
    assert Exp(1) == XTime(Times(0, 1));
  }

  /** Every sixteenth power of a, from a on. */
  lemma Marks0()
    ensures X16(2) == 152 && Apart16(2)
    ensures X16(152) == 39 && Apart16(152)
    ensures X16(39) == 140 && Apart16(39)
  {
  }

  lemma Marks1()
    ensures X16(140) == 190 && Apart16(140)
    ensures X16(190) == 231 && Apart16(190)
    ensures X16(231) == 175 && Apart16(231)
  {
  }

  lemma Marks2()
    ensures X16(175) == 31 && Apart16(175)
    ensures X16(31) == 23 && Apart16(31)
    ensures X16(23) == 77 && Apart16(23)
  {
  }

  lemma Marks3()
    ensures X16(77) == 209 && Apart16(77)
    ensures X16(209) == 219 && Apart16(209)
    ensures X16(219) == 25 && Apart16(219)
  {
  }

  lemma Marks4()
    ensures X16(25) == 162 && Apart16(25)
    ensures X16(162) == 36 && Apart16(162)
    ensures X16(36) == 88 && Apart16(36)
  {
  }

  lemma LastMarks()
    ensures Apart4(88) && X4(88) == 233 && Apart4(233) && X4(233) == 54
    ensures Apart4(54) && X4(54) == 71 && 71 != 1 && XTime(71) == 142 && XTime(142) == 1
  {
  }

  /** a has order 255. */
  lemma Order()
    ensures Exp(255) == 1 && NoOne(255)
  {
    hide X4, X16, Apart4, Apart16, NoOne, Exp, XTime;
    PowerOne();
    Marks0();
    Sixteen(1, 2, 152);
    Sixteen(17, 152, 39);
    Sixteen(33, 39, 140);
    Marks1();
    Sixteen(49, 140, 190);
    Sixteen(65, 190, 231);
    Sixteen(81, 231, 175);
    Marks2();
    Sixteen(97, 175, 31);
    Sixteen(113, 31, 23);
    Sixteen(129, 23, 77);
    Marks3();
    Sixteen(145, 77, 209);
    Sixteen(161, 209, 219);
    Sixteen(177, 219, 25);
    Marks4();
    Sixteen(193, 25, 162);
    Sixteen(209, 162, 36);
    Sixteen(225, 36, 88);
    LastMarks();
    Four(241, 88);
    Four(245, 233);
    Four(249, 54);
    LastPowers();
  }

  lemma LastPowers()
    requires Exp(253) == 71 && NoOne(253) && XTime(71) == 142 && XTime(142) == 1
    ensures Exp(255) == 1 && NoOne(255)
  {
    hide XTime;
    assert Exp(254) == XTime(Exp(253)) && Exp(255) == XTime(Exp(254));
  }

  // ---------- logarithms ----------

  lemma ExpTwice(i: nat, j: nat)
    ensures Times(i, Exp(j)) == Exp(i + j)
  {
    TimesTwice(i, j, 1);
  }

  lemma ExpPeriod(i: nat)
    ensures Exp(i + 255) == Exp(i)
  {
    Order();
    ExpTwice(i, 255);
  }

  lemma {:induction false} ExpMod(i: nat)
    ensures Exp(i) == Exp(i % 255)
  {
    if i >= 255 {
      ExpMod(i - 255);
      ExpPeriod(i - 255);
    }
  }

  lemma ExpNonzero(i: nat)
    ensures Exp(i) != 0
  {
    TimesZero(i);
    if Exp(i) == 0 { TimesInjective(i, 1, 0); }
  }

  lemma ExpInjective(i: nat, j: nat)
    requires i < 255 && j < 255 && Exp(i) == Exp(j)
    ensures i == j
  {
    Order();
    var lo, hi := if i < j then i else j, if i < j then j else i;
    ExpTwice(lo, hi - lo);
    TimesInjective(lo, 1, Exp(hi - lo));
  }

  /** Every element but 0 is a power of a. */
  lemma LogExists(b: bv8)
    requires b != 0
    ensures exists i :: 0 <= i < 255 && Exp(i) == b
  {
    hide Exp;
    var s := seq(255, i requires 0 <= i < 255 => Exp(i) as int);
    forall i | 0 <= i < 255 ensures 1 <= s[i] <= 255 {
      ExpNonzero(i);
      assert Exp(i) as int != 0;
    }
    forall i, j | 0 <= i < j < 255 ensures s[i] != s[j] {
      if s[i] == s[j] { SameByte(Exp(i), Exp(j)); ExpInjective(i, j); }
    }
    assert b as int != 0;
    Counting.Filled(s, 255, b as int);
    var i :| 0 <= i < 255 && s[i] == b as int;
    SameByte(Exp(i), b);
  }

  lemma SameByte(b: bv8, c: bv8)
    requires b as int == c as int
    ensures b == c
  {
    assert b == (b as int) as bv8 && c == (c as int) as bv8;
  }

  ghost function Log(b: bv8): (i: nat)
    requires b != 0
    ensures i < 255 && Exp(i) == b
  {
    LogExists(b);
    var i :| 0 <= i < 255 && Exp(i) == b;
    i
  }

  /** The product of two elements. */
  ghost function Mul(b: bv8, c: bv8): bv8 { if b == 0 then 0 else Times(Log(b), c) }

  lemma MulExp(i: nat, c: bv8)
    ensures Mul(Exp(i), c) == Times(i, c)
  {
    ExpNonzero(i);
    hide Exp, Times;
    ExpTimes(i, Log(Exp(i)), c);
  }

  lemma ExpTimes(i: nat, j: nat, c: bv8)
    requires Exp(i) == Exp(j)
    ensures Times(i, c) == Times(j, c)
  {
    hide Exp, Times;
    if c == 0 {
      TimesZero(i);
      TimesZero(j);
    } else {
      var k := Log(c);
      ExpTwice(i, k);
      ExpTwice(j, k);
      ExpTwice(k, i);
      ExpTwice(k, j);
    }
  }

  lemma MulAdd(b: bv8, c: bv8, d: bv8)
    ensures Mul(b, Add(c, d)) == Add(Mul(b, c), Mul(b, d))
  {
    if b == 0 { assert Add(0, 0) == 0; } else {
      hide Add;
      TimesAdd(Log(b), c, d);
    }
  }

  lemma AddRules(a: bv8, b: bv8, c: bv8, d: bv8)
    ensures Add(Add(a, b), c) == Add(a, Add(b, c)) && Add(a, b) == Add(b, a)
    ensures Add(Add(a, b), Add(c, d)) == Add(Add(a, c), Add(b, d))
    ensures Add(a, 0) == a && Add(0, a) == a && Add(a, a) == 0
  {
  }

  lemma MulSwap(b: bv8, c: bv8)
    ensures Mul(b, c) == Mul(c, b)
  {
    hide Exp, Times;
    if b == 0 {
      if c != 0 { TimesZero(Log(c)); }
    } else if c == 0 {
      TimesZero(Log(b));
    } else {
      ExpTwice(Log(b), Log(c));
      ExpTwice(Log(c), Log(b));
    }
  }

  lemma MulTimes(b: bv8, i: nat, c: bv8)
    ensures Mul(b, Times(i, c)) == Times(i, Mul(b, c))
  {
    hide Exp;
    if b == 0 {
      TimesZero(i);
    } else {
      TimesTwice(Log(b), i, c);
      TimesTwice(i, Log(b), c);
    }
  }

  lemma MulZero(b: bv8)
    ensures Mul(b, 0) == 0 && Mul(0, b) == 0
  {
    MulSwap(b, 0);
  }

  lemma MulNonzero(b: bv8, c: bv8)
    requires b != 0 && c != 0
    ensures Mul(b, c) != 0
  {
    hide Exp, Times;
    ExpTwice(Log(b), Log(c));
    ExpNonzero(Log(b) + Log(c));
  }

  lemma MulOne(b: bv8)
    ensures Mul(1, b) == b
  {
    MulExp(0, b);
  }

  /** The rule by which EXP_TABLE is filled. */
  lemma Recurrence(i: nat)
    requires i >= 8
    ensures Exp(i) == Add(Add(Add(Exp(i - 4), Exp(i - 5)), Exp(i - 6)), Exp(i - 8))
  {
    hide Exp, Times, Add;
    var n: nat := i - 8;
    EighthPower();
    ExpTwice(n, 8);
    ExpTwice(n, 4);
    ExpTwice(n, 3);
    ExpTwice(n, 2);
    ExpTwice(n, 0);
    TimesAdd(n, Add(Add(Exp(4), Exp(3)), Exp(2)), Exp(0));
    TimesAdd(n, Add(Exp(4), Exp(3)), Exp(2));
    TimesAdd(n, Exp(4), Exp(3));
  }

  lemma SmallPowers()
    ensures Exp(0) == 1 && Exp(1) == 2 && Exp(2) == 4 && Exp(3) == 8 && Exp(4) == 16 && Exp(5) == 32 && Exp(6) == 64
      && Exp(7) == 128
  {
    PowerOne();
    assert Exp(2) == XTime(Exp(1)) && Exp(3) == XTime(Exp(2)) && Exp(4) == XTime(Exp(3)) && Exp(5) == XTime(Exp(4));
    assert Exp(6) == XTime(Exp(5)) && Exp(7) == XTime(Exp(6));
  }

  lemma EighthPower()
    ensures Exp(8) == Add(Add(Add(Exp(4), Exp(3)), Exp(2)), Exp(0))
  {
    SmallPowers();
    assert Exp(8) == XTime(Exp(7));
  }
}
