/** The field GF(2^8) of the codec: polynomials over GF(2) modulo x^8 + x^4 + x^3 + x^2 + 1,
    a polynomial being the byte of its coefficients. */
module Gf256 {

  type gf = x: int | 0 <= x < 256

  function Pow2(n: nat): nat {
    if n == 0 then 1 else 2 * Pow2(n - 1)
  }

  /** Bitwise exclusive or. */
  function Xor(a: nat, b: nat): nat
    decreases a + b
  {
    if a == 0 then b
    else if b == 0 then a
    else 2 * Xor(a / 2, b / 2) + (if a % 2 == b % 2 then 0 else 1)
  }

  lemma {:induction false} XorBound(a: nat, b: nat, n: nat)
    requires a < Pow2(n) && b < Pow2(n)
    ensures Xor(a, b) < Pow2(n)
    decreases n
  {
    if a != 0 && b != 0 {
      XorBound(a / 2, b / 2, n - 1);
    }
  }

  lemma {:induction false} XorSelf(a: nat)
    ensures Xor(a, a) == 0
  {
    if a != 0 {
      XorSelf(a / 2);
    }
  }

  lemma {:induction false} XorCommutes(a: nat, b: nat)
    ensures Xor(a, b) == Xor(b, a)
    decreases a + b
  {
    if a != 0 && b != 0 {
      XorCommutes(a / 2, b / 2);
    }
  }

  lemma XorZero(a: nat)
    ensures Xor(a, 0) == a
  {}

  lemma XorHalves(a: nat, b: nat)
    ensures Xor(a, b) / 2 == Xor(a / 2, b / 2)
    ensures Xor(a, b) % 2 == (if a % 2 == b % 2 then 0 else 1)
  {}

  lemma {:induction false} XorAssociates(a: nat, b: nat, c: nat)
    ensures Xor(Xor(a, b), c) == Xor(a, Xor(b, c))
    decreases a + b + c
  {
    if a != 0 && b != 0 && c != 0 {
      XorAssociates(a / 2, b / 2, c / 2);
      XorHalves(a, b);
      XorHalves(b, c);
      XorHalves(Xor(a, b), c);
      XorHalves(a, Xor(b, c));
    }
  }

  lemma XorBelow128(a: nat, b: nat)
    requires a < 128 && b < 128
    ensures Xor(a, b) < 128
  {
    assert Pow2(7) == 128;
    XorBound(a, b, 7);
  }

  lemma XorBelow256(a: nat, b: nat)
    requires a < 256 && b < 256
    ensures Xor(a, b) < 256
  {
    assert Pow2(8) == 256;
    XorBound(a, b, 8);
  }

  /** Addition of the field. */
  function Add(a: gf, b: gf): gf {
    XorBelow256(a, b);
    Xor(a, b)
  }

  lemma AddSelf(a: gf)
    ensures Add(a, a) == 0
  {
    XorSelf(a);
  }

  lemma AddCommutes(a: gf, b: gf)
    ensures Add(a, b) == Add(b, a)
  {
    XorCommutes(a, b);
  }

  lemma AddAssociates(a: gf, b: gf, c: gf)
    ensures Add(Add(a, b), c) == Add(a, Add(b, c))
  {
    XorAssociates(a, b, c);
  }

  lemma AddSwap(a: gf, b: gf, c: gf, d: gf)
    ensures Add(Add(a, b), Add(c, d)) == Add(Add(a, c), Add(b, d))
  {
    hide *;
    AddAssociates(a, b, Add(c, d));
    AddAssociates(b, c, d);
    AddCommutes(b, c);
    AddAssociates(c, b, d);
    AddAssociates(a, c, Add(b, d));
  }

  /** Multiplication by the primitive element alpha = x. */
  function Double(a: gf): gf {
    if a < 128 then 2 * a else Add(2 * a - 256, 0x1d)
  }

  /** Numbers without a common bit: exclusive or is addition. */
  lemma {:induction false} XorDisjoint(h: nat, l: nat, n: nat)
    requires l < Pow2(n)
    ensures Xor(Pow2(n) * h, l) == Pow2(n) * h + l
    decreases n
  {
    if n > 0 {
      var m := Pow2(n - 1) * h;
      assert Pow2(n) * h == 2 * m;
      assert l / 2 < Pow2(n - 1);
      XorDisjoint(h, l / 2, n - 1);
      XorEven(m, l);
    }
  }

  lemma XorEven(m: nat, l: nat)
    ensures Xor(2 * m, l) == 2 * Xor(m, l / 2) + l % 2
  {
    XorHalves(2 * m, l);
  }

  lemma SplitTop(a: gf)
    requires a >= 128
    ensures a == Add(128, a - 128)
  {
    XorDisjoint(1, a - 128, 7);
  }

  lemma AddLow(a: gf, b: gf)
    requires a < 128 && b < 128
    ensures Add(a, b) < 128
    ensures Add(2 * a, 2 * b) == 2 * Add(a, b)
  {
    hide Xor;
    XorBelow128(a, b);
    XorHalves(2 * a, 2 * b);
  }

  lemma DoubleAdd(a: gf, b: gf)
    ensures Double(Add(a, b)) == Add(Double(a), Double(b))
  {
    if a < 128 && b < 128 {
      AddLow(a, b);
    } else if b < 128 {
      DoubleAddHigh(a, b);
    } else if a < 128 {
      DoubleAddHigh(b, a);
      AddCommutes(a, b);
      AddCommutes(Double(a), Double(b));
    } else {
      DoubleAddBothHigh(a, b);
    }
  }

  lemma DoubleAddHigh(a: gf, b: gf)
    requires a >= 128 > b
    ensures Double(Add(a, b)) == Add(Double(a), Double(b))
  {
    var a' := a - 128;
    SplitTop(a);
    AddAssociates(128, a', b);
    AddLow(a', b);
    var c := Add(a', b);
    assert Add(a, b) == 128 + c by { XorDisjoint(1, c, 7); }
    AddAssociates(2 * a', 0x1d, 2 * b);
    AddCommutes(0x1d, 2 * b);
    AddAssociates(2 * a', 2 * b, 0x1d);
  }

  lemma DoubleAddBothHigh(a: gf, b: gf)
    requires a >= 128 && b >= 128
    ensures Double(Add(a, b)) == Add(Double(a), Double(b))
  {
    var a', b' := a - 128, b - 128;
    SplitTop(a);
    SplitTop(b);
    AddSwap(128, a', 128, b');
    AddSelf(128);
    AddLow(a', b');
    AddSwap(2 * a', 0x1d, 2 * b', 0x1d);
    AddSelf(0x1d);
    AddCommutes(2 * Add(a', b'), 0);
  }

  /** Schoolbook multiplication: one shifted copy of `a` for every bit of `b`. */
  function Mul(a: gf, b: gf): gf
    decreases b
  {
    if b == 0 then 0 else Add(if b % 2 == 1 then a else 0, Double(Mul(a, b / 2)))
  }

  /** The element 2 stands for x: x^7 times x is x^8, which the polynomial x^8 + x^4 + x^3 + x^2 + 1 makes 0x1d. */
  lemma TimesTwo(a: gf)
    ensures Mul(a, 2) == if a < 128 then 2 * a else Add(2 * a - 256, 0x1d)
    ensures Mul(128, 2) == 0x1d
  {
    assert Mul(a, 1) == Add(a, Double(Mul(a, 0)));
    assert Mul(128, 1) == Add(128, Double(Mul(128, 0)));
  }

  lemma {:induction false} MulZeroLeft(b: gf)
    ensures Mul(0, b) == 0
    decreases b
  {
    if b != 0 {
      MulZeroLeft(b / 2);
    }
  }

  lemma {:induction false} MulOneLeft(b: gf)
    ensures Mul(1, b) == b
    decreases b
  {
    if b != 0 {
      MulOneLeft(b / 2);
      var low: gf := if b % 2 == 1 then 1 else 0;
      XorDisjoint(b / 2, low, 1);
      XorCommutes(2 * (b / 2), low);
    }
  }

  lemma {:induction false} MulAddLeft(a: gf, b: gf, c: gf)
    ensures Mul(Add(a, b), c) == Add(Mul(a, c), Mul(b, c))
    decreases c
  {
    if c != 0 {
      var x, y := Mul(a, c / 2), Mul(b, c / 2);
      MulAddLeft(a, b, c / 2);
      DoubleAdd(x, y);
      AddSwap(if c % 2 == 1 then a else 0, if c % 2 == 1 then b else 0, Double(x), Double(y));
    }
  }

  lemma {:induction false} MulDoubleLeft(a: gf, b: gf)
    ensures Mul(Double(a), b) == Double(Mul(a, b))
    decreases b
  {
    if b != 0 {
      MulDoubleLeft(a, b / 2);
      DoubleAdd(if b % 2 == 1 then a else 0, Double(Mul(a, b / 2)));
    }
  }

  lemma {:induction false} MulCommutes(a: gf, b: gf)
    ensures Mul(a, b) == Mul(b, a)
    decreases b
  {
    MulZeroLeft(a);
    if b != 0 {
      var low: gf := if b % 2 == 1 then 1 else 0;
      XorDisjoint(b / 2, low, 1);
      XorCommutes(2 * (b / 2), low);
      MulAddLeft(low, 2 * (b / 2), a);
      MulDoubleLeft(b / 2, a);
      MulCommutes(a, b / 2);
      MulOneLeft(a);
    }
  }

  lemma MulAddRight(a: gf, b: gf, c: gf)
    ensures Mul(a, Add(b, c)) == Add(Mul(a, b), Mul(a, c))
  {
    hide *;
    MulCommutes(a, Add(b, c));
    MulAddLeft(b, c, a);
    MulCommutes(a, b);
    MulCommutes(a, c);
  }

  lemma {:induction false} MulAssociates(a: gf, b: gf, c: gf)
    ensures Mul(Mul(a, b), c) == Mul(a, Mul(b, c))
    decreases c
  {
    if c != 0 {
      var bc := Mul(b, c / 2);
      MulAssociates(a, b, c / 2);
      MulAddRight(a, if c % 2 == 1 then b else 0, Double(bc));
      MulCommutes(a, Double(bc));
      MulDoubleLeft(bc, a);
      MulCommutes(bc, a);
    }
  }

  /** Powers of alpha. */
  function Exp(i: nat): gf {
    if i == 0 then 1 else Double(Exp(i - 1))
  }

  lemma {:induction false} ExpAdd(i: nat, j: nat)
    ensures Mul(Exp(i), Exp(j)) == Exp(i + j)
    decreases i
  {
    if i == 0 {
      MulOneLeft(Exp(j));
    } else {
      ExpAdd(i - 1, j);
      MulDoubleLeft(Exp(i - 1), Exp(j));
    }
  }

  lemma DoubleNonzero(a: gf)
    requires a != 0
    ensures Double(a) != 0
  {
    if a >= 128 {
      XorHalves(2 * a - 256, 0x1d);
    }
  }

  lemma {:induction false} ExpNonzero(i: nat)
    ensures Exp(i) != 0
  {
    if i > 0 {
      ExpNonzero(i - 1);
      DoubleNonzero(Exp(i - 1));
    }
  }

  /** A field element as its eight coefficients. */
  datatype Bits = Bits(b7: bool, b6: bool, b5: bool, b4: bool, b3: bool, b2: bool, b1: bool, b0: bool) {
    function Value(): gf {
      Weigh(Bit(b7), Bit(b6), Bit(b5), Bit(b4), Bit(b3), Bit(b2), Bit(b1), Bit(b0))
    }

    /** Multiplication by alpha. */
    function Shifted(): Bits {
      Bits(b6, b5, b4, b3 != b7, b2 != b7, b1 != b7, b0, b7)
    }

    /** Squaring, which is linear: bit i contributes alpha^(2i). */
    function Squared(): Bits {
      Bits(b6, b3 != (b5 != b6), b5, (b2 != b4) != (b5 != b7), b4 != b6, (b1 != b4) != (b5 != b6), b7,
           (b0 != b4) != (b6 != b7))
    }
  }

  type bit = x: int | 0 <= x < 2

  function Bit(b: bool): bit {
    if b then 1 else 0
  }

  function Weigh(v7: bit, v6: bit, v5: bit, v4: bit, v3: bit, v2: bit, v1: bit, v0: bit): gf {
    128 * v7 + 64 * v6 + 32 * v5 + 16 * v4 + 8 * v3 + 4 * v2 + 2 * v1 + v0
  }

  const ONE := Bits(false, false, false, false, false, false, false, true)

  function AlphaBits(i: nat): Bits {
    if i == 0 then ONE else AlphaBits(i - 1).Shifted()
  }

  lemma XorBit(a: nat, b: nat, p: bit, q: bit)
    ensures Xor(2 * a + p, 2 * b + q) == 2 * Xor(a, b) + (if p == q then 0 else 1)
  {
    hide *;
    XorHalves(2 * a + p, 2 * b + q);
  }

  /** Reduction of 2m modulo the field polynomial: bits 4, 3 and 2 flip and bit 0 is set. */
  lemma XorReduction(h: nat, c3: bit, c2: bit, c1: bit, c0: bit)
    ensures Xor(32 * h + 16 * c3 + 8 * c2 + 4 * c1 + 2 * c0, 0x1d)
            == 32 * h + 16 * (1 - c3) + 8 * (1 - c2) + 4 * (1 - c1) + 2 * c0 + 1
  {
    hide *;
    var m3 := 2 * h + c3;
    var m2 := 2 * m3 + c2;
    var m1 := 2 * m2 + c1;
    var m0 := 2 * m1 + c0;
    XorZero(h);
    XorBit(h, 0, c3, 1);
    assert Xor(m3, 1) == 2 * h + (1 - c3);
    XorBit(m3, 1, c2, 1);
    assert Xor(m2, 3) == 4 * h + 2 * (1 - c3) + (1 - c2);
    XorBit(m2, 3, c1, 1);
    assert Xor(m1, 7) == 8 * h + 4 * (1 - c3) + 2 * (1 - c2) + (1 - c1);
    XorBit(m1, 7, c0, 0);
    XorBit(m0, 14, 0, 1);
  }

  lemma DoubleHigh(h: nat, c3: bit, c2: bit, c1: bit, c0: bit)
    requires h < 8
    ensures Double(128 + 16 * h + 8 * c3 + 4 * c2 + 2 * c1 + c0)
            == 32 * h + 16 * (1 - c3) + 8 * (1 - c2) + 4 * (1 - c1) + 2 * c0 + 1
  {
    hide Xor, Pow2;
    XorReduction(h, c3, c2, c1, c0);
  }

  lemma DoubleBits(v7: bit, v6: bit, v5: bit, v4: bit, v3: bit, v2: bit, v1: bit, v0: bit, w4: bit, w3: bit, w2: bit)
    requires w4 == (if v7 == 0 then v3 else 1 - v3)
    requires w3 == (if v7 == 0 then v2 else 1 - v2)
    requires w2 == (if v7 == 0 then v1 else 1 - v1)
    ensures Weigh(v6, v5, v4, w4, w3, w2, v0, v7) == Double(Weigh(v7, v6, v5, v4, v3, v2, v1, v0))
  {
    if v7 == 1 {
      var h := 4 * v6 + 2 * v5 + v4;
      DoubleHigh(h, v3, v2, v1, v0);
      assert Weigh(v7, v6, v5, v4, v3, v2, v1, v0) == 128 + 16 * h + 8 * v3 + 4 * v2 + 2 * v1 + v0;
    }
  }

  lemma BitXor(b: bool, c: bool)
    ensures Bit(b != c) == (if Bit(c) == 0 then Bit(b) else 1 - Bit(b))
  {}

  lemma ShiftedDoubles(a: Bits)
    ensures a.Shifted().Value() == Double(a.Value())
  {
    hide Double, Bit, Weigh;
    BitXor(a.b3, a.b7);
    BitXor(a.b2, a.b7);
    BitXor(a.b1, a.b7);
    DoubleBits(Bit(a.b7), Bit(a.b6), Bit(a.b5), Bit(a.b4), Bit(a.b3), Bit(a.b2), Bit(a.b1), Bit(a.b0),
               Bit(a.b3 != a.b7), Bit(a.b2 != a.b7), Bit(a.b1 != a.b7));
  }

  lemma {:induction false} ExpBits(i: nat)
    ensures Exp(i) == AlphaBits(i).Value()
  {
    if i > 0 {
      ExpBits(i - 1);
      ShiftedDoubles(AlphaBits(i - 1));
    }
  }

  lemma SquaredShifted(a: Bits)
    ensures a.Shifted().Squared() == a.Squared().Shifted().Shifted()
  {}

  lemma {:induction false} AlphaBitsSquared(i: nat)
    ensures AlphaBits(2 * i) == AlphaBits(i).Squared()
  {
    if i > 0 {
      AlphaBitsSquared(i - 1);
      SquaredShifted(AlphaBits(i - 1));
      assert AlphaBits(2 * i - 1) == AlphaBits(2 * i - 2).Shifted();
      assert AlphaBits(2 * i) == AlphaBits(2 * i - 1).Shifted();
    }
  }

  lemma AlphaBitsOdd(i: nat)
    ensures AlphaBits(2 * i + 1) == AlphaBits(i).Squared().Shifted()
  {
    AlphaBitsSquared(i);
  }

  lemma AlphaBitsOne()
    ensures AlphaBits(1) == ONE.Shifted()
  {}

  lemma AlphaBitsOrder()
    ensures AlphaBits(15) != ONE && AlphaBits(51) != ONE && AlphaBits(85) != ONE && AlphaBits(255) == ONE
  {
    hide AlphaBits;
    AlphaBitsOne();
    AlphaBitsOdd(1);
    AlphaBitsOdd(3);
    AlphaBitsOdd(7);
    AlphaBitsSquared(3);
    AlphaBitsSquared(6);
    AlphaBitsOdd(12);
    AlphaBitsOdd(25);
    AlphaBitsSquared(1);
    AlphaBitsOdd(2);
    AlphaBitsSquared(5);
    AlphaBitsOdd(10);
    AlphaBitsSquared(21);
    AlphaBitsOdd(42);
    AlphaBitsOdd(15);
    AlphaBitsOdd(31);
    AlphaBitsOdd(63);
    AlphaBitsOdd(127);
  }

  lemma ValueOne(a: Bits)
    ensures a.Value() == 1 <==> a == ONE
  {}

  /** The order of alpha divides 255 and none of the maximal proper divisors of 255. */
  lemma AlphaOrder()
    ensures Exp(15) != 1 && Exp(51) != 1 && Exp(85) != 1 && Exp(255) == 1
  {
    hide *;
    AlphaBitsOrder();
    ExpBits(15);
    ExpBits(51);
    ExpBits(85);
    ExpBits(255);
    ValueOne(AlphaBits(15));
    ValueOne(AlphaBits(51));
    ValueOne(AlphaBits(85));
    ValueOne(AlphaBits(255));
  }

  lemma {:induction false} ExpMultiple(d: nat, m: nat)
    requires Exp(d) == 1
    ensures Exp(d * m) == 1
  {
    if m > 0 {
      ExpMultiple(d, m - 1);
      ExpAdd(d, d * (m - 1));
      assert d + d * (m - 1) == d * m;
      MulOneLeft(1);
    }
  }

  /** alpha is primitive: no smaller positive power is 1. */
  lemma {:induction false} AlphaPrimitive(d: nat)
    requires 0 < d < 255
    ensures Exp(d) != 1
    decreases d
  {
    hide *;
    if Exp(d) == 1 {
      AlphaOrder();
      var q, r := 255 / d, 255 % d;
      assert d * q + r == 255;
      ExpMultiple(d, q);
      ExpAdd(d * q, r);
      MulOneLeft(Exp(r));
      assert Exp(r) == 1;
      if r > 0 {
        AlphaPrimitive(r);
      }
      DivisorOf255(d, q);
    }
  }

  lemma DivisorOf255(d: nat, q: nat)
    requires 0 < d < 255 && d * q == 255 && Exp(d) == 1
    ensures Exp(15) == 1 || Exp(51) == 1 || Exp(85) == 1
  {
    hide *;
    if q % 3 == 0 {
      assert d * (q / 3) == 85;
      ExpMultiple(d, q / 3);
    } else if q % 5 == 0 {
      assert d * (q / 5) == 51;
      ExpMultiple(d, q / 5);
    } else {
      assert q % 17 == 0;
      assert d * (q / 17) == 15;
      ExpMultiple(d, q / 17);
    }
  }

  lemma ExpCancels(i: nat, j: nat)
    requires i <= j && Exp(i) == Exp(j)
    ensures Exp(j - i) == 1
    decreases i
  {
    if i > 0 {
      DoubleInjective(Exp(i - 1), Exp(j - 1));
      ExpCancels(i - 1, j - 1);
    }
  }

  lemma DoubleInjective(a: gf, b: gf)
    requires Double(a) == Double(b)
    ensures a == b
  {
    hide Add, Double;
    DoubleAdd(a, b);
    AddSelf(Double(a));
    if Add(a, b) != 0 {
      DoubleNonzero(Add(a, b));
    }
    AddZero(a, b);
  }

  lemma AddZero(a: gf, b: gf)
    ensures Add(a, b) == 0 <==> a == b
  {
    hide Add;
    if Add(a, b) == 0 {
      AddSelf(a);
      AddAssociates(a, a, b);
      AddIdentity(a);
      AddIdentity(b);
    }
    AddSelf(a);
  }

  lemma AddIdentity(a: gf)
    ensures Add(0, a) == a && Add(a, 0) == a
  {}

  lemma ExpDistinct(i: nat, j: nat)
    requires i < j < 255
    ensures Exp(i) != Exp(j)
  {
    hide *;
    if Exp(i) == Exp(j) {
      ExpCancels(i, j);
      AlphaPrimitive(j - i);
    }
  }

  lemma ExpPeriod(i: nat)
    ensures Exp(i + 255) == Exp(i)
  {
    hide *;
    AlphaOrder();
    ExpAdd(255, i);
    MulOneLeft(Exp(i));
  }

  lemma {:induction false} ExpModulo(i: nat)
    ensures Exp(i % 255) == Exp(i)
  {
    hide *;
    if i >= 255 {
      ExpModulo(i - 255);
      ExpPeriod(i - 255);
    }
  }

  ghost function Powers(n: nat): set<gf> {
    set i | 0 <= i < n :: Exp(i)
  }

  lemma {:induction false} PowersSize(n: nat)
    requires n <= 255
    ensures |Powers(n)| == n
  {
    hide Exp;
    if n > 0 {
      PowersSize(n - 1);
      if Exp(n - 1) in Powers(n - 1) {
        var i :| 0 <= i < n - 1 && Exp(i) == Exp(n - 1);
        ExpDistinct(i, n - 1);
      }
      assert Powers(n) == Powers(n - 1) + {Exp(n - 1)};
    }
  }

  ghost function Below(n: nat): (r: set<gf>)
    requires n <= 256
    ensures |r| == n && forall x: gf :: x in r <==> x < n
  {
    if n == 0 then {} else Below(n - 1) + {n - 1}
  }

  lemma SubsetOfSameSize<T>(a: set<T>, b: set<T>)
    requires a <= b && |a| == |b|
    ensures a == b
  {
    assert b == a + (b - a);
    assert |b - a| == 0;
  }

  /** Every nonzero element is a power of alpha. */
  lemma EveryNonzeroIsPower(a: gf)
    requires a != 0
    ensures exists i :: 0 <= i < 255 && Exp(i) == a
  {
    hide Exp, Below;
    var all := Below(256);
    PowersSize(255);
    forall i | 0 <= i < 255 ensures Exp(i) != 0 { ExpNonzero(i); }
    assert Powers(255) <= all - {0};
    SubsetOfSameSize(Powers(255), all - {0});
    assert a in Powers(255);
  }

  /** The discrete logarithm to the base alpha. */
  ghost function Log(a: gf): (i: nat)
    requires a != 0
    ensures i < 255 && Exp(i) == a
  {
    EveryNonzeroIsPower(a);
    var i :| 0 <= i < 255 && Exp(i) == a;
    i
  }

  ghost function Inv(a: gf): gf {
    if a == 0 then 0 else Exp(255 - Log(a))
  }

  lemma MulInverse(a: gf)
    requires a != 0
    ensures Mul(a, Inv(a)) == 1 && Mul(Inv(a), a) == 1
  {
    hide Exp, Mul;
    ExpAdd(Log(a), 255 - Log(a));
    AlphaOrder();
    MulCommutes(a, Inv(a));
  }

  lemma MulNonzero(a: gf, b: gf)
    requires a != 0 && b != 0
    ensures Mul(a, b) != 0
  {
    hide *;
    if Mul(a, b) == 0 {
      MulInverse(a);
      MulAssociates(Inv(a), a, b);
      MulOneLeft(b);
      MulZero(Inv(a));
    }
  }

  lemma MulZero(a: gf)
    ensures Mul(a, 0) == 0 && Mul(0, a) == 0
  {
    MulZeroLeft(a);
  }

  /** Multiplication goes through logarithms, as the table is built. */
  lemma MulByLogs(a: gf, b: gf)
    requires a != 0 && b != 0
    ensures Mul(a, b) == Exp((Log(a) + Log(b)) % 255)
  {
    hide *;
    ExpAdd(Log(a), Log(b));
    ExpModulo(Log(a) + Log(b));
  }
}
