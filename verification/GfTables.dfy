/** The lookup tables of the codec, filled in place as generate_gf and _init_mul_table do. */
module GfTables {
  import opened Gf256

  /** Coefficients of the field polynomial, lowest degree first. */
  const PP := "101110001"

  /** x mod 255 without a division. */
  method Modnn(x0: nat) returns (x: gf)
    ensures x == x0 % 255
  {
    var y := x0;
    while y >= 255
      invariant y >= 0 && y % 255 == x0 % 255
      decreases y
    {
      y := y - 255;
      FoldModulo(y);
      y := y / 256 + y % 256;
    }
    x := y;
  }

  lemma FoldModulo(y: nat)
    ensures (y / 256 + y % 256) % 255 == y % 255
    ensures (y + 255) % 255 == y % 255
    ensures y / 256 + y % 256 < y + 255
  {
    var h, l := y / 256, y % 256;
    assert y == 255 * h + (h + l);
  }

  /** The part of alpha^8 contributed by the first i coefficients of the polynomial. */
  function AlphaEight(i: nat): gf
    requires i <= 8
  {
    if i == 0 then 0
    else if PP[i - 1] == '1' then Add(AlphaEight(i - 1), Exp(i - 1))
    else AlphaEight(i - 1)
  }

  lemma SmallPowers()
    ensures Exp(0) == 1 && Exp(1) == 2 && Exp(2) == 4 && Exp(3) == 8 && Exp(4) == 16
    ensures Exp(5) == 32 && Exp(6) == 64 && Exp(7) == 128 && Exp(8) == 0x1d
  {
    assert Exp(4) == 16;
    assert Exp(7) == 128;
    AddIdentity(0x1d);
  }

  lemma AlphaEightComplete()
    ensures AlphaEight(8) == Exp(8)
  {
    SmallPowers();
    AddIdentity(1);
    assert AlphaEight(2) == 1;
    XorDisjoint(1, 1, 2);
    AddCommutes(1, 4);
    assert Pow2(2) == 4 && AlphaEight(3) == 5;
    XorDisjoint(1, 5, 3);
    AddCommutes(5, 8);
    assert Pow2(3) == 8 && AlphaEight(4) == 13;
    XorDisjoint(1, 13, 4);
    AddCommutes(13, 16);
    assert Pow2(4) == 16 && AlphaEight(5) == 29;
  }

  lemma ClearTop(a: gf)
    requires a >= 128
    ensures Add(a, 128) == a - 128
  {
    hide Add;
    SplitTop(a);
    AddCommutes(128, a - 128);
    AddAssociates(a - 128, 128, 128);
    AddSelf(128);
    AddIdentity(a - 128);
  }

  /** One step of the table of powers, as the code computes it. */
  lemma NextPower(i: nat)
    requires i > 0
    ensures Exp(i - 1) < 128 ==> Exp(i) == 2 * Exp(i - 1)
    ensures Exp(i - 1) >= 128 ==> 2 * Add(Exp(i - 1), 128) < 256
    ensures Exp(i - 1) >= 128 ==> Exp(i) == Add(0x1d, 2 * Add(Exp(i - 1), 128))
  {
    var e := Exp(i - 1);
    if e >= 128 {
      hide Add;
      ClearTop(e);
      AddCommutes(0x1d, 2 * (e - 128));
    }
  }

  lemma NewPower(i: nat)
    requires i < 255
    ensures Exp(i) != 0
    ensures forall j :: 0 <= j < i ==> Exp(j) != Exp(i)
  {
    hide *;
    ExpNonzero(i);
    forall j | 0 <= j < i ensures Exp(j) != Exp(i) { ExpDistinct(j, i); }
  }

  class Tables {
    const exp: array<gf>
    const log: array<nat>
    const inverse: array<gf>
    const mul: array2<gf>
    const mul16: array2<gf>

    ghost predicate Shape() {
      && exp.Length == 510 && log.Length == 256 && inverse.Length == 256 && exp != inverse
      && mul.Length0 == 256 && mul.Length1 == 256 && mul16.Length0 == 256 && mul16.Length1 == 16
      && mul != mul16
    }

    ghost predicate PowersFilled()
      requires Shape()
      reads exp, log, inverse
    {
      && (forall i :: 0 <= i < 510 ==> exp[i] == Exp(i % 255))
      && log[0] == 255
      && (forall a: gf :: a != 0 ==> log[a] == Log(a))
      && (forall a: gf :: inverse[a] == Inv(a))
    }

    ghost predicate ProductsFilled()
      requires Shape()
      reads mul, mul16
    {
      && (forall a: gf, b: gf :: mul[a, b] == Mul(a, b))
      && (forall a: gf, b :: 0 <= b < 16 ==> mul16[a, b] == Mul(a, 16 * b))
    }

    /** Everything the codec reads is the field. */
    ghost predicate Valid()
      reads exp, log, inverse, mul, mul16
    {
      Shape() && PowersFilled() && ProductsFilled()
    }

    constructor ()
      ensures Valid() && fresh(exp) && fresh(log) && fresh(inverse) && fresh(mul) && fresh(mul16)
    {
      exp := new gf[510](_ => 0);
      log := new nat[256](_ => 0);
      inverse := new gf[256](_ => 0);
      mul := new gf[256, 256]((_, _) => 0);
      mul16 := new gf[256, 16]((_, _) => 0);
      new;
      GenerateGf();
      InitMulTable();
    }

    method GenerateGf()
      requires Shape()
      modifies exp, log, inverse
      ensures PowersFilled()
    {
      hide *;
      FillLowPowers();
      FillHighPowers();
      FillRest();
    }

    /** alpha^0 .. alpha^8: the shifted bits and the polynomial itself. */
    method FillLowPowers()
      requires Shape()
      modifies exp, log
      ensures forall j :: 0 <= j < 9 ==> exp[j] == Exp(j) && log[Exp(j)] == j
    {
      hide Exp, Add, AlphaEight;
      var mask: gf := 1;
      exp[8] := 0;
      SmallPowers();
      AlphaEightSteps(0);
      for i := 0 to 8
        invariant i < 8 ==> mask == Exp(i)
        invariant exp[8] == AlphaEight(i)
        invariant forall j :: 0 <= j < i ==> exp[j] == Exp(j) && log[Exp(j)] == j
      {
        exp[i] := mask;
        NewPower(i);
        AlphaEightSteps(i);
        log[exp[i]] := i;
        if PP[i] == '1' {
          exp[8] := Add(exp[8], mask);
        }
        mask := 2 * mask % 256;
      }
      AlphaEightComplete();
      NewPower(8);
      log[exp[8]] := 8;
    }

    method FillHighPowers()
      requires Shape()
      requires forall j :: 0 <= j < 9 ==> exp[j] == Exp(j) && log[Exp(j)] == j
      modifies exp, log
      ensures forall j :: 0 <= j < 255 ==> exp[j] == Exp(j) && log[Exp(j)] == j
    {
      hide Exp, Add;
      var mask: gf := 128;
      SmallPowers();
      for i := 9 to 255
        invariant forall j :: 0 <= j < i ==> exp[j] == Exp(j) && log[Exp(j)] == j
      {
        NextPower(i);
        NewPower(i);
        if exp[i - 1] >= mask {
          exp[i] := Add(exp[8], 2 * Add(exp[i - 1], mask));
        } else {
          exp[i] := 2 * exp[i - 1];
        }
        log[exp[i]] := i;
      }
    }

    /** The logarithm of 0, the second copy of the powers and the inverses. */
    method FillRest()
      requires Shape()
      requires forall j :: 0 <= j < 255 ==> exp[j] == Exp(j) && log[Exp(j)] == j
      modifies exp, log, inverse
      ensures PowersFilled()
    {
      hide Exp;
      forall j | 0 <= j < 255 ensures Exp(j) != 0 { ExpNonzero(j); }
      log[0] := 255;
      LogsRecovered();
      RepeatPowers();
      FillInverses();
    }

    method RepeatPowers()
      requires Shape()
      requires forall j :: 0 <= j < 255 ==> exp[j] == Exp(j)
      modifies exp
      ensures forall j :: 0 <= j < 510 ==> exp[j] == Exp(j % 255)
    {
      hide Exp;
      for i := 0 to 255
        invariant forall j :: 0 <= j < 255 ==> exp[j] == Exp(j)
        invariant forall j :: 255 <= j < i + 255 ==> exp[j] == Exp(j % 255)
      {
        exp[i + 255] := exp[i];
      }
    }

    method FillInverses()
      requires Shape()
      requires forall j :: 0 <= j < 510 ==> exp[j] == Exp(j % 255)
      requires forall a: gf :: a != 0 ==> log[a] == Log(a)
      modifies inverse
      ensures forall a: gf :: inverse[a] == Inv(a)
    {
      hide Exp, Log;
      inverse[0] := 0;
      inverse[1] := 1;
      LogOfOne();
      for i := 2 to 256
        invariant forall a: gf :: a < i ==> inverse[a] == Inv(a)
      {
        ExpModulo(255 - Log(i));
        inverse[i] := exp[255 - log[i]];
      }
    }

    lemma LogsRecovered()
      requires Shape()
      requires forall j :: 0 <= j < 255 ==> log[Exp(j)] == j
      ensures forall a: gf :: a != 0 ==> log[a] == Log(a)
    {
      hide Exp, Log;
      forall a: gf | a != 0 ensures log[a] == Log(a) {
        assert log[Exp(Log(a))] == Log(a);
      }
    }

    method InitMulTable()
      requires Shape() && PowersFilled()
      modifies mul, mul16
      ensures ProductsFilled()
    {
      hide Exp, Log, Mul;
      for i: int := 0 to 256
        invariant forall a: gf, b: gf :: a < i && a != 0 && b != 0 ==> mul[a, b] == Mul(a, b)
      {
        for j: int := 0 to 256
          invariant forall a: gf, b: gf :: (a < i || (a == i && b < j)) && a != 0 && b != 0 ==> mul[a, b] == Mul(a, b)
        {
          var m := Modnn(log[i] + log[j]);
          mul[i, j] := exp[m];
          if i != 0 && j != 0 {
            MulByLogs(i, j);
          }
        }
      }
      for j: int := 0 to 256
        invariant forall a: gf, b: gf :: (a != 0 && b != 0) || (a < j && b == 0) || (a == 0 && b < j) ==> mul[a, b] == Mul(a, b)
      {
        MulZero(j);
        mul[j, 0] := 0;
        mul[0, j] := 0;
      }
      for i: int := 0 to 256
        invariant forall a: gf, b: gf :: mul[a, b] == Mul(a, b)
        invariant forall a: gf, b :: a < i && 0 <= b < 16 ==> mul16[a, b] == Mul(a, 16 * b)
      {
        for j: int := 0 to 16
          invariant forall a: gf, b: gf :: mul[a, b] == Mul(a, b)
          invariant forall a: gf, b :: (a < i || (a == i && b < j)) && 0 <= b < 16 ==> mul16[a, b] == Mul(a, 16 * b)
        {
          mul16[i, j] := mul[i, 16 * j];
        }
      }
    }
  }

  lemma AlphaEightSteps(i: nat)
    requires i < 8
    ensures AlphaEight(0) == 0
    ensures AlphaEight(i + 1) == if PP[i] == '1' then Add(AlphaEight(i), Exp(i)) else AlphaEight(i)
  {
    hide Exp, Add;
  }

  lemma LogOfOne()
    ensures Inv(0) == 0 && Inv(1) == 1
  {
    hide Exp;
    MulInverse(1);
    MulOneLeft(Inv(1));
  }
}
