/** The systematic encoding matrix: what it is, why any k of its rows determine the data, and how
    fec_new builds it. */
module EncodingMatrix {
  import opened Gf256
  import opened LinearAlgebra
  import opened Polynomial
  import GfTables
  import Vandermonde
  import opened GaussJordan
  import opened Sequences

  predicate Parameters(k: nat, n: nat) {
    1 <= k <= n < 256
  }

  /** The evaluation point of fragment r: 0, then the powers of alpha. */
  function Point(r: nat): gf {
    if r == 0 then 0 else Exp(r - 1)
  }

  function Points(k: nat): seq<gf> {
    seq(k, r requires 0 <= r < k => Point(r))
  }

  lemma PointsDistinct(r: nat, s: nat)
    requires r < s < 256
    ensures Point(r) != Point(s)
  {
    hide Exp;
    if r == 0 {
      ExpNonzero(s - 1);
    } else {
      ExpDistinct(r - 1, s - 1);
    }
  }

  /** Row r holds the values at point r of the polynomials that are 1 at one data point and 0 at the others. */
  ghost function EncodingRow(k: nat, r: nat): (v: Vec)
    ensures |v| == k
  {
    seq(k, j requires 0 <= j < k => Eval(Lagrange(Points(k), j), Point(r)))
  }

  ghost function Matrix(k: nat, n: nat): (m: Mat)
    ensures |m| == n && forall i :: 0 <= i < n ==> |m[i]| == k
  {
    seq(n, r requires 0 <= r < n => EncodingRow(k, r))
  }

  lemma AllPointsDistinct(k: nat)
    requires k < 256
    ensures Distinct(Points(k))
  {
    forall i, j | 0 <= i < j < k ensures Points(k)[i] != Points(k)[j] {
      PointsDistinct(i, j);
    }
  }

  /** The first k fragments are the data. */
  lemma Systematic(k: nat, r: nat)
    requires r < k < 256
    ensures EncodingRow(k, r) == Unit(k, r)
  {
    hide Eval, Lagrange;
    AllPointsDistinct(k);
    forall j | 0 <= j < k ensures EncodingRow(k, r)[j] == Unit(k, r)[j] {
      assert Points(k)[r] == Point(r);
      LagrangeAt(Points(k), j, r);
    }
  }

  /** The polynomial of degree below k through the first n data bytes (and 0 at the other data points). */
  ghost function Interpolate(x: Vec, n: nat): (z: Vec)
    requires n <= |x|
    ensures |z| == |x|
  {
    if n == 0 then Zeros(|x|) else Axpy(Interpolate(x, n - 1), x[n - 1], Lagrange(Points(|x|), n - 1))
  }

  lemma {:induction false} InterpolateEval(x: Vec, r: nat, n: nat)
    requires n <= |x|
    ensures Eval(Interpolate(x, n), Point(r)) == DotTo(EncodingRow(|x|, r), x, n)
  {
    hide Mul, Add, Eval, Lagrange, Axpy;
    if n == 0 {
      EvalZeros(|x|, Point(r));
    } else {
      var l := Lagrange(Points(|x|), n - 1);
      InterpolateEval(x, r, n - 1);
      EvalAxpy(Interpolate(x, n - 1), x[n - 1], l, Point(r));
      MulCommutes(x[n - 1], Eval(l, Point(r)));
    }
  }

  /** A Reed-Solomon code: fragment r is the value at point r of the polynomial through the data. */
  lemma FragmentIsEvaluation(x: Vec, r: nat)
    ensures Dot(EncodingRow(|x|, r), x) == Eval(Interpolate(x, |x|), Point(r))
  {
    InterpolateEval(x, r, |x|);
  }

  ghost function Select(k: nat, index: seq<nat>): (m: Mat)
    ensures |m| == |index| && forall i :: 0 <= i < |m| ==> |m[i]| == k
  {
    seq(|index|, i requires 0 <= i < |index| => EncodingRow(k, index[i]))
  }

  /** Any k distinct fragments determine the data. */
  lemma AnyRowsNonsingular(k: nat, index: seq<nat>)
    requires |index| == k < 256 && Distinct(index) && forall i :: 0 <= i < k ==> index[i] < 256
    ensures Nonsingular(Select(k, index), k)
  {
    hide Dot, EncodingRow;
    forall x: Vec | |x| == k && Maps(Select(k, index), x, Zeros(k)) ensures x == Zeros(k) {
      KernelIsZero(k, index, x);
    }
  }

  lemma KernelIsZero(k: nat, index: seq<nat>, x: Vec)
    requires |index| == |x| == k < 256 && Distinct(index) && forall i :: 0 <= i < k ==> index[i] < 256
    requires Maps(Select(k, index), x, Zeros(k))
    ensures x == Zeros(k)
  {
    hide Dot, EncodingRow, Eval, Interpolate, Point;
    var z := Interpolate(x, k);
    var pts := seq(k, i requires 0 <= i < k => Point(index[i]));
    forall i | 0 <= i < k ensures Eval(z, pts[i]) == 0 {
      FragmentIsEvaluation(x, index[i]);
      assert Zeros(k)[i] == Dot(Select(k, index)[i], x);
    }
    forall i, j | 0 <= i < j < k ensures pts[i] != pts[j] {
      if index[i] < index[j] {
        PointsDistinct(index[i], index[j]);
      } else {
        PointsDistinct(index[j], index[i]);
      }
    }
    RootBound(z, pts);
    forall i | 0 <= i < k ensures x[i] == 0 {
      EvalZeros(k, Point(i));
      FragmentIsEvaluation(x, i);
      Systematic(k, i);
      DotUnit(x, i);
    }
  }

  /** The values of a polynomial at the data points. */
  ghost function Values(z: Vec): (x: Vec)
    ensures |x| == |z|
  {
    seq(|z|, i requires 0 <= i < |z| => Eval(z, Point(i)))
  }

  /** Interpolating the values of a polynomial gives its values everywhere. */
  lemma InterpolatesValues(z: Vec, y: gf)
    requires |z| < 256
    ensures Eval(Interpolate(Values(z), |z|), y) == Eval(z, y)
  {
    hide Dot, EncodingRow, Eval, Interpolate, Point, Add, Mul, Axpy;
    var k, x := |z|, Values(z);
    var u := Interpolate(x, k);
    var d := Axpy(u, 1, z);
    AllPointsDistinct(k);
    forall i | 0 <= i < k ensures Eval(d, Points(k)[i]) == 0 {
      FragmentIsEvaluation(x, i);
      Systematic(k, i);
      DotUnit(x, i);
      EvalAxpy(u, 1, z, Point(i));
      MulOneLeft(Eval(z, Point(i)));
      AddSelf(Eval(z, Point(i)));
    }
    AxpySize(u, z);
    RootBound(d, Points(k));
    EvalAxpy(u, 1, z, y);
    MulOneLeft(Eval(z, y));
    EvalZeros(k, y);
    AddZero(Eval(u, y), Eval(z, y));
  }

  lemma AxpySize(u: Vec, z: Vec)
    requires |u| == |z|
    ensures |Axpy(u, 1, z)| == |z|
  {}

  /** With a repeated fragment number the rows do not determine the data: the polynomial with the other
      fragments' points as roots is in the kernel. */
  lemma RepeatedRowSingular(k: nat, index: seq<nat>, i: nat, j: nat)
    requires |index| == k < 256 && i < j < k && index[i] == index[j]
    ensures !Nonsingular(Select(k, index), k)
  {
    hide Dot, EncodingRow, Eval, Interpolate, Point, FromRoots, Values;
    var others := index[..j] + index[j + 1..];
    var pts := seq(k - 1, l requires 0 <= l < k - 1 => Point(others[l]));
    var z := FromRoots(pts);
    var x := Values(z);
    forall r | 0 <= r < k ensures Dot(Select(k, index)[r], x) == Zeros(k)[r] {
      var l := if r < j then r else if r == j then i else r - 1;
      assert others[l] == index[r];
      FromRootsVanishes(pts, l);
      InterpolatesValues(z, Point(index[r]));
      FragmentIsEvaluation(x, index[r]);
    }
    assert Maps(Select(k, index), x, Zeros(k));
    if x == Zeros(k) {
      ValuesZero(z);
      FromRootsLead(pts);
    }
  }

  lemma ValuesZero(z: Vec)
    requires |z| < 256 && Values(z) == Zeros(|z|)
    ensures z == Zeros(|z|)
  {
    hide Eval, Point;
    AllPointsDistinct(|z|);
    forall i | 0 <= i < |z| ensures Eval(z, Points(|z|)[i]) == 0 {
      assert Values(z)[i] == 0;
    }
    RootBound(z, Points(|z|));
  }

  /** The rows of k fragments determine the data if and only if the fragment numbers are distinct. */
  lemma NonsingularExactly(k: nat, index: seq<nat>)
    requires |index| == k < 256 && forall i :: 0 <= i < k ==> index[i] < 256
    ensures Nonsingular(Select(k, index), k) <==> Distinct(index)
  {
    hide Nonsingular, Select;
    if Distinct(index) {
      AnyRowsNonsingular(k, index);
    } else {
      var i, j :| 0 <= i < j < k && index[i] == index[j];
      RepeatedRowSingular(k, index, i, j);
    }
  }

  // ----- construction

  lemma PowZero(j: nat)
    ensures Pow(0, j) == if j == 0 then 1 else 0
  {
    hide Mul;
    if j > 0 {
      MulZero(Pow(0, j - 1));
    }
  }

  lemma {:induction false} PowExp(a: nat, j: nat)
    ensures Pow(Exp(a), j) == Exp(a * j)
  {
    hide Mul, Exp;
    if j == 0 {
      assert a * j == 0;
      ExpZero();
    } else {
      PowExp(a, j - 1);
      ExpAdd(a, a * (j - 1));
      assert a + a * (j - 1) == a * j;
    }
  }

  lemma ExpZero()
    ensures Exp(0) == 1
  {}

  // ----- which code it is

  /** The data column of the monomial x^d: its values at 0 and at alpha^0, alpha^1, ... */
  function MonomialColumn(k: nat, d: nat): (v: Vec)
    ensures |v| == k
  {
    seq(k, j requires 0 <= j < k => if j > 0 then Exp((j - 1) * d) else if d == 0 then 1 else 0)
  }

  lemma EvalMonomial(k: nat, d: nat, x: gf)
    requires d < k
    ensures Eval(Unit(k, d), x) == Pow(x, d)
  {
    hide Dot, Eval, Pow;
    VdmRowEvaluates(x, Unit(k, d));
    DotUnit(VdmRow(x, k), d);
  }

  lemma PowPoint(r: nat, d: nat)
    ensures Pow(Point(r), d) == if r > 0 then Exp((r - 1) * d) else if d == 0 then 1 else 0
  {
    hide Pow, Exp;
    if r == 0 {
      PowZero(d);
    } else {
      PowExp(r - 1, d);
    }
  }

  /** Fragment r >= 1 of the data column 0^d, alpha^0, alpha^d, alpha^2d, ... is alpha^((r - 1) d): the code
      is evaluation at 0, alpha^0, alpha^1, ... */
  lemma MonomialFragment(k: nat, r: nat, d: nat)
    requires d < k < 256 && r >= 1
    ensures Dot(EncodingRow(k, r), MonomialColumn(k, d)) == Exp((r - 1) * d)
  {
    hide Dot, EncodingRow, Eval, Interpolate, Point, Pow, Exp;
    var z := Unit(k, d);
    forall j | 0 <= j < k ensures Values(z)[j] == MonomialColumn(k, d)[j] {
      EvalMonomial(k, d, Point(j));
      PowPoint(j, d);
    }
    assert Values(z) == MonomialColumn(k, d);
    FragmentIsEvaluation(Values(z), r);
    InterpolatesValues(z, Point(r));
    EvalMonomial(k, d, Point(r));
    PowPoint(r, d);
  }

  /** The first m monomials with coefficients z. */
  ghost function Combination(k: nat, z: Vec, m: nat): (v: Vec)
    requires m <= |z|
    ensures |v| == k
  {
    if m == 0 then Zeros(k) else Axpy(Combination(k, z, m - 1), z[m - 1], MonomialColumn(k, m - 1))
  }

  lemma {:induction false} CombinationAt(k: nat, z: Vec, m: nat, j: nat)
    requires m <= |z| == k && j < k
    ensures Combination(k, z, m)[j] == DotTo(VdmRow(Point(j), k), z, m)
  {
    hide Mul, Add, Pow, Exp, Point;
    if m > 0 {
      CombinationAt(k, z, m - 1, j);
      PowPoint(j, m - 1);
      MulCommutes(z[m - 1], Pow(Point(j), m - 1));
    }
  }

  lemma {:induction false} CombinationDot(k: nat, z: Vec, m: nat, u: Vec, v: Vec)
    requires m <= |z| == |u| == |v| == k
    requires forall d :: 0 <= d < k ==> Dot(u, MonomialColumn(k, d)) == Dot(v, MonomialColumn(k, d))
    ensures Dot(Combination(k, z, m), u) == Dot(Combination(k, z, m), v)
  {
    hide Mul, Add, Dot, MonomialColumn;
    if m == 0 {
      DotNothing(u);
      DotNothing(v);
    } else {
      var c := MonomialColumn(k, m - 1);
      CombinationDot(k, z, m - 1, u, v);
      DotAxpy(Combination(k, z, m - 1), z[m - 1], c, u);
      DotAxpy(Combination(k, z, m - 1), z[m - 1], c, v);
      DotCommutes(u, c);
      DotCommutes(v, c);
    }
  }

  lemma DotNothing(u: Vec)
    ensures Dot(Zeros(|u|), u) == 0
  {
    DotZeros(Zeros(|u|), u, |u|);
  }

  lemma UnitIsCombination(k: nat, j: nat)
    requires j < k < 256
    ensures Combination(k, Lagrange(Points(k), j), k) == Unit(k, j)
  {
    hide Mul, Add, Eval, Lagrange, Combination, Point, Pow;
    var z := Lagrange(Points(k), j);
    AllPointsDistinct(k);
    forall i | 0 <= i < k ensures Combination(k, z, k)[i] == Unit(k, j)[i] {
      CombinationAt(k, z, k, i);
      VdmRowEvaluates(Point(i), z);
      LagrangeAt(Points(k), j, i);
    }
  }

  /** No other row does that: the row is fixed by its fragments of the monomial columns. */
  lemma OnlyRow(k: nat, r: nat, v: Vec)
    requires |v| == k < 256 && r >= 1
    requires forall d :: 0 <= d < k ==> Dot(v, MonomialColumn(k, d)) == Exp((r - 1) * d)
    ensures v == EncodingRow(k, r)
  {
    hide Dot, EncodingRow, MonomialColumn, Exp, Combination, Lagrange;
    var u := EncodingRow(k, r);
    forall d | 0 <= d < k ensures Dot(u, MonomialColumn(k, d)) == Dot(v, MonomialColumn(k, d)) {
      MonomialFragment(k, r, d);
    }
    forall j | 0 <= j < k ensures u[j] == v[j] {
      CombinationDot(k, Lagrange(Points(k), j), k, u, v);
      UnitIsCombination(k, j);
      DotUnit(u, j);
      DotUnit(v, j);
    }
  }

  lemma ExpOne()
    ensures Exp(0) == 1 && Exp(1) == 2
  {}

  lemma DotTwo(u: Vec, v: Vec)
    requires |u| == |v| == 2
    ensures Dot(u, v) == Add(Mul(u[0], v[0]), Mul(u[1], v[1]))
  {
    hide Add, Mul;
    assert DotTo(u, v, 1) == Add(DotTo(u, v, 0), Mul(u[0], v[0]));
    AddIdentity(Mul(u[0], v[0]));
  }

  /** With two data packets the first parity is three times the first plus twice the second. */
  lemma FirstParityOfTwo(n: nat)
    requires 3 <= n < 256
    ensures Matrix(2, n)[2] == [3, 2]
  {
    hide Dot, EncodingRow, Exp, Add, Mul;
    var u := EncodingRow(2, 2);
    ExpOne();
    MonomialFragment(2, 2, 0);
    MonomialFragment(2, 2, 1);
    assert MonomialColumn(2, 0) == [1, 1] && MonomialColumn(2, 1) == [0, 1];
    DotTwo(u, [1, 1]);
    DotTwo(u, [0, 1]);
    TimesOne(u[0]);
    TimesOne(u[1]);
    AddIdentity(u[1]);
    assert u[1] == 2;
    OneMore(u[0]);
  }

  lemma TimesOne(a: gf)
    ensures Mul(a, 1) == a && Mul(a, 0) == 0
  {
    hide Mul;
    MulOneLeft(a);
    MulCommutes(a, 1);
    MulZero(a);
  }

  lemma OneMore(a: gf)
    requires Add(a, 2) == 1
    ensures a == 3
  {
    assert Add(3, 2) == 1;
    AddZero(a, 3);
    AddAssociates(a, 2, Add(2, 3));
    AddAssociates(a, 2, 2);
    AddSelf(2);
    AddIdentity(a);
  }

  /** All n points' powers, the first row by hand and the others through the exponent table. */
  method FillPowers(t: GfTables.Tables, k: nat, n: nat) returns (tmp: array2<gf>)
    requires t.Valid() && Parameters(k, n)
    ensures fresh(tmp) && tmp.Length0 == n && tmp.Length1 == k
    ensures forall r, j :: 0 <= r < n && 0 <= j < k ==> tmp[r, j] == Pow(Point(r), j)
  {
    hide Pow, Exp;
    tmp := new gf[n, k]((_, _) => 0);
    tmp[0, 0] := 1;
    PowZero(0);
    for col := 1 to k
      invariant forall j :: 0 <= j < col ==> tmp[0, j] == Pow(Point(0), j)
    {
      PowZero(col);
      tmp[0, col] := 0;
    }
    for row := 0 to n - 1
      invariant forall r, j :: 0 <= r < row + 1 && 0 <= j < k ==> tmp[r, j] == Pow(Point(r), j)
    {
      for col := 0 to k
        invariant forall r, j :: 0 <= j < k && (0 <= r < row + 1 || (r == row + 1 && j < col)) ==>
          tmp[r, j] == Pow(Point(r), j)
      {
        var e := GfTables.Modnn(row * col);
        PowExp(row, col);
        ExpModulo(row * col);
        tmp[row + 1, col] := t.exp[e];
      }
    }
  }

  /** Column j of the top k rows. */
  function Column(m: Mat, k: nat, j: nat): (v: Vec)
    requires k <= |m| && forall i :: 0 <= i < k ==> j < |m[i]|
    ensures |v| == k
  {
    seq(k, i requires 0 <= i < k => m[i][j])
  }

  method RowTimesColumn(t: GfTables.Tables, tmp: array2<gf>, row: nat, col: nat, k: nat) returns (acc: gf)
    requires t.Valid() && row < tmp.Length0 && col < k <= tmp.Length0 && tmp.Length1 == k
    ensures acc == Dot(Rows(tmp)[row], Column(Rows(tmp), k, col))
  {
    hide Mul, Add, DotTo;
    ghost var u, v := Rows(tmp)[row], Column(Rows(tmp), k, col);
    acc := 0;
    DotNone(u, v);
    for i := 0 to k
      invariant acc == DotTo(u, v, i)
    {
      DotNext(u, v, i);
      acc := Add(acc, t.mul[tmp[row, i], tmp[i, col]]);
    }
  }

  /** Rows k and on of enc become rows k and on of tmp times the top k rows of tmp. */
  method MultiplyBottom(t: GfTables.Tables, tmp: array2<gf>, enc: array2<gf>, k: nat)
    requires t.Valid() && tmp != enc && enc != t.mul && enc != t.mul16
    requires 1 <= k <= tmp.Length0 == enc.Length0 && tmp.Length1 == enc.Length1 == k
    modifies enc
    ensures forall r, j :: k <= r < enc.Length0 && 0 <= j < k ==>
      enc[r, j] == Dot(Rows(tmp)[r], Column(Rows(tmp), k, j))
  {
    hide Dot, GfTables.Tables.Valid;
    ghost var m := Rows(tmp);
    for row := k to enc.Length0
      invariant Rows(tmp) == m && t.Valid()
      invariant forall r, j :: k <= r < row && 0 <= j < k ==> enc[r, j] == Dot(m[r], Column(m, k, j))
    {
      for col := 0 to k
        invariant Rows(tmp) == m && t.Valid()
        invariant forall r, j :: (k <= r < row && 0 <= j < k) || (r == row && 0 <= j < col) ==>
          enc[r, j] == Dot(m[r], Column(m, k, j))
      {
        var acc := RowTimesColumn(t, tmp, row, col, k);
        enc[row, col] := acc;
      }
    }
  }

  lemma DotNone(u: Vec, v: Vec)
    ensures DotTo(u, v, 0) == 0
  {}

  lemma DotNext(u: Vec, v: Vec, n: nat)
    requires n < |u| && n < |v|
    ensures DotTo(u, v, n + 1) == Add(DotTo(u, v, n), Mul(u[n], v[n]))
  {}

  method SetIdentity(enc: array2<gf>, k: nat)
    requires 1 <= k <= enc.Length0 && enc.Length1 == k
    modifies enc
    ensures forall r, j :: 0 <= r < k && 0 <= j < k ==> enc[r, j] == if r == j then 1 else 0
    ensures forall r, j :: k <= r < enc.Length0 && 0 <= j < k ==> enc[r, j] == old(enc[r, j])
  {
    for r := 0 to k
      invariant forall i, j :: 0 <= i < r && 0 <= j < k ==> enc[i, j] == 0
      invariant forall i, j :: k <= i < enc.Length0 && 0 <= j < k ==> enc[i, j] == old(enc[i, j])
    {
      for col := 0 to k
        invariant forall i, j :: (0 <= i < r && 0 <= j < k) || (i == r && 0 <= j < col) ==> enc[i, j] == 0
        invariant forall i, j :: k <= i < enc.Length0 && 0 <= j < k ==> enc[i, j] == old(enc[i, j])
      {
        enc[r, col] := 0;
      }
    }
    for col := 0 to k
      invariant forall i, j :: 0 <= i < k && 0 <= j < k ==> enc[i, j] == if i == j < col then 1 else 0
      invariant forall i, j :: k <= i < enc.Length0 && 0 <= j < k ==> enc[i, j] == old(enc[i, j])
    {
      enc[col, col] := 1;
    }
  }

  /** The product of a Vandermonde row with the inverted top is the encoding row. */
  lemma BottomEntry(k: nat, r: nat, u: Vec, v: Vec, j: nat)
    requires j < k < 256 && |u| == |v| == k
    requires forall i :: 0 <= i < k ==> u[i] == Pow(Point(r), i)
    requires forall i :: 0 <= i < k ==> v[i] == Vandermonde.CodeColumn(Points(k), j)[i]
    ensures Dot(u, v) == EncodingRow(k, r)[j]
  {
    hide Dot, Eval, Lagrange, Pow, Vandermonde.CodeColumn;
    assert u == VdmRow(Point(r), k);
    assert v == Vandermonde.CodeColumn(Points(k), j);
    assert Points(k)[0] == 0;
    Vandermonde.HarmlessColumn(Points(k), j);
    VdmRowEvaluates(Point(r), v);
  }

  /** fec_new: the matrix it leaves is the encoding matrix of (k, n). */
  method FecNew(t: GfTables.Tables, k: nat, n: nat) returns (enc: array2<gf>)
    requires t.Valid() && Parameters(k, n)
    ensures fresh(enc) && enc.Length0 == n && enc.Length1 == k && Rows(enc) == Matrix(k, n)
  {
    hide Pow, Point, Vandermonde.CodeColumn, EncodingRow, Dot, GfTables.Tables.Valid;
    var tmp := FillPowers(t, k, n);
    Vandermonde.InvertVdm(t, tmp, k, Points(k));
    enc := new gf[n, k]((_, _) => 0);
    MultiplyBottom(t, tmp, enc, k);
    forall r, j | k <= r < n && 0 <= j < k ensures enc[r, j] == EncodingRow(k, r)[j] {
      BottomEntry(k, r, Rows(tmp)[r], Column(Rows(tmp), k, j), j);
    }
    SetIdentity(enc, k);
    forall r | 0 <= r < k ensures EncodingRow(k, r) == Unit(k, r) {
      Systematic(k, r);
    }
    forall r | 0 <= r < n ensures Rows(enc)[r] == Matrix(k, n)[r] {
    }
  }
}
