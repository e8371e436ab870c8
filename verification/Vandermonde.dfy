/** Inversion of a Vandermonde matrix from its second column, as _invert_vdm does it. */
module Vandermonde {
  import opened Gf256
  import opened LinearAlgebra
  import opened Polynomial
  import GfTables
  import opened Sequences

  /** The polynomial the code builds: (x - p_0), then each further factor with its constant
      coefficient left at zero, because the loop over the coefficients starts one step late. */
  function CodePoly(p: seq<gf>): (z: Vec)
    requires |p| >= 1
    ensures |z| == |p| + 1
  {
    if |p| == 1 then [p[0], 1]
    else TimesLinear(CodePoly(p[..|p| - 1]), p[|p| - 1])[0 := 0]
  }

  /** What the code divides out for row m. */
  function CodeCofactor(p: seq<gf>, m: nat): (q: Vec)
    requires m < |p|
    ensures |q| == |p|
  {
    Quotient(CodePoly(p), p[m])
  }

  /** Column m of the matrix the code leaves behind. */
  ghost function CodeColumn(p: seq<gf>, m: nat): (z: Vec)
    requires m < |p|
    ensures |z| == |p|
  {
    Scale(Inv(Eval(CodeCofactor(p, m), p[m])), CodeCofactor(p, m))
  }

  /** The matrix with the code's columns is a right inverse of the Vandermonde matrix of p. */
  ghost predicate CodeInverts(p: seq<gf>) {
    forall i, m :: 0 <= i < |p| && 0 <= m < |p| ==>
      Dot(VdmRow(p[i], |p|), CodeColumn(p, m)) == if i == m then 1 else 0
  }

  // ----- which polynomial the code really builds

  /** The roots of the code's polynomial: 0 and p_0 + p_1 in place of p_0 and p_1. */
  function CodeRoots(p: seq<gf>): seq<gf>
    requires |p| >= 2
  {
    [0, Add(p[0], p[1])] + p[2..]
  }

  lemma TimesLinearOne(a: gf)
    ensures TimesLinear([1], a) == [a, 1]
  {
    hide Mul, Add;
    MulOneLeft(a);
    MulCommutes(a, 1);
    AddIdentity(a);
    AddIdentity(1);
  }

  lemma OneRoot(a: gf)
    ensures FromRoots([a]) == [a, 1]
  {
    hide TimesLinear;
    assert [a][..0] == [];
    assert FromRoots([]) == [1];
    TimesLinearOne(a);
  }

  lemma TimesLinearTwo(a: gf, b: gf)
    ensures TimesLinear([a, 1], b) == [Mul(b, a), Add(a, b), 1]
  {
    hide Mul, Add;
    MulOneLeft(b);
    MulCommutes(b, 1);
    AddIdentity(Mul(b, a));
    AddIdentity(1);
  }

  lemma TwoRoots(a: gf, b: gf)
    ensures FromRoots([a, b]) == [Mul(b, a), Add(a, b), 1]
  {
    hide TimesLinear, Mul, Add;
    assert [a, b][..1] == [a];
    OneRoot(a);
    TimesLinearTwo(a, b);
  }

  lemma {:induction false} CodePolyRoots(p: seq<gf>)
    requires |p| >= 2
    ensures CodePoly(p) == FromRoots(CodeRoots(p)) && CodePoly(p)[0] == 0
  {
    hide TimesLinear, Mul, Add;
    var n := |p| - 1;
    if n == 1 {
      CodePolyRootsTwo(p);
    } else {
      CodePolyRoots(p[..n]);
      assert CodeRoots(p)[..n] == CodeRoots(p[..n]);
      NoConstant(CodePoly(p[..n]), p[n]);
    }
  }

  lemma CodePolyRootsTwo(p: seq<gf>)
    requires |p| == 2
    ensures CodePoly(p) == FromRoots(CodeRoots(p)) && CodePoly(p)[0] == 0
  {
    hide Mul, Add, FromRoots, TimesLinear, CodePoly;
    var s := Add(p[0], p[1]);
    CodePolyTwo(p);
    MulZero(s);
    AddIdentity(s);
    TwoRoots(0, s);
    assert FromRoots([0, s]) == [0, s, 1];
    assert CodeRoots(p) == [0, s];
  }

  /** Without a constant coefficient, clearing it after one more factor changes nothing. */
  lemma NoConstant(z: Vec, r: gf)
    requires |z| >= 1 && z[0] == 0
    ensures TimesLinear(z, r)[0 := 0] == TimesLinear(z, r) && TimesLinear(z, r)[0] == 0
  {
    hide Mul, Add;
    MulZero(r);
    AddIdentity(0);
    assert TimesLinear(z, r)[0] == 0;
  }

  lemma CodePolyTwo(p: seq<gf>)
    requires |p| == 2
    ensures CodePoly(p) == [0, Add(p[0], p[1]), 1]
  {
    hide TimesLinear, Mul, Add;
    assert CodePoly(p[..1]) == [p[0], 1];
    TimesLinearTwo(p[0], p[1]);
  }

  /** Where the late start does no harm: no third point, or one of the first two points is zero. */
  predicate LateStartHarmless(p: seq<gf>) {
    |p| <= 2 || p[0] == 0 || p[1] == 0
  }

  lemma {:induction false} FromRootsPrefix(p: seq<gf>, q: seq<gf>)
    requires |p| == |q| >= 2 && p[2..] == q[2..]
    requires FromRoots(p[..2]) == FromRoots(q[..2])
    ensures FromRoots(p) == FromRoots(q)
  {
    hide TimesLinear;
    var n := |p| - 1;
    if n == 1 {
      assert p[..2] == p && q[..2] == q;
    } else {
      assert p[n] == p[2..][n - 2] == q[n];
      assert p[..n][..2] == p[..2] && q[..n][..2] == q[..2];
      assert p[..n][2..] == p[2..][..n - 2] && q[..n][2..] == q[2..][..n - 2];
      FromRootsPrefix(p[..n], q[..n]);
    }
  }

  /** The first two code roots give the same quadratic as the first two points if one of them is zero. */
  lemma SameQuadratic(a: gf, b: gf)
    requires a == 0 || b == 0
    ensures FromRoots([a, b]) == FromRoots([0, Add(a, b)])
  {
    hide Mul, Add, FromRoots;
    TwoRoots(a, b);
    TwoRoots(0, Add(a, b));
    MulZero(Add(a, b));
    MulZero(a);
    MulZero(b);
    AddIdentity(Add(a, b));
  }

  lemma HarmlessTail(p: seq<gf>)
    requires |p| >= 1 && LateStartHarmless(p)
    ensures CodePoly(p)[1..] == FromRoots(p)[1..]
  {
    hide Mul, Add, FromRoots, CodePoly;
    if |p| == 1 {
      assert p == [p[0]];
      OneRoot(p[0]);
      CodePolyOne(p);
    } else if |p| == 2 {
      assert p == [p[0], p[1]];
      TwoRoots(p[0], p[1]);
      CodePolyTwo(p);
    } else {
      var q := CodeRoots(p);
      CodePolyRoots(p);
      assert p[..2] == [p[0], p[1]] && q[..2] == [0, Add(p[0], p[1])];
      SameQuadratic(p[0], p[1]);
      FromRootsPrefix(p, q);
    }
  }

  lemma CodePolyOne(p: seq<gf>)
    requires |p| == 1
    ensures CodePoly(p) == [p[0], 1]
  {}

  /** Exactly when the code inverts the Vandermonde matrix of distinct points. */
  lemma InvertsExactlyWhenHarmless(p: seq<gf>)
    requires |p| >= 1 && Distinct(p)
    ensures CodeInverts(p) <==> LateStartHarmless(p)
  {
    if LateStartHarmless(p) {
      HarmlessInverts(p);
    } else {
      HarmfulFails(p);
    }
  }

  lemma HarmlessColumn(p: seq<gf>, m: nat)
    requires m < |p| && LateStartHarmless(p)
    ensures CodeColumn(p, m) == Lagrange(p, m)
  {
    HarmlessTail(p);
    QuotientTail(CodePoly(p), FromRoots(p), p[m]);
  }

  lemma HarmlessInverts(p: seq<gf>)
    requires |p| >= 1 && Distinct(p) && LateStartHarmless(p)
    ensures CodeInverts(p)
  {
    hide CodeColumn, Lagrange;
    forall i, m | 0 <= i < |p| && 0 <= m < |p|
      ensures Dot(VdmRow(p[i], |p|), CodeColumn(p, m)) == if i == m then 1 else 0
    {
      HarmlessColumn(p, m);
      VdmRowEvaluates(p[i], Lagrange(p, m));
      LagrangeAt(p, m, i);
    }
  }

  lemma {:induction false} NotARoot(pts: seq<gf>, x: gf)
    requires x !in pts
    ensures Eval(FromRoots(pts), x) != 0
  {
    hide Mul, Add;
    if |pts| == 0 {
      MulZero(x);
      AddIdentity(1);
      assert [1 as gf][1..] == [];
    } else {
      var n := |pts| - 1;
      NotARoot(pts[..n], x);
      EvalTimesLinear(FromRoots(pts[..n]), pts[n], x);
      AddZero(x, pts[n]);
      MulNonzero(Add(x, pts[n]), Eval(FromRoots(pts[..n]), x));
    }
  }

  /** With three points and p_0, p_1 nonzero, the column of p_2 does not vanish at p_0. */
  lemma HarmfulFails(p: seq<gf>)
    requires Distinct(p) && !LateStartHarmless(p)
    ensures !CodeInverts(p)
  {
    hide Mul, Add, CodePoly, FromRoots, Inv, Scale;
    var q := CodeCofactor(p, 2);
    var t := Eval(q, p[2]);
    var roots := CodeRoots(p);
    CodePolyRoots(p);
    assert p[2] == roots[2];
    FromRootsVanishes(roots, 2);
    Division(CodePoly(p), p[2], p[0]);
    AddIdentity(Mul(Add(p[0], p[2]), Eval(q, p[0])));
    AddZero(p[0], Add(p[0], p[1]));
    SumDiffers(p[0], p[1]);
    assert p[0] !in roots;
    NotARoot(roots, p[0]);
    MulZero(Add(p[0], p[2]));
    assert Eval(q, p[0]) != 0;
    assert !CodeInverts(p) by {
      VdmRowEvaluates(p[0], CodeColumn(p, 2));
      VdmRowEvaluates(p[2], CodeColumn(p, 2));
      EvalScale(Inv(t), q, p[0]);
      EvalScale(Inv(t), q, p[2]);
      if CodeInverts(p) {
        assert Dot(VdmRow(p[0], |p|), CodeColumn(p, 2)) == 0;
        assert Dot(VdmRow(p[2], |p|), CodeColumn(p, 2)) == 1;
        MulZero(t);
        MulNonzero(Inv(t), Eval(q, p[0]));
      }
    }
  }

  lemma SumDiffers(a: gf, b: gf)
    requires b != 0
    ensures Add(a, b) != a
  {
    hide Add;
    if Add(a, b) == a {
      AddSelf(a);
      AddAssociates(a, a, b);
      AddIdentity(b);
    }
  }

  /** The smallest failing example: points 1, 2, 3. */
  lemma LateStartFails()
    ensures !CodeInverts([1, 2, 3])
  {
    HarmfulFails([1, 2, 3]);
  }

  // ----- the algorithm on arrays

  /** Multiply the polynomial held in the last i entries of c (leading 1 implicit) by (x - p_i). */
  method MultiplyIn(t: GfTables.Tables, p_i: gf, c: array<gf>, i: nat)
    requires t.Valid() && c != t.exp && c != t.inverse && 1 <= i < c.Length
    requires c[c.Length - 1 - i] == 0
    modifies c
    ensures c[c.Length - 1 - i..] + [1] == TimesLinear(old(c[c.Length - i..]) + [1], p_i)[0 := 0]
    ensures forall j :: 0 <= j < c.Length - 1 - i ==> c[j] == old(c[j])
  {
    hide Mul, Add, GfTables.Tables.PowersFilled;
    var k := c.Length;
    ghost var z := c[k - i..] + [1];
    for j := k - i to k - 1
      invariant forall l :: 0 <= l < k && !(k - i <= l < j) ==> c[l] == old(c[l])
      invariant forall l :: k - i <= l < j ==> c[l] == Add(old(c[l]), Mul(p_i, old(c[l + 1])))
    {
      c[j] := Add(c[j], t.mul[p_i, c[j + 1]]);
    }
    c[k - 1] := Add(c[k - 1], p_i);
    MulOneLeft(p_i);
    MulCommutes(p_i, 1);
    AddIdentity(1);
    ghost var y := TimesLinear(z, p_i)[0 := 0];
    ghost var w := c[k - 1 - i..] + [1];
    forall j | 0 <= j < i + 2 ensures w[j] == y[j] {
      if 0 < j < i {
        assert z[j - 1] == old(c[k - i + j - 1]) && z[j] == old(c[k - i + j]);
      }
    }
    assert w == y;
  }

  /** Coefficients of the code's polynomial, the leading 1 left implicit. */
  method BuildPoly(t: GfTables.Tables, p: array<gf>, c: array<gf>)
    requires t.Valid() && p.Length == c.Length >= 1 && p != c
    requires c != t.exp && c != t.inverse
    modifies c
    ensures c[..] + [1] == CodePoly(p[..])
  {
    hide Mul, Add, CodePoly, TimesLinear, GfTables.Tables.Valid;
    var k := p.Length;
    for i := 0 to k
      invariant forall j :: 0 <= j < i ==> c[j] == 0
    {
      c[i] := 0;
    }
    c[k - 1] := p[0];
    CodePolyOne(p[..1]);
    for i := 1 to k
      invariant forall j :: 0 <= j < k - i ==> c[j] == 0
      invariant c[k - i..] + [1] == CodePoly(p[..i])
      invariant t.Valid()
    {
      MultiplyIn(t, p[i], c, i);
      CodePolyNext(p[..i + 1]);
      assert p[..i + 1][..i] == p[..i];
    }
    assert p[..k] == p[..] && c[0..] == c[..];
  }

  lemma CodePolyNext(p: seq<gf>)
    requires |p| >= 2
    ensures CodePoly(p) == TimesLinear(CodePoly(p[..|p| - 1]), p[|p| - 1])[0 := 0]
  {}

  /** Synthetic division of the polynomial c + x^k by (x - xx), and the quotient's value at xx. */
  method DivideOut(t: GfTables.Tables, c: array<gf>, xx: gf, b: array<gf>) returns (v: gf)
    requires t.Valid() && b.Length == c.Length >= 1 && b != c
    requires b != t.exp && b != t.inverse
    modifies b
    ensures b[..] == Quotient(c[..] + [1], xx)
    ensures v == Eval(b[..], xx)
  {
    hide Mul, Add, Quotient;
    var k := c.Length;
    ghost var z := c[..] + [1];
    v := 1;
    b[k - 1] := 1;
    EvalOne(xx);
    assert z[k..] == [1];
    assert b[k - 1..] == [1];
    var i := k - 1;
    while i > 0
      invariant 0 <= i <= k - 1
      invariant forall j :: i <= j < k ==> b[j] == Eval(z[j + 1..], xx)
      invariant v == Eval(b[i..], xx)
    {
      assert z[i..][1..] == z[i + 1..];
      b[i - 1] := Add(c[i], t.mul[xx, b[i]]);
      assert b[i - 1..][1..] == b[i..];
      AddCommutes(b[i - 1], Mul(xx, v));
      v := Add(t.mul[xx, v], b[i - 1]);
      i := i - 1;
    }
    forall j | 0 <= j < k ensures b[j] == Quotient(z, xx)[j] {
      QuotientAt(z, xx, j);
    }
    assert b[0..] == b[..];
  }

  lemma EvalOne(x: gf)
    ensures Eval([1], x) == 1
  {
    hide Mul, Add;
    assert [1 as gf][1..] == [];
    MulZero(x);
    AddIdentity(1);
  }

  lemma OnePointColumn(p: seq<gf>)
    requires |p| == 1
    ensures CodeColumn(p, 0) == [1]
  {
    hide Mul, Add;
    CodePolyOne(p);
    assert [p[0], 1][1..] == [1];
    EvalOne(p[0]);
    assert [1 as gf][1..] == [];
    assert CodeCofactor(p, 0) == [1];
    GfTables.LogOfOne();
    MulOneLeft(1);
  }

  lemma PowOne(a: gf)
    ensures Pow(a, 1) == a
  {
    hide Mul;
    assert Pow(a, 0) == 1;
    MulOneLeft(a);
    MulCommutes(a, 1);
  }

  method SecondColumn(src: array2<gf>, k: nat, ghost pts: seq<gf>) returns (p: array<gf>)
    requires 2 <= k == src.Length1 <= src.Length0 && |pts| == k
    requires forall i, j :: 0 <= i < k && 0 <= j < k ==> src[i, j] == Pow(pts[i], j)
    ensures fresh(p) && p[..] == pts
  {
    hide Pow;
    p := new gf[k](_ => 0);
    for i := 0 to k
      invariant forall j :: 0 <= j < i ==> p[j] == pts[j]
    {
      PowOne(pts[i]);
      p[i] := src[i, 1];
    }
    assert p[..] == pts;
  }

  method WriteColumn(t: GfTables.Tables, src: array2<gf>, row: nat, v: gf, b: array<gf>)
    requires t.Valid() && src != t.mul && src != t.mul16
    requires row < src.Length1 == b.Length <= src.Length0
    modifies src
    ensures forall i :: 0 <= i < b.Length ==> src[i, row] == Mul(Inv(v), b[i])
    ensures forall i, j :: 0 <= i < src.Length0 && 0 <= j < src.Length1 && (j != row || i >= b.Length) ==> src[i, j] == old(src[i, j])
  {
    hide Mul, Inv;
    for col := 0 to b.Length
      invariant forall i :: 0 <= i < col ==> src[i, row] == Mul(Inv(v), b[i])
      invariant forall i, j :: 0 <= i < src.Length0 && 0 <= j < src.Length1 && (j != row || i >= col) ==> src[i, j] == old(src[i, j])
    {
      src[col, row] := t.mul[t.inverse[v], b[col]];
    }
  }

  /** The top k rows, a Vandermonde matrix, are replaced by the code's columns; the others stay. */
  method InvertVdm(t: GfTables.Tables, src: array2<gf>, k: nat, ghost pts: seq<gf>)
    requires t.Valid() && src != t.mul && src != t.mul16
    requires 1 <= k == src.Length1 <= src.Length0 && |pts| == k
    requires forall i, j :: 0 <= i < k && 0 <= j < k ==> src[i, j] == Pow(pts[i], j)
    modifies src
    ensures forall i, m :: 0 <= i < k && 0 <= m < k ==> src[i, m] == CodeColumn(pts, m)[i]
    ensures forall i, j :: k <= i < src.Length0 && 0 <= j < k ==> src[i, j] == old(src[i, j])
  {
    hide Mul, Add, Inv, CodePoly, CodeCofactor, Eval, CodeColumn, Quotient, GfTables.Tables.Valid;
    if k == 1 {
      OnePointColumn(pts);
      return;
    }
    var c := new gf[k](_ => 0);
    var b := new gf[k](_ => 0);
    var p := SecondColumn(src, k, pts);
    BuildPoly(t, p, c);
    for row := 0 to k
      invariant forall i, m :: 0 <= i < k && 0 <= m < row ==> src[i, m] == CodeColumn(pts, m)[i]
      invariant forall i, j :: k <= i < src.Length0 && 0 <= j < k ==> src[i, j] == old(src[i, j])
      invariant t.Valid() && p[..] == pts && c[..] + [1] == CodePoly(pts)
    {
      var v := DivideOut(t, c, p[row], b);
      WriteColumn(t, src, row, v, b);
      CodeColumnEntries(pts, row, b[..], v);
    }
  }

  lemma CodeColumnEntries(p: seq<gf>, m: nat, b: Vec, v: gf)
    requires m < |p| && b == Quotient(CodePoly(p), p[m]) && v == Eval(b, p[m])
    ensures |b| == |p| && forall i :: 0 <= i < |p| ==> CodeColumn(p, m)[i] == Mul(Inv(v), b[i])
  {
    hide Mul, Inv, Quotient, CodePoly, Eval;
  }
}
