/** Polynomials over GF(2^8) as coefficient vectors, lowest degree first. */
module Polynomial {
  import opened Gf256
  import opened LinearAlgebra
  import opened Sequences

  function Eval(z: Vec, x: gf): gf {
    if |z| == 0 then 0 else Add(z[0], Mul(x, Eval(z[1..], x)))
  }

  function Pow(a: gf, n: nat): gf {
    if n == 0 then 1 else Mul(a, Pow(a, n - 1))
  }

  /** The Vandermonde row of a point: its powers. */
  function VdmRow(p: gf, k: nat): Vec {
    seq(k, j requires 0 <= j < k => Pow(p, j))
  }

  lemma {:induction false} DotToFront(u: Vec, v: Vec, n: nat)
    requires 0 < n <= |u| && n <= |v|
    ensures DotTo(u, v, n) == Add(Mul(u[0], v[0]), DotTo(u[1..], v[1..], n - 1))
  {
    hide Mul, Add;
    if n == 1 {
      AddIdentity(Mul(u[0], v[0]));
    } else {
      DotToFront(u, v, n - 1);
      AddAssociates(Mul(u[0], v[0]), DotTo(u[1..], v[1..], n - 2), Mul(u[n - 1], v[n - 1]));
    }
  }

  /** A Vandermonde row evaluates a polynomial at its point. */
  lemma {:induction false} VdmRowEvaluates(p: gf, z: Vec)
    ensures Dot(VdmRow(p, |z|), z) == Eval(z, p)
  {
    hide Mul, Add;
    var k := |z|;
    if k > 0 {
      var u := VdmRow(p, k);
      VdmRowEvaluates(p, z[1..]);
      DotToFront(u, z, k);
      MulOneLeft(z[0]);
      assert u[1..] == Scale(p, VdmRow(p, k - 1));
      DotToScale(p, VdmRow(p, k - 1), z[1..], k - 1);
    }
  }

  // ----- linearity of evaluation

  lemma {:induction false} EvalAxpy(u: Vec, a: gf, v: Vec, x: gf)
    requires |u| == |v|
    ensures Eval(Axpy(u, a, v), x) == Add(Eval(u, x), Mul(a, Eval(v, x)))
  {
    var k := |u|;
    DotCommutes(VdmRow(x, k), Axpy(u, a, v));
    DotCommutes(VdmRow(x, k), u);
    DotCommutes(VdmRow(x, k), v);
    VdmRowEvaluates(x, Axpy(u, a, v));
    VdmRowEvaluates(x, u);
    VdmRowEvaluates(x, v);
    DotAxpy(u, a, v, VdmRow(x, k));
  }

  lemma EvalScale(a: gf, v: Vec, x: gf)
    ensures Eval(Scale(a, v), x) == Mul(a, Eval(v, x))
  {
    var k := |v|;
    DotCommutes(VdmRow(x, k), Scale(a, v));
    DotCommutes(VdmRow(x, k), v);
    VdmRowEvaluates(x, Scale(a, v));
    VdmRowEvaluates(x, v);
    DotToScale(a, v, VdmRow(x, k), k);
  }

  lemma {:induction false} DotToCommutes(u: Vec, v: Vec, n: nat)
    requires n <= |u| && n <= |v|
    ensures DotTo(u, v, n) == DotTo(v, u, n)
  {
    hide Mul, Add;
    if n > 0 {
      DotToCommutes(u, v, n - 1);
      MulCommutes(u[n - 1], v[n - 1]);
    }
  }

  lemma DotCommutes(u: Vec, v: Vec)
    requires |u| == |v|
    ensures Dot(u, v) == Dot(v, u)
  {
    DotToCommutes(u, v, |u|);
  }

  lemma EvalZeros(k: nat, x: gf)
    ensures Eval(Zeros(k), x) == 0
  {
    VdmRowEvaluates(x, Zeros(k));
    DotZeros(VdmRow(x, k), Zeros(k), k);
  }

  // ----- division by a linear factor

  /** The quotient of z by (x - r): coefficient i is the tail of z above i, evaluated at r. */
  function Quotient(z: Vec, r: gf): (q: Vec)
    requires |z| >= 1
    ensures |q| == |z| - 1
  {
    if |z| == 1 then [] else [Eval(z[1..], r)] + Quotient(z[1..], r)
  }

  lemma DivisionStep(z0: gf, x: gf, r: gf, er: gf, eq: gf)
    ensures Add(z0, Mul(x, Add(er, Mul(Add(x, r), eq)))) == Add(Add(z0, Mul(r, er)), Mul(Add(x, r), Add(er, Mul(x, eq))))
  {
    hide *;
    var s := Add(x, r);
    var w := Mul(s, eq);
    // (x + r) (er + x eq) = (x er + r er) + x w
    MulAddRight(s, er, Mul(x, eq));
    MulAddLeft(x, r, er);
    MulAssociates(s, x, eq);
    MulCommutes(s, x);
    MulAssociates(x, s, eq);
    MulAddRight(x, er, w);
    var a, b, c := Mul(x, er), Mul(r, er), Mul(x, w);
    // (z0 + b) + ((a + b) + c) = z0 + (a + c)
    AddCommutes(a, b);
    AddAssociates(b, a, c);
    AddAssociates(z0, b, Add(b, Add(a, c)));
    AddAssociates(b, b, Add(a, c));
    AddSelf(b);
    AddIdentity(Add(a, c));
  }

  lemma {:induction false} Division(z: Vec, r: gf, x: gf)
    requires |z| >= 1
    ensures Eval(z, x) == Add(Eval(z, r), Mul(Add(x, r), Eval(Quotient(z, r), x)))
  {
    hide Mul, Add;
    if |z| == 1 {
      MulZero(x);
      MulZero(r);
      MulZero(Add(x, r));
      AddIdentity(z[0]);
      AddIdentity(Add(z[0], 0));
    } else {
      var t := z[1..];
      Division(t, r, x);
      assert Quotient(z, r)[1..] == Quotient(t, r);
      DivisionStep(z[0], x, r, Eval(t, r), Eval(Quotient(t, r), x));
    }
  }

  /** The quotient does not depend on the constant coefficient. */
  lemma QuotientTail(z: Vec, z': Vec, r: gf)
    requires |z| == |z'| >= 1 && z[1..] == z'[1..]
    ensures Quotient(z, r) == Quotient(z', r)
  {}

  lemma EvalConstant(z: Vec, r: gf)
    requires |z| == 1
    ensures Eval(z, r) == z[0]
  {
    hide Mul, Add;
    assert Eval(z[1..], r) == 0;
    MulZero(r);
    AddIdentity(z[0]);
  }

  lemma {:induction false} QuotientLead(z: Vec, r: gf)
    requires |z| >= 2
    ensures Quotient(z, r)[|z| - 2] == z[|z| - 1]
  {
    hide Mul, Add;
    if |z| == 2 {
      EvalConstant(z[1..], r);
      assert Quotient(z, r)[0] == Eval(z[1..], r);
    } else {
      QuotientLead(z[1..], r);
      assert Quotient(z, r)[1..] == Quotient(z[1..], r);
    }
  }

  lemma {:induction false} QuotientAt(z: Vec, r: gf, i: nat)
    requires |z| >= 1 && i < |z| - 1
    ensures Quotient(z, r)[i] == Eval(z[i + 1..], r)
  {
    if i > 0 {
      QuotientAt(z[1..], r, i - 1);
      assert z[1..][i..] == z[i + 1..];
    }
  }

  lemma {:induction false} QuotientZero(z: Vec, r: gf)
    requires |z| >= 1 && Quotient(z, r) == Zeros(|z| - 1)
    ensures z[1..] == Zeros(|z| - 1)
  {
    hide Mul, Add;
    if |z| > 1 {
      var t := z[1..];
      assert Quotient(t, r) == Quotient(z, r)[1..];
      QuotientZero(t, r);
      EvalZeros(|t| - 1, r);
      MulZero(r);
      AddIdentity(t[0]);
      assert t[0] == Quotient(z, r)[0];
    }
  }

  lemma ProductZero(a: gf, b: gf, e: gf)
    requires Mul(Add(a, b), e) == 0 && a != b
    ensures e == 0
  {
    hide *;
    AddZero(a, b);
    if e != 0 {
      MulNonzero(Add(a, b), e);
    }
  }

  /** A polynomial with fewer than k coefficients above its constant vanishes at k points only if it is zero. */
  lemma {:induction false} RootBound(z: Vec, pts: seq<gf>)
    requires |z| == |pts| && Distinct(pts)
    requires forall i :: 0 <= i < |pts| ==> Eval(z, pts[i]) == 0
    ensures z == Zeros(|z|)
    decreases |z|
  {
    hide Mul, Add;
    if |z| > 0 {
      var r, rest := pts[0], pts[1..];
      var q := Quotient(z, r);
      forall i | 0 <= i < |rest| ensures Eval(q, rest[i]) == 0 {
        assert rest[i] == pts[i + 1];
        Division(z, r, rest[i]);
        AddIdentity(Mul(Add(rest[i], r), Eval(q, rest[i])));
        ProductZero(rest[i], r, Eval(q, rest[i]));
      }
      RootBound(q, rest);
      QuotientZero(z, r);
      EvalZeros(|z| - 1, r);
      MulZero(r);
      AddIdentity(z[0]);
    }
  }

  // ----- polynomials given by their roots

  /** z times (x - r). */
  function TimesLinear(z: Vec, r: gf): Vec {
    seq(|z| + 1, j requires 0 <= j <= |z| =>
      Add(if j > 0 then z[j - 1] else 0, if j < |z| then Mul(r, z[j]) else 0))
  }

  lemma TimesLinearStep(z0: gf, r: gf, x: gf, e: gf)
    ensures Add(Mul(r, z0), Mul(x, Add(z0, Mul(Add(x, r), e)))) == Mul(Add(x, r), Add(z0, Mul(x, e)))
  {
    hide *;
    var s := Add(x, r);
    MulAddRight(x, z0, Mul(s, e));
    MulAssociates(x, s, e);
    MulCommutes(x, s);
    MulAssociates(s, x, e);
    AddAssociates(Mul(r, z0), Mul(x, z0), Mul(s, Mul(x, e)));
    AddCommutes(Mul(r, z0), Mul(x, z0));
    MulAddLeft(x, r, z0);
    MulAddRight(s, z0, Mul(x, e));
  }

  lemma {:induction false} EvalTimesLinear(z: Vec, r: gf, x: gf)
    ensures Eval(TimesLinear(z, r), x) == Mul(Add(x, r), Eval(z, x))
  {
    hide Mul, Add;
    var p := TimesLinear(z, r);
    if |z| == 0 {
      assert p[1..] == [];
      MulZero(x);
      MulZero(Add(x, r));
      AddIdentity(0);
    } else {
      var t := z[1..];
      var pt := TimesLinear(t, r);
      EvalTimesLinear(t, r, x);
      AddIdentity(Mul(r, z[0]));
      assert p[0] == Mul(r, z[0]);
      assert p[1..][1..] == pt[1..];
      ConstantSplits(p[1..], pt, z[0], x, if |t| > 0 then Mul(r, t[0]) else 0);
      TimesLinearStep(z[0], r, x, Eval(t, x));
    }
  }

  /** Adding z0 to the constant coefficient adds z0 to every value. */
  lemma ConstantSplits(p: Vec, q: Vec, z0: gf, x: gf, c: gf)
    requires |p| == |q| >= 1 && p[1..] == q[1..]
    requires p[0] == Add(z0, c) && q[0] == Add(0, c)
    ensures Eval(p, x) == Add(z0, Eval(q, x))
  {
    hide Mul, Add;
    AddIdentity(c);
    AddAssociates(z0, c, Mul(x, Eval(q[1..], x)));
  }

  function FromRoots(pts: seq<gf>): (z: Vec)
    ensures |z| == |pts| + 1
  {
    if |pts| == 0 then [1] else TimesLinear(FromRoots(pts[..|pts| - 1]), pts[|pts| - 1])
  }

  lemma {:induction false} FromRootsLead(pts: seq<gf>)
    ensures FromRoots(pts)[|pts|] == 1
  {
    hide Mul, Add;
    if |pts| > 0 {
      FromRootsLead(pts[..|pts| - 1]);
      AddIdentity(1);
    }
  }

  lemma {:induction false} FromRootsVanishes(pts: seq<gf>, i: nat)
    requires i < |pts|
    ensures Eval(FromRoots(pts), pts[i]) == 0
  {
    hide Mul, Add;
    var n := |pts| - 1;
    var z := FromRoots(pts[..n]);
    EvalTimesLinear(z, pts[n], pts[i]);
    if i == n {
      AddSelf(pts[n]);
      MulZero(Eval(z, pts[i]));
    } else {
      FromRootsVanishes(pts[..n], i);
      MulZero(Add(pts[i], pts[n]));
    }
  }

  // ----- Lagrange basis

  /** The polynomial with all the points but one as roots. */
  function Cofactor(pts: seq<gf>, m: nat): (q: Vec)
    requires m < |pts|
    ensures |q| == |pts|
  {
    Quotient(FromRoots(pts), pts[m])
  }

  /** The polynomial of degree below |pts| that is 1 at point m and 0 at the other points. */
  ghost function Lagrange(pts: seq<gf>, m: nat): (z: Vec)
    requires m < |pts|
    ensures |z| == |pts|
  {
    Scale(Inv(Eval(Cofactor(pts, m), pts[m])), Cofactor(pts, m))
  }

  lemma CofactorVanishes(pts: seq<gf>, m: nat, i: nat)
    requires m < |pts| && i < |pts| && Distinct(pts) && i != m
    ensures Eval(Cofactor(pts, m), pts[i]) == 0
  {
    hide Mul, Add, FromRoots;
    var e := Eval(Cofactor(pts, m), pts[i]);
    Division(FromRoots(pts), pts[m], pts[i]);
    FromRootsVanishes(pts, i);
    FromRootsVanishes(pts, m);
    AddIdentity(Mul(Add(pts[i], pts[m]), e));
    ProductZero(pts[i], pts[m], e);
  }

  lemma CofactorNonzero(pts: seq<gf>, m: nat)
    requires m < |pts| && Distinct(pts)
    ensures Eval(Cofactor(pts, m), pts[m]) != 0
  {
    hide Mul, Add, FromRoots;
    var q := Cofactor(pts, m);
    if Eval(q, pts[m]) == 0 {
      forall i | 0 <= i < |pts| ensures Eval(q, pts[i]) == 0 {
        if i != m {
          CofactorVanishes(pts, m, i);
        }
      }
      RootBound(q, pts);
      FromRootsLead(pts);
      QuotientLead(FromRoots(pts), pts[m]);
    }
  }

  lemma LagrangeAt(pts: seq<gf>, m: nat, i: nat)
    requires m < |pts| && i < |pts| && Distinct(pts)
    ensures Eval(Lagrange(pts, m), pts[i]) == if i == m then 1 else 0
  {
    hide Mul, Add, Cofactor, Inv, Scale;
    var q := Cofactor(pts, m);
    var t := Eval(q, pts[m]);
    EvalScale(Inv(t), q, pts[i]);
    if i == m {
      CofactorNonzero(pts, m);
      MulInverse(t);
    } else {
      CofactorVanishes(pts, m, i);
      MulZero(Inv(t));
    }
  }
}
