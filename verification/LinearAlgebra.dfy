/** Vectors and matrices over GF(2^8). */
module LinearAlgebra {
  import opened Gf256

  type Vec = seq<gf>
  type Mat = seq<Vec>

  /** Sum of the first n products. */
  function DotTo(u: Vec, v: Vec, n: nat): gf
    requires n <= |u| && n <= |v|
  {
    if n == 0 then 0 else Add(DotTo(u, v, n - 1), Mul(u[n - 1], v[n - 1]))
  }

  function Dot(u: Vec, v: Vec): gf
    requires |u| == |v|
  {
    DotTo(u, v, |u|)
  }

  function Zeros(k: nat): Vec {
    seq(k, _ => 0)
  }

  function Unit(k: nat, c: nat): Vec
    requires c < k
  {
    Zeros(k)[c := 1]
  }

  predicate Square(a: Mat, k: nat) {
    |a| == k && forall i :: 0 <= i < k ==> |a[i]| == k
  }

  /** v = A u. */
  predicate Maps(a: Mat, u: Vec, v: Vec)
    requires forall i :: 0 <= i < |a| ==> |a[i]| == |u|
    requires |v| == |a|
  {
    forall i :: 0 <= i < |a| ==> v[i] == Dot(a[i], u)
  }

  /** Only the zero vector is mapped to zero. */
  ghost predicate Nonsingular(a: Mat, k: nat)
    requires Square(a, k)
  {
    forall x: Vec :: |x| == k && Maps(a, x, Zeros(k)) ==> x == Zeros(k)
  }

  /** b undoes a, and a undoes b. */
  ghost predicate Inverses(a: Mat, b: Mat, k: nat)
    requires Square(a, k) && Square(b, k)
  {
    forall x: Vec, y: Vec :: |x| == k && |y| == k ==> (Maps(a, x, y) <==> Maps(b, y, x))
  }

  // ----- how a product changes with one entry

  lemma {:induction false} DotToCongruent(u: Vec, v: Vec, u': Vec, v': Vec, n: nat)
    requires n <= |u| == |u'| && n <= |v| == |v'|
    requires forall i :: 0 <= i < n ==> u[i] == u'[i] && v[i] == v'[i]
    ensures DotTo(u, v, n) == DotTo(u', v', n)
  {
    hide Mul, Add;
    if n > 0 {
      DotToCongruent(u, v, u', v', n - 1);
    }
  }

  /** The sum of all products but the one at c. */
  function DotBut(u: Vec, v: Vec, c: nat, n: nat): gf
    requires n <= |u| && n <= |v|
  {
    if n == 0 then 0
    else if c == n - 1 then DotBut(u, v, c, n - 1)
    else Add(DotBut(u, v, c, n - 1), Mul(u[n - 1], v[n - 1]))
  }

  lemma {:induction false} DotSplit(u: Vec, v: Vec, c: nat, n: nat)
    requires n <= |u| && n <= |v|
    ensures DotTo(u, v, n) == if c < n then Add(DotBut(u, v, c, n), Mul(u[c], v[c])) else DotBut(u, v, c, n)
  {
    hide Mul, Add;
    if n > 0 {
      DotSplit(u, v, c, n - 1);
      if c < n - 1 {
        var s, p, q := DotBut(u, v, c, n - 1), Mul(u[c], v[c]), Mul(u[n - 1], v[n - 1]);
        AddAssociates(s, p, q);
        AddCommutes(p, q);
        AddAssociates(s, q, p);
      }
    }
  }

  lemma {:induction false} DotButCongruent(u: Vec, v: Vec, u': Vec, v': Vec, c: nat, n: nat)
    requires n <= |u| == |u'| && n <= |v| == |v'|
    requires forall i :: 0 <= i < n && i != c ==> u[i] == u'[i] && v[i] == v'[i]
    ensures DotBut(u, v, c, n) == DotBut(u', v', c, n)
  {
    hide Mul, Add;
    if n > 0 {
      DotButCongruent(u, v, u', v', c, n - 1);
    }
  }

  function Rest(u: Vec, v: Vec, c: nat): gf
    requires |u| == |v|
  {
    DotBut(u, v, c, |u|)
  }

  /** A product is one chosen term plus the rest, and the rest does not see position c. */
  lemma DotAt(u: Vec, v: Vec, c: nat)
    requires |u| == |v| && c < |u|
    ensures Dot(u, v) == Add(Rest(u, v, c), Mul(u[c], v[c]))
  {
    DotSplit(u, v, c, |u|);
  }

  lemma RestIgnores(u: Vec, v: Vec, c: nat, p: gf, q: gf)
    requires |u| == |v| && c < |u|
    ensures Rest(u[c := p], v[c := q], c) == Rest(u, v, c)
  {
    DotButCongruent(u, v, u[c := p], v[c := q], c, |u|);
  }

  // ----- linearity

  function Scale(a: gf, v: Vec): Vec {
    seq(|v|, i requires 0 <= i < |v| => Mul(a, v[i]))
  }

  /** u + a v, entry by entry. */
  function Axpy(u: Vec, a: gf, v: Vec): Vec
    requires |u| == |v|
  {
    seq(|u|, i requires 0 <= i < |u| => Add(u[i], Mul(a, v[i])))
  }

  lemma {:induction false} DotToAxpy(u: Vec, a: gf, v: Vec, x: Vec, n: nat)
    requires |u| == |v| && n <= |u| && n <= |x|
    ensures DotTo(Axpy(u, a, v), x, n) == Add(DotTo(u, x, n), Mul(a, DotTo(v, x, n)))
  {
    hide Mul, Add;
    if n == 0 {
      MulZero(a);
      AddIdentity(0);
    } else {
      var ui, vi, xi := u[n - 1], v[n - 1], x[n - 1];
      var su, sv := DotTo(u, x, n - 1), DotTo(v, x, n - 1);
      DotToAxpy(u, a, v, x, n - 1);
      MulAddLeft(ui, Mul(a, vi), xi);
      MulAssociates(a, vi, xi);
      AddSwap(su, Mul(a, sv), Mul(ui, xi), Mul(a, Mul(vi, xi)));
      MulAddRight(a, sv, Mul(vi, xi));
    }
  }

  lemma DotAxpy(u: Vec, a: gf, v: Vec, x: Vec)
    requires |u| == |v| == |x|
    ensures Dot(Axpy(u, a, v), x) == Add(Dot(u, x), Mul(a, Dot(v, x)))
  {
    DotToAxpy(u, a, v, x, |u|);
  }

  lemma {:induction false} DotToScale(a: gf, v: Vec, x: Vec, n: nat)
    requires n <= |v| && n <= |x|
    ensures DotTo(Scale(a, v), x, n) == Mul(a, DotTo(v, x, n))
  {
    hide Mul, Add;
    if n == 0 {
      MulZero(a);
    } else {
      DotToScale(a, v, x, n - 1);
      MulAssociates(a, v[n - 1], x[n - 1]);
      MulAddRight(a, DotTo(v, x, n - 1), Mul(v[n - 1], x[n - 1]));
    }
  }

  lemma {:induction false} DotZeros(u: Vec, v: Vec, n: nat)
    requires n <= |u| && n <= |v|
    requires forall i :: 0 <= i < n ==> u[i] == 0 || v[i] == 0
    ensures DotTo(u, v, n) == 0
  {
    hide Mul, Add;
    if n > 0 {
      DotZeros(u, v, n - 1);
      MulZero(u[n - 1]);
      MulZero(v[n - 1]);
      AddIdentity(0);
    }
  }

  lemma DotUnit(u: Vec, c: nat)
    requires c < |u|
    ensures Dot(u, Unit(|u|, c)) == u[c] && Dot(Unit(|u|, c), u) == u[c]
  {
    hide Mul, Add;
    var e := Unit(|u|, c);
    DotAt(u, e, c);
    DotAt(e, u, c);
    var z := Zeros(|u|);
    RestIgnores(u, z, c, u[c], 1);
    RestIgnores(z, u, c, 1, u[c]);
    assert u[c := u[c]] == u;
    DotAt(u, z, c);
    DotAt(z, u, c);
    DotZeros(u, z, |u|);
    DotZeros(z, u, |u|);
    MulZero(u[c]);
    AddIdentity(Rest(u, z, c));
    AddIdentity(Rest(z, u, c));
    MulOneLeft(u[c]);
    MulCommutes(u[c], 1);
    AddIdentity(u[c]);
  }
}
