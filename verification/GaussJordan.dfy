/** In-place Gauss-Jordan inversion, seen as a tableau whose inputs and outputs are exchanged
    one pivot at a time. */
module GaussJordan {
  import opened Gf256
  import opened LinearAlgebra
  import GfTables

  // ----- one pivot step, on values

  /** The pivot row after it is divided by its pivot. */
  ghost function PivotRow(a: Mat, k: nat, c: nat): (p: Vec)
    requires Square(a, k) && c < k
    ensures |p| == k
  {
    Scale(Inv(a[c][c]), a[c][c := 1])
  }

  /** All rows after the pivot row is subtracted from the others. */
  ghost function Pivot(a: Mat, k: nat, c: nat): (b: Mat)
    requires Square(a, k) && c < k
    ensures Square(b, k)
  {
    var p := PivotRow(a, k, c);
    seq(k, i requires 0 <= i < k => if i == c then p else Axpy(a[i][c := 0], a[i][c], p))
  }

  /** Solving the pivot equation for its input: the new pivot row computes u[c] from v[c]. */
  lemma PivotSolves(a: Mat, k: nat, c: nat, u: Vec, y: gf)
    requires Square(a, k) && c < k && |u| == k && a[c][c] != 0
    ensures Dot(PivotRow(a, k, c), u[c := y]) == u[c] <==> y == Dot(a[c], u)
  {
    hide Mul, Add, Inv;
    var p := a[c][c];
    var s := Rest(a[c], u, c);
    DotToScale(Inv(p), a[c][c := 1], u[c := y], k);
    DotAt(a[c][c := 1], u[c := y], c);
    RestIgnores(a[c], u, c, 1, y);
    MulOneLeft(y);
    DotAt(a[c], u, c);
    SolveLinear(p, s, u[c], y);
  }

  lemma SolveLinear(p: gf, s: gf, x: gf, y: gf)
    requires p != 0
    ensures Mul(Inv(p), Add(s, y)) == x <==> y == Add(s, Mul(p, x))
  {
    hide *;
    MulInverse(p);
    if Mul(Inv(p), Add(s, y)) == x {
      MulAssociates(p, Inv(p), Add(s, y));
      MulOneLeft(Add(s, y));
      AddAssociates(s, s, y);
      AddSelf(s);
      AddIdentity(y);
    }
    if y == Add(s, Mul(p, x)) {
      AddAssociates(s, s, Mul(p, x));
      AddSelf(s);
      AddIdentity(Mul(p, x));
      MulAssociates(Inv(p), p, x);
      MulOneLeft(x);
    }
  }

  /** Once the pivot row yields u[c], every other row computes what it did before. */
  lemma PivotKeepsRow(a: Mat, k: nat, c: nat, i: nat, u: Vec, y: gf)
    requires Square(a, k) && c < k && i < k && i != c && |u| == k
    requires Dot(PivotRow(a, k, c), u[c := y]) == u[c]
    ensures Dot(Pivot(a, k, c)[i], u[c := y]) == Dot(a[i], u)
  {
    hide Mul, Add, Inv, Scale;
    var r := a[i];
    DotAxpy(r[c := 0], r[c], PivotRow(a, k, c), u[c := y]);
    DotAt(r[c := 0], u[c := y], c);
    RestIgnores(r, u, c, 0, y);
    MulZero(y);
    AddIdentity(Rest(r, u, c));
    DotAt(r, u, c);
  }

  /** A pivot step exchanges one input with one output and keeps the relation. */
  lemma PivotExchanges(a: Mat, k: nat, c: nat, u: Vec, v: Vec)
    requires Square(a, k) && c < k && |u| == k && |v| == k && a[c][c] != 0
    ensures Maps(a, u, v) <==> Maps(Pivot(a, k, c), u[c := v[c]], v[c := u[c]])
  {
    hide Mul, Add, Inv, Scale, Axpy, Dot;
    var b := Pivot(a, k, c);
    var u', v' := u[c := v[c]], v[c := u[c]];
    PivotSolves(a, k, c, u, v[c]);
    assert b[c] == PivotRow(a, k, c);
    if Dot(b[c], u') == u[c] {
      forall i | 0 <= i < k && i != c ensures Dot(b[i], u') == Dot(a[i], u) {
        PivotKeepsRow(a, k, c, i, u, v[c]);
      }
    }
    if Maps(a, u, v) {
      assert v[c] == Dot(a[c], u);
      forall i | 0 <= i < k ensures v'[i] == Dot(b[i], u') {
        assert v[i] == Dot(a[i], u);
      }
    }
    if Maps(b, u', v') {
      assert v'[c] == Dot(b[c], u');
      forall i | 0 <= i < k ensures v[i] == Dot(a[i], u) {
        assert v'[i] == Dot(b[i], u');
      }
    }
  }

  // ----- the tableau

  /** Row and column j stand for x[j] and y[perm[j]]; the two are exchanged where used[j] == 1. */
  function Inputs(used: seq<nat>, perm: seq<nat>, x: Vec, y: Vec): Vec
    requires |used| == |perm| == |x| == |y|
    requires forall j :: 0 <= j < |perm| ==> perm[j] < |perm|
  {
    seq(|x|, j requires 0 <= j < |x| => if used[j] == 1 then y[perm[j]] else x[j])
  }

  function Outputs(used: seq<nat>, perm: seq<nat>, x: Vec, y: Vec): Vec
    requires |used| == |perm| == |x| == |y|
    requires forall j :: 0 <= j < |perm| ==> perm[j] < |perm|
  {
    seq(|x|, j requires 0 <= j < |x| => if used[j] == 1 then x[j] else y[perm[j]])
  }

  ghost predicate Labels(used: seq<nat>, perm: seq<nat>, k: nat) {
    |used| == k && |perm| == k && forall j :: 0 <= j < k ==> perm[j] < k
  }

  /** The tableau a says of x and y exactly what y = M x says. */
  ghost predicate Represents(a: Mat, m: Mat, k: nat, used: seq<nat>, perm: seq<nat>)
    requires Square(a, k) && Square(m, k) && Labels(used, perm, k)
  {
    forall x: Vec, y: Vec :: |x| == k && |y| == k ==>
      (Maps(m, x, y) <==> Maps(a, Inputs(used, perm, x, y), Outputs(used, perm, x, y)))
  }

  function Swapped<T>(s: seq<T>, i: nat, j: nat): seq<T>
    requires i < |s| && j < |s|
  {
    s[i := s[j]][j := s[i]]
  }

  lemma StartRepresents(m: Mat, k: nat, used: seq<nat>, perm: seq<nat>)
    requires Square(m, k) && Labels(used, perm, k)
    requires forall j :: 0 <= j < k ==> used[j] == 0 && perm[j] == j
    ensures Represents(m, m, k, used, perm)
  {
    forall x: Vec, y: Vec | |x| == k && |y| == k
      ensures Inputs(used, perm, x, y) == x && Outputs(used, perm, x, y) == y
    {
    }
  }

  /** Swapping two unused rows renames two outputs. */
  lemma SwapRepresents(a: Mat, m: Mat, k: nat, used: seq<nat>, perm: seq<nat>, r: nat, c: nat)
    requires Square(a, k) && Square(m, k) && Labels(used, perm, k) && r < k && c < k
    requires used[r] != 1 && used[c] != 1
    requires Represents(a, m, k, used, perm)
    ensures Represents(Swapped(a, r, c), m, k, used, Swapped(perm, r, c))
  {
    hide Dot;
    var a', perm' := Swapped(a, r, c), Swapped(perm, r, c);
    forall x: Vec, y: Vec | |x| == k && |y| == k
      ensures Maps(m, x, y) <==> Maps(a', Inputs(used, perm', x, y), Outputs(used, perm', x, y))
    {
      var u, v := Inputs(used, perm, x, y), Outputs(used, perm, x, y);
      assert Inputs(used, perm', x, y) == u;
      assert Outputs(used, perm', x, y) == Swapped(v, r, c);
      SwapMaps(a, k, u, v, r, c);
    }
  }

  lemma SwapMaps(a: Mat, k: nat, u: Vec, v: Vec, r: nat, c: nat)
    requires Square(a, k) && |u| == k && |v| == k && r < k && c < k
    ensures Maps(a, u, v) <==> Maps(Swapped(a, r, c), u, Swapped(v, r, c))
  {
    hide Dot;
    var a', v' := Swapped(a, r, c), Swapped(v, r, c);
    if Maps(a', u, v') {
      forall i | 0 <= i < k ensures v[i] == Dot(a[i], u) {
        var j := if i == r then c else if i == c then r else i;
        assert v'[j] == Dot(a'[j], u);
      }
    }
  }

  lemma PivotRepresents(a: Mat, m: Mat, k: nat, used: seq<nat>, perm: seq<nat>, c: nat)
    requires Square(a, k) && Square(m, k) && Labels(used, perm, k) && c < k
    requires used[c] != 1 && a[c][c] != 0
    requires Represents(a, m, k, used, perm)
    ensures Represents(Pivot(a, k, c), m, k, used[c := 1], perm)
  {
    hide Dot, Pivot, Maps;
    var used' := used[c := 1];
    forall x: Vec, y: Vec | |x| == k && |y| == k
      ensures Maps(m, x, y) <==> Maps(Pivot(a, k, c), Inputs(used', perm, x, y), Outputs(used', perm, x, y))
    {
      var u, v := Inputs(used, perm, x, y), Outputs(used, perm, x, y);
      assert Inputs(used', perm, x, y) == u[c := v[c]];
      assert Outputs(used', perm, x, y) == v[c := u[c]];
      PivotExchanges(a, k, c, u, v);
    }
  }

  /** The vector an unused column would send to zero if it held no pivot. */
  function Kernel(a: Mat, k: nat, used: seq<nat>, c: nat): Vec
    requires Square(a, k) && |used| == k && c < k
  {
    seq(k, j requires 0 <= j < k => if used[j] == 1 then a[j][c] else if j == c then 1 else 0)
  }

  lemma KernelMaps(a: Mat, k: nat, used: seq<nat>, perm: seq<nat>, c: nat)
    requires Square(a, k) && Labels(used, perm, k) && c < k && used[c] != 1
    requires forall r :: 0 <= r < k && used[r] != 1 ==> a[r][c] == 0
    ensures var x := Kernel(a, k, used, c);
            Maps(a, Inputs(used, perm, x, Zeros(k)), Outputs(used, perm, x, Zeros(k)))
  {
    hide Dot;
    var x := Kernel(a, k, used, c);
    assert Inputs(used, perm, x, Zeros(k)) == Unit(k, c);
    forall i | 0 <= i < k ensures Outputs(used, perm, x, Zeros(k))[i] == Dot(a[i], Unit(k, c)) {
      DotUnit(a[i], c);
    }
  }

  /** An unused column without a pivot betrays a singular matrix. */
  lemma NoPivotIsSingular(a: Mat, m: Mat, k: nat, used: seq<nat>, perm: seq<nat>, c: nat)
    requires Square(a, k) && Square(m, k) && Labels(used, perm, k) && c < k && used[c] != 1
    requires Represents(a, m, k, used, perm)
    requires forall r :: 0 <= r < k && used[r] != 1 ==> a[r][c] == 0
    ensures !Nonsingular(m, k)
  {
    hide Dot, Maps, Inputs, Outputs;
    var x := Kernel(a, k, used, c);
    KernelMaps(a, k, used, perm, c);
    assert Maps(m, x, Zeros(k));
    assert x[c] != Zeros(k)[c];
  }

  // ----- counting the pivots

  function Ones(used: seq<nat>, n: nat): nat
    requires n <= |used|
  {
    if n == 0 then 0 else Ones(used, n - 1) + (if used[n - 1] == 1 then 1 else 0)
  }

  lemma {:induction false} OnesUpdate(used: seq<nat>, c: nat, n: nat)
    requires n <= |used| && c < |used| && used[c] != 1
    ensures Ones(used[c := 1], n) == Ones(used, n) + (if c < n then 1 else 0)
  {
    if n > 0 {
      OnesUpdate(used, c, n - 1);
    }
  }

  lemma {:induction false} OnesBound(used: seq<nat>, n: nat)
    requires n <= |used|
    ensures Ones(used, n) <= n
    ensures Ones(used, n) == n <==> forall j :: 0 <= j < n ==> used[j] == 1
  {
    if n > 0 {
      OnesBound(used, n - 1);
    }
  }

  lemma {:induction false} OnesZero(used: seq<nat>, n: nat)
    requires n <= |used| && forall j :: 0 <= j < n ==> used[j] == 0
    ensures Ones(used, n) == 0
  {
    if n > 0 {
      OnesZero(used, n - 1);
    }
  }

  // ----- undoing the row swaps on the columns

  /** perm after the first t swaps. */
  function PermAfter(k: nat, rows: seq<nat>, cols: seq<nat>, t: nat): (p: seq<nat>)
    requires t <= |rows| && t <= |cols|
    requires forall i :: 0 <= i < t ==> rows[i] < k && cols[i] < k
    ensures |p| == k && forall j :: 0 <= j < k ==> p[j] < k
  {
    if t == 0 then seq(k, j requires 0 <= j < k => j)
    else Swapped(PermAfter(k, rows, cols, t - 1), rows[t - 1], cols[t - 1])
  }

  function Permuted(y: Vec, p: seq<nat>): Vec
    requires forall j :: 0 <= j < |p| ==> p[j] < |y|
  {
    seq(|p|, j requires 0 <= j < |p| => y[p[j]])
  }

  /** The sum without two positions. */
  function PairRest(u: Vec, w: Vec, i: nat, j: nat): gf
    requires |u| == |w| && i < |u| && j < |u|
  {
    Rest(u[j := 0], w[j := 0], i)
  }

  lemma DotPair(u: Vec, w: Vec, i: nat, j: nat)
    requires |u| == |w| && i < |u| && j < |u| && i != j
    ensures Dot(u, w) == Add(PairRest(u, w, i, j), Add(Mul(u[i], w[i]), Mul(u[j], w[j])))
  {
    hide Mul, Add;
    DotAt(u, w, j);
    RestIgnores(u, w, j, 0, 0);
    DotAt(u[j := 0], w[j := 0], j);
    MulZero(0);
    AddIdentity(Rest(u, w, j));
    DotAt(u[j := 0], w[j := 0], i);
    AddAssociates(PairRest(u, w, i, j), Mul(u[i], w[i]), Mul(u[j], w[j]));
  }

  lemma DotSwapped(u: Vec, w: Vec, i: nat, j: nat)
    requires |u| == |w| && i < |u| && j < |u|
    ensures Dot(Swapped(u, i, j), w) == Dot(u, Swapped(w, i, j))
  {
    hide Mul, Add;
    if i == j {
      assert Swapped(u, i, j) == u && Swapped(w, i, j) == w;
    } else {
      var u', w' := Swapped(u, i, j), Swapped(w, i, j);
      DotPair(u', w, i, j);
      DotPair(u, w', i, j);
      DotButCongruent(u'[j := 0], w[j := 0], u[j := 0], w'[j := 0], i, |u|);
      AddCommutes(Mul(u[j], w[i]), Mul(u[i], w[j]));
    }
  }

  function ColumnsSwapped(a: Mat, k: nat, i: nat, j: nat): (b: Mat)
    requires Square(a, k) && i < k && j < k
    ensures Square(b, k)
  {
    seq(k, r requires 0 <= r < k => Swapped(a[r], i, j))
  }

  lemma ColumnsSwappedMaps(a: Mat, k: nat, i: nat, j: nat, w: Vec, x: Vec)
    requires Square(a, k) && i < k && j < k && |w| == k && |x| == k
    ensures Maps(ColumnsSwapped(a, k, i, j), w, x) <==> Maps(a, Swapped(w, i, j), x)
  {
    hide Dot;
    forall r | 0 <= r < k ensures Dot(ColumnsSwapped(a, k, i, j)[r], w) == Dot(a[r], Swapped(w, i, j)) {
      DotSwapped(a[r], w, i, j);
    }
  }

  /** a solves M x = y for x, given y in the order of p. */
  ghost predicate Solves(a: Mat, m: Mat, k: nat, p: seq<nat>)
    requires Square(a, k) && Square(m, k) && |p| == k && forall j :: 0 <= j < k ==> p[j] < k
  {
    forall x: Vec, y: Vec :: |x| == k && |y| == k ==> (Maps(m, x, y) <==> Maps(a, Permuted(y, p), x))
  }

  lemma AllUsedSolves(a: Mat, m: Mat, k: nat, used: seq<nat>, p: seq<nat>)
    requires Square(a, k) && Square(m, k) && Labels(used, p, k)
    requires forall j :: 0 <= j < k ==> used[j] == 1
    requires Represents(a, m, k, used, p)
    ensures Solves(a, m, k, p)
  {
    hide Dot, Maps;
    forall x: Vec, y: Vec | |x| == k && |y| == k
      ensures Maps(m, x, y) <==> Maps(a, Permuted(y, p), x)
    {
      assert Inputs(used, p, x, y) == Permuted(y, p);
      assert Outputs(used, p, x, y) == x;
    }
  }

  lemma UnswapSolves(a: Mat, m: Mat, k: nat, rows: seq<nat>, cols: seq<nat>, t: nat)
    requires Square(a, k) && Square(m, k) && 0 < t <= |rows| && t <= |cols|
    requires forall i :: 0 <= i < t ==> rows[i] < k && cols[i] < k
    requires Solves(a, m, k, PermAfter(k, rows, cols, t))
    ensures Solves(ColumnsSwapped(a, k, rows[t - 1], cols[t - 1]), m, k, PermAfter(k, rows, cols, t - 1))
  {
    hide Dot, Maps;
    var r, c := rows[t - 1], cols[t - 1];
    var p, q := PermAfter(k, rows, cols, t), PermAfter(k, rows, cols, t - 1);
    forall x: Vec, y: Vec | |x| == k && |y| == k
      ensures Maps(m, x, y) <==> Maps(ColumnsSwapped(a, k, r, c), Permuted(y, q), x)
    {
      assert Permuted(y, p) == Swapped(Permuted(y, q), r, c);
      ColumnsSwappedMaps(a, k, r, c, Permuted(y, q), x);
    }
  }

  lemma SolvesIsInverse(a: Mat, m: Mat, k: nat, p: seq<nat>)
    requires Square(a, k) && Square(m, k) && |p| == k && forall j :: 0 <= j < k ==> p[j] == j
    requires Solves(a, m, k, p)
    ensures Inverses(m, a, k)
  {
    hide Dot, Maps;
    forall x: Vec, y: Vec | |x| == k && |y| == k
      ensures Maps(m, x, y) <==> Maps(a, y, x)
    {
      assert Permuted(y, p) == y;
    }
  }

  // ----- the algorithm on the array

  ghost function Rows(src: array2<gf>): (m: Mat)
    reads src
    ensures |m| == src.Length0 && forall i :: 0 <= i < |m| ==> |m[i]| == src.Length1
    ensures forall i, j :: 0 <= i < src.Length0 && 0 <= j < src.Length1 ==> m[i][j] == src[i, j]
  {
    seq(src.Length0, i requires 0 <= i < src.Length0 reads src =>
      seq(src.Length1, j requires 0 <= j < src.Length1 reads src => src[i, j]))
  }

  lemma SameEntries(a: Mat, b: Mat, k: nat)
    requires Square(a, k) && Square(b, k)
    requires forall i, j :: 0 <= i < k && 0 <= j < k ==> a[i][j] == b[i][j]
    ensures a == b
  {
    forall i | 0 <= i < k ensures a[i] == b[i] {
    }
  }

  method SwapRows(src: array2<gf>, r: nat, c: nat)
    requires src.Length0 == src.Length1 && r < src.Length0 && c < src.Length0
    modifies src
    ensures Rows(src) == Swapped(old(Rows(src)), r, c)
  {
    var k := src.Length0;
    for ix := 0 to k
      invariant forall i, j :: 0 <= i < k && 0 <= j < k ==>
        src[i, j] == (if j >= ix then old(src[i, j])
                      else if i == r then old(src[c, j]) else if i == c then old(src[r, j]) else old(src[i, j]))
    {
      src[r, ix], src[c, ix] := src[c, ix], src[r, ix];
    }
    SameEntries(Rows(src), Swapped(old(Rows(src)), r, c), k);
  }

  method SwapColumns(src: array2<gf>, r: nat, c: nat)
    requires src.Length0 == src.Length1 && r < src.Length0 && c < src.Length0
    modifies src
    ensures Rows(src) == ColumnsSwapped(old(Rows(src)), src.Length0, r, c)
  {
    var k := src.Length0;
    for row := 0 to k
      invariant forall i, j :: 0 <= i < k && 0 <= j < k ==>
        src[i, j] == (if i >= row then old(src[i, j])
                      else if j == r then old(src[i, c]) else if j == c then old(src[i, r]) else old(src[i, j]))
    {
      src[row, r], src[row, c] := src[row, c], src[row, r];
    }
    SameEntries(Rows(src), ColumnsSwapped(old(Rows(src)), k, r, c), k);
  }

  /** Divide the pivot row by its pivot. */
  method NormalizeRow(t: GfTables.Tables, src: array2<gf>, icol: nat)
    requires t.Valid() && src != t.mul && src != t.mul16
    requires src.Length0 == src.Length1 && icol < src.Length0 && src[icol, icol] != 0
    modifies src
    ensures Rows(src) == old(Rows(src))[icol := PivotRow(old(Rows(src)), src.Length0, icol)]
  {
    hide Mul, Add, Inv;
    var k := src.Length0;
    var c := src[icol, icol];
    if c != 1 {
      c := t.inverse[c];
      src[icol, icol] := 1;
      ghost var row := old(Rows(src))[icol][icol := 1];
      for ix := 0 to k
        invariant forall i, j :: 0 <= i < k && 0 <= j < k && i != icol ==> src[i, j] == old(src[i, j])
        invariant forall j :: 0 <= j < k ==> src[icol, j] == (if j < ix then Mul(c, row[j]) else row[j])
      {
        src[icol, ix] := t.mul[c, src[icol, ix]];
      }
    } else {
      GfTables.LogOfOne();
      forall j | 0 <= j < k ensures Mul(1, src[icol, j]) == src[icol, j] {
        MulOneLeft(src[icol, j]);
      }
    }
    SameEntries(Rows(src), old(Rows(src))[icol := PivotRow(old(Rows(src)), k, icol)], k);
  }

  /** Row i with its entry c cleared plus that entry times the pivot row. */
  function Reduced(m: Mat, k: nat, c: nat): (b: Mat)
    requires Square(m, k) && c < k
    ensures Square(b, k)
  {
    seq(k, i requires 0 <= i < k => if i == c then m[c] else Axpy(m[i][c := 0], m[i][c], m[c]))
  }

  lemma PivotIsReduced(a: Mat, k: nat, c: nat)
    requires Square(a, k) && c < k
    ensures Reduced(a[c := PivotRow(a, k, c)], k, c) == Pivot(a, k, c)
  {
    hide Axpy, Scale, Inv;
    var a' := a[c := PivotRow(a, k, c)];
    forall i | 0 <= i < k ensures Reduced(a', k, c)[i] == Pivot(a, k, c)[i] {
    }
  }

  /** With an identity pivot row there is nothing to remove: the skip changes nothing. */
  lemma UnitRowReducesNothing(m: Mat, k: nat, c: nat)
    requires Square(m, k) && c < k && m[c] == Unit(k, c)
    ensures Reduced(m, k, c) == m
  {
    hide Mul, Add;
    forall i, j | 0 <= i < k && 0 <= j < k ensures Reduced(m, k, c)[i][j] == m[i][j] {
      MulZero(m[i][c]);
      AddIdentity(m[i][j]);
      MulOneLeft(m[i][c]);
      MulCommutes(m[i][c], 1);
    }
    SameEntries(Reduced(m, k, c), m, k);
  }

  /** Add v times row c to row i, which the source does through its addmul kernel. */
  method AddMulRow(t: GfTables.Tables, src: array2<gf>, i: nat, c: nat, v: gf)
    requires t.Valid() && src != t.mul && src != t.mul16
    requires src.Length0 == src.Length1 && i < src.Length0 && c < src.Length0 && i != c
    modifies src
    ensures Rows(src) == old(Rows(src))[i := Axpy(old(Rows(src))[i], v, old(Rows(src))[c])]
  {
    hide Mul, Add;
    var k := src.Length0;
    if v != 0 {
      for j := 0 to k
        invariant forall r, s :: 0 <= r < k && 0 <= s < k ==>
          src[r, s] == (if r == i && s < j then Add(old(src[r, s]), Mul(v, old(src[c, s]))) else old(src[r, s]))
      {
        src[i, j] := Add(src[i, j], t.mul[v, src[c, j]]);
      }
    } else {
      forall s | 0 <= s < k ensures Add(src[i, s], Mul(0, src[c, s])) == src[i, s] {
        MulZero(src[c, s]);
        AddIdentity(src[i, s]);
      }
    }
    SameEntries(Rows(src), old(Rows(src))[i := Axpy(old(Rows(src))[i], v, old(Rows(src))[c])], k);
  }

  method IsUnitRow(src: array2<gf>, c: nat) returns (unit: bool)
    requires src.Length0 == src.Length1 && c < src.Length0
    ensures unit <==> Rows(src)[c] == Unit(src.Length0, c)
  {
    var k := src.Length0;
    var j := 0;
    while j < k && src[c, j] == (if j == c then 1 else 0)
      invariant 0 <= j <= k
      invariant forall s :: 0 <= s < j ==> src[c, s] == Unit(k, c)[s]
    {
      j := j + 1;
    }
    unit := j == k;
    if unit {
      assert Rows(src)[c] == Unit(k, c);
    } else {
      assert Rows(src)[c][j] != Unit(k, c)[j];
    }
  }

  method Eliminate(t: GfTables.Tables, src: array2<gf>, icol: nat)
    requires t.Valid() && src != t.mul && src != t.mul16
    requires src.Length0 == src.Length1 && icol < src.Length0
    modifies src
    ensures Rows(src) == Reduced(old(Rows(src)), src.Length0, icol)
  {
    hide Axpy;
    var k := src.Length0;
    ghost var m := Rows(src);
    var unit := IsUnitRow(src, icol);
    if unit {
      UnitRowReducesNothing(m, k, icol);
    } else {
      ghost var goal := Reduced(m, k, icol);
      for ix := 0 to k
        invariant Rows(src)[icol] == m[icol]
        invariant forall i :: 0 <= i < k ==> Rows(src)[i] == (if i < ix then goal[i] else m[i])
      {
        if ix != icol {
          var c := src[ix, icol];
          src[ix, icol] := 0;
          assert Rows(src)[ix] == m[ix][icol := 0];
          forall i | 0 <= i < k && i != ix ensures Rows(src)[i] == (if i < ix then goal[i] else m[i]) {
          }
          AddMulRow(t, src, ix, icol, c);
        }
      }
      assert Rows(src) == goal;
    }
  }

  /** The pivot search: the diagonal first, then the unused rows and columns in order. */
  method FindPivot(src: array2<gf>, ipiv: array<nat>, col: nat) returns (found: bool, irow: nat, icol: nat)
    requires src.Length0 == src.Length1 == ipiv.Length && col < ipiv.Length
    requires forall j :: 0 <= j < ipiv.Length ==> ipiv[j] <= 1
    ensures found ==> irow < ipiv.Length && icol < ipiv.Length && ipiv[irow] != 1 && ipiv[icol] != 1
    ensures found ==> src[irow, icol] != 0
    ensures !found ==> forall r, c :: 0 <= r < ipiv.Length && 0 <= c < ipiv.Length && ipiv[r] != 1 && ipiv[c] != 1 ==> src[r, c] == 0
  {
    var k := ipiv.Length;
    found, irow, icol := false, 0, 0;
    if ipiv[col] != 1 && src[col, col] != 0 {
      return true, col, col;
    }
    for row := 0 to k
      invariant forall r, c :: 0 <= r < row && 0 <= c < k && ipiv[r] != 1 && ipiv[c] != 1 ==> src[r, c] == 0
    {
      if ipiv[row] != 1 {
        for ix := 0 to k
          invariant forall c :: 0 <= c < ix && ipiv[c] != 1 ==> src[row, c] == 0
        {
          if ipiv[ix] == 0 {
            if src[row, ix] != 0 {
              return true, row, ix;
            }
          } else {
            assert ipiv[ix] <= 1;
          }
        }
      }
    }
  }

  lemma {:induction false} PermCongruent(k: nat, rows: seq<nat>, cols: seq<nat>, rows': seq<nat>, cols': seq<nat>, t: nat)
    requires t <= |rows| && t <= |cols| && t <= |rows'| && t <= |cols'|
    requires forall i :: 0 <= i < t ==> rows[i] == rows'[i] < k && cols[i] == cols'[i] < k
    ensures PermAfter(k, rows, cols, t) == PermAfter(k, rows', cols', t)
  {
    if t > 0 {
      PermCongruent(k, rows, cols, rows', cols', t - 1);
    }
  }

  /** Swap, normalise and eliminate around one pivot. */
  method ExchangePivot(t: GfTables.Tables, src: array2<gf>, irow: nat, icol: nat, ghost m: Mat, ghost used: seq<nat>, ghost perm: seq<nat>)
    requires t.Valid() && src != t.mul && src != t.mul16
    requires src.Length0 == src.Length1 && irow < src.Length0 && icol < src.Length0
    requires src[irow, icol] != 0
    requires Square(m, src.Length0) && Labels(used, perm, src.Length0) && used[irow] != 1 && used[icol] != 1
    requires Represents(Rows(src), m, src.Length0, used, perm)
    modifies src
    ensures Represents(Rows(src), m, src.Length0, used[icol := 1], Swapped(perm, irow, icol))
  {
    hide Represents, PivotRow, Pivot, Reduced;
    var k := src.Length0;
    SwapRepresents(Rows(src), m, k, used, perm, irow, icol);
    if irow != icol {
      SwapRows(src, irow, icol);
    } else {
      assert Swapped(Rows(src), irow, icol) == Rows(src);
    }
    ghost var a := Rows(src);
    assert a[icol][icol] != 0;
    NormalizeRow(t, src, icol);
    Eliminate(t, src, icol);
    PivotIsReduced(a, k, icol);
    PivotRepresents(a, m, k, used, Swapped(perm, irow, icol), icol);
  }

  /** n pivots of the nonsingular m are done: a is a tableau for it. */
  ghost predicate Pivoted(a: Mat, m: Mat, k: nat, used: seq<nat>, perm: seq<nat>, n: nat) {
    && Square(a, k) && Square(m, k) && Labels(used, perm, k)
    && (forall j :: 0 <= j < k ==> used[j] <= 1)
    && Ones(used, k) == n
    && Nonsingular(m, k)
    && Represents(a, m, k, used, perm)
  }

  /** One round: find a pivot among the unused rows and columns, exchange it and mark its column. */
  method NextPivot(t: GfTables.Tables, src: array2<gf>, ipiv: array<nat>, col: nat, ghost m: Mat, ghost perm: seq<nat>)
    returns (irow: nat, icol: nat)
    requires t.Valid() && src != t.mul && src != t.mul16 && ipiv != t.log
    requires src.Length0 == src.Length1 == ipiv.Length && col < ipiv.Length
    requires Pivoted(Rows(src), m, ipiv.Length, ipiv[..], perm, col)
    modifies src, ipiv
    ensures irow < |perm| == ipiv.Length && icol < ipiv.Length
    ensures Pivoted(Rows(src), m, ipiv.Length, ipiv[..], Swapped(perm, irow, icol), col + 1)
  {
    hide Represents, Nonsingular;
    ghost var k, used := ipiv.Length, ipiv[..];
    var found;
    found, irow, icol := FindPivot(src, ipiv, col);
    PivotFound(Rows(src), m, k, used, perm, found);
    ExchangePivot(t, src, irow, icol, m, used, perm);
    ipiv[icol] := ipiv[icol] + 1;
    assert ipiv[..] == used[icol := 1];
    OnesUpdate(used, icol, k);
  }

  lemma NonePivoted(m: Mat, k: nat, used: seq<nat>, perm: seq<nat>)
    requires Square(m, k) && Nonsingular(m, k) && |used| == |perm| == k
    requires forall j :: 0 <= j < k ==> used[j] == 0 && perm[j] == j
    ensures Pivoted(m, m, k, used, perm, 0)
  {
    hide Nonsingular, Represents;
    StartRepresents(m, k, used, perm);
    OnesZero(used, k);
  }

  lemma AllPivoted(a: Mat, m: Mat, k: nat, used: seq<nat>, perm: seq<nat>)
    requires Pivoted(a, m, k, used, perm, k)
    ensures Solves(a, m, k, perm)
  {
    hide Nonsingular, Represents, Solves;
    OnesBound(used, k);
    AllUsedSolves(a, m, k, used, perm);
  }

  /** All columns of a nonsingular matrix are pivoted; the swaps are recorded. */
  method PivotAll(t: GfTables.Tables, src: array2<gf>) returns (indxr: array<nat>, indxc: array<nat>)
    requires t.Valid() && src != t.mul && src != t.mul16
    requires src.Length0 == src.Length1 && Nonsingular(Rows(src), src.Length0)
    modifies src
    ensures fresh(indxr) && fresh(indxc) && indxr.Length == indxc.Length == src.Length0
    ensures forall i :: 0 <= i < src.Length0 ==> indxr[i] < src.Length0 && indxc[i] < src.Length0
    ensures Solves(Rows(src), old(Rows(src)), src.Length0, PermAfter(src.Length0, indxr[..], indxc[..], src.Length0))
  {
    hide Pivoted, Nonsingular, PermAfter, Solves, GfTables.Tables.Valid;
    var k := src.Length0;
    ghost var m := Rows(src);
    indxc := new nat[k](_ => 0);
    indxr := new nat[k](_ => 0);
    var ipiv := new nat[k](_ => 0);
    StartPermutation(k, indxr[..], indxc[..]);
    NonePivoted(m, k, ipiv[..], PermAfter(k, indxr[..], indxc[..], 0));
    for col := 0 to k
      invariant forall i :: 0 <= i < col ==> indxr[i] < k && indxc[i] < k
      invariant Pivoted(Rows(src), m, k, ipiv[..], PermAfter(k, indxr[..], indxc[..], col), col)
      invariant t.Valid()
    {
      ghost var rows, cols := indxr[..], indxc[..];
      var irow, icol := NextPivot(t, src, ipiv, col, m, PermAfter(k, rows, cols, col));
      indxr[col] := irow;
      indxc[col] := icol;
      NextPermutation(k, rows, cols, indxr[..], indxc[..], col);
    }
    AllPivoted(Rows(src), m, k, ipiv[..], PermAfter(k, indxr[..], indxc[..], k));
  }

  /** Every nonsingular matrix is replaced by its inverse. */
  method InvertMat(t: GfTables.Tables, src: array2<gf>)
    requires t.Valid() && src != t.mul && src != t.mul16
    requires src.Length0 == src.Length1 && Nonsingular(Rows(src), src.Length0)
    modifies src
    ensures Inverses(old(Rows(src)), Rows(src), src.Length0)
  {
    hide Nonsingular, PermAfter, Solves, Inverses, GfTables.Tables.Valid;
    var k := src.Length0;
    ghost var m := Rows(src);
    var indxr, indxc := PivotAll(t, src);
    ghost var rows, cols := indxr[..], indxc[..];
    var col := k;
    while col > 0
      invariant 0 <= col <= k && rows == indxr[..] && cols == indxc[..]
      invariant Solves(Rows(src), m, k, PermAfter(k, rows, cols, col))
    {
      UnswapSolves(Rows(src), m, k, rows, cols, col);
      if indxr[col - 1] != indxc[col - 1] {
        SwapColumns(src, indxr[col - 1], indxc[col - 1]);
      } else {
        NoSwap(Rows(src), k, indxr[col - 1]);
      }
      col := col - 1;
    }
    StartPermutation(k, rows, cols);
    SolvesIsInverse(Rows(src), m, k, PermAfter(k, rows, cols, 0));
  }

  lemma NoSwap(a: Mat, k: nat, i: nat)
    requires Square(a, k) && i < k
    ensures ColumnsSwapped(a, k, i, i) == a
  {
    SameEntries(ColumnsSwapped(a, k, i, i), a, k);
  }

  lemma StartPermutation(k: nat, rows: seq<nat>, cols: seq<nat>)
    ensures forall j :: 0 <= j < k ==> PermAfter(k, rows, cols, 0)[j] == j
  {}

  lemma NextPermutation(k: nat, rows: seq<nat>, cols: seq<nat>, rows': seq<nat>, cols': seq<nat>, t: nat)
    requires t < |rows| == |rows'| == |cols| == |cols'|
    requires forall i :: 0 <= i < t ==> rows[i] == rows'[i] < k && cols[i] == cols'[i] < k
    requires rows'[t] < k && cols'[t] < k
    ensures PermAfter(k, rows', cols', t + 1) == Swapped(PermAfter(k, rows, cols, t), rows'[t], cols'[t])
  {
    PermCongruent(k, rows, cols, rows', cols', t);
  }

  /** The search cannot fail on a nonsingular matrix while a column is unused. */
  lemma PivotFound(a: Mat, m: Mat, k: nat, used: seq<nat>, perm: seq<nat>, found: bool)
    requires Square(a, k) && Square(m, k) && Labels(used, perm, k)
    requires Represents(a, m, k, used, perm) && Nonsingular(m, k)
    requires Ones(used, k) < k
    requires !found ==> forall r, c :: 0 <= r < k && 0 <= c < k && used[r] != 1 && used[c] != 1 ==> a[r][c] == 0
    ensures found
  {
    hide Represents, Nonsingular;
    OnesBound(used, k);
    var c :| 0 <= c < k && used[c] != 1;
    if !found {
      NoPivotIsSingular(a, m, k, used, perm, c);
    }
  }
}
