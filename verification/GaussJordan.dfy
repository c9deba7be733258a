/** The exchange view of in-place Gauss-Jordan elimination.

    Let A be the matrix at the start.  While the elimination runs, the matrix S
    that overwrites A no longer maps x to y = A x.  It maps a mixed vector to a
    mixed vector: a pivot on column c exchanges the unknown x[c] with the value
    of row c.  `piv[j] == 1` says that column j has been exchanged, and sigma[r]
    is the row of A that row swaps have brought to row r.  Since the field has
    characteristic 2 no sign changes. */
module GaussJordan {
  import opened GaloisField
  import opened FieldLaws
  import opened LinearAlgebra

  // ----- One pivot

  /** The pivot row after it has been scaled, with the inverse of the pivot in its place. */
  ghost function PivotRow(row: Vector, c: nat): (r: Vector)
    requires c < |row|
    ensures |r| == |row|
  {
    Scaled(Inverse(row[c]), row[c := 1])
  }

  /** Another row after the multiple of the pivot row has been taken away. */
  ghost function ReducedRow(row: Vector, pivotRow: Vector, c: nat): (r: Vector)
    requires c < |row| == |pivotRow|
    ensures |r| == |row|
  {
    Sum(row[c := 0], Scaled(row[c], pivotRow))
  }

  ghost function Pivoted(s: Matrix, k: nat, c: nat): (t: Matrix)
    requires IsMatrix(s, k, k) && c < k
    ensures IsMatrix(t, k, k)
    ensures t[c] == PivotRow(s[c], c)
    ensures forall r :: 0 <= r < k && r != c ==> t[r] == ReducedRow(s[r], t[c], c)
  {
    var p := PivotRow(s[c], c);
    seq(k, r requires 0 <= r < k => if r == c then p else ReducedRow(s[r], p, c))
  }

  /** Solving row c for the unknown at c. */
  lemma PivotRowSolves(row: Vector, u: Vector, c: nat)
    requires c < |row| == |u| && row[c] != 0
    ensures Dot(PivotRow(row, c), u[c := Dot(row, u)]) == u[c]
  {
    var n, p, q := |row|, row[c], Inverse(row[c]);
    var w := Dot(row, u);
    var d := DotTo(row[c := 0], u, n);
    DotToSplit(row, u, n, c);
    assert w == Add(d, Mul(p, u[c]));
    // the scaled row applied to the exchanged vector
    DotToScale(q, row[c := 1], u[c := w], n);
    DotToSplit(row[c := 1], u[c := w], n, c);
    assert row[c := 1][c := 0] == row[c := 0];
    MulZero(u[c]); MulZero(w);
    DotToSame(row[c := 0], u[c := w], row[c := 0], u, n);
    MulOne(w);
    // q * (d + w) == q * (p * u[c]) == u[c]
    AddComm(d, w);
    AddComm(d, Mul(p, u[c]));
    AddCancel(Mul(p, u[c]), d);
    MulAssoc(q, p, u[c]);
    MulInverse(p);
    MulOne(u[c]);
  }

  /** Substituting the solved unknown into another row leaves its value alone. */
  lemma ReducedRowKeeps(row: Vector, pivotRow: Vector, u: Vector, c: nat, w: gf)
    requires c < |row| == |u| == |pivotRow|
    requires Dot(pivotRow, u[c := w]) == u[c]
    ensures Dot(ReducedRow(row, pivotRow, c), u[c := w]) == Dot(row, u)
  {
    var n, f := |row|, row[c];
    var x := u[c := w];
    DotToAdd(row[c := 0], Scaled(f, pivotRow), x, n);
    DotToScale(f, pivotRow, x, n);
    MulZero(u[c]); MulZero(w);
    DotToSame(row[c := 0], x, row[c := 0], u, n);
    DotToSplit(row, u, n, c);
  }

  /** A pivot exchanges the input at c with the output at c. */
  lemma Exchange(s: Matrix, k: nat, c: nat, u: Vector, v: Vector)
    requires IsMatrix(s, k, k) && c < k && |u| == k && |v| == k
    requires s[c][c] != 0
    requires MatVec(s, u) == v
    ensures MatVec(Pivoted(s, k, c), u[c := v[c]]) == v[c := u[c]]
  {
    var t := Pivoted(s, k, c);
    var u' := u[c := v[c]];
    PivotRowSolves(s[c], u, c);
    forall r | 0 <= r < k ensures MatVec(t, u')[r] == v[c := u[c]][r] {
      if r != c { ReducedRowKeeps(s[r], t[c], u, c, v[c]); }
    }
  }

  /** The same pivot twice does nothing. */
  lemma PivotTwice(s: Matrix, k: nat, c: nat)
    requires IsMatrix(s, k, k) && c < k && s[c][c] != 0
    ensures Pivoted(s, k, c)[c][c] != 0
    ensures Pivoted(Pivoted(s, k, c), k, c) == s
  {
    var t := Pivoted(s, k, c);
    var p, q := s[c][c], Inverse(s[c][c]);
    InverseNonzero(p);
    MulOne(q);
    assert t[c][c] == q;
    InverseTwice(p);
    var w := Pivoted(t, k, c);
    assert w[c] == s[c] by {
      forall j | 0 <= j < k ensures w[c][j] == s[c][j] {
        PivotRowTwice(s[c], c, j);
      }
    }
    forall r | 0 <= r < k ensures w[r] == s[r] {
      if r != c {
        forall j | 0 <= j < k ensures w[r][j] == s[r][j] {
          ReducedTwice(s[r], s[c], c, j);
        }
      }
    }
  }

  lemma InverseTwice(p: gf)
    requires p != 0
    ensures Inverse(Inverse(p)) == p
  {
    var q := Inverse(p);
    InverseNonzero(p);
    MulInverse(p);
    MulInverse(q);
    MulAssoc(p, q, Inverse(q));
    MulOne(p);
    MulOne(Inverse(q));
  }

  lemma PivotRowTwice(row: Vector, c: nat, j: nat)
    requires c < |row| && j < |row| && row[c] != 0
    ensures PivotRow(PivotRow(row, c), c)[j] == row[j]
  {
    var p, q := row[c], Inverse(row[c]);
    MulOne(q); MulOne(p);
    InverseTwice(p);
    if j != c {
      MulAssoc(p, q, row[j]);
      MulInverse(p);
      MulOne(row[j]);
    }
  }

  lemma ReducedTwice(row: Vector, pivot: Vector, c: nat, j: nat)
    requires c < |row| == |pivot| && j < |row| && pivot[c] != 0
    ensures
      var once := ReducedRow(row, PivotRow(pivot, c), c);
      ReducedRow(once, pivot, c)[j] == row[j]
  {
    var p, q, f := pivot[c], Inverse(pivot[c]), row[c];
    var once := ReducedRow(row, PivotRow(pivot, c), c);
    MulOne(q);
    AddZero(Mul(f, q));
    assert once[c] == Mul(f, q);
    MulAssoc(f, q, pivot[j]);
    if j == c {
      MulInverse(p);
      MulOne(f);
      AddZero(f);
    } else {
      AddCancel(row[j], Mul(f, Mul(q, pivot[j])));
    }
  }

  // ----- The whole elimination

  ghost predicate IsState(k: nat, piv: seq<int>, sigma: seq<nat>) {
    && |piv| == k && |sigma| == k
    && (forall i :: 0 <= i < k ==> piv[i] == 0 || piv[i] == 1)
    && (forall i :: 0 <= i < k ==> sigma[i] < k)
  }

  ghost function Inputs(k: nat, piv: seq<int>, sigma: seq<nat>, x: Vector, y: Vector): (u: Vector)
    requires IsState(k, piv, sigma) && |x| == k && |y| == k
    ensures |u| == k
    ensures forall j :: 0 <= j < k ==> u[j] == if piv[j] == 1 then y[sigma[j]] else x[j]
  {
    seq(k, j requires 0 <= j < k => if piv[j] == 1 then y[sigma[j]] else x[j])
  }

  ghost function Outputs(k: nat, piv: seq<int>, sigma: seq<nat>, x: Vector, y: Vector): (v: Vector)
    requires IsState(k, piv, sigma) && |x| == k && |y| == k
    ensures |v| == k
    ensures forall r :: 0 <= r < k ==> v[r] == if piv[r] == 1 then x[r] else y[sigma[r]]
  {
    seq(k, r requires 0 <= r < k => if piv[r] == 1 then x[r] else y[sigma[r]])
  }

  ghost predicate Linked(a: Matrix, s: Matrix, k: nat, piv: seq<int>, sigma: seq<nat>, x: Vector, y: Vector)
    requires IsMatrix(a, k, k) && IsMatrix(s, k, k) && IsState(k, piv, sigma)
    requires |x| == k && |y| == k
  {
    MatVec(a, x) == y <==> MatVec(s, Inputs(k, piv, sigma, x, y)) == Outputs(k, piv, sigma, x, y)
  }

  /** S, read with the exchanges made so far, is still the relation y = A x. */
  ghost predicate Represents(a: Matrix, s: Matrix, k: nat, piv: seq<int>, sigma: seq<nat>) {
    && IsMatrix(a, k, k) && IsMatrix(s, k, k) && IsState(k, piv, sigma)
    && forall x: Vector, y: Vector :: |x| == k && |y| == k ==> Linked(a, s, k, piv, sigma, x, y)
  }

  ghost function Iota(k: nat): (s: seq<nat>)
    ensures |s| == k
    ensures forall i :: 0 <= i < k ==> s[i] == i
  {
    seq(k, i requires 0 <= i => i)
  }

  ghost function Swapped<T>(s: seq<T>, i: nat, j: nat): (t: seq<T>)
    requires i < |s| && j < |s|
    ensures |t| == |s|
  {
    s[i := s[j]][j := s[i]]
  }

  lemma StartRepresents(a: Matrix, k: nat, piv: seq<int>)
    requires IsMatrix(a, k, k) && |piv| == k
    requires forall i :: 0 <= i < k ==> piv[i] == 0
    ensures Represents(a, a, k, piv, Iota(k))
  {
    forall x: Vector, y: Vector | |x| == k && |y| == k ensures Linked(a, a, k, piv, Iota(k), x, y) {
      assert Inputs(k, piv, Iota(k), x, y) == x;
      assert Outputs(k, piv, Iota(k), x, y) == y;
    }
  }

  lemma SwapRowsRepresents(a: Matrix, s: Matrix, k: nat, piv: seq<int>, sigma: seq<nat>, i: nat, j: nat)
    requires Represents(a, s, k, piv, sigma)
    requires i < k && j < k && piv[i] == 0 && piv[j] == 0
    ensures Represents(a, Swapped(s, i, j), k, piv, Swapped(sigma, i, j))
  {
    var t, tau := Swapped(s, i, j), Swapped(sigma, i, j);
    forall x: Vector, y: Vector | |x| == k && |y| == k ensures Linked(a, t, k, piv, tau, x, y) {
      assert Linked(a, s, k, piv, sigma, x, y);
      SwapRowsLinked(a, s, k, piv, sigma, i, j, x, y);
    }
  }

  lemma SwapRowsLinked(a: Matrix, s: Matrix, k: nat, piv: seq<int>, sigma: seq<nat>, i: nat, j: nat,
                       x: Vector, y: Vector)
    requires IsMatrix(a, k, k) && IsMatrix(s, k, k) && IsState(k, piv, sigma) && |x| == k && |y| == k
    requires Linked(a, s, k, piv, sigma, x, y)
    requires i < k && j < k && piv[i] == 0 && piv[j] == 0
    ensures Linked(a, Swapped(s, i, j), k, piv, Swapped(sigma, i, j), x, y)
  {
    var tau := Swapped(sigma, i, j);
    var u, v := Inputs(k, piv, sigma, x, y), Outputs(k, piv, sigma, x, y);
    assert Inputs(k, piv, tau, x, y) == u;
    assert Outputs(k, piv, tau, x, y) == Swapped(v, i, j);
    SwapOutputs(s, k, u, v, i, j);
  }

  lemma SwapOutputs(s: Matrix, k: nat, u: Vector, v: Vector, i: nat, j: nat)
    requires IsMatrix(s, k, k) && |u| == k && |v| == k && i < k && j < k
    ensures MatVec(s, u) == v <==> MatVec(Swapped(s, i, j), u) == Swapped(v, i, j)
  {
    var p, q := MatVec(s, u), MatVec(Swapped(s, i, j), u);
    assert q == Swapped(p, i, j);
    if q == Swapped(v, i, j) { SwappedInjective(p, v, i, j); }
  }

  lemma SwappedInjective(p: Vector, v: Vector, i: nat, j: nat)
    requires |p| == |v| && i < |p| && j < |p|
    requires Swapped(p, i, j) == Swapped(v, i, j)
    ensures p == v
  {
    assert Swapped(Swapped(p, i, j), i, j) == p;
    assert Swapped(Swapped(v, i, j), i, j) == v;
  }

  lemma PivotRepresents(a: Matrix, s: Matrix, k: nat, piv: seq<int>, sigma: seq<nat>, c: nat)
    requires Represents(a, s, k, piv, sigma)
    requires c < k && piv[c] == 0 && s[c][c] != 0
    ensures Represents(a, Pivoted(s, k, c), k, piv[c := 1], sigma)
  {
    var t, piv' := Pivoted(s, k, c), piv[c := 1];
    forall x: Vector, y: Vector | |x| == k && |y| == k ensures Linked(a, t, k, piv', sigma, x, y) {
      assert Linked(a, s, k, piv, sigma, x, y);
      PivotLinked(a, s, k, piv, sigma, c, x, y);
    }
  }

  lemma PivotLinked(a: Matrix, s: Matrix, k: nat, piv: seq<int>, sigma: seq<nat>, c: nat, x: Vector, y: Vector)
    requires IsMatrix(a, k, k) && IsMatrix(s, k, k) && IsState(k, piv, sigma) && |x| == k && |y| == k
    requires Linked(a, s, k, piv, sigma, x, y)
    requires c < k && piv[c] == 0 && s[c][c] != 0
    ensures Linked(a, Pivoted(s, k, c), k, piv[c := 1], sigma, x, y)
  {
    var t, piv' := Pivoted(s, k, c), piv[c := 1];
    var u, v := Inputs(k, piv, sigma, x, y), Outputs(k, piv, sigma, x, y);
    assert Inputs(k, piv', sigma, x, y) == u[c := v[c]];
    assert Outputs(k, piv', sigma, x, y) == v[c := u[c]];
    ExchangeBothWays(s, k, c, u, v);
  }

  lemma ExchangeBothWays(s: Matrix, k: nat, c: nat, u: Vector, v: Vector)
    requires IsMatrix(s, k, k) && c < k && |u| == k && |v| == k
    requires s[c][c] != 0
    ensures MatVec(s, u) == v <==> MatVec(Pivoted(s, k, c), u[c := v[c]]) == v[c := u[c]]
  {
    var t := Pivoted(s, k, c);
    var u', v' := u[c := v[c]], v[c := u[c]];
    PivotTwice(s, k, c);
    if MatVec(s, u) == v { Exchange(s, k, c, u, v); }
    if MatVec(t, u') == v' {
      Exchange(t, k, c, u', v');
      assert u'[c := v'[c]] == u && v'[c := u'[c]] == v;
    }
  }

  // ----- Singular matrices

  ghost predicate Nonsingular(a: Matrix, k: nat)
    requires IsMatrix(a, k, k)
  {
    forall x: Vector :: |x| == k && MatVec(a, x) == Zeros(k) ==> x == Zeros(k)
  }

  /** If no pivot is left to choose, then A maps some nonzero vector to zero. */
  lemma StuckIsSingular(a: Matrix, s: Matrix, k: nat, piv: seq<int>, sigma: seq<nat>, c: nat)
    requires Represents(a, s, k, piv, sigma)
    requires c < k && piv[c] == 0
    requires forall r :: 0 <= r < k && piv[r] == 0 ==> s[r][c] == 0
    ensures !Nonsingular(a, k)
  {
    var v := Column(s, k, c);
    var x := KernelVector(k, piv, c, v);
    var y := Zeros(k);
    assert Linked(a, s, k, piv, sigma, x, y);
    assert Inputs(k, piv, sigma, x, y) == Unit(k, c);
    assert Outputs(k, piv, sigma, x, y) == v;
    MatVecUnit(s, k, c);
    assert x[c] == 1;
  }

  ghost function KernelVector(k: nat, piv: seq<int>, c: nat, v: Vector): (x: Vector)
    requires |piv| == k && |v| == k
    ensures |x| == k
    ensures forall j :: 0 <= j < k ==> x[j] == if piv[j] == 1 then v[j] else if j == c then 1 else 0
  {
    seq(k, j requires 0 <= j < k => if piv[j] == 1 then v[j] else if j == c then 1 else 0)
  }

  lemma MatVecUnit(s: Matrix, k: nat, c: nat)
    requires IsMatrix(s, k, k) && c < k
    ensures MatVec(s, Unit(k, c)) == Column(s, k, c)
  {
    forall r | 0 <= r < k ensures MatVec(s, Unit(k, c))[r] == s[r][c] { DotToUnit(s[r], k, c); }
  }

  // ----- Undoing the row swaps on the columns

  /** S maps y, read in the order sigma, to the x with y = A x. */
  ghost predicate Solves(a: Matrix, s: Matrix, k: nat, sigma: seq<nat>) {
    Represents(a, s, k, seq(k, i => 1), sigma)
  }

  ghost function SwapColumns(s: Matrix, k: nat, i: nat, j: nat): (t: Matrix)
    requires IsMatrix(s, k, k) && i < k && j < k
    ensures IsMatrix(t, k, k)
    ensures forall r :: 0 <= r < k ==> t[r] == Swapped(s[r], i, j)
  {
    seq(k, r requires 0 <= r < k => Swapped(s[r], i, j))
  }

  lemma DotSwapped(a: Vector, x: Vector, i: nat, j: nat)
    requires |a| == |x| && i < |a| && j < |a|
    ensures Dot(Swapped(a, i, j), Swapped(x, i, j)) == Dot(a, x)
  {
    var n := |a|;
    var b, y := Swapped(a, i, j), Swapped(x, i, j);
    if i != j {
      DotToSplit(a, x, n, i);
      DotToSplit(a[i := 0], x, n, j);
      DotToSplit(b, y, n, j);
      DotToSplit(b[j := 0], y, n, i);
      var d, e := a[i := 0][j := 0], b[j := 0][i := 0];
      forall m | 0 <= m < n ensures Mul(d[m], x[m]) == Mul(e[m], y[m]) {
        MulZero(x[m]); MulZero(y[m]);
      }
      DotToSame(d, x, e, y, n);
    } else {
      assert b == a && y == x;
    }
  }

  lemma UnswapColumns(a: Matrix, s: Matrix, k: nat, sigma: seq<nat>, i: nat, j: nat)
    requires |sigma| == k && i < k && j < k
    requires Solves(a, s, k, Swapped(sigma, i, j))
    ensures Solves(a, SwapColumns(s, k, i, j), k, sigma)
  {
    var piv := seq(k, i => 1);
    var tau := Swapped(sigma, i, j);
    var t := SwapColumns(s, k, i, j);
    assert sigma[i] == tau[j] && sigma[j] == tau[i];
    forall r | 0 <= r < k ensures sigma[r] < k {
      if r != i && r != j { assert sigma[r] == tau[r]; }
    }
    forall x: Vector, y: Vector | |x| == k && |y| == k ensures Linked(a, t, k, piv, sigma, x, y) {
      assert Linked(a, s, k, piv, tau, x, y);
      var u, v := Inputs(k, piv, tau, x, y), Inputs(k, piv, sigma, x, y);
      assert v == Swapped(u, i, j);
      assert Outputs(k, piv, tau, x, y) == Outputs(k, piv, sigma, x, y);
      forall r | 0 <= r < k ensures MatVec(t, v)[r] == MatVec(s, u)[r] { DotSwapped(s[r], u, i, j); }
      assert MatVec(t, v) == MatVec(s, u);
    }
  }

  // ----- The inverse

  ghost predicate IsInverse(b: Matrix, a: Matrix, k: nat) {
    && IsMatrix(a, k, k) && IsMatrix(b, k, k)
    && MatMul(b, a, k) == Identity(k) && MatMul(a, b, k) == Identity(k)
  }

  lemma SolvedIsInverse(a: Matrix, b: Matrix, k: nat)
    requires Solves(a, b, k, Iota(k))
    ensures IsInverse(b, a, k)
    ensures Nonsingular(a, k)
  {
    var piv := seq(k, i => 1);
    forall x: Vector, y: Vector | |x| == k && |y| == k ensures MatVec(a, x) == y <==> MatVec(b, y) == x {
      assert Linked(a, b, k, piv, Iota(k), x, y);
      assert Inputs(k, piv, Iota(k), x, y) == y;
      assert Outputs(k, piv, Iota(k), x, y) == x;
    }
    ProductIsIdentity(b, a, k);
    ProductIsIdentity(a, b, k);
    forall x: Vector | |x| == k && MatVec(a, x) == Zeros(k) ensures x == Zeros(k) {
      forall r | 0 <= r < k ensures MatVec(b, Zeros(k))[r] == 0 { DotToZero(b[r], Zeros(k), k); }
      assert MatVec(b, Zeros(k)) == Zeros(k);
    }
  }

  lemma ProductIsIdentity(b: Matrix, a: Matrix, k: nat)
    requires IsMatrix(a, k, k) && IsMatrix(b, k, k)
    requires forall x: Vector, y: Vector :: |x| == k && |y| == k && MatVec(a, x) == y ==> MatVec(b, y) == x
    ensures MatMul(b, a, k) == Identity(k)
  {
    var p := MatMul(b, a, k);
    forall r | 0 <= r < k ensures p[r] == Unit(k, r) {
      forall j | 0 <= j < k ensures p[r][j] == Unit(k, r)[j] {
        MatVecUnit(a, k, j);
        assert MatVec(b, Column(a, k, j)) == Unit(k, j);
      }
    }
    assert p == Identity(k);
  }
}
