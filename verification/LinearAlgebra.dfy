/** Vectors and matrices over GF(2^8). */
module LinearAlgebra {
  import opened GaloisField
  import opened FieldLaws

  type Vector = seq<gf>
  type Matrix = seq<seq<gf>>

  ghost predicate IsMatrix(a: Matrix, n: nat, m: nat) {
    |a| == n && forall r :: 0 <= r < n ==> |a[r]| == m
  }

  ghost function Zeros(k: nat): (z: Vector)
    ensures |z| == k
    ensures forall i :: 0 <= i < k ==> z[i] == 0
  {
    seq(k, i => 0)
  }

  ghost function Unit(k: nat, j: nat): (e: Vector)
    ensures |e| == k
    ensures forall i :: 0 <= i < k ==> e[i] == if i == j then 1 else 0
  {
    seq(k, i => if i == j then 1 else 0)
  }

  ghost function Identity(k: nat): (e: Matrix)
    ensures IsMatrix(e, k, k)
    ensures forall i :: 0 <= i < k ==> e[i] == Unit(k, i)
  {
    seq(k, i requires 0 <= i < k => Unit(k, i))
  }

  ghost function Sum(a: Vector, b: Vector): (c: Vector)
    requires |a| == |b|
    ensures |c| == |a|
    ensures forall i :: 0 <= i < |a| ==> c[i] == Add(a[i], b[i])
  {
    seq(|a|, i requires 0 <= i < |a| => Add(a[i], b[i]))
  }

  ghost function Scaled(c: gf, a: Vector): (b: Vector)
    ensures |b| == |a|
    ensures forall i :: 0 <= i < |a| ==> b[i] == Mul(c, a[i])
  {
    seq(|a|, i requires 0 <= i < |a| => Mul(c, a[i]))
  }

  /** The inner product of the first n entries. */
  ghost function DotTo(a: Vector, x: Vector, n: nat): gf
    requires n <= |a| && n <= |x|
  {
    if n == 0 then 0 else Add(DotTo(a, x, n - 1), Mul(a[n - 1], x[n - 1]))
  }

  ghost function Dot(a: Vector, x: Vector): gf
    requires |a| == |x|
  {
    DotTo(a, x, |a|)
  }

  ghost function MatVec(a: Matrix, x: Vector): (y: Vector)
    requires IsMatrix(a, |a|, |x|)
    ensures |y| == |a|
    ensures forall r :: 0 <= r < |a| ==> y[r] == Dot(a[r], x)
  {
    seq(|a|, r requires 0 <= r < |a| => Dot(a[r], x))
  }

  ghost function Column(a: Matrix, m: nat, c: nat): (x: Vector)
    requires IsMatrix(a, |a|, m) && c < m
    ensures |x| == |a|
    ensures forall r :: 0 <= r < |a| ==> x[r] == a[r][c]
  {
    seq(|a|, r requires 0 <= r < |a| => a[r][c])
  }

  ghost function RowTimes(v: Vector, b: Matrix, m: nat): (w: Vector)
    requires IsMatrix(b, |v|, m)
    ensures |w| == m
    ensures forall j :: 0 <= j < m ==> w[j] == Dot(v, Column(b, m, j))
  {
    seq(m, j requires 0 <= j < m => Dot(v, Column(b, m, j)))
  }

  ghost function MatMul(a: Matrix, b: Matrix, m: nat): (c: Matrix)
    requires IsMatrix(a, |a|, |b|) && IsMatrix(b, |b|, m)
    ensures IsMatrix(c, |a|, m)
    ensures forall r :: 0 <= r < |a| ==> c[r] == RowTimes(a[r], b, m)
  {
    seq(|a|, r requires 0 <= r < |a| => RowTimes(a[r], b, m))
  }

  // ----- Inner products

  lemma {:induction false} DotToSame(a: Vector, x: Vector, b: Vector, y: Vector, n: nat)
    requires n <= |a| && n <= |x| && n <= |b| && n <= |y|
    requires forall i :: 0 <= i < n ==> Mul(a[i], x[i]) == Mul(b[i], y[i])
    ensures DotTo(a, x, n) == DotTo(b, y, n)
  {
    if n > 0 { DotToSame(a, x, b, y, n - 1); }
  }

  lemma {:induction false} DotToZero(a: Vector, x: Vector, n: nat)
    requires n <= |a| && n <= |x|
    requires forall i :: 0 <= i < n ==> a[i] == 0 || x[i] == 0
    ensures DotTo(a, x, n) == 0
  {
    if n > 0 {
      DotToZero(a, x, n - 1);
      MulZero(a[n - 1]); MulZero(x[n - 1]);
      AddZero(0);
    }
  }

  lemma {:induction false} DotToAdd(a: Vector, b: Vector, x: Vector, n: nat)
    requires |a| == |b| && n <= |a| && n <= |x|
    ensures DotTo(Sum(a, b), x, n) == Add(DotTo(a, x, n), DotTo(b, x, n))
  {
    if n == 0 {
      AddZero(0);
    } else {
      var i := n - 1;
      DotToAdd(a, b, x, i);
      MulSumLeft(a[i], b[i], x[i]);
      AddSwap(DotTo(a, x, i), DotTo(b, x, i), Mul(a[i], x[i]), Mul(b[i], x[i]));
    }
  }

  lemma {:induction false} DotToScale(c: gf, a: Vector, x: Vector, n: nat)
    requires n <= |a| && n <= |x|
    ensures DotTo(Scaled(c, a), x, n) == Mul(c, DotTo(a, x, n))
  {
    if n == 0 {
      MulZero(c);
    } else {
      var i := n - 1;
      DotToScale(c, a, x, i);
      MulAssoc(c, a[i], x[i]);
      MulSumRight(c, DotTo(a, x, i), Mul(a[i], x[i]));
    }
  }

  lemma {:induction false} DotToComm(a: Vector, x: Vector, n: nat)
    requires n <= |a| && n <= |x|
    ensures DotTo(a, x, n) == DotTo(x, a, n)
  {
    if n > 0 {
      DotToComm(a, x, n - 1);
      MulComm(a[n - 1], x[n - 1]);
    }
  }

  /** The term at c, taken out of the inner product. */
  lemma {:induction false} DotToSplit(a: Vector, x: Vector, n: nat, c: nat)
    requires c < n <= |a| && n <= |x|
    ensures DotTo(a, x, n) == Add(DotTo(a[c := 0], x, n), Mul(a[c], x[c]))
  {
    var i := n - 1;
    var s := DotTo(a[c := 0], x, i);
    if i == c {
      DotToSame(a, x, a[c := 0], x, i);
      MulZero(x[c]);
      AddZero(s);
    } else {
      DotToSplit(a, x, i, c);
      AddAssoc(s, Mul(a[c], x[c]), Mul(a[i], x[i]));
      AddComm(Mul(a[c], x[c]), Mul(a[i], x[i]));
      AddAssoc(s, Mul(a[i], x[i]), Mul(a[c], x[c]));
    }
  }

  lemma DotToUnit(x: Vector, k: nat, j: nat)
    requires |x| == k && j < k
    ensures Dot(Unit(k, j), x) == x[j]
    ensures Dot(x, Unit(k, j)) == x[j]
  {
    DotToSplit(Unit(k, j), x, k, j);
    DotToZero(Unit(k, j)[j := 0], x, k);
    MulOne(x[j]);
    AddZero(x[j]);
    DotToComm(Unit(k, j), x, k);
  }

  // ----- Products of matrices act one after the other

  /** The row v B, with only the first n rows of B counted. */
  ghost function PartialRow(v: Vector, b: Matrix, m: nat, n: nat): (w: Vector)
    requires IsMatrix(b, |v|, m) && n <= |v|
    ensures |w| == m
    ensures forall j :: 0 <= j < m ==> w[j] == DotTo(v, Column(b, m, j), n)
  {
    seq(m, j requires 0 <= j < m => DotTo(v, Column(b, m, j), n))
  }

  lemma PartialRowStep(v: Vector, b: Matrix, m: nat, n: nat)
    requires IsMatrix(b, |v|, m) && n < |v|
    ensures PartialRow(v, b, m, n + 1) == Sum(PartialRow(v, b, m, n), Scaled(v[n], b[n]))
  {
  }

  lemma {:induction false} PartialRowDot(v: Vector, b: Matrix, m: nat, x: Vector, n: nat)
    requires IsMatrix(b, |v|, m) && |x| == m && n <= |v|
    ensures DotTo(v, MatVec(b, x), n) == Dot(PartialRow(v, b, m, n), x)
  {
    var w := PartialRow(v, b, m, n);
    if n == 0 {
      DotToZero(w, x, m);
    } else {
      var w', i := PartialRow(v, b, m, n - 1), n - 1;
      PartialRowDot(v, b, m, x, i);
      PartialRowStep(v, b, m, i);
      DotToAdd(w', Scaled(v[i], b[i]), x, m);
      DotToScale(v[i], b[i], x, m);
    }
  }

  lemma PartialRowAll(v: Vector, b: Matrix, m: nat)
    requires IsMatrix(b, |v|, m)
    ensures PartialRow(v, b, m, |v|) == RowTimes(v, b, m)
    ensures PartialRow(v, b, m, 0) == Zeros(m)
  {
  }

  lemma RowTimesDot(v: Vector, b: Matrix, m: nat, x: Vector)
    requires IsMatrix(b, |v|, m) && |x| == m
    ensures Dot(v, MatVec(b, x)) == Dot(RowTimes(v, b, m), x)
  {
    PartialRowDot(v, b, m, x, |v|);
    PartialRowAll(v, b, m);
  }

  lemma MatVecProduct(a: Matrix, b: Matrix, m: nat, x: Vector)
    requires IsMatrix(a, |a|, |b|) && IsMatrix(b, |b|, m) && |x| == m
    ensures MatVec(MatMul(a, b, m), x) == MatVec(a, MatVec(b, x))
  {
    forall r | 0 <= r < |a| ensures MatVec(MatMul(a, b, m), x)[r] == MatVec(a, MatVec(b, x))[r] {
      RowTimesDot(a[r], b, m, x);
    }
  }

  lemma MatVecIdentity(k: nat, x: Vector)
    requires |x| == k
    ensures MatVec(Identity(k), x) == x
  {
    forall r | 0 <= r < k ensures MatVec(Identity(k), x)[r] == x[r] { DotToUnit(x, k, r); }
  }

  lemma MatVecSum(a: Matrix, x: Vector, y: Vector)
    requires |x| == |y| && IsMatrix(a, |a|, |x|)
    ensures MatVec(a, Sum(x, y)) == Sum(MatVec(a, x), MatVec(a, y))
  {
    var k := |x|;
    forall r | 0 <= r < |a| ensures MatVec(a, Sum(x, y))[r] == Sum(MatVec(a, x), MatVec(a, y))[r] {
      DotToComm(a[r], Sum(x, y), k); DotToComm(a[r], x, k); DotToComm(a[r], y, k);
      DotToAdd(x, y, a[r], k);
    }
  }
}
