/** The systematic code that fec_new builds, and why any k packets suffice.

    The encoding matrix is V W, where V is the Vandermonde matrix on n points and
    W inverts its top k rows.  An encoded packet is the value, at the packet's
    point, of the polynomial that takes the source values at the first k points. */
module Systematic {
  import opened GaloisField
  import opened AlphaOrder
  import opened LinearAlgebra
  import opened GaussJordan
  import opened Polynomials
  import opened Vandermonde
  import opened Sequences

  /** The evaluation points: 0 and then the powers of alpha. */
  ghost function Points(n: nat): (ps: seq<gf>)
    ensures |ps| == n
    ensures forall i :: 0 <= i < n ==> ps[i] == if i == 0 then 0 else Exp(i - 1)
  {
    seq(n, i requires 0 <= i < n => if i == 0 then 0 else Exp(i - 1))
  }

  lemma PointsDistinct(n: nat)
    requires n <= 256
    ensures Distinct(Points(n))
  {
    hide Exp;
    forall i, j | 0 <= i < j < n ensures Points(n)[i] != Points(n)[j] {
      if i == 0 {
        PowerNonzero(j - 1);
      } else if Exp(i - 1) == Exp(j - 1) {
        ExpInjective(i - 1, j - 1);
      }
    }
  }

  lemma PowerNonzero(i: nat)
    ensures Exp(i) != 0
  {
    hide Shifted;
    ShiftedNonzero(1, i);
  }

  lemma PointsPrefix(k: nat, n: nat)
    requires k <= n
    ensures Points(n)[..k] == Points(k)
  {
    hide Exp;
  }

  /** Every row of e is its Vandermonde row times w, the inverse of the top square. */
  ghost predicate EncodesWith(e: Matrix, w: Matrix, k: nat, n: nat) {
    && 1 <= k <= n <= 256 && IsMatrix(e, n, k)
    && IsInverse(w, VanMatrix(Points(k), k), k)
    && forall i :: 0 <= i < n ==> e[i] == RowTimes(Powers(Points(n)[i], k), w, k)
  }

  ghost predicate IsEncoding(e: Matrix, k: nat, n: nat) {
    exists w :: EncodesWith(e, w, k, n)
  }

  /** The first k packets are the source packets themselves. */
  lemma TopIsIdentity(e: Matrix, w: Matrix, k: nat, n: nat, i: nat)
    requires EncodesWith(e, w, k, n) && i < k
    ensures e[i] == Unit(k, i)
  {
    PointsPrefix(k, n);
    var v := VanMatrix(Points(k), k);
    assert Points(n)[i] == Points(k)[i];
    assert MatMul(v, w, k)[i] == RowTimes(v[i], w, k);
  }

  /** The polynomial of the source x takes the encoded value of every index at its point. */
  lemma EncodingInterpolates(e: Matrix, w: Matrix, k: nat, n: nat, x: Vector, i: nat)
    requires EncodesWith(e, w, k, n) && |x| == k && i < n
    ensures Eval(MatVec(w, x), Points(n)[i]) == Dot(e[i], x)
    ensures i < k ==> Dot(e[i], x) == x[i]
  {
    var f := MatVec(w, x);
    RowTimesDot(Powers(Points(n)[i], k), w, k, x);
    DotPowers(f, Points(n)[i]);
    if i < k {
      TopIsIdentity(e, w, k, n, i);
      DotToUnit(x, k, i);
    }
  }

  ghost predicate ValidIndices(index: seq<int>, n: nat) {
    && (forall i :: 0 <= i < |index| ==> 0 <= index[i] < n)
    && (forall i, j :: 0 <= i < j < |index| ==> index[i] != index[j])
  }

  ghost function Select(e: Matrix, k: nat, index: seq<int>): (d: Matrix)
    requires IsMatrix(e, |e|, k)
    requires forall i :: 0 <= i < |index| ==> 0 <= index[i] < |e|
    ensures IsMatrix(d, |index|, k)
    ensures forall i :: 0 <= i < |index| ==> d[i] == e[index[i]]
  {
    seq(|index|, i requires 0 <= i < |index| => e[index[i]])
  }

  /** Any k distinct rows of the encoding matrix are independent. */
  lemma AnyRowsNonsingular(e: Matrix, k: nat, n: nat, index: seq<int>)
    requires IsEncoding(e, k, n) && |index| == k && ValidIndices(index, n)
    ensures Nonsingular(Select(e, k, index), k)
  {
    var w :| EncodesWith(e, w, k, n);
    var d := Select(e, k, index);
    forall x: Vector | |x| == k && MatVec(d, x) == Zeros(k) ensures x == Zeros(k) {
      KernelIsZero(e, w, k, n, index, x);
    }
  }

  lemma KernelIsZero(e: Matrix, w: Matrix, k: nat, n: nat, index: seq<int>, x: Vector)
    requires EncodesWith(e, w, k, n) && |index| == k && ValidIndices(index, n) && |x| == k
    requires MatVec(Select(e, k, index), x) == Zeros(k)
    ensures x == Zeros(k)
  {
    var ps: seq<gf> := seq(k, i requires 0 <= i < k => Points(n)[index[i]]);
    var f := MatVec(w, x);
    PointsDistinct(n);
    forall i | 0 <= i < k ensures Eval(f, ps[i]) == 0 {
      EncodingInterpolates(e, w, k, n, x, index[i]);
      assert MatVec(Select(e, k, index), x)[i] == 0;
    }
    assert Distinct(ps) by {
      forall i, j | 0 <= i < j < k ensures ps[i] != ps[j] {
        assert index[i] < index[j] || index[j] < index[i];
      }
    }
    TooManyRoots(f, ps);
    forall i | 0 <= i < k ensures x[i] == 0 {
      EncodingInterpolates(e, w, k, n, x, i);
      EvalZero(f, Points(n)[i]);
    }
  }

  // ----- Decoding

  /** The inverse of the selected rows takes the received packets back to the source packets. */
  lemma InverseRecovers(b: Matrix, d: Matrix, k: nat, source: Matrix, sz: nat, received: Matrix, row: nat)
    requires IsInverse(b, d, k) && IsMatrix(source, k, sz) && row < k
    requires received == MatMul(d, source, sz)
    ensures RowTimes(b[row], received, sz) == source[row]
  {
    forall j | 0 <= j < sz ensures RowTimes(b[row], received, sz)[j] == source[row][j] {
      var s := Column(source, sz, j);
      assert Column(received, sz, j) == MatVec(d, s);
      MatVecProduct(b, d, k, s);
      MatVecIdentity(k, s);
      assert MatVec(b, MatVec(d, s))[row] == s[row];
    }
  }

  /** Two equal rows make a matrix singular. */
  lemma EqualRowsHaveNoInverse(b: Matrix, d: Matrix, k: nat, i: nat, j: nat)
    requires IsInverse(b, d, k) && i < k && j < k && d[i] == d[j]
    ensures i == j
  {
    assert MatMul(d, b, k)[i] == MatMul(d, b, k)[j];
    assert Unit(k, i)[i] == Unit(k, j)[i];
  }
}
