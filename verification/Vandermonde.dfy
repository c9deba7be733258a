/** Vandermonde matrices and the inverse that synthetic division gives. */
module Vandermonde {
  import opened GaloisField
  import opened FieldLaws
  import opened LinearAlgebra
  import opened GaussJordan
  import opened Polynomials
  import opened Sequences

  /** Row i holds the first k powers of point i. */
  ghost function VanMatrix(ps: seq<gf>, k: nat): (m: Matrix)
    ensures IsMatrix(m, |ps|, k)
    ensures forall i :: 0 <= i < |ps| ==> m[i] == Powers(ps[i], k)
  {
    seq(|ps|, i requires 0 <= i < |ps| => Powers(ps[i], k))
  }

  /** The column that is computed for the point x from the coefficients c. */
  ghost function VdmColumn(c: Poly, x: gf): (v: Vector)
    requires c != []
    ensures |v| == |c| - 1
  {
    var b := Quotient(c, x);
    Scaled(Inverse(Eval(b, x)), b)
  }

  /** The matrix with these columns. */
  ghost predicate HasVdmColumns(w: Matrix, c: Poly, ps: seq<gf>) {
    && |c| == |ps| + 1 && IsMatrix(w, |ps|, |ps|)
    && forall r :: 0 <= r < |ps| ==> Column(w, |ps|, r) == VdmColumn(c, ps[r])
  }

  // ----- A square Vandermonde matrix on distinct points is nonsingular

  lemma VanNonsingular(ps: seq<gf>)
    requires Distinct(ps)
    ensures Nonsingular(VanMatrix(ps, |ps|), |ps|)
  {
    var k := |ps|;
    var v := VanMatrix(ps, k);
    forall x: Vector | |x| == k && MatVec(v, x) == Zeros(k) ensures x == Zeros(k) {
      forall i | 0 <= i < k ensures Eval(x, ps[i]) == 0 {
        DotPowers(x, ps[i]);
        assert MatVec(v, x)[i] == 0;
      }
      TooManyRoots(x, ps);
    }
  }

  // ----- The exact coefficients give the inverse

  lemma QuotientAtPoints(ps: seq<gf>, r: nat, i: nat)
    requires Distinct(ps) && r < |ps| && i < |ps|
    ensures Eval(Quotient(Product(ps), ps[r]), ps[i]) != 0 <==> i == r
  {
    if i != r {
      QuotientElsewhere(ps, r, i);
    } else {
      var b := Quotient(Product(ps), ps[r]);
      if Eval(b, ps[r]) == 0 {
        forall j | 0 <= j < |ps| ensures Eval(b, ps[j]) == 0 {
          if j != r { QuotientElsewhere(ps, r, j); }
        }
        TooManyRoots(b, ps);
        LeadingCoefficient(Product(ps), ps[r]);
        assert false;
      }
    }
  }

  lemma LeadingCoefficient(c: Poly, x: gf)
    requires |c| > 1
    ensures Quotient(c, x)[|c| - 2] == c[|c| - 1]
  {
    var n := |c| - 2;
    var t := c[n + 1..];
    assert t == [c[n + 1]] && t[1..] == [];
    assert Eval(t, x) == Add(c[n + 1], Mul(x, 0));
    MulZero(x); AddZero(c[n + 1]);
    assert Quotient(c, x)[n] == Eval(t, x);
  }

  lemma QuotientElsewhere(ps: seq<gf>, r: nat, i: nat)
    requires Distinct(ps) && r < |ps| && i < |ps| && i != r
    ensures Eval(Quotient(Product(ps), ps[r]), ps[i]) == 0
  {
    var c, x, y := Product(ps), ps[r], ps[i];
    var e := Eval(Quotient(c, x), y);
    Division(c, x, y);
    ProductRoot(ps, r); ProductRoot(ps, i);
    AddZero(Mul(Add(y, x), e));
    if Add(y, x) == 0 { AddEqualsZero(y, x); }
    if e != 0 { MulNonzero(Add(y, x), e); }
  }

  lemma ExactColumn(ps: seq<gf>, r: nat)
    requires Distinct(ps) && r < |ps|
    ensures MatVec(VanMatrix(ps, |ps|), VdmColumn(Product(ps), ps[r])) == Unit(|ps|, r)
  {
    var k := |ps|;
    var v, w := VanMatrix(ps, k), VdmColumn(Product(ps), ps[r]);
    forall i | 0 <= i < k ensures MatVec(v, w)[i] == Unit(k, r)[i] {
      ExactEntry(ps, r, i);
    }
  }

  lemma ExactEntry(ps: seq<gf>, r: nat, i: nat)
    requires Distinct(ps) && r < |ps| && i < |ps|
    ensures Dot(Powers(ps[i], |ps|), VdmColumn(Product(ps), ps[r])) == if i == r then 1 else 0
  {
    hide Product, Quotient, Mul, Distinct, Eval, Dot, Powers, Inverse, Scaled;
    var b := Quotient(Product(ps), ps[r]);
    var t := Eval(b, ps[r]);
    DotPowers(VdmColumn(Product(ps), ps[r]), ps[i]);
    EvalScaled(Inverse(t), b, ps[i]);
    QuotientAtPoints(ps, r, i);
    if i == r { MulInverse(t); } else { MulZero(Inverse(t)); }
  }

  /** For square matrices a right inverse of a nonsingular matrix is the inverse. */
  lemma RightInverse(v: Matrix, w: Matrix, k: nat)
    requires IsMatrix(v, k, k) && IsMatrix(w, k, k) && Nonsingular(v, k)
    requires forall r :: 0 <= r < k ==> MatVec(v, Column(w, k, r)) == Unit(k, r)
    ensures IsInverse(w, v, k)
  {
    ColumnsGiveIdentity(v, w, k);
    forall x: Vector, y: Vector | |x| == k && |y| == k && MatVec(v, x) == y ensures MatVec(w, y) == x {
      LeftInverseOn(v, w, k, x);
    }
    ProductIsIdentity(w, v, k);
  }

  lemma ColumnsGiveIdentity(v: Matrix, w: Matrix, k: nat)
    requires IsMatrix(v, k, k) && IsMatrix(w, k, k)
    requires forall r :: 0 <= r < k ==> MatVec(v, Column(w, k, r)) == Unit(k, r)
    ensures MatMul(v, w, k) == Identity(k)
  {
    forall i | 0 <= i < k ensures RowTimes(v[i], w, k) == Unit(k, i) {
      forall r | 0 <= r < k ensures RowTimes(v[i], w, k)[r] == Unit(k, i)[r] {
        assert MatVec(v, Column(w, k, r))[i] == Unit(k, r)[i];
      }
    }
  }

  lemma LeftInverseOn(v: Matrix, w: Matrix, k: nat, x: Vector)
    requires IsMatrix(v, k, k) && IsMatrix(w, k, k) && Nonsingular(v, k) && |x| == k
    requires MatMul(v, w, k) == Identity(k)
    ensures MatVec(w, MatVec(v, x)) == x
  {
    var y := MatVec(v, x);
    MatVecProduct(v, w, k, y);
    MatVecIdentity(k, y);
    SameImage(v, k, MatVec(w, y), x);
  }

  lemma SameImage(v: Matrix, k: nat, x: Vector, y: Vector)
    requires IsMatrix(v, k, k) && Nonsingular(v, k) && |x| == k && |y| == k
    requires MatVec(v, x) == MatVec(v, y)
    ensures x == y
  {
    var d := Sum(x, y);
    MatVecSum(v, x, y);
    forall i | 0 <= i < k ensures MatVec(v, d)[i] == 0 { AddSelf(MatVec(v, x)[i]); }
    assert MatVec(v, d) == Zeros(k);
    forall i | 0 <= i < k ensures x[i] == y[i] {
      assert d[i] == 0;
      AddEqualsZero(x[i], y[i]);
    }
  }

  lemma ExactInverse(ps: seq<gf>, w: Matrix)
    requires Distinct(ps) && HasVdmColumns(w, Product(ps), ps)
    ensures IsInverse(w, VanMatrix(ps, |ps|), |ps|)
  {
    VanNonsingular(ps);
    forall r | 0 <= r < |ps| ensures MatVec(VanMatrix(ps, |ps|), Column(w, |ps|, r)) == Unit(|ps|, r) {
      ExactColumn(ps, r);
    }
    RightInverse(VanMatrix(ps, |ps|), w, |ps|);
  }

  lemma InverseColumn(v: Matrix, w: Matrix, k: nat, r: nat)
    requires IsInverse(w, v, k) && r < k
    ensures MatVec(v, Column(w, k, r)) == Unit(k, r)
  {
    forall i | 0 <= i < k ensures MatVec(v, Column(w, k, r))[i] == Unit(k, r)[i] {
      assert MatMul(v, w, k)[i][r] == Identity(k)[i][r];
    }
  }

  // ----- The coefficients that invert_vdm computes

  /** Like Product, but from the second factor on the constant term is left at zero. */
  ghost function CodeProduct(ps: seq<gf>): (r: Poly)
    requires ps != []
    ensures |r| == |ps| + 1
    ensures r[|ps|] == 1
  {
    var n := |ps| - 1;
    AddZero(1);
    if n == 0 then [ps[0], 1]
    else TimesRoot(CodeProduct(ps[..n]), ps[n])[0 := 0]
  }

  /** When the points let the dropped constant terms be zero anyway. */
  predicate DropsNothing(ps: seq<gf>) {
    |ps| <= 2 || ps[0] == 0 || ps[1] == 0
  }

  lemma TimesRootTerm(a: Poly, q: gf, m: nat)
    requires m <= |a| && a != []
    ensures m == 0 ==> TimesRoot(a, q)[m] == Mul(q, a[0])
    ensures 0 < m < |a| ==> TimesRoot(a, q)[m] == Add(a[m - 1], Mul(q, a[m]))
    ensures m == |a| ==> TimesRoot(a, q)[m] == a[m - 1]
  {
    AddZero(Mul(q, a[0]));
    AddZero(a[|a| - 1]);
  }

  lemma OneFactor(ps: seq<gf>)
    requires |ps| == 1
    ensures Product(ps) == [ps[0], 1]
  {
    assert Product([]) == [1];
    assert ps[..0] == [];
    MulOne(ps[0]); AddZero(ps[0]); AddZero(1);
  }

  lemma {:induction false} ZeroConstant(ps: seq<gf>, j: nat)
    requires j < |ps| && ps[j] == 0
    ensures Product(ps)[0] == 0
  {
    var n := |ps| - 1;
    var a := Product(ps[..n]);
    TimesRootTerm(a, ps[n], 0);
    if j < n { ZeroConstant(ps[..n], j); }
    MulZero(ps[n]); MulZero(a[0]);
  }

  lemma {:induction false} CodeProductExact(ps: seq<gf>)
    requires ps != []
    requires ps[0] == 0 || (|ps| > 1 && ps[1] == 0)
    ensures CodeProduct(ps) == Product(ps)
  {
    var n := |ps| - 1;
    if n == 0 {
      OneFactor(ps);
    } else {
      ZeroConstant(ps, if ps[0] == 0 then 0 else 1);
      if n == 1 {
        OneFactor(ps[..1]);
      } else {
        CodeProductExact(ps[..n]);
      }
    }
  }

  lemma QuotientIgnoresConstant(c: Poly, d: Poly, x: gf)
    requires c != [] && d != [] && c[1..] == d[1..]
    ensures VdmColumn(c, x) == VdmColumn(d, x)
  {
    assert |c| == |d|;
    forall i | 0 <= i < |c| - 1 ensures Quotient(c, x)[i] == Quotient(d, x)[i] {
      assert c[i + 1..] == c[1..][i..] && d[i + 1..] == d[1..][i..];
    }
    assert Quotient(c, x) == Quotient(d, x);
  }

  lemma CodeProductTail(ps: seq<gf>)
    requires ps != [] && DropsNothing(ps)
    ensures CodeProduct(ps)[1..] == Product(ps)[1..]
  {
    if |ps| == 1 {
      OneFactor(ps);
    } else if |ps| == 2 {
      OneFactor(ps[..1]);
      assert ps[..1][0] == ps[0];
    } else {
      CodeProductExact(ps);
    }
  }

  lemma ExactWhenNothingDropped(ps: seq<gf>, w: Matrix)
    requires Distinct(ps) && ps != [] && DropsNothing(ps)
    requires HasVdmColumns(w, CodeProduct(ps), ps)
    ensures IsInverse(w, VanMatrix(ps, |ps|), |ps|)
  {
    CodeProductTail(ps);
    forall r | 0 <= r < |ps| ensures Column(w, |ps|, r) == VdmColumn(Product(ps), ps[r]) {
      QuotientIgnoresConstant(CodeProduct(ps), Product(ps), ps[r]);
    }
    ExactInverse(ps, w);
  }

  /** The coefficient next to the two highest misses the product of the first two points. */
  lemma {:induction false} MissingProduct(ps: seq<gf>)
    requires |ps| >= 2
    ensures var n, c, d := |ps|, CodeProduct(ps), Product(ps);
      d[n - 1] == c[n - 1] && d[n - 2] == Add(c[n - 2], Mul(ps[0], ps[1]))
  {
    var n := |ps|;
    var qs, q := ps[..n - 1], ps[n - 1];
    var a, b := Product(qs), CodeProduct(qs);
    TimesRootTerm(a, q, n - 1); TimesRootTerm(b, q, n - 1);
    TimesRootTerm(a, q, n - 2); TimesRootTerm(b, q, n - 2);
    if n == 2 {
      OneFactor(qs);
      MulComm(ps[0], ps[1]);
      AddZero(Mul(ps[0], ps[1]));
    } else {
      MissingProduct(qs);
      var m, y, z := Mul(ps[0], ps[1]), b[n - 3], Mul(q, b[n - 2]);
      AddAssoc(y, m, z); AddComm(m, z); AddAssoc(y, z, m);
    }
  }

  lemma QuotientThirdTerm(c: Poly, d: Poly, x: gf)
    requires |c| == |d| >= 4
    requires var n := |c| - 1; c[n] == d[n] && c[n - 1] == d[n - 1]
    requires var n := |c| - 1; Quotient(c, x)[n - 3] == Quotient(d, x)[n - 3]
    ensures var n := |c| - 1; c[n - 2] == d[n - 2]
  {
    var n := |c| - 1;
    assert c[n - 2..][1..] == c[n - 1..] == d[n - 1..] == d[n - 2..][1..];
    var e := Mul(x, Eval(c[n - 1..], x));
    assert Add(c[n - 2], e) == Add(d[n - 2], e);
    AddCancel(c[n - 2], e);
    AddCancel(d[n - 2], e);
  }

  lemma MulCancel(s: gf, x: gf, y: gf)
    requires s != 0 && Mul(s, x) == Mul(s, y)
    ensures x == y
  {
    MulInverse(s);
    MulAssoc(Inverse(s), s, x); MulAssoc(Inverse(s), s, y);
    MulOne(x); MulOne(y);
  }

  lemma ColumnsDiffer(ps: seq<gf>)
    requires Distinct(ps) && |ps| >= 3 && ps[0] != 0 && ps[1] != 0
    ensures VdmColumn(CodeProduct(ps), ps[0]) != VdmColumn(Product(ps), ps[0])
  {
    hide Product, CodeProduct, Quotient;
    var k, x, c, d := |ps|, ps[0], CodeProduct(ps), Product(ps);
    var bc, bd := Quotient(c, x), Quotient(d, x);
    var sc, sd := Inverse(Eval(bc, x)), Inverse(Eval(bd, x));
    if VdmColumn(c, x) == VdmColumn(d, x) {
      LeadingCoefficient(c, x); LeadingCoefficient(d, x);
      assert Scaled(sc, bc)[k - 1] == Scaled(sd, bd)[k - 1];
      MulOne(sc); MulOne(sd);
      assert sc == sd;
      QuotientAtPoints(ps, 0, 0);
      InverseNonzero(Eval(bd, x));
      assert Scaled(sc, bc)[k - 3] == Scaled(sd, bd)[k - 3];
      MulCancel(sc, bc[k - 3], bd[k - 3]);
      MissingProduct(ps);
      QuotientThirdTerm(c, d, x);
      var m := Mul(ps[0], ps[1]);
      MulNonzero(ps[0], ps[1]);
      AddComm(c[k - 2], m); AddCancel(m, c[k - 2]); AddSelf(c[k - 2]);
      assert false;
    }
  }

  lemma WrongWhenDropped(ps: seq<gf>, w: Matrix)
    requires Distinct(ps) && |ps| >= 3 && ps[0] != 0 && ps[1] != 0
    requires HasVdmColumns(w, CodeProduct(ps), ps)
    ensures !IsInverse(w, VanMatrix(ps, |ps|), |ps|)
  {
    var k, v := |ps|, VanMatrix(ps, |ps|);
    if IsInverse(w, v, k) {
      InverseColumn(v, w, k, 0);
      ExactColumn(ps, 0);
      VanNonsingular(ps);
      SameImage(v, k, VdmColumn(CodeProduct(ps), ps[0]), VdmColumn(Product(ps), ps[0]));
      ColumnsDiffer(ps);
    }
  }

  /** invert_vdm is exact if and only if no constant term that it drops matters. */
  lemma InverseIffNothingDropped(ps: seq<gf>, w: Matrix)
    requires Distinct(ps) && ps != [] && HasVdmColumns(w, CodeProduct(ps), ps)
    ensures IsInverse(w, VanMatrix(ps, |ps|), |ps|) <==> DropsNothing(ps)
  {
    if DropsNothing(ps) {
      ExactWhenNothingDropped(ps, w);
    } else {
      WrongWhenDropped(ps, w);
    }
  }
}
