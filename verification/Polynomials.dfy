/** Polynomials over GF(2^8), coefficients lowest first. */
module Polynomials {
  import opened GaloisField
  import opened FieldLaws
  import opened LinearAlgebra
  import opened Sequences

  type Poly = seq<gf>

  ghost function Eval(a: Poly, x: gf): gf {
    if a == [] then 0 else Add(a[0], Mul(x, Eval(a[1..], x)))
  }

  /** The quotient of a by x - p, by synthetic division. */
  ghost function Quotient(a: Poly, p: gf): (q: Poly)
    requires a != []
    ensures |q| == |a| - 1
    ensures forall i :: 0 <= i < |q| ==> q[i] == Eval(a[i + 1..], p)
  {
    seq(|a| - 1, i requires 0 <= i < |a| - 1 => Eval(a[i + 1..], p))
  }

  lemma QuotientTail(a: Poly, p: gf)
    requires |a| > 1
    ensures Quotient(a, p)[0] == Eval(a[1..], p)
    ensures Quotient(a, p)[1..] == Quotient(a[1..], p)
  {
    forall i | 0 <= i < |a| - 2 ensures Quotient(a, p)[1..][i] == Quotient(a[1..], p)[i] {
      assert a[1..][i + 1..] == a[i + 2..];
    }
  }

  /** (x + p)(e + x q) + (a + p e) == a + x (e + (x + p) q). */
  lemma DivisionStep(a: gf, x: gf, p: gf, e: gf, q: gf)
    ensures Add(Mul(Add(x, p), Add(e, Mul(x, q))), Add(a, Mul(p, e)))
         == Add(a, Mul(x, Add(Mul(Add(x, p), q), e)))
  {
    var s := Add(x, p);
    MulSumRight(s, e, Mul(x, q));
    MulSumLeft(x, p, e);
    MulAssoc(s, x, q); MulComm(s, x); MulAssoc(x, s, q);
    MulSumRight(x, Mul(s, q), e);
    var xe, pe, w := Mul(x, e), Mul(p, e), Mul(x, Mul(s, q));
    // ((xe + pe) + w) + (a + pe) == a + (w + xe)
    AddAssoc(xe, pe, w); AddComm(pe, w); AddAssoc(xe, w, pe);
    AddAssoc(Add(xe, w), pe, Add(a, pe));
    AddComm(a, pe); AddAssoc(pe, pe, a); AddSelf(pe); AddZero(a);
    AddComm(xe, w);
    AddComm(Add(w, xe), a);
  }

  /** a(x) == (x - p) q(x) + a(p). */
  lemma {:induction false} Division(a: Poly, p: gf, x: gf)
    requires a != []
    ensures Eval(a, x) == Add(Mul(Add(x, p), Eval(Quotient(a, p), x)), Eval(a, p))
    decreases |a|
  {
    var q := Quotient(a, p);
    if |a| == 1 {
      assert a[1..] == [] && q == [];
      MulZero(x); MulZero(p); MulZero(Add(x, p)); AddZero(a[0]); AddZero(0);
    } else {
      QuotientTail(a, p);
      Division(a[1..], p, x);
      DivisionStep(a[0], x, p, Eval(a[1..], p), Eval(q[1..], x));
    }
  }

  lemma {:induction false} EvalZero(a: Poly, x: gf)
    requires forall i :: 0 <= i < |a| ==> a[i] == 0
    ensures Eval(a, x) == 0
  {
    if a != [] {
      EvalZero(a[1..], x);
      MulZero(x);
      AddZero(0);
    }
  }

  /** Only the zero polynomial is divisible with quotient zero and remainder zero. */
  lemma QuotientZero(a: Poly, p: gf)
    requires a != [] && Eval(a, p) == 0
    requires forall i :: 0 <= i < |a| - 1 ==> Quotient(a, p)[i] == 0
    ensures forall i :: 0 <= i < |a| ==> a[i] == 0
  {
    forall i | 0 <= i < |a| ensures a[i] == 0 {
      assert Eval(a[i..], p) == 0 by {
        if i == 0 { assert a[0..] == a; } else { assert Quotient(a, p)[i - 1] == 0; }
      }
      if i < |a| - 1 { assert Quotient(a, p)[i] == 0; }
      assert a[i..][1..] == a[i + 1..];
      assert Eval(a[i + 1..], p) == 0;
      MulZero(p);
      AddZero(a[i]);
    }
  }

  /** A polynomial with as many roots as coefficients is zero. */
  lemma {:induction false} TooManyRoots(a: Poly, ps: seq<gf>)
    requires |a| == |ps| && Distinct(ps)
    requires forall i :: 0 <= i < |ps| ==> Eval(a, ps[i]) == 0
    ensures forall i :: 0 <= i < |a| ==> a[i] == 0
    decreases |a|
  {
    if a != [] {
      var n := |a| - 1;
      var p, rest := ps[n], ps[..n];
      var q := Quotient(a, p);
      forall i | 0 <= i < n ensures Eval(q, rest[i]) == 0 {
        var x := rest[i];
        Division(a, p, x);
        AddZero(Mul(Add(x, p), Eval(q, x)));
        if Add(x, p) == 0 { AddEqualsZero(x, p); }
        if Eval(q, x) != 0 { MulNonzero(Add(x, p), Eval(q, x)); }
      }
      TooManyRoots(q, rest);
      QuotientZero(a, p);
    }
  }

  // ----- Products of linear factors

  ghost function TimesRoot(a: Poly, q: gf): (r: Poly)
    ensures |r| == |a| + 1
  {
    Sum([0] + a, Scaled(q, a) + [0])
  }

  ghost function Product(ps: seq<gf>): (r: Poly)
    ensures |r| == |ps| + 1
    ensures r[|ps|] == 1
  {
    if ps == [] then [1]
    else
      var n := |ps| - 1;
      AddZero(1);
      TimesRoot(Product(ps[..n]), ps[n])
  }

  lemma {:induction false} EvalPadded(a: Poly, x: gf)
    ensures Eval(a + [0], x) == Eval(a, x)
  {
    if a == [] {
      assert (a + [0])[1..] == [];
      MulZero(x); AddZero(0);
    } else {
      assert (a + [0])[1..] == a[1..] + [0];
      EvalPadded(a[1..], x);
    }
  }

  lemma {:induction false} EvalSum(a: Poly, b: Poly, x: gf)
    requires |a| == |b|
    ensures Eval(Sum(a, b), x) == Add(Eval(a, x), Eval(b, x))
  {
    if a == [] {
      AddZero(0);
    } else {
      assert Sum(a, b)[1..] == Sum(a[1..], b[1..]);
      EvalSum(a[1..], b[1..], x);
      var u, v := Eval(a[1..], x), Eval(b[1..], x);
      MulSumRight(x, u, v);
      AddSwap(a[0], b[0], Mul(x, u), Mul(x, v));
    }
  }

  lemma {:induction false} EvalScaled(c: gf, a: Poly, x: gf)
    ensures Eval(Scaled(c, a), x) == Mul(c, Eval(a, x))
  {
    if a == [] {
      MulZero(c);
    } else {
      assert Scaled(c, a)[1..] == Scaled(c, a[1..]);
      EvalScaled(c, a[1..], x);
      var u := Eval(a[1..], x);
      MulSumRight(c, a[0], Mul(x, u));
      MulAssoc(x, c, u); MulComm(x, c); MulAssoc(c, x, u);
    }
  }

  lemma EvalTimesRoot(a: Poly, q: gf, x: gf)
    ensures Eval(TimesRoot(a, q), x) == Mul(Add(x, q), Eval(a, x))
  {
    EvalSum([0] + a, Scaled(q, a) + [0], x);
    assert ([0] + a)[1..] == a;
    AddZero(Mul(x, Eval(a, x)));
    EvalPadded(Scaled(q, a), x);
    EvalScaled(q, a, x);
    MulSumLeft(x, q, Eval(a, x));
  }

  lemma {:induction false} ProductRoot(ps: seq<gf>, i: nat)
    requires i < |ps|
    ensures Eval(Product(ps), ps[i]) == 0
  {
    var n := |ps| - 1;
    EvalTimesRoot(Product(ps[..n]), ps[n], ps[i]);
    if i == n {
      AddSelf(ps[n]);
      MulZero(Eval(Product(ps[..n]), ps[i]));
    } else {
      ProductRoot(ps[..n], i);
      MulZero(Add(ps[i], ps[n]));
    }
  }

  // ----- Evaluation as an inner product

  ghost function Powers(x: gf, k: nat): (v: Vector)
    ensures |v| == k
    ensures forall j :: 0 <= j < k ==> v[j] == Pow(x, j)
  {
    seq(k, j requires 0 <= j < k => Pow(x, j))
  }

  lemma {:induction false} DotPowersFrom(a: Poly, x: gf, n: nat)
    requires n <= |a|
    ensures DotTo(Powers(x, |a|), a, |a|)
         == Add(DotTo(Powers(x, |a|), a, n), Mul(Pow(x, n), Eval(a[n..], x)))
    decreases |a| - n
  {
    var v, d := Powers(x, |a|), DotTo(Powers(x, |a|), a, n);
    if n == |a| {
      MulZero(Pow(x, n));
      AddZero(d);
    } else {
      DotPowersFrom(a, x, n + 1);
      var e := Eval(a[n + 1..], x);
      assert a[n..][1..] == a[n + 1..];
      MulSumRight(Pow(x, n), a[n], Mul(x, e));
      MulAssoc(Pow(x, n), x, e);
      MulComm(Pow(x, n), x);
      AddAssoc(d, Mul(Pow(x, n), a[n]), Mul(Pow(x, n + 1), e));
    }
  }

  lemma DotPowers(a: Poly, x: gf)
    ensures Dot(Powers(x, |a|), a) == Eval(a, x)
  {
    DotPowersFrom(a, x, 0);
    assert a[0..] == a;
    MulOne(Eval(a, x));
    AddZero(Eval(a, x));
  }
}
