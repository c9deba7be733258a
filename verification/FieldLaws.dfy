/** Multiplication in GF(2^8) and the laws of the field.

    The product is defined by logarithms, as the source's tables do it.
    `MulIsSchoolbook` ties it to shift-and-add multiplication of polynomials. */
module FieldLaws {
  import opened GaloisField
  import opened AlphaOrder

  ghost function Log(a: gf): (i: nat)
    requires a != 0
    ensures i < 255 && Exp(i) == a
  {
    ExpSurjective(a);
    var i: nat :| i < 255 && Exp(i) == a;
    i
  }

  ghost function Mul(a: gf, b: gf): gf {
    if a == 0 then 0 else Shifted(b, Log(a))
  }

  ghost function Inverse(a: gf): gf {
    if a == 0 then 0 else Exp(255 - Log(a))
  }

  ghost function Pow(a: gf, n: nat): gf {
    if n == 0 then 1 else Mul(a, Pow(a, n - 1))
  }

  /** Equal powers of alpha shift every element alike. */
  lemma ShiftedByEqualPowers(b: gf, m: nat, n: nat)
    requires Exp(m) == Exp(n)
    ensures Shifted(b, m) == Shifted(b, n)
  {
    hide TimesAlpha;
    if b == 0 {
      ShiftedZero(m); ShiftedZero(n);
    } else {
      var j := Log(b);
      ShiftedShifted(1, j, m); ShiftedShifted(1, m, j);
      ShiftedShifted(1, j, n); ShiftedShifted(1, n, j);
    }
  }

  lemma MulExp(n: nat, b: gf)
    ensures Mul(Exp(n), b) == Shifted(b, n)
  {
    hide TimesAlpha;
    ShiftedNonzero(1, n);
    ShiftedByEqualPowers(b, Log(Exp(n)), n);
  }

  lemma MulExpExp(m: nat, n: nat)
    ensures Mul(Exp(m), Exp(n)) == Exp(m + n)
  {
    hide TimesAlpha, Mul;
    MulExp(m, Exp(n));
    ShiftedShifted(1, n, m);
  }

  lemma MulZero(a: gf)
    ensures Mul(a, 0) == 0 && Mul(0, a) == 0
  {
    hide Shifted;
    if a != 0 { ShiftedZero(Log(a)); }
  }

  lemma MulOne(a: gf)
    ensures Mul(1, a) == a && Mul(a, 1) == a
  {
    hide TimesAlpha;
    MulExp(0, a);
    if a != 0 { assert Exp(Log(a)) == a; }
  }

  lemma MulComm(a: gf, b: gf)
    ensures Mul(a, b) == Mul(b, a)
  {
    hide Shifted, Mul;
    if a == 0 || b == 0 {
      MulZero(a); MulZero(b);
    } else {
      MulExpExp(Log(a), Log(b));
      MulExpExp(Log(b), Log(a));
    }
  }

  lemma MulAssoc(a: gf, b: gf, c: gf)
    ensures Mul(Mul(a, b), c) == Mul(a, Mul(b, c))
  {
    hide Shifted, Mul;
    if a == 0 || b == 0 {
      MulZero(a); MulZero(b); MulZero(c); MulZero(Mul(b, c));
    } else {
      var i, j := Log(a), Log(b);
      MulExpExp(i, j);
      MulExp(i + j, c);
      MulExp(j, c);
      MulExp(i, Mul(b, c));
      ShiftedShifted(c, j, i);
    }
  }

  lemma MulSumRight(a: gf, b: gf, c: gf)
    ensures Mul(a, Add(b, c)) == Add(Mul(a, b), Mul(a, c))
  {
    hide Shifted, Add;
    if a == 0 {
      AddZero(0);
    } else {
      ShiftedLinear(b, c, Log(a));
    }
  }

  lemma MulSumLeft(a: gf, b: gf, c: gf)
    ensures Mul(Add(a, b), c) == Add(Mul(a, c), Mul(b, c))
  {
    hide Mul, Add;
    MulComm(Add(a, b), c);
    MulSumRight(c, a, b);
    MulComm(a, c);
    MulComm(b, c);
  }

  lemma MulInverse(a: gf)
    requires a != 0
    ensures Mul(a, Inverse(a)) == 1 && Mul(Inverse(a), a) == 1
  {
    hide Shifted, Mul;
    var i := Log(a);
    MulExpExp(i, 255 - i);
    AlphaHasOrder255();
    MulComm(a, Inverse(a));
  }

  lemma MulNonzero(a: gf, b: gf)
    requires a != 0 && b != 0
    ensures Mul(a, b) != 0
  {
    ShiftedNonzero(b, Log(a));
  }

  lemma InverseNonzero(a: gf)
    requires a != 0
    ensures Inverse(a) != 0
  {
    hide Shifted;
    ShiftedNonzero(1, 255 - Log(a));
  }

  lemma {:induction false} PowExp(m: nat, n: nat)
    ensures Pow(Exp(m), n) == Exp(m * n)
  {
    hide Mul, Shifted;
    if n == 0 {
      assert Exp(0) == 1 by { assert Shifted(1, 0) == 1 by { ExpZero(); } }
    } else {
      PowExp(m, n - 1);
      MulExpExp(m, m * (n - 1));
      assert m + m * (n - 1) == m * n;
    }
  }

  lemma ExpZero()
    ensures Exp(0) == 1
  {
  }

  // ----- The product is the product of polynomials over GF(2)

  /** Shift-and-add: for every bit of a, add b shifted to that bit's place. */
  ghost function Schoolbook(a: nat, b: gf): gf {
    if a == 0 then 0
    else Add(if a % 2 == 1 then b else 0, Schoolbook(a / 2, TimesAlpha(b)))
  }

  lemma MulTimesAlpha(a: gf, b: gf)
    ensures Mul(TimesAlpha(a), b) == Mul(a, TimesAlpha(b))
  {
    hide TimesAlpha;
    if a == 0 {
      assert TimesAlpha(0) == 0 by { ShiftedZero(1); assert Shifted(0, 0) == 0; }
    } else {
      var i := Log(a);
      assert TimesAlpha(a) == Exp(i + 1);
      MulExp(i + 1, b);
      ShiftedShifted(b, 1, i);
      assert Shifted(b, 1) == TimesAlpha(Shifted(b, 0));
    }
  }

  lemma {:induction false} MulIsSchoolbook(a: gf, b: gf)
    ensures Mul(a, b) == Schoolbook(a, b)
    decreases a
  {
    if a != 0 {
      var h, p := a / 2, a % 2;
      MulIsSchoolbook(h, TimesAlpha(b));
      assert TimesAlpha(h) == 2 * h;
      MulTimesAlpha(h, b);
      assert Add(p, 2 * h) == a by {
        XorStep(p, 2 * h, 0, h, p, 0);
        XorZero(h); XorComm(h, 0);
      }
      MulSumLeft(p, 2 * h, b);
      MulOne(b);
      MulZero(b);
    }
  }
}
