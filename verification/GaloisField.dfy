/** The arithmetic of GF(2^8) that the erasure code computes in.

    An element is a byte.  Addition is exclusive or.  Multiplication by alpha is
    a shift followed by a reduction with 1 + x^2 + x^3 + x^4 + x^8, and every
    nonzero element is a power of alpha, so a product is an addition of
    logarithms. */
module GaloisField {

  type gf = x: int | 0 <= x < 256

  // ----- Exclusive or of natural numbers

  function Xor(a: nat, b: nat): nat {
    if a == 0 && b == 0 then 0
    else 2 * Xor(a / 2, b / 2) + if a % 2 == b % 2 then 0 else 1
  }

  lemma XorStep(x: nat, y: nat, a: nat, b: nat, p: nat, q: nat)
    requires p < 2 && q < 2
    requires x == 2 * a + p && y == 2 * b + q
    ensures Xor(x, y) == 2 * Xor(a, b) + if p == q then 0 else 1
  {
    if x != 0 || y != 0 {
      assert x / 2 == a && y / 2 == b;
    }
  }

  lemma {:induction false} XorComm(a: nat, b: nat)
    ensures Xor(a, b) == Xor(b, a)
  {
    if a != 0 || b != 0 { XorComm(a / 2, b / 2); }
  }

  lemma {:induction false} XorZero(a: nat)
    ensures Xor(a, 0) == a
  {
    if a != 0 { XorZero(a / 2); }
  }

  lemma {:induction false} XorSelf(a: nat)
    ensures Xor(a, a) == 0
  {
    if a != 0 { XorSelf(a / 2); }
  }

  lemma {:induction false} XorAssoc(a: nat, b: nat, c: nat)
    ensures Xor(Xor(a, b), c) == Xor(a, Xor(b, c))
  {
    if a != 0 || b != 0 || c != 0 {
      XorAssoc(a / 2, b / 2, c / 2);
      hide Xor;
      var a', b', c', p, q, r := a / 2, b / 2, c / 2, a % 2, b % 2, c % 2;
      XorStep(a, b, a', b', p, q);
      XorStep(b, c, b', c', q, r);
      XorStep(Xor(a, b), c, Xor(a', b'), c', if p == q then 0 else 1, r);
      XorStep(a, Xor(b, c), a', Xor(b', c'), p, if q == r then 0 else 1);
    }
  }

  function Pow2(n: nat): (p: nat)
    ensures p >= 1
  {
    if n == 0 then 1 else 2 * Pow2(n - 1)
  }

  lemma {:induction false} XorBound(a: nat, b: nat, n: nat)
    requires a < Pow2(n) && b < Pow2(n)
    ensures Xor(a, b) < Pow2(n)
    decreases n
  {
    if n > 0 { XorBound(a / 2, b / 2, n - 1); }
  }

  lemma XorTopStep(a: nat, b: nat, h: nat, a': nat, b': nat, p: nat, q: nat)
    requires p < 2 && q < 2 && a == 2 * a' + p && b == 2 * b' + q
    requires Xor(h + a', b') == h + Xor(a', b')
    requires Xor(h + a', h + b') == Xor(a', b')
    ensures Xor(2 * h + a, b) == 2 * h + Xor(a, b)
    ensures Xor(2 * h + a, 2 * h + b) == Xor(a, b)
  {
    hide Xor;
    XorStep(a, b, a', b', p, q);
    XorStep(2 * h + a, b, h + a', b', p, q);
    XorStep(2 * h + a, 2 * h + b, h + a', h + b', p, q);
  }

  /** A bit above both operands is kept by exclusive or, and cancels against itself. */
  lemma {:induction false} XorTop(a: nat, b: nat, n: nat)
    requires a < Pow2(n) && b < Pow2(n)
    ensures Xor(Pow2(n) + a, b) == Pow2(n) + Xor(a, b)
    ensures Xor(Pow2(n) + a, Pow2(n) + b) == Xor(a, b)
    decreases n
  {
    hide Xor;
    if n == 0 {
      XorZero(1); XorSelf(1); XorSelf(0);
    } else {
      XorTop(a / 2, b / 2, n - 1);
      XorTopStep(a, b, Pow2(n - 1), a / 2, b / 2, a % 2, b % 2);
    }
  }

  // ----- Addition

  function Add(a: gf, b: gf): gf {
    assert Pow2(8) == 256;
    XorBound(a, b, 8);
    Xor(a, b)
  }

  lemma AddComm(a: gf, b: gf)
    ensures Add(a, b) == Add(b, a)
  {
    XorComm(a, b);
  }

  lemma AddAssoc(a: gf, b: gf, c: gf)
    ensures Add(Add(a, b), c) == Add(a, Add(b, c))
  {
    XorAssoc(a, b, c);
  }

  lemma AddZero(a: gf)
    ensures Add(a, 0) == a && Add(0, a) == a
  {
    XorZero(a);
    XorComm(a, 0);
  }

  lemma AddSelf(a: gf)
    ensures Add(a, a) == 0
  {
    XorSelf(a);
  }

  lemma AddCancel(a: gf, b: gf)
    ensures Add(Add(a, b), b) == a
  {
    AddAssoc(a, b, b);
    AddSelf(b);
    AddZero(a);
  }

  lemma AddEqualsZero(a: gf, b: gf)
    requires Add(a, b) == 0
    ensures a == b
  {
    AddCancel(a, b);
    AddZero(b);
  }

  lemma AddSwap(a: gf, b: gf, c: gf, d: gf)
    ensures Add(Add(a, b), Add(c, d)) == Add(Add(a, c), Add(b, d))
  {
    AddAssoc(a, b, Add(c, d));
    AddAssoc(b, c, d);
    AddComm(b, c);
    AddAssoc(c, b, d);
    AddAssoc(a, c, Add(b, d));
  }

  // ----- Multiplication by alpha

  function TimesAlpha(b: gf): gf {
    if b >= 128 then Add(29, 2 * (b - 128)) else 2 * b
  }

  /** The bits that reduction takes away: the whole polynomial, if the shift overflowed. */
  function Overflow(b: gf): nat {
    if b >= 128 then 285 else 0
  }

  lemma TimesAlphaAsXor(b: gf)
    ensures TimesAlpha(b) == Xor(2 * b, Overflow(b))
  {
    hide Xor;
    if b >= 128 {
      assert Pow2(8) == 256;
      XorTop(2 * (b - 128), 29, 8);
      XorComm(29, 2 * (b - 128));
    } else {
      XorZero(2 * b);
    }
  }

  lemma OverflowLinear(a: gf, b: gf)
    ensures Overflow(Add(a, b)) == Xor(Overflow(a), Overflow(b))
  {
    hide Xor;
    XorSelf(285); XorSelf(0); XorZero(285); XorComm(285, 0);
    assert Pow2(7) == 128;
    var a', b' := if a >= 128 then a - 128 else a, if b >= 128 then b - 128 else b;
    XorBound(a', b', 7);
    XorTop(a', b', 7);
    XorTop(b', a', 7);
    XorComm(a, b);
    XorComm(a', b');
  }

  lemma TimesAlphaLinear(a: gf, b: gf)
    ensures TimesAlpha(Add(a, b)) == Add(TimesAlpha(a), TimesAlpha(b))
  {
    hide Xor;
    var u, v, x, y := 2 * a, 2 * b, Overflow(a), Overflow(b);
    TimesAlphaAsXor(a); TimesAlphaAsXor(b); TimesAlphaAsXor(Add(a, b));
    OverflowLinear(a, b);
    XorStep(u, v, a, b, 0, 0);
    // Xor(Xor(u, v), Xor(x, y)) == Xor(Xor(u, x), Xor(v, y))
    XorAssoc(u, v, Xor(x, y));
    XorAssoc(v, x, y);
    XorComm(v, x);
    XorAssoc(x, v, y);
    XorAssoc(u, x, Xor(v, y));
  }

  lemma TimesAlphaInjective(a: gf, b: gf)
    requires TimesAlpha(a) == TimesAlpha(b)
    ensures a == b
  {
    hide Xor;
    TimesAlphaLinear(a, b);
    AddSelf(TimesAlpha(a));
    var c := Add(a, b);
    TimesAlphaKernel(c);
    AddEqualsZero(a, b);
  }

  lemma TimesAlphaKernel(c: gf)
    requires TimesAlpha(c) == 0
    ensures c == 0
  {
    hide Xor;
    if c >= 128 {
      AddEqualsZero(29, 2 * (c - 128));
    }
  }

  // ----- Powers of alpha

  /** b multiplied n times by alpha. */
  function Shifted(b: gf, n: nat): gf {
    if n == 0 then b else TimesAlpha(Shifted(b, n - 1))
  }

  /** alpha to the n-th power. */
  function Exp(n: nat): gf {
    Shifted(1, n)
  }

  lemma {:induction false} ShiftedLinear(a: gf, b: gf, n: nat)
    ensures Shifted(Add(a, b), n) == Add(Shifted(a, n), Shifted(b, n))
  {
    if n > 0 {
      hide Add, TimesAlpha;
      ShiftedLinear(a, b, n - 1);
      TimesAlphaLinear(Shifted(a, n - 1), Shifted(b, n - 1));
    }
  }

  lemma {:induction false} ShiftedShifted(b: gf, m: nat, n: nat)
    ensures Shifted(Shifted(b, m), n) == Shifted(b, m + n)
  {
    hide TimesAlpha;
    if n > 0 { ShiftedShifted(b, m, n - 1); }
  }

  lemma {:induction false} ShiftedInjective(a: gf, b: gf, n: nat)
    requires Shifted(a, n) == Shifted(b, n)
    ensures a == b
  {
    hide TimesAlpha;
    if n > 0 {
      TimesAlphaInjective(Shifted(a, n - 1), Shifted(b, n - 1));
      ShiftedInjective(a, b, n - 1);
    }
  }

  lemma {:induction false} ShiftedZero(n: nat)
    ensures Shifted(0, n) == 0
  {
    hide Add;
    if n > 0 { ShiftedZero(n - 1); }
  }

  lemma ShiftedNonzero(b: gf, n: nat)
    requires b != 0
    ensures Shifted(b, n) != 0
  {
    hide TimesAlpha;
    ShiftedZero(n);
    if Shifted(b, n) == 0 { ShiftedInjective(b, 0, n); }
  }
}
