/** The order of alpha: its first 255 powers are exactly the 255 nonzero elements.

    The powers are followed one by one on bytes split into bits. */
module AlphaOrder {
  import opened GaloisField

  datatype Byte = Byte(b7: bool, b6: bool, b5: bool, b4: bool, b3: bool, b2: bool, b1: bool, b0: bool)

  function Bit(b: bool): (i: nat)
    ensures i < 2
  {
    if b then 1 else 0
  }

  function Value(t: Byte): gf {
    128 * Bit(t.b7) + 64 * Bit(t.b6) + 32 * Bit(t.b5) + 16 * Bit(t.b4)
    + 8 * Bit(t.b3) + 4 * Bit(t.b2) + 2 * Bit(t.b1) + Bit(t.b0)
  }

  function StepBits(t: Byte): Byte {
    Byte(t.b6, t.b5, t.b4, t.b3 != t.b7, t.b2 != t.b7, t.b1 != t.b7, t.b0, t.b7)
  }

  lemma Xor29(a: nat, b4: nat, b3: nat, b2: nat, b1: nat)
    requires b1 < 2 && b2 < 2 && b3 < 2 && b4 < 2
    ensures Xor(29, 32 * a + 16 * b4 + 8 * b3 + 4 * b2 + 2 * b1)
         == 32 * a + 16 * (1 - b4) + 8 * (1 - b3) + 4 * (1 - b2) + 2 * b1 + 1
  {
    hide Xor;
    var m4 := 2 * a + b4;
    var m3 := 2 * m4 + b3;
    var m2 := 2 * m3 + b2;
    var m1 := 2 * m2 + b1;
    XorZero(a); XorComm(a, 0);
    XorStep(1, m4, 0, a, 1, b4);
    XorStep(3, m3, 1, m4, 1, b3);
    XorStep(7, m2, 3, m3, 1, b2);
    XorStep(14, m1, 7, m2, 0, b1);
    XorStep(29, 2 * m1, 14, m1, 1, 0);
  }

  lemma TimesAlphaReduced(a: nat, b4: nat, b3: nat, b2: nat, b1: nat)
    requires a < 8 && b1 < 2 && b2 < 2 && b3 < 2 && b4 < 2
    ensures TimesAlpha(128 + 16 * a + 8 * b4 + 4 * b3 + 2 * b2 + b1)
         == 32 * a + 16 * (1 - b4) + 8 * (1 - b3) + 4 * (1 - b2) + 2 * b1 + 1
  {
    hide Xor;
    Xor29(a, b4, b3, b2, b1);
    var b := 128 + 16 * a + 8 * b4 + 4 * b3 + 2 * b2 + b1;
    assert TimesAlpha(b) == Xor(29, 2 * (b - 128));
  }

  lemma StepBitValues(t: Byte)
    ensures var n := StepBits(t);
      && Bit(n.b7) == Bit(t.b6) && Bit(n.b6) == Bit(t.b5) && Bit(n.b5) == Bit(t.b4)
      && Bit(n.b4) == (if t.b7 then 1 - Bit(t.b3) else Bit(t.b3))
      && Bit(n.b3) == (if t.b7 then 1 - Bit(t.b2) else Bit(t.b2))
      && Bit(n.b2) == (if t.b7 then 1 - Bit(t.b1) else Bit(t.b1))
      && Bit(n.b1) == Bit(t.b0) && Bit(n.b0) == Bit(t.b7) == if t.b7 then 1 else 0
  {
  }

  lemma TimesAlphaBits(t: Byte)
    ensures TimesAlpha(Value(t)) == Value(StepBits(t))
  {
    hide Xor, Bit, StepBits;
    StepBitValues(t);
    if t.b7 {
      TimesAlphaReduced(4 * Bit(t.b6) + 2 * Bit(t.b5) + Bit(t.b4), Bit(t.b3), Bit(t.b2), Bit(t.b1), Bit(t.b0));
    }
  }

  /** n steps from b end in e, and none of the n elements before e is 1. */
  predicate Orbit(b: Byte, n: nat, e: Byte)
    decreases n
  {
    if n == 0 then b == e
    else b != Byte(false, false, false, false, false, false, false, true) && Orbit(StepBits(b), n - 1, e)
  }

  lemma {:induction false} OrbitJoin(b: Byte, m: nat, c: Byte, n: nat, e: Byte)
    requires Orbit(b, m, c) && Orbit(c, n, e)
    ensures Orbit(b, m + n, e)
    decreases m
  {
    if m > 0 { OrbitJoin(StepBits(b), m - 1, c, n, e); }
  }

  const ONE := Byte(false, false, false, false, false, false, false, true)

  const P1 := Byte(false, false, false, false, false, false, true, false)
  const P9 := Byte(false, false, true, true, true, false, true, false)
  const P17 := Byte(true, false, false, true, true, false, false, false)
  const P25 := Byte(false, false, false, false, false, false, true, true)
  const P33 := Byte(false, false, true, false, false, true, true, true)
  const P41 := Byte(true, true, false, true, false, true, false, false)
  const P49 := Byte(true, false, false, false, true, true, false, false)
  const P57 := Byte(true, false, true, true, true, false, true, false)
  const P65 := Byte(true, false, true, true, true, true, true, false)
  const P73 := Byte(true, true, false, false, true, false, true, false)
  const P81 := Byte(true, true, true, false, false, true, true, true)
  const P89 := Byte(true, true, true, false, false, false, false, true)
  const P97 := Byte(true, false, true, false, true, true, true, true)
  const P105 := Byte(false, false, false, true, true, false, true, false)
  const P113 := Byte(false, false, false, true, true, true, true, true)
  const P121 := Byte(false, true, true, true, false, true, true, false)
  const P129 := Byte(false, false, false, true, false, true, true, true)
  const P137 := Byte(true, false, false, true, true, true, true, false)
  const P145 := Byte(false, true, false, false, true, true, false, true)
  const P153 := Byte(true, false, false, true, false, false, true, false)
  const P161 := Byte(true, true, false, true, false, false, false, true)
  const P169 := Byte(true, true, true, false, false, true, false, true)
  const P177 := Byte(true, true, false, true, true, false, true, true)
  const P185 := Byte(false, false, true, true, false, true, true, true)
  const P193 := Byte(false, false, false, true, true, false, false, true)
  const P201 := Byte(false, false, true, true, true, false, false, false)
  const P209 := Byte(true, false, true, false, false, false, true, false)
  const P217 := Byte(true, false, false, true, true, false, true, true)
  const P225 := Byte(false, false, true, false, false, true, false, false)
  const P233 := Byte(true, true, true, true, false, false, true, true)
  const P241 := Byte(false, true, false, true, true, false, false, false)
  const P249 := Byte(false, false, true, true, false, true, true, false)

  lemma Powers1()
    ensures Orbit(P1, 32, P33)
  {
    assert Orbit(P1, 8, P9);
    assert Orbit(P9, 8, P17);
    assert Orbit(P17, 8, P25);
    assert Orbit(P25, 8, P33);
    OrbitJoin(P1, 8, P9, 8, P17);
    OrbitJoin(P1, 16, P17, 8, P25);
    OrbitJoin(P1, 24, P25, 8, P33);
  }

  lemma Powers33()
    ensures Orbit(P33, 32, P65)
  {
    assert Orbit(P33, 8, P41);
    assert Orbit(P41, 8, P49);
    assert Orbit(P49, 8, P57);
    assert Orbit(P57, 8, P65);
    OrbitJoin(P33, 8, P41, 8, P49);
    OrbitJoin(P33, 16, P49, 8, P57);
    OrbitJoin(P33, 24, P57, 8, P65);
  }

  lemma Powers65()
    ensures Orbit(P65, 32, P97)
  {
    assert Orbit(P65, 8, P73);
    assert Orbit(P73, 8, P81);
    assert Orbit(P81, 8, P89);
    assert Orbit(P89, 8, P97);
    OrbitJoin(P65, 8, P73, 8, P81);
    OrbitJoin(P65, 16, P81, 8, P89);
    OrbitJoin(P65, 24, P89, 8, P97);
  }

  lemma Powers97()
    ensures Orbit(P97, 32, P129)
  {
    assert Orbit(P97, 8, P105);
    assert Orbit(P105, 8, P113);
    assert Orbit(P113, 8, P121);
    assert Orbit(P121, 8, P129);
    OrbitJoin(P97, 8, P105, 8, P113);
    OrbitJoin(P97, 16, P113, 8, P121);
    OrbitJoin(P97, 24, P121, 8, P129);
  }

  lemma Powers129()
    ensures Orbit(P129, 32, P161)
  {
    assert Orbit(P129, 8, P137);
    assert Orbit(P137, 8, P145);
    assert Orbit(P145, 8, P153);
    assert Orbit(P153, 8, P161);
    OrbitJoin(P129, 8, P137, 8, P145);
    OrbitJoin(P129, 16, P145, 8, P153);
    OrbitJoin(P129, 24, P153, 8, P161);
  }

  lemma Powers161()
    ensures Orbit(P161, 32, P193)
  {
    assert Orbit(P161, 8, P169);
    assert Orbit(P169, 8, P177);
    assert Orbit(P177, 8, P185);
    assert Orbit(P185, 8, P193);
    OrbitJoin(P161, 8, P169, 8, P177);
    OrbitJoin(P161, 16, P177, 8, P185);
    OrbitJoin(P161, 24, P185, 8, P193);
  }

  lemma Powers193()
    ensures Orbit(P193, 32, P225)
  {
    assert Orbit(P193, 8, P201);
    assert Orbit(P201, 8, P209);
    assert Orbit(P209, 8, P217);
    assert Orbit(P217, 8, P225);
    OrbitJoin(P193, 8, P201, 8, P209);
    OrbitJoin(P193, 16, P209, 8, P217);
    OrbitJoin(P193, 24, P217, 8, P225);
  }

  lemma Powers225()
    ensures Orbit(P225, 30, ONE)
  {
    assert Orbit(P225, 8, P233);
    assert Orbit(P233, 8, P241);
    assert Orbit(P241, 8, P249);
    assert Orbit(P249, 6, ONE);
    OrbitJoin(P225, 8, P233, 8, P241);
    OrbitJoin(P225, 16, P241, 8, P249);
    OrbitJoin(P225, 24, P249, 6, ONE);
  }

  lemma FullOrbit()
    ensures Orbit(P1, 254, ONE)
  {
    hide Orbit;
    Powers1(); Powers33(); Powers65(); Powers97(); Powers129(); Powers161(); Powers193(); Powers225();
    OrbitJoin(P1, 32, P33, 32, P65);
    OrbitJoin(P1, 64, P65, 32, P97);
    OrbitJoin(P1, 96, P97, 32, P129);
    OrbitJoin(P1, 128, P129, 32, P161);
    OrbitJoin(P1, 160, P161, 32, P193);
    OrbitJoin(P1, 192, P193, 32, P225);
    OrbitJoin(P1, 224, P225, 30, ONE);
  }

  lemma {:induction false} OrbitEnds(b: Byte, n: nat, e: Byte)
    requires Orbit(b, n, e)
    ensures Shifted(Value(b), n) == Value(e)
    decreases n
  {
    hide TimesAlpha, Value, StepBits;
    if n > 0 {
      OrbitEnds(StepBits(b), n - 1, e);
      TimesAlphaBits(b);
      ShiftedShifted(Value(b), 1, n - 1);
      assert Shifted(Value(b), 1) == TimesAlpha(Shifted(Value(b), 0));
    }
  }

  lemma {:induction false} OrbitAvoidsOne(b: Byte, n: nat, e: Byte, i: nat)
    requires Orbit(b, n, e) && i < n
    ensures Shifted(Value(b), i) != 1
    decreases n
  {
    hide TimesAlpha, Value, StepBits;
    ValueOne(b);
    if i > 0 {
      OrbitAvoidsOne(StepBits(b), n - 1, e, i - 1);
      TimesAlphaBits(b);
      ShiftedShifted(Value(b), 1, i - 1);
      assert Shifted(Value(b), 1) == TimesAlpha(Shifted(Value(b), 0));
    }
  }

  lemma ValueOne(b: Byte)
    ensures Value(b) == 1 ==> b == ONE
  {
  }

  lemma FirstPower()
    ensures Shifted(1, 1) == 2
  {
    assert Shifted(1, 0) == 1;
  }

  /** alpha has order 255. */
  lemma AlphaHasOrder255()
    ensures Exp(255) == 1
    ensures forall i :: 0 < i < 255 ==> Exp(i) != 1
  {
    hide Orbit, Shifted;
    FirstPower();
    FullOrbit();
    OrbitEnds(P1, 254, ONE);
    ShiftedShifted(1, 1, 254);
    forall i | 0 < i < 255 ensures Exp(i) != 1 {
      OrbitAvoidsOne(P1, 254, ONE, i - 1);
      ShiftedShifted(1, 1, i - 1);
    }
  }

  lemma ExpInjective(i: nat, j: nat)
    requires i < 255 && j < 255 && Exp(i) == Exp(j)
    ensures i == j
  {
    hide TimesAlpha;
    AlphaHasOrder255();
    if i < j {
      ShiftedShifted(1, j - i, i);
      ShiftedInjective(Exp(j - i), 1, i);
    } else if j < i {
      ShiftedShifted(1, i - j, j);
      ShiftedInjective(Exp(i - j), 1, j);
    }
  }

  lemma ExpPeriod(n: nat)
    ensures Exp(n + 255) == Exp(n)
  {
    hide TimesAlpha;
    AlphaHasOrder255();
    ShiftedShifted(1, 255, n);
  }

  lemma {:induction false} ExpMod(n: nat)
    ensures Exp(n) == Exp(n % 255)
  {
    hide Exp;
    if n >= 255 {
      ExpMod(n - 255);
      ExpPeriod(n - 255);
    }
  }

  ghost function PowerSet(n: nat): (s: set<gf>)
  {
    set i | 0 <= i < n :: Exp(i)
  }

  lemma {:induction false} PowerSetCount(n: nat)
    requires n <= 255
    ensures |PowerSet(n)| == n
  {
    if n > 0 {
      hide Exp;
      PowerSetCount(n - 1);
      assert PowerSet(n) == PowerSet(n - 1) + {Exp(n - 1)};
      if Exp(n - 1) in PowerSet(n - 1) {
        var i :| 0 <= i < n - 1 && Exp(i) == Exp(n - 1);
        ExpInjective(i, n - 1);
      }
    }
  }

  ghost function Nonzero(n: nat): (s: set<gf>)
    requires 1 <= n <= 256
    ensures forall x: gf :: x in s <==> 0 < x < n
    ensures |s| == n - 1
  {
    if n == 1 then {} else Nonzero(n - 1) + {n - 1}
  }

  lemma SubsetFull<T>(a: set<T>, b: set<T>)
    requires a <= b && |a| == |b|
    ensures a == b
  {
    assert |b - a| == |b| - |a|;
  }

  /** Every nonzero element is one of the first 255 powers of alpha. */
  lemma ExpSurjective(a: gf)
    requires a != 0
    ensures exists i :: 0 <= i < 255 && Exp(i) == a
  {
    hide TimesAlpha, Shifted;
    PowerSetCount(255);
    forall x | x in PowerSet(255) ensures x in Nonzero(256) {
      var i :| 0 <= i < 255 && Exp(i) == x;
      ShiftedNonzero(1, i);
    }
    SubsetFull(PowerSet(255), Nonzero(256));
    assert a in PowerSet(255);
  }
}
