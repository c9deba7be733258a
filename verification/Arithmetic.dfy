/** Division and remainder by a variable. */
module Arithmetic {

  lemma Remainder(x: int, q: int, r: int, e: int)
    requires 0 < e && x == q * e + r && 0 <= r < e
    ensures x % e == r
  {
    var d := x / e - q;
    Times(d, e);
    assert x == (x / e) * e + x % e;
    assert d * e == r - x % e;
  }

  lemma Times(d: int, e: int)
    requires 0 < e
    ensures d >= 1 ==> d * e >= e
    ensures d <= -1 ==> d * e <= -e
    ensures d == 0 ==> d * e == 0
  {
    if d >= 1 { assert (d - 1) * e >= 0; }
    if d <= -1 { assert (-d - 1) * e >= 0; }
  }

  /** Going on inside a stretch of length e, or up to its end. */
  lemma ModStep(a: nat, n: nat, e: nat)
    requires 0 < e && a % e + n <= e
    ensures a % e + n < e ==> (a + n) % e == a % e + n
    ensures a % e + n == e ==> (a + n) % e == 0
  {
    var q, r := a / e, a % e;
    assert a == q * e + r;
    if r + n < e {
      Remainder(a + n, q, r + n, e);
    } else {
      assert (q + 1) * e == q * e + e;
      Remainder(a + n, q + 1, 0, e);
    }
  }

  lemma ModMultiple(a: nat, e: nat)
    requires 0 < e && a % 4 == 0 && e % 4 == 0
    ensures a % e % 4 == 0
  {
    var q, m := a / e, e / 4;
    assert a == q * e + a % e;
    assert e == 4 * m && q * e == 4 * (q * m);
  }

  lemma FourSum(a: int, b: int)
    requires a % 4 == 0 && b % 4 == 0
    ensures (a + b) % 4 == 0 && (a - b) % 4 == 0 && 4 * (a / 4) == a
  {
  }

  /** A place that is not at the start of a stretch of length e is in the same stretch as what ends there. */
  lemma SameStretch(a: nat, n: nat, e: nat)
    requires 0 < e && a % e + n <= e && (a + n) % e != 0
    ensures (a + n) - (a + n) % e == a - a % e
  {
    ModStep(a, n, e);
  }

  predicate IsMultiple(a: int, e: int)
    requires 0 < e
  {
    a % e == 0
  }
}
