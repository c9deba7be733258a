/** Bytes and little-endian numbers. */
module Bytes {

  type byte = x: int | 0 <= x < 256

  /** n in two bytes. */
  function Put16(n: int): (b: seq<byte>)
    requires 0 <= n < 0x1_0000
    ensures |b| == 2
  {
    [n % 256, n / 256]
  }

  function Get16(b: seq<byte>, i: nat): (n: nat)
    requires i + 2 <= |b|
    ensures n < 0x1_0000
  {
    var lo: int, hi: int := b[i], b[i + 1];
    lo + 256 * hi
  }

  /** n in four bytes. */
  function Put32(n: int): (b: seq<byte>)
    requires 0 <= n < 0x1_0000_0000
    ensures |b| == 4
  {
    Put16(n % 0x1_0000) + Put16(n / 0x1_0000)
  }

  function Get32(b: seq<byte>, i: nat): (n: nat)
    requires i + 4 <= |b|
    ensures n < 0x1_0000_0000
  {
    Get16(b, i) + 0x1_0000 * Get16(b, i + 2)
  }

  /** A number written at position i is read back, whatever comes before and after. */
  lemma GetPut16(a: seq<byte>, n: int, c: seq<byte>)
    requires 0 <= n < 0x1_0000
    ensures Get16(a + Put16(n) + c, |a|) == n
  {
    var s := a + Put16(n) + c;
    assert s[|a|] == Put16(n)[0] && s[|a| + 1] == Put16(n)[1];
  }

  lemma GetPut32(a: seq<byte>, n: int, c: seq<byte>)
    requires 0 <= n < 0x1_0000_0000
    ensures Get32(a + Put32(n) + c, |a|) == n
  {
    var lo, hi := Put16(n % 0x1_0000), Put16(n / 0x1_0000);
    var s := a + Put32(n) + c;
    assert s == a + lo + (hi + c) && s == (a + lo) + hi + c;
    GetPut16(a, n % 0x1_0000, hi + c);
    GetPut16(a + lo, n / 0x1_0000, c);
  }

  // A number read inside a copy of s is the number read inside s.

  lemma Shifted16(data: seq<byte>, pos: nat, s: seq<byte>, k: nat)
    requires pos + |s| <= |data| && data[pos..pos + |s|] == s && k + 2 <= |s|
    ensures Get16(data, pos + k) == Get16(s, k)
  {
    assert data[pos..pos + |s|][k] == data[pos + k] && data[pos..pos + |s|][k + 1] == data[pos + k + 1];
  }

  lemma Shifted32(data: seq<byte>, pos: nat, s: seq<byte>, k: nat)
    requires pos + |s| <= |data| && data[pos..pos + |s|] == s && k + 4 <= |s|
    ensures Get32(data, pos + k) == Get32(s, k)
  {
    hide Get16;
    Shifted16(data, pos, s, k);
    Shifted16(data, pos, s, k + 2);
  }
}
