/** Sequences without repetition, and without one of their elements. */
module Sequences {

  predicate Distinct<T(==)>(s: seq<T>) {
    forall i, j :: 0 <= i < j < |s| ==> s[i] != s[j]
  }

  /** s without its element at j. */
  function Without<T>(s: seq<T>, j: nat): (r: seq<T>)
    requires j < |s|
    ensures |r| == |s| - 1
    ensures forall i :: 0 <= i < |r| ==> r[i] == s[if i < j then i else i + 1]
  {
    s[..j] + s[j + 1..]
  }

  lemma WithoutDistinct<T>(s: seq<T>, j: nat)
    requires j < |s| && Distinct(s)
    ensures Distinct(Without(s, j)) && forall x :: x in Without(s, j) <==> x in s && x != s[j]
  {
    forall x | x in s && x != s[j] ensures x in Without(s, j) {
      var i :| 0 <= i < |s| && s[i] == x;
      assert Without(s, j)[if i < j then i else i - 1] == x;
    }
  }
}
