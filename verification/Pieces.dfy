/** A sequence kept as pieces laid end to end. */
module Pieces {

  function Flat<T>(pieces: seq<seq<T>>): seq<T> {
    if pieces == [] then [] else Flat(pieces[..|pieces| - 1]) + pieces[|pieces| - 1]
  }

  lemma FlatSnoc<T>(pieces: seq<seq<T>>, p: seq<T>)
    ensures Flat(pieces + [p]) == Flat(pieces) + p
  {
    assert (pieces + [p])[..|pieces|] == pieces;
  }

  lemma {:induction false} FlatSplit<T>(pieces: seq<seq<T>>, j: nat)
    requires j <= |pieces|
    ensures Flat(pieces) == Flat(pieces[..j]) + Flat(pieces[j..])
  {
    if j == |pieces| {
      assert pieces[..j] == pieces && pieces[j..] == [];
    } else {
      var n := |pieces| - 1;
      FlatSplit(pieces[..n], j);
      assert pieces[..n][..j] == pieces[..j] && pieces[..n][j..] == pieces[j..n];
      assert pieces[j..][..n - j] == pieces[j..n];
    }
  }

  /** Where piece j starts. */
  function Start<T>(pieces: seq<seq<T>>, j: nat): nat
    requires j <= |pieces|
  {
    |Flat(pieces[..j])|
  }

  lemma PieceAt<T>(pieces: seq<seq<T>>, j: nat)
    requires j < |pieces|
    ensures Start(pieces, j + 1) == Start(pieces, j) + |pieces[j]| <= |Flat(pieces)|
    ensures Flat(pieces)[Start(pieces, j)..Start(pieces, j + 1)] == pieces[j]
  {
    FlatSplit(pieces, j + 1);
    assert pieces[..j + 1] == pieces[..j] + [pieces[j]];
    FlatSnoc(pieces[..j], pieces[j]);
  }

  lemma StartEnds<T>(pieces: seq<seq<T>>)
    ensures Start(pieces, 0) == 0 && Start(pieces, |pieces|) == |Flat(pieces)|
  {
    assert pieces[..|pieces|] == pieces;
  }

  /** Every place in the whole is a place in one of the pieces. */
  lemma {:induction false} Locate<T>(pieces: seq<seq<T>>, p: nat) returns (i: nat, j: nat)
    requires p < |Flat(pieces)|
    ensures i < |pieces| && j < |pieces[i]| && p == Start(pieces, i) + j && Flat(pieces)[p] == pieces[i][j]
  {
    var n := |pieces| - 1;
    var less := pieces[..n];
    if p < |Flat(less)| {
      i, j := Locate(less, p);
      assert less[..i] == pieces[..i];
    } else {
      i, j := n, p - |Flat(less)|;
    }
  }

  /** Pieces of the same sizes start at the same places. */
  lemma {:induction false} SameStart<S, T>(a: seq<seq<S>>, b: seq<seq<T>>, i: nat)
    requires |a| == |b| && i <= |a| && forall k :: 0 <= k < |a| ==> |a[k]| == |b[k]|
    ensures Start(a, i) == Start(b, i)
  {
    if i > 0 {
      SameStart(a, b, i - 1);
      PieceAt(a, i - 1);
      PieceAt(b, i - 1);
    }
  }

  lemma FlatUpdate<T>(pieces: seq<seq<T>>, i: nat, p: seq<T>)
    requires i < |pieces|
    ensures |Flat(pieces[i := p])| == |Flat(pieces)| - |pieces[i]| + |p|
  {
    var changed := pieces[i := p];
    FlatSplit(pieces, i + 1);
    FlatSplit(changed, i + 1);
    PieceAt(pieces, i);
    PieceAt(changed, i);
    assert changed[..i] == pieces[..i] && changed[i + 1..] == pieces[i + 1..];
  }

  /** Pieces of at most k elements that together have k each are all full. */
  lemma {:induction false} AllFull<T>(pieces: seq<seq<T>>, k: nat)
    requires forall i :: 0 <= i < |pieces| ==> |pieces[i]| <= k
    ensures |Flat(pieces)| <= |pieces| * k
    ensures |Flat(pieces)| == |pieces| * k ==> forall i :: 0 <= i < |pieces| ==> |pieces[i]| == k
  {
    if pieces != [] {
      var n := |pieces| - 1;
      AllFull(pieces[..n], k);
      assert |pieces| * k == n * k + k;
      assert forall i :: 0 <= i < n ==> pieces[..n][i] == pieces[i];
    }
  }

  /** s is at this place in the data. */
  ghost predicate Holds<T>(data: seq<T>, pos: nat, s: seq<T>) {
    pos + |s| <= |data| && data[pos..pos + |s|] == s
  }

  lemma SliceOfSlice<T>(data: seq<T>, pos: nat, n: nat, i: nat, j: nat)
    requires pos + n <= |data| && i <= j <= n
    ensures data[pos..pos + n][i..j] == data[pos + i..pos + j]
  {
    var a, b := data[pos..pos + n][i..j], data[pos + i..pos + j];
    forall k | 0 <= k < j - i ensures a[k] == b[k] {
      assert data[pos..pos + n][i + k] == data[pos + (i + k)];
    }
    assert a == b;
  }

  /** A piece of what is held is held, at its own place. */
  lemma HoldsPiece<T>(data: seq<T>, pos: nat, pieces: seq<seq<T>>, k: nat)
    requires Holds(data, pos, Flat(pieces)) && k < |pieces|
    ensures Start(pieces, k + 1) == Start(pieces, k) + |pieces[k]|
    ensures Holds(data, pos + Start(pieces, k), pieces[k])
  {
    hide Flat;
    PieceAt(pieces, k);
    var s := Flat(pieces);
    var i, j := Start(pieces, k), Start(pieces, k + 1);
    SliceOfSlice(data, pos, |s|, i, j);
  }

  lemma HoldsParts<T>(data: seq<T>, pos: nat, a: seq<T>, b: seq<T>)
    requires Holds(data, pos, a + b)
    ensures Holds(data, pos, a) && Holds(data, pos + |a|, b)
  {
    var s := a + b;
    assert data[pos..pos + |s|][..|a|] == data[pos..pos + |a|];
    assert data[pos..pos + |s|][|a|..] == data[pos + |a|..pos + |s|];
  }
}
