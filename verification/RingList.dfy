/** The circular doubly linked lists of mksquashfs: INSERT_LIST and REMOVE_LIST, as made for the free list of a
    cache. */
module RingList {
  import opened Sequences

  /** struct file_buffer, as far as the cache looks at it. */
  class FileBuffer {
    var keep: bool
    var index: nat
    var used: nat
    var freeNext: FileBuffer?
    var freePrev: FileBuffer?
    ghost var stamp: nat

    constructor ()
      ensures !keep && used == 0 && freeNext == null && freePrev == null
    {
      keep, index, used, freeNext, freePrev, stamp := false, 0, 0, null, null, 0;
    }
  }

  function After(n: nat, j: nat): (k: nat)
    requires j < n
    ensures k < n
  {
    if j + 1 < n then j + 1 else 0
  }

  function Before(n: nat, j: nat): (k: nat)
    requires j < n
    ensures k < n
  {
    if j > 0 then j - 1 else n - 1
  }

  /** The list is this ring of links, of which the list points at the first. */
  ghost predicate IsRing(list: FileBuffer?, ring: seq<FileBuffer>)
    reads ring`freeNext, ring`freePrev
  {
    && Distinct(ring) && list == (if ring == [] then null else ring[0])
    && forall j :: 0 <= j < |ring| ==>
         ring[j].freeNext == ring[After(|ring|, j)] && ring[j].freePrev == ring[Before(|ring|, j)]
  }

  lemma RingDistinct(list: FileBuffer?, ring: seq<FileBuffer>)
    requires IsRing(list, ring)
    ensures Distinct(ring) && (list == null <==> ring == []) && (ring != [] ==> list == ring[0])
  {
  }

  /** Each is linked to the next one. */
  ghost predicate IsChain(ring: seq<FileBuffer>)
    reads ring`freeNext, ring`freePrev
  {
    && (forall i :: 0 <= i < |ring| - 1 ==> ring[i].freeNext == ring[i + 1])
    && (forall i :: 1 <= i < |ring| ==> ring[i].freePrev == ring[i - 1])
  }

  lemma Chained(list: FileBuffer?, ring: seq<FileBuffer>)
    requires IsRing(list, ring) && list != null
    ensures Distinct(ring) && ring != [] && list == ring[0] && list.freePrev == ring[|ring| - 1] && IsChain(ring)
  {
    var n := |ring|;
    assert forall i :: 0 <= i < n - 1 ==> After(n, i) == i + 1;
    assert forall i :: 1 <= i < n ==> Before(n, i) == i - 1;
    assert Before(n, 0) == n - 1;
    hide After, Before;
  }

  method PutLast(list: FileBuffer, entry: FileBuffer, ghost ring: seq<FileBuffer>)
    requires ring != [] && Distinct(ring) && entry !in ring && list == ring[0] && list.freePrev == ring[|ring| - 1]
    requires IsChain(ring)
    modifies ring`freeNext, ring`freePrev, entry`freeNext, entry`freePrev
    ensures entry.freeNext == ring[0] && entry.freePrev == ring[|ring| - 1] && ring[|ring| - 1].freeNext == entry
    ensures ring[0].freePrev == entry
    ensures IsChain(ring)
  {
    var last := list.freePrev;
    entry.freeNext := list;
    entry.freePrev := last;
    last.freeNext := entry;
    list.freePrev := entry;
  }

  /** INSERT_LIST: the entry becomes the last of the ring. */
  method InsertList(list0: FileBuffer?, entry: FileBuffer, ghost ring: seq<FileBuffer>) returns (list: FileBuffer?)
    requires IsRing(list0, ring) && entry !in ring
    modifies ring`freeNext, ring`freePrev, entry`freeNext, entry`freePrev
    ensures IsRing(list, ring + [entry])
  {
    list := list0;
    if list != null {
      Chained(list, ring);
      hide IsRing;
      PutLast(list, entry, ring);
      Appended(ring, entry);
    } else {
      list := entry;
      entry.freePrev, entry.freeNext := entry, entry;
    }
  }

  lemma Appended(ring: seq<FileBuffer>, entry: FileBuffer)
    requires ring != [] && Distinct(ring) && entry !in ring
    requires entry.freeNext == ring[0] && entry.freePrev == ring[|ring| - 1] && ring[|ring| - 1].freeNext == entry
    requires ring[0].freePrev == entry
    requires IsChain(ring)
    ensures IsRing(ring[0], ring + [entry])
  {
    var n, more := |ring|, ring + [entry];
    forall j | 0 <= j < n + 1
      ensures more[j].freeNext == more[After(n + 1, j)] && more[j].freePrev == more[Before(n + 1, j)]
    {
      if j < n { assert more[j] == ring[j]; }
    }
  }

  /** The links around place j are closed over it. */
  ghost predicate Bridged(ring: seq<FileBuffer>, j: nat)
    requires j < |ring|
    reads ring`freeNext, ring`freePrev
  {
    var n := |ring|;
    forall i :: 0 <= i < n && i != j ==>
      && ring[i].freeNext == (if After(n, i) == j then ring[After(n, j)] else ring[After(n, i)])
      && ring[i].freePrev == (if Before(n, i) == j then ring[Before(n, j)] else ring[Before(n, i)])
  }

  lemma RingWithout(ring: seq<FileBuffer>, j: nat)
    requires 2 <= |ring| && j < |ring| && Distinct(ring) && Bridged(ring, j)
    ensures IsRing(if j == 0 then ring[1] else ring[0], Without(ring, j))
  {
    WithoutDistinct(ring, j);
    var n, r := |ring|, Without(ring, j);
    forall k | 0 <= k < n - 1 ensures r[k].freeNext == r[After(n - 1, k)] && r[k].freePrev == r[Before(n - 1, k)] {
      var i := if k < j then k else k + 1;
      assert r[k] == ring[i];
    }
  }

  lemma Neighbours(n: nat, j: nat)
    requires j < n
    ensures forall i :: 0 <= i < n ==>
      (After(n, i) == j <==> i == Before(n, j)) && (Before(n, i) == j <==> i == After(n, j))
  {
  }

  /** The neighbours of an entry are linked to each other. */
  method Bridge(entry: FileBuffer, ghost list: FileBuffer?, ghost ring: seq<FileBuffer>, ghost j: nat)
    requires IsRing(list, ring) && 2 <= |ring| && j < |ring| && entry == ring[j]
    modifies ring`freeNext, ring`freePrev
    ensures Bridged(ring, j) && entry.freeNext == old(entry.freeNext)
  {
    ghost var n := |ring|;
    Neighbours(n, j);
    var a, b := entry.freeNext, entry.freePrev;
    ghost var x, y := After(n, j), Before(n, j);
    assert a == ring[x] && b == ring[y];
    a.freePrev := b;
    assert forall i :: 0 <= i < n && i != x ==> ring[i] != a;
    b.freeNext := a;
    assert forall i :: 0 <= i < n && i != y ==> ring[i] != b;
  }

  /** The cases of REMOVE_LIST. */
  method Detach(list0: FileBuffer?, entry: FileBuffer, ghost ring: seq<FileBuffer>, ghost j: nat)
    returns (list: FileBuffer?)
    requires IsRing(list0, ring) && j <= |ring|
    requires if j < |ring| then entry == ring[j] else entry !in ring && entry.freeNext == null && entry.freePrev == null
    modifies ring`freeNext, ring`freePrev
    ensures IsRing(list, Left(ring, j)) && entry !in Left(ring, j)
  {
    list := list0;
    if entry.freePrev == entry && entry.freeNext == entry {
      list := null;
    } else if entry.freePrev != null && entry.freeNext != null {
      Bridge(entry, list0, ring, j);
      if list == entry { list := entry.freeNext; }
      RingWithout(ring, j);
      WithoutDistinct(ring, j);
      hide IsRing, Bridged, Without;
    }
  }

  /** REMOVE_LIST: an entry of the ring leaves it, the others stay in order; on one that is in no list nothing
      changes. */
  method RemoveList(list0: FileBuffer?, entry: FileBuffer, ghost ring: seq<FileBuffer>, ghost j: nat)
    returns (list: FileBuffer?)
    requires IsRing(list0, ring) && j <= |ring|
    requires if j < |ring| then entry == ring[j] else entry !in ring && entry.freeNext == null && entry.freePrev == null
    modifies ring`freeNext, ring`freePrev, entry`freeNext, entry`freePrev
    ensures IsRing(list, Left(ring, j)) && entry.freeNext == null && entry.freePrev == null
  {
    hide IsRing, Left;
    list := Detach(list0, entry, ring, j);
    entry.freePrev, entry.freeNext := null, null;
  }

  function Left(ring: seq<FileBuffer>, j: nat): seq<FileBuffer>
    requires j <= |ring|
  {
    if j < |ring| then Without(ring, j) else ring
  }

  /** Where an entry is in the ring; past its end if it is not in it. */
  ghost function Place(ring: seq<FileBuffer>, entry: FileBuffer): (j: nat)
    ensures j <= |ring| && (j < |ring| ==> ring[j] == entry) && (j == |ring| ==> entry !in ring)
  {
    if entry in ring then var j :| 0 <= j < |ring| && ring[j] == entry; j else |ring|
  }

  lemma LeftHas(ring: seq<FileBuffer>, j: nat, entry: FileBuffer)
    requires Distinct(ring) && j <= |ring| && (if j < |ring| then ring[j] == entry else entry !in ring)
    ensures forall b :: b in Left(ring, j) <==> b in ring && b != entry
    ensures ring != [] && entry == ring[0] ==> Left(ring, j) == ring[1..]
  {
    if j < |ring| { WithoutDistinct(ring, j); }
  }
}
