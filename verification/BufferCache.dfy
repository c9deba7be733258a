/** The reference-counted buffer cache of mksquashfs.

    A buffer that is to be kept stays in the hash table when nobody uses it any more, and goes on
    the free list, from which it may be found again or taken for something else. The stamps record
    the order in which buffers were put into the hash table; no method reads them. */
module BufferCache {
  import opened RingList
  import opened Sequences

  const BUCKETS: nat := 0x1_0000

  /** CALCULATE_HASH. */
  function Hash(index: nat): (h: nat)
    ensures h < BUCKETS
  {
    index % BUCKETS
  }

  class BufferCache {
    const maxBuffers: nat
    const table: array<seq<FileBuffer>>
    var count: nat
    var freeHead: FileBuffer?
    ghost var freeList: seq<FileBuffer>
    ghost var live: set<FileBuffer>
    ghost var clock: nat

    /** A chain has kept buffers of its hash value, but not x, the most recently hashed first. */
    ghost predicate ChainOk(c: seq<FileBuffer>, h: nat, x: FileBuffer?)
      reads `live, `clock, live`keep, live`index, live`stamp
    {
      && (forall j :: 0 <= j < |c| ==>
            c[j] in live && c[j] != x && c[j].keep && Hash(c[j].index) == h && c[j].stamp < clock)
      && (forall i, j :: 0 <= i < j < |c| ==> c[i].stamp > c[j].stamp)
    }

    /** Every kept buffer but x is in the chain of its index. */
    ghost predicate Hashed(x: FileBuffer?)
      reads `live, `clock, table, live`keep, live`index, live`stamp
    {
      && table.Length == BUCKETS && (forall h :: 0 <= h < BUCKETS ==> ChainOk(table[h], h, x))
      && forall b :: b in live && b.keep && b != x ==> b in table[Hash(b.index)]
    }

    /** The free list is a ring of buffers, and no other buffer is linked. */
    ghost predicate Linked()
      reads `freeHead, `freeList, `live, live`freeNext, live`freePrev, freeList`freeNext, freeList`freePrev
    {
      && IsRing(freeHead, freeList) && (forall b :: b in freeList ==> b in live)
      && (forall b :: b in live && b !in freeList ==> b.freeNext == null && b.freePrev == null)
    }

    /** But for x, the kept buffers that nobody uses are on it, and those not kept are in use. */
    ghost predicate Counted(x: FileBuffer?)
      reads `freeList, `live, live`keep, live`used
    {
      && (forall b :: b in live && b != x ==> (b in freeList <==> b.keep && b.used == 0))
      && (forall b :: b in live && b != x && !b.keep ==> b.used > 0)
    }

    ghost predicate Freed()
      reads `freeHead, `freeList, `live, live`keep, live`used
      reads live`freeNext, live`freePrev, freeList`freeNext, freeList`freePrev
    {
      Linked() && Counted(null)
    }

    /** The free list is right but for x, which is not on it. */
    ghost predicate FreedBut(x: FileBuffer)
      reads `freeHead, `freeList, `live, live`keep, live`used
      reads live`freeNext, live`freePrev, freeList`freeNext, freeList`freePrev
    {
      Linked() && Counted(x) && x !in freeList
    }

    /** Each kept buffer is in one chain, the free list has the kept ones that nobody uses, and there are not too
        many. */
    ghost predicate Valid()
      reads this, table, live, freeList
    {
      Hashed(null) && Freed() && count == |live| <= maxBuffers
    }

    constructor (maxBuffers: nat)
      ensures Valid() && live == {} && fresh(table) && this.maxBuffers == maxBuffers
    {
      this.maxBuffers := maxBuffers;
      table := new seq<FileBuffer>[BUCKETS](_ => []);
      count, freeHead, freeList, live, clock := 0, null, [], {}, 0;
    }

    /** The buffer kept under this index that was hashed last. */
    ghost predicate IsLatest(b: FileBuffer, index: nat)
      reads this, live
    {
      b in live && b.keep && b.index == index && forall c :: c in live && c.keep && c.index == index && c != b ==>
        c.stamp < b.stamp
    }

    /** cache_lookup: the buffer hashed last under the index, now in use. */
    method CacheLookup(index: nat) returns (entry: FileBuffer?)
      requires Valid()
      modifies `freeHead, `freeList, live`used, live`freeNext, live`freePrev
      ensures Valid() && (entry == null <==> forall b :: b in live ==> !(b.keep && b.index == index))
      ensures entry != null ==> IsLatest(entry, index) && entry.used == old(entry.used) + 1
      ensures forall b :: b in live && b != entry ==> b.used == old(b.used)
    {
      hide Hash;
      var c := table[Hash(index)];
      assert ChainOk(table[Hash(index)], Hash(index), null);
      var i := 0;
      while i < |c| && c[i].index != index
        invariant 0 <= i <= |c| && forall j :: 0 <= j < i ==> c[j].index != index
      {
        i := i + 1;
      }
      if i == |c| { return null; }
      entry := c[i];
      TakeFromFree(entry);
    }

    /** remove_free_list, for a buffer that gets one more user. */
    method TakeFromFree(entry: FileBuffer)
      requires Valid() && entry in live && entry.keep
      modifies `freeHead, `freeList, entry`used, live`freeNext, live`freePrev
      ensures Valid() && entry.used == old(entry.used) + 1
    {
      hide Hash, ChainOk, Hashed, Linked;
      entry.used := entry.used + 1;
      Unlist(entry);
    }

    /** remove_free_list, whether or not the buffer is on it. */
    method Unlist(entry: FileBuffer)
      requires Linked() && entry in live
      modifies `freeHead, `freeList, live`freeNext, live`freePrev
      ensures Linked() && forall b :: b in freeList <==> b in old(freeList) && b != entry
      ensures old(freeList) != [] && entry == old(freeList)[0] ==> freeList == old(freeList)[1..]
    {
      hide IsRing, Left;
      RingDistinct(freeHead, freeList);
      ghost var j := Place(freeList, entry);
      freeHead := RemoveList(freeHead, entry, freeList, j);
      LeftHas(freeList, j, entry);
      freeList := Left(freeList, j);
    }

    /** insert_hash_table: the buffer becomes the first of its chain. */
    method InsertHash(entry: FileBuffer)
      requires Hashed(entry) && entry in live && entry.keep
      modifies table, `clock, entry`stamp
      ensures Hashed(null) && forall c :: c in live && c.keep && c != entry ==> c.stamp < entry.stamp
    {
      var h := Hash(entry.index);
      forall c | c in live && c.keep && c != entry ensures c.stamp < clock { StampedBefore(c, entry); }
      entry.stamp := clock;
      clock := clock + 1;
      OutsideHash(entry);
      PushOk(table[h], h, entry);
      forall i | 0 <= i < BUCKETS && i != h ensures ChainOk(table[i], i, null) { ExceptionDropped(table[i], i, entry); }
      hide Hash, ChainOk;
      table[h] := [entry] + table[h];
    }

    lemma PushOk(c: seq<FileBuffer>, h: nat, entry: FileBuffer)
      requires ChainOk(c, h, entry) && entry in live && entry.keep && Hash(entry.index) == h && entry.stamp < clock
      requires forall b :: b in live && b.keep && b != entry ==> b.stamp < entry.stamp
      ensures ChainOk([entry] + c, h, null)
    {
      hide Hash;
    }

    lemma ExceptionDropped(c: seq<FileBuffer>, h: nat, x: FileBuffer)
      requires ChainOk(c, h, x)
      ensures ChainOk(c, h, null)
    {
      hide Hash;
    }

    lemma StampedBefore(c: FileBuffer, x: FileBuffer?)
      requires Hashed(x) && c in live && c.keep && c != x
      ensures c.stamp < clock
    {
      hide Hash;
      assert ChainOk(table[Hash(c.index)], Hash(c.index), x);
    }

    /** remove_hash_table. */
    method RemoveHash(entry: FileBuffer)
      requires Hashed(null) && entry in live && entry.keep
      modifies table
      ensures Hashed(entry)
    {
      hide Hash;
      var h := Hash(entry.index);
      assert ChainOk(table[h], h, null);
      var c := table[h];
      var j :| 0 <= j < |c| && c[j] == entry;
      WithoutOk(c, h, j);
      forall i | 0 <= i < BUCKETS && i != h ensures ChainOk(table[i], i, entry) { OtherChain(entry, i); }
      hide ChainOk;
      table[h] := Without(c, j);
    }

    /** A chain without one of its buffers. */
    lemma WithoutOk(c: seq<FileBuffer>, h: nat, j: nat)
      requires ChainOk(c, h, null) && j < |c|
      ensures ChainOk(Without(c, j), h, c[j]) && forall b :: b in c && b != c[j] ==> b in Without(c, j)
    {
      hide Hash;
      assert Distinct(c);
      WithoutDistinct(c, j);
    }

    /** A buffer is in no chain but its own. */
    lemma OtherChain(entry: FileBuffer, i: nat)
      requires Hashed(null) && i < BUCKETS && i != Hash(entry.index)
      ensures entry !in table[i] && ChainOk(table[i], i, entry)
    {
      hide Hash;
      assert ChainOk(table[i], i, null);
    }

    /** The first turn of the loop of cache_get: a buffer from the free list, or a new one, or none as yet. */
    method FindBuffer() returns (entry: FileBuffer?)
      requires Valid()
      modifies table, `freeHead, `freeList, `count, `live, live`freeNext, live`freePrev
      ensures entry == null <==> old(freeList) == [] && old(count) == maxBuffers
      ensures entry == null ==> Valid() && live == old(live)
      ensures entry != null ==> Hashed(entry) && entry in live && FreedBut(entry) && count == |live| <= maxBuffers
      ensures entry != null ==>
        if old(freeList) != [] then entry == old(freeList)[0] && freeList == old(freeList)[1..] && live == old(live)
        else fresh(entry) && freeList == [] && live == old(live) + {entry}
    {
      hide Hash, ChainOk, Hashed, IsRing;
      RingDistinct(freeHead, freeList);
      hide Linked;
      if freeHead != null {
        entry := freeHead;
        Unlist(entry);
        RemoveHash(entry);
      } else if count < maxBuffers {
        entry := NewBuffer();
      } else {
        entry := null;
      }
    }

    method NewBuffer() returns (entry: FileBuffer)
      requires Valid() && count < maxBuffers
      modifies `count, `live
      ensures fresh(entry) && live == old(live) + {entry}
      ensures Hashed(entry) && entry in live && FreedBut(entry) && count == |live| <= maxBuffers
    {
      hide Hash, IsRing, ChainOk, Hashed;
      entry := new FileBuffer();
      live := live + {entry};
      count := count + 1;
      MoreLive(entry);
    }

    /** A new buffer is in no chain. */
    twostate lemma MoreLive(new entry: FileBuffer)
      requires old(Hashed(null)) && live == old(live) + {entry} && fresh(entry) && clock == old(clock)
      requires forall h :: 0 <= h < table.Length ==> table[h] == old(table[h])
      requires forall b :: b in old(live) ==>
        b.keep == old(b.keep) && b.index == old(b.index) && b.stamp == old(b.stamp)
      ensures Hashed(entry)
    {
      hide Hash;
      forall h | 0 <= h < BUCKETS ensures ChainOk(table[h], h, entry) { assert old(ChainOk(table[h], h, null)); }
    }

    /** cache_get: a buffer in use by the caller alone, kept under the index if asked for; or none when all are in
        use. */
    method CacheGet(index: nat, keep: bool) returns (entry: FileBuffer?)
      requires Valid()
      modifies this, table, live
      ensures forall b :: b in old(live) && b != entry ==>
        b.used == old(b.used) && b.keep == old(b.keep) && b.index == old(b.index)
      ensures Valid() && (entry == null <==> old(freeList) == [] && old(count) == maxBuffers)
      ensures entry == null ==> live == old(live)
      ensures entry != null ==>
        entry in live && entry.used == 1 && entry.keep == keep && (keep ==> IsLatest(entry, index))
      ensures entry != null ==>
        if old(freeList) != [] then entry == old(freeList)[0] && freeList == old(freeList)[1..] && live == old(live)
        else fresh(entry) && freeList == [] && live == old(live) + {entry}
    {
      hide Hash, ChainOk;
      entry := FindBuffer();
      if entry == null { return; }
      Settle(entry, index, keep);
    }

    /** What a buffer outside the hash table holds does not matter to the hash table. */
    twostate lemma OutsideHash(entry: FileBuffer)
      requires old(Hashed(entry)) && live == old(live) && clock >= old(clock)
      requires forall h :: 0 <= h < table.Length ==> table[h] == old(table[h])
      requires forall b :: b in live && b != entry ==>
        b.keep == old(b.keep) && b.index == old(b.index) && b.stamp == old(b.stamp)
      ensures Hashed(entry)
    {
      hide Hash;
      forall h | 0 <= h < BUCKETS ensures ChainOk(table[h], h, entry) { assert old(ChainOk(table[h], h, entry)); }
    }

    /** The end of cache_get: the buffer goes into the hash table if it is to be kept. */
    method Settle(entry: FileBuffer, index: nat, keep: bool)
      requires Hashed(entry) && entry in live && FreedBut(entry) && count == |live| <= maxBuffers
      modifies table, `clock, entry
      ensures Valid() && entry.used == 1 && entry.keep == keep && (keep ==> IsLatest(entry, index))
    {
      hide IsRing, FreedBut, Freed, Hash, ChainOk, Hashed;
      entry.used := 1;
      entry.keep := keep;
      if keep { entry.index := index; }
      OutsideHash(entry);
      OutsideFree(entry);
      FreedNow(entry);
      if keep {
        InsertHash(entry);
      } else {
        NoneHashed(entry);
      }
    }

    lemma NoneHashed(entry: FileBuffer)
      requires Hashed(entry) && entry in live && !entry.keep
      ensures Hashed(null)
    {
      hide Hash, ChainOk;
      forall h | 0 <= h < BUCKETS ensures ChainOk(table[h], h, null) { ExceptionDropped(table[h], h, entry); }
    }

    lemma FreedNow(entry: FileBuffer)
      requires FreedBut(entry) && entry.used > 0
      ensures Freed()
    {
    }

    /** What a buffer that is not on the free list holds does not matter to it. */
    twostate lemma OutsideFree(entry: FileBuffer)
      requires old(FreedBut(entry)) && freeHead == old(freeHead) && freeList == old(freeList) && live == old(live)
      requires forall b :: b in live ==> b.freeNext == old(b.freeNext) && b.freePrev == old(b.freePrev)
      requires forall b :: b in live && b != entry ==> b.keep == old(b.keep) && b.used == old(b.used)
      ensures FreedBut(entry)
    {
      hide IsRing;
      assert IsRing(freeHead, freeList);
    }

    lemma InUse(entry: FileBuffer)
      requires Freed() && entry in live && entry.used > 0
      ensures FreedBut(entry)
    {
      hide IsRing;
    }

    /** cache_rehash: a buffer in use is kept from now on, under another index. */
    method CacheRehash(entry: FileBuffer, index: nat)
      requires Valid() && entry in live && entry.used > 0
      modifies table, `clock, entry
      ensures Valid() && IsLatest(entry, index) && entry.used == old(entry.used)
    {
      hide IsRing, FreedBut, Freed, Hash, ChainOk, Hashed;
      InUse(entry);
      if entry.keep {
        RemoveHash(entry);
      } else {
        NotHashed(entry);
      }
      label removed:
      entry.keep := true;
      entry.index := index;
      OutsideHash@removed(entry);
      OutsideFree(entry);
      FreedNow(entry);
      InsertHash(entry);
    }

    lemma NotHashed(entry: FileBuffer)
      requires Hashed(null) && entry in live && !entry.keep
      ensures Hashed(entry)
    {
      hide Hash;
      forall h | 0 <= h < BUCKETS ensures ChainOk(table[h], h, entry) { assert ChainOk(table[h], h, null); }
    }

    /** cache_block_put: one user less; without users a kept buffer goes on the free list and any other is gone. */
    method CacheBlockPut(entry: FileBuffer?)
      requires Valid() && (entry != null ==> entry in live && entry.used > 0)
      modifies `freeHead, `freeList, `count, `live, live`used, live`freeNext, live`freePrev
      ensures Valid()
      ensures entry == null ==> live == old(live) && freeList == old(freeList)
      ensures entry != null ==>
        entry.used == old(entry.used) - 1 && forall b :: b in old(live) && b != entry ==> b.used == old(b.used)
      ensures entry != null ==> live == (if entry.used == 0 && !entry.keep then old(live) - {entry} else old(live))
      ensures entry != null ==>
        freeList == (if entry.used == 0 && entry.keep then old(freeList) + [entry] else old(freeList))
    {
      hide IsRing;
      if entry == null { return; }
      entry.used := entry.used - 1;
      if entry.used == 0 {
        if entry.keep {
          PutOnFree(entry);
        } else {
          NotHashed(entry);
          Discard(entry);
        }
      }
    }

    method PutOnFree(entry: FileBuffer)
      requires FreedBut(entry) && entry in live && entry.keep && entry.used == 0
      modifies `freeHead, `freeList, live`freeNext, live`freePrev
      ensures Freed() && freeList == old(freeList) + [entry]
    {
      hide Hash, ChainOk, Hashed, IsRing;
      freeHead := InsertList(freeHead, entry, freeList);
      freeList := freeList + [entry];
    }

    method Discard(entry: FileBuffer)
      requires Hashed(entry) && entry in live && !entry.keep && FreedBut(entry) && count == |live| <= maxBuffers
      modifies `count, `live
      ensures Valid() && live == old(live) - {entry}
    {
      hide Hash, IsRing, ChainOk, Hashed;
      live := live - {entry};
      count := count - 1;
      FewerLive(entry);
    }

    /** A buffer that is in no chain can go. */
    twostate lemma FewerLive(entry: FileBuffer)
      requires old(Hashed(entry)) && live == old(live) - {entry} && clock == old(clock)
      requires forall h :: 0 <= h < table.Length ==> table[h] == old(table[h])
      requires forall b :: b in live ==> b.keep == old(b.keep) && b.index == old(b.index) && b.stamp == old(b.stamp)
      ensures Hashed(null)
    {
      hide Hash;
      forall h | 0 <= h < BUCKETS ensures ChainOk(table[h], h, null) { assert old(ChainOk(table[h], h, entry)); }
    }
  }
}
