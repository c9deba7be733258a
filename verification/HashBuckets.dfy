/** The buckets of the fakeroot daemon's hash table, as values. */
module HashBuckets {
  import opened FakeStats
  import opened Pieces

  const HASH_TABLE_SIZE: nat := 10009
  const HASH_DEV_MULTIPLIER: nat := 8328

  /** data_hash_val, in 64-bit unsigned arithmetic. */
  function Hash(dev: nat, ino: nat): (h: nat)
    ensures h < HASH_TABLE_SIZE
  {
    (dev * HASH_DEV_MULTIPLIER + ino) % 0x1_0000_0000_0000_0000 % HASH_TABLE_SIZE
  }

  datatype Record = Record(st: FakeStat, remote: nat)

  function RecordKey(r: Record): Key {
    KeyOf(r.st, r.remote)
  }

  function Bucket(k: Key): (h: nat)
    ensures h < HASH_TABLE_SIZE
  {
    Hash(k.dev, k.ino)
  }

  predicate KeysDiffer(b: seq<Record>) {
    forall i, j :: 0 <= i < j < |b| ==> RecordKey(b[i]) != RecordKey(b[j])
  }

  predicate HasKey(b: seq<Record>, k: Key) {
    exists j :: 0 <= j < |b| && RecordKey(b[j]) == k
  }

  /** Every record of bucket i belongs there and says what the map says. */
  ghost predicate BucketOk(b: seq<Record>, i: nat, db: Db) {
    && KeysDiffer(b)
    && forall j :: 0 <= j < |b| ==>
         Bucket(RecordKey(b[j])) == i && RecordKey(b[j]) in db && db[RecordKey(b[j])] == b[j].st
  }

  /** The buckets hold the map: each key once, in the bucket it hashes to. */
  ghost predicate Refines(bs: seq<seq<Record>>, db: Db) {
    && |bs| == HASH_TABLE_SIZE
    && (forall i :: 0 <= i < |bs| ==> BucketOk(bs[i], i, db))
    && (forall k :: k in db ==> HasKey(bs[Bucket(k)], k))
  }

  lemma HoldsKey(bs: seq<seq<Record>>, db: Db, k: Key)
    requires Refines(bs, db)
    ensures HasKey(bs[Bucket(k)], k) <==> k in db
  {
    hide Bucket;
    assert BucketOk(bs[Bucket(k)], Bucket(k), db);
  }

  lemma SaysWhatMapSays(bs: seq<seq<Record>>, db: Db, i: nat, j: nat)
    requires Refines(bs, db) && i < |bs| && j < |bs[i]|
    ensures Bucket(RecordKey(bs[i][j])) == i && RecordKey(bs[i][j]) in db && db[RecordKey(bs[i][j])] == bs[i][j].st
  {
    hide Bucket;
    assert BucketOk(bs[i], i, db);
  }

  /** The two maps agree on every key but k. */
  ghost predicate SameBut(db: Db, more: Db, k: Key) {
    forall q :: q != k ==> (q in more <==> q in db) && (q in db ==> q in more && more[q] == db[q])
  }

  lemma BucketAside(b: seq<Record>, i: nat, db: Db, k: Key, more: Db)
    requires BucketOk(b, i, db) && Bucket(k) != i && SameBut(db, more, k)
    ensures BucketOk(b, i, more)
  {
    hide Bucket;
  }

  lemma OneBucketChanged(bs: seq<seq<Record>>, db: Db, k: Key, b: seq<Record>, more: Db)
    requires Refines(bs, db) && BucketOk(b, Bucket(k), more)
    requires SameBut(db, more, k)
    requires forall q :: q in more && Bucket(q) == Bucket(k) ==> HasKey(b, q)
    ensures Refines(bs[Bucket(k) := b], more)
  {
    hide Bucket, HasKey, BucketOk;
    var cs, h := bs[Bucket(k) := b], Bucket(k);
    forall i | 0 <= i < |cs| ensures BucketOk(cs[i], i, more) {
      if i != h {
        BucketAside(bs[i], i, db, k, more);
      }
    }
    forall q | q in more ensures HasKey(cs[Bucket(q)], q) {
      if Bucket(q) != h { assert q in db && HasKey(bs[Bucket(q)], q); }
    }
  }

  lemma Appended(bs: seq<seq<Record>>, db: Db, r: Record)
    requires Refines(bs, db) && RecordKey(r) !in db
    ensures var k := RecordKey(r); Refines(bs[Bucket(k) := bs[Bucket(k)] + [r]], db[k := r.st])
  {
    hide Bucket;
    var k := RecordKey(r);
    var b, c, more := bs[Bucket(k)], bs[Bucket(k)] + [r], db[RecordKey(r) := r.st];
    assert BucketOk(b, Bucket(k), db);
    assert BucketOk(c, Bucket(k), more);
    forall q | q in more && Bucket(q) == Bucket(k) ensures HasKey(c, q) {
      if q == k {
        assert RecordKey(c[|b|]) == q;
      } else {
        assert HasKey(b, q);
        var j :| 0 <= j < |b| && RecordKey(b[j]) == q;
        assert RecordKey(c[j]) == q;
      }
    }
    OneBucketChanged(bs, db, k, c, more);
  }

  lemma Overwritten(bs: seq<seq<Record>>, db: Db, j: nat, r: Record)
    requires Refines(bs, db) && j < |bs[Bucket(RecordKey(r))]| && RecordKey(bs[Bucket(RecordKey(r))][j]) == RecordKey(r)
    ensures var k := RecordKey(r); Refines(bs[Bucket(k) := bs[Bucket(k)][j := r]], db[k := r.st])
  {
    hide Bucket;
    var k := RecordKey(r);
    var b, c, more := bs[Bucket(k)], bs[Bucket(k)][j := r], db[RecordKey(r) := r.st];
    assert BucketOk(b, Bucket(k), db);
    assert BucketOk(c, Bucket(k), more);
    forall q | q in more && Bucket(q) == Bucket(k) ensures HasKey(c, q) {
      assert q in db && HasKey(b, q);
      var i :| 0 <= i < |b| && RecordKey(b[i]) == q;
      assert RecordKey(c[i]) == q;
    }
    OneBucketChanged(bs, db, k, c, more);
  }

  lemma Erased(bs: seq<seq<Record>>, db: Db, k: Key, j: nat)
    requires Refines(bs, db) && j < |bs[Bucket(k)]| && RecordKey(bs[Bucket(k)][j]) == k
    ensures Refines(bs[Bucket(k) := bs[Bucket(k)][..j] + bs[Bucket(k)][j + 1..]], db - {k})
  {
    hide Bucket;
    var b, c, less := bs[Bucket(k)], bs[Bucket(k)][..j] + bs[Bucket(k)][j + 1..], db - {k};
    assert BucketOk(b, Bucket(k), db);
    ErasedBucket(b, Bucket(k), db, k, j);
    forall q | q in less && Bucket(q) == Bucket(k) ensures HasKey(c, q) {
      assert HasKey(b, q);
      var i :| 0 <= i < |b| && RecordKey(b[i]) == q;
      assert RecordKey(c[if i < j then i else i - 1]) == q;
    }
    OneBucketChanged(bs, db, k, c, less);
  }

  lemma ErasedBucket(b: seq<Record>, i: nat, db: Db, k: Key, j: nat)
    requires BucketOk(b, i, db) && j < |b| && RecordKey(b[j]) == k
    ensures BucketOk(b[..j] + b[j + 1..], i, db - {k})
  {
    hide Bucket;
    var c := b[..j] + b[j + 1..];
    assert forall m :: 0 <= m < |c| ==> c[m] == b[if m < j then m else m + 1];
  }

  // ----- All records, bucket after bucket

  function KeySet(s: seq<Record>): set<Key> {
    set r | r in s :: RecordKey(r)
  }

  /** No key comes twice. */
  lemma FlatKeysDiffer(bs: seq<seq<Record>>, db: Db)
    requires Refines(bs, db)
    ensures KeysDiffer(Flat(bs))
  {
    hide Flat, Bucket, BucketOk;
    var s := Flat(bs);
    forall p, q | 0 <= p < q < |s| ensures RecordKey(s[p]) != RecordKey(s[q]) {
      var i, j := Locate(bs, p);
      var k, m := Locate(bs, q);
      SaysWhatMapSays(bs, db, i, j);
      SaysWhatMapSays(bs, db, k, m);
      if i == k { BucketKeysDiffer(bs[i], i, db, j, m); }
    }
  }

  lemma BucketKeysDiffer(b: seq<Record>, i: nat, db: Db, j: nat, m: nat)
    requires BucketOk(b, i, db) && j < |b| && m < |b| && j != m
    ensures RecordKey(b[j]) != RecordKey(b[m])
  {
  }

  lemma FlatKeys(bs: seq<seq<Record>>, db: Db)
    requires Refines(bs, db)
    ensures KeySet(Flat(bs)) == db.Keys
    ensures forall r :: r in Flat(bs) ==> RecordKey(r) in db && db[RecordKey(r)] == r.st
  {
    hide Flat, Bucket, BucketOk;
    var s := Flat(bs);
    forall r | r in s ensures RecordKey(r) in db && db[RecordKey(r)] == r.st {
      var p :| 0 <= p < |s| && s[p] == r;
      var i, j := Locate(bs, p);
      SaysWhatMapSays(bs, db, i, j);
    }
    forall k | k in db ensures k in KeySet(s) {
      var h := Bucket(k);
      var j :| 0 <= j < |bs[h]| && RecordKey(bs[h][j]) == k;
      PieceAt(bs, h);
      assert s[Start(bs, h)..Start(bs, h + 1)][j] == s[Start(bs, h) + j];
      assert bs[h][j] in s;
    }
  }

  lemma {:induction false} AsManyKeys(s: seq<Record>)
    requires KeysDiffer(s)
    ensures |KeySet(s)| == |s|
  {
    if s != [] {
      var n := |s| - 1;
      AsManyKeys(s[..n]);
      assert KeySet(s) == KeySet(s[..n]) + {RecordKey(s[n])};
    }
  }

  /** There are as many records as known files. */
  lemma FlatSize(bs: seq<seq<Record>>, db: Db)
    requires Refines(bs, db)
    ensures |Flat(bs)| == |db|
  {
    hide Flat, Refines;
    FlatKeysDiffer(bs, db);
    FlatKeys(bs, db);
    AsManyKeys(Flat(bs));
  }
}
