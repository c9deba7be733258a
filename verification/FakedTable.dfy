/** The hash table of the fakeroot daemon: chains of nodes behind an array of heads. */
module FakedTable {
  import opened FakeStats
  import opened HashBuckets
  import opened Pieces
  import opened Sequences

  class DataNode {
    var next: DataNode?
    var buf: FakeStat
    var remote: nat

    constructor (buf: FakeStat, remote: nat)
      ensures this.next == null && this.buf == buf && this.remote == remote
    {
      this.next, this.buf, this.remote := null, buf, remote;
    }
  }

  /** The node chain from position j on starts at n. */
  ghost predicate StartsAt(n: DataNode?, chain: seq<DataNode>, j: nat) {
    j <= |chain| && n == if j < |chain| then chain[j] else null
  }

  /** The chain behind head has these nodes, and they hold these records. */
  ghost predicate Chained(head: DataNode?, chain: seq<DataNode>, b: seq<Record>)
    reads chain
  {
    && StartsAt(head, chain, 0) && |chain| == |b|
    && forall j :: 0 <= j < |chain| ==>
         StartsAt(chain[j].next, chain, j + 1) && Record(chain[j].buf, chain[j].remote) == b[j]
  }

  class DataTable {
    var heads: array<DataNode?>
    ghost var chains: seq<seq<DataNode>>
    ghost var buckets: seq<seq<Record>>
    ghost var db: Db
    ghost var repr: set<DataNode>

    ghost predicate Shaped()
      reads this
    {
      && heads.Length == |chains| == |buckets| == HASH_TABLE_SIZE
      && forall i, j :: 0 <= i < |chains| && 0 <= j < |chains[i]| ==> chains[i][j] in repr
    }

    /** The table stands for the map db. */
    ghost predicate Valid()
      reads this, heads, repr
    {
      && Shaped()
      && (forall i :: 0 <= i < |chains| ==> Chained(heads[i], chains[i], buckets[i]))
      && Refines(buckets, db)
    }

    constructor ()
      ensures Valid() && db == map[] && fresh(heads) && fresh(repr)
    {
      heads := new DataNode?[HASH_TABLE_SIZE](_ => null);
      chains := seq(HASH_TABLE_SIZE, _ => []);
      buckets := seq(HASH_TABLE_SIZE, _ => []);
      db, repr := map[], {};
    }

    /** data_find. */
    method DataFind(st: FakeStat, remote: nat) returns (n: DataNode?, ghost j: nat)
      requires Valid()
      ensures n != null <==> KeyOf(st, remote) in db
      ensures n != null ==>
        j < |chains[Bucket(KeyOf(st, remote))]| && n == chains[Bucket(KeyOf(st, remote))][j] && n in repr
      ensures n != null ==> KeyOf(n.buf, n.remote) == KeyOf(st, remote) && n.buf == db[KeyOf(st, remote)]
    {
      var h := Hash(st.dev, st.ino);
      ghost var k := KeyOf(st, remote);
      ghost var chain, b := chains[h], buckets[h];
      HoldsKey(buckets, db, k);
      hide Hash, Refines;
      n, j := heads[h], 0;
      assert Chained(heads[h], chain, b);
      while n != null && !(n.buf.dev == st.dev && n.buf.ino == st.ino && n.remote == remote)
        invariant StartsAt(n, chain, j)
        invariant forall i :: 0 <= i < j ==> RecordKey(b[i]) != k
        decreases |chain| - j
      {
        n, j := n.next, j + 1;
      }
      if n != null {
        assert RecordKey(b[j]) == k;
        SaysWhatMapSays(buckets, db, h, j);
      }
    }

    /** No node is in two places. */
    lemma NodeOnce(h: nat, j: nat, i: nat, m: nat)
      requires Valid() && h < |chains| && j < |chains[h]| && i < |chains| && m < |chains[i]|
      requires chains[h][j] == chains[i][m]
      ensures h == i && j == m
    {
      hide BucketOk, Bucket;
      assert Chained(heads[h], chains[h], buckets[h]) && Chained(heads[i], chains[i], buckets[i]);
      SaysWhatMapSays(buckets, db, h, j);
      SaysWhatMapSays(buckets, db, i, m);
      KeyOnce(buckets[h], h, db, j, m);
    }

    lemma OnlyHere(h: nat, j: nat)
      requires Valid() && h < |chains| && j < |chains[h]|
      ensures forall i :: 0 <= i < |chains| && i != h ==> chains[h][j] !in chains[i]
      ensures forall m :: 0 <= m < |chains[h]| && m != j ==> chains[h][m] != chains[h][j]
    {
      hide Valid;
      forall i | 0 <= i < |chains| && i != h ensures chains[h][j] !in chains[i] {
        forall m | 0 <= m < |chains[i]| ensures chains[i][m] != chains[h][j] {
          if chains[i][m] == chains[h][j] { NodeOnce(h, j, i, m); assert false; }
        }
      }
      forall m | 0 <= m < |chains[h]| && m != j ensures chains[h][m] != chains[h][j] {
        if chains[h][m] == chains[h][j] { NodeOnce(h, j, h, m); assert false; }
      }
    }

    /** A status is changed in its node. */
    method Overwrite(n: DataNode, st: FakeStat, ghost j: nat)
      requires Valid() && j < |chains[Bucket(KeyOf(st, n.remote))]| && n == chains[Bucket(KeyOf(st, n.remote))][j]
      requires KeyOf(st, n.remote) == KeyOf(n.buf, n.remote)
      modifies `buckets, `db, n
      ensures Valid() && db == old(db)[KeyOf(st, n.remote) := st] && n.remote == old(n.remote)
    {
      hide Refines, Bucket, StartsAt;
      ghost var k := KeyOf(st, n.remote);
      ghost var h := Bucket(k);
      ghost var r := Record(st, n.remote);
      OnlyHere(h, j);
      assert Chained(heads[h], chains[h], buckets[h]);
      Overwritten(buckets, db, j, r);
      n.buf := st;
      buckets := buckets[h := buckets[h][j := r]];
      db := db[k := st];
      assert Chained(heads[h], chains[h], buckets[h]);
    }

    /** A node is hung behind the last one of its chain, or behind the head. */
    method LinkLast(n: DataNode, last: DataNode?, h: nat)
      requires Valid() && h < |chains| && n !in repr && n.next == null
      requires last == null <==> chains[h] == []
      requires last != null ==> last == chains[h][|chains[h]| - 1] && last in repr
      modifies heads, repr
      ensures forall i :: 0 <= i < |chains| && i != h ==> Chained(heads[i], chains[i], buckets[i])
      ensures Chained(heads[h], chains[h] + [n], buckets[h] + [Record(n.buf, n.remote)])
    {
      hide Refines;
      ghost var chain := chains[h];
      assert Chained(heads[h], chain, buckets[h]);
      if last != null {
        OnlyHere(h, |chain| - 1);
        last.next := n;
      } else {
        heads[h] := n;
      }
    }

    method Append(n: DataNode, last: DataNode?, ghost k: Key)
      requires Valid() && k == KeyOf(n.buf, n.remote) && k !in db && n !in repr && n.next == null
      requires last == null <==> chains[Bucket(k)] == []
      requires last != null ==> last == chains[Bucket(k)][|chains[Bucket(k)]| - 1] && last in repr
      modifies this, heads, repr
      ensures Valid() && db == old(db)[k := n.buf] && repr == old(repr) + {n} && heads == old(heads)
    {
      hide Refines, Chained;
      var h := Hash(n.buf.dev, n.buf.ino);
      ghost var r := Record(n.buf, n.remote);
      Appended(buckets, db, r);
      hide Hash;
      LinkLast(n, last, h);
      chains := chains[h := chains[h] + [n]];
      buckets := buckets[h := buckets[h] + [r]];
      db := db[k := n.buf];
      repr := repr + {n};
    }

    /** data_insert: the status replaces the one known, or a node is added for it. */
    method DataInsert(st: FakeStat, remote: nat)
      requires Valid()
      modifies this, heads, repr
      ensures Valid() && db == old(db)[KeyOf(st, remote) := st] && fresh(repr - old(repr)) && heads == old(heads)
    {
      hide Chained, Refines, Bucket;
      var n, last, j := FindWithLast(st, remote);
      if n == null {
        n := new DataNode(st, remote);
        Append(n, last, KeyOf(st, remote));
      } else {
        Overwrite(n, st, j);
      }
    }

    /** The loop of data_insert. */
    method FindWithLast(st: FakeStat, remote: nat) returns (n: DataNode?, last: DataNode?, ghost j: nat)
      requires Valid()
      ensures var h := Bucket(KeyOf(st, remote));
        && j <= |chains[h]| && (n == null <==> j == |chains[h]|) && (n == null <==> KeyOf(st, remote) !in db)
        && (n != null ==>
              n == chains[h][j] && n in repr && n.remote == remote && KeyOf(n.buf, remote) == KeyOf(st, remote))
        && (last == null <==> j == 0) && (last != null ==> last == chains[h][j - 1] && last in repr)
    {
      var h := Hash(st.dev, st.ino);
      ghost var k := KeyOf(st, remote);
      ghost var chain, b := chains[h], buckets[h];
      HoldsKey(buckets, db, k);
      hide Hash, Refines;
      n, last, j := heads[h], null, 0;
      assert Chained(heads[h], chain, b);
      while n != null && !(n.buf.dev == st.dev && n.buf.ino == st.ino && n.remote == remote)
        invariant StartsAt(n, chain, j) && (last == null <==> j == 0) && (j > 0 ==> last == chain[j - 1])
        invariant forall i :: 0 <= i < j ==> RecordKey(b[i]) != k
        decreases |chain| - j
      {
        n, last, j := n.next, n, j + 1;
      }
      if n != null {
        assert RecordKey(b[j]) == k;
      }
    }

    /** The loop of data_erase. */
    method FindNode(pos: DataNode, h: nat, ghost j: nat) returns (prev: DataNode?)
      requires Valid() && h < |chains| && j < |chains[h]| && pos == chains[h][j]
      ensures prev == null <==> j == 0
      ensures prev != null ==> prev == chains[h][j - 1] && prev in repr
    {
      hide Refines;
      ghost var chain, i := chains[h], 0;
      OnlyHere(h, j);
      assert Chained(heads[h], chain, buckets[h]);
      var n := heads[h];
      prev := null;
      while n != pos
        invariant i <= j && n == chain[i] && (prev == null <==> i == 0) && (i > 0 ==> prev == chain[i - 1])
        decreases j - i
      {
        prev, n, i := n, n.next, i + 1;
      }
    }

    /** The links around the node are closed. */
    method Unlink(pos: DataNode, h: nat, prev: DataNode?, ghost j: nat) returns (next: DataNode?)
      requires Valid() && h < |chains| && j < |chains[h]| && pos == chains[h][j]
      requires prev == null <==> j == 0
      requires prev != null ==> prev == chains[h][j - 1] && prev in repr
      modifies heads, repr
      ensures forall i :: 0 <= i < |chains| && i != h ==> Chained(heads[i], chains[i], buckets[i])
      ensures Chained(heads[h], Without(chains[h], j), Without(buckets[h], j)) && StartsAt(next, chains[h], j + 1)
    {
      hide Refines;
      assert Chained(heads[h], chains[h], buckets[h]);
      OnlyHere(h, 0);
      next := pos.next;
      if heads[h] == pos {
        FirstRemoved(heads[h], chains[h], buckets[h]);
        hide Chained;
        heads[h] := next;
      } else {
        OnlyHere(h, j - 1);
        hide Chained;
        prev.next := next;
        LaterRemoved(heads[h], chains[h], buckets[h], j);
      }
    }

    /** data_erase: the node leaves its chain, and the one behind it is returned. */
    method DataErase(pos: DataNode, ghost j: nat) returns (next: DataNode?)
      requires Valid() && j < |chains[Bucket(KeyOf(pos.buf, pos.remote))]|
      requires pos == chains[Bucket(KeyOf(pos.buf, pos.remote))][j]
      modifies this, heads, repr
      ensures Valid() && db == old(db) - {old(KeyOf(pos.buf, pos.remote))} && repr == old(repr) && heads == old(heads)
      ensures StartsAt(next, old(chains[Bucket(KeyOf(pos.buf, pos.remote))]), j + 1)
    {
      hide Refines, StartsAt;
      var h := Hash(pos.buf.dev, pos.buf.ino);
      ghost var k := KeyOf(pos.buf, pos.remote);
      assert Chained(heads[h], chains[h], buckets[h]);
      var prev := FindNode(pos, h, j);
      Erased(buckets, db, k, j);
      hide Hash, Chained;
      next := Unlink(pos, h, prev, j);
      chains := chains[h := Without(chains[h], j)];
      buckets := buckets[h := Without(buckets[h], j)];
      db := db - {k};
    }

    /** data_node_next: going from null or a node, the next one of all nodes in the order of the chains, or null. */
    method DataNodeNext(n: DataNode?, ghost i0: nat, ghost j0: nat) returns (r: DataNode?, ghost i: nat, ghost j: nat)
      requires Valid() && (n != null ==> i0 < |chains| && j0 < |chains[i0]| && n == chains[i0][j0])
      ensures var p := if n == null then 0 else Start(chains, i0) + j0 + 1;
        && p <= |Flat(chains)| && r == (if p < |Flat(chains)| then Flat(chains)[p] else null)
        && (r != null ==> i < |chains| && j < |chains[i]| && r == chains[i][j] && p == Start(chains, i) + j)
    {
      hide Flat, Start, Chained, Refines;
      r, i, j := NextNode(n, i0, j0);
      if r != null { InFlat(chains, i, j); }
    }

    /** The node behind n in its chain, or the first of the next chain that has one. */
    method NextNode(n: DataNode?, ghost i0: nat, ghost j0: nat) returns (r: DataNode?, ghost i: nat, ghost j: nat)
      requires Valid() && (n != null ==> i0 < |chains| && j0 < |chains[i0]| && n == chains[i0][j0])
      ensures var p := if n == null then 0 else Start(chains, i0) + j0 + 1;
        && (r == null ==> p == |Flat(chains)|)
        && (r != null ==> i < |chains| && j < |chains[i]| && r == chains[i][j] && p == Start(chains, i) + j)
    {
      hide Flat, Refines, Start, BucketOk;
      StartEnds(chains);
      if n != null {
        assert Chained(heads[i0], chains[i0], buckets[i0]);
        PieceAt(chains, i0);
        SaysWhatMapSays(buckets, db, i0, j0);
      }
      if n != null && n.next != null {
        return n.next, i0, j0 + 1;
      }
      var at := if n == null then 0 else Hash(n.buf.dev, n.buf.ino) + 1;
      ghost var p := if n == null then 0 else Start(chains, i0) + j0 + 1;
      hide Hash;
      while at < HASH_TABLE_SIZE && heads[at] == null
        invariant at <= HASH_TABLE_SIZE && Start(chains, at) == p
      {
        assert Chained(heads[at], chains[at], buckets[at]);
        PieceAt(chains, at);
        at := at + 1;
      }
      if at < HASH_TABLE_SIZE {
        assert Chained(heads[at], chains[at], buckets[at]);
        r, i, j := heads[at], at, 0;
      } else {
        r, i, j := null, 0, 0;
      }
    }

    lemma SameSizes()
      requires Valid()
      ensures forall i :: 0 <= i < |chains| ==> |chains[i]| == |buckets[i]|
    {
      hide Refines;
      forall i | 0 <= i < |chains| ensures |chains[i]| == |buckets[i]| {
        assert Chained(heads[i], chains[i], buckets[i]);
      }
    }

    lemma RecordAt(i: nat, j: nat)
      requires Valid() && i < |chains| && j < |chains[i]|
      ensures
        var p := Start(chains, i) + j;
        p < |Flat(buckets)| && Flat(buckets)[p] == Record(chains[i][j].buf, chains[i][j].remote)
    {
      hide Refines, Flat, Start;
      SameSizes();
      SameStart(chains, buckets, i);
      PieceAt(buckets, i);
      assert Chained(heads[i], chains[i], buckets[i]);
      assert Flat(buckets)[Start(buckets, i)..Start(buckets, i + 1)][j] == Flat(buckets)[Start(buckets, i) + j];
    }

    /** The walk of save_database and debugdata: every known file once, with the status known for it. */
    method Entries() returns (out: seq<Record>)
      requires Valid()
      ensures KeysDiffer(out) && KeySet(out) == db.Keys && |out| == |db|
      ensures forall r :: r in out ==> db[RecordKey(r)] == r.st
    {
      hide Refines, Flat, Start, Chained;
      SameSizes();
      SameStart(chains, buckets, |chains|);
      StartEnds(chains);
      StartEnds(buckets);
      out := [];
      var n: DataNode?;
      ghost var i: nat, j: nat;
      n, i, j := DataNodeNext(null, 0, 0);
      while n != null
        invariant n != null ==> i < |chains| && j < |chains[i]| && n == chains[i][j] && |out| == Start(chains, i) + j
        invariant n == null ==> |out| == |Flat(chains)|
        invariant |out| <= |Flat(buckets)| && out == Flat(buckets)[..|out|]
        decreases |Flat(buckets)| - |out|
      {
        RecordAt(i, j);
        out := out + [Record(n.buf, n.remote)];
        n, i, j := DataNodeNext(n, i, j);
      }
      FlatKeysDiffer(buckets, db);
      FlatKeys(buckets, db);
      FlatSize(buckets, db);
    }

    /** data_size. */
    method DataSize() returns (size: nat)
      requires Valid()
      ensures size == |db|
    {
      hide Refines, Flat, Start;
      SameSizes();
      SameStart(chains, buckets, |chains|);
      StartEnds(chains);
      StartEnds(buckets);
      FlatSize(buckets, db);
      size := 0;
      for at := 0 to HASH_TABLE_SIZE
        invariant size == Start(chains, at)
      {
        PieceAt(chains, at);
        assert Chained(heads[at], chains[at], buckets[at]);
        var n := heads[at];
        ghost var j := 0;
        while n != null
          invariant StartsAt(n, chains[at], j) && size == Start(chains, at) + j
          decreases |chains[at]| - j
        {
          size, n, j := size + 1, n.next, j + 1;
        }
      }
    }
  }

  lemma InFlat(chains: seq<seq<DataNode>>, i: nat, j: nat)
    requires i < |chains| && j < |chains[i]|
    ensures Start(chains, i) + j < |Flat(chains)| && Flat(chains)[Start(chains, i) + j] == chains[i][j]
  {
    hide Flat, Start;
    PieceAt(chains, i);
    assert Flat(chains)[Start(chains, i)..Start(chains, i + 1)][j] == Flat(chains)[Start(chains, i) + j];
  }

  lemma FirstRemoved(head: DataNode?, chain: seq<DataNode>, b: seq<Record>)
    requires Chained(head, chain, b) && chain != []
    ensures Chained(chain[0].next, Without(chain, 0), Without(b, 0))
  {
  }

  /** The chain without node j, when the node before it already points past it. */
  lemma LaterRemoved(head: DataNode?, chain: seq<DataNode>, b: seq<Record>, j: nat)
    requires 0 < j < |chain| == |b| && StartsAt(head, chain, 0) && StartsAt(chain[j - 1].next, chain, j + 1)
    requires forall m :: 0 <= m < |chain| ==> Record(chain[m].buf, chain[m].remote) == b[m]
    requires forall m :: 0 <= m < |chain| && m != j - 1 ==> StartsAt(chain[m].next, chain, m + 1)
    ensures Chained(head, Without(chain, j), Without(b, j))
  {
    var less := Without(chain, j);
    forall m | 0 <= m < |less|
      ensures StartsAt(less[m].next, less, m + 1) && Record(less[m].buf, less[m].remote) == Without(b, j)[m]
    {
      assert less[m] == chain[if m < j then m else m + 1];
    }
  }

  lemma KeyOnce(b: seq<Record>, i: nat, db: Db, j: nat, m: nat)
    requires BucketOk(b, i, db) && j < |b| && m < |b| && RecordKey(b[j]) == RecordKey(b[m])
    ensures j == m
  {
  }
}
