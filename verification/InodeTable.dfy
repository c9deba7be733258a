/** The squashfs inode table: get_inode and write_inodes fill it, scan_inode_table reads it.

    Records are appended to an uncompressed cache; full blocks move from its front
    to the compressed table. A reference is the table size at the time the record was
    appended together with the record's place in the cache. */
module InodeTable {
  import opened Bytes
  import opened MetadataBlocks
  import opened MetadataStream
  import opened Pieces

  class InodeTable {
    const codec: Codec
    const noI: bool
    var table: seq<byte>
    var cache: seq<byte>
    ghost var blocks: seq<seq<byte>>
    ghost var records: seq<seq<byte>>
    ghost var refs: seq<Ref>

    ghost predicate Valid()
      reads this
    {
      IsStream(codec, noI, table, cache, blocks, records, refs)
    }

    constructor (codec: Codec, noI: bool)
      ensures Valid() && records == [] && refs == []
      ensures this.codec == codec && this.noI == noI
    {
      this.codec, this.noI := codec, noI;
      table, cache, blocks, records, refs := [], [], [], [], [];
    }

    method FlushBlock(n: nat)
      requires Valid() && 1 <= n <= METADATA_SIZE && n <= |cache|
      modifies this
      ensures Valid() && cache == old(cache)[n..] && blocks == old(blocks) + [old(cache)[..n]]
      ensures records == old(records) && refs == old(refs)
    {
      hide IsStream, Stored;
      Flushed(codec, noI, table, cache, blocks, records, refs, n);
      ghost var b := cache[..n];
      table := table + Stored(codec, cache[..n], noI);
      cache := cache[n..];
      blocks := blocks + [b];
    }

    /** get_inode and MKINODE, with the record the caller then writes. */
    method GetInode(rec: seq<byte>) returns (block: nat, offset: nat)
      requires Valid()
      modifies this
      ensures Valid() && records == old(records) + [rec]
      ensures |refs| == |old(refs)| + 1 && refs[..|old(refs)|] == old(refs)
      ensures offset == refs[|old(refs)|].offset < METADATA_SIZE
      ensures refs[|old(refs)|].index <= |blocks| && block == StartOf(codec, noI, blocks, refs[|old(refs)|].index)
      ensures |old(blocks)| <= |blocks| && blocks[..|old(blocks)|] == old(blocks) && Full(blocks, |old(blocks)|)
    {
      hide Flat, Table, AllPlaced;
      while |cache| >= METADATA_SIZE
        invariant Valid() && records == old(records) && refs == old(refs)
        invariant |old(blocks)| <= |blocks| && blocks[..|old(blocks)|] == old(blocks) && Full(blocks, |old(blocks)|)
        decreases |cache|
      {
        FlushBlock(METADATA_SIZE);
      }
      Appended(codec, noI, table, cache, blocks, records, refs, rec);
      block, offset := |table|, |cache|;
      cache := cache + rec;
      records, refs := records + [rec], refs + [Ref(|blocks|, offset)];
    }

    /** write_inodes: what is left in the cache goes out as blocks, the last one short. */
    method WriteInodes()
      requires Valid()
      modifies this
      ensures Valid() && cache == [] && records == old(records) && refs == old(refs)
      ensures |old(blocks)| <= |blocks| && blocks[..|old(blocks)|] == old(blocks) && FullButLast(blocks, |old(blocks)|)
    {
      while |cache| > 0
        invariant Valid() && records == old(records) && refs == old(refs)
        invariant |old(blocks)| <= |blocks| && blocks[..|old(blocks)|] == old(blocks)
        invariant FullButLast(blocks, |old(blocks)|) && (cache != [] ==> Full(blocks, |old(blocks)|))
        decreases |cache|
      {
        FlushBlock(if |cache| > METADATA_SIZE then METADATA_SIZE else |cache|);
      }
    }

    /** With the table complete, the scan finds any record, as it does the root inode, by the two parts of its
        reference. */
    method ReadBack(block: nat, offset: nat, size: nat, ghost i: nat) returns (rec: seq<byte>)
      requires Valid() && cache == [] && RoundTrips(codec)
      requires i < |records| && |refs| == |records| && refs[i].index <= |blocks| && IsBlocks(blocks)
      requires block == StartOf(codec, noI, blocks, refs[i].index) && offset == refs[i].offset
      requires 1 <= size == |records[i]|
      ensures rec == records[i]
    {
      hide Flat, Table, RoundTrips, AllPlaced;
      assert Flat(blocks) + cache == Flat(blocks);
      ReferenceResolves(blocks, records, refs, i);
      var data, rootBlock := ScanInodeTable(codec, table, block, noI, blocks);
      rec := data[rootBlock + offset..][..size];
    }
  }

  /** The block loop of scan_inode_table: the whole table decompressed, and where the root's block starts in it. */
  method ScanInodeTable(codec: Codec, t: seq<byte>, rootStart: nat, ghost u: bool, ghost blocks: seq<seq<byte>>)
    returns (data: seq<byte>, rootBlock: nat)
    requires RoundTrips(codec) && IsBlocks(blocks) && t == Table(codec, u, blocks)
    ensures data == Flat(blocks)
    ensures forall j :: 0 <= j < |blocks| && StartOf(codec, u, blocks, j) == rootStart ==>
      rootBlock == |Flat(blocks[..j])|
  {
    hide Flat, Table, ReadBlock, RoundTrips;
    data, rootBlock := [], 0;
    var start := 0;
    ghost var j := 0;
    WholeTable(codec, u, blocks);
    StartEnds(blocks);
    while start < |t|
      invariant 0 <= j <= |blocks| && start == StartOf(codec, u, blocks, j)
      invariant data == Flat(blocks[..j])
      invariant forall i :: 0 <= i < j && StartOf(codec, u, blocks, i) == rootStart ==> rootBlock == |Flat(blocks[..i])|
      decreases |blocks| - j
    {
      if start == rootStart {
        rootBlock := |data|;
        forall i | 0 <= i < j ensures StartOf(codec, u, blocks, i) != rootStart { StartsGrow(codec, u, blocks, i, j); }
      }
      ReadNth(codec, u, blocks, j);
      var b := ReadBlock(codec, t, start);
      assert blocks[..j + 1] == blocks[..j] + [blocks[j]];
      FlatSnoc(blocks[..j], blocks[j]);
      data, start, j := data + b.data, b.next, j + 1;
    }
    if j < |blocks| { StartsGrow(codec, u, blocks, j, |blocks|); assert false; }
    assert blocks[..|blocks|] == blocks;
  }
}
