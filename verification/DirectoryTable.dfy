/** The squashfs directory table: write_dir appends directories and fills in their indexes,
    write_directories writes out the rest. */
module DirectoryTable {
  import opened Bytes
  import opened DirectoryFormat
  import opened DirectoryReader
  import opened DirectoryWriter
  import opened MetadataBlocks
  import opened MetadataStream
  import opened Pieces

  /** start is the offset of the block that position pos of the whole stream falls into. */
  ghost predicate BlockOf(codec: Codec, u: bool, blocks: seq<seq<byte>>, start: nat, pos: nat, m: nat)
    requires IsBlocks(blocks)
  {
    m <= |blocks| && start == StartOf(codec, u, blocks, m) && Start(blocks, m) <= pos < Start(blocks, m) + METADATA_SIZE
  }

  lemma BlockOfKept(codec: Codec, u: bool, blocks: seq<seq<byte>>, b: seq<byte>, start: nat, pos: nat, m: nat)
    requires IsBlocks(blocks) && 1 <= |b| <= METADATA_SIZE && BlockOf(codec, u, blocks, start, pos, m)
    ensures IsBlocks(blocks + [b]) && BlockOf(codec, u, blocks + [b], start, pos, m)
  {
    assert (blocks + [b])[..m] == blocks[..m];
  }

  /** Every start is the offset of the block its index entry's position falls into, pos being where the directory
      begins. */
  ghost predicate AllBlocks(codec: Codec, u: bool, blocks: seq<seq<byte>>, starts: seq<nat>, index: seq<Index>,
                            pos: nat, ms: seq<nat>)
    requires IsBlocks(blocks)
  {
    && |starts| == |ms| && |starts| <= |index|
    && forall i :: 0 <= i < |starts| ==> BlockOf(codec, u, blocks, starts[i], pos + index[i].index, ms[i])
  }

  lemma AllBlocksKept(codec: Codec, u: bool, blocks: seq<seq<byte>>, b: seq<byte>, starts: seq<nat>, index: seq<Index>,
                      pos: nat, ms: seq<nat>)
    requires IsBlocks(blocks) && 1 <= |b| <= METADATA_SIZE && AllBlocks(codec, u, blocks, starts, index, pos, ms)
    ensures IsBlocks(blocks + [b]) && AllBlocks(codec, u, blocks + [b], starts, index, pos, ms)
  {
    hide BlockOf;
    forall i | 0 <= i < |starts| ensures BlockOf(codec, u, blocks + [b], starts[i], pos + index[i].index, ms[i]) {
      BlockOfKept(codec, u, blocks, b, starts[i], pos + index[i].index, ms[i]);
    }
  }

  ghost predicate Ascending(index: seq<Index>, size: nat) {
    && (forall i :: 0 <= i < |index| ==> index[i].index < size)
    && (forall i :: 0 <= i < |index| - 1 ==> index[i].index <= index[i + 1].index)
  }

  /** The inner loop of write_dir: the entries that fall into the block now being filled. */
  method AssignStarts(codec: Codec, index: seq<Index>, limit: int, start: nat, starts0: seq<nat>,
                      ghost u: bool, ghost blocks: seq<seq<byte>>, ghost pos: nat, ghost size: nat, ghost ms0: seq<nat>)
    returns (starts: seq<nat>, ghost ms: seq<nat>)
    requires IsBlocks(blocks) && Ascending(index, size) && start == StartOf(codec, u, blocks, |blocks|)
    requires AllBlocks(codec, u, blocks, starts0, index, pos, ms0)
    requires pos + limit == Start(blocks, |blocks|) + METADATA_SIZE
    requires |starts0| < |index| ==> Start(blocks, |blocks|) <= pos + index[|starts0|].index
    ensures AllBlocks(codec, u, blocks, starts, index, pos, ms)
    ensures |starts| < |index| ==> limit <= index[|starts|].index
  {
    hide Start, StartOf;
    starts, ms := starts0, ms0;
    while |starts| < |index| && index[|starts|].index < limit
      invariant AllBlocks(codec, u, blocks, starts, index, pos, ms)
      invariant |starts| < |index| ==> Start(blocks, |blocks|) <= pos + index[|starts|].index
      decreases |index| - |starts|
    {
      assert BlockOf(codec, u, blocks, start, pos + index[|starts|].index, |blocks|);
      starts, ms := starts + [start], ms + [|blocks|];
    }
  }

  class DirectoryTable {
    const codec: Codec
    const noI: bool
    var table: seq<byte>
    var cache: seq<byte>
    ghost var blocks: seq<seq<byte>>
    ghost var records: seq<seq<byte>>
    ghost var refs: seq<Ref>

    ghost predicate Valid()
      reads this
    {
      IsStream(codec, noI, table, cache, blocks, records, refs)
    }

    constructor (codec: Codec, noI: bool)
      ensures Valid() && records == [] && refs == [] && cache == []
      ensures this.codec == codec && this.noI == noI
    {
      this.codec, this.noI := codec, noI;
      table, cache, blocks, records, refs := [], [], [], [], [];
    }

    method FlushBlock(n: nat)
      requires Valid() && 1 <= n <= METADATA_SIZE && n <= |cache|
      modifies this
      ensures Valid() && cache == old(cache)[n..] && blocks == old(blocks) + [old(cache)[..n]]
      ensures records == old(records) && refs == old(refs)
    {
      hide IsStream, Stored;
      Flushed(codec, noI, table, cache, blocks, records, refs, n);
      ghost var b := cache[..n];
      table := table + Stored(codec, cache[..n], noI);
      cache := cache[n..];
      blocks := blocks + [b];
    }

    /** The body of write_dir: a finished directory goes to the end of the stream. */
    method AppendDir(buff: seq<byte>, index: seq<Index>)
      returns (block: nat, offset: nat, starts: seq<nat>, ghost ms: seq<nat>)
      requires Valid() && |cache| < METADATA_SIZE && Ascending(index, |buff|)
      modifies this
      ensures Valid() && |cache| < METADATA_SIZE && records == old(records) + [buff]
      ensures refs == old(refs) + [Ref(|old(blocks)|, offset)]
      ensures |old(blocks)| <= |blocks| && blocks[..|old(blocks)|] == old(blocks) && Full(blocks, |old(blocks)|)
      ensures block == StartOf(codec, noI, blocks, |old(blocks)|)
      ensures |starts| == |index|
      ensures AllBlocks(codec, noI, blocks, starts, index, Start(blocks, |old(blocks)|) + offset, ms)
    {
      hide IsStream, Start, StartOf, BlockOf;
      offset, block := |cache|, |table|;
      Appended(codec, noI, table, cache, blocks, records, refs, buff);
      cache := cache + buff;
      records, refs := records + [buff], refs + [Ref(|blocks|, offset)];
      ghost var blocks0, base := blocks, Start(blocks, |blocks|);
      var limit: int := METADATA_SIZE - offset;
      starts, ms := [], [];
      assert IsBlocks(blocks) by { StreamParts(codec, noI, table, cache, blocks, records, refs); }
      while true
        invariant Valid() && IsBlocks(blocks) && records == old(records) + [buff]
        invariant refs == old(refs) + [Ref(|blocks0|, offset)]
        invariant |blocks0| <= |blocks| && blocks[..|blocks0|] == blocks0 && Full(blocks, |blocks0|)
        invariant base + offset + limit == Start(blocks, |blocks|) + METADATA_SIZE
        invariant |cache| == |buff| + METADATA_SIZE - limit
        invariant AllBlocks(codec, noI, blocks, starts, index, base + offset, ms)
        invariant |starts| < |index| ==> Start(blocks, |blocks|) <= base + offset + index[|starts|].index
        decreases |cache|
      {
        StreamParts(codec, noI, table, cache, blocks, records, refs);
        starts, ms := AssignStarts(codec, index, limit, |table|, starts, noI, blocks, base + offset, |buff|, ms);
        limit := limit + METADATA_SIZE;
        if |cache| < METADATA_SIZE { break; }
        ghost var b := cache[..METADATA_SIZE];
        AllBlocksKept(codec, noI, blocks, b, starts, index, base + offset, ms);
        NextStart(blocks, b);
        FlushBlock(METADATA_SIZE);
      }
      SamePrefix(codec, noI, blocks0, blocks);
    }

    /** write_dir: the last header is filled in, then the directory and its index are written. */
    method WriteDir(dir: Directory) returns (block: nat, offset: nat, size: nat, starts: seq<nat>, ghost ms: seq<nat>)
      requires Valid() && |cache| < METADATA_SIZE && dir.Valid()
      modifies this, dir
      ensures AllFit(old(dir.Runs())) && size == |Flat(RunPieces(old(dir.Runs())))|
      ensures Valid() && |cache| < METADATA_SIZE && records == old(records) + [Flat(RunPieces(old(dir.Runs())))]
      ensures refs == old(refs) + [Ref(|old(blocks)|, offset)]
      ensures |old(blocks)| <= |blocks| && blocks[..|old(blocks)|] == old(blocks) && Full(blocks, |old(blocks)|)
      ensures block == StartOf(codec, noI, blocks, |old(blocks)|)
      ensures dir.index == old(dir.index) && |starts| == |dir.index|
      ensures AllBlocks(codec, noI, blocks, starts, dir.index, Start(blocks, |old(blocks)|) + offset, ms)
    {
      hide IsStream, Flat, Start, StartOf, AllPoint, Spaced, AllFit;
      ghost var rs := dir.Runs();
      IndexAscending(rs, dir.index, dir.at);
      if dir.headed {
        dir.FillHeader();
      } else {
        EmptyRuns();
      }
      size := |dir.buff|;
      block, offset, starts, ms := AppendDir(dir.buff, dir.index);
    }

    /** write_directories: the rest of the cache goes out. */
    method WriteDirectories()
      requires Valid()
      modifies this
      ensures Valid() && cache == [] && records == old(records) && refs == old(refs)
      ensures |old(blocks)| <= |blocks| && blocks[..|old(blocks)|] == old(blocks) && FullButLast(blocks, |old(blocks)|)
    {
      hide IsStream;
      while |cache| > 0
        invariant Valid() && records == old(records) && refs == old(refs)
        invariant |old(blocks)| <= |blocks| && blocks[..|old(blocks)|] == old(blocks)
        invariant FullButLast(blocks, |old(blocks)|) && (cache != [] ==> Full(blocks, |old(blocks)|))
        decreases |cache|
      {
        FlushBlock(if |cache| > METADATA_SIZE then METADATA_SIZE else |cache|);
      }
    }

    /** Any directory written, read back from its reference once the table is complete. */
    method ReadBack(block: nat, offset: nat, size: nat, ghost i: nat, ghost rs: seq<Run>) returns (es: seq<Entry>)
      requires Valid() && cache == [] && RoundTrips(codec)
      requires i < |records| && AllFit(rs) && records[i] == Flat(RunPieces(rs))
      requires |refs| == |records| && refs[i].index <= |blocks| && IsBlocks(blocks)
      requires block == StartOf(codec, noI, blocks, refs[i].index) && offset == refs[i].offset && size == |records[i]|
      ensures es == AllEntries(rs)
    {
      hide Flat, Table, RoundTrips, AllEntries, AllFit, AllPlaced;
      assert Flat(blocks) + cache == Flat(blocks);
      ReferenceResolves(blocks, records, refs, i);
      var all, _, _ := Readdir(codec, table, block, offset, size, noI, blocks, refs[i].index, rs);
      es := all;
    }
  }

  lemma IndexAscending(rs: seq<Run>, index: seq<Index>, at: seq<nat>)
    requires AllFit(rs) && AllPoint(rs, index, at) && Spaced(index)
    ensures Ascending(index, |Flat(RunPieces(rs))|)
  {
    hide Flat, Fits, Start;
    forall i | 0 <= i < |index| ensures index[i].index < |Flat(RunPieces(rs))| {
      assert PointsAt(rs, index[i], at[i]);
      PieceAt(RunPieces(rs), at[i]);
    }
    forall i | 0 <= i < |index| - 1 ensures index[i].index <= index[i + 1].index {
      assert LastIndex(index[..i + 1]) == index[i].index;
    }
  }

  /** A block found once stays the block of that position, whatever is written later. */
  lemma BlockOfLater(codec: Codec, u: bool, few: seq<seq<byte>>, blocks: seq<seq<byte>>, start: nat, pos: nat, m: nat)
    requires IsBlocks(blocks) && |few| <= |blocks| && blocks[..|few|] == few && IsBlocks(few)
    requires BlockOf(codec, u, few, start, pos, m)
    ensures BlockOf(codec, u, blocks, start, pos, m)
  {
    assert few[..m] == blocks[..m];
  }

  /** With the table complete, the block an index entry names, read from the entry's place on,
      begins with the header of the run the entry points at, and the rest of the directory follows. */
  lemma IndexLeadsToHeader(codec: Codec, u: bool, blocks: seq<seq<byte>>, records: seq<seq<byte>>, refs: seq<Ref>,
                           i: nat, rs: seq<Run>, x: Index, k: nat, start: nat, m: nat)
    requires IsBlocks(blocks) && AllPlaced(blocks, records, refs) && Flat(blocks) == Flat(records)
    requires i < |records| && AllFit(rs) && records[i] == Flat(RunPieces(rs)) && PointsAt(rs, x, k)
    requires refs[i].index <= |blocks|
    requires BlockOf(codec, u, blocks, start, Start(blocks, refs[i].index) + refs[i].offset + x.index, m)
    ensures
      var place := Start(blocks, refs[i].index) + refs[i].offset + x.index - Start(blocks, m);
      && 0 <= place < METADATA_SIZE && m <= |blocks| && start == StartOf(codec, u, blocks, m)
      && Holds(Flat(blocks[m..]), place, Flat(RunPieces(rs)[k..]))
  {
    hide Flat, Fits;
    var pieces := RunPieces(rs);
    var before, after := Flat(records[..i]), Flat(records[i + 1..]);
    assert Placed(blocks, records, refs[i], i);
    FlatSplit(records, i + 1);
    assert records[..i + 1] == records[..i] + [records[i]];
    FlatSnoc(records[..i], records[i]);
    FlatSplit(pieces, k);
    FlatSplit(blocks, m);
    var head, rest := Flat(pieces[..k]), Flat(pieces[k..]);
    assert before + (head + rest) + after == (before + head) + rest + after;
    var place := |before| + |head| - Start(blocks, m);
    SliceAgree(Flat(blocks[..m]), Flat(blocks[m..]), before + head, rest, after, place);
  }

  lemma StreamParts(codec: Codec, u: bool, table: seq<byte>, cache: seq<byte>,
                    blocks: seq<seq<byte>>, records: seq<seq<byte>>, refs: seq<Ref>)
    requires IsStream(codec, u, table, cache, blocks, records, refs)
    ensures IsBlocks(blocks) && |table| == StartOf(codec, u, blocks, |blocks|)
  {
    WholeTable(codec, u, blocks);
  }

  lemma NextStart(blocks: seq<seq<byte>>, b: seq<byte>)
    ensures Start(blocks + [b], |blocks| + 1) == Start(blocks, |blocks|) + |b|
  {
    assert blocks[..|blocks|] == blocks && (blocks + [b])[..|blocks| + 1] == blocks + [b];
    FlatSnoc(blocks, b);
  }

  lemma SamePrefix(codec: Codec, u: bool, few: seq<seq<byte>>, blocks: seq<seq<byte>>)
    requires IsBlocks(blocks) && |few| <= |blocks| && blocks[..|few|] == few
    ensures IsBlocks(few) && Start(blocks, |few|) == Start(few, |few|)
    ensures StartOf(codec, u, blocks, |few|) == StartOf(codec, u, few, |few|)
  {
    assert few[..|few|] == few;
  }
}
