/** Records laid end to end in metadata blocks, and references to them. */
module MetadataStream {
  import opened Bytes
  import opened MetadataBlocks
  import opened Pieces

  /** What a reference stands for: the block it names by its number, and the place in it. */
  datatype Ref = Ref(index: nat, offset: nat)

  ghost predicate Placed(blocks: seq<seq<byte>>, records: seq<seq<byte>>, r: Ref, i: nat) {
    && i <= |records| && r.index <= |blocks| && r.offset < METADATA_SIZE
    && |Flat(blocks[..r.index])| + r.offset == |Flat(records[..i])|
  }

  ghost predicate AllPlaced(blocks: seq<seq<byte>>, records: seq<seq<byte>>, refs: seq<Ref>) {
    |refs| == |records| && forall i :: 0 <= i < |refs| ==> Placed(blocks, records, refs[i], i)
  }

  lemma PlacedAfterFlush(blocks: seq<seq<byte>>, b: seq<byte>, records: seq<seq<byte>>, refs: seq<Ref>)
    requires AllPlaced(blocks, records, refs)
    ensures AllPlaced(blocks + [b], records, refs)
  {
    hide Flat;
    forall i | 0 <= i < |refs| ensures Placed(blocks + [b], records, refs[i], i) {
      assert (blocks + [b])[..refs[i].index] == blocks[..refs[i].index];
    }
  }

  lemma PlacedAfterAppend(blocks: seq<seq<byte>>, cache: seq<byte>, records: seq<seq<byte>>, refs: seq<Ref>,
                          rec: seq<byte>)
    requires AllPlaced(blocks, records, refs) && Flat(blocks) + cache == Flat(records) && |cache| < METADATA_SIZE
    ensures AllPlaced(blocks, records + [rec], refs + [Ref(|blocks|, |cache|)])
  {
    hide Flat;
    var more, placed := records + [rec], refs + [Ref(|blocks|, |cache|)];
    forall i | 0 <= i < |placed| ensures Placed(blocks, more, placed[i], i) {
      assert more[..i] == records[..i];
      if i == |refs| {
        assert blocks[..|blocks|] == blocks && records[..i] == records;
      }
    }
  }

  /** Decompressed blocks followed by the cache are all records, end to end, and every reference is in its place. */
  ghost predicate IsStream(codec: Codec, u: bool, table: seq<byte>, cache: seq<byte>,
                           blocks: seq<seq<byte>>, records: seq<seq<byte>>, refs: seq<Ref>) {
    && IsBlocks(blocks) && table == Table(codec, u, blocks)
    && Flat(blocks) + cache == Flat(records)
    && AllPlaced(blocks, records, refs)
  }

  /** The blocks from this one on are full. */
  predicate Full(blocks: seq<seq<byte>>, from: nat) {
    forall j :: from <= j < |blocks| ==> |blocks[j]| == METADATA_SIZE
  }

  /** And all of them but the last. */
  predicate FullButLast(blocks: seq<seq<byte>>, from: nat) {
    forall j :: from <= j < |blocks| - 1 ==> |blocks[j]| == METADATA_SIZE
  }

  /** Moving a block from the front of the cache to the end of the table. */
  lemma Flushed(codec: Codec, u: bool, table: seq<byte>, cache: seq<byte>,
                blocks: seq<seq<byte>>, records: seq<seq<byte>>, refs: seq<Ref>, n: nat)
    requires IsStream(codec, u, table, cache, blocks, records, refs)
    requires 1 <= n <= METADATA_SIZE && n <= |cache|
    ensures IsStream(codec, u, table + Stored(codec, cache[..n], u), cache[n..], blocks + [cache[..n]], records, refs)
  {
    hide Flat, Table, Stored, AllPlaced;
    var b := cache[..n];
    TableSnoc(codec, u, blocks, b);
    FlatSnoc(blocks, b);
    PlacedAfterFlush(blocks, b, records, refs);
    assert Flat(blocks) + b + cache[n..] == Flat(blocks) + cache;
  }

  /** Appending a record to the cache: its reference is the table size and the cache size. */
  lemma Appended(codec: Codec, u: bool, table: seq<byte>, cache: seq<byte>,
                 blocks: seq<seq<byte>>, records: seq<seq<byte>>, refs: seq<Ref>, rec: seq<byte>)
    requires IsStream(codec, u, table, cache, blocks, records, refs) && |cache| < METADATA_SIZE
    ensures IsStream(codec, u, table, cache + rec, blocks, records + [rec], refs + [Ref(|blocks|, |cache|)])
    ensures StartOf(codec, u, blocks, |blocks|) == |table|
  {
    hide Flat, Table, AllPlaced;
    PlacedAfterAppend(blocks, cache, records, refs, rec);
    FlatSnoc(records, rec);
    assert Flat(blocks) + cache + rec == Flat(blocks) + (cache + rec);
    assert blocks[..|blocks|] == blocks;
  }

  /** Once all is written, reading from the referenced block and skipping the offset gives the record. */
  lemma ReferenceResolves(blocks: seq<seq<byte>>, records: seq<seq<byte>>, refs: seq<Ref>, i: nat)
    requires AllPlaced(blocks, records, refs) && Flat(blocks) == Flat(records)
    requires i < |records|
    ensures records[i] != [] ==> refs[i].index < |blocks|
    ensures
      var r, rec := refs[i], records[i];
      && r.index <= |blocks| && r.offset + |rec| <= |Flat(blocks[r.index..])|
      && Flat(blocks[r.index..])[r.offset..r.offset + |rec|] == rec
      && |Flat(blocks[..r.index])| + r.offset + |rec| <= |Flat(blocks)|
      && Flat(blocks)[|Flat(blocks[..r.index])| + r.offset..][..|rec|] == rec
  {
    hide Flat;
    var r, rec := refs[i], records[i];
    assert Placed(blocks, records, r, i);
    var before, after := Flat(records[..i]), Flat(records[i + 1..]);
    FlatSplit(records, i + 1);
    assert records[..i + 1] == records[..i] + [rec];
    FlatSnoc(records[..i], rec);
    FlatSplit(blocks, r.index);
    SliceAgree(Flat(blocks[..r.index]), Flat(blocks[r.index..]), before, rec, after, r.offset);
    NothingThere(blocks, r.index);
  }

  lemma SliceAgree(a: seq<byte>, b: seq<byte>, before: seq<byte>, rec: seq<byte>, after: seq<byte>, k: nat)
    requires a + b == before + rec + after && |a| + k == |before|
    ensures k + |rec| <= |b| && b[k..k + |rec|] == rec && |a| + k + |rec| <= |a + b|
    ensures (a + b)[|a| + k..][..|rec|] == rec
  {
    assert |a + b| == |before + rec + after|;
    assert forall m :: k <= m < k + |rec| ==> b[m] == (a + b)[|a| + m] == (before + rec + after)[|a| + m];
    assert (before + rec + after)[|before|..] == rec + after;
  }

  lemma NothingThere(blocks: seq<seq<byte>>, j: nat)
    requires j <= |blocks|
    ensures |Flat(blocks[j..])| > 0 ==> j < |blocks|
  {
  }
}
