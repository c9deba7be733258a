/** The metadata blocks of a squashfs table: mangle writes them, read_block reads them.

    The compressor is a parameter: any pair of functions where unpacking undoes
    packing and nothing nonempty packs to nothing. */
module MetadataBlocks {
  import opened Bytes
  import opened Pieces

  const METADATA_SIZE: nat := 8192
  const COMPRESSED_BIT: nat := 0x8000

  datatype Codec = Codec(pack: seq<byte> -> seq<byte>, unpack: seq<byte> -> seq<byte>)

  ghost predicate RoundTrips(codec: Codec) {
    forall s: seq<byte> :: s != [] ==> codec.pack(s) != [] && codec.unpack(codec.pack(s)) == s
  }

  /** SQUASHFS_COMPRESSED_SIZE: the size in a block header, where 0 stands for 32768. */
  function SizeOf(header: nat): nat
    requires header < 0x1_0000
  {
    var size := header % COMPRESSED_BIT;
    if size != 0 then size else COMPRESSED_BIT
  }

  /** SQUASHFS_COMPRESSED. */
  predicate IsCompressed(header: nat) {
    header < COMPRESSED_BIT
  }

  /** mangle with its header: the packed data if it is smaller, else the data itself with the bit set. */
  function Stored(codec: Codec, raw: seq<byte>, uncompressed: bool): (b: seq<byte>)
    requires 1 <= |raw| <= METADATA_SIZE
    ensures |b| >= 2
  {
    var p := codec.pack(raw);
    if uncompressed || |p| >= |raw| then Put16(|raw| + COMPRESSED_BIT) + raw
    else Put16(|p|) + p
  }

  /** A block is never longer than its data and their header, and no longer than packed data if packing is on; the bit
      in the header is set exactly where the data are stored as they are. */
  lemma StoredIs(codec: Codec, raw: seq<byte>, uncompressed: bool)
    requires 1 <= |raw| <= METADATA_SIZE
    ensures
      var b, p := Stored(codec, raw, uncompressed), codec.pack(raw);
      && |b| <= 2 + |raw| && (!uncompressed ==> |b| <= 2 + |p|)
      && (Get16(b, 0) >= 0x8000 <==> uncompressed || |raw| <= |p|) && Get16(b, 0) % 0x8000 == |b| - 2
      && b[2..] == if Get16(b, 0) >= 0x8000 then raw else p
  {
    var p := codec.pack(raw);
    if uncompressed || |p| >= |raw| {
      GetPut16([], |raw| + COMPRESSED_BIT, raw);
      assert [] + Put16(|raw| + COMPRESSED_BIT) + raw == Stored(codec, raw, uncompressed);
    } else {
      GetPut16([], |p|, p);
      assert [] + Put16(|p|) + p == Stored(codec, raw, uncompressed);
    }
  }

  datatype Block = Block(data: seq<byte>, next: nat)

  /** read_block: the block at offset i, and where the next one starts. */
  function ReadBlock(codec: Codec, t: seq<byte>, i: nat): (b: Block)
    requires i + 2 <= |t| && i + 2 + SizeOf(Get16(t, i)) <= |t|
    ensures i + 2 < b.next <= |t|
  {
    var header := Get16(t, i);
    var size := SizeOf(header);
    var data := t[i + 2..i + 2 + size];
    Block(if IsCompressed(header) then codec.unpack(data) else data, i + 2 + size)
  }

  lemma ReadStored(codec: Codec, a: seq<byte>, raw: seq<byte>, u: bool, c: seq<byte>)
    requires RoundTrips(codec) && 1 <= |raw| <= METADATA_SIZE
    ensures
      var t := a + Stored(codec, raw, u) + c;
      && |a| + 2 <= |t| && |a| + 2 + SizeOf(Get16(t, |a|)) <= |t|
      && ReadBlock(codec, t, |a|) == Block(raw, |a| + |Stored(codec, raw, u)|)
  {
    var p := codec.pack(raw);
    var s, t := Stored(codec, raw, u), a + Stored(codec, raw, u) + c;
    if u || |p| >= |raw| {
      GetPut16(a, |raw| + COMPRESSED_BIT, raw + c);
      assert t == a + Put16(|raw| + COMPRESSED_BIT) + (raw + c);
      assert t[|a| + 2..|a| + 2 + |raw|] == raw;
    } else {
      GetPut16(a, |p|, p + c);
      assert t == a + Put16(|p|) + (p + c);
      assert t[|a| + 2..|a| + 2 + |p|] == p;
    }
  }

  // ----- A table of blocks

  predicate IsBlocks(blocks: seq<seq<byte>>) {
    forall i :: 0 <= i < |blocks| ==> 1 <= |blocks[i]| <= METADATA_SIZE
  }

  function Images(codec: Codec, u: bool, blocks: seq<seq<byte>>): seq<seq<byte>>
    requires IsBlocks(blocks)
  {
    seq(|blocks|, i requires 0 <= i < |blocks| => Stored(codec, blocks[i], u))
  }

  /** The blocks as they are stored, one after the other. */
  function Table(codec: Codec, u: bool, blocks: seq<seq<byte>>): seq<byte>
    requires IsBlocks(blocks)
  {
    Flat(Images(codec, u, blocks))
  }

  /** The offset in the table at which block j is stored. */
  function StartOf(codec: Codec, u: bool, blocks: seq<seq<byte>>, j: nat): nat
    requires IsBlocks(blocks) && j <= |blocks|
  {
    |Table(codec, u, blocks[..j])|
  }

  lemma TableSnoc(codec: Codec, u: bool, blocks: seq<seq<byte>>, b: seq<byte>)
    requires IsBlocks(blocks) && 1 <= |b| <= METADATA_SIZE
    ensures IsBlocks(blocks + [b])
    ensures Table(codec, u, blocks + [b]) == Table(codec, u, blocks) + Stored(codec, b, u)
  {
    hide Flat, Stored;
    assert Images(codec, u, blocks + [b]) == Images(codec, u, blocks) + [Stored(codec, b, u)];
    FlatSnoc(Images(codec, u, blocks), Stored(codec, b, u));
  }

  /** The table is the stored form of the first j blocks, then of block j, then of the rest. */
  lemma TableAround(codec: Codec, u: bool, blocks: seq<seq<byte>>, j: nat)
    requires IsBlocks(blocks) && j < |blocks|
    ensures Table(codec, u, blocks) ==
      Table(codec, u, blocks[..j]) + Stored(codec, blocks[j], u) + Table(codec, u, blocks[j + 1..])
    ensures StartOf(codec, u, blocks, j + 1) == StartOf(codec, u, blocks, j) + |Stored(codec, blocks[j], u)|
  {
    hide Flat, Stored;
    var all := Images(codec, u, blocks);
    FlatSplit(all, j + 1);
    assert all[..j + 1] == Images(codec, u, blocks[..j + 1]) && all[j + 1..] == Images(codec, u, blocks[j + 1..]);
    TableSnoc(codec, u, blocks[..j], blocks[j]);
    assert blocks[..j] + [blocks[j]] == blocks[..j + 1];
  }

  /** Block j is read at the offset where the stored form of the first j blocks ends. */
  lemma ReadNth(codec: Codec, u: bool, blocks: seq<seq<byte>>, j: nat)
    requires RoundTrips(codec) && IsBlocks(blocks) && j < |blocks|
    ensures
      var t, i := Table(codec, u, blocks), StartOf(codec, u, blocks, j);
      && i + 2 <= |t| && i + 2 + SizeOf(Get16(t, i)) <= |t|
      && ReadBlock(codec, t, i) == Block(blocks[j], StartOf(codec, u, blocks, j + 1))
  {
    hide Table, Stored, ReadBlock, RoundTrips;
    TableAround(codec, u, blocks, j);
    ReadStored(codec, Table(codec, u, blocks[..j]), blocks[j], u, Table(codec, u, blocks[j + 1..]));
  }

  /** Every block takes room, so blocks start at different offsets. */
  lemma {:induction false} StartsGrow(codec: Codec, u: bool, blocks: seq<seq<byte>>, i: nat, j: nat)
    requires IsBlocks(blocks) && i < j <= |blocks|
    ensures StartOf(codec, u, blocks, i) < StartOf(codec, u, blocks, j)
  {
    hide Table, Stored;
    TableAround(codec, u, blocks, j - 1);
    if i < j - 1 { StartsGrow(codec, u, blocks, i, j - 1); }
  }

  lemma WholeTable(codec: Codec, u: bool, blocks: seq<seq<byte>>)
    requires IsBlocks(blocks)
    ensures StartOf(codec, u, blocks, |blocks|) == |Table(codec, u, blocks)|
    ensures StartOf(codec, u, blocks, 0) == 0
  {
    assert blocks[..|blocks|] == blocks;
  }
}
