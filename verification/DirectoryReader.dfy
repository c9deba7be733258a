/** squashfs_readdir: from a reference to a directory back to its entries. */
module DirectoryReader {
  import opened Bytes
  import opened DirectoryFormat
  import opened MetadataBlocks
  import opened Pieces

  /** SQUASHFS_MKINODE. */
  function MakeInode(block: nat, offset: nat): nat {
    block * 0x1_0000 + offset
  }

  lemma EntryFits(r: Run, i: nat)
    requires Fits(r) && i < |r.entries|
    ensures InRun(r.entries[i], r.start, r.base)
  {
  }

  /** The entry read at a place where an entry of the run is held. */
  method ReadEntry(data: seq<byte>, pos: nat, start: nat, base: nat, ghost e: Entry) returns (r: Entry, next: nat)
    requires InRun(e, start, base) && Holds(data, pos, EncodeEntry(e, base))
    ensures r == e && next == pos + |EncodeEntry(e, base)|
  {
    EntryFields(e, base, data, pos);
    NumberBack(e.number, base);
    ReferenceBack(e.inode, start);
    hide EncodeEntry, Get16;
    var offset, delta, kind, size := Get16(data, pos), Get16(data, pos + 2), Get16(data, pos + 4), Get16(data, pos + 6);
    var name := data[pos + ENTRY_SIZE..pos + ENTRY_SIZE + size + 1];
    r := Entry(name, MakeInode(start, offset), (base + Signed16(delta)) % 0x1_0000_0000, kind);
    next := pos + ENTRY_SIZE + size + 1;
  }

  /** One turn of the outer loop: a header and as many entries as it counts. */
  method ReadRun(data: seq<byte>, pos: nat, ghost r: Run) returns (es: seq<Entry>, next: nat)
    requires Fits(r) && Holds(data, pos, EncodeRun(r))
    ensures es == r.entries && next == pos + |EncodeRun(r)|
  {
    ghost var pieces := EntryPieces(r.entries, r.start, r.base);
    HoldsParts(data, pos, EncodeHeader(|r.entries|, r.start, r.base), Flat(pieces));
    HeaderFields(|r.entries|, r.start, r.base, data, pos);
    StartEnds(pieces);
    hide Flat, EncodeHeader, EncodeEntry, Get32, Fits, Start, InRun;
    var count, start, base := Get32(data, pos) + 1, Get32(data, pos + 4), Get32(data, pos + 8);
    var at := pos + HEADER_SIZE;
    es, next := [], at;
    while count > 0
      invariant count >= 0 && |es| + count == |r.entries| && es == r.entries[..|es|]
      invariant next == at + Start(pieces, |es|)
      decreases count
    {
      ghost var i := |es|;
      HoldsPiece(data, at, pieces, i);
      EntryFits(r, i);
      var e;
      e, next := ReadEntry(data, next, start, base, r.entries[i]);
      es := es + [e];
      count := count - 1;
    }
  }

  /** The header loop, over the bytes of one directory. */
  method ReadRuns(data: seq<byte>, offset: nat, size: nat, ghost rs: seq<Run>) returns (es: seq<Entry>)
    requires AllFit(rs) && Holds(data, offset, Flat(RunPieces(rs))) && size == offset + |Flat(RunPieces(rs))|
    ensures es == AllEntries(rs)
  {
    hide Flat, EncodeRun, Fits, Start, Holds;
    ghost var pieces, lists := RunPieces(rs), EntryLists(rs);
    StartEnds(pieces);
    assert Flat(lists[..0]) == [] by {
      StartEnds(lists);
      assert |Flat(lists[..0])| == Start(lists, 0) by { StartIs(lists, 0); }
    }
    es := [];
    var bytes := offset;
    ghost var k := 0;
    while bytes < size
      invariant 0 <= k <= |rs| && bytes == offset + Start(pieces, k)
      invariant es == Flat(lists[..k])
      decreases |rs| - k
    {
      HoldsPiece(data, offset, pieces, k);
      var run;
      run, bytes := ReadRun(data, bytes, rs[k]);
      assert lists[..k + 1] == lists[..k] + [lists[k]];
      FlatSnoc(lists[..k], lists[k]);
      es := es + run;
      k := k + 1;
    }
    NoRunLeft(rs, k);
    assert lists[..|rs|] == lists;
  }

  lemma StartIs<T>(pieces: seq<seq<T>>, j: nat)
    requires j <= |pieces|
    ensures Start(pieces, j) == |Flat(pieces[..j])|
  {
  }

  /** Every run takes room, so the bytes end only after the last run. */
  lemma NoRunLeft(rs: seq<Run>, k: nat)
    requires AllFit(rs) && k <= |rs| && Start(RunPieces(rs), k) >= |Flat(RunPieces(rs))|
    ensures k == |rs|
  {
    hide Flat, Fits, Start;
    if k < |rs| {
      PieceAt(RunPieces(rs), k);
    }
  }

  /** The last block needed for this many bytes from block j on starts here; none is needed for no bytes. */
  ghost predicate LastNeeded(codec: Codec, u: bool, blocks: seq<seq<byte>>, j: nat, size: nat, lastStart: nat,
                             last: nat)
    requires IsBlocks(blocks)
  {
    && j <= last <= |blocks| && lastStart == StartOf(codec, u, blocks, last)
    && (if size == 0 then last == j
        else last < |blocks| && |Flat(blocks[j..last])| < size <= |Flat(blocks[j..last + 1])|)
  }

  lemma NoBlocks(blocks: seq<seq<byte>>)
    ensures Flat(blocks[..0]) == []
  {
  }

  lemma MoreBlocks(blocks: seq<seq<byte>>, n: nat, size: nat)
    requires n <= |blocks| && |Flat(blocks[..n])| < size <= |Flat(blocks)|
    ensures n < |blocks|
  {
    assert blocks[..|blocks|] == blocks;
  }

  /** The block loop: blocks are read until enough bytes are there. */
  method ReadBlocks(codec: Codec, t: seq<byte>, start0: nat, size: nat, ghost u: bool, ghost blocks: seq<seq<byte>>,
                    ghost j0: nat)
    returns (data: seq<byte>, lastStart: nat, ghost last: nat)
    requires RoundTrips(codec) && IsBlocks(blocks) && t == Table(codec, u, blocks)
    requires j0 <= |blocks| && start0 == StartOf(codec, u, blocks, j0) && size <= |Flat(blocks[j0..])|
    ensures size <= |data| <= |Flat(blocks[j0..])| && data == Flat(blocks[j0..])[..|data|]
    ensures LastNeeded(codec, u, blocks, j0, size, lastStart, last)
  {
    hide Flat, StartOf, ReadBlock, RoundTrips;
    data := [];
    var start := start0;
    lastStart, last := start, j0;
    ghost var rest := blocks[j0..];
    ghost var n := 0;
    assert data == Flat(rest[..0]) by { NoBlocks(rest); }
    while |data| < size
      invariant n <= |rest| && start == StartOf(codec, u, blocks, j0 + n) && data == Flat(rest[..n])
      invariant n == 0 ==> lastStart == start0 && last == j0
      invariant n > 0 ==>
        last == j0 + n - 1 && lastStart == StartOf(codec, u, blocks, last) && |Flat(blocks[j0..last])| < size
      decreases |rest| - n
    {
      MoreBlocks(rest, n, size);
      lastStart, last := start, j0 + n;
      assert rest[..n] == blocks[j0..last];
      ReadNth(codec, u, blocks, j0 + n);
      var b := ReadBlock(codec, t, start);
      assert rest[..n + 1] == rest[..n] + [rest[n]];
      FlatSnoc(rest[..n], rest[n]);
      data, start, n := data + b.data, b.next, n + 1;
    }
    FlatSplit(rest, n);
    assert n > 0 ==> rest[..n] == blocks[j0..last + 1];
  }

  /** squashfs_readdir: the blocks, then the runs in the part that is this directory. Where its last block starts is
      returned too. */
  method Readdir(codec: Codec, t: seq<byte>, start: nat, offset: nat, size: nat,
                 ghost u: bool, ghost blocks: seq<seq<byte>>, ghost j: nat, ghost rs: seq<Run>)
    returns (es: seq<Entry>, lastStart: nat, ghost last: nat)
    requires RoundTrips(codec) && IsBlocks(blocks) && t == Table(codec, u, blocks)
    requires j <= |blocks| && start == StartOf(codec, u, blocks, j)
    requires AllFit(rs) && size == |Flat(RunPieces(rs))| && Holds(Flat(blocks[j..]), offset, Flat(RunPieces(rs)))
    ensures es == AllEntries(rs) && LastNeeded(codec, u, blocks, j, offset + size, lastStart, last)
  {
    hide Table, RoundTrips, Flat, AllEntries, AllFit;
    var data;
    data, lastStart, last := ReadBlocks(codec, t, start, size + offset, u, blocks, j);
    ghost var all := Flat(blocks[j..]);
    assert all[..|data|][offset..offset + size] == all[offset..offset + size];
    es := ReadRuns(data, offset, size + offset, rs);
  }
}
