/** An eraseblock with its summary: the nodes, the summary node, padding, and the marker in the last bytes. */
module SummaryNode {
  import opened Bytes
  import opened FlashFormat
  import opened Pieces
  import opened SummaryFormat

  /** The part of a node header that hdr_crc is over. */
  function CommonHeader(totlen: nat): (s: seq<byte>)
    requires Word(totlen)
    ensures |s| == 8
  {
    Put16(MAGIC_BITMASK) + Put16(NODETYPE_SUMMARY) + Put32(totlen)
  }

  /** The header fields that node_crc is over. */
  function SummaryHeader(crc: Crc, totlen: nat, count: nat, cleanmarker: nat): (s: seq<byte>)
    requires Word(totlen) && Word(count) && Word(cleanmarker)
    ensures |s| == 24
  {
    CommonHeader(totlen) + Put32(crc(CommonHeader(totlen))) + Put32(count) + Put32(cleanmarker) + Put32(0)
  }

  /** The whole summary node header: jffs2_raw_summary. */
  function RawSummary(crc: Crc, totlen: nat, count: nat, cleanmarker: nat, page: seq<byte>): (s: seq<byte>)
    requires Word(totlen) && Word(count) && Word(cleanmarker)
    ensures |s| == RAW_SUMMARY_SIZE
  {
    var h := SummaryHeader(crc, totlen, count, cleanmarker);
    h + Put32(crc(page)) + Put32(crc(h))
  }

  function Marker(offset: nat): (s: seq<byte>)
    requires Word(offset)
    ensures |s| == MARKER_SIZE
  {
    Put32(offset) + Put32(SUM_MAGIC)
  }

  /** What follows the summary header: the records, padding, and the marker. */
  function Page(rs: seq<Record>, padsize: nat, offset: nat): (s: seq<byte>)
    requires AllRecords(rs) && Word(offset)
  {
    Flat(RecordPieces(rs)) + Filled(padsize) + Marker(offset)
  }

  /** The eraseblock: data, then the summary of these records up to the end. */
  ghost predicate IsSummarized(crc: Crc, block: seq<byte>, size: nat, data: seq<byte>, rs: seq<Record>,
                               cleanmarker: nat) {
    && |block| == size && Word(size) && AllRecords(rs) && Word(|rs|) && Word(cleanmarker)
    && |data| + RAW_SUMMARY_SIZE + |Flat(RecordPieces(rs))| + MARKER_SIZE <= size
    && var padsize := size - |data| - RAW_SUMMARY_SIZE - |Flat(RecordPieces(rs))| - MARKER_SIZE;
       var page := Page(rs, padsize, |data|);
       block == data + RawSummary(crc, size - |data|, |rs|, cleanmarker, page) + page
  }

  // ----- Reading it

  lemma MarkerRead(block: seq<byte>, pos: nat, offset: nat)
    requires Word(offset) && Holds(block, pos, Marker(offset))
    ensures pos + 8 <= |block| && Get32(block, pos) == offset && Get32(block, pos + 4) == SUM_MAGIC
  {
    hide Put32, Get32;
    var s := Marker(offset);
    assert s == [] + Put32(offset) + Put32(SUM_MAGIC) && s == Put32(offset) + Put32(SUM_MAGIC) + [];
    Field32(block, pos, s, [], offset, Put32(SUM_MAGIC));
    Field32(block, pos, s, Put32(offset), SUM_MAGIC, []);
  }

  lemma HeaderRead(crc: Crc, block: seq<byte>, pos: nat, totlen: nat, count: nat, cleanmarker: nat, page: seq<byte>)
    requires Word(totlen) && Word(count) && Word(cleanmarker)
    requires Holds(block, pos, RawSummary(crc, totlen, count, cleanmarker, page))
    ensures pos + RAW_SUMMARY_SIZE <= |block|
    ensures Get32(block, pos + 4) == totlen && Get32(block, pos + 8) == crc(CommonHeader(totlen))
    ensures Get32(block, pos + 12) == count && Get32(block, pos + 16) == cleanmarker && Get32(block, pos + 20) == 0
    ensures Get16(block, pos) == MAGIC_BITMASK && Get16(block, pos + 2) == NODETYPE_SUMMARY
    ensures block[pos..pos + 24] == SummaryHeader(crc, totlen, count, cleanmarker)
    ensures Get32(block, pos + 24) == crc(page)
    ensures Get32(block, pos + 28) == crc(SummaryHeader(crc, totlen, count, cleanmarker))
  {
    hide Put16, Put32, Get32, Get16;
    var h := SummaryHeader(crc, totlen, count, cleanmarker);
    var s := RawSummary(crc, totlen, count, cleanmarker, page);
    var t, u := Put32(crc(page)), Put32(crc(h));
    assert s == h + (t + u) && s == (h + t) + u + [] && s == h + t + u;
    HoldsParts(block, pos, h, t + u);
    Field32(block, pos, s, h, crc(page), u);
    Field32(block, pos, s, h + t, crc(h), []);
    HeaderWords(crc, block, pos, totlen, count, cleanmarker);
  }

  lemma HeaderWords(crc: Crc, block: seq<byte>, pos: nat, totlen: nat, count: nat, cleanmarker: nat)
    requires Word(totlen) && Word(count) && Word(cleanmarker)
    requires Holds(block, pos, SummaryHeader(crc, totlen, count, cleanmarker))
    ensures pos + 24 <= |block|
    ensures Get32(block, pos + 4) == totlen && Get32(block, pos + 8) == crc(CommonHeader(totlen))
    ensures Get32(block, pos + 12) == count && Get32(block, pos + 16) == cleanmarker && Get32(block, pos + 20) == 0
    ensures Get16(block, pos) == MAGIC_BITMASK && Get16(block, pos + 2) == NODETYPE_SUMMARY
  {
    hide Put16, Put32, Get32, Get16;
    var s := SummaryHeader(crc, totlen, count, cleanmarker);
    var a, b := CommonHeader(totlen), Put32(crc(CommonHeader(totlen)));
    var c, d := Put32(count), Put32(cleanmarker) + Put32(0);
    var first := Put16(MAGIC_BITMASK) + Put16(NODETYPE_SUMMARY);
    assert s == first + Put32(totlen) + (b + c + d);
    Field32(block, pos, s, first, totlen, b + c + d);
    assert s == a + b + (c + d);
    Field32(block, pos, s, a, crc(a), c + d);
    assert s == (a + b) + c + d;
    Field32(block, pos, s, a + b, count, d);
    assert s == (a + b + c) + Put32(cleanmarker) + Put32(0);
    Field32(block, pos, s, a + b + c, cleanmarker, Put32(0));
    assert s == (a + b + c + Put32(cleanmarker)) + Put32(0) + [];
    Field32(block, pos, s, a + b + c + Put32(cleanmarker), 0, []);
    var rest := Put32(totlen) + b + c + d;
    assert s == Put16(MAGIC_BITMASK) + (Put16(NODETYPE_SUMMARY) + rest);
    Field16(block, pos, s, MAGIC_BITMASK, Put16(NODETYPE_SUMMARY) + rest);
    HoldsParts(block, pos, Put16(MAGIC_BITMASK), Put16(NODETYPE_SUMMARY) + rest);
    Field16(block, pos + 2, Put16(NODETYPE_SUMMARY) + rest, NODETYPE_SUMMARY, rest);
  }

  lemma WhereThingsAre(crc: Crc, block: seq<byte>, size: nat, data: seq<byte>, rs: seq<Record>, cleanmarker: nat,
                       padsize: nat)
    requires IsSummarized(crc, block, size, data, rs, cleanmarker)
    requires padsize == size - |data| - RAW_SUMMARY_SIZE - |Flat(RecordPieces(rs))| - MARKER_SIZE
    ensures
      var page := Page(rs, padsize, |data|);
      && Holds(block, |data|, RawSummary(crc, size - |data|, |rs|, cleanmarker, page))
      && Holds(block, |data| + RAW_SUMMARY_SIZE, Flat(RecordPieces(rs)))
      && block[|data| + RAW_SUMMARY_SIZE..] == page
      && Holds(block, size - MARKER_SIZE, Marker(|data|))
      && Holds(block, 0, data)
  {
    hide RawSummary, Flat, Marker, AllRecords;
    var page := Page(rs, padsize, |data|);
    var raw := RawSummary(crc, size - |data|, |rs|, cleanmarker, page);
    assert block == data + (raw + page);
    HoldsParts(block, 0, data, raw + page);
    HoldsParts(block, |data|, raw, page);
    HoldsParts(block, |data| + RAW_SUMMARY_SIZE, Flat(RecordPieces(rs)) + Filled(padsize), Marker(|data|));
    HoldsParts(block, |data| + RAW_SUMMARY_SIZE, Flat(RecordPieces(rs)), Filled(padsize));
  }

  /** How the kernel finds and checks a summary: the marker in the last bytes, the lengths and the three checksums. What
      it says of the cleanmarker is returned too. */
  method ScanSummary(crc: Crc, block: seq<byte>, xattrs: bool, ghost size: nat, ghost data: seq<byte>,
                     ghost rs: seq<Record>, ghost cleanmarker: nat)
    returns (o: Scan<seq<Record>>, mark: nat)
    requires IsSummarized(crc, block, size, data, rs, cleanmarker)
    ensures o == AllAsRead(rs, xattrs) && mark == cleanmarker
  {
    hide RawSummary, SummaryHeader, CommonHeader, Marker, Get32, Flat, Page;
    ghost var padsize := size - |data| - RAW_SUMMARY_SIZE - |Flat(RecordPieces(rs))| - MARKER_SIZE;
    ghost var page := Page(rs, padsize, |data|);
    WhereThingsAre(crc, block, size, data, rs, cleanmarker, padsize);
    MarkerRead(block, size - MARKER_SIZE, |data|);
    HeaderRead(crc, block, |data|, size - |data|, |rs|, cleanmarker, page);
    hide IsSummarized, Holds;
    var end := |block|;
    o, mark := NoSummary, 0;
    if Get32(block, end - 4) != SUM_MAGIC { return; }
    var at := Get32(block, end - 8);
    var totlen := Get32(block, at + 4);
    if Get32(block, at + 8) != crc(CommonHeader(totlen)) || totlen != end - at { return; }
    if Get32(block, at + 28) != crc(block[at..at + 24]) { return; }
    if Get32(block, at + 24) != crc(block[at + RAW_SUMMARY_SIZE..]) { return; }
    mark := Get32(block, at + 16);
    o := ReadRecords(block, at + RAW_SUMMARY_SIZE, Get32(block, at + 12), xattrs, rs);
  }
}
