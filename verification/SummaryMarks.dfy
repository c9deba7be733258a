/** How an eraseblock with a summary begins: with a cleanmarker, or with a node. */
module SummaryMarks {
  import opened Bytes
  import opened FlashFormat
  import opened SummaryFormat

  const NODETYPE_CLEANMARKER: nat := 0x2003

  /** setup_cleanmarker: a node header that counts the padding behind it. */
  function Cleanmarker(crc: Crc, n: nat): (s: seq<byte>)
    requires Word(n)
    ensures |s| == CLEANMARKER_NODE_SIZE
  {
    var start := Put16(MAGIC_BITMASK) + Put16(NODETYPE_CLEANMARKER) + Put32(n);
    start + Put32(crc(start))
  }

  lemma CleanmarkerFields(crc: Crc, n: nat)
    requires Word(n)
    ensures
      var b := Cleanmarker(crc, n);
      && Get16(b, 0) == 0x1985 && Get16(b, 2) == 0x2003 && Get32(b, 4) == n && Get32(b, 8) == crc(b[..8])
  {
    hide Put16, Put32, Get16, Get32;
    var b, m, t := Cleanmarker(crc, n), Put16(MAGIC_BITMASK), Put16(NODETYPE_CLEANMARKER);
    var sum := Put32(crc(m + t + Put32(n)));
    assert b[..8] == m + t + Put32(n);
    assert b == [] + m + (t + Put32(n) + sum) && b == m + t + (Put32(n) + sum) && b == (m + t) + Put32(n) + sum;
    assert b == b[..8] + sum + [];
    GetPut16([], MAGIC_BITMASK, t + Put32(n) + sum);
    GetPut16(m, NODETYPE_CLEANMARKER, Put32(n) + sum);
    GetPut32(m + t, n, sum);
    GetPut32(b[..8], crc(b[..8]), []);
  }

  /** A cleanmarker of n bytes, padded; none for 0. */
  predicate IsMark(n: nat) {
    Word(n) && (n == 0 || CLEANMARKER_NODE_SIZE <= n)
  }

  function MarkBytes(crc: Crc, n: nat): (s: seq<byte>)
    requires IsMark(n)
    ensures |s| == Padded(n)
  {
    if n == 0 then [] else Cleanmarker(crc, n) + Filled(Padded(n) - CLEANMARKER_NODE_SIZE)
  }

  /** The block begins with a cleanmarker of n bytes, or for 0 with none, and its first node follows. */
  ghost predicate Begins(crc: Crc, data: seq<byte>, rs: seq<Record>, n: nat) {
    IsMark(n) && MarkBytes(crc, n) <= data && (rs != [] ==> rs[0].offset == Padded(n))
  }

  lemma BeginsMore(crc: Crc, data: seq<byte>, more: seq<byte>, rs: seq<Record>, n: nat)
    requires Begins(crc, data, rs, n)
    ensures Begins(crc, data + more, rs, n)
  {
    hide MarkBytes;
  }

  lemma BeginsNode(crc: Crc, data: seq<byte>, more: seq<byte>, rs: seq<Record>, r: Record, n: nat)
    requires Begins(crc, data, rs, n) && r.offset == |data| && (rs == [] ==> data == MarkBytes(crc, n))
    ensures Begins(crc, data + more, rs + [r], n)
  {
    BeginsMore(crc, data, more, rs, n);
    hide MarkBytes;
  }

  lemma BeginsEmpty(crc: Crc)
    ensures Begins(crc, [], [], 0) && MarkBytes(crc, 0) == []
  {
  }
}
