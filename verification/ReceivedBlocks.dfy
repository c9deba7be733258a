/** One eraseblock of the image receiver: packets come in, full write buffers go out to flash. */
module ReceivedBlocks {
  import opened Bytes
  import opened Pieces
  import opened Sequences
  import Systematic

  const PKT_SIZE: nat := 2820
  const WBUF_SIZE: nat := 4096

  datatype Packet = Packet(number: nat, data: seq<byte>)

  /** struct eraseblock: wbuf is the filled part of the write buffer, indices the filled part of pkt_indices. */
  datatype EraseBlock = EraseBlock(flashOffset: nat, wbuf: seq<byte>, nrPkts: nat, indices: seq<nat>, crc: nat)

  /** The device: a byte at every offset. */
  type Flash = nat -> byte

  function Read(flash: Flash, at: nat, n: nat): (s: seq<byte>)
    ensures |s| == n
  {
    seq(n, i requires 0 <= i < n => flash(at + i))
  }

  function Written(flash: Flash, at: nat, s: seq<byte>): Flash {
    (a: nat) => if at <= a < at + |s| then s[a - at] else flash(a)
  }

  function Data(ps: seq<Packet>): seq<seq<byte>> {
    seq(|ps|, i requires 0 <= i < |ps| => ps[i].data)
  }

  function Numbers(ps: seq<Packet>): seq<nat> {
    seq(|ps|, i requires 0 <= i < |ps| => ps[i].number)
  }

  ghost predicate WholePackets(ps: seq<Packet>) {
    forall i :: 0 <= i < |ps| ==> |ps[i].data| == PKT_SIZE
  }

  /** The packets per block for an erase size: erasesize is a multiple of the write buffer. */
  ghost predicate Sizes(erasesize: nat, k: nat) {
    0 < erasesize && erasesize % WBUF_SIZE == 0 && erasesize <= k * PKT_SIZE < erasesize + PKT_SIZE
  }

  /** The block has accepted these packets: they are, in order, on flash from base on and then in the buffer. */
  ghost predicate BlockOk(b: EraseBlock, acc: seq<Packet>, base: nat, flash: Flash, erasesize: nat, k: nat) {
    && WholePackets(acc) && b.indices == Numbers(acc) && Distinct(b.indices)
    && |acc| <= k && (b.nrPkts == |acc| || (|acc| == k && b.nrPkts >= k))
    && |b.wbuf| < WBUF_SIZE && base <= b.flashOffset <= base + erasesize && (b.flashOffset - base) % WBUF_SIZE == 0
    && Flat(Data(acc)) == Read(flash, base, b.flashOffset - base) + b.wbuf
  }

  lemma DataSnoc(ps: seq<Packet>, p: Packet)
    ensures Flat(Data(ps + [p])) == Flat(Data(ps)) + p.data
    ensures Numbers(ps + [p]) == Numbers(ps) + [p.number]
  {
    assert Data(ps + [p]) == Data(ps) + [p.data];
    FlatSnoc(Data(ps), p.data);
  }

  lemma {:induction false} DataSize(ps: seq<Packet>)
    requires WholePackets(ps)
    ensures |Flat(Data(ps))| == PKT_SIZE * |ps|
  {
    if ps != [] {
      var n := |ps| - 1;
      DataSize(ps[..n]);
      assert ps == ps[..n] + [ps[n]];
      DataSnoc(ps[..n], ps[n]);
    }
  }

  lemma ReadWritten(flash: Flash, base: nat, n: nat, s: seq<byte>)
    ensures Read(Written(flash, base + n, s), base, n + |s|) == Read(flash, base, n) + s
  {
  }

  lemma ReadAside(flash: Flash, at: nat, s: seq<byte>, base: nat, n: nat)
    requires base + n <= at || at + |s| <= base
    ensures Read(Written(flash, at, s), base, n) == Read(flash, base, n)
  {
  }

  lemma Buffered(b: EraseBlock, acc: seq<Packet>, base: nat, flash: Flash, erasesize: nat, k: nat, p: Packet)
    requires BlockOk(b, acc, base, flash, erasesize, k) && |acc| < k && |p.data| == PKT_SIZE && p.number !in b.indices
    requires |b.wbuf| + PKT_SIZE < WBUF_SIZE
    ensures BlockOk(b.(wbuf := b.wbuf + p.data, nrPkts := b.nrPkts + 1, indices := b.indices + [p.number]),
                    acc + [p], base, flash, erasesize, k)
  {
    hide Flat, Data, Read;
    DataSnoc(acc, p);
  }

  lemma FlushFits(erasesize: nat, k: nat, sent: nat, n: nat, packets: nat)
    requires Sizes(erasesize, k) && packets <= k && sent % WBUF_SIZE == 0
    requires sent + WBUF_SIZE <= packets * PKT_SIZE
    ensures sent + WBUF_SIZE <= erasesize && (sent + WBUF_SIZE) % WBUF_SIZE == 0
  {
    var q, e := sent / WBUF_SIZE, erasesize / WBUF_SIZE;
    assert sent == q * WBUF_SIZE && erasesize == e * WBUF_SIZE;
    assert packets * PKT_SIZE <= k * PKT_SIZE;
    assert q + 1 <= e;
  }

  lemma FlushedOut(b: EraseBlock, acc: seq<Packet>, base: nat, flash: Flash, erasesize: nat, k: nat, p: Packet)
    requires BlockOk(b, acc, base, flash, erasesize, k) && |acc| < k && |p.data| == PKT_SIZE && p.number !in b.indices
    requires Sizes(erasesize, k) && |b.wbuf| + PKT_SIZE >= WBUF_SIZE
    ensures
      var fits := WBUF_SIZE - |b.wbuf|;
      && b.flashOffset + WBUF_SIZE <= base + erasesize
      && BlockOk(EraseBlock(b.flashOffset + WBUF_SIZE, p.data[fits..], b.nrPkts + 1, b.indices + [p.number], b.crc),
                 acc + [p], base, Written(flash, b.flashOffset, b.wbuf + p.data[..fits]), erasesize, k)
  {
    hide Flat, Data, Read;
    var fits, sent := WBUF_SIZE - |b.wbuf|, b.flashOffset - base;
    var full := b.wbuf + p.data[..fits];
    DataSize(acc);
    FlushFits(erasesize, k, sent, |acc|, |acc| + 1);
    DataSnoc(acc, p);
    ReadWritten(flash, base, sent, full);
    assert Read(flash, base, sent) + b.wbuf + p.data == Read(flash, base, sent) + full + p.data[fits..];
  }

  /** Writing elsewhere does not matter to a block. */
  lemma Undisturbed(b: EraseBlock, acc: seq<Packet>, base: nat, flash: Flash, erasesize: nat, k: nat, at: nat,
                    s: seq<byte>)
    requires BlockOk(b, acc, base, flash, erasesize, k) && (base + erasesize <= at || at + |s| <= base)
    ensures BlockOk(b, acc, base, Written(flash, at, s), erasesize, k)
  {
    hide Flat, Data, Read;
    ReadAside(flash, at, s, base, b.flashOffset - base);
  }

  /** A complete block has filled exactly its eraseblock on flash, and reads back as its packets. */
  lemma Complete(b: EraseBlock, acc: seq<Packet>, base: nat, flash: Flash, erasesize: nat, k: nat)
    requires BlockOk(b, acc, base, flash, erasesize, k) && Sizes(erasesize, k) && |acc| == k
    ensures b.flashOffset == base + erasesize && Flat(Data(acc)) == Read(flash, base, erasesize) + b.wbuf
    ensures |b.indices| == k && Distinct(b.indices)
  {
    hide Flat, Data, Read;
    DataSize(acc);
    var sent := b.flashOffset - base;
    var q, e := sent / WBUF_SIZE, erasesize / WBUF_SIZE;
    assert sent == q * WBUF_SIZE && erasesize == e * WBUF_SIZE;
    assert e * WBUF_SIZE - WBUF_SIZE < q * WBUF_SIZE;
  }

  /** Read back together with the rest of its buffer, packet j of a complete block is where the decoder looks for it. */
  lemma PacketReadsBack(b: EraseBlock, acc: seq<Packet>, base: nat, flash: Flash, erasesize: nat, k: nat, j: nat)
    requires BlockOk(b, acc, base, flash, erasesize, k) && Sizes(erasesize, k) && |acc| == k && j < k
    ensures
      var s := Read(flash, base, erasesize) + b.wbuf;
      |s| == k * PKT_SIZE && j * PKT_SIZE + PKT_SIZE <= |s| && s[j * PKT_SIZE..j * PKT_SIZE + PKT_SIZE] == acc[j].data
  {
    hide Flat, Read, BlockOk;
    Complete(b, acc, base, flash, erasesize, k);
    assert WholePackets(acc) by { Whole(b, acc, base, flash, erasesize, k); }
    DataSize(acc);
    DataSize(acc[..j]);
    assert Data(acc)[..j] == Data(acc[..j]);
    PieceAt(Data(acc), j);
  }

  lemma Whole(b: EraseBlock, acc: seq<Packet>, base: nat, flash: Flash, erasesize: nat, k: nat)
    requires BlockOk(b, acc, base, flash, erasesize, k)
    ensures WholePackets(acc)
  {
  }

  /** The decoder is given as many different packets as it needs: it fails only for a number that was never sent. */
  lemma Decodable(b: EraseBlock, acc: seq<Packet>, base: nat, flash: Flash, erasesize: nat, k: nat, sent: nat)
    requires BlockOk(b, acc, base, flash, erasesize, k) && Sizes(erasesize, k) && |acc| == k
    ensures |b.indices| == k && b.indices == Numbers(acc)
    ensures Systematic.ValidIndices(b.indices, sent) <==> forall j :: 0 <= j < k ==> acc[j].number < sent
  {
    hide Flat, Read, Data;
    assert Distinct(b.indices);
    assert forall j :: 0 <= j < k ==> b.indices[j] == acc[j].number;
  }
}
