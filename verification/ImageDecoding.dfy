/** What the image receiver does when it has all packets: each block is read back from flash, decoded and checked. */
module ImageDecoding {
  import opened Bytes
  import opened ErasureCode
  import opened ErasureDecode
  import opened GaloisField
  import opened GaloisTables
  import ImageReceiver
  import opened LinearAlgebra
  import opened Pieces
  import opened ReceivedBlocks

  /** These packets are packets that the sender made from the k source packets of a block. */
  ghost predicate Genuine(acc: seq<Packet>, e: Matrix, k: nat, n: nat, source: Matrix) {
    && IsMatrix(e, n, k) && IsMatrix(source, k, PKT_SIZE)
    && forall j :: 0 <= j < |acc| ==> acc[j].number < n && acc[j].data == RowTimes(e[acc[j].number], source, PKT_SIZE)
  }

  /** k buffers, pairwise different. */
  ghost predicate Buffers(ps: seq<array<gf>>) {
    (forall i :: 0 <= i < |ps| ==> ps[i].Length == PKT_SIZE) && forall i, j :: 0 <= i < j < |ps| ==> ps[i] != ps[j]
  }

  function Slice(s: seq<byte>, j: nat): seq<byte>
    requires j * PKT_SIZE + PKT_SIZE <= |s|
  {
    s[j * PKT_SIZE..j * PKT_SIZE + PKT_SIZE]
  }

  lemma SliceFits(k: nat, j: nat, n: nat)
    requires j < k && n == k * PKT_SIZE
    ensures j * PKT_SIZE + PKT_SIZE <= n
  {
  }

  /** src_pkts: the packets in the buffer, one after the other. */
  method SplitPackets(s: seq<byte>, k: nat) returns (ps: seq<array<gf>>)
    requires |s| == k * PKT_SIZE
    ensures |ps| == k && Buffers(ps) && forall i :: 0 <= i < k ==> fresh(ps[i])
    ensures forall i :: 0 <= i < k ==> i * PKT_SIZE + PKT_SIZE <= |s| && ps[i][..] == Slice(s, i)
  {
    ps := [];
    while |ps| < k
      invariant |ps| <= k && Buffers(ps) && forall i :: 0 <= i < |ps| ==> fresh(ps[i])
      invariant forall i :: 0 <= i < |ps| ==> i * PKT_SIZE + PKT_SIZE <= |s| && ps[i][..] == Slice(s, i)
    {
      SliceFits(k, |ps|, |s|);
      var one := Slice(s, |ps|);
      var a := new gf[PKT_SIZE](i requires 0 <= i < |one| => one[i]);
      assert a[..] == one;
      ps := ps + [a];
    }
  }

  method Joined(ps: seq<array<gf>>) returns (s: seq<byte>)
    requires forall i :: 0 <= i < |ps| ==> PKT_SIZE <= ps[i].Length
    ensures s == Flat(Packets(ps, PKT_SIZE)) && |s| == |ps| * PKT_SIZE
  {
    s := [];
    ghost var m := Packets(ps, PKT_SIZE);
    var i := 0;
    while i < |ps|
      invariant 0 <= i <= |ps| && s == Flat(m[..i]) && |s| == i * PKT_SIZE
    {
      assert m[..i + 1] == m[..i] + [m[i]];
      FlatSnoc(m[..i], m[i]);
      s := s + ps[i][..PKT_SIZE];
      i := i + 1;
    }
    assert m[..|ps|] == m;
  }

  /** The packets in a buffer, one after the other, as the rows of a matrix. */
  ghost function Rows(s: seq<byte>, k: nat): (m: Matrix)
    requires |s| == k * PKT_SIZE
    ensures IsMatrix(m, k, PKT_SIZE) && forall j :: 0 <= j < k ==> j * PKT_SIZE + PKT_SIZE <= |s| && m[j] == Slice(s, j)
  {
    var m: seq<seq<gf>> := seq(k, j requires 0 <= j < k => SliceFits(k, j, |s|); Slice(s, j));
    assert forall j :: 0 <= j < k ==> j * PKT_SIZE + PKT_SIZE <= |s| && m[j] == Slice(s, j) by {
      forall j | 0 <= j < k ensures j * PKT_SIZE + PKT_SIZE <= |s| { SliceFits(k, j, |s|); }
    }
    m
  }

  lemma SplitIsRows(ps: seq<array<gf>>, s: seq<byte>, k: nat)
    requires |s| == k * PKT_SIZE && |ps| == k && Buffers(ps)
    requires forall i :: 0 <= i < k ==> i * PKT_SIZE + PKT_SIZE <= |s| && ps[i][..] == Slice(s, i)
    ensures Packets(ps, PKT_SIZE) == Rows(s, k)
  {
    var p, m := Packets(ps, PKT_SIZE), Rows(s, k);
    forall i | 0 <= i < k ensures p[i] == m[i] { assert p[i] == ps[i][..PKT_SIZE] == ps[i][..]; }
  }

  /** fec_decode on the packets in a buffer. */
  method RunDecoder(t: Tables, code: FecParms, s: seq<byte>, indices: seq<nat>, ghost source: Matrix)
    returns (err: int, decoded: seq<byte>)
    requires t.Ready() && code.Valid() && |s| == code.k * PKT_SIZE && |indices| == code.k
    ensures (err == 0 <==> Systematic.ValidIndices(indices, code.n)) && (err == 0 ==> |decoded| == code.k * PKT_SIZE)
    ensures err == 0 && Encoded(Rows(s, code.k), code.Encoding(), code.k, code.n, indices, source, PKT_SIZE) ==>
      decoded == Flat(source)
  {
    hide Flat, RowTimes, Systematic.IsEncoding, Systematic.ValidIndices, Encoded, Rows, Slice;
    var k := code.k;
    var ps := SplitPackets(s, k);
    SplitIsRows(ps, s, k);
    var pkt := new array<gf>[k](i requires 0 <= i < |ps| => ps[i]);
    var index := new int[k](i requires 0 <= i < |indices| => indices[i]);
    assert pkt[..] == ps && index[..] == indices;
    err := FecDecode(t, code, pkt, index, PKT_SIZE, source);
    decoded := [];
    if err == 0 {
      decoded := Joined(pkt[..]);
    }
  }

  /** A complete block, read back from flash with the rest of its write buffer, is the packets it accepted. */
  lemma ReadsBack(b: EraseBlock, acc: seq<Packet>, base: nat, flash: Flash, erasesize: nat, k: nat)
    requires BlockOk(b, acc, base, flash, erasesize, k) && Sizes(erasesize, k) && |acc| == k
    ensures
      var s := Read(flash, base, erasesize) + b.wbuf;
      |s| == k * PKT_SIZE && forall j :: 0 <= j < k ==> Rows(s, k)[j] == acc[j].data
  {
    hide Flat, Read, BlockOk, Sizes;
    var s := Read(flash, base, erasesize) + b.wbuf;
    assert |s| == k * PKT_SIZE by {
      if k > 0 { PacketReadsBack(b, acc, base, flash, erasesize, k, 0); } else { NeedsOne(erasesize, k); }
    }
    forall j | 0 <= j < k
      ensures Rows(s, k)[j] == acc[j].data
    {
      PacketReadsBack(b, acc, base, flash, erasesize, k, j);
    }
  }

  lemma NeedsOne(erasesize: nat, k: nat)
    requires Sizes(erasesize, k)
    ensures k > 0
  {
  }

  lemma GenuineIsEncoded(acc: seq<Packet>, rows: Matrix, e: Matrix, k: nat, n: nat, source: Matrix)
    requires Genuine(acc, e, k, n, source) && |acc| == k && IsMatrix(rows, k, PKT_SIZE)
    requires forall j :: 0 <= j < k ==> rows[j] == acc[j].data
    ensures Encoded(rows, e, k, n, Numbers(acc), source, PKT_SIZE)
  {
    hide RowTimes;
  }

  /** Each complete block is decoded. That fails only for a packet number that was never sent, and gives the source
      packets whichever k of the packets came. */
  method DecodeBlock(r: ImageReceiver.Receiver, t: Tables, code: FecParms, n: nat, ghost source: Matrix)
    returns (err: int, decoded: seq<byte>)
    requires r.Valid() && n < r.nrBlocks && |r.accepted[n]| == r.k == code.k && t.Ready() && code.Valid()
    ensures err == 0 <==> forall j :: 0 <= j < r.k ==> r.accepted[n][j].number < code.n
    ensures err == 0 ==> |decoded| == code.k * PKT_SIZE
    ensures Genuine(r.accepted[n], code.Encoding(), code.k, code.n, source) ==> err == 0 && decoded == Flat(source)
  {
    hide Flat, Read, BlockOk, Sizes, RowTimes;
    hide Systematic.IsEncoding, Systematic.ValidIndices, ImageReceiver.Apart, Encoded, Rows;
    var b := r.blocks[n];
    ghost var acc, base := r.accepted[n], r.bases[n];
    Complete(b, acc, base, r.flash, r.erasesize, r.k);
    Decodable(b, acc, base, r.flash, r.erasesize, r.k, code.n);
    ReadsBack(b, acc, base, r.flash, r.erasesize, r.k);
    var s := Read(r.flash, b.flashOffset - r.erasesize, r.erasesize) + b.wbuf;
    if Genuine(acc, code.Encoding(), code.k, code.n, source) {
      GenuineIsEncoded(acc, Rows(s, code.k), code.Encoding(), code.k, code.n, source);
    }
    err, decoded := RunDecoder(t, code, s, b.indices, source);
  }

  // ----- The whole image

  /** The block that the source packets carry: the last packet is filled up. */
  ghost function BlockOf(source: Matrix, erasesize: nat): seq<byte> {
    if erasesize <= |Flat(source)| then Flat(source)[..erasesize] else Flat(source)
  }

  /** Every packet that arrived with the right checksum is one the sender made, and says what its block's checksum
      is. */
  ghost predicate AllGenuine(arrivals: seq<(ImageReceiver.Received, ImageReceiver.Device)>, e: Matrix, k: nat, n: nat,
                             sources: seq<Matrix>, crc: seq<byte> -> nat, erasesize: nat) {
    && IsMatrix(e, n, k) && (forall b :: 0 <= b < |sources| ==> IsMatrix(sources[b], k, PKT_SIZE))
    && forall i :: 0 <= i < |arrivals| && arrivals[i].0.crcOk && arrivals[i].0.blockNr < |sources| ==>
         MadeFrom(arrivals[i].0, e, k, n, sources[arrivals[i].0.blockNr], crc, erasesize)
  }

  ghost predicate MadeFrom(p: ImageReceiver.Received, e: Matrix, k: nat, n: nat, source: Matrix, crc: seq<byte> -> nat,
                           erasesize: nat)
    requires IsMatrix(e, n, k) && IsMatrix(source, k, PKT_SIZE)
  {
    p.number < n && p.data == RowTimes(e[p.number], source, PKT_SIZE) && p.blockCrc == crc(BlockOf(source, erasesize))
  }

  /** The block is one the sender made, with its checksum. */
  ghost predicate BlockGenuine(acc: seq<Packet>, noted: nat, e: Matrix, k: nat, n: nat, source: Matrix,
                               crc: seq<byte> -> nat, erasesize: nat) {
    Genuine(acc, e, k, n, source) && noted == crc(BlockOf(source, erasesize))
  }

  lemma BlockFromArrivals(acc: seq<seq<Packet>>, bs: seq<EraseBlock>, before: seq<seq<Packet>>,
                          arrivals: seq<(ImageReceiver.Received, ImageReceiver.Device)>, e: Matrix, k: nat, n: nat,
                          sources: seq<Matrix>, crc: seq<byte> -> nat, erasesize: nat, b: nat)
    requires ImageReceiver.FromArrivals(acc, bs, k, before, arrivals, |arrivals|) && b < |acc| == |sources|
    requires |acc[b]| == k > 0 && before[b] == []
    requires AllGenuine(arrivals, e, k, n, sources, crc, erasesize)
    ensures BlockGenuine(acc[b], bs[b].crc, e, k, n, sources[b], crc, erasesize)
  {
    hide RowTimes, Flat;
    forall j | 0 <= j < |acc[b]|
      ensures acc[b][j].number < n && acc[b][j].data == RowTimes(e[acc[b][j].number], sources[b], PKT_SIZE)
    {
      var q := acc[b][j];
      assert q in acc[b] && ImageReceiver.Arrived(arrivals, |arrivals|, b, q);
      var i :| 0 <= i < |arrivals| && ImageReceiver.Is(arrivals[i].0, b, q);
      assert MadeFrom(arrivals[i].0, e, k, n, sources[b], crc, erasesize);
    }
    assert ImageReceiver.CrcArrived(arrivals, |arrivals|, b, bs[b].crc);
    var i :| 0 <= i < |arrivals| && ImageReceiver.Notes(arrivals[i].0, b, bs[b].crc);
    assert MadeFrom(arrivals[i].0, e, k, n, sources[b], crc, erasesize);
  }

  lemma Enough(erasesize: nat, k: nat)
    requires Sizes(erasesize, k)
    ensures erasesize <= k * PKT_SIZE
  {
  }

  /** The loop over the blocks: each is decoded and its checksum compared with the one noted. */
  method DecodeImage(r: ImageReceiver.Receiver, t: Tables, code: FecParms, crc: seq<byte> -> nat,
                     ghost sources: seq<Matrix>)
    returns (ok: bool, image: seq<seq<byte>>)
    requires r.Valid() && r.AllComplete() && r.k == code.k && t.Ready() && code.Valid() && |sources| == r.nrBlocks
    ensures ok ==> |image| == r.nrBlocks && forall n :: 0 <= n < r.nrBlocks ==> crc(image[n]) == r.blocks[n].crc
    ensures (forall n :: 0 <= n < r.nrBlocks ==>
        BlockGenuine(r.accepted[n], r.blocks[n].crc, code.Encoding(), code.k, code.n, sources[n], crc, r.erasesize)) ==>
      ok && forall n :: 0 <= n < r.nrBlocks ==> image[n] == BlockOf(sources[n], r.erasesize)
  {
    hide Flat, BlockOk, Sizes, RowTimes, Systematic.IsEncoding, ImageReceiver.Apart, Genuine;
    ghost var e := code.Encoding();
    image := [];
    ok := true;
    var n := 0;
    while n < r.nrBlocks
      invariant 0 <= n <= r.nrBlocks && |image| == n
      invariant forall i :: 0 <= i < n ==> crc(image[i]) == r.blocks[i].crc
      invariant forall i :: 0 <= i < n && BlockGenuine(r.accepted[i], r.blocks[i].crc, e, code.k, code.n, sources[i],
                                                       crc, r.erasesize) ==>
        image[i] == BlockOf(sources[i], r.erasesize)
    {
      var err, decoded := DecodeBlock(r, t, code, n, sources[n]);
      assert r.erasesize <= code.k * PKT_SIZE by { Enough(r.erasesize, code.k); }
      if err != 0 || crc(decoded[..r.erasesize]) != r.blocks[n].crc { return false, image; }
      image := image + [decoded[..r.erasesize]];
      n := n + 1;
    }
  }

  /** From arrivals to image. Whatever was lost, repeated or out of order, and wherever writes failed: when the
      receiver has finished, and the packets with the right checksum are the sender's, the image is the sender's,
      block by block. */
  method ReceiveImage(r: ImageReceiver.Receiver, arrivals: seq<(ImageReceiver.Received, ImageReceiver.Device)>,
                      t: Tables, code: FecParms, crc: seq<byte> -> nat, ghost sources: seq<Matrix>)
    returns (o: ImageReceiver.Outcome, ok: bool, image: seq<seq<byte>>)
    requires r.Valid() && r.accepted == seq(r.nrBlocks, _ => [])
    requires forall i :: 0 <= i < |arrivals| ==> |arrivals[i].0.data| == PKT_SIZE
    requires r.k == code.k && t.Ready() && code.Valid() && |sources| == r.nrBlocks
    modifies r, r.blocks
    ensures ok ==> o == ImageReceiver.Finished
    ensures t.Ready() && code.Valid() && code.Encoding() == old(code.Encoding())
    ensures
      && o == ImageReceiver.Finished
      && AllGenuine(arrivals, code.Encoding(), code.k, code.n, sources, crc, r.erasesize) ==>
      ok && |image| == |sources| && forall n :: 0 <= n < |sources| ==> image[n] == BlockOf(sources[n], r.erasesize)
  {
    hide Flat, BlockOk, Sizes, RowTimes, Systematic.IsEncoding;
    hide ImageReceiver.Apart, Genuine, AllGenuine, ImageReceiver.FromArrivals;
    ghost var e, before := code.Encoding(), r.accepted;
    ok, image := false, [];
    o := r.Receive(arrivals);
    if o == ImageReceiver.Finished {
      if AllGenuine(arrivals, e, code.k, code.n, sources, crc, r.erasesize) {
        forall n | 0 <= n < r.nrBlocks
          ensures BlockGenuine(r.accepted[n], r.blocks[n].crc, e, code.k, code.n, sources[n], crc, r.erasesize)
        {
          BlockFromArrivals(r.accepted, r.blocks[..], before, arrivals, e, code.k, code.n, sources, crc, r.erasesize,
                            n);
        }
      }
      ok, image := DecodeImage(r, t, code, crc, sources);
    }
  }
}
