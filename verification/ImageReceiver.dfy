/** The packet loop of the image receiver.

    Packets arrive lost, repeated or out of order; a write to flash may fail, and the block then
    starts again at a new place. What the device answers is given with each packet. */
module ImageReceiver {
  import opened Arithmetic
  import opened Bytes
  import opened Pieces
  import opened ReceivedBlocks
  import opened Sequences

  /** The header fields the loop looks at, and the data with its checksum as computed. */
  datatype Received = Received(totcrc: nat, blockNr: nat, number: nat, blockCrc: nat, crcOk: bool, data: seq<byte>)

  /** What the device does for this packet, should it be asked: the result of the write, of the erase, which offsets it
      calls bad eraseblocks, and what a comparison past the end of pkt_indices gives. */
  datatype Device = Device(wrote: int, erased: bool, bad: set<nat>, stray: bool)

  datatype Outcome = GoOn | Finished | Abort

  /** The blocks' places on flash: eraseblocks below the limit, no two the same. */
  ghost predicate Apart(bases: seq<nat>, erasesize: nat, limit: nat)
    requires 0 < erasesize
  {
    && IsMultiple(limit, erasesize)
    && (forall i :: 0 <= i < |bases| ==> IsMultiple(bases[i], erasesize))
    && (forall i :: 0 <= i < |bases| ==> bases[i] + erasesize <= limit)
    && (forall i, j :: 0 <= i < |bases| && 0 <= j < |bases| && i != j ==>
          bases[i] + erasesize <= bases[j] || bases[j] + erasesize <= bases[i])
  }

  lemma NoneApart(erasesize: nat)
    requires 0 < erasesize
    ensures Apart([], erasesize, 0)
  {
  }

  lemma ApartSnoc(bases: seq<nat>, erasesize: nat, limit: nat, base: nat)
    requires 0 < erasesize && Apart(bases, erasesize, limit) && limit <= base && IsMultiple(base, erasesize)
    ensures Apart(bases + [base], erasesize, base + erasesize)
  {
    NextMultiple(base, erasesize);
  }

  lemma NextMultiple(a: nat, e: nat)
    requires 0 < e && IsMultiple(a, e)
    ensures IsMultiple(a + e, e)
  {
    var q := a / e;
    assert a == q * e && a + e == (q + 1) * e;
    Remainder(a + e, q + 1, 0, e);
  }

  /** The first offset from here on, in steps of an eraseblock, that the device does not call bad. */
  function FirstGood(at: nat, bad: set<nat>, e: nat): nat
    requires 0 < e
    decreases bad
  {
    if at in bad then FirstGood(at + e, bad - {at}, e) else at
  }

  /** It is a good eraseblock, and every one passed over is bad. */
  lemma {:induction false} FirstGoodIs(at: nat, bad: set<nat>, e: nat)
    requires 0 < e && IsMultiple(at, e)
    ensures var r := FirstGood(at, bad, e); at <= r && IsMultiple(r, e) && r !in bad
    ensures forall b: nat :: at <= b < FirstGood(at, bad, e) && IsMultiple(b, e) ==> b in bad
    decreases bad
  {
    hide IsMultiple;
    if at in bad {
      NextMultiple(at, e);
      FirstGoodIs(at + e, bad - {at}, e);
      forall b: nat | at <= b < FirstGood(at, bad, e) && IsMultiple(b, e)
        ensures b in bad
      {
        if at < b < at + e { NoneBetween(at, b, e); }
      }
    }
  }

  lemma NoneBetween(at: nat, b: nat, e: nat)
    requires 0 < e && at <= b < at + e && IsMultiple(at, e) && IsMultiple(b, e)
    ensures b == at
  {
    var q := at / e;
    assert at == q * e;
    Remainder(b, q, b - at, e);
  }

  /** Where the blocks lie at first: each at the first good place behind the one before it, in a file right behind
      it. */
  ghost predicate Placed(bases: seq<nat>, limit: nat, bad: set<nat>, e: nat, fileMode: bool)
    requires 0 < e
  {
    && (forall i :: 0 <= i < |bases| ==>
          var from := if i == 0 then 0 else bases[i - 1] + e;
          bases[i] == if fileMode then from else FirstGood(from, bad, e))
    && limit == if bases == [] then 0 else bases[|bases| - 1] + e
  }

  /** The eraseblock an offset is in: the low bits are masked away. */
  function EraseStart(offset: nat, erasesize: nat): nat
    requires 0 < erasesize
  {
    offset - offset % erasesize
  }

  lemma ErasesOwn(base: nat, offset: nat, e: nat)
    requires 0 < e && IsMultiple(base, e) && base <= offset < base + e
    ensures EraseStart(offset, e) == base
  {
    var q := base / e;
    assert base == q * e;
    Remainder(offset, q, offset - base, e);
  }

  lemma {:induction false} NotBefore(at: nat, bad: set<nat>, e: nat)
    requires 0 < e
    ensures at <= FirstGood(at, bad, e)
    decreases bad
  {
    if at in bad { NotBefore(at + e, bad - {at}, e); }
  }

  class Receiver {
    const erasesize: nat
    const size: nat
    const k: nat
    const nrBlocks: nat
    const imageCrc: nat
    const fileMode: bool
    const blocks: array<EraseBlock>
    var flash: Flash
    var mtdoffset: nat
    var totalPkts: int
    var duplicates: nat
    var ignored: nat
    var badCrcs: nat
    ghost var accepted: seq<seq<Packet>>
    ghost var bases: seq<nat>

    ghost predicate BlocksOk()
      reads this, blocks
    {
      && blocks.Length == |accepted| == |bases| == nrBlocks
      && forall i :: 0 <= i < nrBlocks ==> BlockOk(blocks[i], accepted[i], bases[i], flash, erasesize, k)
    }

    ghost predicate Valid()
      reads this, blocks
    {
      && BlocksOk() && 0 < erasesize && Sizes(erasesize, k) && Apart(bases, erasesize, mtdoffset)
      && totalPkts == |Flat(accepted)|
    }

    /** What the first packet sets up: the blocks are empty and lie apart, bad eraseblocks skipped. */
    constructor (erasesize: nat, size: nat, k: nat, nrBlocks: nat, imageCrc: nat, fileMode: bool, flash: Flash,
                 bad: set<nat>)
      requires 0 < erasesize && Sizes(erasesize, k)
      ensures Valid() && accepted == seq(nrBlocks, _ => []) && fresh(blocks)
      ensures this.nrBlocks == nrBlocks && this.erasesize == erasesize && this.k == k && this.size == size
      ensures this.imageCrc == imageCrc && this.fileMode == fileMode && this.flash == flash
      ensures Placed(bases, mtdoffset, bad, erasesize, fileMode) && duplicates == ignored == badCrcs == 0
    {
      this.erasesize, this.size, this.k := erasesize, size, k;
      this.nrBlocks, this.imageCrc, this.fileMode, this.flash := nrBlocks, imageCrc, fileMode, flash;
      totalPkts, duplicates, ignored, badCrcs, mtdoffset := 0, 0, 0, 0, 0;
      var bs := new EraseBlock[nrBlocks](_ => EraseBlock(0, [], 0, [], 0));
      blocks := bs;
      accepted, bases := seq(nrBlocks, _ => []), [];
      new;
      PlaceBlocks(bad);
    }

    /** The loop over the blocks for the first packet. */
    method PlaceBlocks(bad: set<nat>)
      requires 0 < erasesize && Sizes(erasesize, k) && nrBlocks == blocks.Length && bases == []
      requires mtdoffset == 0
      requires accepted == seq(nrBlocks, _ => []) && totalPkts == 0
      modifies blocks, `mtdoffset, `bases
      ensures Valid() && Placed(bases, mtdoffset, bad, erasesize, fileMode)
    {
      AllEmpty(accepted);
      assert IsMultiple(0, erasesize);
      hide Flat, BlockOk, Sizes, Apart, IsMultiple, FirstGood;
      assert Apart(bases, erasesize, mtdoffset) by { NoneApart(erasesize); }
      var i := 0;
      while i < nrBlocks
        invariant 0 <= i <= nrBlocks && |bases| == i && IsMultiple(mtdoffset, erasesize)
        invariant Apart(bases, erasesize, mtdoffset) && Placed(bases, mtdoffset, bad, erasesize, fileMode)
        invariant forall j :: 0 <= j < i ==> BlockOk(blocks[j], [], bases[j], flash, erasesize, k)
      {
        PlaceOne(i, bad);
        i := i + 1;
      }
    }

    /** Bad eraseblocks are passed over, up to a limit if there is one. */
    method SkipBad(at0: nat, bad: set<nat>, limited: bool) returns (at: nat, ok: bool)
      requires 0 < erasesize && (limited ==> at0 < size)
      ensures ok <==> !limited || FirstGood(at0, bad, erasesize) < size
      ensures ok ==> at == FirstGood(at0, bad, erasesize)
    {
      at := at0;
      ghost var rest := bad;
      while at in bad
        invariant at0 <= at && rest <= bad && (forall b :: b in bad && at <= b ==> b in rest)
        invariant FirstGood(at, rest, erasesize) == FirstGood(at0, bad, erasesize)
        invariant limited ==> at < size
        decreases rest
      {
        rest := rest - {at};
        at := at + erasesize;
        if limited && at >= size {
          NotBefore(at, rest, erasesize);
          return at, false;
        }
      }
      ok := true;
    }

    /** The next block gets the next place that is not bad. */
    method PlaceOne(i: nat, bad: set<nat>)
      requires 0 < erasesize && i < blocks.Length && |bases| == i
      requires IsMultiple(mtdoffset, erasesize) && Apart(bases, erasesize, mtdoffset)
      requires Placed(bases, mtdoffset, bad, erasesize, fileMode)
      modifies blocks, `mtdoffset, `bases
      ensures |bases| == i + 1 && bases[..i] == old(bases) && IsMultiple(mtdoffset, erasesize)
      ensures Apart(bases, erasesize, mtdoffset) && Placed(bases, mtdoffset, bad, erasesize, fileMode)
      ensures BlockOk(blocks[i], [], bases[i], flash, erasesize, k)
      ensures forall j :: 0 <= j < blocks.Length && j != i ==> blocks[j] == old(blocks[j])
    {
      hide BlockOk, Apart, IsMultiple, FirstGood;
      var base := mtdoffset;
      if !fileMode {
        var ok;
        base, ok := SkipBad(mtdoffset, bad, false);
        FirstGoodIs(mtdoffset, bad, erasesize);
      }
      NextMultiple(base, erasesize);
      NothingYet(base, flash, erasesize, k, 0);
      ApartSnoc(bases, erasesize, mtdoffset, base);
      blocks[i] := EraseBlock(base, [], 0, [], 0);
      bases := bases + [base];
      mtdoffset := base + erasesize;
    }

    /** The search for the packet number among those the block has. `past`: it read beyond the k numbers there are,
        where anything may be found. */
    method Seen(n: nat, number: nat, stray: bool) returns (seen: bool, past: bool)
      requires Valid() && n < nrBlocks
      ensures seen <==> number in blocks[n].indices || (past && stray)
      ensures past <==> blocks[n].nrPkts > k && number !in blocks[n].indices
    {
      hide Flat, Read, Data, Apart;
      var b := blocks[n];
      assert BlockOk(b, accepted[n], bases[n], flash, erasesize, k);
      past := false;
      var i := 0;
      while i < b.nrPkts
        invariant 0 <= i <= b.nrPkts && (past <==> i > k) && !(past && stray)
        invariant forall m :: 0 <= m < i && m < |b.indices| ==> b.indices[m] != number
      {
        past := past || i >= k;
        if if i < k then b.indices[i] == number else stray {
          return true, past;
        }
        i := i + 1;
      }
      return false, past;
    }

    /** Other blocks are as they were when block n changes and a place of its own is written. */
    lemma OthersKept(n: nat, at: nat, s: seq<byte>, base: nat)
      requires Valid() && n < nrBlocks
      requires forall i :: 0 <= i < nrBlocks && i != n ==>
        base + erasesize <= bases[i] || bases[i] + erasesize <= base
      requires base <= at && at + |s| <= base + erasesize
      ensures forall i :: 0 <= i < nrBlocks && i != n ==>
        BlockOk(blocks[i], accepted[i], bases[i], Written(flash, at, s), erasesize, k)
    {
      hide BlockOk, Written, Flat;
      forall i | 0 <= i < nrBlocks && i != n
        ensures BlockOk(blocks[i], accepted[i], bases[i], Written(flash, at, s), erasesize, k)
      {
        Undisturbed(blocks[i], accepted[i], bases[i], flash, erasesize, k, at, s);
      }
    }

    /** The packet fits into the write buffer. */
    method PutInBuffer(n: nat, p: Packet)
      requires Valid() && n < nrBlocks && |accepted[n]| < k && |p.data| == PKT_SIZE && p.number !in blocks[n].indices
      requires |blocks[n].wbuf| + PKT_SIZE < WBUF_SIZE
      modifies blocks, `totalPkts, `accepted
      ensures Valid() && accepted == old(accepted)[n := old(accepted)[n] + [p]]
      ensures blocks[n].nrPkts == old(blocks[n].nrPkts) + 1 && blocks[n].crc == old(blocks[n].crc)
      ensures forall i :: 0 <= i < nrBlocks && i != n ==> blocks[i] == old(blocks[i])
    {
      hide BlockOk, Flat, Apart;
      var b := blocks[n];
      Buffered(b, accepted[n], bases[n], flash, erasesize, k, p);
      FlatUpdate(accepted, n, accepted[n] + [p]);
      blocks[n] := b.(wbuf := b.wbuf + p.data, nrPkts := b.nrPkts + 1, indices := b.indices + [p.number]);
      totalPkts := totalPkts + 1;
      accepted := accepted[n := accepted[n] + [p]];
    }

    /** The packet fills the write buffer, which goes out to flash. */
    method PutAndFlush(n: nat, p: Packet)
      requires Valid() && n < nrBlocks && |accepted[n]| < k && |p.data| == PKT_SIZE && p.number !in blocks[n].indices
      requires WBUF_SIZE <= |blocks[n].wbuf| + PKT_SIZE && |blocks[n].wbuf| <= WBUF_SIZE
      modifies blocks, `totalPkts, `accepted, `flash
      ensures Valid() && accepted == old(accepted)[n := old(accepted)[n] + [p]]
      ensures blocks[n].nrPkts == old(blocks[n].nrPkts) + 1 && blocks[n].crc == old(blocks[n].crc)
      ensures forall i :: 0 <= i < nrBlocks && i != n ==> blocks[i] == old(blocks[i])
    {
      hide BlockOk, Flat, Written;
      var b := blocks[n];
      var fits := WBUF_SIZE - |b.wbuf|;
      FlushedOut(b, accepted[n], bases[n], flash, erasesize, k, p);
      assert bases[n] <= b.flashOffset by { AtOrAfter(b, accepted[n], bases[n], flash, erasesize, k); }
      OthersKept(n, b.flashOffset, b.wbuf + p.data[..fits], bases[n]);
      FlatUpdate(accepted, n, accepted[n] + [p]);
      flash := Written(flash, b.flashOffset, b.wbuf + p.data[..fits]);
      blocks[n] := EraseBlock(b.flashOffset + WBUF_SIZE, p.data[fits..], b.nrPkts + 1, b.indices + [p.number], b.crc);
      totalPkts := totalPkts + 1;
      accepted := accepted[n := accepted[n] + [p]];
    }

    /** Whatever is written into a block's own eraseblock, the other blocks do not see it. */
    method Disturb(n: nat, at: nat, junk: seq<byte>)
      requires Valid() && n < nrBlocks && bases[n] <= at && at + |junk| <= bases[n] + erasesize
      modifies `flash
      ensures flash == Written(old(flash), at, junk)
      ensures forall i :: 0 <= i < nrBlocks && i != n ==> BlockOk(blocks[i], accepted[i], bases[i], flash, erasesize, k)
    {
      hide BlockOk, Flat, Written;
      OthersKept(n, at, junk, bases[n]);
      flash := Written(flash, at, junk);
    }

    /** After a failed write: not a device, not erased, or no good place left. */
    predicate NoOtherPlace(d: Device)
      requires 0 < erasesize
      reads this
    {
      fileMode || !d.erased || mtdoffset >= size || FirstGood(mtdoffset, d.bad, erasesize) >= size
    }

    /** The packet fills the write buffer of its block and the write fails. */
    predicate WriteFails(n: nat, d: Device)
      requires n < blocks.Length
      reads this, blocks
    {
      |blocks[n].wbuf| + PKT_SIZE >= WBUF_SIZE && d.wrote < WBUF_SIZE
    }

    /** The packet fills the write buffer of its block and the write fails, for good. */
    predicate WriteLost(n: nat, d: Device)
      requires n < blocks.Length && 0 < erasesize
      reads this, blocks
    {
      WriteFails(n, d) && NoOtherPlace(d)
    }

    /** A write that failed: the eraseblock is erased and the block starts again, empty, at the next good place. */
    method StartAgain(n: nat, d: Device) returns (ok: bool)
      requires Valid() && n < nrBlocks && blocks[n].flashOffset + WBUF_SIZE <= bases[n] + erasesize
      requires blocks[n].nrPkts == |accepted[n]|
      modifies blocks, this
      ensures ok <==> !old(NoOtherPlace(d))
      ensures ok ==> Valid() && accepted == old(accepted)[n := []]
      ensures ok ==> blocks[n].wbuf == [] && blocks[n].nrPkts == 0 && blocks[n].indices == []
      ensures ok ==>
        blocks[n].crc == old(blocks[n].crc) && forall i :: 0 <= i < nrBlocks && i != n ==> blocks[i] == old(blocks[i])
      ensures ok ==>
        && bases == old(bases)[n := FirstGood(old(mtdoffset), d.bad, erasesize)]
        && blocks[n].flashOffset == bases[n] && mtdoffset == bases[n] + erasesize
      ensures ok ==> bases[n] < size && bases[n] !in d.bad
      ensures !ok && !fileMode && d.erased ==>
        forall b: nat :: old(mtdoffset) <= b < size && IsMultiple(b, erasesize) ==> b in d.bad
      ensures ok ==> flash == Written(old(flash), old(bases[n]), seq(erasesize, _ => 255))
      ensures duplicates == old(duplicates) && ignored == old(ignored) && badCrcs == old(badCrcs)
    {
      hide BlockOk, Flat, Written, FirstGood, IsMultiple;
      var b := blocks[n];
      assert bases[n] <= b.flashOffset by { AtOrAfter(b, accepted[n], bases[n], flash, erasesize, k); }
      ErasesOwn(bases[n], b.flashOffset, erasesize);
      var start := EraseStart(b.flashOffset, erasesize);
      if fileMode || !d.erased || mtdoffset >= size { return false; }
      FirstGoodIs(mtdoffset, d.bad, erasesize);
      var place;
      place, ok := SkipBad(mtdoffset, d.bad, true);
      if !ok { return; }
      Disturb(n, start, seq(erasesize, _ => 255));
      MovedApart(bases, erasesize, mtdoffset, n, place);
      NothingYet(place, flash, erasesize, k, b.crc);
      FlatUpdate(accepted, n, []);
      blocks[n] := EraseBlock(place, [], 0, [], b.crc);
      totalPkts := totalPkts - b.nrPkts;
      mtdoffset := place + erasesize;
      accepted, bases := accepted[n := []], bases[n := place];
    }

    /** From pkt_again on: the packet is stored, after a failed write as the first one of its block. */
    method Put(n: nat, p: Packet, d: Device) returns (ok: bool)
      requires Valid() && n < nrBlocks && |accepted[n]| < k && |p.data| == PKT_SIZE && p.number !in blocks[n].indices
      modifies blocks, this
      ensures ok <==> !old(WriteLost(n, d))
      ensures ok ==> Valid() && n < |old(accepted)| && blocks[n].nrPkts == |accepted[n]|
      ensures ok ==>
        blocks[n].crc == old(blocks[n].crc) && forall i :: 0 <= i < nrBlocks && i != n ==> blocks[i] == old(blocks[i])
      ensures ok ==>
        accepted == old(accepted)[n := if old(WriteFails(n, d)) then [p] else old(accepted)[n] + [p]]
      ensures duplicates == old(duplicates) && ignored == old(ignored) && badCrcs == old(badCrcs)
    {
      hide Flat, BlockOk, Sizes, FirstGood;
      var b := blocks[n];
      AtOrAfter(b, accepted[n], bases[n], flash, erasesize, k);
      if |b.wbuf| + PKT_SIZE < WBUF_SIZE {
        PutInBuffer(n, p);
      } else if d.wrote < WBUF_SIZE {
        FlushedOut(b, accepted[n], bases[n], flash, erasesize, k, p);
        ok := StartAgain(n, d);
        if !ok { return; }
        assert [] + [p] == [p];
        PutInBuffer(n, p);
      } else {
        PutAndFlush(n, p);
      }
      ok := true;
    }

    ghost predicate AllComplete()
      reads this
    {
      forall i :: 0 <= i < |accepted| ==> |accepted[i]| == k
    }

    /** The packet is not wanted: its block has it, or enough without it, or its checksum is wrong. */
    ghost predicate Unwanted(p: Received)
      requires p.blockNr < |accepted|
      reads this
    {
      p.number in Numbers(accepted[p.blockNr]) || |accepted[p.blockNr]| == k || !p.crcOk
    }

    /** The receiver gives up: the packet is of another image or of no block, or its write is lost. */
    ghost predicate GivesUp(p: Received, d: Device)
      requires Valid()
      reads this, blocks
    {
      p.totcrc != imageCrc || p.blockNr >= nrBlocks || (!Unwanted(p) && WriteLost(p.blockNr, d))
    }

    /** The packet is one too many for its block, and the search went beyond the numbers of those it has. */
    ghost predicate ReadsPast(p: Received)
      reads this, blocks
    {
      p.blockNr < blocks.Length && blocks[p.blockNr].nrPkts > k && p.number !in blocks[p.blockNr].indices
    }

    /** The search finds the packet: the block has it, or memory behind the numbers happens to hold it. */
    ghost predicate Had(p: Received, d: Device)
      reads this, blocks
    {
      p.blockNr < blocks.Length && (p.number in blocks[p.blockNr].indices || (ReadsPast(p) && d.stray))
    }

    ghost predicate Enough(p: Received)
      reads this, blocks
    {
      p.blockNr < blocks.Length && blocks[p.blockNr].nrPkts >= k
    }

    /** A packet counts as a duplicate, else as one too many, else as damaged, else as none of these. */
    ghost predicate Counted(duplicates0: nat, ignored0: nat, badCrcs0: nat, had: bool, enough: bool, crcOk: bool)
      reads this
    {
      && duplicates == duplicates0 + (if had then 1 else 0)
      && ignored == ignored0 + (if !had && enough then 1 else 0)
      && badCrcs == badCrcs0 + if !had && !enough && !crcOk then 1 else 0
    }

    /** One turn of the loop. */
    method ReceivePacket(p: Received, d: Device) returns (o: Outcome, past: bool)
      requires Valid() && |p.data| == PKT_SIZE
      modifies blocks, this
      ensures o == Abort <==> old(GivesUp(p, d))
      ensures o != Abort ==>
        Valid() && p.totcrc == imageCrc && p.blockNr < nrBlocks == |old(accepted)| && (past <==> old(ReadsPast(p)))
      ensures o != Abort && old(Unwanted(p)) ==> accepted == old(accepted) && flash == old(flash) && o == GoOn
      ensures o != Abort && !old(Unwanted(p)) ==>
        Stores(old(accepted), p, old(WriteFails(p.blockNr, d))) && blocks[p.blockNr].nrPkts == |accepted[p.blockNr]|
      ensures o != Abort ==> KeepsOthers(old(blocks[..]), p.blockNr)
      ensures
        && o != Abort && old(Unwanted(p)) && |accepted[p.blockNr]| == k
        && p.number !in Numbers(accepted[p.blockNr]) ==>
        blocks[p.blockNr].nrPkts == old(blocks[p.blockNr].nrPkts) + (if past && d.stray then 0 else 1)
      ensures o != Abort ==> NotesCrc(p, !old(Unwanted(p)), old(blocks[..]))
      ensures o != Abort ==>
        Counted(old(duplicates), old(ignored), old(badCrcs), old(Had(p, d)), old(Enough(p)), p.crcOk)
      ensures o == Finished ==> AllComplete()
      ensures o == GoOn && accepted != old(accepted) ==> !AllComplete()
    {
      hide Flat, BlockOk, Sizes, Apart, FirstGood;
      past := false;
      if p.totcrc != imageCrc || p.blockNr >= nrBlocks { return Abort, past; }
      var n := p.blockNr;
      AtOrAfter(blocks[n], accepted[n], bases[n], flash, erasesize, k);
      var seen;
      seen, past := Seen(n, p.number, d.stray);
      if seen {
        duplicates := duplicates + 1;
        return GoOn, past;
      }
      if blocks[n].nrPkts >= k {
        MoreThanEnough(blocks[n], accepted[n], bases[n], flash, erasesize, k);
        blocks[n] := blocks[n].(nrPkts := blocks[n].nrPkts + 1);
        ignored := ignored + 1;
        return GoOn, past;
      }
      if !p.crcOk {
        badCrcs := badCrcs + 1;
        return GoOn, past;
      }
      var ok := Put(n, Packet(p.number, p.data), d);
      if !ok { return Abort, past; }
      o := LastCheck(n, p.blockCrc);
    }

    /** The packet is the next one of its block, or, after a failed write, the first one. */
    ghost predicate Stores(before: seq<seq<Packet>>, p: Received, failed: bool)
      reads this
    {
      var n, q := p.blockNr, Packet(p.number, p.data);
      n < |before| && accepted == before[n := if failed then [q] else before[n] + [q]]
    }

    /** The packet that fills a block says what the block's checksum is. */
    ghost predicate NotesCrc(p: Received, stored: bool, before: seq<EraseBlock>)
      reads this, blocks
    {
      && p.blockNr < |before| == blocks.Length == |accepted|
      && blocks[p.blockNr].crc == if stored && |accepted[p.blockNr]| == k then p.blockCrc else before[p.blockNr].crc
    }

    ghost predicate KeepsOthers(before: seq<EraseBlock>, n: nat)
      reads this, blocks
    {
      |before| == blocks.Length && forall i :: 0 <= i < blocks.Length && i != n ==> blocks[i] == before[i]
    }

    /** The end of the loop body: the block's checksum is noted when it is full, and the loop ends when all are. */
    method LastCheck(n: nat, crc: nat) returns (o: Outcome)
      requires Valid() && n < nrBlocks && blocks[n].nrPkts == |accepted[n]|
      modifies blocks
      ensures Valid() && (o == Finished || o == GoOn) && (o == Finished <==> AllComplete())
      ensures blocks[n].crc == (if |accepted[n]| == k then crc else old(blocks[n].crc))
      ensures blocks[n].nrPkts == old(blocks[n].nrPkts)
      ensures forall i :: 0 <= i < nrBlocks && i != n ==> blocks[i] == old(blocks[i])
    {
      hide Flat, BlockOk, Apart, Sizes;
      forall i | 0 <= i < nrBlocks
        ensures |accepted[i]| <= k
      {
        AtOrAfter(blocks[i], accepted[i], bases[i], flash, erasesize, k);
      }
      AllFull(accepted, k);
      if blocks[n].nrPkts == k {
        CrcNoted(blocks[n], accepted[n], bases[n], flash, erasesize, k, crc);
        blocks[n] := blocks[n].(crc := crc);
        if totalPkts == nrBlocks * k { return Finished; }
        if AllComplete() { FullCount(accepted, k); }
      }
      return GoOn;
    }

    ghost predicate AllArrived(before: seq<seq<Packet>>, arrivals: seq<(Received, Device)>, upto: nat)
      reads this, blocks
    {
      FromArrivals(accepted, blocks[..], k, before, arrivals, upto)
    }

    /** The whole loop, over the packets that arrive. */
    method Receive(arrivals: seq<(Received, Device)>) returns (o: Outcome)
      requires Valid() && forall i :: 0 <= i < |arrivals| ==> |arrivals[i].0.data| == PKT_SIZE
      modifies blocks, this
      ensures o != Abort ==> Valid() && AllArrived(old(accepted), arrivals, |arrivals|)
      ensures o == Finished ==> AllComplete()
      ensures o == Finished ==> forall n :: 0 <= n < nrBlocks ==> blocks[n].flashOffset == bases[n] + erasesize
      ensures o == Finished ==>
        forall n :: 0 <= n < nrBlocks ==> Distinct(blocks[n].indices) && |blocks[n].indices| == k
    {
      hide Flat, BlockOk, Sizes, Apart, AllArrived;
      o := GoOn;
      var i := 0;
      assert AllArrived(accepted, arrivals, 0) by { NoneArrived(arrivals); }
      while i < |arrivals| && o == GoOn
        invariant 0 <= i <= |arrivals| && (o != Abort ==> Valid() && AllArrived(old(accepted), arrivals, i))
        invariant (o == Finished ==> AllComplete())
        decreases |arrivals| - i
      {
        o := Turn(old(accepted), arrivals, i);
        i := i + 1;
      }
      if o != Abort { MoreArrived(old(accepted), arrivals, i, |arrivals|); }
      if o == Finished {
        forall n | 0 <= n < nrBlocks
          ensures blocks[n].flashOffset == bases[n] + erasesize && Distinct(blocks[n].indices)
          ensures |blocks[n].indices| == k
        {
          Complete(blocks[n], accepted[n], bases[n], flash, erasesize, k);
        }
      }
    }

    method Turn(ghost before: seq<seq<Packet>>, arrivals: seq<(Received, Device)>, i: nat) returns (o: Outcome)
      requires Valid() && i < |arrivals| && |arrivals[i].0.data| == PKT_SIZE && AllArrived(before, arrivals, i)
      modifies blocks, this
      ensures o != Abort ==> Valid() && AllArrived(before, arrivals, i + 1)
      ensures o == Finished ==> AllComplete()
    {
      hide Flat, BlockOk, Sizes, Apart, BlocksOk;
      var p, d := arrivals[i].0, arrivals[i].1;
      ghost var had, bs := accepted, blocks[..];
      assert blocks.Length == |had| by { SameLengths(); }
      var past;
      o, past := ReceivePacket(p, d);
      if o != Abort {
        assert blocks.Length == |accepted| by { SameLengths(); }
        OneArrived(had, bs, accepted, blocks[..], k, before, arrivals, i, !old(Unwanted(p)));
      }
    }

    lemma SameLengths()
      requires BlocksOk()
      ensures blocks.Length == |accepted|
    {
    }

    lemma NoneArrived(arrivals: seq<(Received, Device)>)
      requires Valid()
      ensures AllArrived(accepted, arrivals, 0)
    {
    }

    lemma MoreArrived(before: seq<seq<Packet>>, arrivals: seq<(Received, Device)>, i: nat, j: nat)
      requires AllArrived(before, arrivals, i) && i <= j
      ensures AllArrived(before, arrivals, j)
    {
    }
  }

  /** Every packet of a block that it did not have before is one of the first `upto` that arrived for it, with the right
      checksum; and so is the one that filled it, whose block checksum is noted. */
  ghost predicate FromArrivals(acc: seq<seq<Packet>>, bs: seq<EraseBlock>, k: nat, before: seq<seq<Packet>>,
                               arrivals: seq<(Received, Device)>, upto: nat) {
    && |before| == |acc| == |bs|
    && (forall n, q :: 0 <= n < |acc| && q in acc[n] ==> q in before[n] || Arrived(arrivals, upto, n, q))
    && (forall n :: 0 <= n < |acc| && |acc[n]| == k && |before[n]| < k ==> CrcArrived(arrivals, upto, n, bs[n].crc))
  }

  lemma OneArrived(had: seq<seq<Packet>>, bs: seq<EraseBlock>, acc: seq<seq<Packet>>, cs: seq<EraseBlock>, k: nat,
                   before: seq<seq<Packet>>, arrivals: seq<(Received, Device)>, i: nat, wanted: bool)
    requires i < |arrivals| && FromArrivals(had, bs, k, before, arrivals, i) && |acc| == |had| == |cs|
    requires arrivals[i].0.blockNr < |had| && forall n :: 0 <= n < |cs| && n != arrivals[i].0.blockNr ==> cs[n] == bs[n]
    requires var p := arrivals[i].0;
      if !wanted then acc == had && cs[p.blockNr].crc == bs[p.blockNr].crc
      else
        && p.crcOk && (|acc[p.blockNr]| == k ==> cs[p.blockNr].crc == p.blockCrc)
        && StoredIn(acc, had, p.blockNr, Packet(p.number, p.data))
    ensures FromArrivals(acc, cs, k, before, arrivals, i + 1)
  {
    var p := arrivals[i].0;
    var m, q := p.blockNr, Packet(p.number, p.data);
    if wanted {
      assert Is(p, m, q) && Arrived(arrivals, i + 1, m, q);
      assert Notes(p, m, p.blockCrc) && CrcArrived(arrivals, i + 1, m, p.blockCrc);
    }
  }

  predicate StoredIn(acc: seq<seq<Packet>>, had: seq<seq<Packet>>, n: nat, q: Packet) {
    n < |had| && (acc == had[n := had[n] + [q]] || acc == had[n := [q]])
  }

  /** This packet is among the first `upto` that arrived, for block n and with the right checksum. */
  ghost predicate Arrived(arrivals: seq<(Received, Device)>, upto: nat, n: nat, q: Packet) {
    exists i :: 0 <= i < upto && i < |arrivals| && Is(arrivals[i].0, n, q)
  }

  predicate Is(p: Received, n: nat, q: Packet) {
    p.blockNr == n && p.crcOk && p.number == q.number && p.data == q.data
  }

  ghost predicate CrcArrived(arrivals: seq<(Received, Device)>, upto: nat, n: nat, crc: nat) {
    exists i :: 0 <= i < upto && i < |arrivals| && Notes(arrivals[i].0, n, crc)
  }

  predicate Notes(p: Received, n: nat, crc: nat) {
    p.blockNr == n && p.crcOk && p.blockCrc == crc
  }

  lemma {:induction false} FullCount(xs: seq<seq<Packet>>, k: nat)
    requires forall i :: 0 <= i < |xs| ==> |xs[i]| == k
    ensures |Flat(xs)| == |xs| * k
  {
    if xs != [] {
      var n := |xs| - 1;
      FullCount(xs[..n], k);
      assert |xs| * k == n * k + k;
    }
  }

  lemma MoreThanEnough(b: EraseBlock, acc: seq<Packet>, base: nat, flash: Flash, erasesize: nat, k: nat)
    requires BlockOk(b, acc, base, flash, erasesize, k) && b.nrPkts >= k
    ensures BlockOk(b.(nrPkts := b.nrPkts + 1), acc, base, flash, erasesize, k)
  {
  }

  lemma CrcNoted(b: EraseBlock, acc: seq<Packet>, base: nat, flash: Flash, erasesize: nat, k: nat, crc: nat)
    requires BlockOk(b, acc, base, flash, erasesize, k)
    ensures BlockOk(b.(crc := crc), acc, base, flash, erasesize, k)
  {
  }

  lemma MovedApart(bases: seq<nat>, e: nat, limit: nat, n: nat, place: nat)
    requires 0 < e && Apart(bases, e, limit) && n < |bases| && limit <= place && IsMultiple(place, e)
    ensures Apart(bases[n := place], e, place + e)
  {
    NextMultiple(place, e);
  }

  lemma AtOrAfter(b: EraseBlock, acc: seq<Packet>, base: nat, flash: Flash, erasesize: nat, k: nat)
    requires BlockOk(b, acc, base, flash, erasesize, k)
    ensures base <= b.flashOffset <= base + erasesize && |b.wbuf| < WBUF_SIZE && |acc| <= k && b.indices == Numbers(acc)
    ensures b.nrPkts < k ==> b.nrPkts == |acc|
    ensures b.nrPkts >= k ==> |acc| == k
  {
  }

  lemma AllEmpty(xs: seq<seq<Packet>>)
    requires forall i :: 0 <= i < |xs| ==> xs[i] == []
    ensures |Flat(xs)| == 0
  {
  }

  lemma NothingYet(base: nat, flash: Flash, erasesize: nat, k: nat, crc: nat)
    ensures BlockOk(EraseBlock(base, [], 0, [], crc), [], base, flash, erasesize, k)
  {
  }

  // ----- A search past the end

  ghost predicate ForExample(r: Receiver) {
    r.k == 2 && r.nrBlocks == 2 && r.imageCrc == 0
  }

  method TwoPackets(r: Receiver, data: seq<byte>, d: Device)
    requires r.Valid() && ForExample(r) && r.accepted == [[], []] && |data| == PKT_SIZE && d.wrote == WBUF_SIZE
    modifies r, r.blocks
    ensures r.Valid() && r.accepted == [[Packet(0, data), Packet(1, data)], []] && r.blocks[0].nrPkts == 2
  {
    hide Sizes, Apart, BlockOk, Flat;
    var o, past := r.ReceivePacket(Received(0, 0, 0, 0, true, data), d);
    ghost var none: seq<Packet>, q, u := [], Packet(0, data), Packet(1, data);
    assert none + [q] == [q];
    assert r.accepted == [[q], none];
    assert Numbers(r.accepted[0]) == [0];
    o, past := r.ReceivePacket(Received(0, 0, 1, 0, true, data), d);
    assert [q] + [u] == [q, u];
    assert r.accepted == [[q, u], none];
  }

  /** The first four packets of a block that needs two, while another block is not complete: for the last one the search
      goes past the end of the numbers. */
  method PastTheEnd(flash: Flash) returns (r: Receiver, past: bool)
    ensures fresh(r) && fresh(r.blocks) && r.Valid() && r.k == 2 && r.nrBlocks == 2 && r.blocks[0].nrPkts == 4 && past
  {
    var data: seq<byte> := seq(PKT_SIZE, _ => 0);
    var d := Device(WBUF_SIZE, true, {}, false);
    r := new Receiver(4096, 8192, 2, 2, 0, false, flash, {});
    hide Sizes, Apart, BlockOk, Flat;
    TwoPackets(r, data, d);
    assert Numbers(r.accepted[0]) == [0, 1];
    AtOrAfter(r.blocks[0], r.accepted[0], r.bases[0], r.flash, r.erasesize, r.k);
    var o;
    o, past := r.ReceivePacket(Received(0, 0, 2, 0, true, data), d);
    AtOrAfter(r.blocks[0], r.accepted[0], r.bases[0], r.flash, r.erasesize, r.k);
    o, past := r.ReceivePacket(Received(0, 0, 3, 0, true, data), d);
  }
}
