/** Building one squashfs directory in memory: scan3_init_dir, add_dir, and the last header that write_dir fills in. */
module DirectoryWriter {
  import opened Bytes
  import opened DirectoryFormat
  import opened MetadataBlocks
  import opened Pieces

  /** An index entry: the position of a header in the directory, and the name of the entry behind it. */
  datatype Index = Index(index: nat, name: seq<byte>)

  function Truncated(name: seq<byte>): seq<byte> {
    if |name| > NAME_LEN then name[..NAME_LEN] else name
  }

  lemma TruncatedIs(name: seq<byte>)
    ensures Truncated(name) <= name && |Truncated(name)| == if |name| > 256 then 256 else |name|
  {
  }

  /** No two neighbouring index positions, nor the last one and the end, are further apart than this. */
  const MAX_GAP: nat := METADATA_SIZE + HEADER_SIZE

  function LastIndex(index: seq<Index>): nat {
    if index == [] then 0 else index[|index| - 1].index
  }

  ghost predicate Spaced(index: seq<Index>) {
    forall i :: 0 <= i < |index| ==> LastIndex(index[..i]) <= index[i].index <= LastIndex(index[..i]) + MAX_GAP
  }

  lemma SpacedSnoc(index: seq<Index>, x: Index)
    requires Spaced(index) && LastIndex(index) <= x.index <= LastIndex(index) + MAX_GAP
    ensures Spaced(index + [x])
  {
    var more := index + [x];
    forall i | 0 <= i < |more| ensures LastIndex(more[..i]) <= more[i].index <= LastIndex(more[..i]) + MAX_GAP {
      assert more[..i] == index[..i];
      if i == |index| { assert index[..i] == index; }
    }
  }

  // ----- How far apart index positions are

  /** Of a directory in memory: its length, and of its open run the number of entries, start block and number; and the
      last index position. */
  datatype Shape = Shape(len: nat, headed: bool, count: nat, start: nat, base: nat, indexAt: nat)

  const NEW_SHAPE: Shape := Shape(0, false, 256, 0, 0, 0)

  /** An entry with a name of that size goes beyond a block from the last index position. */
  predicate BeyondBlock(h: Shape, size: nat) {
    h.headed && h.len + ENTRY_SIZE + size > h.indexAt + METADATA_SIZE
  }

  /** The other reasons for a new header. */
  predicate OtherRun(h: Shape, start: nat, number: nat) {
    h.count == 256 || start != h.start || !Near(number, h.base)
  }

  function AfterEntry(h: Shape, start: nat, number: nat, size: nat): Shape {
    if !BeyondBlock(h, size) && !OtherRun(h, start, number) then
      h.(len := h.len + ENTRY_SIZE + size, count := h.count + 1)
    else
      Shape(h.len + HEADER_SIZE + ENTRY_SIZE + size, true, 1, start, number,
            if BeyondBlock(h, size) then h.len else h.indexAt)
  }

  /** An entry begins a new run exactly if there is none, or it has 256 entries, or the inode is in another block, or
      its number is too far from the run's for 16 bits with a sign, or the entry would end more than 8192 bytes behind
      the last index position; and only for this last reason there is a new index position, the end of what was
      there. */
  lemma NewRunIff(h: Shape, start: nat, number: nat, size: nat)
    requires ShapeOk(h)
    ensures
      var g := AfterEntry(h, start, number, size);
      var beyond := h.headed && h.len + 8 + size > h.indexAt + 8192;
      var anew := !h.headed || beyond || h.count == 256 || start != h.start
        || number > h.base + 32767 || number + 32768 < h.base;
      && g.len == h.len + 8 + size + (if anew then 12 else 0)
      && (anew ==> g.headed && g.count == 1 && g.start == start && g.base == number)
      && (!anew ==> g.headed && g.count == h.count + 1 && g.start == h.start && g.base == h.base)
      && g.indexAt == if beyond then h.len else h.indexAt
  {
  }

  /** The directory has grown by more than a block since the last index position. */
  predicate Wide(h: Shape) {
    h.len > h.indexAt + METADATA_SIZE
  }

  /** The entry needs a header for another reason than its size, and fits into the block without that header only. */
  predicate OpensWide(h: Shape, start: nat, number: nat, size: nat) {
    && h.headed && OtherRun(h, start, number)
    && h.len + ENTRY_SIZE + size <= h.indexAt + METADATA_SIZE < h.len + HEADER_SIZE + ENTRY_SIZE + size
  }

  predicate ShapeOk(h: Shape) {
    (h.headed || (h.len == 0 && h.count == 256 && h.indexAt == 0)) && h.indexAt <= h.len
  }

  /** That, and nothing else, makes a directory grow by more than a block between index positions. */
  lemma WideIff(h: Shape, start: nat, number: nat, size: nat)
    requires ShapeOk(h) && size <= NAME_LEN
    ensures Wide(AfterEntry(h, start, number, size)) <==> OpensWide(h, start, number, size)
  {
  }

  /** Which gaps between index positions are wider than a block. */
  ghost predicate Gaps(index: seq<Index>, wide: seq<bool>) {
    |wide| == |index| && forall i :: 0 <= i < |index| ==>
      (wide[i] <==> index[i].index > LastIndex(index[..i]) + METADATA_SIZE)
  }

  lemma GapsSnoc(index: seq<Index>, wide: seq<bool>, x: Index)
    requires Gaps(index, wide)
    ensures Gaps(index + [x], wide + [x.index > LastIndex(index) + METADATA_SIZE])
  {
    var more, mw := index + [x], wide + [x.index > LastIndex(index) + METADATA_SIZE];
    forall i | 0 <= i < |more| ensures mw[i] <==> more[i].index > LastIndex(more[..i]) + METADATA_SIZE {
      assert more[..i] == index[..i];
      if i == |index| { assert index[..i] == index; }
    }
  }

  /** Index entry x points at the header of run k and names that run's first entry. */
  ghost predicate PointsAt(rs: seq<Run>, x: Index, k: nat)
    requires AllFit(rs)
  {
    k < |rs| && x.index == Start(RunPieces(rs), k) && x.name == rs[k].entries[0].name
  }

  ghost predicate AllPoint(rs: seq<Run>, index: seq<Index>, at: seq<nat>)
    requires AllFit(rs)
  {
    |at| == |index| && forall i :: 0 <= i < |index| ==> PointsAt(rs, index[i], at[i])
  }

  lemma PointsAfterAppend(rs: seq<Run>, r: Run, index: seq<Index>, at: seq<nat>)
    requires AllFit(rs) && Fits(r) && AllPoint(rs, index, at)
    ensures AllFit(rs + [r]) && AllPoint(rs + [r], index, at)
  {
    hide Fits, EncodeRun, Flat;
    forall i | 0 <= i < |index| ensures PointsAt(rs + [r], index[i], at[i]) {
      assert PointsAt(rs, index[i], at[i]);
      StartKept(rs, r, at[i]);
    }
  }

  lemma StartKept(rs: seq<Run>, r: Run, k: nat)
    requires AllFit(rs) && Fits(r) && k <= |rs|
    ensures AllFit(rs + [r]) && Start(RunPieces(rs + [r]), k) == Start(RunPieces(rs), k)
    ensures k == |rs| ==> Start(RunPieces(rs), k) == |Flat(RunPieces(rs))|
  {
    hide Fits, EncodeRun, Flat;
    assert RunPieces(rs + [r])[..k] == RunPieces(rs)[..k];
    if k == |rs| { assert RunPieces(rs)[..k] == RunPieces(rs); }
  }

  /** A longer last run with the same first entry is pointed at in the same way. */
  lemma PointsAfterGrowth(rs: seq<Run>, r: Run, s: Run, index: seq<Index>, at: seq<nat>)
    requires AllFit(rs) && Fits(r) && Fits(s) && r.entries[0] == s.entries[0]
    requires AllFit(rs + [r]) && AllPoint(rs + [r], index, at)
    ensures AllFit(rs + [s]) && AllPoint(rs + [s], index, at)
  {
    hide EncodeRun, Flat, AllInRun;
    forall i | 0 <= i < |index| ensures PointsAt(rs + [s], index[i], at[i]) {
      assert PointsAt(rs + [r], index[i], at[i]);
      StartKept(rs, r, at[i]);
      StartKept(rs, s, at[i]);
    }
  }

  lemma PointsAtNew(rs: seq<Run>, r: Run, index: seq<Index>, at: seq<nat>, x: Index)
    requires AllFit(rs) && Fits(r) && AllPoint(rs, index, at)
    requires x.index == |Flat(RunPieces(rs))| && x.name == r.entries[0].name
    ensures AllFit(rs + [r]) && AllPoint(rs + [r], index + [x], at + [|rs|])
  {
    hide EncodeRun, Flat, AllInRun;
    PointsAfterAppend(rs, r, index, at);
    StartKept(rs, r, |rs|);
    forall i | 0 <= i < |index| + 1 ensures PointsAt(rs + [r], (index + [x])[i], (at + [|rs|])[i]) {
      if i < |index| { assert PointsAt(rs + [r], index[i], at[i]); }
    }
  }

  class Directory {
    var buff: seq<byte>
    var headed: bool
    var entryCountP: nat
    var entryCount: nat
    var startBlock: nat
    var inodeNumber: nat
    var indexCountP: nat
    var index: seq<Index>
    ghost var closed: seq<Run>
    ghost var open: seq<Entry>
    ghost var at: seq<nat>
    ghost var over: bool
    ghost var wide: seq<bool>

    /** The closed runs are in the buffer; the open one is there too, but for its header. */
    ghost predicate OpenRun()
      reads `buff, `entryCountP, `entryCount, `startBlock, `inodeNumber, `closed, `open
    {
      && AllFit(closed)
      && startBlock < 0x1_0000_0000 && inodeNumber < 0x1_0000_0000
      && |open| <= 256 && entryCount == |open| && AllInRun(open, startBlock, inodeNumber)
      && entryCountP == |Flat(RunPieces(closed))| && entryCountP + HEADER_SIZE <= |buff|
      && buff[..entryCountP] == Flat(RunPieces(closed))
      && buff[entryCountP + HEADER_SIZE..] == Flat(EntryPieces(open, startBlock, inodeNumber))
    }

    ghost function Runs(): seq<Run>
      reads this
    {
      if headed then closed + [Run(startBlock, inodeNumber, open)] else []
    }

    function Form(): Shape
      reads this
    {
      Shape(|buff|, headed, entryCount, startBlock, inodeNumber, indexCountP)
    }

    /** `over` is whether the entry added last needed a header for another reason than its size, close to the end of a
        block; `wide` what it was each time an index entry was made. The gaps wider than a block are exactly those. */
    ghost predicate GapsKnown()
      reads this
    {
      (over <==> Wide(Form())) && Gaps(index, wide)
    }

    ghost predicate Valid()
      reads this
    {
      && GapsKnown()
      && (if headed then OpenRun() && open != [] else buff == [] && closed == [] && entryCount == 256 && index == [])
      && AllFit(Runs()) && AllPoint(Runs(), index, at)
      && Spaced(index) && indexCountP == LastIndex(index) <= |buff| <= indexCountP + MAX_GAP
    }

    constructor ()
      ensures Valid() && Runs() == [] && Form() == NEW_SHAPE && index == [] && !over && wide == []
    {
      buff, headed, entryCountP, entryCount := [], false, 0, 256;
      startBlock, inodeNumber, indexCountP, index := 0, 0, 0, [];
      closed, open, at, over, wide := [], [], [], false, [];
    }

    /** The header of the open run goes into the room left for it. */
    method FillHeader()
      requires headed && OpenRun() && open != []
      modifies `buff, `closed, `open
      ensures closed == old(Runs()) && open == [] && |buff| == old(|buff|)
      ensures AllFit(closed) && buff == Flat(RunPieces(closed))
    {
      hide Flat, EncodeHeader, Fits;
      ghost var r := Run(startBlock, inodeNumber, open);
      assert Fits(r) by { FitsRun(r); }
      AppendRun(closed, r);
      ghost var was := buff;
      var header := EncodeHeader(entryCount, startBlock, inodeNumber);
      buff := buff[..entryCountP] + header + buff[entryCountP + HEADER_SIZE..];
      assert buff == Flat(RunPieces(closed)) + EncodeRun(r);
      closed, open := closed + [r], [];
    }

    /** The test of add_dir for a new header. */
    predicate NeedsHeader(start: nat, number: nat, size: nat)
      reads this
    {
      || entryCount == 256 || start != startBlock
      || (headed && |buff| + ENTRY_SIZE + size > indexCountP + METADATA_SIZE)
      || !Near(number, inodeNumber)
    }

    /** The body of that test: close the run, record it in the index if it ends beyond a block, leave room for a
        header. */
    method BeginRun(name: seq<byte>, start: nat, number: nat)
      requires Valid() && 1 <= |name| <= NAME_LEN && start < 0x1_0000_0000 && number < 0x1_0000_0000
      modifies this
      ensures headed && OpenRun() && open == [] && closed == old(Runs()) && startBlock == start && inodeNumber == number
      ensures Spaced(index) && indexCountP == LastIndex(index) <= |buff|
      ensures |buff| + ENTRY_SIZE + |name| <= indexCountP + MAX_GAP
      ensures if BeyondBlock(old(Form()), |name|) then
          && index == old(index) + [Index(|Flat(RunPieces(closed))|, name)] && at == old(at) + [|closed|]
          && wide == old(wide) + [old(over)] && indexCountP == old(|buff|)
        else
          index == old(index) && at == old(at) && wide == old(wide) && indexCountP == old(indexCountP)
      ensures Gaps(index, wide) && over == old(over) && entryCount == 0
      ensures |buff| == old(|buff|) + HEADER_SIZE && |Flat(RunPieces(closed))| == old(|buff|)
    {
      hide Flat, AllPoint, Fits, EncodeHeader, Gaps, Spaced, OpenRun, AllFit, RunPieces;
      if headed {
        if |buff| + ENTRY_SIZE + |name| > indexCountP + METADATA_SIZE {
          RecordIndex(name);
        }
        FillHeader();
      } else {
        EmptyRuns();
        open := [];
      }
      LeaveRoom(start, number);
    }

    method RecordIndex(name: seq<byte>)
      requires GapsKnown() && Spaced(index) && indexCountP == LastIndex(index) <= |buff| <= indexCountP + MAX_GAP
      modifies `index, `indexCountP, `at, `wide
      ensures index == old(index) + [Index(|buff|, name)] && at == old(at) + [|Runs()|] && wide == old(wide) + [over]
      ensures Gaps(index, wide) && Spaced(index) && indexCountP == LastIndex(index) == |buff|
    {
      hide Gaps, Spaced;
      SpacedSnoc(index, Index(|buff|, name));
      GapsSnoc(index, wide, Index(|buff|, name));
      wide := wide + [over];
      index := index + [Index(|buff|, name)];
      indexCountP := |buff|;
      at := at + [|Runs()|];
    }

    method LeaveRoom(start: nat, number: nat)
      requires open == [] && AllFit(closed) && buff == Flat(RunPieces(closed)) && start < 0x1_0000_0000
      requires number < 0x1_0000_0000
      modifies `buff, `headed, `entryCountP, `startBlock, `entryCount, `inodeNumber
      ensures headed && OpenRun() && startBlock == start && inodeNumber == number && entryCount == 0
      ensures |buff| == old(|buff|) + HEADER_SIZE
    {
      hide Flat, Fits, RunPieces;
      entryCountP := |buff|;
      startBlock, entryCount, inodeNumber := start, 0, number;
      headed := true;
      buff := buff + seq(HEADER_SIZE, _ => 0);
      NoEntries(start, number);
    }

    method PutEntry(e: Entry)
      requires headed && OpenRun() && |open| < 256 && InRun(e, startBlock, inodeNumber)
      modifies `buff, `entryCount, `open
      ensures OpenRun() && open == old(open) + [e] && |buff| == old(|buff|) + ENTRY_SIZE + |e.name|
      ensures entryCount == old(entryCount) + 1
    {
      hide Flat, EncodeEntry, ValidEntry;
      AppendEntry(open, e, startBlock, inodeNumber);
      ghost var was := buff;
      buff := buff + EncodeEntry(e, inodeNumber);
      assert buff[entryCountP + HEADER_SIZE..] == was[entryCountP + HEADER_SIZE..] + EncodeEntry(e, inodeNumber);
      assert buff[..entryCountP] == was[..entryCountP];
      entryCount := entryCount + 1;
      open := open + [e];
    }

    /** A new run with this one entry. */
    method StartRun(e: Entry)
      requires Valid() && ValidEntry(e)
      requires BeyondBlock(Form(), |e.name|) || OtherRun(Form(), e.inode / 0x1_0000, e.number)
      modifies this
      ensures headed && OpenRun() && open == [e] && closed == old(Runs())
      ensures Runs() == old(Runs()) + [Run(e.inode / 0x1_0000, e.number, [e])]
      ensures Spaced(index) && indexCountP == LastIndex(index) <= |buff| <= indexCountP + MAX_GAP
      ensures Gaps(index, wide) && (over <==> Wide(Form())) && Grown(old(Form()), e, old(index), old(wide), old(over))
      ensures if BeyondBlock(old(Form()), |e.name|) then
          index == old(index) + [Index(|Flat(RunPieces(closed))|, e.name)] && at == old(at) + [|closed|]
        else index == old(index) && at == old(at)
    {
      hide Flat, AllPoint, RunPieces, AllFit, EncodeEntry, Spaced, Gaps, OpenRun;
      var start := e.inode / 0x1_0000;
      BeginRun(e.name, start, e.number);
      assert |open| == 0 && InRun(e, startBlock, inodeNumber) by { SameNumber(e); }
      PutEntry(e);
      WideIff(old(Form()), start, e.number, |e.name|);
      over := OpensWide(old(Form()), start, e.number, |e.name|);
    }

    method AddInNewRun(e: Entry)
      requires Valid() && ValidEntry(e)
      requires BeyondBlock(Form(), |e.name|) || OtherRun(Form(), e.inode / 0x1_0000, e.number)
      modifies this
      ensures Valid() && headed && AllEntries(Runs()) == old(AllEntries(Runs())) + [e]
      ensures Grown(old(Form()), e, old(index), old(wide), old(over))
    {
      hide Flat, AllPoint, RunPieces, EncodeEntry, AllEntries, Spaced, Gaps, Grown, Wide;
      ghost var rs, index0, at0 := Runs(), index, at;
      StartRun(e);
      ghost var r := Run(e.inode / 0x1_0000, e.number, [e]);
      NewRunAdded(rs, r, index0, at0);
      AppendRun(rs, r);
    }

    method AddInOpenRun(e: Entry)
      requires Valid() && headed && InRun(e, startBlock, inodeNumber) && |open| < 256
      requires |buff| + ENTRY_SIZE + |e.name| <= indexCountP + METADATA_SIZE
      requires !OtherRun(Form(), e.inode / 0x1_0000, e.number)
      modifies this
      ensures Valid() && headed && AllEntries(Runs()) == old(AllEntries(Runs())) + [e]
      ensures Grown(old(Form()), e, old(index), old(wide), old(over))
    {
      hide Flat, AllPoint, RunPieces, EncodeEntry, AllEntries, Spaced, InRun, Gaps;
      ghost var r := Run(startBlock, inodeNumber, open);
      PutEntry(e);
      ghost var s := Run(startBlock, inodeNumber, open);
      AppendRun(closed, r);
      AppendRun(closed, s);
      PointsAfterGrowth(closed, r, s, index, at);
      over := false;
    }

    /** What one more entry does to the shape and the index. */
    ghost predicate Grown(h: Shape, e: Entry, index0: seq<Index>, wide0: seq<bool>, over0: bool)
      reads this
    {
      var start := e.inode / 0x1_0000;
      && Form() == AfterEntry(h, start, e.number, |e.name|)
      && (over <==> OpensWide(h, start, e.number, |e.name|))
      && (if BeyondBlock(h, |e.name|) then index == index0 + [Index(h.len, e.name)] && wide == wide0 + [over0]
          else index == index0 && wide == wide0)
    }

    /** add_dir: one more entry at the end, its name cut to the longest length allowed. */
    method AddDir(inode: nat, number: nat, name: seq<byte>, kind: nat)
      requires Valid() && 1 <= |name| && inode < 0x1_0000_0000_0000 && number < 0x1_0000_0000 && kind < 0x1_0000
      modifies this
      ensures Valid() && headed
      ensures AllEntries(Runs()) == old(AllEntries(Runs())) + [Entry(Truncated(name), inode, number, kind)]
      ensures Grown(old(Form()), Entry(Truncated(name), inode, number, kind), old(index), old(wide), old(over))
    {
      hide AllPoint, AllEntries, Spaced, AllFit, AllInRun, Gaps;
      var e := Entry(Truncated(name), inode, number, kind);
      if NeedsHeader(inode / 0x1_0000, number, |e.name|) {
        AddInNewRun(e);
      } else {
        AddInOpenRun(e);
      }
    }
  }

  /** An entry is near its own number. */
  lemma SameNumber(e: Entry)
    requires ValidEntry(e)
    ensures InRun(e, e.inode / 0x1_0000, e.number)
  {
  }

  lemma EmptyRuns()
    ensures AllFit([]) && Flat(RunPieces([])) == []
  {
  }

  lemma NoEntries(start: nat, base: nat)
    ensures AllInRun([], start, base) && Flat(EntryPieces([], start, base)) == []
  {
  }

  lemma NewRunAdded(rs: seq<Run>, r: Run, index: seq<Index>, at: seq<nat>)
    requires AllFit(rs) && Fits(r) && AllPoint(rs, index, at)
    ensures AllFit(rs + [r]) && AllPoint(rs + [r], index, at)
    ensures AllPoint(rs + [r], index + [Index(|Flat(RunPieces(rs))|, r.entries[0].name)], at + [|rs|])
  {
    hide EncodeRun, Flat, AllInRun;
    PointsAfterAppend(rs, r, index, at);
    PointsAtNew(rs, r, index, at, Index(|Flat(RunPieces(rs))|, r.entries[0].name));
  }

  lemma FitsRun(r: Run)
    requires r.start < 0x1_0000_0000 && r.base < 0x1_0000_0000 && 1 <= |r.entries| <= 256
    requires AllInRun(r.entries, r.start, r.base)
    ensures Fits(r)
  {
  }

  // ----- A gap wider than a block

  /** The n-th entry with a name of 256 bytes still goes into the first run. */
  lemma LongName(n: nat)
    requires 1 <= n < 30
    ensures
      AfterEntry(Shape(12 + 264 * n, true, n, 0, 0, 0), 0, 0, 256) == Shape(12 + 264 * (n + 1), true, n + 1, 0, 0, 0)
    ensures !BeyondBlock(Shape(12 + 264 * n, true, n, 0, 0, 0), 256)
  {
  }

  /** Thirty entries with names of 256 bytes, and one with a name of 252 bytes whose inode is in another block: its
      header ends the first block, and the next index position is 8204. */
  method WideGap() returns (d: Directory)
    ensures fresh(d) && d.Valid() && |d.index| == 1 && d.index[0].index == 8204 && d.wide == [true]
  {
    var name: seq<byte> := seq(256, _ => 65);
    d := new Directory();
    d.AddDir(0, 0, name, 1);
    assert AfterEntry(NEW_SHAPE, 0, 0, 256) == Shape(276, true, 1, 0, 0, 0);
    var n := 1;
    while n < 30
      invariant 1 <= n <= 30 && fresh(d) && d.Valid() && d.Form() == Shape(12 + 264 * n, true, n, 0, 0, 0)
      invariant d.index == [] && d.wide == []
    {
      LongName(n);
      d.AddDir(0, 0, name, 1);
      n := n + 1;
    }
    NextBlock(d, name);
  }

  method NextBlock(d: Directory, name: seq<byte>)
    requires d.Valid() && d.Form() == Shape(7932, true, 30, 0, 0, 0) && d.index == [] && d.wide == [] && |name| == 256
    modifies d
    ensures d.Valid() && |d.index| == 1 && d.index[0].index == 8204 && d.wide == [true]
  {
    d.AddDir(0x1_0000, 0, name[..252], 1);
    assert d.Form() == Shape(8204, true, 1, 1, 0, 0) && d.over && d.index == [];
    d.AddDir(0x1_0000, 0, name, 1);
  }
}
