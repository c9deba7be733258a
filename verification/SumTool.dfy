/** sumtool: nodes are copied into eraseblocks, each closed with a summary of its nodes. */
module SumTool {
  import opened Bytes
  import opened FlashFormat
  import opened Pieces
  import opened SummaryFormat
  import opened SummaryMarks
  import opened SummaryNode
  import opened SummaryRoom

  /** The records are those of the nodes, and each node is where its record says. */
  ghost predicate Describes(data: seq<byte>, rs: seq<Record>, nodes: seq<seq<byte>>) {
    && |rs| == |nodes|
    && forall i :: 0 <= i < |rs| ==> DescribesOne(data, rs[i], nodes[i])
  }

  ghost predicate DescribesOne(data: seq<byte>, r: Record, n: seq<byte>) {
    IsNode(n) && Word(r.offset) && r.offset % 4 == 0 && r == Summarize(n, r.offset) && Holds(data, r.offset, n)
  }

  lemma DescribesMore(data: seq<byte>, more: seq<byte>, rs: seq<Record>, nodes: seq<seq<byte>>)
    requires Describes(data, rs, nodes)
    ensures Describes(data + more, rs, nodes)
  {
    hide IsNode, Summarize;
    forall i | 0 <= i < |rs| ensures DescribesOne(data + more, rs[i], nodes[i]) {
      assert DescribesOne(data, rs[i], nodes[i]);
      var o := rs[i].offset;
      assert (data + more)[o..o + |nodes[i]|] == data[o..o + |nodes[i]|];
    }
  }

  lemma DescribesNext(data: seq<byte>, more: seq<byte>, rs: seq<Record>, nodes: seq<seq<byte>>, n: seq<byte>)
    requires Describes(data, rs, nodes) && IsNode(n) && Word(|data|) && |data| % 4 == 0
    ensures Describes(data + n + more, rs + [Summarize(n, |data|)], nodes + [n])
  {
    hide IsNode, Summarize;
    var all, r := data + n + more, Summarize(n, |data|);
    DescribesMore(data, n, rs, nodes);
    DescribesMore(data + n, more, rs, nodes);
    forall i | 0 <= i < |rs| + 1 ensures DescribesOne(all, (rs + [r])[i], (nodes + [n])[i]) {
      if i < |rs| {
        assert DescribesOne(all, rs[i], nodes[i]);
      } else {
        assert all[|data|..|data| + |n|] == n;
      }
    }
  }

  lemma RecordIsSmaller(n: seq<byte>, offset: nat)
    requires IsNode(n) && Word(offset)
    ensures SizeOf(Summarize(n, offset)) <= |n|
  {
  }

  /** An eraseblock as it was written, with what went into it. `cleanmarker` is what its summary says, `begun` the
      size of the cleanmarker it begins with, and `late` whether the first cleanmarker of the input came when it had
      nodes. */
  datatype Written = Written(
    block: seq<byte>, data: seq<byte>, records: seq<Record>, nodes: seq<seq<byte>>,
    cleanmarker: nat, begun: nat, late: bool)

  /** It is exactly one eraseblock long, closed by a summary, and the records describe its nodes. */
  ghost predicate Closed(crc: Crc, size: nat, w: Written) {
    && IsSummarized(crc, w.block, size, w.data, w.records, w.cleanmarker) && w.records != []
    && Describes(w.block, w.records, w.nodes)
  }

  /** The block begins as `begun` says, and its summary says so if and only if it is not late. */
  ghost predicate MarkedRight(crc: Crc, w: Written) {
    Begins(crc, w.block, w.records, w.begun) && (w.cleanmarker == w.begun <==> !w.late)
  }

  /** Of all these blocks and the one being filled, at most one is late. */
  ghost predicate OnceLate(ws: seq<Written>, late: bool) {
    && (forall i, j :: 0 <= i < j < |ws| && ws[i].late ==> !ws[j].late)
    && (forall i :: 0 <= i < |ws| && ws[i].late ==> !late)
  }

  predicate NoneLate(ws: seq<Written>) {
    forall i :: 0 <= i < |ws| ==> !ws[i].late
  }

  function Blocks(ws: seq<Written>): seq<seq<byte>> {
    seq(|ws|, i requires 0 <= i < |ws| => ws[i].block)
  }

  function NodeLists(ws: seq<Written>): seq<seq<seq<byte>>> {
    seq(|ws|, i requires 0 <= i < |ws| => ws[i].nodes)
  }

  function NeedOf(n: seq<byte>): Need
    requires IsNode(n)
  {
    Need(|n|, SizeOf(Summarize(n, 0)))
  }

  predicate AllAreNodes(ns: seq<seq<byte>>) {
    forall i :: 0 <= i < |ns| ==> IsNode(ns[i])
  }

  function Needs(ns: seq<seq<byte>>): seq<Need>
    requires AllAreNodes(ns)
  {
    seq(|ns|, i requires 0 <= i < |ns| => NeedOf(ns[i]))
  }

  lemma NoMark()
    ensures Padded(0) == 0
  {
  }

  class SumTool {
    const size: nat
    const crc: Crc
    const addCleanmarkers: bool
    const padto: bool
    var found: bool
    var cleanmarkerSize: nat
    var data: seq<byte>
    var records: seq<Record>
    var sumSize: nat
    var sumNum: nat
    var file: seq<byte>
    ghost var nodes: seq<seq<byte>>
    ghost var written: seq<Written>
    ghost var begun: nat
    ghost var late: bool

    function Mark(): nat
      reads `found, `cleanmarkerSize
    {
      if addCleanmarkers && found then cleanmarkerSize else 0
    }

    /** How full the block is. */
    function Level(): Fill
      reads this
    {
      Fill(|data|, sumSize)
    }

    /** The summary of the block being filled: what has been collected. */
    ghost predicate Collected()
      reads `data, `records, `sumSize, `sumNum, `nodes
    {
      && AllRecords(records) && Describes(data, records, nodes)
      && sumNum == |records| && sumSize == |Flat(RecordPieces(records))| <= |data|
      && |data| % 4 == 0
    }

    /** How the block being filled begins, and whether its summary will say so. */
    ghost predicate Marked()
      reads `found, `cleanmarkerSize, `data, `records, `begun, `late
    {
      && (data == [] ==> !late)
      && (data != [] ==> Begins(crc, data, records, begun) && (begun == Mark() <==> !late))
      && (data != [] && records == [] ==> data == MarkBytes(crc, begun))
    }

    ghost predicate AllMarked()
      reads `found, `written, `late
    {
      && (forall i :: 0 <= i < |written| ==> MarkedRight(crc, written[i]))
      && OnceLate(written, late) && (!found ==> !late && NoneLate(written))
    }

    ghost predicate InOrder()
      reads this
    {
      && Word(size) && CLEANMARKER_NODE_SIZE <= cleanmarkerSize && Word(cleanmarkerSize)
      && Collected() && file == Flat(Blocks(written)) && Marked() && AllMarked()
      && forall i :: 0 <= i < |written| ==> Closed(crc, size, written[i])
    }

    /** All of this, and the summary of the block still fits into it. */
    ghost predicate Valid()
      reads this
    {
      InOrder() && Bounded(Level(), size) && (data == [] <==> records == [])
    }

    constructor (size: nat, crc: Crc, addCleanmarkers: bool, padto: bool)
      requires FRAME <= size && Word(size)
      ensures Valid() && written == [] && nodes == [] && data == [] && !found
      ensures this.size == size && this.addCleanmarkers == addCleanmarkers
    {
      this.size, this.crc, this.addCleanmarkers, this.padto := size, crc, addCleanmarkers, padto;
      found, cleanmarkerSize := false, CLEANMARKER_NODE_SIZE;
      data, records, sumSize, sumNum, file := [], [], 0, 0, [];
      nodes, written, begun, late := [], [], 0, false;
    }

    /** pad: 0xff in chunks. */
    method Pad(req0: nat)
      modifies `data
      ensures data == old(data) + Filled(req0)
    {
      var req := req0;
      while req > 0
        invariant 0 <= req <= req0 && data == old(data) + Filled(req0 - req)
      {
        var n := if req > CHUNK then CHUNK else req;
        assert Filled(req0 - req) + Filled(n) == Filled(req0 - (req - n));
        data := data + Filled(n);
        req := req - n;
      }
    }

    /** padword. */
    method Padword()
      modifies `data
      ensures data == old(data) + Filled(Gap(|old(data)|))
    {
      if |data| % 4 != 0 {
        data := data + Filled(4 - |data| % 4);
      } else {
        assert data + Filled(0) == data;
      }
    }

    /** The loop of dump_sum_records: the collected list is taken apart from its head. */
    method TakeRecords() returns (page: seq<byte>)
      requires AllRecords(records) && sumNum == |records|
      modifies `records, `sumNum
      ensures page == Flat(RecordPieces(old(records))) && records == [] && sumNum == 0
    {
      hide Flat, Encode, IsRecord;
      page := [];
      ghost var all, k := records, 0;
      StartEnds(RecordPieces(all));
      assert all[0..] == all;
      while sumNum > 0
        invariant 0 <= k <= |all| && records == all[k..] && sumNum == |records| && AllRecords(all)
        invariant page == Flat(RecordPieces(all)[..k])
        decreases sumNum
      {
        var r := records[0];
        assert r == all[k];
        ghost var pieces := RecordPieces(all);
        assert pieces[..k + 1] == pieces[..k] + [pieces[k]];
        FlatSnoc(pieces[..k], pieces[k]);
        page := page + Encode(r);
        records := records[1..];
        sumNum := sumNum - 1;
        k := k + 1;
      }
      assert RecordPieces(all)[..|all|] == RecordPieces(all);
    }

    /** dump_sum_records: the block is closed, if it has any records. */
    method DumpSumRecords()
      requires Valid()
      modifies `data, `records, `sumSize, `sumNum
      ensures old(records) == [] ==> data == old(data) && records == [] && sumSize == old(sumSize) && sumNum == 0
      ensures old(records) != [] ==> IsSummarized(crc, data, size, old(data), old(records), Mark())
      ensures old(records) != [] ==> records == [] && sumSize == 0 && sumNum == 0
    {
      hide Flat, RawSummary, Marker, Describes, Closed, AllRecords, Marked, AllMarked;
      if sumNum == 0 { return; }
      var padsize := size - |data| - (RAW_SUMMARY_SIZE + sumSize + MARKER_SIZE);
      var infosize := RAW_SUMMARY_SIZE + sumSize + MARKER_SIZE + padsize;
      var count, offset := sumNum, |data|;
      assert sumNum <= sumSize by { CountAtMostSize(records); }
      var page := TakeRecords();
      page := page + Filled(padsize) + Marker(offset);
      sumSize := 0;
      data := data + RawSummary(crc, infosize, count, Mark(), page) + page;
    }

    /** write_buff_to_file. */
    method WriteBuffToFile()
      modifies `file, `data
      ensures file == old(file + data) && data == []
    {
      file := file + data;
      data := [];
    }

    /** All nodes so far, in the blocks written and in the one being filled. */
    ghost function AllNodes(): seq<seq<byte>>
      reads this
    {
      Flat(NodeLists(written)) + nodes
    }

    /** Close the block and begin an empty one. */
    method CloseBlock()
      requires Valid()
      modifies `data, `records, `sumSize, `sumNum, `file, `nodes, `written, `late
      ensures Valid() && data == [] && records == [] && sumSize == 0 && AllNodes() == old(AllNodes())
      ensures |old(written)| <= |written| && written[..|old(written)|] == old(written)
      ensures old(records) == [] ==> written == old(written)
      ensures old(records) != [] ==>
        |written| == |old(written)| + 1 && SaysOf(written[|old(written)|], old(Mark()), old(begun), old(late))
    {
      hide Flat, IsSummarized, Describes, AllRecords, Begins, OnceLate, NoneLate;
      ghost var w := Written([], data, records, nodes, Mark(), begun, late);
      DumpSumRecords();
      if w.records != [] {
        w := w.(block := data);
        DescribesClosed(crc, size, w);
        BeginsClosed(crc, size, w);
        WrittenSnoc(written, w);
        LateSnoc(written, w);
        written := written + [w];
      } else {
        NoRecordsNoNodes(w.data, nodes);
      }
      assert file + [] == file;
      WriteBuffToFile();
      NothingDescribed();
      nodes, late := [], false;
    }

    /** A cleanmarker at the start of an empty block. */
    method PutCleanmarker()
      requires InOrder() && data == [] && records == [] && Mark() > 0
      modifies `data, `begun
      ensures InOrder() && |data| == Padded(Mark()) && begun == Mark()
    {
      hide Flat, Closed, Describes, AllRecords, AllMarked, MarkBytes, Cleanmarker;
      data := Cleanmarker(crc, cleanmarkerSize);
      Pad(cleanmarkerSize - CLEANMARKER_NODE_SIZE);
      Padword();
      MarkWritten(crc, cleanmarkerSize, data);
      assert [] + data == data;
      DescribesMore([], data, records, nodes);
      begun := cleanmarkerSize;
    }

    /** What was written, and how the block being filled begins, after one more node. */
    ghost predicate WrittenAfter(before: Fill, n: Need, ws: seq<Written>, begun0: nat, late0: bool)
      reads `written, `found, `cleanmarkerSize, `begun, `late
    {
      if Closes(before, size, n) && before.len > 0 then
        && |written| == |ws| + 1 && written[..|ws|] == ws && SaysOf(written[|ws|], Mark(), begun0, late0)
        && begun == Mark() && !late
      else
        written == ws && if before.len > 0 then begun == begun0 && late == late0 else begun == Mark() && !late
    }

    /** pad_block_if_less_than: afterwards there is room for the node if and only if that could be told before. */
    method PadBlockIfLessThan(req: nat, plus: nat)
      requires Valid() && IsNeed(Need(req, plus))
      modifies `data, `records, `sumSize, `sumNum, `file, `nodes, `written, `begun, `late
      ensures InOrder() && AllNodes() == old(AllNodes())
      ensures Level() == AfterPad(old(Level()), size, Mark(), Need(req, plus))
      ensures HasRoom(Level(), size, Need(req, plus)) <==> CanTake(old(Level()), size, Mark(), Need(req, plus))
      ensures data == [] ==> begun == 0 && Mark() == 0
      ensures WrittenAfter(old(Level()), Need(req, plus), old(written), old(begun), old(late))
      ensures |old(written)| <= |written| && written[..|old(written)|] == old(written)
    {
      hide Flat, Closed, Describes, AllRecords, Padded, Exceeds, HasRoom, CanTake, AllMarked, Begins, MarkBytes;
      assert records == [] ==> sumSize == 0 by { NothingDescribed(); }
      RoomIff(Level(), size, Mark(), Need(req, plus));
      NoMark();
      var datasize := Padded(req + plus + sumSize + RAW_SUMMARY_SIZE + 8);
      if Exceeds(|data| + req, size - datasize) {
        CloseBlock();
      }
      if addCleanmarkers && found && data == [] {
        AtLeast(Mark());
        PutCleanmarker();
      } else if data == [] {
        begun := 0;
        BeginsEmpty(crc);
      }
    }

    /** The block begins in the same way with another node in it. */
    lemma NextBegins(more: seq<byte>, r: Record)
      requires Collected() && Marked() && (data == [] ==> begun == 0 && Mark() == 0) && r.offset == |data|
      ensures Begins(crc, data + more, records + [r], begun) && (begun == Mark() <==> !late)
    {
      hide Flat, Describes, AllRecords, Begins, MarkBytes;
      CountAtMostSize(records);
      BeginsEmpty(crc);
      BeginsNode(crc, data, more, records, r, begun);
    }

    /** add_sum_inode_mem and its like, full_write and padword: the node and its record, where there is room. */
    method PutNode(n: seq<byte>)
      requires InOrder() && IsNode(n) && HasRoom(Level(), size, NeedOf(n)) && (data == [] ==> begun == 0 && Mark() == 0)
      modifies `data, `records, `sumSize, `sumNum, `nodes
      ensures Valid() && nodes == old(nodes) + [n]
      ensures records == old(records) + [Summarize(n, |old(data)|)] && |data| == |old(data)| + Padded(|n|)
      ensures sumSize == old(sumSize) + NeedOf(n).plus
    {
      hide Flat, Closed, Describes, IsNode, Summarize, Encode;
      hide Gap, AllMarked, Begins, MarkBytes, AllRecords, RecordPieces;
      hide SizeOf, Padded, HasRoom, Bounded;
      RecordIsSmaller(n, 0);
      SameSize(n, 0, 0);
      Grows(Level(), size, NeedOf(n));
      SameSize(n, 0, |data|);
      var r := Summarize(n, |data|);
      ghost var fill := Filled(Gap(|data + n|));
      AppendRecord(records, r);
      PaddedNode(data, n);
      DescribesNext(data, fill, records, nodes, n);
      NextBegins(n + fill, r);
      assert data + n + fill == data + (n + fill);
      records, sumSize, sumNum := records + [r], sumSize + SizeOf(r), sumNum + 1;
      data := data + n;
      Padword();
      nodes := nodes + [n];
    }

    /** write_inode_to_buff, write_dirent_to_buff, write_xattr_to_buff and write_xref_to_buff. */
    method WriteNode(n: seq<byte>)
      requires Valid() && IsNode(n) && IsNeed(NeedOf(n)) && CanTake(Level(), size, Mark(), NeedOf(n))
      modifies `data, `records, `sumSize, `sumNum, `file, `nodes, `written, `begun, `late
      ensures Valid() && AllNodes() == old(AllNodes()) + [n]
      ensures |old(written)| <= |written| && written[..|old(written)|] == old(written)
      ensures records != [] && |data| == records[|records| - 1].offset + Padded(|n|)
      ensures Level() == AfterNode(old(Level()), size, Mark(), NeedOf(n))
      ensures WrittenAfter(old(Level()), NeedOf(n), old(written), old(begun), old(late))
    {
      hide Flat, InOrder, IsNode, Summarize, SizeOf, Padded, HasRoom, CanTake, AfterPad, IsNeed, WrittenAfter;
      SameSize(n, 0, 0);
      PadBlockIfLessThan(|n|, SizeOf(Summarize(n, 0)));
      PutNode(n);
    }

    /** The first cleanmarker in the input switches cleanmarkers on, with its size. */
    method FoundCleanmarker(totlen: nat)
      requires Valid() && CLEANMARKER_NODE_SIZE <= totlen && Word(totlen)
      modifies `found, `cleanmarkerSize, `late
      ensures late <==> old(late) || (!old(found) && addCleanmarkers && data != [])
      ensures Valid() && found
      ensures cleanmarkerSize == (if !old(found) && addCleanmarkers then totlen else old(cleanmarkerSize))
    {
      hide Flat, Closed, Describes, AllRecords, Begins, MarkBytes, MarkedRight;
      if !found {
        found := true;
        if addCleanmarkers {
          cleanmarkerSize := totlen;
          late := data != [];
        }
      }
    }

    /** The last block is too full for another data node. */
    predicate NearlyFull()
      reads this
    {
      var datasize := sumSize + RAW_SUMMARY_SIZE + 8;
      |data| + RAW_INODE_SIZE + 2 * MIN_DATA_LEN > size - (datasize + Gap(datasize))
    }

    lemma NearlyFullIff()
      ensures NearlyFull() <==> !RoomForData(Level(), size)
    {
      hide Gap;
    }

    /** The test of flush_buffers for a block with nothing but a cleanmarker: it only looks at the length. */
    predicate LooksEmpty()
      reads this
    {
      if addCleanmarkers && found then |data| == cleanmarkerSize else data == []
    }

    /** flush_buffers: unless it looks empty the last block goes out, closed with a summary exactly when it is
        nearly full. */
    method FlushBuffers()
      requires Valid()
      modifies `data, `records, `sumSize, `sumNum, `file, `nodes, `written, `begun, `late
      ensures old(LooksEmpty()) <==>
        if addCleanmarkers && found then |old(data)| == cleanmarkerSize else |old(data)| == 0
      ensures old(LooksEmpty()) ==> file == old(file) && AllNodes() == old(AllNodes()) && written == old(written)
      ensures !old(LooksEmpty()) && !RoomForData(old(Level()), size) ==>
        Valid() && data == [] && AllNodes() == old(AllNodes())
      ensures !old(LooksEmpty()) && !RoomForData(old(Level()), size) && old(records) != [] ==>
        |written| == |old(written)| + 1
      ensures !old(LooksEmpty()) && RoomForData(old(Level()), size) ==>
        file == old(file + data) + (if padto then Filled(size - |old(data)|) else []) && written == old(written)
      ensures |old(written)| <= |written| && written[..|old(written)|] == old(written)
    {
      hide Flat, InOrder, Gap, RoomForData;
      NearlyFullIff();
      if LooksEmpty() { return; }
      if NearlyFull() {
        CloseBlock();
      } else {
        assert file + data + [] == file + data;
        ghost var all := file + data;
        if padto {
          Pad(size - |data|);
          assert file + data == all + Filled(size - |old(data)|);
        }
        WriteBuffToFile();
      }
    }

    /** A whole input: every block but the last comes out closed. */
    method WriteNodes(ns: seq<seq<byte>>)
      requires Valid() && AllAreNodes(ns) && Takes(Level(), size, Mark(), Needs(ns))
      modifies `data, `records, `sumSize, `sumNum, `file, `nodes, `written, `begun, `late
      ensures Valid() && AllNodes() == old(AllNodes()) + ns
      ensures |old(written)| <= |written| && written[..|old(written)|] == old(written)
    {
      hide InOrder, Summarize, AllNodes, CanTake, AfterNode, IsNeed;
      var i := 0;
      assert ns[0..] == ns;
      while i < |ns|
        invariant 0 <= i <= |ns| && Valid() && AllNodes() == old(AllNodes()) + ns[..i]
        invariant Takes(Level(), size, Mark(), Needs(ns[i..]))
        invariant |old(written)| <= |written| && written[..|old(written)|] == old(written)
      {
        assert Needs(ns[i..])[0] == NeedOf(ns[i]) && Needs(ns[i..])[1..] == Needs(ns[i + 1..]);
        WriteNode(ns[i]);
        assert ns[..i + 1] == ns[..i] + [ns[i]];
        i := i + 1;
      }
      assert ns[..|ns|] == ns;
    }

    /** What the summary of a closed block says of its cleanmarker is how the block begins, if and only if it is not
        the one that had nodes when the first cleanmarker of the input came. There is at most one such block. */
    lemma SaysHowItBegins(i: nat)
      requires Valid() && i < |written|
      ensures Begins(crc, written[i].block, written[i].records, written[i].begun)
      ensures written[i].cleanmarker == written[i].begun <==> !written[i].late
      ensures written[i].late ==> found && !late && forall j :: 0 <= j < |written| && j != i ==> !written[j].late
    {
      hide Flat, Closed, Describes, AllRecords, Begins;
      assert MarkedRight(crc, written[i]);
    }

    /** The kernel, scanning a block that was closed, finds in its summary a record of each of its nodes, exactly as
        written if and only if it knows what nodes they are and all names in directory entries are names. */
    method ScanWritten(block: seq<byte>, xattrs: bool, ghost i: nat)
      returns (o: Scan<seq<Record>>, mark: nat)
      requires Valid() && i < |written| && block == written[i].block
      ensures o == AllAsRead(written[i].records, xattrs) && mark == written[i].cleanmarker
      ensures Describes(written[i].block, written[i].records, written[i].nodes) && |written[i].block| == size
      ensures o == Found(written[i].records) <==>
        forall j :: 0 <= j < |written[i].nodes| ==> ReadableNode(written[i].nodes[j], xattrs)
    {
      hide Flat, Describes, AllRecords, ReadableNode, AllAsRead;
      assert Closed(crc, size, written[i]);
      o, mark := ScanSummary(crc, block, xattrs, size, written[i].data, written[i].records, written[i].cleanmarker);
      AllReadable(written[i].block, written[i].records, written[i].nodes, xattrs);
      AllAsReadIff(written[i].records, xattrs);
    }
  }

  /** A directory entry with a name in it, a node of extended attributes for a kernel that knows them, or another. */
  predicate ReadableNode(n: seq<byte>, xattrs: bool) {
    && IsNode(n) && (Get16(n, 2) == NODETYPE_DIRENT ==> IsName(n[40..40 + n[28]]))
    && (Get16(n, 2) == NODETYPE_XATTR || Get16(n, 2) == NODETYPE_XREF ==> xattrs)
  }

  lemma AllReadable(data: seq<byte>, rs: seq<Record>, nodes: seq<seq<byte>>, xattrs: bool)
    requires Describes(data, rs, nodes)
    ensures
      (forall j :: 0 <= j < |nodes| ==> ReadableNode(nodes[j], xattrs)) <==>
        forall j :: 0 <= j < |rs| ==> Readable(rs[j], xattrs)
  {
    hide ReadableNode, Readable;
    forall j | 0 <= j < |rs| ensures ReadableNode(nodes[j], xattrs) <==> Readable(rs[j], xattrs) {
      assert DescribesOne(data, rs[j], nodes[j]);
      ReadableIff(nodes[j], rs[j].offset, xattrs);
    }
  }

  lemma ReadableIff(n: seq<byte>, offset: nat, xattrs: bool)
    requires IsNode(n) && Word(offset)
    ensures ReadableNode(n, xattrs) <==> Readable(Summarize(n, offset), xattrs)
  {
    hide Get16, Get32;
  }

  predicate SaysOf(w: Written, mark: nat, begun: nat, late: bool) {
    w.cleanmarker == mark && w.begun == begun && w.late == late
  }

  lemma BeginsClosed(crc: Crc, size: nat, w: Written)
    requires IsSummarized(crc, w.block, size, w.data, w.records, w.cleanmarker)
    requires Begins(crc, w.data, w.records, w.begun)
    requires w.cleanmarker == w.begun <==> !w.late
    ensures MarkedRight(crc, w)
  {
    hide Flat, RawSummary, Page, AllRecords, Begins;
    var rest := w.block[|w.data|..];
    assert w.block == w.data + rest;
    BeginsMore(crc, w.data, rest, w.records, w.begun);
  }

  lemma LateSnoc(ws: seq<Written>, w: Written)
    ensures OnceLate(ws, w.late) ==> OnceLate(ws + [w], false)
    ensures NoneLate(ws) && !w.late ==> NoneLate(ws + [w])
  {
  }

  lemma MarkWritten(crc: Crc, n: nat, data: seq<byte>)
    requires IsMark(n) && n > 0 && data == Cleanmarker(crc, n) + Filled(n - CLEANMARKER_NODE_SIZE) + Filled(Gap(n))
    ensures data == MarkBytes(crc, n)
  {
    hide Cleanmarker;
  }

  lemma PaddedNode(data: seq<byte>, n: seq<byte>)
    requires |data| % 4 == 0
    ensures |data + n| + Gap(|data + n|) == |data| + Padded(|n|) && (|data| + Padded(|n|)) % 4 == 0
  {
    GapShift(|data|, |n|);
    Aligned(|data|, |n|);
  }

  lemma SameSize(n: seq<byte>, o: nat, p: nat)
    requires IsNode(n) && Word(o) && Word(p)
    ensures SizeOf(Summarize(n, o)) == SizeOf(Summarize(n, p)) && 3 <= |n|
  {
  }

  lemma NoRecordsNoNodes(data: seq<byte>, nodes: seq<seq<byte>>)
    ensures Describes(data, [], nodes) ==> nodes == []
  {
  }

  lemma NothingDescribed()
    ensures Describes([], [], []) && AllRecords([]) && |Flat(RecordPieces([]))| == 0
  {
  }

  lemma WrittenSnoc(ws: seq<Written>, w: Written)
    ensures Flat(Blocks(ws + [w])) == Flat(Blocks(ws)) + w.block
    ensures Flat(NodeLists(ws + [w])) == Flat(NodeLists(ws)) + w.nodes
  {
    hide Flat;
    assert Blocks(ws + [w]) == Blocks(ws) + [w.block];
    FlatSnoc(Blocks(ws), w.block);
    assert NodeLists(ws + [w]) == NodeLists(ws) + [w.nodes];
    FlatSnoc(NodeLists(ws), w.nodes);
  }

  lemma DescribesClosed(crc: Crc, size: nat, w: Written)
    requires IsSummarized(crc, w.block, size, w.data, w.records, w.cleanmarker) && w.records != []
    requires Describes(w.data, w.records, w.nodes)
    ensures Closed(crc, size, w)
  {
    hide Flat, RawSummary, Page, AllRecords;
    var rest := w.block[|w.data|..];
    assert w.block == w.data + rest;
    DescribesMore(w.data, rest, w.records, w.nodes);
  }

  lemma {:induction false} CountAtMostSize(rs: seq<Record>)
    requires AllRecords(rs)
    ensures |rs| <= |Flat(RecordPieces(rs))|
  {
    if rs != [] {
      hide Flat, IsRecord, Encode;
      var n := |rs| - 1;
      CountAtMostSize(rs[..n]);
      AppendRecord(rs[..n], rs[n]);
      assert rs == rs[..n] + [rs[n]];
    }
  }

  /** An extended attribute reference of 28 bytes, the shortest node. */
  function ShortNode(): seq<byte> {
    [0x85, 0x19, 0x09, 0xe0, 28, 0, 0, 0] + Filled(20)
  }

  const SHORT: Need := Need(28, 6)

  lemma ShortIsNode()
    ensures IsNode(ShortNode()) && NeedOf(ShortNode()) == SHORT
  {
    var n := ShortNode();
    assert n[0] == 0x85 && n[1] == 0x19 && n[2] == 0x09 && n[3] == 0xe0;
    assert n[4] == 28 && n[5] == 0 && n[6] == 0 && n[7] == 0;
  }

  lemma ShortPaddings()
    ensures Padded(28) == 28 && Padded(74) == 76 && Padded(0) == 0
  {
  }

  lemma LongPaddings()
    ensures Padded(4200) == 4200 && Padded(4246) == 4248 && Padded(4252) == 4252 && Padded(28) == 28 && Padded(0) == 0
  {
  }

  lemma FirstShortNode()
    ensures IsNeed(SHORT) && CanTake(EMPTY, 8192, 0, SHORT) && AfterNode(EMPTY, 8192, 0, SHORT) == Fill(28, 6)
  {
    hide Padded, Gap;
    ShortPaddings();
  }

  /** A last block can be lost: a node of 28 bytes, and behind it the first cleanmarker of the input, 28 bytes long
      too. */
  method LastBlockLost(crc: Crc) returns (t: SumTool)
    ensures fresh(t) && t.Valid() && t.records != [] && t.LooksEmpty()
  {
    hide Flat, IsNode, NeedOf, CanTake, AfterNode, IsNeed, Closes, ShortNode, SumTool.InOrder;
    ShortIsNode();
    FirstShortNode();
    t := new SumTool(8192, crc, true, false);
    t.WriteNode(ShortNode());
    t.FoundCleanmarker(28);
  }

  /** A longer node of the same type. */
  function LongNode(): seq<byte> {
    [0x85, 0x19, 0x09, 0xe0, 0x68, 0x10, 0, 0] + Filled(4192)
  }

  const LONG: Need := Need(4200, 6)

  lemma LongIsNode()
    ensures IsNode(LongNode()) && NeedOf(LongNode()) == LONG
  {
    var n := LongNode();
    assert n[0] == 0x85 && n[1] == 0x19 && n[2] == 0x09 && n[3] == 0xe0;
    assert n[4] == 0x68 && n[5] == 0x10 && n[6] == 0 && n[7] == 0;
  }

  lemma FirstLongNode()
    ensures IsNeed(LONG) && CanTake(EMPTY, 8192, 0, LONG) && AfterNode(EMPTY, 8192, 0, LONG) == Fill(4200, 6)
  {
    hide Padded, Gap;
    LongPaddings();
  }

  lemma SecondLongNode()
    ensures CanTake(Fill(4200, 6), 8192, 28, LONG) && Closes(Fill(4200, 6), 8192, LONG)
  {
    hide Padded, Gap;
    LongPaddings();
  }

  /** A long node, and the first cleanmarker of the input behind it. */
  method MarkerAfterNode(crc: Crc) returns (t: SumTool)
    ensures fresh(t) && t.Valid() && t.Level() == Fill(4200, 6) && t.size == 8192 && t.Mark() == 28
    ensures t.written == [] && t.begun == 0 && t.late
  {
    hide Flat, IsNode, NeedOf, CanTake, AfterNode, IsNeed, Closes, LongNode, SumTool.InOrder;
    LongIsNode();
    FirstLongNode();
    t := new SumTool(8192, crc, true, false);
    t.WriteNode(LongNode());
    t.FoundCleanmarker(28);
  }

  /** With another one behind it, the block of the first is closed. It begins with the node, and its summary says
      that it begins with a cleanmarker. */
  method MarkerTooLate(crc: Crc) returns (t: SumTool)
    ensures fresh(t) && t.Valid() && |t.written| == 1
    ensures t.written[0].late && t.written[0].begun == 0 && t.written[0].cleanmarker == 28
  {
    hide Flat, IsNode, NeedOf, CanTake, AfterNode, IsNeed, Closes, LongNode, SumTool.InOrder;
    LongIsNode();
    FirstLongNode();
    SecondLongNode();
    t := MarkerAfterNode(crc);
    t.WriteNode(LongNode());
  }
}
