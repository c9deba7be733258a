/** mkfs.jffs2 writing directory entries and regular files. */
module JffsFiles {
  import opened Arithmetic
  import opened Bytes
  import opened Compressors
  import opened FlashFormat
  import opened JffsImage
  import opened JffsNodes
  import opened JffsWriter

  /** What stays the same for the nodes of one file. */
  datatype Options = Options(crc: Crc, mode: Mode, compressors: seq<Compressor>, pageSize: nat)

  ghost predicate IsOptions(o: Options) {
    1 <= o.pageSize && AllSound(o.compressors, o.pageSize)
  }

  /** A node of the types written here is no cleanmarker. */
  lemma NoMarker(b: seq<byte>, w: JffsWriter)
    requires w.Valid() && 12 < |b|
    ensures Node(b, |b|) != w.Marker()
  {
  }

  function DirentItem(h: DirentHeader, crc: Crc): Item
    requires IsDirentHeader(h)
  {
    Node(DirentNode(h, crc), |DirentNode(h, crc)|)
  }

  /** write_dirent. */
  method WriteDirent(w: JffsWriter, h: DirentHeader, crc: Crc)
    requires w.Valid() && IsDirentHeader(h) && w.MarkLength() + RAW_DIRENT_SIZE + |h.name| <= w.e
    modifies w`out, w`items
    ensures w.Valid() && w.Nodes() == old(w.Nodes()) + [DirentItem(h, crc)] && 0 < w.e
    ensures w.items == old(w.items) + w.Padding(|old(w.out)|, RAW_DIRENT_SIZE + |h.name|) + [DirentItem(h, crc)]
  {
    hide Laid, NodesOf, DirentNode, IsItem;
    var b := DirentNode(h, crc);
    DirentFields(h, crc);
    w.PadBlockIfLessThan(|b|);
    NoMarker(b, w);
    w.WriteNode(b);
  }

  function Contents(o: Options, ino: nat, meta: FileMeta, file: seq<byte>): JffsNodes.Contents {
    JffsNodes.Contents(o.crc, o.compressors, ino, meta, file)
  }

  /** The room for data in a node that begins here: up to the end of the eraseblock, and no more than there are data. */
  function DataRoom(w: JffsWriter, at: nat, page: seq<byte>): int
    requires 0 < w.e
  {
    var space := w.e - at % w.e - RAW_INODE_SIZE;
    if space > |page| then |page| else space
  }

  /** The node is placed where there is room for the least data, and holds what the compressors make of the page for
      the room there. */
  ghost predicate AsMuchAsFits(w: JffsWriter, o: Options, page: seq<byte>, part: Item, dsize: nat, at: nat)
    requires 0 < w.e
  {
    var room := DataRoom(w, w.NextPlace(at, RAW_INODE_SIZE + MIN_DATA_LEN), page);
    && part.Node? && RAW_INODE_SIZE <= |part.head| && 0 <= room
    && IsResult(o.mode, o.compressors, page, room, Compressed(part.head[56], dsize, part.head[RAW_INODE_SIZE..]))
  }

  lemma MadeToFit(w: JffsWriter, o: Options, page: seq<byte>, b: seq<byte>, r: Compressed, at: nat)
    requires 0 < w.e && RAW_INODE_SIZE <= |b| && b[56] == r.id && b[RAW_INODE_SIZE..] == r.bytes
    requires var room := DataRoom(w, w.NextPlace(at, RAW_INODE_SIZE + MIN_DATA_LEN), page);
      0 <= room && IsResult(o.mode, o.compressors, page, room, r)
    ensures AsMuchAsFits(w, o, page, Node(b, |b|), r.consumed, at)
  {
    hide IsResult;
    assert Compressed(b[56], r.consumed, b[RAW_INODE_SIZE..]) == r;
  }

  /** One turn of the inner loop: as much of the page as fits into what is left of the eraseblock, at least one byte. */
  method WritePart(w: JffsWriter, o: Options, ino: nat, version: nat, meta: FileMeta, page: seq<byte>, offset: nat,
                   size: nat, ghost file: seq<byte>)
    returns (dsize: nat, ghost part: Item)
    requires w.Valid() && IsOptions(o) && w.MarkLength() + RAW_INODE_SIZE + MIN_DATA_LEN <= w.e && Word(w.e)
    requires Word(ino) && Word(version) && 1 <= |page| <= o.pageSize && size == |file|
    requires Word(|file|) && offset + |page| <= |file| && file[offset..offset + |page|] == page
    modifies w`out, w`items
    ensures w.Valid() && 1 <= dsize <= |page| && w.Nodes() == old(w.Nodes()) + [part] && 0 < w.e
    ensures w.items == old(w.items) + w.Padding(|old(w.out)|, RAW_INODE_SIZE + MIN_DATA_LEN) + [part]
    ensures part.Node? && |w.out| == w.NextPlace(|old(w.out)|, RAW_INODE_SIZE + MIN_DATA_LEN) + Padded(|part.head|)
    ensures IsPart(part, Contents(o, ino, meta, file), version, offset, offset + dsize)
    ensures AsMuchAsFits(w, o, page, part, dsize, |old(w.out)|)
  {
    hide Laid, NodesOf, InodeNode, IsItem, AllSound, Decodes, IsResult, Hopeless, IsPart, MetaBytes, AsMuchAsFits;
    w.PadBlockIfLessThan(RAW_INODE_SIZE + MIN_DATA_LEN);
    var space := w.e - |w.out| % w.e - RAW_INODE_SIZE;
    if space > |page| { space := |page|; }
    var r := Jffs2Compress(o.mode, o.compressors, page, space, o.pageSize);
    dsize := r.consumed;
    assert page[..dsize] == file[offset..offset + dsize];
    var h := DataHeader(ino, version, MetaBytes(meta, size), offset, |r.bytes|, dsize, r.id);
    var b := InodeNode(h, o.crc, r.bytes);
    ghost var c := Contents(o, ino, meta, file);
    MadePart(h, r.bytes, c, offset + dsize);
    InodeFields(h, o.crc, r.bytes);
    part := Node(b, |b|);
    MadeToFit(w, o, page, b, r, |old(w.out)|);
    NoMarker(b, w);
    w.WriteNode(b);
  }

  /** What is left of the page that begins at a multiple of its size. */
  function PageRest(file: seq<byte>, from: nat, pageSize: nat): seq<byte>
    requires from <= |file| && 0 < pageSize
  {
    var end := from - from % pageSize + pageSize;
    file[from..if end < |file| then end else |file|]
  }

  /** Every part is placed behind the one before it, and holds as much as fits of what is left of its page; at[j] is how
      long the image is before part j. */
  ghost predicate AllAsMuch(w: JffsWriter, o: Options, file: seq<byte>, parts: seq<Item>, ends: seq<nat>, at: seq<nat>)
    requires 0 < w.e && 0 < o.pageSize
  {
    && |at| == |ends| == |parts| + 1
    && forall j :: 0 <= j < |parts| ==> NextAsMuch(w, o, file, parts[j], ends[j], ends[j + 1], at[j], at[j + 1])
  }

  ghost predicate NextAsMuch(w: JffsWriter, o: Options, file: seq<byte>, part: Item, from: nat, to: nat, at: nat,
                             next: nat)
    requires 0 < w.e && 0 < o.pageSize
  {
    && from <= to && from <= |file| && part.Node?
    && AsMuchAsFits(w, o, PageRest(file, from, o.pageSize), part, to - from, at)
    && next == w.NextPlace(at, RAW_INODE_SIZE + MIN_DATA_LEN) + Padded(|part.head|)
  }

  lemma AllAsMuchSnoc(w: JffsWriter, o: Options, file: seq<byte>, parts: seq<Item>, ends: seq<nat>, at: seq<nat>,
                      part: Item, to: nat, next: nat)
    requires 0 < w.e && 0 < o.pageSize && AllAsMuch(w, o, file, parts, ends, at)
    requires NextAsMuch(w, o, file, part, ends[|parts|], to, at[|parts|], next)
    ensures AllAsMuch(w, o, file, parts + [part], ends + [to], at + [next])
  {
    hide NextAsMuch;
  }

  lemma RestOfPage(file: seq<byte>, from: nat, start: nat, pageSize: nat, end: nat)
    requires 0 < pageSize && IsMultiple(start, pageSize) && start <= from < start + pageSize && from <= end <= |file|
    requires end == if |file| - start < pageSize then |file| else start + pageSize
    ensures PageRest(file, from, pageSize) == file[from..end]
  {
    var q := start / pageSize;
    assert start == q * pageSize;
    Remainder(from, q, from - start, pageSize);
  }

  lemma NoPage(pageSize: nat)
    requires 0 < pageSize
    ensures IsMultiple(0, pageSize)
  {
  }

  lemma NextPage(start: nat, pageSize: nat)
    requires 0 < pageSize && IsMultiple(start, pageSize)
    ensures IsMultiple(start + pageSize, pageSize)
  {
    var q := start / pageSize;
    assert start + pageSize == (q + 1) * pageSize;
    Remainder(start + pageSize, q + 1, 0, pageSize);
  }

  lemma PartFits(w: JffsWriter, o: Options, file: seq<byte>, part: Item, from: nat, to: nat, at: nat, next: nat)
    requires 0 < w.e && 0 < o.pageSize && from <= to && from <= |file| && part.Node?
    requires AsMuchAsFits(w, o, PageRest(file, from, o.pageSize), part, to - from, at)
    requires next == w.NextPlace(at, RAW_INODE_SIZE + MIN_DATA_LEN) + Padded(|part.head|)
    ensures NextAsMuch(w, o, file, part, from, to, at, next)
  {
    hide AsMuchAsFits, PageRest, Padded;
  }

  /** The file is written up to this offset: `parts` are the nodes since `was`, when the image was `from` bytes long. */
  ghost predicate WrittenTo(w: JffsWriter, o: Options, c: JffsNodes.Contents, offset: nat, parts: seq<Item>,
                            ends: seq<nat>, at: seq<nat>, was: seq<Item>, from: nat)
    reads w
  {
    && w.Valid() && 0 < w.e && 0 < o.pageSize && w.Nodes() == was + parts && |parts| <= offset
    && Tiles(parts, c, offset, ends) && (offset == 0 <==> parts == [])
    && AllAsMuch(w, o, c.file, parts, ends, at) && at[0] == from && at[|parts|] == |w.out|
  }

  /** One part more. */
  method NextPart(w: JffsWriter, o: Options, ino: nat, meta: FileMeta, file: seq<byte>, ver: nat, offset: nat,
                  len: nat, ghost parts0: seq<Item>, ghost ends0: seq<nat>, ghost at0: seq<nat>,
                  ghost was: seq<Item>, ghost from: nat)
    returns (dsize: nat, ghost parts: seq<Item>, ghost ends: seq<nat>, ghost at: seq<nat>)
    requires WrittenTo(w, o, Contents(o, ino, meta, file), offset, parts0, ends0, at0, was, from)
    requires IsOptions(o) && w.MarkLength() + RAW_INODE_SIZE + MIN_DATA_LEN <= w.e && Word(w.e)
    requires Word(ino) && Word(|file|) && ver == |parts0| && 1 <= len <= o.pageSize && offset + len <= |file|
    requires PageRest(file, offset, o.pageSize) == file[offset..offset + len]
    modifies w`out, w`items
    ensures 1 <= dsize <= len && |parts| == |parts0| + 1
    ensures WrittenTo(w, o, Contents(o, ino, meta, file), offset + dsize, parts, ends, at, was, from)
  {
    hide Laid, NodesOf, IsPart, AllSound, AsMuchAsFits, NextAsMuch, PageRest;
    ghost var c := Contents(o, ino, meta, file);
    ghost var part;
    dsize, part := WritePart(w, o, ino, ver + 1, meta, file[offset..offset + len], offset, |file|, file);
    TilesSnoc(parts0, c, offset, ends0, part, offset + dsize);
    PartFits(w, o, file, part, offset, offset + dsize, at0[|parts0|], |w.out|);
    AllAsMuchSnoc(w, o, file, parts0, ends0, at0, part, offset + dsize, |w.out|);
    assert was + parts0 + [part] == was + (parts0 + [part]);
    parts, ends, at := parts0 + [part], ends0 + [offset + dsize], at0 + [|w.out|];
  }

  /** The two loops of write_regular_file: pages are read, and written in parts, until the file ends. */
  method WriteParts(w: JffsWriter, o: Options, ino: nat, meta: FileMeta, file: seq<byte>)
    returns (ver: nat, ghost parts: seq<Item>, ghost ends: seq<nat>, ghost at: seq<nat>)
    requires w.Valid() && IsOptions(o) && w.MarkLength() + RAW_INODE_SIZE + MIN_DATA_LEN <= w.e && Word(w.e)
    requires Word(ino) && Word(|file|)
    modifies w`out, w`items
    ensures w.Valid() && w.Nodes() == old(w.Nodes()) + parts && ver == |parts| && 0 < w.e && 0 < o.pageSize
    ensures Tiles(parts, Contents(o, ino, meta, file), |file|, ends) && (file == [] <==> parts == [])
    ensures AllAsMuch(w, o, file, parts, ends, at) && at[0] == |old(w.out)| && at[|parts|] == |w.out|
  {
    hide WrittenTo, PageRest, AllSound, Laid, NodesOf, Tiles, AllAsMuch, IsMultiple;
    ghost var c, was, from := Contents(o, ino, meta, file), w.Nodes(), |w.out|;
    var offset := 0;
    ver, parts, ends, at := 0, [], [0], [|w.out|];
    NothingWritten(w, o, c);
    assert IsMultiple(offset, o.pageSize) by { NoPage(o.pageSize); }
    while offset < |file|
      invariant offset <= |file| && ver == |parts| && WrittenTo(w, o, c, offset, parts, ends, at, was, from)
      invariant offset < |file| ==> IsMultiple(offset, o.pageSize)
      decreases |file| - offset
    {
      var len := if |file| - offset < o.pageSize then |file| - offset else o.pageSize;
      ghost var start, end := offset, offset + len;
      while len > 0
        invariant 0 <= len <= o.pageSize && start <= offset && offset + len == end <= |file| && ver == |parts|
        invariant WrittenTo(w, o, c, offset, parts, ends, at, was, from)
        decreases len
      {
        RestOfPage(file, offset, start, o.pageSize, end);
        var dsize;
        dsize, parts, ends, at := NextPart(w, o, ino, meta, file, ver, offset, len, parts, ends, at, was, from);
        ver := ver + 1;
        len, offset := len - dsize, offset + dsize;
      }
      NextPage(start, o.pageSize);
    }
    AllWritten(w, o, c, parts, ends, at, was, from);
  }

  lemma NothingWritten(w: JffsWriter, o: Options, c: JffsNodes.Contents)
    requires w.Valid() && 0 < o.pageSize
    ensures WrittenTo(w, o, c, 0, [], [0], [|w.out|], w.Nodes(), |w.out|)
  {
    hide NodesOf, IsPart, NextAsMuch;
    Positive(w.out, w.items, w.e, w.addCleanmarkers, w.Marker());
  }

  lemma AllWritten(w: JffsWriter, o: Options, c: JffsNodes.Contents, parts: seq<Item>, ends: seq<nat>, at: seq<nat>,
                   was: seq<Item>, from: nat)
    requires WrittenTo(w, o, c, |c.file|, parts, ends, at, was, from)
    ensures w.Valid() && w.Nodes() == was + parts && 0 < w.e && 0 < o.pageSize
    ensures Tiles(parts, c, |c.file|, ends) && (c.file == [] <==> parts == [])
    ensures AllAsMuch(w, o, c.file, parts, ends, at) && at[0] == from && at[|parts|] == |w.out|
  {
    hide Laid, NodesOf, IsPart, NextAsMuch;
  }

  /** write_regular_file: a directory entry under a new inode number, then nodes that carry the whole file. */
  method WriteRegularFile(w: JffsWriter, o: Options, d: DirentHeader, meta: FileMeta, file: seq<byte>)
    returns (ok: bool, ghost parts: seq<Item>, ghost ends: seq<nat>, ghost at: seq<nat>)
    requires w.Valid() && IsOptions(o) && w.MarkLength() + RAW_INODE_SIZE + MIN_DATA_LEN <= w.e && Word(w.e)
    requires Word(w.ino + 1) && IsDirentHeader(d) && w.MarkLength() + RAW_DIRENT_SIZE + |d.name| <= w.e
    modifies w`out, w`items, w`ino
    ensures ok <==> |file| < 0xffff_ffff
    ensures !ok ==> w.out == old(w.out) && w.items == old(w.items) && w.ino == old(w.ino)
    ensures ok ==> w.Valid() && w.ino == old(w.ino) + 1 && parts != []
    ensures ok ==> Tiles(parts, Contents(o, w.ino, meta, file), |file|, ends)
    ensures ok && file != [] ==> 0 < w.e && 0 < o.pageSize && AllAsMuch(w, o, file, parts, ends, at)
    ensures ok ==> Word(w.ino) && w.Nodes() == old(w.Nodes()) + [DirentItem(d.(ino := w.ino), o.crc)] + parts
  {
    hide Laid, NodesOf, IsPart, AllSound, DirentNode, InodeNode, MetaBytes, NextAsMuch;
    if |file| >= 0xffff_ffff { return false, [], [], []; }
    w.ino := w.ino + 1;
    WriteDirent(w, d.(ino := w.ino), o.crc);
    var ver;
    ver, parts, ends, at := WriteParts(w, o, w.ino, meta, file);
    if ver == 0 {
      var h := DataHeader(w.ino, 1, MetaBytes(meta, |file|), 0, 0, 0, COMPR_NONE);
      var b := InodeNode(h, o.crc, []);
      ghost var c := Contents(o, w.ino, meta, file);
      w.PadBlockIfLessThan(RAW_INODE_SIZE);
      MadePart(h, [], c, 0);
      InodeFields(h, o.crc, []);
      NoMarker(b, w);
      w.WriteNode(b);
      TilesSnoc([], c, 0, ends, Node(b, |b|), 0);
      parts, ends := [Node(b, |b|)], ends + [0];
    }
    ok := true;
  }
}
