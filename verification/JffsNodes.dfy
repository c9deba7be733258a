/** The inode and dirent nodes that mkfs.jffs2 writes. */
module JffsNodes {
  import opened Bytes
  import opened Compressors
  import opened FlashFormat
  import opened JffsImage
  import opened Pieces

  /** The first eight bytes of every node. */
  function NodeStart(nodetype: nat, totlen: nat): (s: seq<byte>)
    requires nodetype < 0x1_0000 && Word(totlen)
    ensures |s| == 8
  {
    Put16(MAGIC_BITMASK) + Put16(nodetype) + Put32(totlen)
  }

  /** What the inode nodes of a file say of it besides its number and contents. */
  datatype FileMeta = FileMeta(mode: nat, uid: nat, gid: nat, atime: nat, mtime: nat, ctime: nat)

  function Low16(n: nat): (r: nat)
    ensures r < 0x1_0000
  {
    n % 0x1_0000
  }

  function Low32(n: nat): (r: nat)
    ensures Word(r)
  {
    n % 0x1_0000_0000
  }

  /** Mode, owner, size and times as they stand in a node: owner and group are cut to 16 bits, the rest to 32. */
  function MetaBytes(m: FileMeta, size: nat): (s: seq<byte>)
    ensures |s| == 24
  {
    Put32(Low32(m.mode)) + Put16(Low16(m.uid)) + Put16(Low16(m.gid)) + Put32(Low32(size))
    + Put32(Low32(m.atime)) + Put32(Low32(m.mtime)) + Put32(Low32(m.ctime))
  }

  /** What is read of a file's status from one of its nodes. */
  predicate HasMeta(b: seq<byte>, m: FileMeta, size: nat) {
    && 44 <= |b| && Get32(b, 20) == m.mode % 0x1_0000_0000 && Get16(b, 24) == m.uid % 0x1_0000
    && Get16(b, 26) == m.gid % 0x1_0000 && Get32(b, 28) == size % 0x1_0000_0000
    && Get32(b, 32) == m.atime % 0x1_0000_0000 && Get32(b, 36) == m.mtime % 0x1_0000_0000
    && Get32(b, 40) == m.ctime % 0x1_0000_0000
  }

  lemma MetaFields(b: seq<byte>, m: FileMeta, size: nat)
    requires 44 <= |b| && b[20..44] == MetaBytes(m, size)
    ensures HasMeta(b, m, size)
  {
    hide Put16, Put32, Get16, Get32;
    var a, c, d, e := Put32(Low32(m.mode)), Put16(Low16(m.uid)), Put16(Low16(m.gid)), Put32(Low32(size));
    var f, g, h := Put32(Low32(m.atime)), Put32(Low32(m.mtime)), Put32(Low32(m.ctime));
    var s := MetaBytes(m, size);
    assert Holds(b, 20, s);
    assert s == [] + a + (c + d + e + f + g + h);
    Field32(b, 20, s, [], Low32(m.mode), c + d + e + f + g + h);
    OwnerFields(b, m, a, c, d, e + f + g + h);
    assert s == (a + c + d) + e + (f + g + h);
    Field32(b, 20, s, a + c + d, Low32(size), f + g + h);
    assert s == (a + c + d + e) + f + (g + h);
    Field32(b, 20, s, a + c + d + e, Low32(m.atime), g + h);
    Field32(b, 20, s, a + c + d + e + f, Low32(m.mtime), h);
    assert s == (a + c + d + e + f + g) + h + [];
    Field32(b, 20, s, a + c + d + e + f + g, Low32(m.ctime), []);
  }

  lemma OwnerFields(b: seq<byte>, m: FileMeta, a: seq<byte>, c: seq<byte>, d: seq<byte>, rest: seq<byte>)
    requires |a| == 4 && c == Put16(Low16(m.uid)) && d == Put16(Low16(m.gid)) && |rest| == 16
    requires 44 <= |b| && b[20..44] == a + c + d + rest
    ensures Get16(b, 24) == Low16(m.uid) && Get16(b, 26) == Low16(m.gid)
  {
    hide Put16, Get16;
    assert a + c + d + rest == a + (c + (d + rest)) && b[20..44] == a + (c + (d + rest));
    HoldsParts(b, 20, a, c + (d + rest));
    Field16(b, 24, c + (d + rest), Low16(m.uid), d + rest);
    HoldsParts(b, 24, c, d + rest);
    Field16(b, 26, d + rest, Low16(m.gid), rest);
  }

  /** What says which file and which part of it an inode node is for. `meta` is mode, owner, size and times. */
  datatype DataHeader = DataHeader(ino: nat, version: nat, meta: seq<byte>, offset: nat, csize: nat, dsize: nat,
                                   compr: nat)

  predicate IsDataHeader(h: DataHeader) {
    && Word(h.ino) && Word(h.version) && |h.meta| == 24 && Word(h.offset) && Word(h.csize + RAW_INODE_SIZE)
    && Word(h.dsize)
    && h.compr < 256
  }

  /** jffs2_raw_inode up to the two checksums at its end. */
  function InodeStart(h: DataHeader, crc: Crc): (s: seq<byte>)
    requires IsDataHeader(h)
    ensures |s| == 60
  {
    var start := NodeStart(NODETYPE_INODE, RAW_INODE_SIZE + h.csize);
    var kind: seq<byte> := [h.compr, 0, 0, 0];
    start + Put32(crc(start)) + Put32(h.ino) + Put32(h.version) + h.meta
    + Put32(h.offset) + Put32(h.csize) + Put32(h.dsize) + kind
  }

  /** data_crc: that of a node without data is never filled in. */
  function DataCrc(crc: Crc, data: seq<byte>): (c: nat)
    ensures Word(c)
  {
    if data == [] then 0 else crc(data)
  }

  /** The whole node, with its data. */
  function InodeNode(h: DataHeader, crc: Crc, data: seq<byte>): (s: seq<byte>)
    requires IsDataHeader(h) && |data| == h.csize
    ensures |s| == RAW_INODE_SIZE + |data|
  {
    InodeStart(h, crc) + Put32(DataCrc(crc, data)) + Put32(crc(InodeStart(h, crc))) + data
  }

  lemma StartFields(b: seq<byte>, nodetype: nat, totlen: nat)
    requires nodetype < 0x1_0000 && Word(totlen) && Holds(b, 0, NodeStart(nodetype, totlen))
    ensures 8 <= |b| && Get16(b, 0) == MAGIC_BITMASK && Get16(b, 2) == nodetype && Get32(b, 4) == totlen
  {
    hide Put16, Put32, Get16, Get32;
    var s := NodeStart(nodetype, totlen);
    var a, c, d := Put16(MAGIC_BITMASK), Put16(nodetype), Put32(totlen);
    assert s == a + (c + d);
    Field16(b, 0, s, MAGIC_BITMASK, c + d);
    HoldsParts(b, 0, a, c + d);
    Field16(b, 2, c + d, nodetype, d);
    assert s == (a + c) + d + [];
    Field32(b, 0, s, a + c, totlen, []);
  }

  /** What is read from the header of an inode node is what was put there. */
  lemma InodeFields(h: DataHeader, crc: Crc, data: seq<byte>)
    requires IsDataHeader(h) && |data| == h.csize
    ensures
      var b := InodeNode(h, crc, data);
      && IsItem(Node(b, |b|)) && Get16(b, 2) == NODETYPE_INODE && Get32(b, 12) == h.ino && Get32(b, 16) == h.version
      && Get32(b, 44) == h.offset && Get32(b, 48) == h.csize && Get32(b, 52) == h.dsize && b[56] == h.compr
      && b[20..44] == h.meta && b[57] == b[58] == b[59] == 0 && Get32(b, 8) == crc(b[..8])
      && Get32(b, 60) == DataCrc(crc, data) && Get32(b, 64) == crc(b[..60]) && b[RAW_INODE_SIZE..] == data
  {
    hide Put32, Get32, Get16, NodeStart;
    var b, s := InodeNode(h, crc, data), InodeStart(h, crc);
    var start := NodeStart(NODETYPE_INODE, RAW_INODE_SIZE + h.csize);
    var kind: seq<byte> := [h.compr, 0, 0, 0];
    assert Holds(b, 0, s);
    var p1 := start + Put32(crc(start));
    var p3 := p1 + Put32(h.ino) + Put32(h.version) + h.meta;
    var q1 := Put32(h.offset) + Put32(h.csize) + Put32(h.dsize) + kind;
    assert s == p3 + q1;
    HoldsParts(b, 0, start, s[8..]);
    StartFields(b, NODETYPE_INODE, RAW_INODE_SIZE + h.csize);
    FirstWords(b, s, p1, h, q1);
    LastWords(b, s, p3, h, kind);
    HeaderSum(b, s, start, s[12..], crc);
    assert s[56..60] == kind && b[20..44] == s[20..44] == h.meta;
    assert s[56] == kind[0] && s[57] == kind[1] && s[58] == kind[2] && s[59] == kind[3];
    var x, y := Put32(DataCrc(crc, data)), Put32(crc(s));
    assert b == s + x + (y + data) && b == (s + x) + y + data && b[..60] == s;
    Field32(b, 0, b, s, DataCrc(crc, data), y + data);
    Field32(b, 0, b, s + x, crc(s), data);
  }

  /** The checksum over the first eight bytes of a node follows them. */
  lemma HeaderSum(b: seq<byte>, s: seq<byte>, start: seq<byte>, rest: seq<byte>, crc: Crc)
    requires |start| == 8 && s == start + Put32(crc(start)) + rest && Holds(b, 0, s)
    ensures 12 <= |b| && b[..8] == start && Get32(b, 8) == crc(b[..8])
  {
    hide Put32, Get32;
    Field32(b, 0, s, start, crc(start), rest);
    assert b[..8] == s[..8];
  }

  lemma FirstWords(b: seq<byte>, s: seq<byte>, p: seq<byte>, h: DataHeader, q: seq<byte>)
    requires IsDataHeader(h) && |p| == 12 && s == p + Put32(h.ino) + Put32(h.version) + h.meta + q && Holds(b, 0, s)
    ensures 20 <= |b| && Get32(b, 12) == h.ino && Get32(b, 16) == h.version
  {
    hide Put32, Get32;
    assert s == p + Put32(h.ino) + (Put32(h.version) + h.meta + q);
    Field32(b, 0, s, p, h.ino, Put32(h.version) + h.meta + q);
    assert s == (p + Put32(h.ino)) + Put32(h.version) + (h.meta + q);
    Field32(b, 0, s, p + Put32(h.ino), h.version, h.meta + q);
  }

  lemma LastWords(b: seq<byte>, s: seq<byte>, p: seq<byte>, h: DataHeader, kind: seq<byte>)
    requires IsDataHeader(h) && |p| == 44 && s == p + (Put32(h.offset) + Put32(h.csize) + Put32(h.dsize) + kind)
    requires Holds(b, 0, s)
    ensures 56 <= |b| && Get32(b, 44) == h.offset && Get32(b, 48) == h.csize && Get32(b, 52) == h.dsize
  {
    hide Put32, Get32;
    var x, y, z := Put32(h.offset), Put32(h.csize), Put32(h.dsize);
    assert s == p + x + (y + z + kind);
    Field32(b, 0, s, p, h.offset, y + z + kind);
    assert s == (p + x) + y + (z + kind);
    Field32(b, 0, s, p + x, h.csize, z + kind);
    assert s == (p + x + y) + z + kind;
    Field32(b, 0, s, p + x + y, h.dsize, kind);
  }

  /** What a directory entry says. */
  datatype DirentHeader = DirentHeader(pino: nat, version: nat, ino: nat, mctime: nat, kind: nat, name: seq<byte>)

  predicate IsDirentHeader(h: DirentHeader) {
    Word(h.pino) && Word(h.version) && Word(h.ino) && Word(h.mctime) && h.kind < 256 && |h.name| < 256
  }

  /** jffs2_raw_dirent up to the two checksums at its end. */
  function DirentStart(h: DirentHeader, crc: Crc): (s: seq<byte>)
    requires IsDirentHeader(h)
    ensures |s| == 32
  {
    var start := NodeStart(NODETYPE_DIRENT, RAW_DIRENT_SIZE + |h.name|);
    var sizes: seq<byte> := [|h.name|, h.kind, 0, 0];
    start + Put32(crc(start)) + Put32(h.pino) + Put32(h.version) + Put32(h.ino) + Put32(h.mctime) + sizes
  }

  function DirentNode(h: DirentHeader, crc: Crc): (s: seq<byte>)
    requires IsDirentHeader(h)
    ensures |s| == RAW_DIRENT_SIZE + |h.name|
  {
    DirentStart(h, crc) + Put32(crc(DirentStart(h, crc))) + Put32(crc(h.name)) + h.name
  }

  lemma DirentFields(h: DirentHeader, crc: Crc)
    requires IsDirentHeader(h)
    ensures
      var b := DirentNode(h, crc);
      && IsItem(Node(b, |b|)) && Get16(b, 2) == NODETYPE_DIRENT && Get32(b, 12) == h.pino && Get32(b, 16) == h.version
      && Get32(b, 20) == h.ino && Get32(b, 24) == h.mctime && Get32(b, 32) == crc(b[..32])
      && Get32(b, 36) == crc(h.name) && Get32(b, 8) == crc(b[..8]) && b[30] == b[31] == 0
      && b[28] == |h.name| && b[29] == h.kind && b[RAW_DIRENT_SIZE..] == h.name
  {
    hide Put32, Get32, Get16, NodeStart;
    var b, s := DirentNode(h, crc), DirentStart(h, crc);
    var start := NodeStart(NODETYPE_DIRENT, RAW_DIRENT_SIZE + |h.name|);
    var sizes: seq<byte> := [|h.name|, h.kind, 0, 0];
    assert Holds(b, 0, s);
    var p := start + Put32(crc(start));
    var q := Put32(h.mctime) + sizes;
    assert s == p + Put32(h.pino) + (Put32(h.version) + Put32(h.ino) + q);
    HoldsParts(b, 0, start, s[8..]);
    StartFields(b, NODETYPE_DIRENT, RAW_DIRENT_SIZE + |h.name|);
    Field32(b, 0, s, p, h.pino, Put32(h.version) + Put32(h.ino) + q);
    assert s == (p + Put32(h.pino) + Put32(h.version)) + Put32(h.ino) + q;
    Field32(b, 0, s, p + Put32(h.pino) + Put32(h.version), h.ino, q);
    assert s == (p + Put32(h.pino)) + Put32(h.version) + (Put32(h.ino) + q);
    Field32(b, 0, s, p + Put32(h.pino), h.version, Put32(h.ino) + q);
    var p4 := p + Put32(h.pino) + Put32(h.version) + Put32(h.ino);
    assert s == p4 + Put32(h.mctime) + sizes;
    Field32(b, 0, s, p4, h.mctime, sizes);
    HeaderSum(b, s, start, s[12..], crc);
    assert s[28] == sizes[0] && s[29] == sizes[1] && s[30] == sizes[2] && s[31] == sizes[3];
    DirentSums(h, crc, b, s);
  }

  lemma DirentSums(h: DirentHeader, crc: Crc, b: seq<byte>, s: seq<byte>)
    requires IsDirentHeader(h) && |s| == 32 && b == s + Put32(crc(s)) + Put32(crc(h.name)) + h.name
    ensures Get32(b, 32) == crc(b[..32]) && Get32(b, 36) == crc(h.name)
  {
    hide Put32, Get32;
    var x, y := Put32(crc(s)), Put32(crc(h.name));
    assert b == s + x + (y + h.name) && b == (s + x) + y + h.name && b[..32] == s;
    Field32(b, 0, b, s, crc(s), y + h.name);
    Field32(b, 0, b, s + x, crc(h.name), h.name);
  }

  // ----- A file in parts

  /** A file as it is to be in the image, and what its nodes are made with. */
  datatype Contents = Contents(crc: Crc, compressors: seq<Compressor>, ino: nat, meta: FileMeta, file: seq<byte>)

  /** The three checksums of an inode node. */
  predicate SumsRight(b: seq<byte>, crc: Crc) {
    && RAW_INODE_SIZE <= |b| && Get32(b, 8) == crc(b[..8])
    && Get32(b, 60) == DataCrc(crc, b[RAW_INODE_SIZE..]) && Get32(b, 64) == crc(b[..60])
  }

  /** The node carries these bytes of the file, compressed or not, from `from` up to `to`, with the file's status, and
      all checksums are right. */
  ghost predicate IsPart(i: Item, c: Contents, version: nat, from: nat, to: nat) {
    && IsItem(i) && IsInode(i) && Get16(i.head, 2) == NODETYPE_INODE && i.totlen == |i.head|
    && InoOf(i) == c.ino && Get32(i.head, 16) == version
    && from <= to <= |c.file| && Get32(i.head, 44) == from && Get32(i.head, 52) == to - from
    && Get32(i.head, 48) == |i.head| - RAW_INODE_SIZE
    && HasMeta(i.head, c.meta, |c.file|) && SumsRight(i.head, c.crc)
    && Decodes(c.compressors, i.head[56], i.head[RAW_INODE_SIZE..], c.file[from..to])
  }

  /** The nodes carry the file from its start to `upto`, each going on where the one before ends, numbered from 1. */
  ghost predicate Tiles(parts: seq<Item>, c: Contents, upto: nat, ends: seq<nat>) {
    && |ends| == |parts| + 1 && ends[0] == 0 && ends[|parts|] == upto
    && forall k :: 0 <= k < |parts| ==> IsPart(parts[k], c, k + 1, ends[k], ends[k + 1])
  }

  lemma TilesSnoc(parts: seq<Item>, c: Contents, upto: nat, ends: seq<nat>, i: Item, to: nat)
    requires Tiles(parts, c, upto, ends) && IsPart(i, c, |parts| + 1, upto, to)
    ensures Tiles(parts + [i], c, to, ends + [to])
  {
    hide IsPart;
  }

  /** A node made from some data and its header is that part of the file. */
  lemma MadePart(h: DataHeader, data: seq<byte>, c: Contents, to: nat)
    requires IsDataHeader(h) && |data| == h.csize && h.offset <= to <= |c.file| && h.dsize == to - h.offset
    requires h.ino == c.ino && h.meta == MetaBytes(c.meta, |c.file|)
    requires Decodes(c.compressors, h.compr, data, c.file[h.offset..to])
    ensures var b := InodeNode(h, c.crc, data); IsPart(Node(b, |b|), c, h.version, h.offset, to) && IsItem(Node(b, |b|))
  {
    hide Get16, Get32, InodeNode, Decodes, MetaBytes, HasMeta;
    InodeFields(h, c.crc, data);
    MetaFields(InodeNode(h, c.crc, data), c.meta, |c.file|);
  }
}
