/** JFFS2 nodes and the records that summarize them at the end of an eraseblock. */
module SummaryFormat {
  import opened Bytes
  import opened FlashFormat
  import opened Pieces

  const RAW_SUMMARY_SIZE: nat := 32
  const MARKER_SIZE: nat := 8

  /** The header size of a node of this type, and the least that may follow it. */
  predicate LongEnough(n: seq<byte>)
    requires 12 <= |n|
  {
    var t := Get16(n, 2);
    || (t == NODETYPE_INODE && 68 <= |n|)
    || (t == NODETYPE_DIRENT && 40 <= |n| && 40 + n[28] <= |n|)
    || (t == NODETYPE_XATTR && 32 <= |n|)
    || (t == NODETYPE_XREF && 28 <= |n|)
  }

  /** A node that gets a record: its length field is its length. */
  predicate IsNode(n: seq<byte>) {
    12 <= |n| < 0x1_0000_0000 && Get32(n, 4) == |n| && LongEnough(n)
  }

  datatype Record =
    | Inode(ino: nat, version: nat, offset: nat, totlen: nat)
    | Dirent(totlen: nat, offset: nat, pino: nat, version: nat, ino: nat, kind: nat, name: seq<byte>)
    | Xattr(xid: nat, version: nat, offset: nat, totlen: nat)
    | Xref(offset: nat)

  predicate IsRecord(r: Record) {
    match r
    case Inode(i, v, o, t) => Word(i) && Word(v) && Word(o) && Word(t)
    case Dirent(t, o, p, v, i, k, name) =>
      Word(t) && Word(o) && Word(p) && Word(v) && Word(i) && k < 256 && |name| < 256
    case Xattr(x, v, o, t) => Word(x) && Word(v) && Word(o) && Word(t)
    case Xref(o) => Word(o)
  }

  function TypeOf(r: Record): nat {
    match r
    case Inode(_, _, _, _) => NODETYPE_INODE
    case Dirent(_, _, _, _, _, _, _) => NODETYPE_DIRENT
    case Xattr(_, _, _, _) => NODETYPE_XATTR
    case Xref(_) => NODETYPE_XREF
  }

  /** The record of a node at this offset: add_sum_inode_mem, add_sum_dirent_mem, add_sum_xattr_mem,
      add_sum_xref_mem. */
  function Summarize(n: seq<byte>, offset: nat): (r: Record)
    requires IsNode(n) && Word(offset)
    ensures IsRecord(r) && r.offset == offset && Get16(n, 2) == TypeOf(r)
    ensures !r.Xref? ==> r.totlen == |n| && r.version == Get32(n, 16)
    ensures r.Inode? ==> r.ino == Get32(n, 12)
    ensures r.Xattr? ==> r.xid == Get32(n, 12)
    ensures r.Dirent? ==> r.pino == Get32(n, 12) && r.ino == Get32(n, 20) && r.kind == n[29]
    ensures r.Dirent? ==> 40 + |r.name| <= |n| && n[28] == |r.name| && n[40..40 + |r.name|] == r.name
  {
    var t := Get16(n, 2);
    if t == NODETYPE_INODE then Inode(Get32(n, 12), Get32(n, 16), offset, Get32(n, 4))
    else if t == NODETYPE_DIRENT then
      Dirent(Get32(n, 4), offset, Get32(n, 12), Get32(n, 16), Get32(n, 20), n[29], n[40..40 + n[28]])
    else if t == NODETYPE_XATTR then Xattr(Get32(n, 12), Get32(n, 16), offset, Get32(n, 4))
    else Xref(offset)
  }

  /** The JFFS2_SUMMARY_..._SIZE of a record. */
  function SizeOf(r: Record): nat {
    match r
    case Inode(_, _, _, _) => 18
    case Dirent(_, _, _, _, _, _, name) => 24 + |name|
    case Xattr(_, _, _, _) => 18
    case Xref(_) => 6
  }

  function Encode(r: Record): (s: seq<byte>)
    requires IsRecord(r)
    ensures |s| == SizeOf(r)
  {
    match r
    case Inode(ino, version, offset, totlen) =>
      Put16(NODETYPE_INODE) + Put32(ino) + Put32(version) + Put32(offset) + Put32(totlen)
    case Dirent(totlen, offset, pino, version, ino, kind, name) =>
      Put16(NODETYPE_DIRENT) + Put32(totlen) + Put32(offset) + Put32(pino) + Put32(version) + Put32(ino)
      + [|name|, kind] + name
    case Xattr(xid, version, offset, totlen) =>
      Put16(NODETYPE_XATTR) + Put32(xid) + Put32(version) + Put32(offset) + Put32(totlen)
    case Xref(offset) => Put16(NODETYPE_XREF) + Put32(offset)
  }

  predicate AllRecords(rs: seq<Record>) {
    forall i :: 0 <= i < |rs| ==> IsRecord(rs[i])
  }

  function RecordPieces(rs: seq<Record>): seq<seq<byte>>
    requires AllRecords(rs)
  {
    seq(|rs|, i requires 0 <= i < |rs| => Encode(rs[i]))
  }

  lemma AppendRecord(rs: seq<Record>, r: Record)
    requires AllRecords(rs) && IsRecord(r)
    ensures AllRecords(rs + [r]) && Flat(RecordPieces(rs + [r])) == Flat(RecordPieces(rs)) + Encode(r)
  {
    hide Flat, Encode, IsRecord;
    assert RecordPieces(rs + [r]) == RecordPieces(rs) + [Encode(r)];
    FlatSnoc(RecordPieces(rs), Encode(r));
  }

  // ----- Read back

  /** Four words behind a node type: the inode and xattr records. */
  lemma FourWords(data: seq<byte>, pos: nat, t: nat, w: nat, x: nat, y: nat, z: nat)
    requires t < 0x1_0000 && Word(w) && Word(x) && Word(y) && Word(z)
    requires Holds(data, pos, Put16(t) + Put32(w) + Put32(x) + Put32(y) + Put32(z))
    ensures pos + 18 <= |data| && Get16(data, pos) == t
    ensures Get32(data, pos + 2) == w && Get32(data, pos + 6) == x && Get32(data, pos + 10) == y
    ensures Get32(data, pos + 14) == z
  {
    hide Put16, Put32, Get32, Get16, Holds;
    var a, b, c, d, e := Put16(t), Put32(w), Put32(x), Put32(y), Put32(z);
    var s := a + b + c + d + e;
    assert s == a + (b + c + d + e);
    Field16(data, pos, s, t, b + c + d + e);
    assert s == a + b + (c + d + e);
    Field32(data, pos, s, a, w, c + d + e);
    assert s == (a + b) + c + (d + e);
    Field32(data, pos, s, a + b, x, d + e);
    Field32(data, pos, s, a + b + c, y, e);
    assert s == (a + b + c + d) + e + [];
    Field32(data, pos, s, a + b + c + d, z, []);
  }

  lemma DirentFields(data: seq<byte>, pos: nat, r: Record)
    requires IsRecord(r) && r.Dirent? && Holds(data, pos, Encode(r))
    ensures pos + SizeOf(r) <= |data| && Get16(data, pos) == NODETYPE_DIRENT
    ensures Get32(data, pos + 2) == r.totlen && Get32(data, pos + 6) == r.offset && Get32(data, pos + 10) == r.pino
    ensures Get32(data, pos + 14) == r.version && Get32(data, pos + 18) == r.ino
    ensures data[pos + 22] == |r.name| && data[pos + 23] == r.kind && data[pos + 24..pos + 24 + |r.name|] == r.name
  {
    hide Put16, Put32, Get32, Get16;
    var head := Put16(NODETYPE_DIRENT) + Put32(r.totlen) + Put32(r.offset) + Put32(r.pino) + Put32(r.version);
    var two: seq<byte> := [|r.name|, r.kind];
    var tail := Put32(r.ino) + two + r.name;
    assert Encode(r) == head + tail;
    HoldsParts(data, pos, head, tail);
    FourWords(data, pos, NODETYPE_DIRENT, r.totlen, r.offset, r.pino, r.version);
    assert tail == [] + Put32(r.ino) + (two + r.name);
    Field32(data, pos + 18, tail, [], r.ino, two + r.name);
    assert tail == Put32(r.ino) + (two + r.name);
    HoldsParts(data, pos + 18, Put32(r.ino), two + r.name);
    HoldsParts(data, pos + 22, two, r.name);
    assert data[pos + 22..pos + 24][0] == data[pos + 22] && data[pos + 22..pos + 24][1] == data[pos + 23];
  }

  lemma XrefFields(data: seq<byte>, pos: nat, offset: nat)
    requires Word(offset) && Holds(data, pos, Put16(NODETYPE_XREF) + Put32(offset))
    ensures pos + 6 <= |data| && Get16(data, pos) == NODETYPE_XREF && Get32(data, pos + 2) == offset
  {
    hide Put16, Put32, Get32, Get16;
    var s := Put16(NODETYPE_XREF) + Put32(offset);
    Field16(data, pos, s, NODETYPE_XREF, Put32(offset));
    assert s == Put16(NODETYPE_XREF) + Put32(offset) + [];
    Field32(data, pos, s, Put16(NODETYPE_XREF), offset, []);
  }

  /** What the kernel makes of a summary: it may find none, or fail with EIO. */
  datatype Scan<T> = NoSummary | Eio | Found(value: T)

  /** strnlen: the bytes before the first NUL. */
  function Strnlen(s: seq<byte>): (n: nat)
    ensures n <= |s| && 0 !in s[..n] && (n < |s| ==> s[n] == 0)
  {
    if s == [] || s[0] == 0 then 0 else
      var n := 1 + Strnlen(s[1..]);
      assert s[..n] == [s[0]] + s[1..][..n - 1];
      n
  }

  /** A record as the kernel takes it: a name is cut at the first NUL, and none may begin with it. Records of extended
      attributes are incompatible with a kernel that was built without those. */
  function AsRead(r: Record, xattrs: bool): (o: Scan<Record>)
    ensures !o.NoSummary?
  {
    match r
    case Inode(_, _, _, _) => Found(r)
    case Dirent(_, _, _, _, _, _, name) => if Strnlen(name) == 0 then Eio else Found(r.(name := name[..Strnlen(name)]))
    case _ => if xattrs then Found(r) else Eio
  }

  /** Records as the kernel takes them, up to the first that fails. */
  function AllAsRead(rs: seq<Record>, xattrs: bool): Scan<seq<Record>> {
    if exists i :: 0 <= i < |rs| && AsRead(rs[i], xattrs).Eio? then Eio
    else Found(seq(|rs|, i requires 0 <= i < |rs| && !AsRead(rs[i], xattrs).Eio? => AsRead(rs[i], xattrs).value))
  }

  /** A name that is one: not empty, and without NUL. */
  predicate IsName(name: seq<byte>) {
    name != [] && 0 !in name
  }

  predicate ForXattrs(r: Record) {
    r.Xattr? || r.Xref?
  }

  predicate Readable(r: Record, xattrs: bool) {
    (r.Dirent? ==> IsName(r.name)) && (ForXattrs(r) ==> xattrs)
  }

  predicate Fails(r: Record, xattrs: bool) {
    (r.Dirent? && (r.name == [] || r.name[0] == 0)) || (ForXattrs(r) && !xattrs)
  }

  lemma AsReadIff(r: Record, xattrs: bool)
    ensures AsRead(r, xattrs) == Found(r) <==> Readable(r, xattrs)
    ensures AsRead(r, xattrs).Eio? <==> Fails(r, xattrs)
  {
    if r.Dirent? {
      var n := Strnlen(r.name);
      if n == |r.name| { assert r.name[..n] == r.name; } else { assert r.name[n] in r.name; }
      if n > 0 { assert r.name[..n][0] == r.name[0]; }
    }
  }

  /** The kernel takes records as they were written if and only if all names are names, and there are none of
      extended attributes unless it knows them. It fails if and only if a name is empty or begins with NUL, or there
      are such records and it does not know them. */
  lemma AllAsReadIff(rs: seq<Record>, xattrs: bool)
    ensures AllAsRead(rs, xattrs) == Found(rs) <==> forall i :: 0 <= i < |rs| ==> Readable(rs[i], xattrs)
    ensures AllAsRead(rs, xattrs).Eio? <==> exists i :: 0 <= i < |rs| && Fails(rs[i], xattrs)
  {
    hide Readable, Fails, AsRead;
    forall i | 0 <= i < |rs| { AsReadIff(rs[i], xattrs); }
    var o := AllAsRead(rs, xattrs);
    if o.Found? {
      assert |o.value| == |rs| && forall i :: 0 <= i < |rs| ==> AsRead(rs[i], xattrs) == Found(o.value[i]);
      if forall i :: 0 <= i < |rs| ==> Readable(rs[i], xattrs) { assert o.value == rs; }
    }
  }

  /** A directory entry whose name has a NUL inside is read back with the name before it. */
  lemma NameIsCut(r: Record, xattrs: bool)
    requires r.Dirent? && r.name == [65, 0, 66]
    ensures AllAsRead([r], xattrs) == Found([r.(name := [65])])
  {
    assert r.name[1..] == [0, 66] && Strnlen(r.name) == 1 && r.name[..1] == [65];
    var rs, cut := [r], [r.(name := [65])];
    assert AsRead(rs[0], xattrs) == Found(cut[0]);
    assert AllAsRead(rs, xattrs).value == cut;
  }

  /** One with an empty name makes the kernel fail. */
  lemma EmptyNameFails(r: Record, xattrs: bool)
    requires r.Dirent? && r.name == []
    ensures AllAsRead([r], xattrs) == Eio
  {
    AllAsReadIff([r], xattrs);
    assert Fails([r][0], xattrs);
  }

  /** And so does one of an extended attribute, for a kernel built without them. */
  lemma XattrFails(offset: nat)
    ensures AllAsRead([Xref(offset)], false) == Eio
  {
    AllAsReadIff([Xref(offset)], false);
    assert Fails([Xref(offset)][0], false);
  }

  /** JFFS2_FEATURE_INCOMPAT in a node type. */
  predicate Incompatible(t: nat) {
    t / 0x4000 % 4 == 3
  }

  lemma XattrsIncompatible()
    ensures Incompatible(NODETYPE_XATTR) && Incompatible(NODETYPE_XREF)
  {
  }

  /** One turn of the loop of jffs2_sum_process_sum_data: an unknown node type ends it, with an error if it is
      incompatible, and so does a name without length. */
  method ReadRecord(data: seq<byte>, pos: nat, xattrs: bool, ghost r: Record) returns (o: Scan<Record>, next: nat)
    requires IsRecord(r) && Holds(data, pos, Encode(r))
    ensures o == AsRead(r, xattrs) && (o.Found? ==> next == pos + SizeOf(r))
  {
    hide Get16, Get32, Strnlen, Incompatible, Holds;
    match r {
      case Inode(ino, version, offset, totlen) => FourWords(data, pos, NODETYPE_INODE, ino, version, offset, totlen);
      case Dirent(_, _, _, _, _, _, _) => DirentFields(data, pos, r);
      case Xattr(xid, version, offset, totlen) => FourWords(data, pos, NODETYPE_XATTR, xid, version, offset, totlen);
      case Xref(offset) => XrefFields(data, pos, offset);
    }
    hide Encode;
    XattrsIncompatible();
    var t := Get16(data, pos);
    next := pos;
    if t == NODETYPE_INODE {
      o := Found(Inode(Get32(data, pos + 2), Get32(data, pos + 6), Get32(data, pos + 10), Get32(data, pos + 14)));
      next := pos + 18;
    } else if t == NODETYPE_DIRENT {
      var nsize := data[pos + 22];
      var checked := Strnlen(data[pos + 24..pos + 24 + nsize]);
      if checked == 0 { return Eio, next; }
      o := Found(Dirent(Get32(data, pos + 2), Get32(data, pos + 6), Get32(data, pos + 10), Get32(data, pos + 14),
                        Get32(data, pos + 18), data[pos + 23], data[pos + 24..pos + 24 + checked]));
      assert data[pos + 24..pos + 24 + nsize][..checked] == data[pos + 24..pos + 24 + checked];
      next := pos + 24 + nsize;
    } else if t == NODETYPE_XATTR && xattrs {
      o := Found(Xattr(Get32(data, pos + 2), Get32(data, pos + 6), Get32(data, pos + 10), Get32(data, pos + 14)));
      next := pos + 18;
    } else if t == NODETYPE_XREF && xattrs {
      o := Found(Xref(Get32(data, pos + 2)));
      next := pos + 6;
    } else {
      o := if Incompatible(t) then Eio else NoSummary;
    }
  }

  /** jffs2_sum_process_sum_data: as many records as the summary node counts. */
  method ReadRecords(data: seq<byte>, pos: nat, count: nat, xattrs: bool, ghost rs: seq<Record>)
    returns (o: Scan<seq<Record>>)
    requires AllRecords(rs) && count == |rs| && Holds(data, pos, Flat(RecordPieces(rs)))
    ensures o == AllAsRead(rs, xattrs)
  {
    hide Flat, Encode, IsRecord, Start, Holds, SizeOf, AsRead;
    ghost var pieces := RecordPieces(rs);
    StartEnds(pieces);
    var out: seq<Record> := [];
    var at, i := pos, 0;
    while i < count
      invariant 0 <= i <= count && |out| == i && at == pos + Start(pieces, i)
      invariant forall j :: 0 <= j < i ==> AsRead(rs[j], xattrs) == Found(out[j])
    {
      HoldsPiece(data, pos, pieces, i);
      var r;
      r, at := ReadRecord(data, at, xattrs, rs[i]);
      if r.NoSummary? { return NoSummary; }
      if r.Eio? { return Eio; }
      out := out + [r.value];
      i := i + 1;
    }
    assert out == AllAsRead(rs, xattrs).value;
    o := Found(out);
  }
}
