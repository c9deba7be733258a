/** The format of a squashfs directory: runs of entries, each run behind a header that
    its entries' block and inode numbers are relative to. */
module DirectoryFormat {
  import opened Bytes
  import opened Pieces

  const NAME_LEN: nat := 256
  const HEADER_SIZE: nat := 12
  const ENTRY_SIZE: nat := 8

  /** A directory entry: the inode reference has its block in the upper and its offset in the lower 16 bits. */
  datatype Entry = Entry(name: seq<byte>, inode: nat, number: nat, kind: nat)

  predicate ValidEntry(e: Entry) {
    1 <= |e.name| <= NAME_LEN && e.inode < 0x1_0000_0000_0000 && e.number < 0x1_0000_0000 && e.kind < 0x1_0000
  }

  predicate Near(number: int, base: int) {
    -32768 <= number - base <= 32767
  }

  predicate InRun(e: Entry, start: nat, base: nat) {
    ValidEntry(e) && e.inode / 0x1_0000 == start && Near(e.number, base)
  }

  datatype Run = Run(start: nat, base: nat, entries: seq<Entry>)

  predicate AllInRun(es: seq<Entry>, start: nat, base: nat) {
    forall i :: 0 <= i < |es| ==> InRun(es[i], start, base)
  }

  predicate Fits(r: Run) {
    && r.start < 0x1_0000_0000 && r.base < 0x1_0000_0000 && 1 <= |r.entries| <= 256
    && AllInRun(r.entries, r.start, r.base)
  }

  function Signed16(n: nat): int
    requires n < 0x1_0000
  {
    if n < 0x8000 then n else n - 0x1_0000
  }

  function EncodeEntry(e: Entry, base: nat): (s: seq<byte>)
    requires ValidEntry(e)
    ensures |s| == ENTRY_SIZE + |e.name|
  {
    Put16(e.inode % 0x1_0000) + Put16((e.number - base) % 0x1_0000) + Put16(e.kind) + Put16(|e.name| - 1) + e.name
  }

  function EntryPieces(es: seq<Entry>, start: nat, base: nat): seq<seq<byte>>
    requires AllInRun(es, start, base)
  {
    seq(|es|, i requires 0 <= i < |es| => EncodeEntry(es[i], base))
  }

  function EncodeHeader(count: nat, start: nat, base: nat): (s: seq<byte>)
    requires 1 <= count <= 256 && start < 0x1_0000_0000 && base < 0x1_0000_0000
    ensures |s| == HEADER_SIZE
  {
    Put32(count - 1) + Put32(start) + Put32(base)
  }

  function EncodeRun(r: Run): (s: seq<byte>)
    requires Fits(r)
  {
    EncodeHeader(|r.entries|, r.start, r.base) + Flat(EntryPieces(r.entries, r.start, r.base))
  }

  predicate AllFit(rs: seq<Run>) {
    forall i :: 0 <= i < |rs| ==> Fits(rs[i])
  }

  function RunPieces(rs: seq<Run>): seq<seq<byte>>
    requires AllFit(rs)
  {
    seq(|rs|, i requires 0 <= i < |rs| => EncodeRun(rs[i]))
  }

  function EntryLists(rs: seq<Run>): seq<seq<Entry>> {
    seq(|rs|, i requires 0 <= i < |rs| => rs[i].entries)
  }

  function AllEntries(rs: seq<Run>): seq<Entry> {
    Flat(EntryLists(rs))
  }

  // ----- Appending

  lemma AppendEntry(es: seq<Entry>, e: Entry, start: nat, base: nat)
    requires AllInRun(es, start, base) && InRun(e, start, base)
    ensures AllInRun(es + [e], start, base)
    ensures Flat(EntryPieces(es + [e], start, base)) == Flat(EntryPieces(es, start, base)) + EncodeEntry(e, base)
  {
    hide Flat, EncodeEntry, ValidEntry;
    var pieces := EntryPieces(es, start, base);
    assert EntryPieces(es + [e], start, base) == pieces + [EncodeEntry(e, base)];
    FlatSnoc(pieces, EncodeEntry(e, base));
  }

  lemma AppendRun(rs: seq<Run>, r: Run)
    requires AllFit(rs) && Fits(r)
    ensures AllFit(rs + [r])
    ensures Flat(RunPieces(rs + [r])) == Flat(RunPieces(rs)) + EncodeRun(r)
    ensures AllEntries(rs + [r]) == AllEntries(rs) + r.entries
  {
    hide Flat, EncodeRun, Fits;
    assert RunPieces(rs + [r]) == RunPieces(rs) + [EncodeRun(r)];
    FlatSnoc(RunPieces(rs), EncodeRun(r));
    assert EntryLists(rs + [r]) == EntryLists(rs) + [r.entries];
    FlatSnoc(EntryLists(rs), r.entries);
  }

  // ----- Fields read back

  lemma HeaderFields(count: nat, start: nat, base: nat, data: seq<byte>, pos: nat)
    requires 1 <= count <= 256 && start < 0x1_0000_0000 && base < 0x1_0000_0000
    requires pos + HEADER_SIZE <= |data| && data[pos..pos + HEADER_SIZE] == EncodeHeader(count, start, base)
    ensures Get32(data, pos) == count - 1 && Get32(data, pos + 4) == start && Get32(data, pos + 8) == base
  {
    hide Put32, Get32;
    var s := EncodeHeader(count, start, base);
    var a, b, c := Put32(count - 1), Put32(start), Put32(base);
    GetPut32([], count - 1, b + c);
    GetPut32(a, start, c);
    GetPut32(a + b, base, []);
    assert s == [] + a + (b + c) && s == a + b + c && s == (a + b) + c + [];
    Shifted32(data, pos, s, 0);
    Shifted32(data, pos, s, 4);
    Shifted32(data, pos, s, 8);
  }

  lemma EntryWords(e: Entry, base: nat)
    requires ValidEntry(e)
    ensures
      var s := EncodeEntry(e, base);
      && Get16(s, 0) == e.inode % 0x1_0000 && Get16(s, 2) == (e.number - base) % 0x1_0000
      && Get16(s, 4) == e.kind && Get16(s, 6) == |e.name| - 1 && s[ENTRY_SIZE..] == e.name
  {
    hide Put16, Get16;
    var s := EncodeEntry(e, base);
    var a, b := Put16(e.inode % 0x1_0000), Put16((e.number - base) % 0x1_0000);
    var c, d := Put16(e.kind), Put16(|e.name| - 1);
    GetPut16([], e.inode % 0x1_0000, b + c + d + e.name);
    GetPut16(a, (e.number - base) % 0x1_0000, c + d + e.name);
    GetPut16(a + b, e.kind, d + e.name);
    GetPut16(a + b + c, |e.name| - 1, e.name);
    assert s == [] + a + (b + c + d + e.name);
    assert s == a + b + (c + d + e.name);
    assert s == (a + b) + c + (d + e.name);
  }

  lemma EntryFields(e: Entry, base: nat, data: seq<byte>, pos: nat)
    requires ValidEntry(e)
    requires pos + |EncodeEntry(e, base)| <= |data| && data[pos..pos + |EncodeEntry(e, base)|] == EncodeEntry(e, base)
    ensures Get16(data, pos) == e.inode % 0x1_0000 && Get16(data, pos + 2) == (e.number - base) % 0x1_0000
    ensures Get16(data, pos + 4) == e.kind && Get16(data, pos + 6) == |e.name| - 1
    ensures data[pos + ENTRY_SIZE..pos + ENTRY_SIZE + |e.name|] == e.name
  {
    var s := EncodeEntry(e, base);
    EntryWords(e, base);
    hide Put16, Get16, EncodeEntry;
    Shifted16(data, pos, s, 0);
    Shifted16(data, pos, s, 2);
    Shifted16(data, pos, s, 4);
    Shifted16(data, pos, s, 6);
    assert data[pos..pos + |s|][ENTRY_SIZE..] == data[pos + ENTRY_SIZE..pos + |s|];
  }

  /** A 16-bit difference added to the base gives the number back. */
  lemma NumberBack(number: nat, base: nat)
    requires Near(number, base) && number < 0x1_0000_0000
    ensures (base + Signed16((number - base) % 0x1_0000)) % 0x1_0000_0000 == number
  {
  }

  lemma ReferenceBack(inode: nat, start: nat)
    requires inode / 0x1_0000 == start
    ensures start * 0x1_0000 + inode % 0x1_0000 == inode
  {
  }
}
