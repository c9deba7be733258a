/** How full an eraseblock with its summary is, and when the next node still finds room: the arithmetic of
    pad_block_if_less_than, on lengths alone. */
module SummaryRoom {
  import opened FlashFormat
  import opened SummaryFormat

  /** The bytes in the data buffer, and the bytes its records will take. */
  datatype Fill = Fill(len: nat, sum: nat)

  /** A node of `req` bytes whose record takes `plus` bytes. */
  datatype Need = Need(req: nat, plus: nat)

  const EMPTY: Fill := Fill(0, 0)

  /** The room for the summary besides its records. */
  const FRAME: nat := RAW_SUMMARY_SIZE + MARKER_SIZE

  predicate Bounded(f: Fill, size: nat) {
    f.len % 4 == 0 && f.sum <= f.len && f.len + f.sum + FRAME <= size
  }

  /** Nodes have a header, records are no longer than their nodes, and the sums fit 32 bits. */
  predicate IsNeed(n: Need) {
    12 <= n.req && n.plus <= n.req && Word(2 * n.req + n.plus + 3)
  }

  /** A comparison of unsigned with possibly negative int, as the C compiler makes it. */
  predicate Exceeds(a: nat, b: int) {
    a > if b < 0 then b + 0x1_0000_0000 else b
  }

  /** What pad_block_if_less_than calls datasize. */
  function DataSize(sum: nat, n: Need): nat {
    Padded(n.req + n.plus + sum + FRAME)
  }

  /** The test for closing the block. */
  predicate Closes(f: Fill, size: nat, n: Need) {
    Exceeds(f.len + n.req, size - DataSize(f.sum, n))
  }

  /** Where nothing goes below zero the block is closed exactly if it cannot take the node, and behind it the node's
      length once more, its record, the other records and the frame, these padded together. */
  lemma ClosesIff(f: Fill, size: nat, n: Need)
    requires DataSize(f.sum, n) <= size
    ensures Closes(f, size, n) <==> f.len + n.req + Padded(n.req + n.plus + f.sum + 40) > size
  {
    hide Padded;
  }

  /** What is in the buffer when the node is about to be written: an empty one gets a cleanmarker first. */
  function AfterPad(f: Fill, size: nat, mark: nat, n: Need): Fill {
    var g := if Closes(f, size, n) then EMPTY else f;
    if g.len == 0 then Fill(Padded(mark), g.sum) else g
  }

  /** The node, its record and the summary fit into the block. */
  predicate HasRoom(f: Fill, size: nat, n: Need) {
    f.len + Padded(n.req) + f.sum + n.plus + FRAME <= size
  }

  /** In a block of its own. */
  predicate FitsAlone(size: nat, mark: nat, n: Need) {
    HasRoom(Fill(Padded(mark), 0), size, n)
  }

  /** What a caller can check beforehand: where a new block is begun the node must fit alone; where the block is
      continued the subtraction must not have gone below zero. */
  predicate CanTake(f: Fill, size: nat, mark: nat, n: Need) {
    if f.len == 0 || Closes(f, size, n) then FitsAlone(size, mark, n) else DataSize(f.sum, n) <= size
  }

  /** There is room for the node if and only if that condition holds. */
  lemma RoomIff(f: Fill, size: nat, mark: nat, n: Need)
    requires Bounded(f, size) && IsNeed(n)
    ensures HasRoom(AfterPad(f, size, mark, n), size, n) <==> CanTake(f, size, mark, n)
  {
    hide Padded, Gap, Closes, DataSize;
    if f.len != 0 && !Closes(f, size, n) { ContinuedIff(f, size, n); }
  }

  /** In a block that has something in it and is not closed. */
  lemma ContinuedIff(f: Fill, size: nat, n: Need)
    requires Bounded(f, size) && IsNeed(n) && f.len > 0 && !Closes(f, size, n)
    ensures HasRoom(f, size, n) <==> DataSize(f.sum, n) <= size
  {
  }

  /** Where the subtraction goes below zero the block is not closed, although there is no room in it. */
  lemma WrapsAround(f: Fill, size: nat, n: Need)
    requires Bounded(f, size) && IsNeed(n) && f.len > 0 && DataSize(f.sum, n) > size
    ensures !Closes(f, size, n) && !HasRoom(f, size, n)
  {
  }

  function AfterNode(f: Fill, size: nat, mark: nat, n: Need): Fill {
    var g := AfterPad(f, size, mark, n);
    Fill(g.len + Padded(n.req), g.sum + n.plus)
  }

  lemma StaysBounded(f: Fill, size: nat, mark: nat, n: Need)
    requires Bounded(f, size) && IsNeed(n) && CanTake(f, size, mark, n)
    ensures Bounded(AfterNode(f, size, mark, n), size) && AfterNode(f, size, mark, n).len > 0
  {
    RoomIff(f, size, mark, n);
    Aligned(0, mark);
    Aligned(AfterPad(f, size, mark, n).len, n.req);
    hide Padded, Gap, Closes, DataSize;
    assert n.req <= Padded(n.req) by { AtLeast(n.req); }
  }

  /** Where there is room, the node and its record can go. */
  lemma Grows(f: Fill, size: nat, n: Need)
    requires HasRoom(f, size, n) && f.len % 4 == 0 && f.sum <= f.len && n.plus <= n.req && 0 < n.req
    ensures Bounded(Fill(f.len + Padded(n.req), f.sum + n.plus), size) && 0 < Padded(n.req) && f.len <= size
  {
    Aligned(f.len, n.req);
    AtLeast(n.req);
    hide Padded, Gap;
  }

  lemma AtLeast(n: nat)
    ensures n <= Padded(n) <= n + 3
  {
  }

  lemma Aligned(a: nat, n: nat)
    requires a % 4 == 0
    ensures (a + Padded(n)) % 4 == 0
  {
  }

  /** A data node with twice the least data, 256 bytes, would still fit beside the summary padded to a word. */
  predicate RoomForData(f: Fill, size: nat) {
    f.len + 68 + 256 + Padded(f.sum + 32 + 8) <= size
  }

  lemma RoomForDataIff(f: Fill, size: nat)
    ensures FRAME <= Padded(f.sum + FRAME)
    ensures RoomForData(f, size) <==> HasRoom(Fill(f.len, Padded(f.sum + FRAME) - FRAME), size, Need(324, 0))
  {
    AtLeast(f.sum + FRAME);
    assert Padded(324) == 324;
  }

  /** Every one of these nodes finds room, one after the other. */
  predicate Takes(f: Fill, size: nat, mark: nat, ns: seq<Need>)
    decreases |ns|
  {
    ns != [] ==>
      && IsNeed(ns[0]) && CanTake(f, size, mark, ns[0])
      && Takes(AfterNode(f, size, mark, ns[0]), size, mark, ns[1..])
  }

  /** Nodes that with their records take up no more than about half a block always do. */
  predicate Half(size: nat, mark: nat, n: Need) {
    IsNeed(n) && 2 * (n.req + n.plus) + FRAME + 6 <= size && FitsAlone(size, mark, n)
  }

  lemma HalfIsTaken(f: Fill, size: nat, mark: nat, n: Need)
    requires Bounded(f, size) && Half(size, mark, n)
    ensures CanTake(f, size, mark, n)
  {
  }

  lemma {:induction false} HalvesAreTaken(f: Fill, size: nat, mark: nat, ns: seq<Need>)
    requires Bounded(f, size) && forall i :: 0 <= i < |ns| ==> Half(size, mark, ns[i])
    ensures Takes(f, size, mark, ns)
    decreases |ns|
  {
    hide Half, CanTake, AfterNode, Bounded, IsNeed;
    if ns != [] {
      assert Half(size, mark, ns[0]);
      HalfIsTaken(f, size, mark, ns[0]);
      assert IsNeed(ns[0]) by { HalfIsNeed(size, mark, ns[0]); }
      StaysBounded(f, size, mark, ns[0]);
      HalvesAreTaken(AfterNode(f, size, mark, ns[0]), size, mark, ns[1..]);
    }
  }

  lemma HalfIsNeed(size: nat, mark: nat, n: Need)
    requires Half(size, mark, n)
    ensures IsNeed(n)
  {
  }

  // ----- A node that finds no room

  /** A directory entry with a name of 254 bytes, and a data node. */
  const DIRENT: Need := Need(294, 278)
  const LARGE: Need := Need(4600, 18)

  lemma OneDirent(j: nat)
    requires j < 13
    ensures IsNeed(DIRENT) && CanTake(Fill(296 * j, 278 * j), 8192, 0, DIRENT)
    ensures AfterNode(Fill(296 * j, 278 * j), 8192, 0, DIRENT) == Fill(296 * (j + 1), 278 * (j + 1))
  {
    hide Padded, Gap, Closes;
    SomePaddings();
    DirentContinues(j);
    assert FitsAlone(8192, 0, DIRENT);
  }

  lemma DirentContinues(j: nat)
    requires j < 13
    ensures !Closes(Fill(296 * j, 278 * j), 8192, DIRENT) && DataSize(278 * j, DIRENT) <= 8192
  {
    hide Padded, Gap;
    AtLeast(294 + 278 + 278 * j + FRAME);
  }

  lemma SomePaddings()
    ensures Padded(294) == 296 && Padded(0) == 0
  {
  }

  lemma LargeTooLate()
    ensures !CanTake(Fill(3848, 3614), 8192, 0, LARGE)
  {
    assert Padded(4600 + 18 + 3614 + FRAME) == 8272;
  }

  lemma {:induction false} DirentsTaken(j: nat)
    requires j <= 13
    ensures Takes(Fill(296 * j, 278 * j), 8192, 0, seq(13 - j, _ => DIRENT))
    ensures !Takes(Fill(296 * j, 278 * j), 8192, 0, seq(13 - j, _ => DIRENT) + [LARGE])
    decreases 13 - j
  {
    hide CanTake, AfterNode, IsNeed;
    var rest := seq(13 - j, _ => DIRENT);
    if j == 13 {
      LargeTooLate();
      assert rest + [LARGE] == [LARGE];
    } else {
      DirentsTaken(j + 1);
      OneDirent(j);
      assert rest[1..] == seq(13 - (j + 1), _ => DIRENT);
      assert (rest + [LARGE])[1..] == seq(13 - (j + 1), _ => DIRENT) + [LARGE];
    }
  }

  /** In eraseblocks of 8 KiB, thirteen such entries find room, and a data node of 4600 bytes after them, which would
      have fitted into a block of its own, does not. */
  lemma LargeNotTaken()
    ensures FitsAlone(8192, 0, LARGE)
    ensures Takes(EMPTY, 8192, 0, seq(13, _ => DIRENT)) && !Takes(EMPTY, 8192, 0, seq(13, _ => DIRENT) + [LARGE])
  {
    DirentsTaken(0);
  }
}
