/** A JFFS2 image as its parts: nodes, cleanmarkers and empty words, and the walk over it that finds the nodes again. */
module JffsImage {
  import opened Arithmetic
  import opened Bytes
  import opened FlashFormat
  import opened Pieces

  /** A node or cleanmarker, of which `head` is written and the rest of its length is padding; or an empty word. */
  datatype Item = Empty | Node(head: seq<byte>, totlen: nat)

  /** The bit every node type of a current node has. */
  predicate Accurate(t: nat) {
    t / 0x2000 % 2 == 1
  }

  /** The type of a node, which an obsolete one has without that bit. */
  function TypeRead(t: nat): nat {
    if Accurate(t) then t else t + 0x2000
  }

  predicate IsItem(i: Item) {
    i.Node? ==>
      && 12 <= |i.head| <= i.totlen < 0x1_0000_0000 && Get32(i.head, 4) == i.totlen
      && Get16(i.head, 0) == MAGIC_BITMASK && TypeRead(Get16(i.head, 2)) != 0xffff
      && (TypeRead(Get16(i.head, 2)) == NODETYPE_INODE ==> RAW_INODE_SIZE <= |i.head|)
  }

  function Length(i: Item): nat {
    if i.Empty? then 4 else Padded(i.totlen)
  }

  function Encode(i: Item): (s: seq<byte>)
    requires IsItem(i)
    ensures |s| == Length(i) && |s| % 4 == 0 && |s| > 0
  {
    if i.Empty? then Filled(4) else i.head + Filled(Length(i) - |i.head|)
  }

  predicate AllItems(items: seq<Item>) {
    forall k :: 0 <= k < |items| ==> IsItem(items[k])
  }

  function ItemPieces(items: seq<Item>): seq<seq<byte>>
    requires AllItems(items)
  {
    seq(|items|, k requires 0 <= k < |items| => Encode(items[k]))
  }

  /** The item at this place does not cross the end of an eraseblock. */
  predicate InBlock(start: nat, n: nat, e: nat)
    requires 0 < e
  {
    start % e + n <= e
  }

  ghost predicate AllInBlock(items: seq<Item>, e: nat)
    requires 0 < e && AllItems(items)
  {
    forall k :: 0 <= k < |items| ==> InBlock(Start(ItemPieces(items), k), Length(items[k]), e)
  }

  /** Where the nodes among the first k items are. */
  ghost function Positions(items: seq<Item>, k: nat): seq<nat>
    requires AllItems(items) && k <= |items|
  {
    if k == 0 then []
    else Positions(items, k - 1) + if items[k - 1].Node? then [Start(ItemPieces(items), k - 1)] else []
  }

  /** No inode node among the first k items has a larger number, and the bound is ino or one of theirs. */
  ghost predicate LargestIno(items: seq<Item>, k: nat, ino0: nat, ino: nat)
    requires AllItems(items) && k <= |items|
  {
    && ino0 <= ino && (forall j :: 0 <= j < k && IsInode(items[j]) ==> InoOf(items[j]) <= ino)
    && (ino == ino0 || exists j :: 0 <= j < k && IsInode(items[j]) && InoOf(items[j]) == ino)
  }

  predicate IsInode(i: Item)
    requires IsItem(i)
  {
    i.Node? && (Get16(i.head, 2) == 0xe002 || Get16(i.head, 2) == 0xc002)
  }

  function InoOf(i: Item): nat
    requires IsItem(i) && IsInode(i)
  {
    Get32(i.head, 12)
  }

  lemma EmptyRead(b: seq<byte>, p: nat)
    requires Holds(b, p, Encode(Empty))
    ensures p + 4 <= |b| && Get16(b, p) == 0xffff && Get16(b, p + 2) == 0xffff
  {
    Shifted16(b, p, Encode(Empty), 0);
    Shifted16(b, p, Encode(Empty), 2);
  }

  lemma NodeRead(b: seq<byte>, p: nat, i: Item)
    requires IsItem(i) && i.Node? && Holds(b, p, Encode(i))
    ensures p + Length(i) <= |b| && Get16(b, p) == MAGIC_BITMASK && Get16(b, p + 2) == Get16(i.head, 2)
    ensures Get32(b, p + 4) == i.totlen
    ensures IsInode(i) ==> p + 16 <= |b| && Get32(b, p + 12) == InoOf(i)
  {
    HoldsParts(b, p, i.head, Filled(Length(i) - |i.head|));
    hide Get16, Get32;
    Shifted16(b, p, i.head, 0);
    Shifted16(b, p, i.head, 2);
    Shifted32(b, p, i.head, 4);
    if IsInode(i) { Shifted32(b, p, i.head, 12); }
  }

  /** One turn of the loop of process_buffer: how far it goes on, whether a node was met, and the largest inode
      number. */
  method Visit(b: seq<byte>, p: nat, ino0: nat, ghost i: Item) returns (next: nat, node: bool, ino: nat)
    requires IsItem(i) && Holds(b, p, Encode(i))
    ensures next == p + Length(i) && node == i.Node?
    ensures ino == if IsInode(i) && InoOf(i) > ino0 then InoOf(i) else ino0
  {
    if i.Node? { NodeRead(b, p, i); } else { EmptyRead(b, p); }
    hide Get16, Get32, Encode;
    var magic, t := Get16(b, p), Get16(b, p + 2);
    var word: nat := p + 4;
    ino := ino0;
    if magic == 0xffff && t == 0xffff { return word, false, ino; }
    if magic != MAGIC_BITMASK { return word, false, ino; }
    if !Accurate(t) { t := t + 0x2000; }
    if t == NODETYPE_INODE {
      if Get32(b, p + 12) > ino { ino := Get32(b, p + 12); }
      return p + Padded(Get32(b, p + 4)), true, ino;
    } else if t == 0xffff {
      return word, false, ino;
    } else {
      return p + Padded(Get32(b, p + 4)), true, ino;
    }
  }

  lemma ItemAhead(b: seq<byte>, base: nat, p: nat, items: seq<Item>, e: nat, k: nat)
    requires 0 < e && AllItems(items) && AllInBlock(items, e) && k <= |items| && base + p == Start(ItemPieces(items), k)
    requires base % e == 0 && p < |b| <= e && base + |b| <= |Flat(ItemPieces(items))|
    requires |b| == e || base + |b| == |Flat(ItemPieces(items))|
    requires b == Flat(ItemPieces(items))[base..base + |b|]
    ensures k < |items| && p + Length(items[k]) <= |b| && Holds(b, p, Encode(items[k]))
    ensures Start(ItemPieces(items), k + 1) == base + p + Length(items[k])
  {
    hide Flat, Start, Encode, IsItem, Length;
    var pieces := ItemPieces(items);
    StartEnds(pieces);
    PieceAt(pieces, k);
    ModStep(base, p, e);
    var all, n := Flat(pieces), Length(items[k]);
    assert InBlock(Start(pieces, k), n, e);
    Within(all, base, |b|, p, n);
  }

  lemma Within(s: seq<byte>, base: nat, m: nat, p: nat, n: nat)
    requires base + m <= |s| && p + n <= m
    ensures s[base..base + m][p..p + n] == s[base + p..base + p + n]
  {
    var inner, outer := s[base..base + m][p..p + n], s[base + p..base + p + n];
    assert |inner| == |outer|;
    forall k | 0 <= k < n
      ensures inner[k] == outer[k]
    {
      assert inner[k] == s[base..base + m][p + k] == s[base + p + k];
    }
  }

  lemma LargestNext(items: seq<Item>, k: nat, first: nat, before: nat, ino: nat)
    requires AllItems(items) && k < |items| && LargestIno(items, k, first, before)
    requires ino == if IsInode(items[k]) && InoOf(items[k]) > before then InoOf(items[k]) else before
    ensures LargestIno(items, k + 1, first, ino)
  {
    hide IsItem;
    if ino != before {
      assert IsInode(items[k]) && InoOf(items[k]) == ino;
    } else if ino != first {
      var j :| 0 <= j < k && IsInode(items[j]) && InoOf(items[j]) == ino;
      assert IsInode(items[j]);
    }
  }

  /** process_buffer on one eraseblock of the image, or what is left of it: it meets its nodes and nothing else. */
  method ProcessBuffer(b: seq<byte>, ino0: nat, base: nat, ghost items: seq<Item>, ghost e: nat, ghost k0: nat,
                       ghost first: nat)
    returns (visited: seq<nat>, ino: nat, ghost k: nat)
    requires 0 < e && AllItems(items) && AllInBlock(items, e) && k0 <= |items| && base == Start(ItemPieces(items), k0)
    requires base % e == 0 && |b| <= e && base + |b| <= |Flat(ItemPieces(items))|
    requires |b| == e || base + |b| == |Flat(ItemPieces(items))|
    requires b == Flat(ItemPieces(items))[base..base + |b|]
    requires LargestIno(items, k0, first, ino0)
    ensures k0 <= k <= |items| && Start(ItemPieces(items), k) == base + |b|
    ensures Positions(items, k) == Positions(items, k0) + visited && LargestIno(items, k, first, ino)
  {
    hide Flat, Start, Encode, IsItem, Length, LargestIno;
    ghost var pieces := ItemPieces(items);
    visited, ino, k := [], ino0, k0;
    var p := 0;
    while p < |b|
      invariant k0 <= k <= |items| && 0 <= p <= |b| && Start(pieces, k) == base + p
      invariant Positions(items, k) == Positions(items, k0) + visited && LargestIno(items, k, first, ino)
      decreases |b| - p
    {
      ItemAhead(b, base, p, items, e, k);
      var node;
      var at, before := p, ino;
      p, node, ino := Visit(b, at, before, items[k]);
      LargestNext(items, k, first, before, ino);
      if node { visited := visited + [base + at]; }
      k := k + 1;
    }
  }

  /** parse_image: block after block, all nodes of the image are met in order, and ino ends up no smaller than any
      of theirs. */
  method ParseImage(image: seq<byte>, e: nat, ino0: nat, ghost items: seq<Item>) returns (visited: seq<nat>, ino: nat)
    requires 0 < e && AllItems(items) && AllInBlock(items, e) && image == Flat(ItemPieces(items))
    ensures visited == Positions(items, |items|) && LargestIno(items, |items|, ino0, ino)
  {
    hide Flat, Start, Encode, IsItem, AllInBlock;
    ghost var pieces, k := ItemPieces(items), 0;
    StartEnds(pieces);
    visited, ino := [], ino0;
    var base := 0;
    while base < |image|
      invariant 0 <= base <= |image| && k <= |items| && base == Start(pieces, k)
      invariant base < |image| ==> base % e == 0
      invariant visited == Positions(items, k) && LargestIno(items, k, ino0, ino)
      decreases |image| - base
    {
      var n := if |image| - base < e then |image| - base else e;
      ModStep(base, n, e);
      var more;
      more, ino, k := ProcessBuffer(image[base..base + n], ino, base, items, e, k, ino0);
      visited := visited + more;
      base := base + n;
    }
    AllMet(items, k);
  }

  /** Every item takes room: at the end of the image all items have been met. */
  lemma AllMet(items: seq<Item>, k: nat)
    requires AllItems(items) && k <= |items| && Start(ItemPieces(items), k) == |Flat(ItemPieces(items))|
    ensures k == |items|
  {
    hide Flat, Start, IsItem;
    if k < |items| { PieceAt(ItemPieces(items), k); }
  }
}
