/** mkfs.jffs2 writing its image: every node aligned, inside one eraseblock, behind that block's cleanmarker. */
module JffsWriter {
  import opened Arithmetic
  import opened Bytes
  import opened FlashFormat
  import opened JffsImage
  import opened Pieces

  /** With cleanmarkers, whatever starts an eraseblock is one. */
  ghost predicate Marked(items: seq<Item>, e: nat, marker: Item)
    requires 0 < e && AllItems(items)
  {
    forall k :: 0 <= k < |items| && Start(ItemPieces(items), k) % e == 0 ==> items[k] == marker
  }

  /** The image is these items, laid out as the flash needs them. */
  ghost predicate Laid(out: seq<byte>, items: seq<Item>, e: nat, marking: bool, marker: Item) {
    && 0 < e && e % 4 == 0 && IsItem(marker) && marker.Node? && Length(marker) <= e
    && AllItems(items) && out == Flat(ItemPieces(items)) && AllInBlock(items, e)
    && (marking ==> Marked(items, e, marker))
  }

  lemma ItemSnoc(items: seq<Item>, i: Item)
    requires AllItems(items) && IsItem(i)
    ensures AllItems(items + [i]) && Flat(ItemPieces(items + [i])) == Flat(ItemPieces(items)) + Encode(i)
    ensures forall k :: 0 <= k <= |items| ==> Start(ItemPieces(items + [i]), k) == Start(ItemPieces(items), k)
    ensures Start(ItemPieces(items), |items|) == |Flat(ItemPieces(items))|
  {
    hide Flat, IsItem;
    var pieces := ItemPieces(items);
    assert ItemPieces(items + [i]) == pieces + [Encode(i)];
    FlatSnoc(pieces, Encode(i));
    StartEnds(pieces);
    forall k | 0 <= k <= |items| ensures Start(pieces + [Encode(i)], k) == Start(pieces, k) {
      assert (pieces + [Encode(i)])[..k] == pieces[..k];
    }
  }

  /** An item may be added where it fits into the eraseblock, at whose start only the cleanmarker may be. */
  lemma LaidSnoc(out: seq<byte>, items: seq<Item>, e: nat, marking: bool, marker: Item, i: Item)
    requires Laid(out, items, e, marking, marker) && IsItem(i) && InBlock(|out|, Length(i), e)
    requires marking && |out| % e == 0 ==> i == marker
    ensures Laid(out + Encode(i), items + [i], e, marking, marker)
  {
    hide Flat, IsItem, Start, Encode, Length;
    ItemSnoc(items, i);
    var more := items + [i];
    forall k | 0 <= k < |more| ensures InBlock(Start(ItemPieces(more), k), Length(more[k]), e) {
      if k < |items| { assert InBlock(Start(ItemPieces(items), k), Length(items[k]), e); }
    }
  }

  lemma {:induction false} LaidEmpties(out: seq<byte>, items: seq<Item>, e: nat, marking: bool, marker: Item, n: nat)
    requires Laid(out, items, e, marking, marker) && InBlock(|out|, 4 * n, e) && |out| % e != 0
    ensures Laid(out + Filled(4 * n), items + seq(n, _ => Empty), e, marking, marker)
  {
    hide Laid, Flat;
    if n == 0 {
      assert out + Filled(0) == out && items + seq(0, _ => Empty) == items;
    } else {
      LaidEmpties(out, items, e, marking, marker, n - 1);
      var o, rest := out + Filled(4 * (n - 1)), items + seq(n - 1, _ => Empty);
      assert 0 < e by { Positive(out, items, e, marking, marker); }
      ModStep(|out|, 4 * (n - 1), e);
      LaidSnoc(o, rest, e, marking, marker, Empty);
      assert o + Encode(Empty) == out + Filled(4 * n);
      assert rest + [Empty] == items + seq(n, _ => Empty);
    }
  }

  lemma Positive(out: seq<byte>, items: seq<Item>, e: nat, marking: bool, marker: Item)
    requires Laid(out, items, e, marking, marker)
    ensures 0 < e && e % 4 == 0 && |out| % 4 == 0 && |out| % e % 4 == 0 && IsItem(marker) && marker.Node?
    ensures Length(marker) <= e
  {
    hide Flat, Encode;
    AlignedSize(items);
    ModMultiple(|out|, e);
  }

  /** The image is whole words. */
  lemma {:induction false} WordCount(items: seq<Item>) returns (q: nat)
    requires AllItems(items)
    ensures |Flat(ItemPieces(items))| == 4 * q
  {
    if items == [] {
      assert Flat(ItemPieces(items)) == [];
      q := 0;
    } else {
      hide Flat, IsItem, Encode, Start;
      var n := |items| - 1;
      var p := WordCount(items[..n]);
      ItemSnoc(items[..n], items[n]);
      assert items == items[..n] + [items[n]];
      FourSum(|Encode(items[n])|, 0);
      q := p + |Encode(items[n])| / 4;
    }
  }

  lemma AlignedSize(items: seq<Item>)
    requires AllItems(items)
    ensures |Flat(ItemPieces(items))| % 4 == 0
  {
    hide Flat, IsItem, Encode;
    var q := WordCount(items);
  }

  /** The nodes among the items, but for cleanmarkers, in order. */
  ghost function NodesOf(items: seq<Item>, marker: Item): seq<Item> {
    if items == [] then [] else
      var i := items[|items| - 1];
      NodesOf(items[..|items| - 1], marker) + if i.Node? && i != marker then [i] else []
  }

  lemma NodesSnoc(items: seq<Item>, marker: Item, i: Item)
    ensures NodesOf(items + [i], marker) == NodesOf(items, marker) + if i.Node? && i != marker then [i] else []
  {
    assert (items + [i])[..|items|] == items;
  }

  lemma {:induction false} NodesEmpties(items: seq<Item>, marker: Item, n: nat)
    ensures NodesOf(items + seq(n, _ => Empty), marker) == NodesOf(items, marker)
  {
    if n == 0 {
      assert items + seq(0, _ => Empty) == items;
    } else {
      var less := items + seq(n - 1, _ => Empty);
      NodesEmpties(items, marker, n - 1);
      NodesSnoc(less, marker, Empty);
      assert less + [Empty] == items + seq(n, _ => Empty);
    }
  }

  /** What fits up to the end of a block still does when rounded up to whole words. */
  lemma RoundedFits(r: nat, n: nat, e: nat)
    requires r % 4 == 0 && e % 4 == 0 && r + n <= e
    ensures r + Padded(n) <= e
  {
    var g := Gap(n);
    FourSum(r, n + g);
    FourSum(e, r + (n + g));
  }

  lemma WholeNode(b: seq<byte>)
    requires IsItem(Node(b, |b|))
    ensures Encode(Node(b, |b|)) == b + Filled(Gap(|b|))
  {
  }

  function Blank(n: nat): (s: seq<Item>)
    ensures forall k :: 0 <= k < |s| ==> s[k] == Empty
  {
    seq(n / 4, _ => Empty)
  }

  /** How far it is from this place to the end of its eraseblock, unless that begins here. */
  function Rest(at: nat, e: nat): nat
    requires 0 < e
  {
    if at % e == 0 then 0 else e - at % e
  }

  /** The empty words from this place to the end of its eraseblock. */
  function Empties(at: nat, e: nat): seq<Item>
    requires 0 < e
  {
    Blank(Rest(at, e))
  }

  lemma BlankJoin(n: nat, m: nat)
    requires n % 4 == 0 && m % 4 == 0
    ensures Blank(n) + Blank(m) == Blank(n + m)
  {
  }

  /** One chunk of them: what is left to the end of the eraseblock afterwards. */
  lemma OneChunk(at: nat, n: nat, e: nat)
    requires 0 < e && e % 4 == 0 && at % e % 4 == 0 && n % 4 == 0 && at % e != 0 && at % e + n <= e
    ensures Rest(at, e) == n + Rest(at + n, e) && Blank(n) + Empties(at + n, e) == Empties(at, e)
  {
    hide Blank;
    ModStep(at, n, e);
    FourSum(e, at % e);
    FourSum(e - at % e, n);
    BlankJoin(n, Rest(at + n, e));
  }

  /** And what it does to the image. */
  lemma LaidChunk(out: seq<byte>, items: seq<Item>, e: nat, marking: bool, marker: Item, n: nat)
    requires Laid(out, items, e, marking, marker) && InBlock(|out|, n, e) && |out| % e != 0 && n % 4 == 0
    ensures Laid(out + Filled(n), items + Blank(n), e, marking, marker)
    ensures NodesOf(items + Blank(n), marker) == NodesOf(items, marker)
  {
    hide Laid, NodesOf, Filled;
    LaidEmpties(out, items, e, marking, marker, n / 4);
    NodesEmpties(items, marker, n / 4);
  }

  lemma NoEmpties(at: nat, e: nat)
    requires 0 < e && at % e == 0
    ensures Empties(at, e) == [] && Rest(at, e) == 0
  {
  }

  class JffsWriter {
    const e: nat
    const addCleanmarkers: bool
    const cleanmarker: seq<byte>
    const cleanmarkerSize: nat
    var out: seq<byte>
    var ino: nat
    ghost var items: seq<Item>

    ghost function Marker(): Item {
      Node(cleanmarker, cleanmarkerSize)
    }

    /** The nodes written so far. */
    ghost function Nodes(): seq<Item>
      reads this
    {
      NodesOf(items, Marker())
    }

    ghost predicate Valid()
      reads this
    {
      |cleanmarker| == CLEANMARKER_NODE_SIZE && Laid(out, items, e, addCleanmarkers, Marker())
    }

    constructor (e: nat, addCleanmarkers: bool, cleanmarker: seq<byte>, cleanmarkerSize: nat)
      requires 0 < e && e % 4 == 0 && |cleanmarker| == CLEANMARKER_NODE_SIZE
      requires IsItem(Node(cleanmarker, cleanmarkerSize)) && Padded(cleanmarkerSize) <= e
      ensures Valid() && items == [] && ino == 1 && this.e == e
      ensures this.addCleanmarkers == addCleanmarkers && this.cleanmarkerSize == cleanmarkerSize
    {
      this.e, this.addCleanmarkers := e, addCleanmarkers;
      this.cleanmarker, this.cleanmarkerSize := cleanmarker, cleanmarkerSize;
      out, items, ino := [], [], 1;
    }

    /** pad. */
    method Pad(req0: nat)
      modifies `out
      ensures out == old(out) + Filled(req0)
    {
      var req := req0;
      while req > 0
        invariant 0 <= req <= req0 && out == old(out) + Filled(req0 - req)
      {
        var n := if req > CHUNK then CHUNK else req;
        assert Filled(req0 - req) + Filled(n) == Filled(req0 - (req - n));
        out := out + Filled(n);
        req := req - n;
      }
    }

    /** padword. */
    method Padword()
      modifies `out
      ensures out == old(out) + Filled(Gap(|old(out)|))
    {
      if |out| % 4 != 0 {
        out := out + Filled(4 - |out| % 4);
      } else {
        assert out + Filled(0) == out;
      }
    }

    /** padblock: empty space up to the end of the eraseblock. */
    method PadBlock()
      requires Valid()
      modifies `out, `items
      ensures Valid() && 0 < e && |out| % e == 0 && Nodes() == old(Nodes())
      ensures items == old(items) + Empties(|old(out)|, e)
      ensures |out| == |old(out)| + Rest(|old(out)|, e)
    {
      hide Laid, Filled, NodesOf, Empties, Blank, Rest;
      Positive(out, items, e, addCleanmarkers, Marker());
      while |out| % e != 0
        invariant Valid() && 0 < e && Nodes() == old(Nodes())
        invariant items + Empties(|out|, e) == old(items) + Empties(|old(out)|, e)
        invariant |out| + Rest(|out|, e) == |old(out)| + Rest(|old(out)|, e)
        decreases Rest(|out|, e)
      {
        Positive(out, items, e, addCleanmarkers, Marker());
        var left := e - |out| % e;
        var n := if CHUNK < left then CHUNK else left;
        FourSum(e, |out| % e);
        LaidChunk(out, items, e, addCleanmarkers, Marker(), n);
        OneChunk(|out|, n, e);
        assert items + Blank(n) + Empties(|out| + n, e) == items + Empties(|out|, e);
        out := out + Filled(n);
        items := items + Blank(n);
      }
      NoEmpties(|out|, e);
      assert items + [] == items;
    }

    /** The cleanmarker at the start of an eraseblock. */
    method PutCleanmarker()
      requires Valid() && 0 < e && |out| % e == 0
      modifies `out, `items
      ensures Valid() && Nodes() == old(Nodes()) && |out| == |old(out)| + Padded(cleanmarkerSize)
      ensures items == old(items) + [Marker()]
    {
      hide Laid, NodesOf;
      NodesSnoc(items, Marker(), Marker());
      Positive(out, items, e, addCleanmarkers, Marker());
      LaidSnoc(out, items, e, addCleanmarkers, Marker(), Marker());
      ghost var was := out;
      out := out + cleanmarker;
      Pad(cleanmarkerSize - CLEANMARKER_NODE_SIZE);
      Padword();
      GapShift(|was|, cleanmarkerSize);
      assert out == was + Encode(Marker());
      items := items + [Marker()];
    }

    function MarkLength(): nat {
      if addCleanmarkers then Padded(cleanmarkerSize) else 0
    }

    /** What every eraseblock begins with. */
    ghost function Marks(): seq<Item> {
      if addCleanmarkers then [Marker()] else []
    }

    /** Where a node goes that needs this much room, when the image ends here: into this eraseblock if it fits, else
        into the next one, in either case behind the cleanmarker. */
    function NextPlace(at: nat, req: nat): nat
      requires 0 < e
    {
      if at % e == 0 then at + MarkLength()
      else if at % e + req <= e then at
      else at + (e - at % e) + MarkLength()
    }

    /** What is written before it. */
    ghost function Padding(at: nat, req: nat): seq<Item>
      requires 0 < e
    {
      if at % e == 0 then Marks() else if at % e + req <= e then [] else Empties(at, e) + Marks()
    }

    /** pad_block_if_less_than: afterwards there is room in this eraseblock, behind its cleanmarker. */
    method PadBlockIfLessThan(req: nat)
      requires Valid() && 0 < req && MarkLength() + req <= e
      modifies `out, `items
      ensures Valid() && 0 < e && |out| % e + req <= e && Nodes() == old(Nodes())
      ensures addCleanmarkers ==> |out| % e != 0
      ensures items == old(items) + Padding(|old(out)|, req) && |out| == NextPlace(|old(out)|, req)
    {
      hide Laid, NodesOf, Empties, Blank;
      Positive(out, items, e, addCleanmarkers, Marker());
      if addCleanmarkers && |out| % e == 0 {
        ModStep(|out|, Padded(cleanmarkerSize), e);
        PutCleanmarker();
      }
      if |out| % e + req > e {
        PadBlock();
      }
      if addCleanmarkers && |out| % e == 0 {
        ModStep(|out|, Padded(cleanmarkerSize), e);
        PutCleanmarker();
      }
    }

    /** full_write of a whole node, and padword. */
    method WriteNode(b: seq<byte>)
      requires Valid() && IsItem(Node(b, |b|)) && Node(b, |b|) != Marker()
      requires 0 < e && |out| % e + |b| <= e && (addCleanmarkers ==> |out| % e != 0)
      modifies `out, `items
      ensures Valid() && Nodes() == old(Nodes()) + [Node(b, |b|)]
      ensures items == old(items) + [Node(b, |b|)] && |out| == |old(out)| + Padded(|b|)
    {
      hide Laid, NodesOf, IsItem;
      var i := Node(b, |b|);
      Positive(out, items, e, addCleanmarkers, Marker());
      RoundedFits(|out| % e, |b|, e);
      LaidSnoc(out, items, e, addCleanmarkers, Marker(), i);
      NodesSnoc(items, Marker(), i);
      WholeNode(b);
      ghost var was := out;
      GapShift(|was|, |b|);
      hide Gap, Encode, Filled, Length;
      out := out + b;
      Padword();
      assert out == was + (b + Filled(Gap(|b|)));
      items := items + [i];
    }

    /** Every item starts on a word, stays in its eraseblock, and with cleanmarkers that block begins with one. */
    lemma Placement(k: nat)
      requires Valid() && k < |items|
      ensures 0 < e && AllItems(items)
      ensures
        var at := Start(ItemPieces(items), k);
        && at % 4 == 0 && at % e + Length(items[k]) <= e
        && (addCleanmarkers ==>
              exists m :: 0 <= m <= k && Start(ItemPieces(items), m) == at - at % e && items[m] == Marker())
    {
      hide Flat, Start, Encode, IsItem, Length;
      assert InBlock(Start(ItemPieces(items), k), Length(items[k]), e);
      AlignedStart(items, k);
      var m := BlockBegins(items, e, k);
      var q, at := Start(ItemPieces(items), k) / e, Start(ItemPieces(items), k);
      assert at == q * e + at % e;
      Remainder(at - at % e, q, 0, e);
    }

    /** parse_image over what was written: all nodes and cleanmarkers are met, in order, and no inode number exceeds
        the result. */
    method Rescan(ino0: nat) returns (visited: seq<nat>, largest: nat)
      requires Valid()
      ensures AllItems(items) && visited == Positions(items, |items|) && LargestIno(items, |items|, ino0, largest)
    {
      hide Flat, IsItem, AllInBlock, Marked;
      visited, largest := ParseImage(out, e, ino0, items);
    }
  }

  lemma AlignedStart(items: seq<Item>, k: nat)
    requires AllItems(items) && k <= |items|
    ensures Start(ItemPieces(items), k) % 4 == 0
  {
    hide Flat, Encode, IsItem;
    AlignedSize(items[..k]);
    assert ItemPieces(items)[..k] == ItemPieces(items[..k]);
  }

  /** No item crosses into a new eraseblock: where one begins, an item begins. */
  lemma {:induction false} BlockBegins(items: seq<Item>, e: nat, k: nat) returns (m: nat)
    requires 0 < e && AllItems(items) && AllInBlock(items, e) && k < |items|
    ensures m <= k && Start(ItemPieces(items), m) == Start(ItemPieces(items), k) - Start(ItemPieces(items), k) % e
  {
    hide Flat, Start, Encode, IsItem, Length;
    var pieces := ItemPieces(items);
    if k == 0 {
      StartEnds(pieces);
      Remainder(0, 0, 0, e);
      m := 0;
    } else if Start(pieces, k) % e == 0 {
      m := k;
    } else {
      PieceAt(pieces, k - 1);
      assert InBlock(Start(pieces, k - 1), Length(items[k - 1]), e);
      SameStretch(Start(pieces, k - 1), Length(items[k - 1]), e);
      hide AllInBlock, InBlock;
      m := BlockBegins(items, e, k - 1);
    }
  }
}
