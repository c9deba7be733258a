/** find_hardlink of mkfs.jffs2: the red-black tree of files that have been seen before.

    Larger keys go to the left, so the tree holds its keys in descending order. */
module Hardlinks {
  import opened RbShape
  import opened RbMemory
  import opened RbRotate
  import opened RbInsert
  import opened Sequences

  /** The device and inode number of a file on the host. */
  datatype Key = Key(dev: nat, ino: nat)

  predicate Less(a: Key, b: Key) {
    a.dev < b.dev || (a.dev == b.dev && a.ino < b.ino)
  }

  type Keys = map<RbNode, Key>

  ghost predicate Known(s: seq<RbNode>, key: Keys) {
    forall i :: 0 <= i < |s| ==> s[i] in key
  }

  ghost predicate Descending(s: seq<RbNode>, key: Keys) {
    Known(s, key) && forall i, j :: 0 <= i < j < |s| ==> Less(key[s[j]], key[s[i]])
  }

  ghost predicate AllAbove(s: seq<RbNode>, key: Keys, k: Key) {
    Known(s, key) && forall i :: 0 <= i < |s| ==> Less(k, key[s[i]])
  }

  ghost predicate AllBelow(s: seq<RbNode>, key: Keys, k: Key) {
    Known(s, key) && forall i :: 0 <= i < |s| ==> Less(key[s[i]], k)
  }

  // ----- Linking a node in

  ghost function LinkWrites(m: Mem, c: Ctx<RbNode>, e: RbNode): Mem
    requires !c.Top? ==> c.n in m
  {
    Rehung(m[e := Cell(null, null, ParentOf(c), true)], c, e)
  }

  lemma LinkHolds(m: Mem, root: RbNode?, root': RbNode?, c: Ctx<RbNode>, e: RbNode, m': Mem)
    requires Holds(m, root, c, Leaf) && e !in CtxElems(c) && (!c.Top? ==> c.n in m)
    requires root' == if c.Top? then e else root
    requires m' == LinkWrites(m, c, e)
    ensures Holds(m', root', c, Node(Leaf, e, true, Leaf))
  {
    assert CtxShape(m, c, null, root) && CtxSeparate(c);
    assert !c.Top? ==> c.n in CtxElems(c);
    assert m'[e] == Cell(null, null, ParentOf(c), true);
    hide CtxShape, CtxSeparate, CtxElems;
    ReholeCtx(m, m', c, null, e, root, root');
    PackNode(m', ParentOf(c), Leaf, e, true, Leaf);
  }

  lemma LinkBalanced<T>(c: Ctx<T>, e: T) returns (h: nat)
    requires IsRedBlack(Plug(c, Leaf))
    ensures RedFocus(c, Node(Leaf, e, true, Leaf), h)
  {
    h := UnplugBalanced(c, Leaf);
  }

  /** rb_link_node: e becomes a red leaf below parent, or the root. */
  method RbLinkNode(e: RbNode, parent: RbNode?, left: bool, root: RbRoot, ghost s: set<RbNode>, ghost c: Ctx<RbNode>)
    requires Holds(Snap(s), root.node, c, Leaf) && parent == ParentOf(c) && (left <==> c.InLeft?)
    requires e in s && e !in CtxElems(c)
    modifies s, root
    ensures Holds(Snap(s), root.node, c, Node(Leaf, e, true, Leaf))
  {
    ghost var m, root0 := Snap(s), root.node;
    assert !c.Top? ==> c.n in m && c.n in CtxElems(c);
    hide Holds, CtxElems;
    e.parent, e.red := parent, true;
    e.left, e.right := null, null;
    assert Snap(s) == m[e := Cell(null, null, parent, true)];
    if parent == null {
      root.node := e;
    } else if left {
      SetLeft(parent, e, s);
    } else {
      SetRight(parent, e, s);
    }
    LinkHolds(m, root0, root.node, c, e, Snap(s));
  }

  // ----- The search

  /** Where the key k can only be: in the subtree t at the focus c. */
  ghost predicate Narrowed(c: Ctx<RbNode>, key: Keys, k: Key) {
    AllAbove(Before(c), key, k) && AllBelow(After(c), key, k)
  }

  lemma GoLeft(c: Ctx<RbNode>, t: Tree<RbNode>, key: Keys, k: Key)
    requires Narrowed(c, key, k) && t.Node? && Descending(InOrder(Plug(c, t)), key)
    requires t.n in key && Less(key[t.n], k)
    ensures Narrowed(InLeft(c, t.n, t.red, t.r), key, k)
  {
    var a, n, b := Before(c) + InOrder(t.l), t.n, InOrder(t.r);
    FocusSplits(c, t);
    DescendingAfter(a, n, b, After(c), key);
    forall i | 0 <= i < |b| ensures Less(key[b[i]], k) { LessTransitive(key[b[i]], key[n], k); }
  }

  lemma GoRight(c: Ctx<RbNode>, t: Tree<RbNode>, key: Keys, k: Key)
    requires Narrowed(c, key, k) && t.Node? && Descending(InOrder(Plug(c, t)), key)
    requires t.n in key && Less(k, key[t.n])
    ensures Narrowed(InRight(t.l, t.n, t.red, c), key, k)
  {
    var a, n, b := InOrder(t.l), t.n, InOrder(t.r) + After(c);
    FocusSplits(c, t);
    DescendingBefore(Before(c), a, n, b, key);
    forall i | 0 <= i < |a| ensures Less(k, key[a[i]]) { LessTransitive(k, key[n], key[a[i]]); }
  }

  lemma FocusSplits<T>(c: Ctx<T>, t: Tree<T>)
    requires t.Node?
    ensures InOrder(Plug(c, t)) == Before(c) + InOrder(t.l) + [t.n] + (InOrder(t.r) + After(c))
  {
    PlugInOrder(c, t);
    Regroup(Before(c), InOrder(t.l), [t.n], InOrder(t.r), After(c));
  }

  lemma LessTransitive(a: Key, b: Key, c: Key)
    requires Less(a, b) && Less(b, c)
    ensures Less(a, c)
  {
  }

  lemma DescendingAfter(a: seq<RbNode>, n: RbNode, b: seq<RbNode>, d: seq<RbNode>, key: Keys)
    requires Descending(a + [n] + (b + d), key)
    ensures n in key && AllBelow(b, key, key[n])
  {
    var s := a + [n] + (b + d);
    assert s[|a|] == n;
    forall i | 0 <= i < |b| ensures b[i] in key && Less(key[b[i]], key[n]) {
      assert s[|a| + 1 + i] == b[i];
    }
  }

  lemma DescendingBefore(d: seq<RbNode>, a: seq<RbNode>, n: RbNode, b: seq<RbNode>, key: Keys)
    requires Descending(d + a + [n] + b, key)
    ensures n in key && AllAbove(a, key, key[n])
  {
    var s := d + a + [n] + b;
    assert s[|d| + |a|] == n;
    forall i | 0 <= i < |a| ensures a[i] in key && Less(key[n], key[a[i]]) {
      assert s[|d| + i] == a[i];
    }
  }

  /** The order with e put where the search ended. */
  lemma InsertedDescending(a: seq<RbNode>, b: seq<RbNode>, e: RbNode, key: Keys)
    requires e in key && Descending(a + b, key) && AllAbove(a, key, key[e]) && AllBelow(b, key, key[e])
    ensures Descending(a + [e] + b, key)
  {
    var s, o := a + [e] + b, a + b;
    assert forall i :: 0 <= i < |a| ==> s[i] == a[i] == o[i];
    assert forall i :: |a| < i < |s| ==> s[i] == b[i - |a| - 1] == o[i - 1];
  }

  // ----- The tree of hard links

  lemma HoldsInLarger(m: Mem, m': Mem, root: RbNode?, c: Ctx<RbNode>, t: Tree<RbNode>)
    requires Holds(m, root, c, t) && SameOn(m, m', m.Keys)
    ensures Holds(m', root, c, t)
  {
    ShapeFrame(m, m', t, ParentOf(c));
    CtxFrame(m, m', c, RootOf(t), root);
  }

  ghost predicate Absent(s: seq<RbNode>, key: Keys, k: Key) {
    Known(s, key) && forall i :: 0 <= i < |s| ==> key[s[i]] != k
  }

  lemma NarrowedToNothing(c: Ctx<RbNode>, key: Keys, k: Key)
    requires Narrowed(c, key, k)
    ensures Absent(InOrder(Plug(c, Leaf)), key, k)
  {
    PlugInOrder(c, Leaf);
    var s := InOrder(Plug(c, Leaf));
    assert s == Before(c) + After(c);
  }

  lemma SameKeys(s: seq<RbNode>, key: Keys, e: RbNode, k: Key)
    requires Descending(s, key) && e !in s
    ensures Descending(s, key[e := k])
  {
    forall i | 0 <= i < |s| ensures key[e := k][s[i]] == key[s[i]] { assert s[i] in s; }
  }

  ghost predicate Inserted<T>(s: seq<T>, e: T, t: seq<T>) {
    exists i :: 0 <= i <= |s| && t == s[..i] + [e] + s[i..]
  }

  class HardlinkTree {
    const root: RbRoot
    var key: map<RbNode, Key>
    var number: map<RbNode, nat>
    ghost var tree: Tree<RbNode>
    ghost var nodes: set<RbNode>

    ghost predicate Valid()
      reads this, root, nodes
    {
      && Holds(Snap(nodes), root.node, Top, tree)
      && IsRedBlack(tree)
      && Descending(InOrder(tree), key)
      && forall n :: n in InOrder(tree) ==> n in number
    }

    constructor ()
      ensures Valid() && fresh(root) && nodes == {} && InOrder(tree) == []
    {
      root := new RbRoot();
      key, number, tree, nodes := map[], map[], Leaf, {};
      new;
      assert Balanced(tree, 0);
    }

    /** Walk down from the root: the node with key k, or the place where it would be. */
    method Search(k: Key)
      returns (found: RbNode?, parent: RbNode?, left: bool, ghost c: Ctx<RbNode>)
      requires Valid()
      ensures found != null ==> found in InOrder(tree) && found in key && key[found] == k && found in number
      ensures found == null ==> Plug(c, Leaf) == tree && Narrowed(c, key, k)
      ensures found == null ==> parent == ParentOf(c) && (left <==> c.InLeft?)
    {
      ghost var m := Snap(nodes);
      var n := root.node;
      parent, left, c := null, false, Top;
      ghost var t := tree;
      while n != null
        invariant Holds(m, root.node, c, t) && n == RootOf(t) && Plug(c, t) == tree
        invariant Narrowed(c, key, k) && parent == ParentOf(c) && (left <==> c.InLeft?)
        decreases t
      {
        ReadChildren(m, root.node, c, t);
        FocusInOrder(c, t, key);
        hide Holds, InOrder, Descending, Narrowed, IsRedBlack;
        parent := n;
        if Less(key[n], k) {
          GoLeft(c, t, key, k);
          c, t, left := InLeft(c, t.n, t.red, t.r), t.l, true;
          n := n.left;
        } else if Less(k, key[n]) {
          GoRight(c, t, key, k);
          c, t, left := InRight(t.l, t.n, t.red, c), t.r, false;
          n := n.right;
        } else {
          return n, parent, left, c;
        }
      }
      found := null;
    }

    /** Link e in where the search for its key ended. */
    method Insert(e: RbNode, k: Key, parent: RbNode?, left: bool, ghost c: Ctx<RbNode>)
      requires Valid() && e !in nodes
      requires Plug(c, Leaf) == tree && Narrowed(c, key, k) && parent == ParentOf(c) && (left <==> c.InLeft?)
      modifies this, root, nodes, e
      ensures Valid() && nodes == old(nodes) + {e}
      ensures Inserted(old(InOrder(tree)), e, InOrder(tree))
      ensures key == old(key)[e := k] && number == old(number)[e := 0]
    {
      hide Holds, InOrder, Descending, Narrowed, IsRedBlack, Inserted, Snap, Plug, ParentOf;
      ghost var order := InOrder(tree);
      NotInOrder(Snap(nodes), root.node, tree, e);
      InsertedOrder(c, e, key, k);
      ghost var t := LinkAndColor(e, parent, left, root, nodes, c);
      InsertedKnown(order, e, InOrder(t), number[e := 0]);
      Enter(e, k, t);
    }

    /** The entry is known by its key, and has no number yet. */
    method Enter(e: RbNode, k: Key, ghost t: Tree<RbNode>)
      requires Holds(Snap(nodes + {e}), root.node, Top, t) && IsRedBlack(t) && Descending(InOrder(t), key[e := k])
      requires forall n :: n in InOrder(t) ==> n in number[e := 0]
      modifies this
      ensures Valid() && nodes == old(nodes) + {e} && tree == t && key == old(key)[e := k]
      ensures number == old(number)[e := 0]
    {
      hide Holds, InOrder, Descending, IsRedBlack;
      key, number, nodes, tree := key[e := k], number[e := 0], nodes + {e}, t;
    }

    /** The image inode number of the file with key k if it was seen before; otherwise 0, and e is remembered. */
    method FindHardlink(e: RbNode, k: Key) returns (r: nat)
      requires Valid() && e !in nodes
      modifies this, root, nodes, e
      ensures Valid()
      ensures old(Absent(InOrder(tree), key, k)) ==>
        && r == 0 && Inserted(old(InOrder(tree)), e, InOrder(tree)) && nodes == old(nodes) + {e}
        && key == old(key)[e := k] && number == old(number)[e := 0]
      ensures old(!Absent(InOrder(tree), key, k)) ==>
        SomeNode(InOrder(tree), key, number, k, r)
      ensures old(!Absent(InOrder(tree), key, k)) ==>
        tree == old(tree) && key == old(key) && number == old(number) && nodes == old(nodes)
    {
      var found, parent, left, c := Search(k);
      if found != null {
        return number[found];
      }
      NarrowedToNothing(c, key, k);
      Insert(e, k, parent, left, c);
      r := 0;
    }

    /** Every file seen has a number of its own, up to ino, but for those too large to be written, which have none. */
    ghost predicate Numbered(ino: nat, skipped: set<Key>)
      reads `tree, `key, `number
    {
      OwnNumbers(InOrder(tree), key, number, ino, skipped)
    }

    /** The file with key k has number r. */
    ghost predicate Assigned(k: Key, r: nat)
      reads `tree, `key, `number
    {
      SomeNode(InOrder(tree), key, number, k, r)
    }

    /** One turn of the walk over the files: a file seen before, under another name, keeps its number; any other
        gets the next, unless it is skipped as too large. */
    method NumberFile(e: RbNode, k: Key, ino: nat, skipped: set<Key>) returns (r: nat, next: nat)
      requires Valid() && e !in nodes && Numbered(ino, skipped)
      modifies this, root, nodes, e
      ensures Valid() && Numbered(next, skipped) && Assigned(k, r) && nodes <= old(nodes) + {e}
      ensures forall k', r' :: old(Assigned(k', r')) ==> Assigned(k', r')
      ensures forall k', r' :: Assigned(k', r') ==> old(Assigned(k', r')) || (k' == k && r' == r)
      ensures if old(Absent(InOrder(tree), key, k)) && k !in skipped then r == next == ino + 1 else next == ino
      ensures old(Absent(InOrder(tree), key, k)) && k in skipped ==> r == 0
      ensures !old(Absent(InOrder(tree), key, k)) ==> old(Assigned(k, r))
    {
      hide Holds, InOrder, Descending, IsRedBlack, Absent, Snap, Inserted, OwnNumbers, SomeNode;
      ghost var order, key0, number0 := InOrder(tree), key, number;
      NotInOrder(Snap(nodes), root.node, tree, e);
      r := FindHardlink(e, k);
      next := ino;
      if r == 0 && k !in skipped {
        next := ino + 1;
        r := next;
      }
      if old(Absent(InOrder(tree), key, k)) {
        NewNumber(order, e, InOrder(tree), key0, number0, k, ino, r, next, skipped);
      } else {
        HasNumber(order, key0, number0, k, r, ino, next, skipped);
      }
      if next > ino {
        SetNumber(e, next);
        assert number == number0[e := next];
      }
    }

    method SetNumber(e: RbNode, r: nat)
      requires Valid()
      modifies `number
      ensures Valid() && number == old(number)[e := r]
    {
      hide Holds, InOrder, Descending, IsRedBlack, Snap;
      number := number[e := r];
    }

    /** The first i files have their numbers. */
    ghost predicate Walked(es: seq<RbNode>, ks: seq<Key>, skipped: set<Key>, rs: seq<nat>, ino0: nat, ino: nat, i: nat)
      requires |ks| == |es|
      reads this, root, nodes
    {
      && i == |rs| <= |es| && Valid() && Numbered(ino, skipped) && (forall n :: n in nodes ==> n in es[..i])
      && (forall j :: 0 <= j < i ==> Assigned(ks[j], rs[j]))
      && (forall k, r :: Assigned(k, r) ==> r in rs) && ino0 <= ino && InTurn(rs, ino0, ino)
    }

    method NumberNext(es: seq<RbNode>, ks: seq<Key>, skipped: set<Key>, ghost rs: seq<nat>, ghost ino0: nat, ino: nat,
                      i: nat)
      returns (r: nat, next: nat)
      requires |ks| == |es| && Distinct(es) && i < |es| && Walked(es, ks, skipped, rs, ino0, ino, i)
      modifies this, root, nodes, es[i]
      ensures Walked(es, ks, skipped, rs + [r], ino0, next, i + 1) && nodes <= old(nodes) + {es[i]}
    {
      hide InOrder, Descending, Holds, IsRedBlack, Snap, Numbered, Assigned, InTurn;
      assert es[i] !in es[..i];
      r, next := NumberFile(es[i], ks[i], ino, skipped);
      NextInTurn(rs, ino0, ino, r, next);
    }

    lemma WalkEnds(es: seq<RbNode>, ks: seq<Key>, skipped: set<Key>, rs: seq<nat>, ino0: nat, ino: nat, a: nat, b: nat)
      requires |ks| == |es| && Walked(es, ks, skipped, rs, ino0, ino, |es|) && a < |es| && b < |es|
      ensures |rs| == |es| && (rs[a] == 0 <==> ks[a] in skipped)
      ensures rs[a] != 0 ==> (rs[a] == rs[b] <==> ks[a] == ks[b])
    {
      hide InOrder, Descending, Holds, IsRedBlack, Snap, SomeNode, OwnNumbers, InTurn;
      SameFile(InOrder(tree), key, number, ino, skipped, ks[a], rs[a], ks[b], rs[b]);
    }

    /** The walk over all files: two names get the same inode number if and only if they are names of the same file, and
        none if and only if that file is skipped as too large. The numbers are those after ino0, in order. */
    method NumberFiles(es: seq<RbNode>, ks: seq<Key>, skipped: set<Key>, ino0: nat) returns (rs: seq<nat>, ino: nat)
      requires Valid() && InOrder(tree) == [] && |ks| == |es| && nodes == {} && Distinct(es)
      modifies this, root, es
      ensures Valid() && |rs| == |es|
      ensures forall i :: 0 <= i < |es| ==> (rs[i] == 0 <==> ks[i] in skipped)
      ensures forall i, j :: 0 <= i < |es| && 0 <= j < |es| && rs[i] != 0 ==> (rs[i] == rs[j] <==> ks[i] == ks[j])
      ensures InTurn(rs, ino0, ino)
    {
      hide Walked, InOrder, Descending, Holds, IsRedBlack, Snap, InTurn;
      rs, ino := [], ino0;
      var i := 0;
      WalkBegins(es, ks, skipped, ino0);
      while i < |es|
        invariant 0 <= i <= |es| && Walked(es, ks, skipped, rs, ino0, ino, i) && forall n :: n in nodes ==> n in es
      {
        var r;
        r, ino := NumberNext(es, ks, skipped, rs, ino0, ino, i);
        rs := rs + [r];
        i := i + 1;
      }
      WalkValid(es, ks, skipped, rs, ino0, ino);
      forall a, b | 0 <= a < |es| && 0 <= b < |es|
        ensures (rs[a] == 0 <==> ks[a] in skipped) && (rs[a] != 0 ==> (rs[a] == rs[b] <==> ks[a] == ks[b]))
      {
        WalkEnds(es, ks, skipped, rs, ino0, ino, a, b);
      }
    }

    lemma WalkBegins(es: seq<RbNode>, ks: seq<Key>, skipped: set<Key>, ino0: nat)
      requires Valid() && InOrder(tree) == [] && |ks| == |es| && nodes == {}
      ensures Walked(es, ks, skipped, [], ino0, ino0, 0)
    {
      hide Holds, Descending, IsRedBlack, Snap;
    }

    lemma WalkValid(es: seq<RbNode>, ks: seq<Key>, skipped: set<Key>, rs: seq<nat>, ino0: nat, ino: nat)
      requires |ks| == |es| && Walked(es, ks, skipped, rs, ino0, ino, |es|)
      ensures Valid() && |rs| == |es| && InTurn(rs, ino0, ino)
    {
      hide InOrder, Descending, Holds, IsRedBlack, Snap, SomeNode, OwnNumbers, InTurn;
    }
  }

  /** Each of these is 0, or one of those before it, or the next number after ino0 that was not given before; ino is the
      last one given. */
  ghost predicate InTurn(rs: seq<nat>, ino0: nat, ino: nat) {
    if rs == [] then ino == ino0
    else
      var front, r := rs[..|rs| - 1], rs[|rs| - 1];
      || (r == ino > ino0 && InTurn(front, ino0, ino - 1))
      || ((r == 0 || r in front) && InTurn(front, ino0, ino))
  }

  lemma NextInTurn(rs: seq<nat>, ino0: nat, last: nat, r: nat, ino: nat)
    requires InTurn(rs, ino0, last) && ino0 <= last
    requires r == ino == last + 1 || (ino == last && (r == 0 || r in rs))
    ensures InTurn(rs + [r], ino0, ino)
  {
    assert (rs + [r])[..|rs|] == rs;
  }

  lemma SameFile(s: seq<RbNode>, key: Keys, number: map<RbNode, nat>, ino: nat, skipped: set<Key>, k: Key, r: nat,
                 l: Key, q: nat)
    requires Descending(s, key) && OwnNumbers(s, key, number, ino, skipped)
    requires SomeNode(s, key, number, k, r) && SomeNode(s, key, number, l, q)
    ensures (r == 0 <==> k in skipped) && (r != 0 ==> (r == q <==> k == l))
  {
    var n :| n in s && n in key && key[n] == k && n in number && number[n] == r;
    var m :| m in s && m in key && key[m] == l && m in number && number[m] == q;
    var i :| 0 <= i < |s| && s[i] == n;
    var j :| 0 <= j < |s| && s[j] == m;
    if k == l { assert !(i < j) && !(j < i); }
  }

  ghost predicate SomeNode(s: seq<RbNode>, key: Keys, number: map<RbNode, nat>, k: Key, r: nat) {
    exists n :: n in s && n in key && key[n] == k && n in number && number[n] == r
  }

  /** The number a file has: none if it is skipped, else one up to ino. */
  predicate RightNumber(k: Key, r: nat, ino: nat, skipped: set<Key>) {
    r <= ino && (r == 0 <==> k in skipped)
  }

  ghost predicate OwnNumbers(s: seq<RbNode>, key: Keys, number: map<RbNode, nat>, ino: nat, skipped: set<Key>) {
    && (forall n :: n in s ==> n in number && n in key && RightNumber(key[n], number[n], ino, skipped))
    && (forall n, m :: n in s && m in s && n in number && m in number && number[n] == number[m] != 0 ==> n == m)
  }

  /** The number a file gets, from the one that was found. */
  predicate Numbers(k: Key, found: nat, r: nat, ino: nat, next: nat, skipped: set<Key>) {
    if found == 0 && k !in skipped then r == next == ino + 1 else r == found && next == ino
  }

  /** A file seen before has its number, so that no other is given to it. */
  lemma HasNumber(s: seq<RbNode>, key: Keys, number: map<RbNode, nat>, k: Key, r: nat, ino: nat, next: nat,
                  skipped: set<Key>)
    requires exists q :: SomeNode(s, key, number, k, q) && Numbers(k, q, r, ino, next, skipped)
    requires OwnNumbers(s, key, number, ino, skipped)
    ensures next == ino && SomeNode(s, key, number, k, r)
  {
  }

  lemma NewNumber(s: seq<RbNode>, e: RbNode, t: seq<RbNode>, key: Keys, number: map<RbNode, nat>, k: Key, ino: nat,
                  r: nat, next: nat, skipped: set<Key>)
    requires Inserted(s, e, t) && e !in s && OwnNumbers(s, key, number, ino, skipped)
    requires if k in skipped then r == 0 && next == ino else r == next == ino + 1
    ensures OwnNumbers(t, key[e := k], number[e := r], next, skipped) && SomeNode(t, key[e := k], number[e := r], k, r)
    ensures forall k', r' :: SomeNode(s, key, number, k', r') ==> SomeNode(t, key[e := k], number[e := r], k', r')
    ensures forall k', r' :: SomeNode(t, key[e := k], number[e := r], k', r') ==>
      SomeNode(s, key, number, k', r') || (k' == k && r' == r)
  {
    assert forall n :: n in t <==> n in s || n == e by { InsertedHas(s, e, t); }
    hide Inserted;
    assert e in t;
    forall k', r' | SomeNode(s, key, number, k', r') ensures SomeNode(t, key[e := k], number[e := r], k', r') {
      var n :| n in s && n in key && key[n] == k' && n in number && number[n] == r';
      assert n in t && n != e;
    }
  }

  lemma InsertedHas<T>(s: seq<T>, e: T, t: seq<T>)
    requires Inserted(s, e, t)
    ensures forall n :: n in t <==> n in s || n == e
  {
    var i :| 0 <= i <= |s| && t == s[..i] + [e] + s[i..];
    assert s == s[..i] + s[i..];
  }

  /** rb_link_node and rb_insert_color on a node that is not in the tree. */
  method LinkAndColor(e: RbNode, parent: RbNode?, left: bool, root: RbRoot, ghost nodes: set<RbNode>,
                      ghost c: Ctx<RbNode>)
    returns (ghost t: Tree<RbNode>)
    requires Holds(Snap(nodes), root.node, Top, Plug(c, Leaf)) && IsRedBlack(Plug(c, Leaf)) && e !in nodes
    requires parent == ParentOf(c) && (left <==> c.InLeft?)
    modifies nodes, e, root
    ensures Holds(Snap(nodes + {e}), root.node, Top, t) && IsRedBlack(t)
    ensures InOrder(t) == InOrder(Plug(c, Node(Leaf, e, true, Leaf)))
  {
    ghost var s := nodes + {e};
    ghost var h := ReadyToInsert(Snap(nodes), Snap(s), root.node, c, e);
    hide Holds, InOrder, Plug, IsRedBlack, CtxElems, RedFocus;
    RbLinkNode(e, parent, left, root, s, c);
    t := RbInsertColor(e, root, s, c, Node(Leaf, e, true, Leaf), h);
  }

  lemma NotInOrder(m: Mem, root: RbNode?, t: Tree<RbNode>, e: RbNode)
    requires Holds(m, root, Top, t) && e !in m
    ensures e !in InOrder(t)
  {
    ElemsInMemory(m, t, null);
    OrderElem(t, e);
  }

  /** What linking e at the focus needs of memory and colours. */
  lemma ReadyToInsert(m: Mem, m': Mem, root: RbNode?, c: Ctx<RbNode>, e: RbNode) returns (h: nat)
    requires Holds(m, root, Top, Plug(c, Leaf)) && IsRedBlack(Plug(c, Leaf))
    requires e !in m && SameOn(m, m', m.Keys)
    ensures Holds(m', root, c, Leaf) && e !in CtxElems(c)
    ensures RedFocus(c, Node(Leaf, e, true, Leaf), h)
  {
    HoldsPlug(m, root, c, Leaf);
    HoldsInLarger(m, m', root, c, Leaf);
    CtxElemsInMemory(m, c, null, root);
    h := LinkBalanced(c, e);
  }

  lemma {:induction false} OrderElem<T>(t: Tree<T>, n: T)
    ensures n in InOrder(t) <==> n in Elems(t)
  {
    if t.Node? { OrderElem(t.l, n); OrderElem(t.r, n); }
  }

  lemma InsertedOrder(c: Ctx<RbNode>, e: RbNode, key: Keys, k: Key)
    requires Narrowed(c, key, k) && Descending(InOrder(Plug(c, Leaf)), key) && e !in InOrder(Plug(c, Leaf))
    ensures
      var order := InOrder(Plug(c, Node(Leaf, e, true, Leaf)));
      Inserted(InOrder(Plug(c, Leaf)), e, order) && Descending(order, key[e := k])
  {
    var a, b := Before(c), After(c);
    var s := InOrder(Plug(c, Leaf));
    PlugInOrder(c, Leaf);
    PlugInOrder(c, Node(Leaf, e, true, Leaf));
    assert s == a + b && s[..|a|] == a && s[|a|..] == b;
    SameKeys(s, key, e, k);
    assert AllAbove(a, key[e := k], k) && AllBelow(b, key[e := k], k) by {
      assert forall n :: n in a || n in b ==> n in s;
    }
    InsertedDescending(a, b, e, key[e := k]);
    assert InOrder(Node(Leaf, e, true, Leaf)) == [e];
  }

  lemma InsertedKnown(s: seq<RbNode>, e: RbNode, t: seq<RbNode>, number: map<RbNode, nat>)
    requires Inserted(s, e, t) && e in number && forall n :: n in s ==> n in number
    ensures forall n :: n in t ==> n in number
  {
  }

  lemma ReadChildren(m: Mem, root: RbNode?, c: Ctx<RbNode>, t: Tree<RbNode>)
    requires Holds(m, root, c, t) && t.Node?
    ensures t.n in m && m[t.n].left == RootOf(t.l) && m[t.n].right == RootOf(t.r)
    ensures Holds(m, root, InLeft(c, t.n, t.red, t.r), t.l)
    ensures Holds(m, root, InRight(t.l, t.n, t.red, c), t.r)
  {
    HoldsUp(m, root, InLeft(c, t.n, t.red, t.r), t.l);
    HoldsUp(m, root, InRight(t.l, t.n, t.red, c), t.r);
  }

  lemma FocusInOrder(c: Ctx<RbNode>, t: Tree<RbNode>, key: Keys)
    requires t.Node? && Known(InOrder(Plug(c, t)), key)
    ensures t.n in InOrder(Plug(c, t)) && t.n in key
  {
    FocusSplits(c, t);
    var s, i := InOrder(Plug(c, t)), |Before(c) + InOrder(t.l)|;
    assert s[i] == t.n;
  }
}
