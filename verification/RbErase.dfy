/** rb_erase and rb_replace_node. */
module RbErase {
  import opened RbShape
  import opened RbMemory
  import opened RbRotate
  import opened RbDeficit
  import opened RbEraseColor

  // ----- Taking out a node that has at most one child

  ghost predicate OnlyChild<T>(t: Tree<T>, k: Tree<T>) {
    t.Node? && ((t.l.Leaf? && k == t.r) || (t.r.Leaf? && k == t.l))
  }

  ghost function UnlinkWrites(m: Mem, d: Ctx<RbNode>, k: RbNode?): Mem
    requires (k != null ==> k in m) && (!d.Top? ==> d.n in m)
  {
    Rehung(PutParent(m, k, ParentOf(d)), d, k)
  }

  lemma UnlinkHolds(m: Mem, root: RbNode?, root': RbNode?, d: Ctx<RbNode>, t: Tree<RbNode>, k: Tree<RbNode>, m': Mem)
    requires Holds(m, root, d, t) && OnlyChild(t, k)
    requires root' == if d.Top? then RootOf(k) else root
    requires (k.Node? ==> k.n in m) && (!d.Top? ==> d.n in m)
    requires m' == UnlinkWrites(m, d, RootOf(k))
    ensures Holds(m', root', d, k)
    ensures t.n in m' && m'[t.n] == m[t.n] && t.n !in Elems(k) && t.n !in CtxElems(d)
  {
    assert Shape(m, k, t.n) && Separate(k) && Elems(k) <= Elems(t) && t.n !in Elems(k);
    assert k.Node? ==> k.n in Elems(k);
    assert !d.Top? ==> d.n in CtxElems(d);
    assert CtxShape(m, d, t.n, root) && CtxSeparate(d);
    hide Shape, Separate, CtxShape, CtxSeparate, Elems, CtxElems;
    Reparented(m, m', k, t.n, ParentOf(d));
    ReholeCtx(m, m', d, t.n, RootOf(k), root, root');
  }

  lemma OnlyChildInMemory(m: Mem, root: RbNode?, d: Ctx<RbNode>, t: Tree<RbNode>, k: Tree<RbNode>)
    requires Holds(m, root, d, t) && OnlyChild(t, k)
    ensures (k.Node? ==> k.n in m && k.n != t.n) && (!d.Top? ==> d.n in m && d.n != t.n && d.n != RootOf(k))
  {
    assert Shape(m, k, t.n);
  }

  // ----- Putting another node in the place of one

  ghost function ReplaceWrites(m: Mem, c: Ctx<RbNode>, x: RbNode, y: RbNode, l: RbNode?, r: RbNode?): Mem
    requires x in m && (l != null ==> l in m) && (r != null ==> r in m) && (!c.Top? ==> c.n in m)
  {
    PutParent(PutParent(Rehung(m[y := m[x]], c, y), l, y), r, y)
  }

  lemma ReplaceHolds(m: Mem, root: RbNode?, root': RbNode?, c: Ctx<RbNode>, t: Tree<RbNode>, y: RbNode, m': Mem)
    requires Holds(m, root, c, t) && t.Node? && y !in Elems(t) && y !in CtxElems(c)
    requires root' == if c.Top? then y else root
    requires (t.l.Node? ==> t.l.n in m) && (t.r.Node? ==> t.r.n in m) && (!c.Top? ==> c.n in m)
    requires m' == ReplaceWrites(m, c, t.n, y, RootOf(t.l), RootOf(t.r))
    ensures Holds(m', root', c, t.(n := y))
  {
    var x, l, r := t.n, t.l, t.r;
    assert Shape(m, l, x) && Shape(m, r, x) && Separate(l) && Separate(r);
    assert m[x] == Cell(RootOf(l), RootOf(r), ParentOf(c), t.red);
    assert Elems(t) == Elems(l) + {x} + Elems(r);
    assert (l.Node? ==> l.n in Elems(l)) && (r.Node? ==> r.n in Elems(r)) && (!c.Top? ==> c.n in CtxElems(c));
    assert CtxShape(m, c, x, root) && CtxSeparate(c);
    assert AllApart(l, x, r, y, Leaf, c);
    ReplaceCells(m, c, x, y, l, r, m');
    hide Shape, Separate, CtxShape, CtxSeparate, Elems, CtxElems, ReplaceWrites;
    Reparented(m, m', l, x, y);
    Reparented(m, m', r, x, y);
    ReholeCtx(m, m', c, x, y, root, root');
    PackNode(m', ParentOf(c), l, y, t.red, r);
  }

  lemma ReplaceCells(m: Mem, c: Ctx<RbNode>, x: RbNode, y: RbNode, l: Tree<RbNode>, r: Tree<RbNode>, m': Mem)
    requires x in m && (l.Node? ==> l.n in m) && (r.Node? ==> r.n in m) && (!c.Top? ==> c.n in m)
    requires AllApart(l, x, r, y, Leaf, c)
    requires m' == ReplaceWrites(m, c, x, y, RootOf(l), RootOf(r))
    ensures y in m' && m'[y] == m[x]
    ensures l.Node? ==> l.n in m' && m'[l.n] == m[l.n].(parent := y)
    ensures r.Node? ==> r.n in m' && m'[r.n] == m[r.n].(parent := y)
    ensures !c.Top? ==> c.n in m' && m'[c.n] == Rehung(m, c, y)[c.n]
    ensures SameOn(m, m', ElemsBelow(l)) && SameOn(m, m', ElemsBelow(r)) && SameOn(m, m', CtxElemsAbove(c))
  {
  }

  // ----- The colours

  /** Without a red node the heights are as before; without a black one they are one short. */
  lemma RemovedBalance<T>(d: Ctx<T>, t: Tree<T>, k: Tree<T>, h: nat)
    requires BalancedCtx(d, h) && Balanced(t, h) && OnlyChild(t, k)
    requires IsRed(t) ==> !d.Top? && !HoleUnderRed(d)
    ensures t.red ==> Balanced(k, h) && !IsRed(k)
    ensures !t.red ==> h > 0 && Deficit(d, k, h - 1)
  {
  }

  /** s with one occurrence of n taken out. */
  ghost predicate TakenOut<T>(s: seq<T>, n: T, t: seq<T>) {
    exists i :: 0 <= i < |s| && s[i] == n && t == s[..i] + s[i + 1..]
  }

  lemma SplitTakenOut<T>(a: seq<T>, n: T, b: seq<T>)
    ensures TakenOut(a + [n] + b, n, a + b)
  {
    var s := a + [n] + b;
    assert s[|a|] == n && s[..|a|] == a && s[|a| + 1..] == b;
  }

  lemma SimpleOrder<T>(d: Ctx<T>, t: Tree<T>, k: Tree<T>)
    requires OnlyChild(t, k)
    ensures TakenOut(InOrder(Plug(d, t)), t.n, InOrder(Plug(d, k)))
  {
    PlugInOrder(d, t);
    PlugInOrder(d, k);
    assert InOrder(k) == InOrder(t.l) + InOrder(t.r);
    MiddleTakenOut(Before(d), InOrder(t.l), t.n, InOrder(t.r), After(d));
  }

  lemma MiddleTakenOut<T>(a: seq<T>, l: seq<T>, n: T, r: seq<T>, b: seq<T>)
    ensures TakenOut(a + (l + [n] + r) + b, n, a + (l + r) + b)
  {
    SplitTakenOut(a + l, n, r + b);
    assert (a + l) + [n] + (r + b) == a + (l + [n] + r) + b;
    assert (a + l) + (r + b) == a + (l + r) + b;
  }

  // ----- A node with at most one child

  /** child takes the place of node. */
  method Unlink(node: RbNode, child: RbNode?, root: RbRoot,
                ghost s: set<RbNode>, ghost d: Ctx<RbNode>, ghost t: Tree<RbNode>, ghost k: Tree<RbNode>)
    requires Holds(Snap(s), root.node, d, t) && OnlyChild(t, k) && node == t.n && child == RootOf(k)
    modifies s, root
    ensures Holds(Snap(s), root.node, d, k)
  {
    ghost var m, root0 := Snap(s), root.node;
    OnlyChildInMemory(m, root0, d, t, k);
    HoldsHangs(m, root0, d, t);
    hide Holds, Shape, CtxShape, Elems, CtxElems;
    var parent := node.parent;
    if child != null {
      SetParent(child, parent, s);
    }
    assert Snap(s) == PutParent(m, child, parent);
    Rehang(root, parent, node, child, s, d);
    UnlinkHolds(m, root0, root.node, d, t, k, Snap(s));
  }

  /** After a node has been taken out: repair, if it was black. */
  method Repair(black: bool, child: RbNode?, parent: RbNode?, root: RbRoot,
                ghost s: set<RbNode>, ghost d: Ctx<RbNode>, ghost k: Tree<RbNode>, ghost h: nat)
    returns (ghost t': Tree<RbNode>)
    requires Holds(Snap(s), root.node, d, k) && child == RootOf(k) && parent == ParentOf(d)
    requires black ==> h > 0 && Deficit(d, k, h - 1)
    requires !black ==> BalancedCtx(d, h) && Balanced(k, h) && !IsRed(k)
    modifies s, root
    ensures Holds(Snap(s), root.node, Top, t') && IsRedBlack(t') && InOrder(t') == InOrder(Plug(d, k))
  {
    hide Holds, InOrder;
    if black {
      t' := RbEraseColor.RbEraseColor(child, parent, root, s, d, k, h - 1);
    } else {
      PlugBalanced(d, k, h);
      HoldsPlug(Snap(s), root.node, d, k);
      t' := Plug(d, k);
    }
  }

  method EraseSimple(node: RbNode, child: RbNode?, root: RbRoot,
                     ghost s: set<RbNode>, ghost d: Ctx<RbNode>, ghost t: Tree<RbNode>, ghost k: Tree<RbNode>)
    returns (ghost t': Tree<RbNode>)
    requires Holds(Snap(s), root.node, d, t) && OnlyChild(t, k) && node == t.n && child == RootOf(k)
    requires IsRedBlack(Plug(d, t))
    modifies s, root
    ensures Holds(Snap(s), root.node, Top, t') && IsRedBlack(t')
    ensures TakenOut(InOrder(Plug(d, t)), node, InOrder(t'))
  {
    ReadRoot(Snap(s), root.node, d, t);
    ghost var h := UnplugBalanced(d, t);
    RemovedBalance(d, t, k, h);
    SimpleOrder(d, t, k);
    hide Holds, InOrder, Plug, TakenOut, IsRedBlack;
    var parent := node.parent;
    var black := !node.red;
    Unlink(node, child, root, s, d, t, k);
    t' := Repair(black, child, parent, root, s, d, k, h);
  }

  // ----- Replacing a node

  /** y gets all fields of x. */
  method CopyNode(y: RbNode, x: RbNode, ghost s: set<RbNode>)
    requires x in s && y in s
    modifies y
    ensures Snap(s) == old(Snap(s))[y := old(Snap(s))[x]]
  {
    y.parent, y.red := x.parent, x.red;
    y.right := x.right;
    y.left := x.left;
  }

  lemma ReadyToReplace(m: Mem, root: RbNode?, c: Ctx<RbNode>, t: Tree<RbNode>)
    requires Holds(m, root, c, t) && t.Node?
    ensures t.n in m && m[t.n] == Cell(RootOf(t.l), RootOf(t.r), ParentOf(c), t.red) && HangsFrom(m, c, t.n)
    ensures (t.l.Node? ==> t.l.n in m && t.l.n in Elems(t) && t.l.n != t.n)
    ensures (t.r.Node? ==> t.r.n in m && t.r.n in Elems(t) && t.r.n != t.n)
    ensures (!c.Top? ==> c.n in m && c.n in CtxElems(c) && c.n !in Elems(t))
  {
    HoldsHangs(m, root, c, t);
    assert Shape(m, t.l, t.n) && Shape(m, t.r, t.n);
  }

  /** The nodes that a replacement reads and writes are distinct. */
  ghost predicate ReplaceReady(m: Mem, c: Ctx<RbNode>, x: RbNode, y: RbNode) {
    && x in m && y in m && x != y && m[x].parent == ParentOf(c) && HangsFrom(m, c, x)
    && (m[x].left != null ==> m[x].left in m && m[x].left != x && m[x].left != y)
    && (m[x].right != null ==> m[x].right in m && m[x].right != x && m[x].right != y)
    && (!c.Top? ==> c.n in m && c.n != x && c.n != y)
  }

  /** y takes over the fields, the parent and the children of x. */
  method PlaceLinks(x: RbNode, y: RbNode, root: RbRoot, ghost s: set<RbNode>, ghost c: Ctx<RbNode>)
    requires ReplaceReady(Snap(s), c, x, y)
    modifies s, root
    ensures Snap(s) == old(ReplaceWrites(Snap(s), c, x, y, x.left, x.right))
    ensures root.node == if c.Top? then y else old(root.node)
  {
    ghost var m, l, r := Snap(s), x.left, x.right;
    CopyNode(y, x, s);
    Rehang(root, x.parent, x, y, s, c);
    ghost var m2 := Snap(s);
    assert m2 == Rehung(m[y := m[x]], c, y) && m2[x] == m[x];
    if x.left != null {
      SetParent(x.left, y, s);
    }
    ghost var m3 := Snap(s);
    assert m3 == PutParent(m2, l, y);
    if x.right != null {
      SetParent(x.right, y, s);
    }
    assert Snap(s) == PutParent(m3, r, y);
  }

  method TakePlace(x: RbNode, y: RbNode, root: RbRoot,
                   ghost s: set<RbNode>, ghost c: Ctx<RbNode>, ghost t: Tree<RbNode>)
    requires Holds(Snap(s), root.node, c, t) && t.Node? && x == t.n
    requires y in s && y !in Elems(t) && y !in CtxElems(c)
    modifies s, root
    ensures Holds(Snap(s), root.node, c, t.(n := y))
  {
    ghost var m, root0 := Snap(s), root.node;
    ReadyToReplace(m, root0, c, t);
    assert x in Elems(t);
    hide Holds, Elems, CtxElems, ReplaceWrites;
    PlaceLinks(x, y, root, s, c);
    ReplaceHolds(m, root0, root.node, c, t, y, Snap(s));
  }

  // ----- A node with two children

  /** The way from a subtree to its leftmost node. */
  ghost predicate LeftSpine<T>(p: Ctx<T>) {
    p.Top? || (p.InLeft? && LeftSpine(p.up))
  }

  lemma {:induction false} SpineOrder<T>(p: Ctx<T>, b: Ctx<T>)
    requires LeftSpine(p)
    ensures Before(Compose(p, b)) == Before(b)
    ensures After(Compose(p, b)) == After(p) + After(b)
    decreases p
  {
    if p.InLeft? { SpineOrder(p.up, b); }
  }

  /** The leftmost node y of the right subtree comes next after x; it replaces x, and k replaces it. */
  lemma SuccessorOrder<T>(c: Ctx<T>, l: Tree<T>, x: T, red: bool, p: Ctx<T>, y: T, yr: bool, k: Tree<T>)
    requires LeftSpine(p)
    ensures
      var whole := Plug(Compose(p, InRight(l, x, red, c)), Node(Leaf, y, yr, k));
      TakenOut(InOrder(whole), x, InOrder(Plug(Compose(p, InRight(l, y, red, c)), k)))
  {
    var b, b' := InRight(l, x, red, c), InRight(l, y, red, c);
    PlugInOrder(Compose(p, b), Node(Leaf, y, yr, k));
    PlugInOrder(Compose(p, b'), k);
    SpineOrder(p, b); SpineOrder(p, b');
    SuccessorTakenOut(Before(c) + InOrder(l), x, y, InOrder(k), After(p) + After(c));
  }

  lemma SuccessorTakenOut<T>(a: seq<T>, x: T, y: T, k: seq<T>, b: seq<T>)
    ensures TakenOut((a + [x]) + ([] + [y] + k) + b, x, (a + [y]) + k + b)
  {
    SplitTakenOut(a, x, [y] + k + b);
    assert (a + [x]) + ([] + [y] + k) + b == a + [x] + ([y] + k + b);
    assert (a + [y]) + k + b == a + ([y] + k + b);
  }

  lemma SpineParent(p: Ctx<RbNode>, b: Ctx<RbNode>, m: Mem, root: RbNode?, u: Tree<RbNode>)
    requires LeftSpine(p) && b.InRight? && Holds(m, root, Compose(p, b), u) && u.Node?
    ensures (ParentOf(Compose(p, b)) == b.n <==> p.Top?)
    ensures Compose(p, b).InRight? <==> p.Top?
    ensures b.n in m && u.n != b.n
    ensures ParentOf(Compose(p, b)) in m
  {
    BaseInCtx(p, b);
    CtxElemsInMemory(m, Compose(p, b), u.n, root);
    if !p.Top? { BaseInCtx(p.up, b); }
  }

  lemma {:induction false} BaseInCtx(p: Ctx<RbNode>, b: Ctx<RbNode>)
    requires !b.Top?
    ensures b.n in CtxElems(Compose(p, b))
    decreases p
  {
    if !p.Top? { BaseInCtx(p.up, b); }
  }

  /** Walk to the leftmost node of the right subtree. */
  method FindSuccessor(node: RbNode, root: RbRoot, ghost s: set<RbNode>, ghost c: Ctx<RbNode>, ghost t: Tree<RbNode>)
    returns (y: RbNode, ghost p: Ctx<RbNode>, ghost u: Tree<RbNode>)
    requires Holds(Snap(s), root.node, c, t) && t.Node? && t.r.Node? && node == t.n
    ensures u.Node? && u.l.Leaf? && u.n == y && LeftSpine(p) && Plug(p, u) == t.r
    ensures Holds(Snap(s), root.node, Compose(p, InRight(t.l, t.n, t.red, c)), u)
  {
    ghost var m, b := Snap(s), InRight(t.l, t.n, t.red, c);
    HoldsUp(m, root.node, b, t.r);
    y, p, u := node.right, Top, t.r;
    ReadNode(m, u, b.n);
    while y.left != null
      invariant u.Node? && u.n == y && LeftSpine(p) && Plug(p, u) == t.r
      invariant Holds(m, root.node, Compose(p, b), u) && ReadsNode(m, u)
      decreases u
    {
      hide Holds;
      HoldsUp(m, root.node, InLeft(Compose(p, b), u.n, u.red, u.r), u.l);
      y, p, u := y.left, InLeft(p, u.n, u.red, u.r), u.l;
      ReadFocusNode(m, root.node, Compose(p, b), u);
    }
  }

  lemma ReadFocusNode(m: Mem, root: RbNode?, c: Ctx<RbNode>, u: Tree<RbNode>)
    requires Holds(m, root, c, u) && u.Node?
    ensures ReadsNode(m, u)
  {
    ReadNode(m, u, ParentOf(c));
  }

  /** The successor leaves its place to its right child. */
  method UnlinkSuccessor(old_: RbNode, node: RbNode, root: RbRoot,
                         ghost s: set<RbNode>, ghost b: Ctx<RbNode>, ghost p: Ctx<RbNode>, ghost u: Tree<RbNode>)
    returns (child: RbNode?, parent: RbNode)
    requires LeftSpine(p) && b.InRight? && b.n == old_
    requires Holds(Snap(s), root.node, Compose(p, b), u) && u.Node? && u.l.Leaf? && node == u.n
    modifies s
    ensures Holds(Snap(s), root.node, Compose(p, b), u.r)
    ensures child == RootOf(u.r) && parent == if p.Top? then node else p.n
    ensures node in s && node !in Elems(u.r) && node !in CtxElems(Compose(p, b))
  {
    ghost var m, d := Snap(s), Compose(p, b);
    SpineParent(p, b, m, root.node, u);
    ReadFocusNode(m, root.node, d, u);
    ReadRoot(m, root.node, d, u);
    OnlyChildInMemory(m, root.node, d, u, u.r);
    hide Holds, LeftSpine;
    child := node.right;
    parent := node.parent;
    if child != null {
      SetParent(child, parent, s);
    }
    assert Snap(s) == PutParent(m, child, parent);
    var above := parent;
    if parent == old_ {
      SetRight(parent, child, s);
      above := node;
    } else {
      SetLeft(parent, child, s);
    }
    assert Snap(s) == UnlinkWrites(m, d, child);
    UnlinkHolds(m, root.node, root.node, d, u, u.r, Snap(s));
    parent := above;
  }

  method EraseBetween(old_: RbNode, root: RbRoot, ghost s: set<RbNode>, ghost c: Ctx<RbNode>, ghost t: Tree<RbNode>)
    returns (ghost t': Tree<RbNode>)
    requires Holds(Snap(s), root.node, c, t) && t.Node? && t.l.Node? && t.r.Node? && old_ == t.n
    requires IsRedBlack(Plug(c, t))
    modifies s, root
    ensures Holds(Snap(s), root.node, Top, t') && IsRedBlack(t')
    ensures TakenOut(InOrder(Plug(c, t)), old_, InOrder(t'))
  {
    ghost var b := InRight(t.l, t.n, t.red, c);
    var node, p, u := FindSuccessor(old_, root, s, c, t);
    ReadRoot(Snap(s), root.node, Compose(p, b), u);
    PlugCompose(p, b, u);
    ghost var h := UnplugBalanced(Compose(p, b), u);
    RemovedBalance(Compose(p, b), u, u.r, h);
    ghost var b' := InRight(t.l, node, t.red, c);
    SuccessorBalance(p, b, b', u, h);
    SuccessorOrder(c, t.l, t.n, t.red, p, node, u.red, u.r);
    assert u == Node(Leaf, node, u.red, u.r);
    hide Holds, InOrder, TakenOut, IsRedBlack, Balanced, BalancedCtx, Deficit, LeftSpine;
    var black := !node.red;
    var child, parent := UnlinkSuccessor(old_, node, root, s, b, p, u);
    MoveIntoPlace(old_, node, root, s, c, b, b', p, u.r);
    t' := Repair(black, child, parent, root, s, Compose(p, b'), u.r, h);
  }

  lemma SuccessorBalance<T>(p: Ctx<T>, b: Ctx<T>, b': Ctx<T>, u: Tree<T>, h: nat)
    requires Renamed(b, b') && u.Node? && BalancedCtx(Compose(p, b), h)
    requires u.red ==> Balanced(u.r, h) && !IsRed(u.r)
    requires !u.red ==> h > 0 && Deficit(Compose(p, b), u.r, h - 1)
    ensures u.red ==> BalancedCtx(Compose(p, b'), h)
    ensures !u.red ==> Deficit(Compose(p, b'), u.r, h - 1)
  {
    BalancedRenamed(p, b, b', h);
  }

  /** The unlinked successor takes the place of the erased node. */
  method MoveIntoPlace(old_: RbNode, node: RbNode, root: RbRoot, ghost s: set<RbNode>, ghost c: Ctx<RbNode>,
                       ghost b: Ctx<RbNode>, ghost b': Ctx<RbNode>, ghost p: Ctx<RbNode>, ghost k: Tree<RbNode>)
    requires b.InRight? && b.up == c && b.n == old_ && b' == b.(n := node)
    requires Holds(Snap(s), root.node, Compose(p, b), k)
    requires node in s && node !in Elems(k) && node !in CtxElems(Compose(p, b))
    modifies s, root
    ensures Holds(Snap(s), root.node, Compose(p, b'), k)
  {
    ghost var t := Node(b.l, b.n, b.red, Plug(p, k));
    HoldsCompose(Snap(s), root.node, p, b, k);
    HoldsUp(Snap(s), root.node, b, Plug(p, k));
    ComposeElems(p, b, k);
    hide Holds;
    TakePlace(old_, node, root, s, c, t);
    HoldsUp(Snap(s), root.node, b', Plug(p, k));
    HoldsCompose(Snap(s), root.node, p, b', k);
  }

  lemma {:induction false} ComposeElems(p: Ctx<RbNode>, b: Ctx<RbNode>, k: Tree<RbNode>)
    ensures Elems(Plug(p, k)) + CtxElems(b) == Elems(k) + CtxElems(Compose(p, b))
    decreases p
  {
    if !p.Top? { ComposeElems(p.up, b, Up(p, k)); }
  }

  // ----- rb_erase

  /** Take node out of the tree; the others keep their order. */
  method RbErase(node: RbNode, root: RbRoot, ghost s: set<RbNode>, ghost t0: Tree<RbNode>)
    returns (ghost t': Tree<RbNode>)
    requires Holds(Snap(s), root.node, Top, t0) && IsRedBlack(t0) && node in Elems(t0)
    modifies s, root
    ensures Holds(Snap(s), root.node, Top, t') && IsRedBlack(t')
    ensures TakenOut(InOrder(t0), node, InOrder(t'))
  {
    ghost var c, t := FocusOn(t0, node);
    HoldsPlug(Snap(s), root.node, c, t);
    ReadFocusNode(Snap(s), root.node, c, t);
    hide Holds, InOrder, TakenOut, IsRedBlack, Plug, Elems;
    if node.left == null {
      t' := EraseSimple(node, node.right, root, s, c, t, t.r);
    } else if node.right == null {
      t' := EraseSimple(node, node.left, root, s, c, t, t.l);
    } else {
      t' := EraseBetween(node, root, s, c, t);
    }
  }
}
