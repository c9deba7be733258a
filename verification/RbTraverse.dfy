/** rb_first, rb_next and rb_replace_node. */
module RbTraverse {
  import opened RbShape
  import opened RbMemory
  import opened RbRotate
  import opened RbEraseColor
  import opened RbErase

  lemma {:induction false} LeftmostFirst<T>(t: Tree<T>)
    requires t.Node?
    ensures |InOrder(t)| > 0
    ensures t.l.Leaf? ==> InOrder(t)[0] == t.n
    ensures t.l.Node? ==> |InOrder(t.l)| > 0 && InOrder(t)[0] == InOrder(t.l)[0]
    decreases t
  {
    if t.l.Node? { LeftmostFirst(t.l); }
  }

  /** Follow left pointers to the end. */
  method Leftmost(n0: RbNode, ghost s: set<RbNode>, ghost p: RbNode?, ghost t: Tree<RbNode>) returns (n: RbNode)
    requires Shape(Snap(s), t, p) && t.Node? && n0 == t.n
    ensures |InOrder(t)| > 0 && n == InOrder(t)[0]
  {
    n := n0;
    ghost var u, q := t, p;
    LeftmostFirst(u);
    ReadNode(Snap(s), u, q);
    while n.left != null
      invariant Shape(Snap(s), u, q) && u.Node? && n == u.n && ReadsNode(Snap(s), u)
      invariant |InOrder(u)| > 0 && |InOrder(t)| > 0 && InOrder(u)[0] == InOrder(t)[0]
      decreases u
    {
      LeftmostFirst(u);
      n, u, q := n.left, u.l, u.n;
      ReadNode(Snap(s), u, q);
    }
    LeftmostFirst(u);
  }

  /** The first node in order; null for an empty tree. */
  method RbFirst(root: RbRoot, ghost s: set<RbNode>, ghost t: Tree<RbNode>) returns (n: RbNode?)
    requires Holds(Snap(s), root.node, Top, t)
    ensures n == if InOrder(t) == [] then null else InOrder(t)[0]
  {
    n := root.node;
    if n != null {
      n := Leftmost(n, s, null, t);
    }
  }

  /** The first node after the hole: what climbing from a right child to a left child finds. */
  ghost function NextUp<T>(c: Ctx<T>): Ctx<T> {
    if c.InRight? then NextUp(c.up) else c
  }

  lemma {:induction false} NextUpAfter<T>(c: Ctx<T>)
    ensures var d := NextUp(c);
      After(c) == After(d) && (d.Top? || d.InLeft?) && (d.InLeft? ==> |After(c)| > 0 && After(c)[0] == d.n)
    ensures NextUp(c).Top? ==> After(c) == []
    decreases c
  {
    if c.InRight? { NextUpAfter(c.up); }
  }

  /** Climb until the way up leads from a left child. */
  method Climb(node: RbNode, root: RbRoot, ghost s: set<RbNode>, ghost c0: Ctx<RbNode>, ghost t0: Tree<RbNode>)
    returns (parent: RbNode?)
    requires Holds(Snap(s), root.node, c0, t0) && t0.Node? && node == t0.n
    ensures parent == ParentOf(NextUp(c0))
  {
    var n := node;
    ghost var c, t := c0, t0;
    HoldsHangs(Snap(s), root.node, c, t);
    HangsRight(Snap(s), root.node, c, t);
    parent := n.parent;
    while parent != null && n == parent.right
      invariant Holds(Snap(s), root.node, c, t) && t.Node? && n == t.n && parent == ParentOf(c)
      invariant parent != null ==> (n == parent.right <==> c.InRight?)
      invariant NextUp(c) == NextUp(c0)
      decreases Depth(c)
    {
      HoldsUp(Snap(s), root.node, c, t);
      hide Holds;
      n, t, c := parent, Up(c, t), c.up;
      HoldsHangs(Snap(s), root.node, c, t);
      HangsRight(Snap(s), root.node, c, t);
      parent := n.parent;
    }
  }

  lemma HangsRight(m: Mem, root: RbNode?, c: Ctx<RbNode>, t: Tree<RbNode>)
    requires Holds(m, root, c, t) && t.Node?
    ensures t.n in m
    ensures !c.Top? ==> c.n in m && (m[c.n].right == t.n <==> c.InRight?)
  {
  }

  /** The node after `node` in order; null if it is the last. */
  method RbNext(node: RbNode, root: RbRoot, ghost s: set<RbNode>, ghost t0: Tree<RbNode>)
    returns (next: RbNode?, ghost i: nat)
    requires Holds(Snap(s), root.node, Top, t0) && node in Elems(t0)
    ensures i < |InOrder(t0)| && InOrder(t0)[i] == node
    ensures next == if i + 1 < |InOrder(t0)| then InOrder(t0)[i + 1] else null
  {
    ghost var c, t := FocusOn(t0, node);
    HoldsPlug(Snap(s), root.node, c, t);
    ReadFocusNode(Snap(s), root.node, c, t);
    i := |Before(c) + InOrder(t.l)|;
    PlugInOrder(c, t);
    NextInOrder(Before(c), InOrder(t.l), node, InOrder(t.r), After(c));
    if node.right != null {
      next := Leftmost(node.right, s, node, t.r);
    } else {
      NextUpAfter(c);
      next := Climb(node, root, s, c, t);
    }
  }

  lemma NextInOrder<T>(a: seq<T>, l: seq<T>, n: T, r: seq<T>, b: seq<T>)
    ensures var s, i := a + (l + [n] + r) + b, |a + l|;
      && i < |s| && s[i] == n
      && (r != [] ==> i + 1 < |s| && s[i + 1] == r[0])
      && (r == [] && b != [] ==> i + 1 < |s| && s[i + 1] == b[0])
      && (r == [] && b == [] ==> i + 1 == |s|)
  {
    var s := a + (l + [n] + r) + b;
    assert s == (a + l) + [n] + (r + b);
  }

  // ----- rb_replace_node

  /** The children are told of their new parent before the node is copied. */
  method ReplaceLinks(x: RbNode, y: RbNode, root: RbRoot, ghost s: set<RbNode>, ghost c: Ctx<RbNode>)
    requires ReplaceReady(Snap(s), c, x, y)
    modifies s, root
    ensures Snap(s) == old(ReplaceWrites(Snap(s), c, x, y, x.left, x.right))
    ensures root.node == if c.Top? then y else old(root.node)
  {
    ghost var m, l, r := Snap(s), x.left, x.right;
    Rehang(root, x.parent, x, y, s, c);
    ghost var m1 := Snap(s);
    if x.left != null {
      SetParent(x.left, y, s);
    }
    ghost var m2 := Snap(s);
    assert m2 == PutParent(m1, l, y);
    if x.right != null {
      SetParent(x.right, y, s);
    }
    ghost var m3 := Snap(s);
    assert m3 == PutParent(m2, r, y);
    CopyLast(m, c, x, y, l, r);
    CopyNode(y, x, s);
  }

  lemma CopyLast(m: Mem, c: Ctx<RbNode>, x: RbNode, y: RbNode, l: RbNode?, r: RbNode?)
    requires x in m && x != y && (l != null ==> l in m && l != x && l != y)
    requires (r != null ==> r in m && r != x && r != y)
    requires !c.Top? ==> c.n in m && c.n != x && c.n != y
    ensures var m3 := PutParent(PutParent(Rehung(m, c, y), l, y), r, y);
      m3[x] == m[x] && m3[y := m[x]] == ReplaceWrites(m, c, x, y, l, r)
  {
  }

  lemma RenamedRedBlack<T>(c: Ctx<T>, t: Tree<T>, y: T)
    requires t.Node? && IsRedBlack(Plug(c, t))
    ensures IsRedBlack(Plug(c, t.(n := y)))
    ensures var i := |Before(c) + InOrder(t.l)|;
      i < |InOrder(Plug(c, t))| && InOrder(Plug(c, t))[i] == t.n
      && InOrder(Plug(c, t.(n := y))) == InOrder(Plug(c, t))[i := y]
  {
    var h := UnplugBalanced(c, t);
    PlugBalanced(c, t.(n := y), h);
    PlugInOrder(c, t);
    PlugInOrder(c, t.(n := y));
    NextInOrder(Before(c), InOrder(t.l), t.n, InOrder(t.r), After(c));
    ReplacedInOrder(Before(c), InOrder(t.l), t.n, y, InOrder(t.r), After(c));
  }

  lemma ReplacedInOrder<T>(a: seq<T>, l: seq<T>, n: T, y: T, r: seq<T>, b: seq<T>)
    ensures |a + l| < |a + (l + [n] + r) + b|
    ensures a + (l + [y] + r) + b == (a + (l + [n] + r) + b)[|a + l| := y]
  {
    assert a + (l + [n] + r) + b == (a + l) + [n] + (r + b);
    assert a + (l + [y] + r) + b == (a + l) + [y] + (r + b);
  }

  /** Put `next` in the place of victim without rebalancing. */
  method RbReplaceNode(victim: RbNode, next: RbNode, root: RbRoot, ghost s: set<RbNode>, ghost t0: Tree<RbNode>)
    returns (ghost t': Tree<RbNode>, ghost i: nat)
    requires Holds(Snap(s), root.node, Top, t0) && IsRedBlack(t0) && victim in Elems(t0)
    requires next in s && next !in Elems(t0)
    modifies s, root
    ensures Holds(Snap(s), root.node, Top, t') && IsRedBlack(t')
    ensures i < |InOrder(t0)| && InOrder(t0)[i] == victim && InOrder(t') == InOrder(t0)[i := next]
  {
    ghost var c, t := FocusOn(t0, victim);
    HoldsPlug(Snap(s), root.node, c, t);
    ghost var m, root0 := Snap(s), root.node;
    PlugElems(c, t);
    ReadyToReplace(m, root0, c, t);
    RenamedRedBlack(c, t, next);
    assert victim in Elems(t);
    hide Holds, Elems, CtxElems, IsRedBlack, InOrder, ReplaceWrites;
    ReplaceLinks(victim, next, root, s, c);
    ReplaceHolds(m, root0, root.node, c, t, next, Snap(s));
    t', i := Plug(c, t.(n := next)), |Before(c) + InOrder(t.l)|;
    HoldsPlug(Snap(s), root.node, c, t.(n := next));
  }

  lemma {:induction false} PlugElems<T>(c: Ctx<T>, t: Tree<T>)
    ensures Elems(Plug(c, t)) == Elems(t) + CtxElems(c)
    decreases c
  {
    if !c.Top? { PlugElems(c.up, Up(c, t)); }
  }
}
