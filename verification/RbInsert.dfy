/** rb_insert_color: repair the tree after a red node has been linked in. */
module RbInsert {
  import opened RbShape
  import opened RbMemory
  import opened RbRotate

  /** The focus is red, and only its parent may be red as well. */
  ghost predicate RedFocus<T>(c: Ctx<T>, t: Tree<T>, h: nat) {
    IsRed(t) && Balanced(t, h) && BalancedCtx(c, h)
  }

  // ----- What the cases do to the tree

  /** Both the parent and the uncle are red: recolour, and go on with the grandparent. */
  ghost function Recolored<T>(g: Tree<T>): Tree<T>
    requires g.Node? && g.l.Node? && g.r.Node?
  {
    Node(g.l.(red := false), g.n, true, g.r.(red := false))
  }

  /** Above a red focus under a red parent there is a black grandparent. */
  lemma RedParent<T>(c: Ctx<T>, t: Tree<T>, h: nat)
    requires RedFocus(c, t, h) && HoleUnderRed(c)
    ensures !c.up.Top? && !c.up.red
    ensures BalancedCtx(c.up.up, h + 1)
    ensures Balanced(if c.InLeft? then c.r else c.l, h) && !IsRed(if c.InLeft? then c.r else c.l)
    ensures Balanced(if c.up.InLeft? then c.up.r else c.up.l, h)
  {
    assert BalancedCtx(c.up, h);
  }

  lemma BlackNode<T>(l: Tree<T>, n: T, r: Tree<T>, h: nat)
    requires Balanced(l, h) && Balanced(r, h)
    ensures Balanced(Node(l, n, false, r), h + 1)
  {
  }

  lemma Blackened<T>(t: Tree<T>, h: nat)
    requires IsRed(t) && Balanced(t, h)
    ensures Balanced(t.(red := false), h + 1)
  {
  }

  lemma RecolorKeeps<T>(c: Ctx<T>, t: Tree<T>, h: nat)
    requires RedFocus(c, t, h) && HoleUnderRed(c) && !c.up.Top?
    requires IsRed(if c.up.InLeft? then c.up.r else c.up.l)
    ensures
      var g := Up(c.up, Up(c, t));
      RedFocus(c.up.up, Recolored(g), h + 1) && InOrder(Recolored(g)) == InOrder(g)
  {
    RedParent(c, t, h);
    if c.InLeft? { BlackNode(t, c.n, c.r, h); } else { BlackNode(c.l, c.n, t, h); }
    Blackened(if c.up.InLeft? then c.up.r else c.up.l, h);
  }

  /** The uncle is black: after the rotation around the grandparent the parent is black. */
  lemma RotateRightKeeps<T>(c: Ctx<T>, x: Tree<T>, p: T, y: Tree<T>, g: T, u: Tree<T>, h: nat)
    requires IsRed(x) && !IsRed(y) && !IsRed(u)
    requires Balanced(x, h) && Balanced(y, h) && Balanced(u, h) && BalancedCtx(c, h + 1)
    ensures RedFocus(InLeft(c, p, false, Node(y, g, true, u)), x, h)
  {
  }

  lemma RotateLeftKeeps<T>(c: Ctx<T>, x: Tree<T>, p: T, y: Tree<T>, g: T, u: Tree<T>, h: nat)
    requires IsRed(x) && !IsRed(y) && !IsRed(u)
    requires Balanced(x, h) && Balanced(y, h) && Balanced(u, h) && BalancedCtx(c, h + 1)
    ensures RedFocus(InRight(Node(u, g, true, y), p, false, c), x, h)
  {
  }

  // ----- The cases in memory

  /** The fields that the loop reads around a red focus under a red parent. */
  lemma ReadAround(m: Mem, root: RbNode?, c: Ctx<RbNode>, t: Tree<RbNode>)
    requires Holds(m, root, c, t) && t.Node? && !c.Top? && !c.up.Top?
    ensures t.n in m && m[t.n].parent == c.n && m[t.n].red == t.red
    ensures c.n in m && m[c.n].parent == c.up.n && m[c.n].red == c.red
    ensures c.InLeft? <==> m[c.n].right != t.n
    ensures c.InRight? <==> m[c.n].left != t.n
    ensures c.up.n in m && (c.up.InLeft? <==> m[c.up.n].left == c.n)
    ensures c.up.InLeft? ==> m[c.up.n].right == RootOf(c.up.r)
    ensures c.up.InRight? ==> m[c.up.n].left == RootOf(c.up.l)
    ensures var u := if c.up.InLeft? then c.up.r else c.up.l; u.Node? ==> u.n in m && m[u.n].red == u.red
  {
    assert CtxShape(m, c.up, c.n, root) && CtxSeparate(c.up);
  }

  method RecolorRound(parent: RbNode, gparent: RbNode, uncle: RbNode, root: RbRoot,
                      ghost s: set<RbNode>, ghost c: Ctx<RbNode>, ghost t: Tree<RbNode>)
    requires !c.Top? && !c.up.Top? && Holds(Snap(s), root.node, c, t) && parent == c.n && gparent == c.up.n
    requires uncle == RootOf(if c.up.InLeft? then c.up.r else c.up.l)
    modifies s
    ensures Holds(Snap(s), root.node, c.up.up, Recolored(Up(c.up, Up(c, t))))
  {
    ghost var d, g := c.up.up, Up(c.up, Up(c, t));
    ghost var m, r := Snap(s), root.node;
    HoldsUp(m, r, c, t);
    HoldsUp(m, r, c.up, Up(c, t));
    hide Holds, Snap;
    ghost var left := c.up.InLeft?;
    RecolorSide(m, r, d, g, !left, uncle, false);
    SetRed(uncle, false, s);
    g := WithSideRed(g, !left, false);
    RecolorSide(Snap(s), r, d, g, left, parent, false);
    SetRed(parent, false, s);
    g := WithSideRed(g, left, false);
    RecolorRoot(Snap(s), r, d, g, true);
    SetRed(gparent, true, s);
  }

  /** If the node is on the inner side, a first rotation puts it in the place of its parent. */
  method StraightenLeft(node: RbNode, parent: RbNode, root: RbRoot,
                     ghost s: set<RbNode>, ghost c: Ctx<RbNode>, ghost t: Tree<RbNode>)
    returns (n: RbNode, p: RbNode, ghost x: Tree<RbNode>, ghost y: Tree<RbNode>)
    requires t.Node? && t.red && HoleUnderRed(c) && !c.up.Top?
    requires Holds(Snap(s), root.node, c, t) && node == t.n && parent == c.n
    modifies s, root
    ensures if c.InLeft? then x == t && p == c.n && y == c.r else p == t.n && y == t.r && x == Node(c.l, c.n, true, t.l)
    ensures x.Node? && x.n == n
    ensures Holds(Snap(s), root.node, c.up, Node(x, p, true, y))
  {
    ReadAround(Snap(s), root.node, c, t);
    HoldsUp(Snap(s), root.node, c, t);
    hide Holds;
    n, p, x, y := node, parent, t, if c.InLeft? then c.r else t.r;
    if parent.right == node {
      RotateLeft(parent, root, s, c.up, Up(c, t));
      n, p, x := parent, node, Node(c.l, c.n, true, t.l);
    }
  }

  /** Recolour, and rotate the parent into the place of the grandparent. */
  method LiftParentLeft(p: RbNode, gparent: RbNode, root: RbRoot, ghost s: set<RbNode>, ghost d: Ctx<RbNode>,
                     ghost x: Tree<RbNode>, ghost y: Tree<RbNode>, ghost u: Tree<RbNode>)
    requires Holds(Snap(s), root.node, d, Node(Node(x, p, true, y), gparent, false, u))
    modifies s, root
    ensures Holds(Snap(s), root.node, d, Node(x, p, false, Node(y, gparent, true, u)))
  {
    assert gparent in Snap(s);
    hide Holds;
    ghost var g := gparent;
    RecolorSide(Snap(s), root.node, d, Node(Node(x, p, true, y), g, false, u), true, p, false);
    SetRed(p, false, s);
    RecolorRoot(Snap(s), root.node, d, Node(Node(x, p, false, y), g, false, u), true);
    SetRed(gparent, true, s);
    RotateRight(gparent, root, s, d, Node(Node(x, p, false, y), g, true, u));
  }

  /** The parent is a left child and the uncle is black. */
  method RotateRoundLeft(node: RbNode, parent: RbNode, gparent: RbNode, root: RbRoot,
                      ghost s: set<RbNode>, ghost c: Ctx<RbNode>, ghost t: Tree<RbNode>, ghost h: nat)
    returns (next: RbNode, ghost c': Ctx<RbNode>, ghost t': Tree<RbNode>)
    requires RedFocus(c, t, h) && HoleUnderRed(c) && c.up.InLeft? && !IsRed(c.up.r)
    requires Holds(Snap(s), root.node, c, t) && node == t.n && parent == c.n && gparent == c.up.n
    modifies s, root
    ensures Holds(Snap(s), root.node, c', t') && RedFocus(c', t', h) && !HoleUnderRed(c') && next == t'.n
    ensures Depth(c') < Depth(c) && InOrder(Plug(c', t')) == InOrder(Plug(c, t))
  {
    RedParent(c, t, h);
    hide Holds, Balanced, BalancedCtx, InOrder, Snap;
    ghost var d, u := c.up.up, c.up.r;
    var n, p, x, y := StraightenLeft(node, parent, root, s, c, t);
    HoldsUp(Snap(s), root.node, c.up, Node(x, p, true, y));
    LiftParentLeft(p, gparent, root, s, d, x, y, u);
    next, c', t' := n, InLeft(d, p, false, Node(y, gparent, true, u)), x;
    HoldsUp(Snap(s), root.node, c', t');
    RoundOrderLeft(c, t, x, p, y, gparent, u);
    RoundBalanceLeft(c, t, x, y, h);
    RotateRightKeeps(d, x, p, y, gparent, u, h);
  }

  lemma RoundOrderLeft<T>(c: Ctx<T>, t: Tree<T>, x: Tree<T>, p: T, y: Tree<T>, g: T, u: Tree<T>)
    requires t.Node? && !c.Top? && c.up.InLeft? && g == c.up.n && u == c.up.r
    requires if c.InLeft? then x == t && p == c.n && y == c.r else p == t.n && y == t.r
    requires c.InRight? ==> x == Node(c.l, c.n, true, t.l)
    ensures InOrder(Plug(c.up.up, Node(x, p, false, Node(y, g, true, u)))) == InOrder(Plug(c, t))
  {
    var f := Up(c, t);
    assert Plug(c, t) == Plug(c.up, f) == Plug(c.up.up, Up(c.up, f));
    if c.InRight? { RotationInOrder(f); }
    RotationInOrder(Node(Node(x, p, false, y), g, true, u));
    PlugSameOrder(c.up.up, Node(x, p, false, Node(y, g, true, u)), Up(c.up, f));
  }

  lemma RoundBalanceLeft<T>(c: Ctx<T>, t: Tree<T>, x: Tree<T>, y: Tree<T>, h: nat)
    requires RedFocus(c, t, h) && HoleUnderRed(c)
    requires if c.InLeft? then x == t && y == c.r else y == t.r && x == Node(c.l, c.n, true, t.l)
    ensures IsRed(x) && !IsRed(y) && Balanced(x, h) && Balanced(y, h)
  {
    RedParent(c, t, h);
  }

  /** If the node is on the inner side, a first rotation puts it in the place of its parent. */
  method StraightenRight(node: RbNode, parent: RbNode, root: RbRoot,
                     ghost s: set<RbNode>, ghost c: Ctx<RbNode>, ghost t: Tree<RbNode>)
    returns (n: RbNode, p: RbNode, ghost x: Tree<RbNode>, ghost y: Tree<RbNode>)
    requires t.Node? && t.red && HoleUnderRed(c) && !c.up.Top?
    requires Holds(Snap(s), root.node, c, t) && node == t.n && parent == c.n
    modifies s, root
    ensures if c.InRight? then x == t && p == c.n && y == c.l
      else p == t.n && y == t.l && x == Node(t.r, c.n, true, c.r)
    ensures x.Node? && x.n == n
    ensures Holds(Snap(s), root.node, c.up, Node(y, p, true, x))
  {
    ReadAround(Snap(s), root.node, c, t);
    HoldsUp(Snap(s), root.node, c, t);
    hide Holds;
    n, p, x, y := node, parent, t, if c.InRight? then c.l else t.l;
    if parent.left == node {
      RotateRight(parent, root, s, c.up, Up(c, t));
      n, p, x := parent, node, Node(t.r, c.n, true, c.r);
    }
  }

  /** Recolour, and rotate the parent into the place of the grandparent. */
  method LiftParentRight(p: RbNode, gparent: RbNode, root: RbRoot, ghost s: set<RbNode>, ghost d: Ctx<RbNode>,
                     ghost x: Tree<RbNode>, ghost y: Tree<RbNode>, ghost u: Tree<RbNode>)
    requires Holds(Snap(s), root.node, d, Node(u, gparent, false, Node(y, p, true, x)))
    modifies s, root
    ensures Holds(Snap(s), root.node, d, Node(Node(u, gparent, true, y), p, false, x))
  {
    assert gparent in Snap(s);
    hide Holds;
    ghost var g := gparent;
    RecolorSide(Snap(s), root.node, d, Node(u, g, false, Node(y, p, true, x)), false, p, false);
    SetRed(p, false, s);
    RecolorRoot(Snap(s), root.node, d, Node(u, g, false, Node(y, p, false, x)), true);
    SetRed(gparent, true, s);
    RotateLeft(gparent, root, s, d, Node(u, g, true, Node(y, p, false, x)));
  }

  /** The parent is a right child and the uncle is black. */
  method RotateRoundRight(node: RbNode, parent: RbNode, gparent: RbNode, root: RbRoot,
                      ghost s: set<RbNode>, ghost c: Ctx<RbNode>, ghost t: Tree<RbNode>, ghost h: nat)
    returns (next: RbNode, ghost c': Ctx<RbNode>, ghost t': Tree<RbNode>)
    requires RedFocus(c, t, h) && HoleUnderRed(c) && c.up.InRight? && !IsRed(c.up.l)
    requires Holds(Snap(s), root.node, c, t) && node == t.n && parent == c.n && gparent == c.up.n
    modifies s, root
    ensures Holds(Snap(s), root.node, c', t') && RedFocus(c', t', h) && !HoleUnderRed(c') && next == t'.n
    ensures Depth(c') < Depth(c) && InOrder(Plug(c', t')) == InOrder(Plug(c, t))
  {
    RedParent(c, t, h);
    hide Holds, Balanced, BalancedCtx, InOrder, Snap;
    ghost var d, u := c.up.up, c.up.l;
    var n, p, x, y := StraightenRight(node, parent, root, s, c, t);
    HoldsUp(Snap(s), root.node, c.up, Node(y, p, true, x));
    LiftParentRight(p, gparent, root, s, d, x, y, u);
    next, c', t' := n, InRight(Node(u, gparent, true, y), p, false, d), x;
    HoldsUp(Snap(s), root.node, c', t');
    RoundOrderRight(c, t, x, p, y, gparent, u);
    RoundBalanceRight(c, t, x, y, h);
    RotateLeftKeeps(d, x, p, y, gparent, u, h);
  }

  lemma RoundOrderRight<T>(c: Ctx<T>, t: Tree<T>, x: Tree<T>, p: T, y: Tree<T>, g: T, u: Tree<T>)
    requires t.Node? && !c.Top? && c.up.InRight? && g == c.up.n && u == c.up.l
    requires if c.InRight? then x == t && p == c.n && y == c.l else p == t.n && y == t.l
    requires c.InLeft? ==> x == Node(t.r, c.n, true, c.r)
    ensures InOrder(Plug(c.up.up, Node(Node(u, g, true, y), p, false, x))) == InOrder(Plug(c, t))
  {
    var f := Up(c, t);
    assert Plug(c, t) == Plug(c.up, f) == Plug(c.up.up, Up(c.up, f));
    if c.InLeft? { RotationInOrder(f); }
    RotationInOrder(Node(u, g, true, Node(y, p, false, x)));
    PlugSameOrder(c.up.up, Node(Node(u, g, true, y), p, false, x), Up(c.up, f));
  }

  lemma RoundBalanceRight<T>(c: Ctx<T>, t: Tree<T>, x: Tree<T>, y: Tree<T>, h: nat)
    requires RedFocus(c, t, h) && HoleUnderRed(c)
    requires if c.InRight? then x == t && y == c.l else y == t.l && x == Node(t.r, c.n, true, c.r)
    ensures IsRed(x) && !IsRed(y) && Balanced(x, h) && Balanced(y, h)
  {
    RedParent(c, t, h);
  }

  // ----- The loop

  /** One round of the loop of rb_insert_color. */
  method InsertRound(node: RbNode, parent: RbNode, root: RbRoot,
                     ghost s: set<RbNode>, ghost c: Ctx<RbNode>, ghost t: Tree<RbNode>, ghost h: nat)
    returns (next: RbNode, ghost c': Ctx<RbNode>, ghost t': Tree<RbNode>, ghost h': nat)
    requires RedFocus(c, t, h) && HoleUnderRed(c)
    requires Holds(Snap(s), root.node, c, t) && node == t.n && parent == c.n
    modifies s, root
    ensures Holds(Snap(s), root.node, c', t') && RedFocus(c', t', h') && next == t'.n
    ensures Depth(c') < Depth(c) && InOrder(Plug(c', t')) == InOrder(Plug(c, t))
  {
    RedParent(c, t, h);
    ReadAround(Snap(s), root.node, c, t);
    hide Holds, Balanced, BalancedCtx, InOrder;
    h' := h;
    var gparent := parent.parent;
    if parent == gparent.left {
      var uncle := gparent.right;
      if uncle != null && uncle.red {
        next, c', t', h' := RecolorAndMoveUp(parent, gparent, uncle, root, s, c, t, h);
      } else {
        next, c', t' := RotateRoundLeft(node, parent, gparent, root, s, c, t, h);
      }
    } else {
      var uncle := gparent.left;
      if uncle != null && uncle.red {
        next, c', t', h' := RecolorAndMoveUp(parent, gparent, uncle, root, s, c, t, h);
      } else {
        next, c', t' := RotateRoundRight(node, parent, gparent, root, s, c, t, h);
      }
    }
  }

  method RecolorAndMoveUp(parent: RbNode, gparent: RbNode, uncle: RbNode, root: RbRoot,
                          ghost s: set<RbNode>, ghost c: Ctx<RbNode>, ghost t: Tree<RbNode>, ghost h: nat)
    returns (next: RbNode, ghost c': Ctx<RbNode>, ghost t': Tree<RbNode>, ghost h': nat)
    requires RedFocus(c, t, h) && HoleUnderRed(c) && !c.up.Top?
    requires Holds(Snap(s), root.node, c, t) && parent == c.n && gparent == c.up.n
    requires var u := if c.up.InLeft? then c.up.r else c.up.l; IsRed(u) && u.n == uncle
    modifies s
    ensures Holds(Snap(s), root.node, c', t') && RedFocus(c', t', h') && next == t'.n
    ensures Depth(c') < Depth(c) && InOrder(Plug(c', t')) == InOrder(Plug(c, t))
  {
    hide Holds, Balanced, BalancedCtx;
    ghost var g := Up(c.up, Up(c, t));
    RecolorKeeps(c, t, h);
    RecolorRound(parent, gparent, uncle, root, s, c, t);
    next, c', t', h' := gparent, c.up.up, Recolored(g), h + 1;
    PlugSameOrder(c', t', g);
  }

  /** A red node has been linked in at the focus; afterwards the tree is red-black, with the same nodes in order. */
  method RbInsertColor(node: RbNode, root: RbRoot,
                       ghost s: set<RbNode>, ghost c0: Ctx<RbNode>, ghost t0: Tree<RbNode>, ghost h0: nat)
    returns (ghost t: Tree<RbNode>)
    requires Holds(Snap(s), root.node, c0, t0) && RedFocus(c0, t0, h0) && node == t0.n
    modifies s, root
    ensures Holds(Snap(s), root.node, Top, t) && IsRedBlack(t)
    ensures InOrder(t) == InOrder(Plug(c0, t0))
  {
    var n := node;
    ghost var c, u, h := c0, t0, h0;
    ReadParent(Snap(s), root.node, c, u);
    var parent := n.parent;
    while parent != null && parent.red
      invariant Holds(Snap(s), root.node, c, u) && RedFocus(c, u, h) && n == u.n
      invariant parent == ParentOf(c) && (parent != null ==> parent.red == c.red)
      invariant InOrder(Plug(c, u)) == InOrder(Plug(c0, t0))
      decreases Depth(c)
    {
      hide Holds, RedFocus, InOrder, Plug;
      n, c, u, h := InsertRound(n, parent, root, s, c, u, h);
      ReadParent(Snap(s), root.node, c, u);
      parent := n.parent;
    }
    HoldsPlug(Snap(s), root.node, c, u);
    BlackRoot(c, u, h);
    t := Plug(c, u).(red := false);
    RecolorRoot(Snap(s), root.node, Top, Plug(c, u), false);
    SetRed(root.node, false, s);
  }

  lemma ReadParent(m: Mem, root: RbNode?, c: Ctx<RbNode>, t: Tree<RbNode>)
    requires Holds(m, root, c, t) && IsRed(t)
    ensures t.n in m && m[t.n].parent == ParentOf(c)
    ensures !c.Top? ==> c.n in m && m[c.n].red == c.red
  {
  }

  lemma {:induction false} PlugNode<T>(c: Ctx<T>, t: Tree<T>)
    requires t.Node?
    ensures Plug(c, t).Node?
    decreases c
  {
    if !c.Top? { PlugNode(c.up, Up(c, t)); }
  }

  lemma BlackRoot<T>(c: Ctx<T>, t: Tree<T>, h: nat)
    requires RedFocus(c, t, h) && !HoleUnderRed(c)
    ensures Plug(c, t).Node? && IsRedBlack(Plug(c, t).(red := false))
    ensures InOrder(Plug(c, t).(red := false)) == InOrder(Plug(c, t))
  {
    PlugNode(c, t);
    if c.Top? {
      Blackened(t, h);
    } else {
      PlugBalanced(c, t, h);
      assert Plug(c, t).(red := false) == Plug(c, t);
    }
  }
}
