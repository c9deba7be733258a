/** __rb_erase_color: repair the tree after a black node has been taken out. */
module RbEraseColor {
  import opened RbShape
  import opened RbMemory
  import opened RbRotate
  import opened RbDeficit

  /** The fields that a round reads around the sibling. */
  lemma ReadSibling(m: Mem, root: RbNode?, c: Ctx<RbNode>, t: Tree<RbNode>)
    requires Holds(m, root, c, t) && !c.Top?
    ensures c.n in m && m[c.n].red == c.red && m[c.n].parent == ParentOf(c.up)
    ensures c.InLeft? ==> m[c.n].left == RootOf(t) && m[c.n].right == RootOf(c.r)
    ensures c.InRight? ==> m[c.n].right == RootOf(t) && m[c.n].left == RootOf(c.l)
    ensures Sibling(c).Node? ==> ReadsNode(m, Sibling(c))
  {
    if Sibling(c).Node? { ReadNode(m, Sibling(c), c.n); }
  }

  /** A node and its children, as they are in memory. */
  ghost predicate ReadsNode(m: Mem, w: Tree<RbNode>)
    requires w.Node?
  {
    && w.n in m && m[w.n].red == w.red && m[w.n].left == RootOf(w.l) && m[w.n].right == RootOf(w.r)
    && (w.l.Node? ==> w.l.n in m && m[w.l.n].red == w.l.red)
    && (w.r.Node? ==> w.r.n in m && m[w.r.n].red == w.r.red)
  }

  lemma ReadNode(m: Mem, w: Tree<RbNode>, p: RbNode?)
    requires Shape(m, w, p) && w.Node?
    ensures ReadsNode(m, w)
  {
    assert Shape(m, w.l, w.n) && Shape(m, w.r, w.n);
  }

  lemma ReadRoot(m: Mem, root: RbNode?, c: Ctx<RbNode>, t: Tree<RbNode>)
    requires Holds(m, root, c, t) && t.Node?
    ensures t.n in m && m[t.n].parent == ParentOf(c) && m[t.n].red == t.red
  {
  }

  /** What is left to do: the way up, and one round more while the focus is black. */
  ghost function Effort(c: Ctx<RbNode>, t: Tree<RbNode>): nat {
    2 * Depth(c) + if IsRed(t) then 0 else 1
  }

  // ----- The short subtree is a left child

  method RotateRedSiblingLeft(parent: RbNode, other: RbNode, root: RbRoot,
                          ghost s: set<RbNode>, ghost c: Ctx<RbNode>, ghost t: Tree<RbNode>)
    requires c.InLeft? && Sibling(c).Node? && parent == c.n && other == Sibling(c).n
    requires Holds(Snap(s), root.node, c, t)
    modifies s, root
    ensures Holds(Snap(s), root.node, AfterRedSibling(c), t)
  {
    ghost var p, w := c.n, c.r;
    HoldsUp(Snap(s), root.node, c, t);
    assert parent in Snap(s);
    hide Holds;
    RecolorSide(Snap(s), root.node, c.up, Node(t, p, c.red, w), false, other, false);
    SetRed(other, false, s);
    RecolorRoot(Snap(s), root.node, c.up, Node(t, p, c.red, w.(red := false)), true);
    SetRed(parent, true, s);
    RotateLeft(parent, root, s, c.up, Node(t, p, true, w.(red := false)));
    ghost var c' := AfterRedSibling(c);
    HoldsUp(Snap(s), root.node, c'.up, Up(c', t));
    HoldsUp(Snap(s), root.node, c', t);
  }

  method RotateNearNephewLeft(other: RbNode, nephew: RbNode, root: RbRoot,
                          ghost s: set<RbNode>, ghost c: Ctx<RbNode>, ghost t: Tree<RbNode>)
    requires c.InLeft? && Sibling(c).Node? && other == Sibling(c).n
    requires Sibling(c).l.Node? && nephew == Sibling(c).l.n
    requires Holds(Snap(s), root.node, c, t)
    modifies s, root
    ensures Holds(Snap(s), root.node, NearRotated(c), t)
  {
    ghost var p, w := c.n, c.r;
    ghost var d := InRight(t, p, c.red, c.up);
    HoldsUp(Snap(s), root.node, c, t);
    HoldsUp(Snap(s), root.node, d, w);
    assert other in Snap(s);
    hide Holds;
    RecolorSide(Snap(s), root.node, d, w, !false, nephew, false);
    SetRed(nephew, false, s);
    ghost var w1 := WithSideRed(w, !false, false);
    RecolorRoot(Snap(s), root.node, d, w1, true);
    SetRed(other, true, s);
    RotateRight(other, root, s, d, w1.(red := true));
    ghost var c' := NearRotated(c);
    HoldsUp(Snap(s), root.node, d, Sibling(c'));
    HoldsUp(Snap(s), root.node, c', t);
  }

  method RotateFarNephewLeft(parent: RbNode, other: RbNode, root: RbRoot,
                         ghost s: set<RbNode>, ghost c: Ctx<RbNode>, ghost t: Tree<RbNode>)
    requires c.InLeft? && FarNephewRed(c) && parent == c.n && other == Sibling(c).n
    requires Holds(Snap(s), root.node, c, t)
    modifies s, root
    ensures Holds(Snap(s), root.node, c.up, FarRotated(c, t))
  {
    ghost var p, w := c.n, c.r;
    HoldsUp(Snap(s), root.node, c, t);
    ReadSibling(Snap(s), root.node, c, t);
    hide Holds;
    var color := parent.red;
    RecolorSide(Snap(s), root.node, c.up, Node(t, p, c.red, w), false, other, c.red);
    SetRed(other, color, s);
    RecolorRoot(Snap(s), root.node, c.up, Node(t, p, c.red, w.(red := c.red)), false);
    SetRed(parent, false, s);
    BlackenFarLeft(other, root, s, InRight(t, p, false, c.up), w.(red := c.red));
    HoldsUp(Snap(s), root.node, InRight(t, p, false, c.up), w.(red := c.red, r := w.r.(red := false)));
    RotateLeft(parent, root, s, c.up, Node(t, p, false, w.(red := c.red, r := w.r.(red := false))));
  }

  method BlackenFarLeft(other: RbNode, root: RbRoot, ghost s: set<RbNode>, ghost d: Ctx<RbNode>, ghost w: Tree<RbNode>)
    requires w.Node? && w.r.Node? && other == w.n && !d.Top?
    requires Holds(Snap(s), root.node, d.up, Up(d, w))
    modifies s
    ensures Holds(Snap(s), root.node, d, w.(r := w.r.(red := false)))
  {
    HoldsUp(Snap(s), root.node, d, w);
    assert other in s && other.right == w.r.n;
    hide Holds;
    RecolorSide(Snap(s), root.node, d, w, false, w.r.n, false);
    if other.right != null {
      SetRed(other.right, false, s);
    }
  }

  /** One round for a short left child. */
  method EraseRoundLeft(parent: RbNode, root: RbRoot,
                    ghost s: set<RbNode>, ghost c0: Ctx<RbNode>, ghost t: Tree<RbNode>, ghost h: nat)
    returns (done: bool, node: RbNode?, above: RbNode?, ghost c': Ctx<RbNode>, ghost t': Tree<RbNode>, ghost h': nat)
    requires Holds(Snap(s), root.node, c0, t) && Deficit(c0, t, h) && !IsRed(t) && c0.InLeft? && parent == c0.n
    modifies s, root
    ensures Holds(Snap(s), root.node, c', t') && InOrder(Plug(c', t')) == InOrder(Plug(c0, t))
    ensures done ==> c'.Top? && IsRedBlack(t')
    ensures !done ==> Deficit(c', t', h') && Effort(c', t') < Effort(c0, t)
    ensures !done ==> node == RootOf(t') && above == ParentOf(c')
  {
    ghost var c := c0;
    SiblingExists(c, t, h);
    ReadSibling(Snap(s), root.node, c, t);
    hide Holds, Balanced, BalancedCtx, InOrder, Plug, Snap;
    var other := parent.right;
    if other.red {
      RedSibling(c, t, h);
      RotateRedSiblingLeft(parent, other, root, s, c, t);
      c := AfterRedSibling(c);
      SiblingExists(c, t, h);
      ReadSibling(Snap(s), root.node, c, t);
      other := parent.right;
    }
    done, node, above, c', t', h' := BlackSiblingLeft(parent, other, root, s, c, t, h);
  }

  method BlackSiblingLeft(parent: RbNode, other0: RbNode, root: RbRoot,
                      ghost s: set<RbNode>, ghost c0: Ctx<RbNode>, ghost t: Tree<RbNode>, ghost h: nat)
    returns (done: bool, node: RbNode?, above: RbNode?, ghost c': Ctx<RbNode>, ghost t': Tree<RbNode>, ghost h': nat)
    requires Holds(Snap(s), root.node, c0, t) && Deficit(c0, t, h) && !IsRed(t) && c0.InLeft? && parent == c0.n
    requires var w := Sibling(c0); w.Node? && !w.red && other0 == w.n
    modifies s, root
    ensures Holds(Snap(s), root.node, c', t') && InOrder(Plug(c', t')) == InOrder(Plug(c0, t))
    ensures done ==> c'.Top? && IsRedBlack(t')
    ensures !done ==> Deficit(c', t', h') && c' == c0.up && t'.Node? && t'.red == c0.red
    ensures !done ==> node == RootOf(t') && above == ParentOf(c')
  {
    ghost var c := c0;
    ReadSibling(Snap(s), root.node, c, t);
    hide Holds, Balanced, BalancedCtx, InOrder, Snap;
    var other := other0;
    assert Plug(Top, t) == t;
    done, node, above, c', t', h' := true, null, null, Top, t, 0;
    if (other.left == null || !other.left.red) && (other.right == null || !other.right.red) {
      BlackNephews(c, t, h);
      HoldsUp(Snap(s), root.node, c, t);
      RecolorSide(Snap(s), root.node, c.up, Up(c, t), false, other, true);
      SetRed(other, true, s);
      c', t', h' := c.up, BlackSiblingRed(c, t), if c.red then h else h + 1;
      ReadRoot(Snap(s), root.node, c', t');
      done, node, above := false, parent, parent.parent;
    } else {
      t' := RedNephewLeft(parent, other, root, s, c, t, h);
    }
  }

  /** One of the sibling's children is red: one or two rotations finish. */
  method RedNephewLeft(parent: RbNode, other0: RbNode, root: RbRoot,
                   ghost s: set<RbNode>, ghost c0: Ctx<RbNode>, ghost t: Tree<RbNode>, ghost h: nat)
    returns (ghost t': Tree<RbNode>)
    requires Holds(Snap(s), root.node, c0, t) && Deficit(c0, t, h) && !IsRed(t) && c0.InLeft? && parent == c0.n
    requires var w := Sibling(c0); w.Node? && !w.red && other0 == w.n && (IsRed(w.l) || IsRed(w.r))
    modifies s, root
    ensures Holds(Snap(s), root.node, Top, t') && IsRedBlack(t') && InOrder(t') == InOrder(Plug(c0, t))
  {
    ghost var c := c0;
    ReadSibling(Snap(s), root.node, c, t);
    hide Holds, Balanced, BalancedCtx, InOrder, Snap, Plug;
    var other := other0;
    if other.right == null || !other.right.red {
      NearNephewRed(c, t, h);
      RotateNearNephewLeft(other, other.left, root, s, c, t);
      c := NearRotated(c);
      ReadSibling(Snap(s), root.node, c, t);
      other := parent.right;
    }
    FarNephew(c, t, h);
    RotateFarNephewLeft(parent, other, root, s, c, t);
    HoldsPlug(Snap(s), root.node, c.up, FarRotated(c, t));
    t' := Plug(c.up, FarRotated(c, t));
  }

  // ----- The short subtree is a right child

  method RotateRedSiblingRight(parent: RbNode, other: RbNode, root: RbRoot,
                          ghost s: set<RbNode>, ghost c: Ctx<RbNode>, ghost t: Tree<RbNode>)
    requires c.InRight? && Sibling(c).Node? && parent == c.n && other == Sibling(c).n
    requires Holds(Snap(s), root.node, c, t)
    modifies s, root
    ensures Holds(Snap(s), root.node, AfterRedSibling(c), t)
  {
    ghost var p, w := c.n, c.l;
    HoldsUp(Snap(s), root.node, c, t);
    assert parent in Snap(s);
    hide Holds;
    RecolorSide(Snap(s), root.node, c.up, Node(w, p, c.red, t), true, other, false);
    SetRed(other, false, s);
    RecolorRoot(Snap(s), root.node, c.up, Node(w.(red := false), p, c.red, t), true);
    SetRed(parent, true, s);
    RotateRight(parent, root, s, c.up, Node(w.(red := false), p, true, t));
    ghost var c' := AfterRedSibling(c);
    HoldsUp(Snap(s), root.node, c'.up, Up(c', t));
    HoldsUp(Snap(s), root.node, c', t);
  }

  method RotateNearNephewRight(other: RbNode, nephew: RbNode, root: RbRoot,
                          ghost s: set<RbNode>, ghost c: Ctx<RbNode>, ghost t: Tree<RbNode>)
    requires c.InRight? && Sibling(c).Node? && other == Sibling(c).n
    requires Sibling(c).r.Node? && nephew == Sibling(c).r.n
    requires Holds(Snap(s), root.node, c, t)
    modifies s, root
    ensures Holds(Snap(s), root.node, NearRotated(c), t)
  {
    ghost var p, w := c.n, c.l;
    ghost var d := InLeft(c.up, p, c.red, t);
    HoldsUp(Snap(s), root.node, c, t);
    HoldsUp(Snap(s), root.node, d, w);
    assert other in Snap(s);
    hide Holds;
    RecolorSide(Snap(s), root.node, d, w, !true, nephew, false);
    SetRed(nephew, false, s);
    ghost var w1 := WithSideRed(w, !true, false);
    RecolorRoot(Snap(s), root.node, d, w1, true);
    SetRed(other, true, s);
    RotateLeft(other, root, s, d, w1.(red := true));
    ghost var c' := NearRotated(c);
    HoldsUp(Snap(s), root.node, d, Sibling(c'));
    HoldsUp(Snap(s), root.node, c', t);
  }

  method RotateFarNephewRight(parent: RbNode, other: RbNode, root: RbRoot,
                         ghost s: set<RbNode>, ghost c: Ctx<RbNode>, ghost t: Tree<RbNode>)
    requires c.InRight? && FarNephewRed(c) && parent == c.n && other == Sibling(c).n
    requires Holds(Snap(s), root.node, c, t)
    modifies s, root
    ensures Holds(Snap(s), root.node, c.up, FarRotated(c, t))
  {
    ghost var p, w := c.n, c.l;
    HoldsUp(Snap(s), root.node, c, t);
    ReadSibling(Snap(s), root.node, c, t);
    hide Holds;
    var color := parent.red;
    RecolorSide(Snap(s), root.node, c.up, Node(w, p, c.red, t), true, other, c.red);
    SetRed(other, color, s);
    RecolorRoot(Snap(s), root.node, c.up, Node(w.(red := c.red), p, c.red, t), false);
    SetRed(parent, false, s);
    BlackenFarRight(other, root, s, InLeft(c.up, p, false, t), w.(red := c.red));
    HoldsUp(Snap(s), root.node, InLeft(c.up, p, false, t), w.(red := c.red, l := w.l.(red := false)));
    RotateRight(parent, root, s, c.up, Node(w.(red := c.red, l := w.l.(red := false)), p, false, t));
  }

  method BlackenFarRight(other: RbNode, root: RbRoot, ghost s: set<RbNode>, ghost d: Ctx<RbNode>, ghost w: Tree<RbNode>)
    requires w.Node? && w.l.Node? && other == w.n && !d.Top?
    requires Holds(Snap(s), root.node, d.up, Up(d, w))
    modifies s
    ensures Holds(Snap(s), root.node, d, w.(l := w.l.(red := false)))
  {
    HoldsUp(Snap(s), root.node, d, w);
    assert other in s && other.left == w.l.n;
    hide Holds;
    RecolorSide(Snap(s), root.node, d, w, true, w.l.n, false);
    if other.left != null {
      SetRed(other.left, false, s);
    }
  }

  /** One round for a short right child. */
  method EraseRoundRight(parent: RbNode, root: RbRoot,
                    ghost s: set<RbNode>, ghost c0: Ctx<RbNode>, ghost t: Tree<RbNode>, ghost h: nat)
    returns (done: bool, node: RbNode?, above: RbNode?, ghost c': Ctx<RbNode>, ghost t': Tree<RbNode>, ghost h': nat)
    requires Holds(Snap(s), root.node, c0, t) && Deficit(c0, t, h) && !IsRed(t) && c0.InRight? && parent == c0.n
    modifies s, root
    ensures Holds(Snap(s), root.node, c', t') && InOrder(Plug(c', t')) == InOrder(Plug(c0, t))
    ensures done ==> c'.Top? && IsRedBlack(t')
    ensures !done ==> Deficit(c', t', h') && Effort(c', t') < Effort(c0, t)
    ensures !done ==> node == RootOf(t') && above == ParentOf(c')
  {
    ghost var c := c0;
    SiblingExists(c, t, h);
    ReadSibling(Snap(s), root.node, c, t);
    hide Holds, Balanced, BalancedCtx, InOrder, Plug, Snap;
    var other := parent.left;
    if other.red {
      RedSibling(c, t, h);
      RotateRedSiblingRight(parent, other, root, s, c, t);
      c := AfterRedSibling(c);
      SiblingExists(c, t, h);
      ReadSibling(Snap(s), root.node, c, t);
      other := parent.left;
    }
    done, node, above, c', t', h' := BlackSiblingRight(parent, other, root, s, c, t, h);
  }

  method BlackSiblingRight(parent: RbNode, other0: RbNode, root: RbRoot,
                      ghost s: set<RbNode>, ghost c0: Ctx<RbNode>, ghost t: Tree<RbNode>, ghost h: nat)
    returns (done: bool, node: RbNode?, above: RbNode?, ghost c': Ctx<RbNode>, ghost t': Tree<RbNode>, ghost h': nat)
    requires Holds(Snap(s), root.node, c0, t) && Deficit(c0, t, h) && !IsRed(t) && c0.InRight? && parent == c0.n
    requires var w := Sibling(c0); w.Node? && !w.red && other0 == w.n
    modifies s, root
    ensures Holds(Snap(s), root.node, c', t') && InOrder(Plug(c', t')) == InOrder(Plug(c0, t))
    ensures done ==> c'.Top? && IsRedBlack(t')
    ensures !done ==> Deficit(c', t', h') && c' == c0.up && t'.Node? && t'.red == c0.red
    ensures !done ==> node == RootOf(t') && above == ParentOf(c')
  {
    ghost var c := c0;
    ReadSibling(Snap(s), root.node, c, t);
    hide Holds, Balanced, BalancedCtx, InOrder, Snap;
    var other := other0;
    assert Plug(Top, t) == t;
    done, node, above, c', t', h' := true, null, null, Top, t, 0;
    if (other.left == null || !other.left.red) && (other.right == null || !other.right.red) {
      BlackNephews(c, t, h);
      HoldsUp(Snap(s), root.node, c, t);
      RecolorSide(Snap(s), root.node, c.up, Up(c, t), true, other, true);
      SetRed(other, true, s);
      c', t', h' := c.up, BlackSiblingRed(c, t), if c.red then h else h + 1;
      ReadRoot(Snap(s), root.node, c', t');
      done, node, above := false, parent, parent.parent;
    } else {
      t' := RedNephewRight(parent, other, root, s, c, t, h);
    }
  }

  /** One of the sibling's children is red: one or two rotations finish. */
  method RedNephewRight(parent: RbNode, other0: RbNode, root: RbRoot,
                   ghost s: set<RbNode>, ghost c0: Ctx<RbNode>, ghost t: Tree<RbNode>, ghost h: nat)
    returns (ghost t': Tree<RbNode>)
    requires Holds(Snap(s), root.node, c0, t) && Deficit(c0, t, h) && !IsRed(t) && c0.InRight? && parent == c0.n
    requires var w := Sibling(c0); w.Node? && !w.red && other0 == w.n && (IsRed(w.l) || IsRed(w.r))
    modifies s, root
    ensures Holds(Snap(s), root.node, Top, t') && IsRedBlack(t') && InOrder(t') == InOrder(Plug(c0, t))
  {
    ghost var c := c0;
    ReadSibling(Snap(s), root.node, c, t);
    hide Holds, Balanced, BalancedCtx, InOrder, Snap, Plug;
    var other := other0;
    if other.left == null || !other.left.red {
      NearNephewRed(c, t, h);
      RotateNearNephewRight(other, other.right, root, s, c, t);
      c := NearRotated(c);
      ReadSibling(Snap(s), root.node, c, t);
      other := parent.left;
    }
    FarNephew(c, t, h);
    RotateFarNephewRight(parent, other, root, s, c, t);
    HoldsPlug(Snap(s), root.node, c.up, FarRotated(c, t));
    t' := Plug(c.up, FarRotated(c, t));
  }

  /** The loop: the focus t lacks a black node; afterwards the tree is red-black, with the same nodes in order. */
  method RbEraseColor(node0: RbNode?, parent0: RbNode?, root: RbRoot,
                      ghost s: set<RbNode>, ghost c0: Ctx<RbNode>, ghost t0: Tree<RbNode>, ghost h0: nat)
    returns (ghost t': Tree<RbNode>)
    requires Holds(Snap(s), root.node, c0, t0) && Deficit(c0, t0, h0)
    requires node0 == RootOf(t0) && parent0 == ParentOf(c0)
    modifies s, root
    ensures Holds(Snap(s), root.node, Top, t') && IsRedBlack(t') && InOrder(t') == InOrder(Plug(c0, t0))
  {
    var node, parent := node0, parent0;
    ghost var c, t, h := c0, t0, h0;
    ReadFocus(Snap(s), root.node, c, t);
    while (node == null || !node.red) && node != root.node
      invariant Holds(Snap(s), root.node, c, t) && Deficit(c, t, h)
      invariant node == RootOf(t) && parent == ParentOf(c) && (node != null ==> node.red == t.red)
      invariant node == root.node <==> c.Top?
      invariant InOrder(Plug(c, t)) == InOrder(Plug(c0, t0))
      decreases Effort(c, t)
    {
      ReadLeft(Snap(s), root.node, c, t, h);
      hide Holds, Deficit, InOrder, Plug;
      var done;
      if parent.left == node {
        done, node, parent, c, t, h := EraseRoundLeft(parent, root, s, c, t, h);
      } else {
        done, node, parent, c, t, h := EraseRoundRight(parent, root, s, c, t, h);
      }
      if done {
        t' := BlackRootAgain(root, s, c, t);
        return;
      }
      ReadFocus(Snap(s), root.node, c, t);
    }
    Repaid(c, t, h);
    if node != null {
      RecolorRoot(Snap(s), root.node, c, t, false);
      SetRed(node, false, s);
      t := t.(red := false);
    }
    HoldsPlug(Snap(s), root.node, c, t);
    t' := Plug(c, t);
  }

  lemma ReadFocus(m: Mem, root: RbNode?, c: Ctx<RbNode>, t: Tree<RbNode>)
    requires Holds(m, root, c, t)
    ensures t.Node? ==> t.n in m && m[t.n].red == t.red
    ensures RootOf(t) == root <==> c.Top?
  {
    CtxRoot(m, c, RootOf(t), root);
  }

  lemma {:induction false} CtxRoot(m: Mem, c: Ctx<RbNode>, h: RbNode?, root: RbNode?)
    requires CtxShape(m, c, h, root)
    ensures if c.Top? then root == h else root in CtxElems(c)
    decreases c
  {
    if !c.Top? { CtxRoot(m, c.up, c.n, root); }
  }

  /** The parent's left pointer tells the sides apart, although the short subtree may be empty. */
  lemma ReadLeft(m: Mem, root: RbNode?, c: Ctx<RbNode>, t: Tree<RbNode>, h: nat)
    requires Holds(m, root, c, t) && Deficit(c, t, h) && !c.Top?
    ensures c.n in m && (m[c.n].left == RootOf(t) <==> c.InLeft?)
  {
    SiblingExists(c, t, h);
  }

  /** node = root->rb_node; break; and then the root is set black, as it already is. */
  method BlackRootAgain(root: RbRoot, ghost s: set<RbNode>, ghost c: Ctx<RbNode>, ghost t: Tree<RbNode>)
    returns (ghost t': Tree<RbNode>)
    requires Holds(Snap(s), root.node, c, t) && c.Top? && IsRedBlack(t)
    modifies s
    ensures Holds(Snap(s), root.node, Top, t') && IsRedBlack(t') && t' == t
  {
    t' := t;
    var node := root.node;
    if node != null {
      RecolorRoot(Snap(s), root.node, c, t, false);
      SetRed(node, false, s);
    }
  }
}
