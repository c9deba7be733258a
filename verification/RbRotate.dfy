/** The two rotations of rbtree.c. */
module RbRotate {
  import opened RbShape
  import opened RbMemory

  ghost predicate LeansRight<T>(t: Tree<T>) {
    t.Node? && t.r.Node?
  }

  ghost predicate LeansLeft<T>(t: Tree<T>) {
    t.Node? && t.l.Node?
  }

  ghost function RotatedLeft<T>(t: Tree<T>): Tree<T>
    requires LeansRight(t)
  {
    Node(Node(t.l, t.n, t.red, t.r.l), t.r.n, t.r.red, t.r.r)
  }

  ghost function RotatedRight<T>(t: Tree<T>): Tree<T>
    requires LeansLeft(t)
  {
    Node(t.l.l, t.l.n, t.l.red, Node(t.l.r, t.n, t.red, t.r))
  }

  /** Rotations keep the order of the nodes. */
  lemma RotationInOrder<T>(t: Tree<T>)
    ensures LeansRight(t) ==> InOrder(RotatedLeft(t)) == InOrder(t)
    ensures LeansLeft(t) ==> InOrder(RotatedRight(t)) == InOrder(t)
  {
    if LeansRight(t) { Regroup(InOrder(t.l), [t.n], InOrder(t.r.l), [t.r.n], InOrder(t.r.r)); }
    if LeansLeft(t) { Regroup(InOrder(t.l.l), [t.l.n], InOrder(t.l.r), [t.n], InOrder(t.r)); }
  }

  /** Three subtrees, two nodes and a context, all without a node in common. */
  ghost predicate AllApart(a: Tree<RbNode>, x: RbNode, b: Tree<RbNode>, y: RbNode, d: Tree<RbNode>, c: Ctx<RbNode>) {
    && Separate(a) && Separate(b) && Separate(d) && CtxSeparate(c)
    && x != y && x !in Elems(a) + Elems(b) + Elems(d) + CtxElems(c)
    && y !in Elems(a) + Elems(b) + Elems(d) + CtxElems(c)
    && Elems(a) !! Elems(b) !! Elems(d) !! CtxElems(c)
  }

  lemma UnpackRight(m: Mem, root: RbNode?, c: Ctx<RbNode>, t: Tree<RbNode>)
    requires Holds(m, root, c, t) && LeansRight(t)
    ensures var x, y, a, b, d := t.n, t.r.n, t.l, t.r.l, t.r.r;
      && x in m && m[x] == Cell(RootOf(a), y, ParentOf(c), t.red)
      && y in m && m[y] == Cell(RootOf(b), RootOf(d), x, t.r.red)
      && Shape(m, a, x) && Shape(m, b, y) && Shape(m, d, y)
      && (RootOf(b) != null ==> RootOf(b) in m && RootOf(b) in Elems(b))
      && (!c.Top? ==> c.n in m && c.n in CtxElems(c))
      && AllApart(a, x, b, y, d, c)
  {
    assert Shape(m, t.r, t.n) && Separate(t.r);
    assert Shape(m, t.r.l, t.r.n) && Separate(t.r.l);
    assert Elems(t.r) == Elems(t.r.l) + {t.r.n} + Elems(t.r.r);
  }

  lemma UnpackLeft(m: Mem, root: RbNode?, c: Ctx<RbNode>, t: Tree<RbNode>)
    requires Holds(m, root, c, t) && LeansLeft(t)
    ensures var x, y, a, b, d := t.n, t.l.n, t.r, t.l.r, t.l.l;
      && x in m && m[x] == Cell(y, RootOf(a), ParentOf(c), t.red)
      && y in m && m[y] == Cell(RootOf(d), RootOf(b), x, t.l.red)
      && Shape(m, a, x) && Shape(m, b, y) && Shape(m, d, y)
      && (RootOf(b) != null ==> RootOf(b) in m && RootOf(b) in Elems(b))
      && (!c.Top? ==> c.n in m && c.n in CtxElems(c))
      && AllApart(a, x, b, y, d, c)
  {
    assert Shape(m, t.l, t.n) && Separate(t.l);
    assert Shape(m, t.l.r, t.l.n) && Separate(t.l.r);
    assert Elems(t.l) == Elems(t.l.l) + {t.l.n} + Elems(t.l.r);
  }

  /** The writes of __rb_rotate_left, in order. */
  ghost function LeftWrites(m: Mem, c: Ctx<RbNode>, x: RbNode, y: RbNode, b: RbNode?): Mem
    requires x in m && y in m && (b != null ==> b in m) && (!c.Top? ==> c.n in m)
  {
    PutParent(Rehung(LeftBelow(m, c, x, y, b), c, y), x, y)
  }

  ghost function LeftBelow(m: Mem, c: Ctx<RbNode>, x: RbNode, y: RbNode, b: RbNode?): (m': Mem)
    requires x in m && y in m && (b != null ==> b in m)
    ensures m'.Keys == m.Keys
  {
    PutParent(PutLeft(PutParent(PutRight(m, x, b), b, x), y, x), y, ParentOf(c))
  }

  /** The nodes that a rotation writes. */
  ghost function Touched(c: Ctx<RbNode>, x: RbNode, y: RbNode, b: RbNode?): set<RbNode> {
    {x, y} + (if b == null then {} else {b}) + (if c.Top? then {} else {c.n})
  }

  lemma LeftWritesCells(m: Mem, c: Ctx<RbNode>, x: RbNode, y: RbNode, b: RbNode?, m': Mem)
    requires x in m && y in m && (b != null ==> b in m) && (!c.Top? ==> c.n in m)
    requires x != y && b != x && b != y && (!c.Top? ==> c.n != x && c.n != y && c.n != b)
    requires m' == LeftWrites(m, c, x, y, b)
    ensures m'.Keys == m.Keys
    ensures m'[x] == m[x].(right := b, parent := y) && m'[y] == m[y].(left := x, parent := ParentOf(c))
    ensures b != null ==> m'[b] == m[b].(parent := x)
    ensures !c.Top? ==> m'[c.n] == Rehung(m, c, y)[c.n]
    ensures SameOn(m, m', m.Keys - Touched(c, x, y, b))
  {
  }

  lemma LeftWritesHold(m: Mem, root: RbNode?, root': RbNode?, c: Ctx<RbNode>, t: Tree<RbNode>, m': Mem)
    requires Holds(m, root, c, t) && LeansRight(t)
    requires root' == if c.Top? then t.r.n else root
    requires t.n in m && t.r.n in m && (t.r.l.Node? ==> t.r.l.n in m) && (!c.Top? ==> c.n in m)
    requires m' == LeftWrites(m, c, t.n, t.r.n, RootOf(t.r.l))
    ensures Holds(m', root', c, RotatedLeft(t))
  {
    var x, y, a, b, d := t.n, t.r.n, t.l, t.r.l, t.r.r;
    UnpackRight(m, root, c, t);
    assert CtxShape(m, c, x, root);
    hide Shape, CtxShape, Separate, CtxSeparate, Elems, CtxElems, LeftWrites, Holds;
    LeftWritesCells(m, c, x, y, RootOf(b), m');
    ShapeFrame(m, m', a, x);
    Reparented(m, m', b, y, x);
    ShapeFrame(m, m', d, y);
    ReholeCtx(m, m', c, x, y, root, root');
    PackLeft(m', root', c, a, x, t.red, b, y, t.r.red, d);
  }

  lemma PackLeft(m: Mem, root: RbNode?, c: Ctx<RbNode>, a: Tree<RbNode>, x: RbNode, xr: bool, b: Tree<RbNode>,
                 y: RbNode, yr: bool, d: Tree<RbNode>)
    requires x in m && m[x] == Cell(RootOf(a), RootOf(b), y, xr)
    requires y in m && m[y] == Cell(x, RootOf(d), ParentOf(c), yr)
    requires Shape(m, a, x) && Shape(m, b, x) && Shape(m, d, y) && CtxShape(m, c, y, root)
    requires AllApart(a, x, b, y, d, c)
    ensures Holds(m, root, c, Node(Node(a, x, xr, b), y, yr, d))
  {
    var t := Node(a, x, xr, b);
    PackNode(m, y, a, x, xr, b);
    hide Shape, Separate, Elems;
    PackNode(m, ParentOf(c), t, y, yr, d);
  }

  lemma PackNode(m: Mem, p: RbNode?, l: Tree<RbNode>, n: RbNode, red: bool, r: Tree<RbNode>)
    requires n in m && m[n] == Cell(RootOf(l), RootOf(r), p, red)
    requires Shape(m, l, n) && Shape(m, r, n) && Separate(l) && Separate(r)
    requires n !in Elems(l) && n !in Elems(r) && Elems(l) !! Elems(r)
    ensures var t := Node(l, n, red, r);
      Shape(m, t, p) && Separate(t) && Elems(t) == Elems(l) + {n} + Elems(r)
  {
  }

  lemma PackRight(m: Mem, root: RbNode?, c: Ctx<RbNode>, a: Tree<RbNode>, x: RbNode, xr: bool, b: Tree<RbNode>,
                  y: RbNode, yr: bool, d: Tree<RbNode>)
    requires x in m && m[x] == Cell(RootOf(b), RootOf(a), y, xr)
    requires y in m && m[y] == Cell(RootOf(d), x, ParentOf(c), yr)
    requires Shape(m, a, x) && Shape(m, b, x) && Shape(m, d, y) && CtxShape(m, c, y, root)
    requires AllApart(a, x, b, y, d, c)
    ensures Holds(m, root, c, Node(d, y, yr, Node(b, x, xr, a)))
  {
    var t := Node(b, x, xr, a);
    PackNode(m, y, b, x, xr, a);
    hide Shape, Separate, Elems;
    PackNode(m, ParentOf(c), d, y, yr, t);
  }

  ghost function RightWrites(m: Mem, c: Ctx<RbNode>, x: RbNode, y: RbNode, b: RbNode?): Mem
    requires x in m && y in m && (b != null ==> b in m) && (!c.Top? ==> c.n in m)
  {
    PutParent(Rehung(RightBelow(m, c, x, y, b), c, y), x, y)
  }

  ghost function RightBelow(m: Mem, c: Ctx<RbNode>, x: RbNode, y: RbNode, b: RbNode?): (m': Mem)
    requires x in m && y in m && (b != null ==> b in m)
    ensures m'.Keys == m.Keys
  {
    PutParent(PutRight(PutParent(PutLeft(m, x, b), b, x), y, x), y, ParentOf(c))
  }

  lemma RightWritesCells(m: Mem, c: Ctx<RbNode>, x: RbNode, y: RbNode, b: RbNode?, m': Mem)
    requires x in m && y in m && (b != null ==> b in m) && (!c.Top? ==> c.n in m)
    requires x != y && b != x && b != y && (!c.Top? ==> c.n != x && c.n != y && c.n != b)
    requires m' == RightWrites(m, c, x, y, b)
    ensures m'.Keys == m.Keys
    ensures m'[x] == m[x].(left := b, parent := y) && m'[y] == m[y].(right := x, parent := ParentOf(c))
    ensures b != null ==> m'[b] == m[b].(parent := x)
    ensures !c.Top? ==> m'[c.n] == Rehung(m, c, y)[c.n]
    ensures SameOn(m, m', m.Keys - Touched(c, x, y, b))
  {
  }

  lemma RightWritesHold(m: Mem, root: RbNode?, root': RbNode?, c: Ctx<RbNode>, t: Tree<RbNode>, m': Mem)
    requires Holds(m, root, c, t) && LeansLeft(t)
    requires root' == if c.Top? then t.l.n else root
    requires t.n in m && t.l.n in m && (t.l.r.Node? ==> t.l.r.n in m) && (!c.Top? ==> c.n in m)
    requires m' == RightWrites(m, c, t.n, t.l.n, RootOf(t.l.r))
    ensures Holds(m', root', c, RotatedRight(t))
  {
    var x, y, a, b, d := t.n, t.l.n, t.r, t.l.r, t.l.l;
    UnpackLeft(m, root, c, t);
    assert CtxShape(m, c, x, root);
    hide Shape, CtxShape, Separate, CtxSeparate, Elems, CtxElems, RightWrites, Holds;
    RightWritesCells(m, c, x, y, RootOf(b), m');
    ShapeFrame(m, m', a, x);
    Reparented(m, m', b, y, x);
    ShapeFrame(m, m', d, y);
    ReholeCtx(m, m', c, x, y, root, root');
    PackRight(m', root', c, a, x, t.red, b, y, t.l.red, d);
  }

  /** The parent's pointer to x, by which the code finds the side that x is on. */
  ghost predicate HangsFrom(m: Mem, c: Ctx<RbNode>, x: RbNode?) {
    match c
    case Top => true
    case InLeft(_, n, _, _) => n in m && m[n].left == x
    case InRight(_, n, _, _) => n in m && m[n].left != x && m[n].right == x
  }

  lemma HoldsHangs(m: Mem, root: RbNode?, c: Ctx<RbNode>, t: Tree<RbNode>)
    requires Holds(m, root, c, t) && t.Node?
    ensures HangsFrom(m, c, t.n) && m[t.n].parent == ParentOf(c)
  {
  }

  /** Put y where x hangs: below the parent, or at the root. */
  method Rehang(root: RbRoot, parent: RbNode?, x: RbNode, y: RbNode?, ghost s: set<RbNode>, ghost c: Ctx<RbNode>)
    requires parent == ParentOf(c) && HangsFrom(Snap(s), c, x)
    modifies s, root
    ensures !c.Top? ==> c.n in s
    ensures Snap(s) == Rehung(old(Snap(s)), c, y)
    ensures root.node == if c.Top? then y else old(root.node)
  {
    if parent != null {
      if parent.left == x {
        SetLeft(parent, y, s);
      } else {
        SetRight(parent, y, s);
      }
    } else {
      root.node := y;
    }
  }

  /** The pointers that a left rotation of x reads are those of distinct nodes. */
  ghost predicate LeftReady(m: Mem, c: Ctx<RbNode>, x: RbNode, y: RbNode, b: RbNode?) {
    && x in m && y in m && x != y && m[x].right == y && m[y].left == b && m[x].parent == ParentOf(c)
    && (b != null ==> b in m && b != x && b != y)
    && (!c.Top? ==> c.n in m && c.n != x && c.n != y && c.n != b) && HangsFrom(m, c, x)
  }

  ghost predicate RightReady(m: Mem, c: Ctx<RbNode>, x: RbNode, y: RbNode, b: RbNode?) {
    && x in m && y in m && x != y && m[x].left == y && m[y].right == b && m[x].parent == ParentOf(c)
    && (b != null ==> b in m && b != x && b != y)
    && (!c.Top? ==> c.n in m && c.n != x && c.n != y && c.n != b) && HangsFrom(m, c, x)
  }

  /** The writes of the left rotation below the parent of node. */
  method LeftInner(node: RbNode, right: RbNode, ghost s: set<RbNode>, ghost c: Ctx<RbNode>)
    requires LeftReady(Snap(s), c, node, right, right.left)
    modifies s
    ensures Snap(s) == old(LeftBelow(Snap(s), c, node, right, right.left))
  {
    var parent := node.parent;
    ghost var b := right.left;
    SetRight(node, right.left, s);
    ghost var m1 := Snap(s);
    if node.right != null {
      SetParent(right.left, node, s);
    }
    assert Snap(s) == PutParent(m1, b, node);
    SetLeft(right, node, s);
    SetParent(right, parent, s);
  }

  method RotateLeft(node: RbNode, root: RbRoot, ghost s: set<RbNode>, ghost c: Ctx<RbNode>, ghost t: Tree<RbNode>)
    requires Holds(Snap(s), root.node, c, t) && LeansRight(t) && node == t.n
    modifies s, root
    ensures Holds(Snap(s), root.node, c, RotatedLeft(t))
  {
    ghost var m, root0 := Snap(s), root.node;
    LeftIsReady(m, root0, c, t);
    hide Shape, CtxShape, Separate, CtxSeparate, Elems, CtxElems, Holds, LeftBelow;
    var right := node.right;
    var parent := node.parent;
    LeftInner(node, right, s, c);
    LeftBelowHangs(m, c, node, right, RootOf(t.r.l));
    Rehang(root, parent, node, right, s, c);
    var top := root.node;
    SetParent(node, right, s);
    assert root.node == top;
    LeftWritesHold(m, root0, root.node, c, t, Snap(s));
  }

  lemma LeftIsReady(m: Mem, root: RbNode?, c: Ctx<RbNode>, t: Tree<RbNode>)
    requires Holds(m, root, c, t) && LeansRight(t)
    ensures LeftReady(m, c, t.n, t.r.n, RootOf(t.r.l))
  {
    UnpackRight(m, root, c, t);
    HoldsHangs(m, root, c, t);
    hide Shape, CtxShape, Separate, CtxSeparate, Elems, CtxElems, Holds;
  }

  lemma LeftBelowHangs(m: Mem, c: Ctx<RbNode>, x: RbNode, y: RbNode, b: RbNode?)
    requires LeftReady(m, c, x, y, b)
    ensures HangsFrom(LeftBelow(m, c, x, y, b), c, x)
  {
  }

  /** The writes of the right rotation below the parent of node. */
  method RightInner(node: RbNode, left: RbNode, ghost s: set<RbNode>, ghost c: Ctx<RbNode>)
    requires RightReady(Snap(s), c, node, left, left.right)
    modifies s
    ensures Snap(s) == old(RightBelow(Snap(s), c, node, left, left.right))
  {
    var parent := node.parent;
    ghost var b := left.right;
    SetLeft(node, left.right, s);
    ghost var m1 := Snap(s);
    if node.left != null {
      SetParent(left.right, node, s);
    }
    assert Snap(s) == PutParent(m1, b, node);
    SetRight(left, node, s);
    SetParent(left, parent, s);
  }

  method RotateRight(node: RbNode, root: RbRoot, ghost s: set<RbNode>, ghost c: Ctx<RbNode>, ghost t: Tree<RbNode>)
    requires Holds(Snap(s), root.node, c, t) && LeansLeft(t) && node == t.n
    modifies s, root
    ensures Holds(Snap(s), root.node, c, RotatedRight(t))
  {
    ghost var m, root0 := Snap(s), root.node;
    RightIsReady(m, root0, c, t);
    hide Shape, CtxShape, Separate, CtxSeparate, Elems, CtxElems, Holds, RightBelow;
    var left := node.left;
    var parent := node.parent;
    RightInner(node, left, s, c);
    RightBelowHangs(m, c, node, left, RootOf(t.l.r));
    Rehang(root, parent, node, left, s, c);
    var top := root.node;
    SetParent(node, left, s);
    assert root.node == top;
    RightWritesHold(m, root0, root.node, c, t, Snap(s));
  }

  lemma RightIsReady(m: Mem, root: RbNode?, c: Ctx<RbNode>, t: Tree<RbNode>)
    requires Holds(m, root, c, t) && LeansLeft(t)
    ensures RightReady(m, c, t.n, t.l.n, RootOf(t.l.r))
  {
    UnpackLeft(m, root, c, t);
    HoldsHangs(m, root, c, t);
    hide Shape, CtxShape, Separate, CtxSeparate, Elems, CtxElems, Holds;
  }

  lemma RightBelowHangs(m: Mem, c: Ctx<RbNode>, x: RbNode, y: RbNode, b: RbNode?)
    requires RightReady(m, c, x, y, b)
    ensures HangsFrom(RightBelow(m, c, x, y, b), c, x)
  {
  }
}
