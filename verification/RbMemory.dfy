/** The nodes of rbtree.h in memory, and what it means that they hold a tree. */
module RbMemory {
  import opened RbShape

  class RbNode {
    var left: RbNode?
    var right: RbNode?
    var parent: RbNode?
    var red: bool

    constructor ()
      ensures left == null && right == null && parent == null && red
    {
      left, right, parent, red := null, null, null, true;
    }
  }

  class RbRoot {
    var node: RbNode?

    constructor ()
      ensures node == null
    {
      node := null;
    }
  }

  // ----- Memory as a value

  datatype Cell = Cell(left: RbNode?, right: RbNode?, parent: RbNode?, red: bool)

  type Mem = map<RbNode, Cell>

  ghost function Snap(s: set<RbNode>): (m: Mem)
    reads s
    ensures m.Keys == s
    ensures forall n :: n in s ==> m[n] == Cell(n.left, n.right, n.parent, n.red)
  {
    map n | n in s :: Cell(n.left, n.right, n.parent, n.red)
  }

  ghost function PutLeft(m: Mem, n: RbNode, v: RbNode?): Mem
    requires n in m
  {
    m[n := m[n].(left := v)]
  }

  ghost function PutRight(m: Mem, n: RbNode, v: RbNode?): Mem
    requires n in m
  {
    m[n := m[n].(right := v)]
  }

  ghost function PutParent(m: Mem, n: RbNode?, v: RbNode?): Mem
    requires n != null ==> n in m
  {
    if n == null then m else m[n := m[n].(parent := v)]
  }

  ghost function PutRed(m: Mem, n: RbNode?, v: bool): Mem
    requires n != null ==> n in m
  {
    if n == null then m else m[n := m[n].(red := v)]
  }

  method SetLeft(n: RbNode, v: RbNode?, ghost s: set<RbNode>)
    requires n in s
    modifies n`left
    ensures n.left == v && Snap(s) == PutLeft(old(Snap(s)), n, v)
  {
    n.left := v;
  }

  method SetRight(n: RbNode, v: RbNode?, ghost s: set<RbNode>)
    requires n in s
    modifies n`right
    ensures n.right == v && Snap(s) == PutRight(old(Snap(s)), n, v)
  {
    n.right := v;
  }

  method SetParent(n: RbNode, v: RbNode?, ghost s: set<RbNode>)
    requires n in s
    modifies n`parent
    ensures n.parent == v && Snap(s) == PutParent(old(Snap(s)), n, v)
  {
    n.parent := v;
  }

  method SetRed(n: RbNode, v: bool, ghost s: set<RbNode>)
    requires n in s
    modifies n`red
    ensures n.red == v && Snap(s) == PutRed(old(Snap(s)), n, v)
  {
    n.red := v;
  }

  // ----- A tree in memory

  ghost function RootOf(t: Tree<RbNode>): RbNode? {
    if t.Leaf? then null else t.n
  }

  ghost function ParentOf(c: Ctx<RbNode>): RbNode? {
    if c.Top? then null else c.n
  }

  /** Memory holds t, with p as the parent of its root. */
  ghost predicate Shape(m: Mem, t: Tree<RbNode>, p: RbNode?) {
    match t
    case Leaf => true
    case Node(l, n, red, r) =>
      && n in m && m[n] == Cell(RootOf(l), RootOf(r), p, red)
      && Shape(m, l, n) && Shape(m, r, n)
  }

  /** Memory holds c, with h in its hole and root as the root pointer. */
  ghost predicate CtxShape(m: Mem, c: Ctx<RbNode>, h: RbNode?, root: RbNode?) {
    match c
    case Top => root == h
    case InLeft(up, n, red, r) =>
      && n in m && m[n] == Cell(h, RootOf(r), ParentOf(up), red)
      && Shape(m, r, n) && CtxShape(m, up, n, root)
    case InRight(l, n, red, up) =>
      && n in m && m[n] == Cell(RootOf(l), h, ParentOf(up), red)
      && Shape(m, l, n) && CtxShape(m, up, n, root)
  }

  ghost predicate Holds(m: Mem, root: RbNode?, c: Ctx<RbNode>, t: Tree<RbNode>) {
    && Shape(m, t, ParentOf(c)) && CtxShape(m, c, RootOf(t), root)
    && Separate(t) && CtxSeparate(c) && Elems(t) !! CtxElems(c)
  }

  /** Moving the focus up. */
  lemma HoldsUp(m: Mem, root: RbNode?, c: Ctx<RbNode>, t: Tree<RbNode>)
    requires !c.Top?
    ensures Holds(m, root, c, t) <==> Holds(m, root, c.up, Up(c, t))
  {
  }

  /** Moving the focus to the root. */
  lemma {:induction false} HoldsPlug(m: Mem, root: RbNode?, c: Ctx<RbNode>, t: Tree<RbNode>)
    ensures Holds(m, root, c, t) <==> Holds(m, root, Top, Plug(c, t))
    decreases c
  {
    if !c.Top? {
      HoldsUp(m, root, c, t);
      HoldsPlug(m, root, c.up, Up(c, t));
    }
  }

  lemma {:induction false} HoldsCompose(m: Mem, root: RbNode?, p: Ctx<RbNode>, b: Ctx<RbNode>, t: Tree<RbNode>)
    ensures Holds(m, root, Compose(p, b), t) <==> Holds(m, root, b, Plug(p, t))
    decreases p
  {
    if !p.Top? {
      HoldsUp(m, root, Compose(p, b), t);
      HoldsCompose(m, root, p.up, b, Up(p, t));
    }
  }

  lemma {:induction false} ElemsInMemory(m: Mem, t: Tree<RbNode>, p: RbNode?)
    requires Shape(m, t, p)
    ensures Elems(t) <= m.Keys
  {
    if t.Node? {
      ElemsInMemory(m, t.l, t.n);
      ElemsInMemory(m, t.r, t.n);
    }
  }

  lemma {:induction false} CtxElemsInMemory(m: Mem, c: Ctx<RbNode>, h: RbNode?, root: RbNode?)
    requires CtxShape(m, c, h, root)
    ensures CtxElems(c) <= m.Keys
    decreases c
  {
    if !c.Top? {
      CtxElemsInMemory(m, c.up, c.n, root);
      ElemsInMemory(m, if c.InLeft? then c.r else c.l, c.n);
    }
  }

  // ----- Frames

  ghost predicate SameOn(m: Mem, m': Mem, s: set<RbNode>) {
    forall n :: n in s && n in m ==> n in m' && m'[n] == m[n]
  }

  ghost function ElemsBelow(t: Tree<RbNode>): set<RbNode> {
    if t.Leaf? then {} else Elems(t) - {t.n}
  }

  ghost function CtxElemsAbove(c: Ctx<RbNode>): set<RbNode> {
    if c.Top? then {} else CtxElems(c) - {c.n}
  }

  lemma {:induction false} ShapeFrame(m: Mem, m': Mem, t: Tree<RbNode>, p: RbNode?)
    requires Shape(m, t, p) && SameOn(m, m', Elems(t))
    ensures Shape(m', t, p)
  {
    match t
    case Leaf =>
    case Node(l, n, red, r) =>
      ShapeFrame(m, m', l, n);
      ShapeFrame(m, m', r, n);
  }

  lemma {:induction false} CtxFrame(m: Mem, m': Mem, c: Ctx<RbNode>, h: RbNode?, root: RbNode?)
    requires CtxShape(m, c, h, root) && SameOn(m, m', CtxElems(c))
    ensures CtxShape(m', c, h, root)
  {
    match c
    case Top =>
    case InLeft(up, n, red, r) =>
      ShapeFrame(m, m', r, n);
      CtxFrame(m, m', up, n, root);
    case InRight(l, n, red, up) =>
      ShapeFrame(m, m', l, n);
      CtxFrame(m, m', up, n, root);
  }

  /** A subtree whose root has been given another parent, and nothing else below has changed. */
  lemma Reparented(m: Mem, m': Mem, t: Tree<RbNode>, p: RbNode?, q: RbNode?)
    requires Shape(m, t, p) && Separate(t)
    requires t.Node? ==> t.n in m' && m'[t.n] == m[t.n].(parent := q)
    requires SameOn(m, m', ElemsBelow(t))
    ensures Shape(m', t, q)
  {
    if t.Node? {
      ShapeFrame(m, m', t.l, t.n);
      ShapeFrame(m, m', t.r, t.n);
    }
  }

  /** What a context's parent node holds after another node has been put into the hole. */
  ghost function Rehung(m: Mem, c: Ctx<RbNode>, h: RbNode?): Mem
    requires !c.Top? ==> c.n in m
  {
    match c
    case Top => m
    case InLeft(_, n, _, _) => PutLeft(m, n, h)
    case InRight(_, n, _, _) => PutRight(m, n, h)
  }

  lemma ReholeCtx(m: Mem, m': Mem, c: Ctx<RbNode>, h: RbNode?, h': RbNode?, root: RbNode?, root': RbNode?)
    requires CtxShape(m, c, h, root) && CtxSeparate(c)
    requires root' == if c.Top? then h' else root
    requires !c.Top? ==> c.n in m' && m'[c.n] == Rehung(m, c, h')[c.n]
    requires SameOn(m, m', CtxElemsAbove(c))
    ensures CtxShape(m', c, h', root')
  {
    match c
    case Top =>
    case InLeft(up, n, red, r) =>
      ShapeFrame(m, m', r, n);
      CtxFrame(m, m', up, n, root);
    case InRight(l, n, red, up) =>
      ShapeFrame(m, m', l, n);
      CtxFrame(m, m', up, n, root);
  }

  // ----- Recolouring

  lemma RecolorRoot(m: Mem, root: RbNode?, c: Ctx<RbNode>, t: Tree<RbNode>, v: bool)
    requires Holds(m, root, c, t) && t.Node?
    ensures Holds(PutRed(m, t.n, v), root, c, t.(red := v))
  {
    var m' := PutRed(m, t.n, v);
    assert SameOn(m, m', m.Keys - {t.n});
    assert Elems(t.l) <= Elems(t) && Elems(t.r) <= Elems(t);
    assert Shape(m, t.l, t.n) && Shape(m, t.r, t.n) && CtxShape(m, c, t.n, root);
    hide PutRed, CtxShape;
    ShapeFrame(m, m', t.l, t.n);
    ShapeFrame(m, m', t.r, t.n);
    CtxFrame(m, m', c, t.n, root);
  }

  lemma RecolorLeft(m: Mem, root: RbNode?, c: Ctx<RbNode>, t: Tree<RbNode>, v: bool)
    requires Holds(m, root, c, t) && t.Node? && t.l.Node?
    ensures t.l.n in m
    ensures Holds(PutRed(m, t.l.n, v), root, c, t.(l := t.l.(red := v)))
  {
    var d := InLeft(c, t.n, t.red, t.r);
    HoldsUp(m, root, d, t.l);
    RecolorRoot(m, root, d, t.l, v);
    HoldsUp(PutRed(m, t.l.n, v), root, d, t.l.(red := v));
  }

  lemma RecolorRight(m: Mem, root: RbNode?, c: Ctx<RbNode>, t: Tree<RbNode>, v: bool)
    requires Holds(m, root, c, t) && t.Node? && t.r.Node?
    ensures t.r.n in m
    ensures Holds(PutRed(m, t.r.n, v), root, c, t.(r := t.r.(red := v)))
  {
    var d := InRight(t.l, t.n, t.red, c);
    HoldsUp(m, root, d, t.r);
    RecolorRoot(m, root, d, t.r, v);
    HoldsUp(PutRed(m, t.r.n, v), root, d, t.r.(red := v));
  }

  ghost function WithSideRed<T>(t: Tree<T>, left: bool, v: bool): Tree<T>
    requires t.Node? && (if left then t.l else t.r).Node?
  {
    if left then t.(l := t.l.(red := v)) else t.(r := t.r.(red := v))
  }

  lemma RecolorSide(m: Mem, root: RbNode?, c: Ctx<RbNode>, t: Tree<RbNode>, left: bool, n: RbNode, v: bool)
    requires Holds(m, root, c, t) && t.Node? && RootOf(if left then t.l else t.r) == n
    ensures n in m && Holds(PutRed(m, n, v), root, c, WithSideRed(t, left, v))
  {
    if left { RecolorLeft(m, root, c, t, v); } else { RecolorRight(m, root, c, t, v); }
  }
}
