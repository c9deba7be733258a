/** Red-black trees as values: subtrees, one-hole contexts, colours and black heights. */
module RbShape {

  datatype Tree<T> = Leaf | Node(l: Tree<T>, n: T, red: bool, r: Tree<T>)

  /** A tree with one subtree taken out; Top is the place of the root. */
  datatype Ctx<T> =
    | Top
    | InLeft(up: Ctx<T>, n: T, red: bool, r: Tree<T>)
    | InRight(l: Tree<T>, n: T, red: bool, up: Ctx<T>)

  ghost function Plug<T>(c: Ctx<T>, t: Tree<T>): Tree<T> {
    match c
    case Top => t
    case InLeft(up, n, red, r) => Plug(up, Node(t, n, red, r))
    case InRight(l, n, red, up) => Plug(up, Node(l, n, red, t))
  }

  /** The subtree around the hole, one level up. */
  ghost function Up<T>(c: Ctx<T>, t: Tree<T>): Tree<T>
    requires !c.Top?
  {
    if c.InLeft? then Node(t, c.n, c.red, c.r) else Node(c.l, c.n, c.red, t)
  }

  ghost function InOrder<T>(t: Tree<T>): seq<T> {
    match t
    case Leaf => []
    case Node(l, n, _, r) => InOrder(l) + [n] + InOrder(r)
  }

  ghost function Before<T>(c: Ctx<T>): seq<T> {
    match c
    case Top => []
    case InLeft(up, _, _, _) => Before(up)
    case InRight(l, n, _, up) => Before(up) + InOrder(l) + [n]
  }

  ghost function After<T>(c: Ctx<T>): seq<T> {
    match c
    case Top => []
    case InLeft(up, n, _, r) => [n] + InOrder(r) + After(up)
    case InRight(_, _, _, up) => After(up)
  }

  lemma Regroup<T>(a: seq<T>, b: seq<T>, c: seq<T>, d: seq<T>, e: seq<T>)
    ensures a + (b + c + d) + e == a + b + (c + d + e) == (a + b + c) + d + e
  {
  }

  lemma {:induction false} PlugInOrder<T>(c: Ctx<T>, t: Tree<T>)
    ensures InOrder(Plug(c, t)) == Before(c) + InOrder(t) + After(c)
  {
    match c
    case Top =>
    case InLeft(up, n, red, r) =>
      PlugInOrder(up, Node(t, n, red, r));
      Regroup(Before(up), InOrder(t), [n], InOrder(r), After(up));
    case InRight(l, n, red, up) =>
      PlugInOrder(up, Node(l, n, red, t));
      Regroup(Before(up), InOrder(l), [n], InOrder(t), After(up));
  }

  lemma PlugSameOrder<T>(c: Ctx<T>, t: Tree<T>, u: Tree<T>)
    requires InOrder(t) == InOrder(u)
    ensures InOrder(Plug(c, t)) == InOrder(Plug(c, u))
  {
    PlugInOrder(c, t);
    PlugInOrder(c, u);
  }

  // ----- Colours and black heights

  predicate IsRed<T>(t: Tree<T>) {
    t.Node? && t.red
  }

  predicate HoleUnderRed<T>(c: Ctx<T>) {
    !c.Top? && c.red
  }

  /** No red node has a red child, and every path has h black nodes. */
  ghost predicate Balanced<T>(t: Tree<T>, h: nat)
    decreases t
  {
    match t
    case Leaf => h == 0
    case Node(l, _, red, r) =>
      if red then !IsRed(l) && !IsRed(r) && Balanced(l, h) && Balanced(r, h)
      else h > 0 && Balanced(l, h - 1) && Balanced(r, h - 1)
  }

  /** The context is balanced for a black subtree of black height h in the hole, and its root is black. */
  ghost predicate BalancedCtx<T>(c: Ctx<T>, h: nat)
    decreases c
  {
    match c
    case Top => true
    case InLeft(up, _, red, r) =>
      && Balanced(r, h)
      && (if red then !IsRed(r) && !up.Top? && !HoleUnderRed(up) && BalancedCtx(up, h) else BalancedCtx(up, h + 1))
    case InRight(l, _, red, up) =>
      && Balanced(l, h)
      && (if red then !IsRed(l) && !up.Top? && !HoleUnderRed(up) && BalancedCtx(up, h) else BalancedCtx(up, h + 1))
  }

  /** A red-black tree: balanced, with a black root. */
  ghost predicate IsRedBlack<T>(t: Tree<T>) {
    !IsRed(t) && exists h: nat :: Balanced(t, h)
  }

  lemma {:induction false} PlugBalanced<T>(c: Ctx<T>, t: Tree<T>, h: nat)
    requires BalancedCtx(c, h) && Balanced(t, h)
    requires IsRed(t) ==> !c.Top? && !HoleUnderRed(c)
    ensures IsRedBlack(Plug(c, t))
    decreases c
  {
    match c
    case Top =>
    case InLeft(up, n, red, r) =>
      var u := Node(t, n, red, r);
      PlugBalanced(up, u, if red then h else h + 1);
    case InRight(l, n, red, up) =>
      var u := Node(l, n, red, t);
      PlugBalanced(up, u, if red then h else h + 1);
  }

  lemma {:induction false} UnplugBalanced<T>(c: Ctx<T>, t: Tree<T>) returns (h: nat)
    requires IsRedBlack(Plug(c, t))
    ensures BalancedCtx(c, h) && Balanced(t, h)
    ensures IsRed(t) ==> !c.Top? && !HoleUnderRed(c)
    decreases c
  {
    match c
    case Top =>
      h :| Balanced(t, h);
    case InLeft(up, n, red, r) =>
      h := UnplugBalanced(up, Node(t, n, red, r));
      h := if red then h else h - 1;
    case InRight(l, n, red, up) =>
      h := UnplugBalanced(up, Node(l, n, red, t));
      h := if red then h else h - 1;
  }

  // ----- Nodes

  ghost function Elems<T>(t: Tree<T>): set<T> {
    match t
    case Leaf => {}
    case Node(l, n, _, r) => Elems(l) + {n} + Elems(r)
  }

  ghost function CtxElems<T>(c: Ctx<T>): set<T> {
    match c
    case Top => {}
    case InLeft(up, n, _, r) => CtxElems(up) + {n} + Elems(r)
    case InRight(l, n, _, up) => CtxElems(up) + {n} + Elems(l)
  }

  /** No node occurs twice. */
  ghost predicate Separate<T>(t: Tree<T>) {
    match t
    case Leaf => true
    case Node(l, n, _, r) =>
      n !in Elems(l) && n !in Elems(r) && Elems(l) !! Elems(r) && Separate(l) && Separate(r)
  }

  ghost predicate CtxSeparate<T>(c: Ctx<T>) {
    match c
    case Top => true
    case InLeft(up, n, _, r) =>
      n !in Elems(r) && n !in CtxElems(up) && Elems(r) !! CtxElems(up) && Separate(r) && CtxSeparate(up)
    case InRight(l, n, _, up) =>
      n !in Elems(l) && n !in CtxElems(up) && Elems(l) !! CtxElems(up) && Separate(l) && CtxSeparate(up)
  }

  function Depth<T>(c: Ctx<T>): nat {
    match c
    case Top => 0
    case InLeft(up, _, _, _) => 1 + Depth(up)
    case InRight(_, _, _, up) => 1 + Depth(up)
  }

  // ----- Contexts inside contexts

  /** The hole of b filled with p. */
  ghost function Compose<T>(p: Ctx<T>, b: Ctx<T>): Ctx<T> {
    match p
    case Top => b
    case InLeft(up, n, red, r) => InLeft(Compose(up, b), n, red, r)
    case InRight(l, n, red, up) => InRight(l, n, red, Compose(up, b))
  }

  lemma {:induction false} PlugCompose<T>(p: Ctx<T>, b: Ctx<T>, t: Tree<T>)
    ensures Plug(Compose(p, b), t) == Plug(b, Plug(p, t))
    decreases p
  {
    if !p.Top? { PlugCompose(p.up, b, Up(p, t)); }
  }

  /** The same context with another node next to the outer hole. */
  ghost predicate Renamed<T>(b: Ctx<T>, b': Ctx<T>) {
    !b.Top? && !b'.Top? && b' == b.(n := b'.n)
  }

  lemma {:induction false} BalancedRenamed<T>(p: Ctx<T>, b: Ctx<T>, b': Ctx<T>, h: nat)
    requires Renamed(b, b') && BalancedCtx(Compose(p, b), h)
    ensures BalancedCtx(Compose(p, b'), h)
    decreases p
  {
    if !p.Top? { BalancedRenamed(p.up, b, b', if p.red then h else h + 1); }
  }

  /** Every node of a tree can be brought into focus. */
  lemma {:induction false} FocusOn<T>(t: Tree<T>, n: T) returns (c: Ctx<T>, u: Tree<T>)
    requires n in Elems(t)
    ensures u.Node? && u.n == n && Plug(c, u) == t
  {
    if t.n == n {
      return Top, t;
    }
    if n in Elems(t.l) {
      c, u := FocusOn(t.l, n);
      PlugCompose(c, InLeft(Top, t.n, t.red, t.r), u);
      c := Compose(c, InLeft(Top, t.n, t.red, t.r));
    } else {
      c, u := FocusOn(t.r, n);
      PlugCompose(c, InRight(t.l, t.n, t.red, Top), u);
      c := Compose(c, InRight(t.l, t.n, t.red, Top));
    }
  }
}
