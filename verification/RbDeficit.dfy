/** What the cases of __rb_erase_color do to a tree in which one subtree is a black node short. */
module RbDeficit {
  import opened RbShape
  import opened RbRotate

  /** The subtree at the focus lacks one black node, which a red root could still become. */
  ghost predicate Deficit<T>(c: Ctx<T>, t: Tree<T>, h: nat) {
    && BalancedCtx(c, h + 1)
    && (if IsRed(t) then Balanced(t.(red := false), h + 1) else Balanced(t, h))
  }

  ghost function Sibling<T>(c: Ctx<T>): Tree<T>
    requires !c.Top?
  {
    if c.InLeft? then c.r else c.l
  }

  /** The sibling of a short black subtree is never empty. */
  lemma SiblingExists<T>(c: Ctx<T>, t: Tree<T>, h: nat)
    requires Deficit(c, t, h) && !c.Top?
    ensures Sibling(c).Node? && Balanced(Sibling(c), h + 1)
    ensures c.red ==> !IsRed(Sibling(c)) && !c.up.Top? && !HoleUnderRed(c.up)
    ensures BalancedCtx(c.up, if c.red then h + 1 else h + 2)
  {
  }

  // ----- The sibling is red: rotate it up, so that the next sibling is black

  ghost function AfterRedSibling<T>(c: Ctx<T>): Ctx<T>
    requires !c.Top? && Sibling(c).Node?
  {
    match c
    case InLeft(up, p, _, w) => InLeft(InLeft(up, w.n, false, w.r), p, true, w.l)
    case InRight(w, p, _, up) => InRight(w.r, p, true, InRight(w.l, w.n, false, up))
  }

  lemma RedSibling<T>(c: Ctx<T>, t: Tree<T>, h: nat)
    requires Deficit(c, t, h) && !c.Top? && !IsRed(t) && IsRed(Sibling(c))
    ensures Deficit(AfterRedSibling(c), t, h) && AfterRedSibling(c).red
    ensures !IsRed(Sibling(AfterRedSibling(c)))
    ensures InOrder(Plug(AfterRedSibling(c), t)) == InOrder(Plug(c, t))
  {
    SiblingExists(c, t, h);
    var c' := AfterRedSibling(c);
    assert Balanced(Sibling(c').(red := false), h + 1) by { assert Balanced(Sibling(c'), h + 1); }
    RotationInOrder(Up(c, t));
    PlugSameOrder(c.up, Up(c, t), Up(c'.up, Up(c', t)));
  }

  // ----- The sibling and its children are black: take the black node from the sibling as well

  ghost function BlackSiblingRed<T>(c: Ctx<T>, t: Tree<T>): Tree<T>
    requires !c.Top? && Sibling(c).Node?
  {
    if c.InLeft? then Node(t, c.n, c.red, c.r.(red := true)) else Node(c.l.(red := true), c.n, c.red, t)
  }

  lemma BlackNephews<T>(c: Ctx<T>, t: Tree<T>, h: nat)
    requires Deficit(c, t, h) && !c.Top? && !IsRed(t)
    requires var w := Sibling(c); w.Node? && !w.red && !IsRed(w.l) && !IsRed(w.r)
    ensures Deficit(c.up, BlackSiblingRed(c, t), if c.red then h else h + 1)
    ensures InOrder(Plug(c.up, BlackSiblingRed(c, t))) == InOrder(Plug(c, t))
  {
    SiblingExists(c, t, h);
    PlugSameOrder(c.up, BlackSiblingRed(c, t), Up(c, t));
  }

  // ----- The near nephew is red: rotate, so that the far nephew is red

  ghost function NearRotated<T>(c: Ctx<T>): Ctx<T>
    requires !c.Top? && Sibling(c).Node? && (if c.InLeft? then c.r.l else c.l.r).Node?
  {
    match c
    case InLeft(up, p, red, w) => InLeft(up, p, red, Node(w.l.l, w.l.n, false, Node(w.l.r, w.n, true, w.r)))
    case InRight(w, p, red, up) => InRight(Node(Node(w.l, w.n, true, w.r.l), w.r.n, false, w.r.r), p, red, up)
  }

  ghost predicate FarNephewRed<T>(c: Ctx<T>) {
    !c.Top? && Sibling(c).Node? && !Sibling(c).red && IsRed(if c.InLeft? then c.r.r else c.l.l)
  }

  lemma NearNephewRed<T>(c: Ctx<T>, t: Tree<T>, h: nat)
    requires Deficit(c, t, h) && !c.Top?
    requires var w := Sibling(c); w.Node? && !w.red && IsRed(if c.InLeft? then w.l else w.r)
    requires var w := Sibling(c); !IsRed(if c.InLeft? then w.r else w.l)
    ensures Deficit(NearRotated(c), t, h) && FarNephewRed(NearRotated(c))
    ensures InOrder(Plug(NearRotated(c), t)) == InOrder(Plug(c, t))
  {
    SiblingExists(c, t, h);
    var c' := NearRotated(c);
    var w := Sibling(c);
    RotationInOrder(w);
    assert Balanced(w.l, h) && Balanced(w.r, h);
    var near := if c.InLeft? then w.l else w.r;
    assert Balanced(near.l, h) && Balanced(near.r, h) && !IsRed(near.l) && !IsRed(near.r);
    assert Balanced(Sibling(c'), h + 1);
    assert InOrder(Sibling(c')) == InOrder(w);
    PlugInOrder(c, t);
    PlugInOrder(c', t);
  }

  // ----- The far nephew is red: rotate the sibling into the place of the parent, and done

  ghost function FarRotated<T>(c: Ctx<T>, t: Tree<T>): Tree<T>
    requires FarNephewRed(c)
  {
    match c
    case InLeft(_, p, red, w) => Node(Node(t, p, false, w.l), w.n, red, w.r.(red := false))
    case InRight(w, p, red, _) => Node(w.l.(red := false), w.n, red, Node(w.r, p, false, t))
  }

  lemma FarNephew<T>(c: Ctx<T>, t: Tree<T>, h: nat)
    requires Deficit(c, t, h) && !IsRed(t) && FarNephewRed(c)
    ensures IsRedBlack(Plug(c.up, FarRotated(c, t)))
    ensures InOrder(Plug(c.up, FarRotated(c, t))) == InOrder(Plug(c, t))
  {
    SiblingExists(c, t, h);
    var u, w := FarRotated(c, t), Sibling(c);
    assert Balanced(w.l, h) && Balanced(w.r, h);
    var far := if c.InLeft? then w.r else w.l;
    assert Balanced(far.l, h) && Balanced(far.r, h);
    assert Balanced(far.(red := false), h + 1);
    assert Balanced(u, if c.red then h + 1 else h + 2);
    PlugBalanced(c.up, u, if c.red then h + 1 else h + 2);
    RotationInOrder(Up(c, t));
    assert InOrder(u) == InOrder(Up(c, t));
    PlugSameOrder(c.up, u, Up(c, t));
  }

  // ----- Nothing left to do

  lemma Repaid<T>(c: Ctx<T>, t: Tree<T>, h: nat)
    requires Deficit(c, t, h) && (IsRed(t) || c.Top?)
    ensures IsRedBlack(Plug(c, if t.Node? then t.(red := false) else t))
    ensures InOrder(Plug(c, if t.Node? then t.(red := false) else t)) == InOrder(Plug(c, t))
  {
    var u := if t.Node? then t.(red := false) else t;
    PlugSameOrder(c, u, t);
    if IsRed(t) { PlugBalanced(c, u, h + 1); }
  }
}
