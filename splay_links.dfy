/**
 * How an arena of nodes (util/data_structures/BSTNode.py) holds a splay tree
 * shape, and what the link surgery of `rotate`
 * (util/data_structures/SplayTreeNode.py) does to it.
 */
module SplayLinks {
  import opened BinaryNodes
  import opened SplayShapes

  /** The arena holds t with its top at k, whose parent link is p. */
  predicate Repr(l: Links, t: Tree, k: int, p: int)
    requires l.Valid()
    decreases t
  {
    match t
    case Nil => k == NIL
    case Node(a, x, b) =>
      && k == x && 0 <= x < l.Size() && l.parent[x] == p
      && Repr(l, a, l.left[x], x) && Repr(l, b, l.right[x], x)
  }

  /**
   * The arena holds the path ctx: the position it describes is filled by the
   * node `hole` (or NIL), and the path ends at `top`.
   */
  predicate CtxRepr(l: Links, ctx: seq<Frame>, hole: int, top: int)
    requires l.Valid()
    decreases |ctx|
  {
    if ctx == [] then hole == top
    else
      var F := ctx[0];
      && 0 <= F.id < l.Size()
      && l.Child(F.id, F.side) == hole
      && l.parent[F.id] == Up(ctx[1..])
      && Repr(l, F.other, l.Child(F.id, !F.side), F.id)
      && CtxRepr(l, ctx[1..], F.id, top)
  }

  /** Node j has the same links in both arenas. */
  predicate Same(l: Links, l': Links, j: int) {
    && l.Valid() && l'.Valid() && l'.Size() == l.Size() && 0 <= j < l.Size()
    && l'.parent[j] == l.parent[j] && l'.left[j] == l.left[j] && l'.right[j] == l.right[j]
  }

  /** A represented tree's top is the given node, and all its nodes are in the arena. */
  lemma {:induction false} ReprIds(l: Links, t: Tree, k: int, p: int)
    requires l.Valid() && Repr(l, t, k, p)
    ensures k == Top(t)
    ensures forall y :: y in Ids(t) ==> 0 <= y < l.Size()
    decreases t
  {
    if t.Node? {
      ReprIds(l, t.left, l.left[t.id], t.id);
      ReprIds(l, t.right, l.right[t.id], t.id);
    }
  }

  /**
   * A tree is held at the top of a path exactly when the path is held down to
   * the position and the position holds the tree.
   */
  lemma {:induction false} PlugRepr(l: Links, ctx: seq<Frame>, t: Tree, top: int)
    requires l.Valid()
    ensures Repr(l, Plug(ctx, t), top, NIL) <==> CtxRepr(l, ctx, Top(t), top) && Repr(l, t, Top(t), Up(ctx))
    decreases |ctx|
  {
    if ctx == [] {
      if Repr(l, t, top, NIL) {
        ReprIds(l, t, top, NIL);
      }
    } else {
      var F := ctx[0];
      PlugRepr(l, ctx[1..], Attach(F, t), top);
      if 0 <= F.id < l.Size() && Repr(l, t, l.Child(F.id, F.side), F.id) {
        ReprIds(l, t, l.Child(F.id, F.side), F.id);
      }
    }
  }

  /**
   * A tree stays represented when none of its nodes' links change, except
   * the parent link of its top.
   */
  lemma {:induction false} ReprFrame(l: Links, l': Links, t: Tree, p: int, p': int)
    requires l.Valid() && l'.Valid() && l'.Size() == l.Size()
    requires Repr(l, t, Top(t), p) && Distinct(t)
    requires forall j :: j in Ids(t) && j != Top(t) ==> Same(l, l', j)
    requires t.Node? ==> 0 <= t.id < l.Size() && l'.left[t.id] == l.left[t.id] && l'.right[t.id] == l.right[t.id]
    requires t.Node? ==> l'.parent[t.id] == p'
    ensures Repr(l', t, Top(t), p')
    decreases t
  {
    if t.Node? {
      var a, x, b := t.left, t.id, t.right;
      ReprIds(l, a, l.left[x], x);
      ReprIds(l, b, l.right[x], x);
      if a.Node? {
        assert Same(l, l', a.id);
      }
      if b.Node? {
        assert Same(l, l', b.id);
      }
      ReprFrame(l, l', a, x, x);
      ReprFrame(l, l', b, x, x);
    }
  }

  /** All nodes of a represented path are in the arena. */
  lemma {:induction false} CtxReprIds(l: Links, ctx: seq<Frame>, hole: int, top: int)
    requires l.Valid() && CtxRepr(l, ctx, hole, top)
    ensures forall y :: y in Ids(Plug(ctx, Nil)) ==> 0 <= y < l.Size()
    decreases |ctx|
  {
    if ctx != [] {
      CtxIdsSplit(ctx);
      CtxReprIds(l, ctx[1..], ctx[0].id, top);
      ReprIds(l, ctx[0].other, l.Child(ctx[0].id, !ctx[0].side), ctx[0].id);
    }
  }

  /**
   * A path stays represented when none of its nodes' links change, except the
   * position's parent, which keeps its parent link and its other child and
   * now holds hole' at the position.
   */
  lemma {:induction false} CtxFrame(l: Links, l': Links, ctx: seq<Frame>, hole: int, hole': int, top: int)
    requires l.Valid() && l'.Valid() && l'.Size() == l.Size()
    requires CtxRepr(l, ctx, hole, top) && Distinct(Plug(ctx, Nil))
    requires forall j :: j in Ids(Plug(ctx, Nil)) && j != Up(ctx) ==> Same(l, l', j)
    requires ctx != [] ==>
      && 0 <= ctx[0].id < l.Size()
      && l'.parent[ctx[0].id] == l.parent[ctx[0].id]
      && l'.Child(ctx[0].id, !ctx[0].side) == l.Child(ctx[0].id, !ctx[0].side)
      && l'.Child(ctx[0].id, ctx[0].side) == hole'
    ensures CtxRepr(l', ctx, hole', if ctx == [] then hole' else top)
    decreases |ctx|
  {
    if ctx != [] {
      var F, rest := ctx[0], ctx[1..];
      CtxIdsSplit(ctx);
      if rest != [] {
        CtxIdsSplit(rest);
        assert Same(l, l', rest[0].id);
      }
      CtxFrame(l, l', rest, F.id, F.id, top);
      ReprIds(l, F.other, l.Child(F.id, !F.side), F.id);
      if F.other.Node? {
        assert Same(l, l', F.other.id);
      }
      ReprFrame(l, l', F.other, F.id, F.id);
    }
  }

  /**
   * The link surgery of `rotate(lookAhead)` for node x whose parent is p and
   * which sits on `side` of p, swap by swap: x gives up its child b on the
   * opposite side, p takes b in x's slot, the grandparent g (read from p's
   * parent link) takes x in the slot that holds p, and x takes p on the
   * opposite side. The grandparent and the side it holds p on are returned
   * with the links; the side reads as LEFT when there is no grandparent.
   */
  function Rotation(l: Links, x: int, side: bool, p: int): (Links, int, bool)
    requires l.Valid() && 0 <= x < l.Size() && 0 <= p < l.Size()
  {
    var (l1, b) := Swapped(l, x, !side, NIL);
    var l2 := Swapped(l1, p, side, b).0;
    var g := l2.parent[p];
    var gs := g != NIL && l2.right[g] == p;
    var l3 := if g == NIL then l2 else Swapped(l2, g, gs, x).0;
    (Swapped(l3, x, !side, p).0, g, gs)
  }

  /** The link facts of a rotation, as a relation between the arenas before and after. */
  predicate RotatedAround(l: Links, l4: Links, x: int, side: bool, p: int, g: int, gs: bool)
    requires l.Valid() && 0 <= x < l.Size() && 0 <= p < l.Size()
  {
    && l4.Valid() && l4.Size() == l.Size()
    && RotatedNear(l, l4, x, side, p, g) && RotatedFar(l, l4, x, side, p, g, gs)
  }

  /** After a rotation, x sits under g and over p, and p holds x's former child b. */
  predicate RotatedNear(l: Links, l4: Links, x: int, side: bool, p: int, g: int)
    requires l.Valid() && l4.Valid() && l4.Size() == l.Size() && 0 <= x < l.Size() && 0 <= p < l.Size()
  {
    && l4.parent[x] == g && l4.parent[p] == x
    && l4.Child(x, !side) == p && l4.Child(x, side) == l.Child(x, side)
    && RotatedBelow(l, l4, x, side, p)
  }

  /** After a rotation, p holds x's former child b, and keeps its other child. */
  predicate RotatedBelow(l: Links, l4: Links, x: int, side: bool, p: int)
    requires l.Valid() && l4.Valid() && l4.Size() == l.Size() && 0 <= x < l.Size() && 0 <= p < l.Size()
  {
    var b := l.Child(x, !side);
    && (b != NIL ==> l4.parent[b] == p)
    && l4.Child(p, side) == b && l4.Child(p, !side) == l.Child(p, !side)
    && (b != NIL ==> l4.left[b] == l.left[b] && l4.right[b] == l.right[b])
  }

  /** After a rotation, g holds x where it held p, and no node besides x, p, b and g changes links. */
  predicate RotatedFar(l: Links, l4: Links, x: int, side: bool, p: int, g: int, gs: bool)
    requires l.Valid() && l4.Valid() && l4.Size() == l.Size() && 0 <= x < l.Size() && 0 <= p < l.Size()
  {
    && (g != NIL ==> 0 <= g < l.Size() && l4.Child(g, gs) == x && l4.Child(g, !gs) == l.Child(g, !gs))
    && (g != NIL ==> l4.parent[g] == l.parent[g])
    && RotatedOthers(l, l4, x, side, p, g)
  }

  /** After a rotation, no node besides x, p, b and g has changed links. */
  predicate RotatedOthers(l: Links, l4: Links, x: int, side: bool, p: int, g: int)
    requires l.Valid() && l4.Valid() && l4.Size() == l.Size() && 0 <= x < l.Size() && 0 <= p < l.Size()
  {
    var b := l.Child(x, !side);
    forall j :: 0 <= j < l.Size() && j != x && j != p && j != b && j != g ==> Same(l, l4, j)
  }

  /** The links around x and p are as a rotation of x over p needs them. */
  predicate CanRotate(l: Links, x: int, side: bool, p: int)
  {
    && l.Valid() && 0 <= x < l.Size() && 0 <= p < l.Size() && x != p
    && l.parent[x] == p && l.Child(p, side) == x
    && l.Child(x, !side) != x && l.Child(x, !side) != p
    && var g := l.parent[p];
      g != x && g != p && (g != NIL ==> g != l.Child(x, !side) && (l.left[g] == p || l.right[g] == p))
  }

  /** The nodes a rotation at the position of ctx touches are distinct, and sit where the path says. */
  lemma RotationSetting(l: Links, ctx: seq<Frame>, t: Tree, top: int)
    requires l.Valid() && ctx != [] && t.Node?
    requires CtxRepr(l, ctx, t.id, top) && Repr(l, t, t.id, ctx[0].id) && Distinct(Plug(ctx, t))
    ensures
      var F, x, rest := ctx[0], t.id, ctx[1..];
      var b := l.Child(x, !F.side);
      var g := l.parent[F.id];
      && 0 <= x < l.Size() && 0 <= F.id < l.Size() && x != F.id
      && l.parent[x] == F.id && l.Child(F.id, F.side) == x
      && b != x && b != F.id && b == Top(if F.side == RIGHT then t.left else t.right)
      && g == Up(rest) && g != x && g != F.id
      && (g != NIL ==> g != b && l.Child(g, rest[0].side) == F.id && l.Child(g, !rest[0].side) != F.id)
      && Ids(Plug(ctx, t)) == Ids(Plug(rest, Nil)) + {F.id} + Ids(F.other) + Ids(t)
      && Distinct(Plug(rest, Nil)) && Distinct(F.other) && Distinct(t)
      && F.id !in Ids(F.other) && F.id !in Ids(t) && Ids(F.other) !! Ids(t)
      && Ids(Plug(rest, Nil)) !! ({F.id} + Ids(F.other) + Ids(t))
      && (g != NIL ==> g in Ids(Plug(rest, Nil)))
  {
    var F, x, rest := ctx[0], t.id, ctx[1..];
    PlugIds(ctx, t);
    CtxIdsSplit(ctx);
    ReprIds(l, t.left, l.left[x], x);
    ReprIds(l, t.right, l.right[x], x);
    if rest != [] {
      var G := rest[0];
      CtxIdsSplit(rest);
      ReprIds(l, G.other, l.Child(G.id, !G.side), G.id);
    }
  }

  /**
   * The first two swaps of a rotation: x gives up its child b on the side
   * away from p, and p takes b in x's place.
   */
  lemma RotationCut(l: Links, x: int, side: bool, p: int, l2: Links)
    requires l.Valid() && 0 <= x < l.Size() && 0 <= p < l.Size() && x != p
    requires l.Child(p, side) == x && l.Child(x, !side) != x && l.Child(x, !side) != p
    requires l2 == Swapped(Swapped(l, x, !side, NIL).0, p, side, l.Child(x, !side)).0
    ensures
      var b := l.Child(x, !side);
      && l2.Valid() && l2.Size() == l.Size()
      && l2.parent[x] == NIL && l2.parent[p] == l.parent[p] && (b != NIL ==> l2.parent[b] == p)
      && l2.Child(x, !side) == NIL && l2.Child(x, side) == l.Child(x, side)
      && l2.Child(p, side) == b && l2.Child(p, !side) == l.Child(p, !side)
      && (forall j :: 0 <= j < l.Size() && j != x && j != p && j != b ==> l2.parent[j] == l.parent[j])
      && (forall j :: 0 <= j < l.Size() && j != x && j != p ==> l2.left[j] == l.left[j] && l2.right[j] == l.right[j])
  {
  }

  /**
   * The last two swaps of a rotation: the grandparent g (if any) takes x in
   * the slot that held p, and x takes p on the side it gave up.
   */
  lemma RotationHang(l2: Links, x: int, side: bool, p: int, l4: Links)
    requires l2.Valid() && 0 <= x < l2.Size() && 0 <= p < l2.Size() && x != p
    requires l2.parent[x] == NIL && l2.Child(x, !side) == NIL
    requires var g := l2.parent[p];
      g != x && g != p && (g != NIL ==> 0 <= g < l2.Size() && (l2.left[g] == p || l2.right[g] == p))
    requires
      var g := l2.parent[p];
      var gs := g != NIL && l2.right[g] == p;
      var l3 := if g == NIL then l2 else Swapped(l2, g, gs, x).0;
      l4 == Swapped(l3, x, !side, p).0
    ensures
      var g := l2.parent[p];
      var gs := g != NIL && l2.right[g] == p;
      && l4.Valid() && l4.Size() == l2.Size()
      && l4.parent[x] == g && l4.parent[p] == x
      && l4.Child(x, !side) == p && l4.Child(x, side) == l2.Child(x, side)
      && l4.left[p] == l2.left[p] && l4.right[p] == l2.right[p]
      && (g != NIL ==> l4.Child(g, gs) == x && l4.Child(g, !gs) == l2.Child(g, !gs))
      && (forall j :: 0 <= j < l2.Size() && j != x && j != p ==> l4.parent[j] == l2.parent[j])
      && (forall j :: 0 <= j < l2.Size() && j != x && j != g ==> l4.left[j] == l2.left[j] && l4.right[j] == l2.right[j])
  {
    var g := l2.parent[p];
    var gs := g != NIL && l2.right[g] == p;
    if g != NIL {
      assert l2.Child(g, gs) == p;
    }
  }

  /**
   * What the surgery does to the links around x: x takes p's place under
   * the grandparent (in the slot that held p), p becomes x's child on the
   * side opposite to `side`, and x's former child on that opposite side
   * becomes p's child on `side`. No other node's links change.
   */
  lemma RotationAround(l: Links, x: int, side: bool, p: int)
    requires CanRotate(l, x, side, p)
    ensures var (l4, g, gs) := Rotation(l, x, side, p);
      g == l.parent[p] && gs == (g != NIL && l.right[g] == p) && RotatedAround(l, l4, x, side, p, g, gs)
  {
    RotationNear(l, x, side, p);
    RotationBelow(l, x, side, p);
    RotationFar(l, x, side, p);
    RotationOthers(l, x, side, p);
  }

  /** RotationAround, for x and p. */
  lemma RotationNear(l: Links, x: int, side: bool, p: int)
    requires CanRotate(l, x, side, p)
    ensures var (l4, g, gs) := Rotation(l, x, side, p);
      l4.Valid() && l4.Size() == l.Size() && g == l.parent[p] && gs == (g != NIL && l.right[g] == p) && l4.parent[x] == g && l4.parent[p] == x && l4.Child(x, !side) == p && l4.Child(x, side) == l.Child(x, side)
  {
    var b := l.Child(x, !side);
    var l2 := Swapped(Swapped(l, x, !side, NIL).0, p, side, b).0;
    RotationCut(l, x, side, p, l2);
    var (l4, g, gs) := Rotation(l, x, side, p);
    RotationHang(l2, x, side, p, l4);
  }

  /** RotationAround, for p's children. */
  lemma RotationBelow(l: Links, x: int, side: bool, p: int)
    requires CanRotate(l, x, side, p)
    ensures var (l4, g, gs) := Rotation(l, x, side, p);
      l4.Valid() && l4.Size() == l.Size() && RotatedBelow(l, l4, x, side, p)
  {
    var b := l.Child(x, !side);
    var l2 := Swapped(Swapped(l, x, !side, NIL).0, p, side, b).0;
    RotationCut(l, x, side, p, l2);
    var (l4, g, gs) := Rotation(l, x, side, p);
    RotationHang(l2, x, side, p, l4);
  }

  /** RotationAround, for the grandparent. */
  lemma RotationFar(l: Links, x: int, side: bool, p: int)
    requires CanRotate(l, x, side, p)
    ensures var (l4, g, gs) := Rotation(l, x, side, p);
      l4.Valid() && l4.Size() == l.Size() && (g != NIL ==> 0 <= g < l.Size() && l4.Child(g, gs) == x && l4.Child(g, !gs) == l.Child(g, !gs) && l4.parent[g] == l.parent[g])
  {
    var b := l.Child(x, !side);
    var l2 := Swapped(Swapped(l, x, !side, NIL).0, p, side, b).0;
    RotationCut(l, x, side, p, l2);
    var (l4, g, gs) := Rotation(l, x, side, p);
    RotationHang(l2, x, side, p, l4);
  }

  /** RotationAround, for the nodes the rotation leaves alone. */
  lemma RotationOthers(l: Links, x: int, side: bool, p: int)
    requires CanRotate(l, x, side, p)
    ensures var (l4, g, gs) := Rotation(l, x, side, p);
      l4.Valid() && l4.Size() == l.Size() && RotatedOthers(l, l4, x, side, p, g)
  {
    var b := l.Child(x, !side);
    var l2 := Swapped(Swapped(l, x, !side, NIL).0, p, side, b).0;
    RotationCut(l, x, side, p, l2);
    var (l4, g, gs) := Rotation(l, x, side, p);
    RotationHang(l2, x, side, p, l4);
    forall j | 0 <= j < l.Size() && j != x && j != p && j != b && j != g ensures Same(l, l4, j) {
    }
  }

  /** The rotated subtree is held at x, below the grandparent. */
  lemma RotatedSubtree(l: Links, l4: Links, F: Frame, t: Tree, g: int, gs: bool)
    requires l.Valid() && t.Node? && 0 <= t.id < l.Size() && 0 <= F.id < l.Size()
    requires Repr(l, t, t.id, F.id) && Repr(l, F.other, l.Child(F.id, !F.side), F.id)
    requires Distinct(Attach(F, t)) && g !in Ids(Attach(F, t))
    requires RotatedAround(l, l4, t.id, F.side, F.id, g, gs)
    ensures Repr(l4, RotateUp(F, t), t.id, g)
  {
    var x, p, side := t.id, F.id, F.side;
    var aT, bT := (if side == RIGHT then t.right else t.left), (if side == RIGHT then t.left else t.right);
    ReprIds(l, aT, l.Child(x, side), x);
    ReprIds(l, bT, l.Child(x, !side), x);
    ReprIds(l, F.other, l.Child(p, !side), p);
    var b := l.Child(x, !side);
    if aT.Node? { assert Same(l, l4, aT.id); }
    if F.other.Node? { assert Same(l, l4, F.other.id); }
    ReprFrame(l, l4, aT, x, x);
    ReprFrame(l, l4, bT, x, p);
    ReprFrame(l, l4, F.other, p, p);
    var pNode := if side == RIGHT then Node(F.other, p, t.left) else Node(t.right, p, F.other);
    assert Repr(l4, pNode, p, x);
  }

  /** After a rotation the arena holds the path without its innermost frame, down to x. */
  lemma RotatedPath(l: Links, l4: Links, ctx: seq<Frame>, t: Tree, top: int, g: int, gs: bool)
    requires l.Valid() && ctx != [] && t.Node?
    requires CtxRepr(l, ctx, t.id, top) && Repr(l, t, t.id, ctx[0].id) && Distinct(Plug(ctx, t))
    requires 0 <= t.id < l.Size() && 0 <= ctx[0].id < l.Size()
    requires RotatedAround(l, l4, t.id, ctx[0].side, ctx[0].id, g, gs)
    requires g == l.parent[ctx[0].id] && gs == (g != NIL && l.right[g] == ctx[0].id)
    ensures g == Up(ctx[1..]) && (ctx[1..] != [] ==> gs == ctx[1].side)
    ensures CtxRepr(l4, ctx[1..], t.id, if ctx[1..] == [] then t.id else top)
  {
    var F, x, rest := ctx[0], t.id, ctx[1..];
    var p, side := F.id, F.side;
    RotationSetting(l, ctx, t, top);
    var b := l.Child(x, !side);
    ReprIds(l, t, x, p);
    assert x in Ids(t) && (b != NIL ==> b in Ids(t)) by {
      var bT := if side == RIGHT then t.left else t.right;
      assert Ids(bT) <= Ids(t);
    }
    CtxReprIds(l, rest, p, top);
    forall j | j in Ids(Plug(rest, Nil)) && j != Up(rest) ensures Same(l, l4, j) {
      assert j != x && j != p && j != b;
    }
    CtxFrame(l, l4, rest, p, x, top);
  }

  /** A rotation leaves the links of every node outside the tree alone. */
  lemma RotatedOutside(l: Links, l4: Links, ctx: seq<Frame>, t: Tree, top: int, g: int, gs: bool)
    requires l.Valid() && ctx != [] && t.Node?
    requires CtxRepr(l, ctx, t.id, top) && Repr(l, t, t.id, ctx[0].id) && Distinct(Plug(ctx, t))
    requires 0 <= t.id < l.Size() && 0 <= ctx[0].id < l.Size()
    requires RotatedAround(l, l4, t.id, ctx[0].side, ctx[0].id, g, gs)
    requires g == l.parent[ctx[0].id]
    ensures forall j :: 0 <= j < l.Size() && j !in Ids(Plug(ctx, t)) ==> Same(l, l4, j)
  {
    var F, x, rest := ctx[0], t.id, ctx[1..];
    RotationSetting(l, ctx, t, top);
    var b := l.Child(x, !F.side);
    assert x in Ids(t) && (b != NIL ==> b in Ids(t)) by {
      var bT := if F.side == RIGHT then t.left else t.right;
      assert Ids(bT) <= Ids(t);
    }
  }

  /** The setting of a rotation at the position of ctx meets what RotationAround needs. */
  lemma RotationReady(l: Links, ctx: seq<Frame>, t: Tree, top: int)
    requires l.Valid() && ctx != [] && t.Node?
    requires CtxRepr(l, ctx, t.id, top) && Repr(l, t, t.id, ctx[0].id) && Distinct(Plug(ctx, t))
    ensures
      var x, p, side := t.id, ctx[0].id, ctx[0].side;
      && 0 <= x < l.Size() && 0 <= p < l.Size() && x != p
      && l.parent[x] == p && l.Child(p, side) == x
      && l.Child(x, !side) != x && l.Child(x, !side) != p
      && var g := l.parent[p];
        g != x && g != p && (g != NIL ==> g != l.Child(x, !side) && (l.left[g] == p || l.right[g] == p))
  {
    RotationSetting(l, ctx, t, top);
  }

  /** RotatedSubtree, in the setting of a rotation at the position of ctx. */
  lemma RotatedSubtreeAt(l: Links, l4: Links, ctx: seq<Frame>, t: Tree, top: int, g: int, gs: bool)
    requires l.Valid() && ctx != [] && t.Node?
    requires CtxRepr(l, ctx, t.id, top) && Repr(l, t, t.id, ctx[0].id) && Distinct(Plug(ctx, t))
    requires 0 <= t.id < l.Size() && 0 <= ctx[0].id < l.Size()
    requires RotatedAround(l, l4, t.id, ctx[0].side, ctx[0].id, g, gs)
    requires g == l.parent[ctx[0].id]
    ensures Repr(l4, RotateUp(ctx[0], t), t.id, g)
  {
    var F, x, rest := ctx[0], t.id, ctx[1..];
    var p := F.id;
    RotationSetting(l, ctx, t, top);
    assert Ids(Attach(F, t)) == {p} + Ids(F.other) + Ids(t);
    PlugIds(rest, Attach(F, t));
    ReprIds(l, t, x, p);
    ReprIds(l, F.other, l.Child(p, !F.side), p);
    assert g !in Ids(Attach(F, t));
    RotatedSubtree(l, l4, F, t, g, gs);
  }

  /**
   * One rotation on the arena at the position of ctx: afterwards the arena
   * holds the path without its innermost frame, and at the position the
   * rotated subtree; the returned grandparent and side describe x's new
   * position. Nodes outside the tree keep their links.
   */
  lemma RotationStep(l: Links, ctx: seq<Frame>, t: Tree, top: int)
    requires l.Valid() && ctx != [] && t.Node?
    requires CtxRepr(l, ctx, t.id, top) && Repr(l, t, t.id, ctx[0].id) && Distinct(Plug(ctx, t))
    ensures 0 <= t.id < l.Size() && 0 <= ctx[0].id < l.Size()
    ensures
      var (l4, g, gs) := Rotation(l, t.id, ctx[0].side, ctx[0].id);
      var rest := ctx[1..];
      && l4.Valid() && l4.Size() == l.Size()
      && g == Up(rest) && (rest != [] ==> gs == rest[0].side)
      && CtxRepr(l4, rest, t.id, if rest == [] then t.id else top)
      && Repr(l4, RotateUp(ctx[0], t), t.id, Up(rest))
      && (forall j :: 0 <= j < l.Size() && j !in Ids(Plug(ctx, t)) ==> Same(l, l4, j))
  {
    var F, x := ctx[0], t.id;
    var p, side := F.id, F.side;
    RotationReady(l, ctx, t, top);
    RotationAround(l, x, side, p);
    var (l4, g, gs) := Rotation(l, x, side, p);
    RotatedSubtreeAt(l, l4, ctx, t, top, g, gs);
    RotatedPath(l, l4, ctx, t, top, g, gs);
    RotatedOutside(l, l4, ctx, t, top, g, gs);
  }

  /**
   * The `side` property at a position: the node's parent link names the
   * position's parent, and the node is that parent's right child exactly when
   * the path says it sits on the RIGHT.
   */
  lemma PositionSide(l: Links, ctx: seq<Frame>, t: Tree, top: int)
    requires l.Valid() && t.Node?
    requires CtxRepr(l, ctx, t.id, top) && Repr(l, t, t.id, Up(ctx)) && Distinct(Plug(ctx, t))
    ensures l.parent[t.id] == Up(ctx)
    ensures ctx != [] ==> (l.right[ctx[0].id] == t.id <==> ctx[0].side == RIGHT)
  {
    if ctx != [] {
      var F := ctx[0];
      PlugIds(ctx, t);
      CtxIdsSplit(ctx);
      ReprIds(l, F.other, l.Child(F.id, !F.side), F.id);
      assert t.id in Ids(t);
    }
  }

  /** The top of a non-empty path is one of its nodes. */
  lemma {:induction false} CtxTop(l: Links, ctx: seq<Frame>, hole: int, top: int)
    requires l.Valid() && CtxRepr(l, ctx, hole, top) && ctx != []
    ensures top in Ids(Plug(ctx, Nil))
    decreases |ctx|
  {
    CtxIdsSplit(ctx);
    if ctx[1..] != [] {
      CtxTop(l, ctx[1..], ctx[0].id, top);
    }
  }

  /** l' is l with nodes appended: the existing nodes keep their links. */
  predicate Grows(l: Links, l': Links) {
    && l.Valid() && l'.Valid() && l.Size() <= l'.Size()
    && forall j :: 0 <= j < l.Size() ==> l'.parent[j] == l.parent[j] && l'.left[j] == l.left[j] && l'.right[j] == l.right[j]
  }

  lemma {:induction false} ReprGrows(l: Links, l': Links, t: Tree, k: int, p: int)
    requires Grows(l, l') && Repr(l, t, k, p)
    ensures Repr(l', t, k, p)
    decreases t
  {
    if t.Node? {
      ReprGrows(l, l', t.left, l.left[t.id], t.id);
      ReprGrows(l, l', t.right, l.right[t.id], t.id);
    }
  }

  lemma {:induction false} CtxReprGrows(l: Links, l': Links, ctx: seq<Frame>, hole: int, top: int)
    requires Grows(l, l') && CtxRepr(l, ctx, hole, top)
    ensures CtxRepr(l', ctx, hole, top)
    decreases |ctx|
  {
    if ctx != [] {
      var F := ctx[0];
      ReprGrows(l, l', F.other, l.Child(F.id, !F.side), F.id);
      CtxReprGrows(l, l', ctx[1..], F.id, top);
    }
  }

  /** A node of a held path's subtree is the path's top exactly when the path is empty. */
  lemma RootPath(l: Links, ctx: seq<Frame>, t: Tree, top: int)
    requires l.Valid() && t.Node? && CtxRepr(l, ctx, t.id, top) && Distinct(Plug(ctx, t))
    ensures t.id == top <==> ctx == []
  {
    if ctx != [] {
      CtxTop(l, ctx, t.id, top);
      PlugIds(ctx, t);
      assert t.id in Ids(t);
    }
  }

  /** The arena with one more node, which has no links. */
  function Grown(l: Links): Links {
    Links(l.parent + [NIL], l.left + [NIL], l.right + [NIL])
  }

  /** The arena after a leaf n enters the empty position ctx describes (or becomes the top). */
  function Leafed(l: Links, ctx: seq<Frame>, side: bool): Links
    requires l.Valid() && (ctx != [] ==> 0 <= ctx[0].id < l.Size())
  {
    var l1 := Grown(l);
    if ctx == [] then l1 else Swapped(l1, ctx[0].id, side, l.Size()).0
  }

  /**
   * A new node n, appended to the arena and put into the empty position of a
   * held path (on the side the path names), is held there as a leaf: the
   * whole tree, path and leaf, is held, with n as top when the path is empty.
   */
  lemma LeafPlaced(l: Links, ctx: seq<Frame>, top: int, side: bool)
    requires l.Valid() && CtxRepr(l, ctx, NIL, top) && Distinct(Plug(ctx, Nil))
    requires ctx != [] ==> side == ctx[0].side
    ensures ctx != [] ==> 0 <= ctx[0].id < l.Size()
    ensures
      var n, l2 := l.Size(), Leafed(l, ctx, side);
      var top' := if ctx == [] then n else top;
      && l2.Valid() && l2.Size() == n + 1
      && CtxRepr(l2, ctx, n, top') && Repr(l2, Node(Nil, n, Nil), n, Up(ctx))
      && Repr(l2, Plug(ctx, Node(Nil, n, Nil)), top', NIL)
      && Distinct(Plug(ctx, Node(Nil, n, Nil)))
  {
    var n, l1 := l.Size(), Grown(l);
    var leaf := Node(Nil, n, Nil);
    assert Grows(l, l1);
    CtxReprGrows(l, l1, ctx, NIL, top);
    CtxReprIds(l, ctx, NIL, top);
    PlugIds(ctx, leaf);
    if ctx != [] {
      CtxIdsSplit(ctx);
      var l2 := Leafed(l, ctx, side);
      CtxFrame(l1, l2, ctx, NIL, n, top);
      PlugRepr(l2, ctx, leaf, top);
    }
  }

  /** The arena holds t with its top at k and no parent, the nodes are distinct, and their keys increase in order. */
  predicate Holds(l: Links, keys: seq<int>, t: Tree, k: int) {
    && l.Valid() && |keys| == l.Size()
    && Repr(l, t, k, NIL) && Distinct(t)
    && Increasing(Values(keys, t))
  }


  /**
   * The last step of `join`: the top m of one tree, which has no right child,
   * takes the other tree on its RIGHT. Only m and the other tree's top change
   * links.
   */
  lemma Hung(l: Links, a: Tree, m: int, tb: Tree, r: int)
    requires l.Valid() && Repr(l, Node(a, m, Nil), m, NIL) && Repr(l, tb, r, NIL)
    requires Distinct(Node(a, m, Nil)) && Distinct(tb) && Ids(Node(a, m, Nil)) !! Ids(tb)
    ensures l.IsRef(r)
    ensures
      var l' := Swapped(l, m, RIGHT, r).0;
      && Repr(l', Node(a, m, tb), m, NIL) && Distinct(Node(a, m, tb))
      && forall k :: 0 <= k < l.Size() && k != m && k != r ==> Same(l, l', k)
  {
    ReprIds(l, tb, r, NIL);
    ReprIds(l, a, l.left[m], m);
    var l' := Swapped(l, m, RIGHT, r).0;
    assert m in Ids(Node(a, m, Nil));
    if tb.Node? {
      assert tb.id in Ids(tb);
    }
    forall k | k in Ids(a) && k != Top(a) ensures Same(l, l', k) {
      assert k in Ids(Node(a, m, Nil));
    }
    if a.Node? {
      assert a.id in Ids(Node(a, m, Nil));
    }
    ReprFrame(l, l', a, m, m);
    ReprFrame(l, l', tb, NIL, m);
  }

  /**
   * Node x gives up its child on one side: the subtree held there is then
   * held on its own, with no parent.
   */
  lemma Unhang(l: Links, c: Tree, x: int, side: bool)
    requires l.Valid() && 0 <= x < l.Size() && Repr(l, c, l.Child(x, side), x) && Distinct(c) && x !in Ids(c)
    ensures Repr(Swapped(l, x, side, NIL).0, c, Top(c), NIL)
  {
    var l' := Swapped(l, x, side, NIL).0;
    ReprIds(l, c, l.Child(x, side), x);
    forall k | k in Ids(c) && k != Top(c) ensures Same(l, l', k) {
    }
    ReprFrame(l, l', c, x, NIL);
  }

  /** Only x and the tops of its two subtrees change links when x gives up both children. */
  lemma UnhungOthers(l: Links, t: Tree, p: int)
    requires l.Valid() && t.Node? && Repr(l, t, t.id, p)
    ensures
      var x := t.id;
      var l2 := Swapped(Swapped(l, x, LEFT, NIL).0, x, RIGHT, NIL).0;
      forall k :: 0 <= k < l.Size() && k !in Ids(t) ==> Same(l, l2, k)
  {
    ReprIds(l, t.left, l.left[t.id], t.id);
    ReprIds(l, t.right, l.right[t.id], t.id);
  }

  /**
   * The first steps of `delete`: node x gives up both children. Each subtree
   * is then held on its own with no parent; x keeps its parent link, and no
   * other node than x and the two subtrees' tops changes links.
   */
  lemma Unhung(l: Links, t: Tree, p: int)
    requires l.Valid() && t.Node? && Repr(l, t, t.id, p) && Distinct(t)
    ensures
      var x := t.id;
      var l2 := Swapped(Swapped(l, x, LEFT, NIL).0, x, RIGHT, NIL).0;
      && Repr(l2, t.left, l.left[x], NIL) && Repr(l2, t.right, l.right[x], NIL)
      && forall k :: 0 <= k < l.Size() && k !in Ids(t) ==> Same(l, l2, k)
  {
    var x, a, b := t.id, t.left, t.right;
    var l1 := Swapped(l, x, LEFT, NIL).0;
    var l2 := Swapped(l1, x, RIGHT, NIL).0;
    UnhungOthers(l, t, p);
    assert Repr(l2, a, l.left[x], NIL) && Repr(l2, b, l.right[x], NIL) by {
      ReprIds(l, a, l.left[x], x);
      ReprIds(l, b, l.right[x], x);
      Unhang(l, a, x, LEFT);
      forall k | k in Ids(b) && k != Top(b) ensures Same(l, l1, k) {
      }
      ReprFrame(l, l1, b, x, x);
      Unhang(l1, b, x, RIGHT);
      forall k | k in Ids(a) && k != Top(a) ensures Same(l1, l2, k) {
      }
      ReprFrame(l1, l2, a, NIL, NIL);
    }
  }

  /**
   * The last step of `delete` below a parent: the parent of the removed node x
   * takes, in x's slot, the tree tj joined from x's subtrees. The whole tree is
   * then the path with tj at the position.
   */
  lemma Replaced(l: Links, ctx: seq<Frame>, x: int, top: int, tj: Tree, j: int)
    requires l.Valid() && ctx != [] && 0 <= x < l.Size()
    requires CtxRepr(l, ctx, x, top) && Distinct(Plug(ctx, Nil)) && x !in Ids(Plug(ctx, Nil))
    requires Repr(l, tj, j, NIL) && Distinct(tj) && Ids(tj) !! Ids(Plug(ctx, Nil)) && x !in Ids(tj)
    ensures l.IsRef(j) && 0 <= Up(ctx) < l.Size()
    ensures Repr(Swapped(l, Up(ctx), ctx[0].side, j).0, Plug(ctx, tj), top, NIL)
  {
    var p, s := ctx[0].id, ctx[0].side;
    CtxReprIds(l, ctx, x, top);
    CtxIdsSplit(ctx);
    ReprIds(l, tj, j, NIL);
    var l' := Swapped(l, p, s, j).0;
    forall k | k in Ids(Plug(ctx, Nil)) && k != p ensures Same(l, l', k) {
    }
    CtxFrame(l, l', ctx, x, j, top);
    forall k | k in Ids(tj) && k != j ensures Same(l, l', k) {
    }
    ReprFrame(l, l', tj, NIL, p);
    PlugRepr(l', ctx, tj, top);
  }

  /** A path stays represented when none of its nodes' links change. */
  lemma PathKept(l: Links, l': Links, ctx: seq<Frame>, hole: int, top: int)
    requires l.Valid() && l'.Valid() && l'.Size() == l.Size()
    requires CtxRepr(l, ctx, hole, top) && Distinct(Plug(ctx, Nil))
    requires forall k :: k in Ids(Plug(ctx, Nil)) ==> Same(l, l', k)
    ensures CtxRepr(l', ctx, hole, top)
  {
    if ctx != [] {
      CtxIdsSplit(ctx);
      assert Same(l, l', ctx[0].id);
    }
    CtxFrame(l, l', ctx, hole, hole, top);
  }

  /**
   * Before `delete` detaches node t.id: the path above it and its two
   * subtrees are represented and share no node; once the node gives up both
   * children, each subtree stands alone and the path's nodes keep their links.
   */
  lemma DetachSetting(l: Links, ctx: seq<Frame>, t: Tree, top: int)
    requires l.Valid() && t.Node? && Repr(l, Plug(ctx, t), top, NIL) && Distinct(Plug(ctx, t))
    ensures 0 <= t.id < l.Size() && CtxRepr(l, ctx, t.id, top) && Up(ctx) == l.parent[t.id]
    ensures Distinct(Plug(ctx, Nil)) && Distinct(t.left) && Distinct(t.right) && Ids(t.left) !! Ids(t.right)
    ensures Ids(Plug(ctx, Nil)) !! Ids(t) && t.id !in Ids(t.left) + Ids(t.right)
    ensures Ids(t) == Ids(t.left) + {t.id} + Ids(t.right)
    ensures
      var l2 := Swapped(Swapped(l, t.id, LEFT, NIL).0, t.id, RIGHT, NIL).0;
      && Repr(l2, t.left, l.left[t.id], NIL) && Repr(l2, t.right, l.right[t.id], NIL)
      && forall k :: k in Ids(Plug(ctx, Nil)) ==> Same(l, l2, k)
  {
    PlugRepr(l, ctx, t, top);
    PlugIds(ctx, t);
    CtxReprIds(l, ctx, t.id, top);
    Unhung(l, t, Up(ctx));
  }
}
