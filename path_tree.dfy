/**
 * The link-cut path tree of max_flow/PathTreeRework.py as a class whose
 * methods rewrite the nodes in place. Nodes live in one arena and are named
 * by their index, which is also the source's `label`. Each method is proved
 * against the pure step it performs (Rotated, Spliced) or against the
 * absolute costs and in-order sequences of the forest before the call.
 */
module PathTrees {
  import opened BinaryNodes
  import opened PathForests
  import opened PathChains
  import opened PathRotation
  import opened PathSplice
  import opened PathSplaySteps
  import opened PathRotationKeeps
  import opened PathCosts
  import opened PathLinks
  import opened PathRoots

  /** The forest with one more node: no links, no dashed children, zero deltas, no next node. */
  function WithNode(f: Forest): (r: Forest)
    requires Shaped(f)
    ensures Shaped(r) && N(r) == N(f) + 1
  {
    var n := N(f);
    Forest(
      Links(f.links.parent + [NIL], f.links.left + [NIL], f.links.right + [NIL]),
      f.middle + [{}], f.deltaCost + [0], f.deltaMin + [0], f.next + [NIL], f.sub + [{n}])
  }

  /** A fresh node keeps the forest well formed, is a root of cost 0, and changes no other cost. */
  lemma WithNodeKeeps(f: Forest)
    requires Valid(f)
    ensures var r := WithNode(f);
      && Valid(r) && r.links.parent[N(f)] == NIL && SolidCost(r, N(f)) == 0
      && (forall k :: 0 <= k < N(f) ==> SolidCost(r, k) == SolidCost(f, k))
  {
    var r := WithNode(f);
    WithNodeValid(f);
    forall k | 0 <= k < N(f) ensures SolidCost(r, k) == SolidCost(f, k) {
      WithNodeCost(f, k);
    }
  }

  /** A fresh node keeps the forest well formed. */
  lemma WithNodeValid(f: Forest)
    requires Valid(f)
    ensures Valid(WithNode(f))
  {
    var r := WithNode(f);
    forall k | 0 <= k < N(f) ensures NodeOK(r, k) {
      assert NodeOK(f, k);
      WithNodeMidSub(f, k);
    }
    assert SubOK(r, N(f));
  }

  lemma WithNodeMidSub(f: Forest, k: int)
    requires Valid(f) && IsNode(f, k)
    ensures MidSub(WithNode(f), k) == MidSub(f, k)
  {
    var r := WithNode(f);
    assert NodeOK(f, k);
    forall y | y in MidSub(r, k) ensures y in MidSub(f, k) {
      var m :| m in r.middle[k] && 0 <= m < |r.sub| && y in r.sub[m];
      assert m < N(f) && r.sub[m] == f.sub[m];
    }
    forall y | y in MidSub(f, k) ensures y in MidSub(r, k) {
      var m :| m in f.middle[k] && 0 <= m < |f.sub| && y in f.sub[m];
      assert r.sub[m] == f.sub[m];
    }
  }

  lemma {:induction false} WithNodeCost(f: Forest, k: int)
    requires Valid(f) && Valid(WithNode(f)) && IsNode(f, k)
    ensures SolidCost(WithNode(f), k) == SolidCost(f, k)
    decreases Range(N(f)) - f.sub[k]
  {
    var r := WithNode(f);
    assert Side(r, k) == Side(f, k);
    if Side(f, k).Some? {
      ParentAbove(f, k);
      WithNodeCost(f, f.links.parent[k]);
    }
  }

  /** Rotated, with the names of its setting bound. */
  lemma RotatedParts(f: Forest, x: int, side: bool, p: int, a: int, b: int, c: int, g: int, gs: Option<bool>)
    requires Setting(f, x, side, p, a, b, c, g, gs)
    ensures
      var mid := if g != NIL && gs.None? then f.middle[g := f.middle[g] - {p} + {x}] else f.middle;
      var dc := RotatedDeltaCost(f.deltaCost, x, p, b);
      var sub := f.sub[x := f.sub[p]][p := {p} + S(f, b) + S(f, c) + MidSub(f, p)];
      Rotated(f, x) == (Forest(RotatedLinks(f.links, x, side, p, b, g, gs), mid, dc, RotatedDeltaMin(f, dc, x, p, a, b, c), f.next, sub), gs.Some?)
  {
  }

  /** The reattachment that follows the first two swaps completes the rotation's link surgery. */
  lemma ReattachedLinks(l: Links, x: int, side: bool, p: int, b: int, l2: Links, g: int, gs: Option<bool>, l4: Links)
    requires l.Valid() && 0 <= x < l.Size() && 0 <= p < l.Size() && l.IsRef(b)
    requires l2 == Swapped(Swapped(l, x, !side, NIL).0, p, side, b).0
    requires g == l2.parent[p] && (gs.Some? ==> g != NIL)
    requires
      var l3 :=
        if g == NIL then l2
        else if gs.Some? then Swapped(l2, g, gs.value, x).0
        else l2.(parent := l2.parent[x := g]);
      l4 == Swapped(l3, x, !side, p).0
    ensures l4 == RotatedLinks(l, x, side, p, b, g, gs)
  {
  }

  /** The first two swaps of a rotation leave p's parent and side alone. */
  lemma GrandparentKept(f: Forest, x: int, side: bool, p: int, a: int, b: int, c: int, g: int, gs: Option<bool>, l2: Links)
    requires Setting(f, x, side, p, a, b, c, g, gs)
    requires l2 == Swapped(Swapped(f.links, x, !side, NIL).0, p, side, b).0
    ensures l2.Valid() && 0 <= p < l2.Size() && l2.parent[p] == g && SideOf(l2, p) == gs
  {
    SettingFacts(f, x, side, p, a, b, c, g, gs);
  }

  /** How far `_solid_splay` has got: x is on its way up from f0 to top0's place. */
  ghost predicate SolidSplaying(f0: Forest, top0: int, f: Forest, x: int, top: int, y: int)
  {
    && IsNode(f0, top0) && CostsKept(f0, f)
    && IsNode(f, x) && IsNode(f, top) && IsNode(f, y)
    && SolidTo(f, x, top) && Side(f, top).None?
    && f.links.parent[top] == f0.links.parent[top0] && InOrder(f, top) == InOrder(f0, top0)
    && f0.sub[x] <= f.sub[x] && DashedTo(f, y, x)
  }

  /** One more rotation keeps the splay on track, and x's descendant set grows inside the arena. */
  lemma RotatedSplaying(f0: Forest, top0: int, f: Forest, x: int, top: int, y: int)
    requires SolidSplaying(f0, top0, f, x, top, y) && Side(f, x).Some?
    ensures var (f', more) := Rotated(f, x);
      && SolidSplaying(f0, top0, f', x, if f.links.parent[x] == top then x else top, y)
      && (more <==> Side(f', x).Some?)
      && Range(N(f)) - f'.sub[x] < Range(N(f)) - f.sub[x]
  {
    var f' := Rotated(f, x).0;
    RotatedKeeps(f, x);
    RotatedChains(f, x, top, y);
    assert NodeOK(f', x);
  }

  /** f is f0 after steps that keep the forest well formed and every absolute cost. */
  ghost predicate CostsKept(f0: Forest, f: Forest)
  {
    && Valid(f0) && Valid(f) && N(f) == N(f0) && f.next == f0.next
    && (forall k :: 0 <= k < N(f0) ==> SolidCost(f, k) == SolidCost(f0, k))
  }

  lemma CostsKeptTrans(f0: Forest, f1: Forest, f2: Forest)
    requires CostsKept(f0, f1) && CostsKept(f1, f2)
    ensures CostsKept(f0, f2)
  {
  }

  /** A node on the path of a top node (one with no parent) has that node as its solid root. */
  lemma TopSolidRoot(f: Forest, top: int, y: int)
    requires Valid(f) && IsNode(f, top) && f.links.parent[top] == NIL && y in InOrder(f, top)
    ensures IsNode(f, y) && SolidRoot(f, y) == top
  {
    InOrderSolidTo(f, top, y);
    SolidRootUnique(f, y, top);
  }

  /** The part of x's solid subtree from x on is x followed by its right subtree. */
  lemma FromSelf(f: Forest, x: int)
    requires Valid(f) && IsNode(f, x)
    ensures f.links.IsRef(f.links.right[x])
    ensures From(InOrder(f, x), x) == [x] + InOrder(f, f.links.right[x])
  {
    InOrderUnfold(f, x);
    NotLeftOfSelf(f, x);
    FromSplit(InOrder(f, f.links.left[x]), x, InOrder(f, f.links.right[x]));
  }

  /** Pass 1 of `_splay` climbs one dashed edge: from node, a solid root, to its parent r. */
  lemma DashedClimb(f: Forest, x: int, node: int)
    requires Valid(f) && IsNode(f, x) && IsNode(f, node) && DashedTo(f, x, node)
    requires Side(f, node).None? && f.links.parent[node] != NIL
    ensures var r := f.links.parent[node];
      IsNode(f, r) && DashedTo(f, x, r) && f.sub[node] < f.sub[r]
  {
    var r := f.links.parent[node];
    SubUp(f, node);
    assert DashedTo(f, node, r);
    DashedToTrans(f, x, node, r);
  }

  /** The set of nodes outside a descendant set shrinks as the set grows. */
  lemma OutsideShrinks(f: Forest, k: int, inner: set<int>)
    requires Valid(f) && IsNode(f, k) && inner < f.sub[k]
    ensures Range(N(f)) - f.sub[k] < Range(N(f)) - inner
  {
    assert NodeOK(f, k);
    assert f.sub[k] <= Range(N(f));
  }

  /** A node that ends its own in-order sequence has no right child. */
  lemma LastNoRight(f: Forest, k: int)
    requires Valid(f) && IsNode(f, k) && InOrder(f, k)[|InOrder(f, k)| - 1] == k
    ensures f.links.right[k] == NIL
  {
    InOrderUnfold(f, k);
    var r := f.links.right[k];
    if r != NIL {
      ChildBelow(f, k, r);
      var y := InOrder(f, k)[|InOrder(f, k)| - 1];
      assert y == InOrder(f, r)[|InOrder(f, r)| - 1];
      InOrderSolidTo(f, r, y);
      SolidToSub(f, y, r);
      OwnSub(f, y);
      assert false;
    }
  }

  /**
   * Splaying x and then a node of its new solid path: the second splay
   * finds x's root path where the first one left it.
   */
  lemma SplayedTwice(f0: Forest, mid: Forest, f: Forest, x: int, node: int)
    requires SameTrees(f0, mid, x) && IsNode(mid, x) && mid.links.parent[x] == NIL && InOrder(mid, x) == RootPath(f0, x)
    requires SameTrees(mid, f, node) && IsNode(mid, node) && SolidRoot(mid, node) == x
    requires f.links.parent[node] == NIL && InOrder(f, node) == RootPath(mid, node)
    ensures SameTrees(f0, f, x) && InOrder(f, node) == RootPath(f0, x)
  {
    TopRootPath(mid, x);
    TopRootPath(f, node);
    InOwnRoot(mid, node);
    RootPathMember(mid, x, node);
    RootPathMember(f, node, x);
  }

  class PathForest {
    const links: NodeArena
    var middle: seq<set<int>>
    var deltaCost: seq<int>
    var deltaMin: seq<int>
    var next: seq<int>
    ghost var sub: seq<set<int>>

    ghost function Snap(): Forest
      reads this, links
    {
      Forest(links.View(), middle, deltaCost, deltaMin, next, sub)
    }

    ghost predicate Valid()
      reads this, links
    {
      PathForests.Valid(Snap())
    }

    constructor ()
      ensures Valid() && N(Snap()) == 0 && fresh(links)
    {
      links := new NodeArena();
      middle, deltaCost, deltaMin, next := [], [], [], [];
      sub := [];
    }

    /** `PathTree(label)`: a new node, numbered by its position, alone in its own tree. */
    method AddNode() returns (k: int)
      requires Valid()
      modifies this, links
      ensures Valid() && k == N(old(Snap())) && Snap() == WithNode(old(Snap()))
      ensures SolidCost(Snap(), k) == 0
      ensures forall j :: 0 <= j < k ==> SolidCost(Snap(), j) == SolidCost(old(Snap()), j)
    {
      WithNodeKeeps(Snap());
      k := links.NewNode();
      middle, deltaCost, deltaMin, next := middle + [{}], deltaCost + [0], deltaMin + [0], next + [NIL];
      sub := sub + [{k}];
    }

    /** `adopt_middle`: child hangs from k by a dashed edge. */
    method AdoptMiddle(k: int, child: int)
      requires links.Valid() && |middle| == |links.parent| && 0 <= k < |middle| && 0 <= child < |middle|
      modifies this, links
      ensures middle == old(middle)[k := old(middle)[k] + {child}]
      ensures links.View() == old(links.View()).(parent := old(links.parent)[child := k])
      ensures deltaCost == old(deltaCost) && deltaMin == old(deltaMin) && next == old(next) && sub == old(sub)
    {
      middle := middle[k := middle[k] + {child}];
      links.SetParent(child, k);
    }

    /**
     * The cost block of `_rotate`: x absorbs p's deltaCost, p takes minus x's
     * old one and b gains it; then p's and x's deltaMin are recomputed from
     * their new children, p's first.
     */
    method RotateCosts(ghost f: Forest, x: int, p: int, a: int, b: int, c: int)
      requires Shaped(f) && deltaCost == f.deltaCost && deltaMin == f.deltaMin
      requires IsNode(f, x) && IsNode(f, p) && f.links.IsRef(a) && f.links.IsRef(b) && f.links.IsRef(c)
      requires x != p && b != x && b != p
      modifies this
      ensures deltaCost == RotatedDeltaCost(f.deltaCost, x, p, b)
      ensures deltaMin == RotatedDeltaMin(f, deltaCost, x, p, a, b, c)
      ensures middle == old(middle) && next == old(next) && sub == old(sub)
    {
      var dx := deltaCost[x];
      deltaCost := deltaCost[x := dx + deltaCost[p]][p := -dx];
      var bDiff := 0;
      if b != NIL {
        deltaCost := deltaCost[b := deltaCost[b] + dx];
        bDiff := deltaMin[b] - deltaCost[b];
      }
      var cDiff := if c != NIL then deltaMin[c] - deltaCost[c] else 0;
      var aDiff := if a != NIL then deltaMin[a] - deltaCost[a] else 0;
      var pDiff := deltaMin[p] - deltaCost[p];
      deltaMin := deltaMin[p := Max3(0, bDiff, cDiff)];
      deltaMin := deltaMin[x := Max3(0, aDiff, pDiff)];
    }

    /**
     * The last block of `_rotate`: the grandparent g takes x in p's solid
     * slot, or swaps p for x among its dashed children; then x takes p.
     */
    method RotateReattach(x: int, side: bool, p: int, g: int, gs: Option<bool>) returns (more: bool)
      requires links.Valid() && |middle| == |links.parent|
      requires 0 <= x < |middle| && 0 <= p < |middle| && -1 <= g < |middle| && (gs.Some? ==> g != NIL)
      modifies this, links
      ensures more == (g != NIL && gs.Some?)
      ensures var l := old(links.View());
        var l3 :=
          if g == NIL then l
          else if gs.Some? then Swapped(l, g, gs.value, x).0
          else l.(parent := l.parent[x := g]);
        links.View() == Swapped(l3, x, !side, p).0
      ensures middle == if g != NIL && gs.None? then old(middle)[g := old(middle)[g] - {p} + {x}] else old(middle)
      ensures deltaCost == old(deltaCost) && deltaMin == old(deltaMin) && next == old(next) && sub == old(sub)
    {
      more := false;
      if g != NIL {
        if gs.Some? {
          var _ := links.Swap(g, gs.value, x);
          more := true;
        } else {
          middle := middle[g := middle[g] - {p}];
          AdoptMiddle(g, x);
        }
      }
      var _ := links.Swap(x, !side, p);
    }

    /**
     * `_rotate`: lift the solid child x over its parent, swap for swap as the
     * source does, and report whether x is still a solid child.
     */
    method Rotate(x: int) returns (more: bool)
      requires Valid() && IsNode(Snap(), x)
      modifies this, links
      ensures (Snap(), more) == Rotated(old(Snap()), x)
    {
      var s := SideOf(links.View(), x);
      if s.None? {
        assert Side(Snap(), x).None?;
        return false;
      }
      more := RotateSolid(x, s.value);
    }

    /** `_rotate` for a solid child x on the given side of its parent. */
    method RotateSolid(x: int, side: bool) returns (more: bool)
      requires Valid() && IsNode(Snap(), x) && Side(Snap(), x) == Some(side)
      modifies this, links
      ensures (Snap(), more) == Rotated(old(Snap()), x)
    {
      ghost var f := Snap();
      ghost var side', p', a', b', c', g', gs' := RotateSetting(f, x);
      SettingFacts(f, x, side', p', a', b', c', g', gs');
      var p := links.parent[x];
      var a := links.View().Child(x, side);
      var c := links.View().Child(p, !side);
      var b;
      b, more := RotateLinks(f, x, side, p, a, b', c, g', gs');
      RotateCosts(f, x, p, a, b, c);
      sub := f.sub[x := f.sub[p]][p := {p} + S(f, b) + S(f, c) + MidSub(f, p)];
      RotatedParts(f, x, side', p', a', b', c', g', gs');
    }

    /**
     * The link surgery of `_rotate`: x gives up its child b on the side
     * away from p, p takes b in x's place, and the grandparent and x are
     * reattached.
     */
    method RotateLinks(ghost f: Forest, x: int, side: bool, p: int, ghost a: int, ghost b0: int, ghost c: int, ghost g: int, ghost gs: Option<bool>)
      returns (b: int, more: bool)
      requires Valid() && Snap() == f && Setting(f, x, side, p, a, b0, c, g, gs)
      modifies this, links
      ensures b == b0 && more == gs.Some?
      ensures links.View() == RotatedLinks(f.links, x, side, p, b, g, gs)
      ensures middle == if g != NIL && gs.None? then f.middle[g := f.middle[g] - {p} + {x}] else f.middle
      ensures deltaCost == f.deltaCost && deltaMin == f.deltaMin && next == f.next && sub == f.sub
    {
      b := links.Give(x, !side);
      var _ := links.Swap(p, side, b);
      ghost var l2 := links.View();
      GrandparentKept(f, x, side, p, a, b, c, g, gs, l2);
      var g' := links.parent[p];
      var gs' := SideOf(links.View(), p);
      more := RotateReattach(x, side, p, g', gs');
      ReattachedLinks(f.links, x, side, p, b, l2, g, gs, links.View());
    }

    /**
     * `_splice`: the dashed child x replaces its parent q's left child, which
     * becomes a dashed child of q in turn; returns q, or NIL when x is a solid
     * child or has no parent.
     */
    method Splice(x: int) returns (q: int)
      requires Valid() && IsNode(Snap(), x)
      modifies this, links
      ensures (Snap(), q) == Spliced(old(Snap()), x)
    {
      var s := SideOf(links.View(), x);
      if s.Some? {
        return NIL;
      }
      q := links.parent[x];
      if q == NIL {
        return NIL;
      }
      SpliceAt(x, q);
    }

    /** `_splice` for a dashed child x of q. */
    method SpliceAt(x: int, q: int)
      requires Valid() && IsNode(Snap(), x) && Side(Snap(), x).None? && q == links.parent[x] && q != NIL
      modifies this, links
      ensures (Snap(), q) == Spliced(old(Snap()), x)
    {
      ghost var f := Snap();
      assert x != q && links.left[q] != q by {
        SpliceFacts(f, x, q, links.left[q]);
      }
      var u := SpliceLinks(x, q);
      if u != NIL {
        deltaCost := deltaCost[u := deltaCost[u] + deltaCost[q]];
      }
      deltaCost := deltaCost[x := deltaCost[x] - deltaCost[q]];
      var ur := links.right[q];
      var urDiff := if ur != NIL then deltaMin[ur] - deltaCost[ur] else 0;
      var sDiff := deltaMin[x] - deltaCost[x];
      deltaMin := deltaMin[q := Max3(0, sDiff, urDiff)];
    }

    /**
     * The link surgery of `_splice`: x leaves q's dashed children to become
     * its left child, and q's former left child u becomes a dashed child.
     */
    method SpliceLinks(x: int, q: int) returns (u: int)
      requires links.Valid() && |middle| == |links.parent| && 0 <= x < |middle| && 0 <= q < |middle|
      modifies this, links
      ensures var (l1, u') := Swapped(old(links.View()), q, LEFT, x);
        && u == u'
        && links.View() == (if u != NIL then l1.(parent := l1.parent[u := q]) else l1)
      ensures var mid1 := old(middle)[q := old(middle)[q] - {x}];
        middle == if u != NIL then mid1[q := mid1[q] + {u}] else mid1
      ensures deltaCost == old(deltaCost) && deltaMin == old(deltaMin) && next == old(next) && sub == old(sub)
    {
      middle := middle[q := middle[q] - {x}];
      u := links.Swap(q, LEFT, x);
      if u != NIL {
        AdoptMiddle(q, u);
      }
    }

    /**
     * `_solid_splay`: rotate x until it is the root of its solid tree, and
     * return its parent then (the node x hangs from by a dashed edge, or NIL).
     * x ends where its solid root was: same parent, same in-order sequence.
     * Every absolute cost is kept, and a dashed walk from y down to x survives.
     */
    method SolidSplay(x: int, ghost y: int) returns (r: int)
      requires Valid() && IsNode(Snap(), x) && IsNode(Snap(), y) && DashedTo(Snap(), y, x)
      modifies this, links
      ensures Valid() && CostsKept(old(Snap()), Snap())
      ensures Side(Snap(), x).None? && r == links.parent[x]
      ensures r == old(links.parent[SolidRoot(Snap(), x)])
      ensures InOrder(Snap(), x) == InOrder(old(Snap()), SolidRoot(old(Snap()), x))
      ensures old(sub[x]) <= sub[x] && DashedTo(Snap(), y, x)
      ensures SameTrees(old(Snap()), Snap(), y)
    {
      ghost var f0 := Snap();
      ghost var top0 := SolidRoot(f0, x);
      ghost var top := top0;
      if Side(f0, x).Some? {
        RotatedSplaying(f0, top0, f0, x, top, y);
        RotatedTrees(f0, x, y);
        top := if f0.links.parent[x] == top then x else top;
      }
      var more := Rotate(x);
      while more
        invariant Valid() && SolidSplaying(f0, top0, Snap(), x, top, y)
        invariant SameTrees(f0, Snap(), y)
        invariant more <==> Side(Snap(), x).Some?
        decreases Range(N(f0)) - sub[x]
      {
        more, top := SplayStep(f0, top0, x, top, y);
      }
      SolidToRoot(Snap(), x, top);
      r := links.parent[x];
    }

    /** One rotation of `_solid_splay`, which keeps the splay on track and lifts x. */
    method SplayStep(ghost f0: Forest, ghost top0: int, x: int, ghost top: int, ghost y: int) returns (more: bool, ghost top': int)
      requires Valid() && SolidSplaying(f0, top0, Snap(), x, top, y) && Side(Snap(), x).Some?
      requires SameTrees(f0, Snap(), y)
      modifies this, links
      ensures Valid() && SolidSplaying(f0, top0, Snap(), x, top', y)
      ensures SameTrees(f0, Snap(), y)
      ensures more <==> Side(Snap(), x).Some?
      ensures Range(N(f0)) - sub[x] < Range(N(f0)) - old(sub[x])
    {
      ghost var f := Snap();
      RotatedSplaying(f0, top0, f, x, top, y);
      RotatedTrees(f, x, y);
      top' := if f.links.parent[x] == top then x else top;
      more := Rotate(x);
      SameTreesTrans(f0, f, Snap(), y);
    }

    /**
     * `_splay`: bring x to the top of its whole tree. Pass 1 splays every
     * solid tree on the way up, pass 2 splices the dashed edges into one solid
     * path, pass 3 splays x within it. Every absolute cost is kept, and so
     * is every represented tree; x's solid path is now the whole root path
     * it lay on, from its deepest node up to the root of its tree.
     */
    method Splay(x: int)
      requires Valid() && IsNode(Snap(), x)
      modifies this, links
      ensures Valid() && CostsKept(old(Snap()), Snap()) && links.parent[x] == NIL
      ensures SameTrees(old(Snap()), Snap(), x) && InOrder(Snap(), x) == RootPath(old(Snap()), x)
      ensures old(links.parent[SolidRoot(Snap(), x)]) == NIL ==>
        InOrder(Snap(), x) == InOrder(old(Snap()), SolidRoot(old(Snap()), x))
      ensures old(links.parent[x]) == NIL ==> Snap() == old(Snap())
    {
      ghost var f0 := Snap();
      if links.parent[x] == NIL {
        TopRootPath(f0, x);
        return;
      }
      var node := SolidSplayUp(x);
      if links.parent[x] == NIL {
        TopRootPath(Snap(), x);
        return;
      }
      ghost var f1 := Snap();
      node := SpliceUp(x, node);
      CostsKeptTrans(f0, f1, Snap());
      SameTreesTrans(f0, f1, Snap(), x);
      // 3rd pass
      SolidRootUnique(Snap(), x, node);
      ghost var f2 := Snap();
      var _ := SolidSplay(x, x);
      CostsKeptTrans(f0, f2, Snap());
      SameTreesTrans(f0, f2, Snap(), x);
      TopRootPath(Snap(), x);
    }

    /**
     * The 1st pass of `_splay`: splay every solid tree from x's up to the
     * top one, and return the top one's root.
     */
    method SolidSplayUp(x: int) returns (node: int)
      requires Valid() && IsNode(Snap(), x)
      modifies this, links
      ensures Valid() && CostsKept(old(Snap()), Snap())
      ensures IsNode(Snap(), node) && DashedTo(Snap(), x, node) && Side(Snap(), node).None? && links.parent[node] == NIL
      ensures old(links.parent[SolidRoot(Snap(), x)]) == NIL ==>
        node == x && InOrder(Snap(), x) == InOrder(old(Snap()), SolidRoot(old(Snap()), x))
      ensures SameTrees(old(Snap()), Snap(), x)
    {
      ghost var f0 := Snap();
      node := x;
      var r := SolidSplay(x, x);
      ghost var r0 := r;
      ghost var f := Snap();
      while r != NIL
        invariant Valid() && CostsKept(f0, Snap()) && SameTrees(f0, Snap(), x)
        invariant IsNode(Snap(), node) && DashedTo(Snap(), x, node) && Side(Snap(), node).None? && r == links.parent[node]
        invariant r0 == f0.links.parent[SolidRoot(f0, x)]
        invariant r0 == NIL ==> node == x && InOrder(Snap(), x) == InOrder(f0, SolidRoot(f0, x))
        decreases r != NIL, if r == NIL then {} else Range(N(f0)) - sub[r]
      {
        DashedClimb(Snap(), x, node);
        ghost var before := sub[r];
        node := r;
        f := Snap();
        r := SolidSplay(node, x);
        CostsKeptTrans(f0, f, Snap());
        SameTreesTrans(f0, f, Snap(), x);
        if r != NIL {
          DashedClimb(Snap(), x, node);
          OutsideShrinks(Snap(), r, before);
        }
      }
    }

    /**
     * The 2nd pass of `_splay`: once every solid tree on the way up is
     * splayed, splice the dashed edges from x up to the top into one solid
     * path, and return the top.
     */
    method SpliceUp(x: int, top: int) returns (node: int)
      requires Valid() && IsNode(Snap(), x) && links.parent[x] != NIL
      requires IsNode(Snap(), top) && DashedTo(Snap(), x, top) && Side(Snap(), top).None? && links.parent[top] == NIL
      modifies this, links
      ensures Valid() && CostsKept(old(Snap()), Snap())
      ensures IsNode(Snap(), node) && links.parent[node] == NIL && DashedUp(Snap(), node) && SolidTo(Snap(), x, node)
      ensures SameTrees(old(Snap()), Snap(), x)
    {
      ghost var f0 := Snap();
      assert DashedUp(Snap(), top);
      DashedToUp(Snap(), x, top);
      node := x;
      ghost var f := Snap();
      SplicedKeeps(f, x, x);
      SplicedTrees(f, x, x);
      var q := Splice(x);
      CostsKeptTrans(f0, f, Snap());
      while q != NIL
        invariant Valid() && CostsKept(f0, Snap()) && SameTrees(f0, Snap(), x)
        invariant q != NIL ==> IsNode(Snap(), q) && DashedUp(Snap(), q) && SolidTo(Snap(), x, q)
        invariant q == NIL ==> IsNode(Snap(), node) && links.parent[node] == NIL && DashedUp(Snap(), node) && SolidTo(Snap(), x, node)
        decreases q != NIL, if q == NIL then {} else Range(N(f0)) - sub[q]
      {
        node := q;
        ghost var moved := links.parent[node] != NIL;
        if moved {
          SubUp(Snap(), node);
          OutsideShrinks(Snap(), links.parent[node], sub[node]);
          SplicedKeeps(Snap(), node, x);
          SplicedTrees(Snap(), node, x);
        }
        f := Snap();
        q := Splice(node);
        CostsKeptTrans(f0, f, Snap());
        if moved {
          SameTreesTrans(f0, f, Snap(), x);
        }
      }
    }

    /** `find_cost`: splay x and read its cost, which is x's absolute cost before the call. */
    method FindCost(x: int) returns (c: int)
      requires Valid() && IsNode(Snap(), x)
      modifies this, links
      ensures Valid() && CostsKept(old(Snap()), Snap()) && links.parent[x] == NIL
      ensures c == SolidCost(old(Snap()), x) && c == Cost(Snap(), x)
      ensures SameTrees(old(Snap()), Snap(), x) && InOrder(Snap(), x) == RootPath(old(Snap()), x)
      ensures old(links.parent[SolidRoot(Snap(), x)]) == NIL ==>
        InOrder(Snap(), x) == InOrder(old(Snap()), SolidRoot(old(Snap()), x))
    {
      Splay(x);
      c := deltaCost[x];
    }

    /**
     * `find_root`: the last node of the path that x is on once x is splayed,
     * itself splayed to the top: the root of x's represented tree, whose
     * solid path is now x's whole root path.
     */
    method FindRoot(x: int) returns (root: int)
      requires Valid() && IsNode(Snap(), x)
      modifies this, links
      ensures Valid() && CostsKept(old(Snap()), Snap()) && IsNode(Snap(), root) && links.parent[root] == NIL
      ensures x in InOrder(Snap(), root) && InOrder(Snap(), root)[|InOrder(Snap(), root)| - 1] == root
      ensures links.right[root] == NIL
      ensures SameTrees(old(Snap()), Snap(), x) && InOrder(Snap(), root) == RootPath(old(Snap()), x)
      ensures old(links.parent[SolidRoot(Snap(), x)]) == NIL ==>
        InOrder(Snap(), root) == InOrder(old(Snap()), SolidRoot(old(Snap()), x))
    {
      ghost var f0 := Snap();
      Splay(x);
      ghost var mid := Snap();
      InOrderUnfold(mid, x);
      var node := Rightmost(x);
      SolidRootUnique(mid, node, x);
      Splay(node);
      root := node;
      LastNoRight(Snap(), root);
      SplayedTwice(f0, mid, Snap(), x, node);
    }

    /** The walk of `find_root`: down right children to the last node of top's in-order sequence. */
    method Rightmost(top: int) returns (node: int)
      requires Valid() && IsNode(Snap(), top)
      ensures IsNode(Snap(), node) && SolidTo(Snap(), node, top) && links.right[node] == NIL
      ensures InOrder(Snap(), top)[|InOrder(Snap(), top)| - 1] == node
    {
      ghost var f := Snap();
      node := top;
      ghost var prefix: seq<int> := [];
      var right := links.right[node];
      while right != NIL
        invariant IsNode(f, node) && SolidTo(f, node, top)
        invariant InOrder(f, top) == prefix + InOrder(f, node) && right == f.links.right[node]
        decreases f.sub[node]
      {
        InOrderUnfold(f, node);
        ChildBelowSolid(f, node);
        prefix := prefix + InOrder(f, f.links.left[node]) + [node];
        ChildSolidTo(f, node, right);
        SolidToTrans(f, right, node, top);
        node := right;
        right := links.right[node];
      }
      InOrderUnfold(f, node);
    }

    /**
     * `find_stem`: the first node of the path that x is on once x is
     * splayed, itself splayed to the top.
     */
    method FindStem(x: int) returns (stem: int)
      requires Valid() && IsNode(Snap(), x)
      modifies this, links
      ensures Valid() && CostsKept(old(Snap()), Snap()) && IsNode(Snap(), stem) && links.parent[stem] == NIL
      ensures x in InOrder(Snap(), stem) && InOrder(Snap(), stem)[0] == stem
      ensures SameTrees(old(Snap()), Snap(), x) && InOrder(Snap(), stem) == RootPath(old(Snap()), x)
      ensures old(links.parent[SolidRoot(Snap(), x)]) == NIL ==>
        InOrder(Snap(), stem) == InOrder(old(Snap()), SolidRoot(old(Snap()), x))
    {
      ghost var f0 := Snap();
      Splay(x);
      ghost var mid := Snap();
      InOrderUnfold(mid, x);
      var node := Leftmost(x);
      SolidRootUnique(mid, node, x);
      Splay(node);
      stem := node;
      SplayedTwice(f0, mid, Snap(), x, node);
    }

    /** The walk of `find_stem`: down left children to the first node of top's in-order sequence. */
    method Leftmost(top: int) returns (node: int)
      requires Valid() && IsNode(Snap(), top)
      ensures IsNode(Snap(), node) && SolidTo(Snap(), node, top) && links.left[node] == NIL
      ensures InOrder(Snap(), top)[0] == node
    {
      ghost var f := Snap();
      node := top;
      ghost var suffix: seq<int> := [];
      var left := links.left[node];
      while left != NIL
        invariant IsNode(f, node) && SolidTo(f, node, top)
        invariant InOrder(f, top) == InOrder(f, node) + suffix && left == f.links.left[node]
        decreases f.sub[node]
      {
        InOrderUnfold(f, node);
        ChildBelowSolid(f, node);
        suffix := [node] + InOrder(f, f.links.right[node]) + suffix;
        ChildSolidTo(f, node, left);
        SolidToTrans(f, left, node, top);
        node := left;
        left := links.left[node];
      }
      InOrderUnfold(f, node);
    }

    /**
     * `add_cost(c)`: splay x, then add c to the cost of x and of every node
     * after x on its path, and to no other node.
     */
    method AddCost(x: int, c: int)
      requires Valid() && IsNode(Snap(), x)
      modifies this, links
      ensures Valid() && N(Snap()) == N(old(Snap())) && IsNode(Snap(), x) && links.parent[x] == NIL && next == old(next)
      ensures forall k :: 0 <= k < N(old(Snap())) ==>
        SolidCost(Snap(), k) == SolidCost(old(Snap()), k) + (if k == x || k in InOrder(Snap(), links.right[x]) then c else 0)
      ensures old(links.parent[SolidRoot(Snap(), x)]) == NIL ==>
        InOrder(Snap(), x) == InOrder(old(Snap()), SolidRoot(old(Snap()), x))
      ensures old(links.parent[x]) == NIL ==> links.right[x] == old(links.right[x])
    {
      Splay(x);
      ghost var mid := Snap();
      deltaCost := deltaCost[x := deltaCost[x] + c];
      var left := links.left[x];
      if left != NIL {
        deltaCost := deltaCost[left := deltaCost[left] - c];
      }
      assert Snap() == AddedCost(mid, x, c);
      AddedCosts(mid, x, c);
      InOrderOfLinks(mid, Snap(), x);
    }

    /**
     * `cut`: splay x and detach the rest of its path (its right subtree),
     * returning that subtree's root; x forgets its next node. No absolute
     * cost changes, and x's old path splits into x's part and the rest.
     */
    method Cut(x: int) returns (right: int)
      requires Valid() && IsNode(Snap(), x)
      modifies this, links
      ensures Valid() && N(Snap()) == N(old(Snap())) && next == old(next)[x := NIL]
      ensures forall k :: 0 <= k < N(Snap()) ==> SolidCost(Snap(), k) == SolidCost(old(Snap()), k)
      ensures links.parent[x] == NIL && links.right[x] == NIL
      ensures right != NIL ==> IsNode(Snap(), right) && links.parent[right] == NIL
      ensures old(links.parent[SolidRoot(Snap(), x)]) == NIL ==>
        InOrder(old(Snap()), SolidRoot(old(Snap()), x)) == InOrder(Snap(), x) + InOrder(Snap(), right)
    {
      ghost var f0 := Snap();
      Splay(x);
      ghost var mid := Snap();
      right := CutRoot(x);
      assert CostsKept(f0, mid);
    }

    /** The rest of `cut` once x is splayed: x gives up its right child and its next node. */
    method CutRoot(x: int) returns (right: int)
      requires Valid() && IsNode(Snap(), x) && links.parent[x] == NIL
      modifies this, links
      ensures Valid() && N(Snap()) == N(old(Snap())) && next == old(next)[x := NIL]
      ensures forall k :: 0 <= k < N(Snap()) ==> SolidCost(Snap(), k) == SolidCost(old(Snap()), k)
      ensures links.parent[x] == NIL && links.right[x] == NIL
      ensures right != NIL ==> IsNode(Snap(), right) && links.parent[right] == NIL
      ensures old(InOrder(Snap(), x)) == InOrder(Snap(), x) + InOrder(Snap(), right)
    {
      ghost var mid := Snap();
      CutFacts(mid, x);
      CutValid(mid, x);
      right := links.Give(x, RIGHT);
      next := next[x := NIL];
      if right != NIL {
        deltaCost := deltaCost[right := deltaCost[right] + deltaCost[x]];
      }
      sub := sub[x := sub[x] - S(mid, right)];
      assert Snap() == CutAt(mid, x);
      forall k | 0 <= k < N(mid) ensures SolidCost(Snap(), k) == SolidCost(mid, k) {
        CutCost(mid, x, k);
      }
      CutInOrder(mid, x);
    }
 
    /**
     * `link`: splay x and other, then hang x's tree from other by a dashed
     * edge and make other x's next node. When x is still below something
     * after both splays, the two are in one tree and linking would close a
     * cycle: that call is refused (false) with no link made.
     */
    method Link(x: int, other: int) returns (linked: bool)
      requires Valid() && IsNode(Snap(), x) && IsNode(Snap(), other)
      modifies this, links
      ensures Valid() && N(Snap()) == N(old(Snap()))
      ensures forall k :: 0 <= k < N(Snap()) ==> SolidCost(Snap(), k) == SolidCost(old(Snap()), k)
      ensures links.parent[other] == NIL
      ensures linked ==> x != other && next == old(next)[x := other]
      ensures linked ==> links.parent[x] == other && Side(Snap(), x).None? && x in middle[other]
      ensures !linked ==> next == old(next) && (x == other || links.parent[x] != NIL)
    {
      ghost var f0 := Snap();
      Splay(x);
      ghost var f1 := Snap();
      Splay(other);
      CostsKeptTrans(f0, f1, Snap());
      if links.parent[x] != NIL || x == other {
        return false;
      }
      LinkTops(x, other);
      return true;
    }

    /** The two assignments of `link` once x and other are the tops of different trees. */
    method LinkTops(x: int, other: int)
      requires Valid() && IsNode(Snap(), x) && IsNode(Snap(), other) && x != other
      requires links.parent[x] == NIL && links.parent[other] == NIL
      modifies this, links
      ensures Snap() == LinkedAt(old(Snap()), x, other)
      ensures Valid() && N(Snap()) == N(old(Snap())) && next == old(next)[x := other]
      ensures forall k :: 0 <= k < N(Snap()) ==> SolidCost(Snap(), k) == SolidCost(old(Snap()), k)
      ensures links.parent[x] == other && links.parent[other] == NIL && Side(Snap(), x).None? && x in middle[other]
    {
      ghost var mid := Snap();
      LinkKeeps(mid, x, other);
      AdoptMiddle(other, x);
      next := next[x := other];
      sub := sub[other := sub[other] + sub[x]];
      assert Snap() == LinkedAt(mid, x, other);
    }
 
    /**
     * `find_min`: the node of x's path whose cost the deltaMin values point
     * to, splayed to the top. The search runs over the path before its last
     * node; None is the source's 'Invalid cost data' error.
     */
    method FindMin(x: int) returns (m: Option<int>)
      requires Valid() && IsNode(Snap(), x)
      modifies this, links
      ensures Valid() && CostsKept(old(Snap()), Snap())
      ensures m.Some? ==> IsNode(Snap(), m.value) && links.parent[m.value] == NIL
      ensures m.Some? ==> var p := InOrder(Snap(), m.value);
        x in p && (|p| == 1 || m.value in p[..|p| - 1])
      ensures m.Some? && old(links.parent[SolidRoot(Snap(), x)]) == NIL ==>
        InOrder(Snap(), m.value) == InOrder(old(Snap()), SolidRoot(old(Snap()), x))
    {
      var root := FindRoot(x);
      ghost var mid := Snap();
      m := MinWalk(root);
      if m.Some? {
        var node := m.value;
        InOrderUnfold(mid, root);
        SolidRootUnique(mid, node, root);
        Splay(node);
        ghost var p := InOrder(Snap(), node);
        ghost var l := mid.links.left[root];
        if l != NIL {
          assert p == InOrder(mid, l) + [root];
          assert p[..|p| - 1] == InOrder(mid, l);
        } else {
          assert p == [root];
        }
      }
    }

    /**
     * The descent of `find_min` from the top node: start at its left child,
     * go right while the right subtree holds the minimum, go left while this
     * node's own cost is not it. None when a node points left but has no left child.
     */
    method MinWalk(top: int) returns (r: Option<int>)
      requires Valid() && IsNode(Snap(), top) && links.right[top] == NIL
      ensures r.Some? && links.left[top] == NIL ==> r.value == top
      ensures r.Some? && links.left[top] != NIL ==>
        IsNode(Snap(), r.value) && SolidTo(Snap(), r.value, top) && r.value in InOrder(Snap(), links.left[top])
      ensures r.None? ==> links.left[top] != NIL
      ensures r.None? ==>
        exists k :: 0 <= k < N(Snap()) && SolidTo(Snap(), k, top) && deltaMin[k] > 0 && links.left[k] == NIL
    {
      ghost var f := Snap();
      var left := links.left[top];
      if left == NIL {
        return Some(top);
      }
      ChildSolidTo(f, top, left);
      var node := left;
      while true
        invariant IsNode(f, node) && SolidTo(f, node, left)
        decreases f.sub[node]
      {
        var right := links.right[node];
        var l := links.left[node];
        if right != NIL && deltaCost[right] - deltaMin[right] + deltaMin[node] == 0 {
          ChildSolidTo(f, node, right);
          ChildBelow(f, node, right);
          SolidToTrans(f, right, node, left);
          node := right;
          continue;
        }
        if deltaMin[node] > 0 {
          if l != NIL {
            ChildSolidTo(f, node, l);
            ChildBelow(f, node, l);
            SolidToTrans(f, l, node, left);
            node := l;
            continue;
          }
          SolidToTrans(f, node, left, top);
          return None;
        }
        SolidToTrans(f, node, left, top);
        SolidToInOrder(f, node, left);
        return Some(node);
      }
    }
 
    /**
     * `cut_next`: x's cost, and the node that followed x on its path (NIL
     * when x was its last node), which is the first node of the detached
     * rest and is splayed to the top of it.
     */
    method CutNext(x: int) returns (stem: int, d: int)
      requires Valid() && IsNode(Snap(), x)
      modifies this, links
      ensures Valid() && N(Snap()) == N(old(Snap())) && next == old(next)[x := NIL]
      ensures forall k :: 0 <= k < N(Snap()) ==> SolidCost(Snap(), k) == SolidCost(old(Snap()), k)
      ensures d == SolidCost(old(Snap()), x)
      ensures stem != NIL ==> IsNode(Snap(), stem) && links.parent[stem] == NIL
      ensures var p := RootPath(old(Snap()), x);
        if stem == NIL then p[|p| - 1] == x
        else exists i :: 0 <= i < |p| - 1 && p[i] == x && p[i + 1] == stem
    {
      ghost var f0 := Snap();
      d := FindCost(x);
      ghost var f1 := Snap();
      assert SolidRoot(f1, x) == x;
      stem := CutStem(x);
    }

    /** The rest of `cut_next` once x is splayed: cut x's right part off and find its leftmost node. */
    method CutStem(x: int) returns (stem: int)
      requires Valid() && IsNode(Snap(), x) && links.parent[x] == NIL
      modifies this, links
      ensures Valid() && N(Snap()) == N(old(Snap())) && next == old(next)[x := NIL]
      ensures forall k :: 0 <= k < N(Snap()) ==> SolidCost(Snap(), k) == SolidCost(old(Snap()), k)
      ensures stem != NIL ==> IsNode(Snap(), stem) && links.parent[stem] == NIL
      ensures var p := old(InOrder(Snap(), x));
        if stem == NIL then p[|p| - 1] == x
        else exists i :: 0 <= i < |p| - 1 && p[i] == x && p[i + 1] == stem
    {
      ghost var f1 := Snap();
      assert SolidRoot(f1, x) == x;
      var right := Cut(x);
      ghost var f2 := Snap();
      InOrderUnfold(f2, x);
      ghost var a := InOrder(f2, x);
      assert a[|a| - 1] == x;
      stem := NIL;
      if right != NIL {
        assert SolidRoot(f2, right) == right;
        stem := FindStem(right);
        ghost var f3 := Snap();
        ghost var p := InOrder(f1, x);
        assert p == a + InOrder(f3, stem);
        assert p[|a| - 1] == x && p[|a|] == stem;
      }
    }
  }
}
