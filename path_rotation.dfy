/**
 * What a single rotation of the path tree does (max_flow/PathTreeRework.py,
 * `_rotate`): the new links, the forest stays well formed, every absolute
 * cost is unchanged, and the in-order sequence of the solid tree is kept.
 */
module PathRotation {
  import opened BinaryNodes
  import opened PathForests

  /** The nodes a rotation of x touches: x is p's child on `side`, a and b are x's children, c is p's other child, g is p's parent. */
  ghost predicate Setting(f: Forest, x: int, side: bool, p: int, a: int, b: int, c: int, g: int, gs: Option<bool>)
  {
    && Valid(f) && IsNode(f, x) && Side(f, x) == Some(side)
    && p == f.links.parent[x] && IsNode(f, p)
    && a == f.links.Child(x, side) && b == f.links.Child(x, !side) && c == f.links.Child(p, !side)
    && g == f.links.parent[p] && f.links.IsRef(g) && gs == SideOf(f.links, p)
  }

  lemma RotateSetting(f: Forest, x: int) returns (side: bool, p: int, a: int, b: int, c: int, g: int, gs: Option<bool>)
    requires Valid(f) && IsNode(f, x) && Side(f, x).Some?
    ensures Setting(f, x, side, p, a, b, c, g, gs)
  {
    side := Side(f, x).value;
    p := f.links.parent[x];
    assert NodeOK(f, x);
    ChildBelow(f, p, x);
    assert NodeOK(f, p);
    a, b, c := f.links.Child(x, side), f.links.Child(x, !side), f.links.Child(p, !side);
    g, gs := f.links.parent[p], SideOf(f.links, p);
  }

  /** The touched nodes are distinct, and each is linked where the rotation expects it. */
  lemma SettingFacts(f: Forest, x: int, side: bool, p: int, a: int, b: int, c: int, g: int, gs: Option<bool>)
    requires Setting(f, x, side, p, a, b, c, g, gs)
    ensures NodeOK(f, p) && NodeOK(f, x)
    ensures f.links.Child(p, side) == x
    ensures g != NIL ==> IsNode(f, g) && NodeOK(f, g)
    ensures gs.Some? ==> g != NIL
    ensures gs.None? && g != NIL ==> p in f.middle[g]
    ensures x != p && g != x && g != p
    ensures x !in f.middle[p] && x != c
    ensures a != NIL ==> IsNode(f, a) && a != x && a != p && a != g && a != b && a != c && f.links.parent[a] == x
    ensures b != NIL ==> IsNode(f, b) && b != x && b != p && b != g && b != c && f.links.parent[b] == x
    ensures c != NIL ==> IsNode(f, c) && c != p && c != g && f.links.parent[c] == p
  {
    assert NodeOK(f, x);
    ChildBelow(f, p, x);
    assert NodeOK(f, p);
    if a != NIL { ChildBelow(f, x, a); }
    if b != NIL { ChildBelow(f, x, b); }
    if c != NIL { ChildBelow(f, p, c); }
    if g != NIL { ChildBelow(f, g, p); assert NodeOK(f, g); }
  }

  /** SettingFacts without the nodes' local well-formedness: which nodes are distinct, and how they are linked. */
  lemma SettingApart(f: Forest, x: int, side: bool, p: int, a: int, b: int, c: int, g: int, gs: Option<bool>)
    requires Setting(f, x, side, p, a, b, c, g, gs)
    ensures f.links.Child(p, side) == x
    ensures g != NIL ==> IsNode(f, g)
    ensures gs.Some? ==> g != NIL
    ensures gs.None? && g != NIL ==> p in f.middle[g]
    ensures x != p && g != x && g != p
    ensures x !in f.middle[p] && x != c
    ensures a != NIL ==> IsNode(f, a) && a != x && a != p && a != g && a != b && a != c && f.links.parent[a] == x
    ensures b != NIL ==> IsNode(f, b) && b != x && b != p && b != g && b != c && f.links.parent[b] == x
    ensures c != NIL ==> IsNode(f, c) && c != p && c != g && f.links.parent[c] == p
  {
    SettingFacts(f, x, side, p, a, b, c, g, gs);
  }

  /** The grandparent's own parent is none of the rotated nodes. */
  lemma GrandparentParent(f: Forest, x: int, side: bool, p: int, a: int, b: int, c: int, g: int, gs: Option<bool>)
    requires Setting(f, x, side, p, a, b, c, g, gs) && g != NIL && f.links.parent[g] != NIL
    ensures var q := f.links.parent[g]; IsNode(f, q) && q != x && q != p && q != g
  {
    SettingFacts(f, x, side, p, a, b, c, g, gs);
    ChildBelow(f, p, x);
    ChildBelow(f, g, p);
    assert NodeOK(f, g);
    ChildBelow(f, f.links.parent[g], g);
  }

  /** How the sets below x and p decompose before the rotation. */
  lemma RotateSubs(f: Forest, x: int, side: bool, p: int, a: int, b: int, c: int, g: int)
    requires Valid(f) && IsNode(f, x) && IsNode(f, p) && f.links.parent[x] == p && f.links.Child(p, side) == x
    requires a == f.links.Child(x, side) && b == f.links.Child(x, !side) && c == f.links.Child(p, !side)
    requires g == f.links.parent[p]
    ensures f.sub[x] == {x} + S(f, a) + S(f, b) + MidSub(f, x)
    ensures f.sub[p] == {p} + f.sub[x] + S(f, c) + MidSub(f, p)
    ensures x !in S(f, a) && x !in S(f, b) && x !in MidSub(f, x)
    ensures p !in f.sub[x] && p !in S(f, c) && p !in MidSub(f, p)
    ensures S(f, a) !! S(f, b) && S(f, a) !! MidSub(f, x) && S(f, b) !! MidSub(f, x)
    ensures f.sub[x] !! S(f, c) && f.sub[x] !! MidSub(f, p) && S(f, c) !! MidSub(f, p)
    ensures g != NIL ==> f.sub[p] <= f.sub[g] && g !in f.sub[p]
  {
    assert NodeOK(f, x);
    assert NodeOK(f, p);
    ChildBelow(f, p, x);
    if g != NIL { ChildBelow(f, g, p); }
  }

  /**
   * The set algebra of a rotation: x's parts a, b and its dashed part Mx,
   * p's other child c and its dashed part Mp; after the rotation p keeps b, c
   * and Mp, and x keeps a, Mx and the new p.
   */
  lemma RotatedSets<T>(x: T, p: T, A: set<T>, B: set<T>, C: set<T>, Mx: set<T>, Mp: set<T>)
    requires x !in A && x !in B && x !in Mx
    requires p !in {x} + A + B + Mx && p !in C && p !in Mp
    requires A !! B && A !! Mx && B !! Mx
    requires ({x} + A + B + Mx) !! C && ({x} + A + B + Mx) !! Mp && C !! Mp
    ensures {p} + ({x} + A + B + Mx) + C + Mp == {x} + A + ({p} + B + C + Mp) + Mx
    ensures x !in {p} + B + C + Mp && A !! {p} + B + C + Mp && ({p} + B + C + Mp) !! Mx
  {
  }

  /** The parent links after a rotation. */
  lemma RotatedParents(f: Forest, x: int, side: bool, p: int, a: int, b: int, c: int, g: int, gs: Option<bool>)
    requires Setting(f, x, side, p, a, b, c, g, gs)
    ensures var f' := Rotated(f, x).0;
      && Shaped(f') && N(f') == N(f) && Rotated(f, x).1 == gs.Some? && f'.next == f.next
      && f'.links.parent[x] == g && f'.links.parent[p] == x && (b != NIL ==> f'.links.parent[b] == p)
      && (forall k :: 0 <= k < N(f) && k != x && k != p && k != b ==> f'.links.parent[k] == f.links.parent[k])
  {
    SettingApart(f, x, side, p, a, b, c, g, gs);
  }

  /** The child links after a rotation. */
  lemma RotatedChildren(f: Forest, x: int, side: bool, p: int, a: int, b: int, c: int, g: int, gs: Option<bool>)
    requires Setting(f, x, side, p, a, b, c, g, gs)
    ensures var f' := Rotated(f, x).0;
      && f'.links.Valid() && f'.links.Size() == N(f)
      && f'.links.Child(x, side) == a && f'.links.Child(x, !side) == p
      && f'.links.Child(p, side) == b && f'.links.Child(p, !side) == c
      && (gs.Some? ==> f'.links.Child(g, gs.value) == x && f'.links.Child(g, !gs.value) == f.links.Child(g, !gs.value))
      && (forall k :: 0 <= k < N(f) && k != x && k != p && (k != g || gs.None?) ==>
            f'.links.left[k] == f.links.left[k] && f'.links.right[k] == f.links.right[k])
      && |f'.middle| == N(f)
      && (g != NIL && gs.None? ==> f'.middle[g] == f.middle[g] - {p} + {x})
      && (forall k :: 0 <= k < N(f) && (k != g || gs.Some?) ==> f'.middle[k] == f.middle[k])
  {
    SettingApart(f, x, side, p, a, b, c, g, gs);
  }

  /** The deltaCost fields after a rotation. */
  lemma RotatedDeltaCosts(f: Forest, x: int, side: bool, p: int, a: int, b: int, c: int, g: int, gs: Option<bool>)
    requires Setting(f, x, side, p, a, b, c, g, gs)
    ensures var f' := Rotated(f, x).0;
      && |f'.deltaCost| == N(f)
      && f'.deltaCost[x] == f.deltaCost[x] + f.deltaCost[p] && f'.deltaCost[p] == - f.deltaCost[x]
      && (b != NIL ==> f'.deltaCost[b] == f.deltaCost[b] + f.deltaCost[x])
      && (forall k :: 0 <= k < N(f) && k != x && k != p && k != b ==> f'.deltaCost[k] == f.deltaCost[k])
  {
    SettingApart(f, x, side, p, a, b, c, g, gs);
    RotatedDeltaCostIs(f, x, side, p, a, b, c, g, gs);
  }

  lemma RotatedDeltaCostIs(f: Forest, x: int, side: bool, p: int, a: int, b: int, c: int, g: int, gs: Option<bool>)
    requires Setting(f, x, side, p, a, b, c, g, gs)
    ensures Rotated(f, x).0.deltaCost == RotatedDeltaCost(f.deltaCost, x, p, b)
  {
    SettingApart(f, x, side, p, a, b, c, g, gs);
  }

  lemma RotatedDeltaMinIs(f: Forest, x: int, side: bool, p: int, a: int, b: int, c: int, g: int, gs: Option<bool>)
    requires Setting(f, x, side, p, a, b, c, g, gs)
    ensures Rotated(f, x).0.deltaMin == RotatedDeltaMin(f, RotatedDeltaCost(f.deltaCost, x, p, b), x, p, a, b, c)
  {
    SettingApart(f, x, side, p, a, b, c, g, gs);
  }

  /** The deltaMin fields after a rotation: p's and x's are recomputed, none is negative. */
  lemma RotatedDeltaMins(f: Forest, x: int, side: bool, p: int, a: int, b: int, c: int, g: int, gs: Option<bool>)
    requires Setting(f, x, side, p, a, b, c, g, gs)
    ensures var f' := Rotated(f, x).0;
      && |f'.deltaMin| == N(f) && |f'.deltaCost| == N(f)
      && f'.deltaMin[p] == Max3(0, Diff(f, f'.deltaCost, b), Diff(f, f'.deltaCost, c))
      && f'.deltaMin[x] == Max3(0, Diff(f, f'.deltaCost, a), f.deltaMin[p] - f'.deltaCost[p])
      && (forall k :: 0 <= k < N(f) && k != x && k != p ==> f'.deltaMin[k] == f.deltaMin[k])
  {
    SettingApart(f, x, side, p, a, b, c, g, gs);
    RotatedDeltaCostIs(f, x, side, p, a, b, c, g, gs);
    RotatedDeltaMinIs(f, x, side, p, a, b, c, g, gs);
    DeltaMinEntries(f, RotatedDeltaCost(f.deltaCost, x, p, b), x, p, a, b, c);
  }

  lemma DeltaMinEntries(f: Forest, dc: seq<int>, x: int, p: int, a: int, b: int, c: int)
    requires Shaped(f) && |dc| == N(f) && IsNode(f, x) && IsNode(f, p) && x != p
    requires f.links.IsRef(a) && f.links.IsRef(b) && f.links.IsRef(c)
    ensures var dm := RotatedDeltaMin(f, dc, x, p, a, b, c);
      && |dm| == N(f)
      && dm[p] == Max3(0, Diff(f, dc, b), Diff(f, dc, c))
      && dm[x] == Max3(0, Diff(f, dc, a), f.deltaMin[p] - dc[p])
      && (forall k :: 0 <= k < N(f) && k != x && k != p ==> dm[k] == f.deltaMin[k])
  {
  }

  /** The sets below each node after a rotation: only x and p change. */
  lemma RotatedSubs(f: Forest, x: int, side: bool, p: int, a: int, b: int, c: int, g: int, gs: Option<bool>)
    requires Setting(f, x, side, p, a, b, c, g, gs)
    ensures var f' := Rotated(f, x).0;
      && |f'.sub| == N(f)
      && f'.sub[x] == f.sub[p] && f'.sub[p] == {p} + S(f, b) + S(f, c) + MidSub(f, p)
      && (forall k :: 0 <= k < N(f) && k != x && k != p ==> f'.sub[k] == f.sub[k])
  {
    SettingApart(f, x, side, p, a, b, c, g, gs);
  }
}
