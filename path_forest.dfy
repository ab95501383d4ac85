/**
 * The state of the link-cut path tree (max_flow/PathTreeRework.py) as a
 * value: one record per node of the arena, addressed by index.
 *
 * A node's solid children are its `left` and `right` links; its dashed
 * children are the set `middle` (the source keeps them in a list whose order
 * is never read). `sub[k]` is the set of all nodes below k, across solid and
 * dashed edges alike: it exists only for the proofs (termination of walks up
 * and down the forest, and which nodes an update can reach).
 */
module PathForests {
  import opened BinaryNodes

  datatype Forest = Forest(
    links: Links,
    middle: seq<set<int>>,
    deltaCost: seq<int>,
    deltaMin: seq<int>,
    next: seq<int>,
    sub: seq<set<int>>)

  function N(f: Forest): nat { f.links.Size() }

  predicate IsNode(f: Forest, k: int) { 0 <= k < N(f) }

  /** The indices of an arena of n nodes. */
  function Range(n: nat): (r: set<int>)
    ensures forall i :: i in r <==> 0 <= i < n
  {
    if n == 0 then {} else Range(n - 1) + {n - 1}
  }

  predicate Shaped(f: Forest) {
    && f.links.Valid()
    && |f.middle| == N(f)
    && |f.deltaCost| == N(f)
    && |f.deltaMin| == N(f)
    && |f.next| == N(f)
    && |f.sub| == N(f)
  }

  /** The nodes below k, or nothing for NIL. */
  function S(f: Forest, k: int): set<int>
    requires Shaped(f) && f.links.IsRef(k)
  {
    if k == NIL then {} else f.sub[k]
  }

  /** The nodes below the dashed children of k. */
  function MidSub(f: Forest, k: int): set<int>
    requires Shaped(f) && IsNode(f, k)
  {
    set m, y | m in f.middle[k] && 0 <= m < |f.sub| && y in f.sub[m] :: y
  }

  /** Node k's child and parent links agree with each other. */
  predicate LinksOK(f: Forest, k: int)
    requires Shaped(f) && IsNode(f, k)
  {
    var l := f.links;
    var p, lc, rc := l.parent[k], l.left[k], l.right[k];
    && l.IsRef(p) && l.IsRef(lc) && l.IsRef(rc) && l.IsRef(f.next[k])
    && f.deltaMin[k] >= 0
    && (lc != NIL ==> l.parent[lc] == k && lc != rc && lc !in f.middle[k])
    && (rc != NIL ==> l.parent[rc] == k && rc !in f.middle[k])
    && (forall m :: m in f.middle[k] ==> 0 <= m < N(f) && l.parent[m] == k)
    && (p != NIL ==> k == l.left[p] || k == l.right[p] || k in f.middle[p])
  }

  /** sub[k] is exactly k and what hangs below it, in disjoint parts. */
  predicate SubOK(f: Forest, k: int)
    requires Shaped(f) && IsNode(f, k) && f.links.IsRef(f.links.left[k]) && f.links.IsRef(f.links.right[k])
  {
    var lc, rc := f.links.left[k], f.links.right[k];
    && f.sub[k] == {k} + S(f, lc) + S(f, rc) + MidSub(f, k)
    && (forall y :: y in f.sub[k] ==> 0 <= y < N(f))
    && k !in S(f, lc) && k !in S(f, rc) && k !in MidSub(f, k)
    && S(f, lc) !! S(f, rc) && S(f, lc) !! MidSub(f, k) && S(f, rc) !! MidSub(f, k)
    && (forall m1, m2 :: m1 in f.middle[k] && m2 in f.middle[k] && m1 != m2 && 0 <= m1 < N(f) && 0 <= m2 < N(f) ==>
          f.sub[m1] !! f.sub[m2])
  }

  /** The local well-formedness of node k. */
  predicate NodeOK(f: Forest, k: int)
    requires Shaped(f) && IsNode(f, k)
  {
    LinksOK(f, k) && SubOK(f, k)
  }

  predicate Valid(f: Forest) {
    Shaped(f) && forall k :: 0 <= k < N(f) ==> NodeOK(f, k)
  }

  /** The `side` property: RIGHT or LEFT for a solid child, None for a root or a dashed child. */
  function SideOf(l: Links, k: int): (r: Option<bool>)
    requires l.Valid() && 0 <= k < l.Size() && l.IsRef(l.parent[k])
    ensures r.Some? ==> l.parent[k] != NIL && l.Child(l.parent[k], r.value) == k
    ensures r.None? ==> l.parent[k] == NIL || (l.left[l.parent[k]] != k && l.right[l.parent[k]] != k)
  {
    var p := l.parent[k];
    if p == NIL then None
    else if l.right[p] == k then Some(RIGHT)
    else if l.left[p] == k then Some(LEFT)
    else None
  }

  function Side(f: Forest, k: int): Option<bool>
    requires Valid(f) && IsNode(f, k)
  {
    SideOf(f.links, k)
  }

  lemma ChildBelow(f: Forest, k: int, c: int)
    requires Valid(f) && IsNode(f, k)
    requires c != NIL && (c == f.links.left[k] || c == f.links.right[k] || c in f.middle[k])
    ensures IsNode(f, c) && f.links.parent[c] == k
    ensures f.sub[c] < f.sub[k] && c in f.sub[k] && c in f.sub[c] && k !in f.sub[c]
  {
    assert NodeOK(f, k);
    assert NodeOK(f, c);
    if c in f.middle[k] {
      SubInMidSub(f, k, c);
    }
  }

  lemma SubInMidSub(f: Forest, k: int, m: int)
    requires Shaped(f) && IsNode(f, k) && m in f.middle[k] && 0 <= m < N(f)
    ensures f.sub[m] <= MidSub(f, k)
  {
    forall y | y in f.sub[m] ensures y in MidSub(f, k) {
      assert m in f.middle[k] && 0 <= m < |f.sub| && y in f.sub[m];
    }
  }

  lemma ParentAbove(f: Forest, k: int)
    requires Valid(f) && IsNode(f, k) && f.links.parent[k] != NIL
    ensures IsNode(f, f.links.parent[k])
    ensures Range(N(f)) - f.sub[f.links.parent[k]] < Range(N(f)) - f.sub[k]
  {
    assert NodeOK(f, k);
    var p := f.links.parent[k];
    ChildBelow(f, p, k);
    assert NodeOK(f, p);
    assert p in Range(N(f));
  }

  /** Absolute cost: the sum of deltaCost over k and its solid ancestors. */
  function SolidCost(f: Forest, k: int): int
    requires Valid(f) && IsNode(f, k)
    decreases Range(N(f)) - f.sub[k]
  {
    if Side(f, k).Some? then
      ParentAbove(f, k);
      f.deltaCost[k] + SolidCost(f, f.links.parent[k])
    else
      f.deltaCost[k]
  }

  /** The source's `cost` property: it adds the parent's cost across dashed edges too. */
  function Cost(f: Forest, k: int): int
    requires Valid(f) && IsNode(f, k)
    decreases Range(N(f)) - f.sub[k]
  {
    if f.links.parent[k] != NIL then
      ParentAbove(f, k);
      f.deltaCost[k] + Cost(f, f.links.parent[k])
    else
      f.deltaCost[k]
  }

  /** The left-to-right sequence of the solid subtree of k. */
  function InOrder(f: Forest, k: int): seq<int>
    requires Valid(f) && f.links.IsRef(k)
    decreases S(f, k)
  {
    if k == NIL then []
    else
      ChildBelowSolid(f, k);
      InOrder(f, f.links.left[k]) + [k] + InOrder(f, f.links.right[k])
  }

  /** The part of the path p from x on: x and every node after it, or nothing when x is not on p. */
  function From(p: seq<int>, x: int): (r: seq<int>)
    ensures x in p ==> |r| > 0 && r[0] == x
    ensures forall y :: y in r ==> y in p
  {
    if p == [] then []
    else if p[0] == x then p
    else From(p[1..], x)
  }

  /** On a path l + [x] + r where l does not hold x, the part from x on is x followed by r. */
  lemma {:induction false} FromSplit(l: seq<int>, x: int, r: seq<int>)
    requires x !in l
    ensures From(l + [x] + r, x) == [x] + r
  {
    if l != [] {
      assert (l + [x] + r)[1..] == l[1..] + [x] + r;
      FromSplit(l[1..], x, r);
    }
  }

  /** Every node of the solid subtree of k lies in k's descendant set. */
  lemma {:induction false} InOrderInSub(f: Forest, k: int)
    requires Valid(f) && f.links.IsRef(k)
    ensures forall y :: y in InOrder(f, k) ==> y in S(f, k)
    decreases S(f, k)
  {
    if k != NIL {
      ChildBelowSolid(f, k);
      assert NodeOK(f, k);
      InOrderInSub(f, f.links.left[k]);
      InOrderInSub(f, f.links.right[k]);
    }
  }

  /** A node does not occur in the in-order sequence of its left subtree. */
  lemma NotLeftOfSelf(f: Forest, k: int)
    requires Valid(f) && IsNode(f, k)
    ensures f.links.IsRef(f.links.left[k]) && k !in InOrder(f, f.links.left[k])
  {
    ChildBelowSolid(f, k);
    assert NodeOK(f, k);
    InOrderInSub(f, f.links.left[k]);
  }

  lemma ChildBelowSolid(f: Forest, k: int)
    requires Valid(f) && IsNode(f, k)
    ensures f.links.IsRef(f.links.left[k]) && f.links.IsRef(f.links.right[k])
    ensures S(f, f.links.left[k]) < S(f, k) && S(f, f.links.right[k]) < S(f, k)
  {
    assert NodeOK(f, k);
    if f.links.left[k] != NIL { ChildBelow(f, k, f.links.left[k]); }
    if f.links.right[k] != NIL { ChildBelow(f, k, f.links.right[k]); }
  }

  function Max3(a: int, b: int, c: int): (r: int)
    ensures r >= a && r >= b && r >= c && (r == a || r == b || r == c)
  {
    if a >= b && a >= c then a else if b >= c then b else c
  }

  /** How far the minimum of a child's subtree lies below its parent's cost. */
  function Diff(f: Forest, deltaCost: seq<int>, k: int): int
    requires Shaped(f) && |deltaCost| == N(f) && f.links.IsRef(k)
  {
    if k == NIL then 0 else f.deltaMin[k] - deltaCost[k]
  }

  /** The link surgery of `_rotate`, swap by swap (see Rotated). */
  function RotatedLinks(l: Links, x: int, side: bool, p: int, b: int, g: int, gs: Option<bool>): Links
    requires l.Valid() && 0 <= x < l.Size() && 0 <= p < l.Size() && l.IsRef(b) && l.IsRef(g)
    requires gs.Some? ==> g != NIL
  {
    var l1 := Swapped(l, x, !side, NIL).0;
    var l2 := Swapped(l1, p, side, b).0;
    var l3 :=
      if g == NIL then l2
      else if gs.Some? then Swapped(l2, g, gs.value, x).0
      else l2.(parent := l2.parent[x := g]);
    Swapped(l3, x, !side, p).0
  }

  /** x absorbs p's deltaCost, p gets minus x's old deltaCost and b gains it. */
  function RotatedDeltaCost(dc: seq<int>, x: int, p: int, b: int): seq<int>
    requires 0 <= x < |dc| && 0 <= p < |dc| && (b == NIL || 0 <= b < |dc|)
  {
    var dx := dc[x];
    var dc1 := dc[x := dx + dc[p]][p := -dx];
    if b == NIL then dc1 else dc1[b := dc1[b] + dx]
  }

  /** p's and then x's deltaMin, recomputed from their new children (dc is the new deltaCost). */
  function RotatedDeltaMin(f: Forest, dc: seq<int>, x: int, p: int, a: int, b: int, c: int): seq<int>
    requires Shaped(f) && |dc| == N(f) && IsNode(f, x) && IsNode(f, p)
    requires f.links.IsRef(a) && f.links.IsRef(b) && f.links.IsRef(c)
  {
    var pDiff := f.deltaMin[p] - dc[p];
    f.deltaMin[p := Max3(0, Diff(f, dc, b), Diff(f, dc, c))][x := Max3(0, Diff(f, dc, a), pDiff)]
  }

  /**
   * `_rotate`: x, the solid child of p on `side`, takes p's place under the
   * grandparent g (as the same solid child, or as the same dashed child), by
   * the same sequence of swaps as the source: x gives up b, p takes b in x's
   * slot, g takes x in p's slot (or adopts x as a dashed child), and x takes p; p
   * becomes x's child on the opposite side, and x's former child b on that side
   * moves to p's slot `side`. x absorbs p's deltaCost, p gets minus x's old
   * deltaCost and b gains it; both deltaMin fields are recomputed from the
   * children. The flag is the source's look-ahead: whether x is still a solid
   * child. A root or a dashed child is left alone and the flag is false.
   */
  function Rotated(f: Forest, x: int): (Forest, bool)
    requires Valid(f) && IsNode(f, x)
  {
    match Side(f, x)
    case None => (f, false)
    case Some(side) =>
      assert NodeOK(f, x);
      var l := f.links;
      var p := l.parent[x];
      assert NodeOK(f, p);
      var a, b, c := l.Child(x, side), l.Child(x, !side), l.Child(p, !side);
      var g, gs := l.parent[p], SideOf(l, p);
      var l4 := RotatedLinks(l, x, side, p, b, g, gs);
      var mid := if g != NIL && gs.None? then f.middle[g := f.middle[g] - {p} + {x}] else f.middle;
      var dc := RotatedDeltaCost(f.deltaCost, x, p, b);
      var dm := RotatedDeltaMin(f, dc, x, p, a, b, c);
      var sub := f.sub[x := f.sub[p]][p := {p} + S(f, b) + S(f, c) + MidSub(f, p)];
      (Forest(l4, mid, dc, dm, f.next, sub), gs.Some?)
  }

  /** k's parent, if any, holds k as a solid or a dashed child. */
  predicate ParentLinked(f: Forest, k: int)
    requires Shaped(f) && IsNode(f, k)
  {
    var p := f.links.parent[k];
    f.links.IsRef(p) && (p != NIL ==> k == f.links.left[p] || k == f.links.right[p] || k in f.middle[p])
  }

  lemma MidSubFrame(f: Forest, f': Forest, k: int)
    requires Shaped(f) && Shaped(f') && N(f') == N(f) && IsNode(f, k)
    requires f'.middle[k] == f.middle[k]
    requires forall m :: m in f.middle[k] && 0 <= m < N(f) ==> f'.sub[m] == f.sub[m]
    ensures MidSub(f', k) == MidSub(f, k)
  {
  }

  /**
   * Node k stays well formed when its own fields, and the parent links and
   * sets of the nodes directly below it, are unchanged, and its parent still
   * holds it.
   */
  lemma NodeOKFrame(f: Forest, f': Forest, k: int)
    requires Valid(f) && Shaped(f') && N(f') == N(f) && IsNode(f, k)
    requires f'.links.left[k] == f.links.left[k] && f'.links.right[k] == f.links.right[k]
    requires f'.middle[k] == f.middle[k] && f'.next[k] == f.next[k]
    requires f'.deltaMin[k] == f.deltaMin[k] && f'.sub[k] == f.sub[k]
    requires forall c :: 0 <= c < N(f) && (c == f.links.left[k] || c == f.links.right[k] || c in f.middle[k]) ==>
      f'.links.parent[c] == f.links.parent[c] && f'.sub[c] == f.sub[c]
    requires ParentLinked(f', k)
    ensures NodeOK(f', k)
  {
    assert NodeOK(f, k);
    MidSubFrame(f, f', k);
  }
}
