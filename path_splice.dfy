/**
 * `_splice` (max_flow/PathTreeRework.py): a dashed child x becomes the left
 * (deeper) solid child of its parent q, and q's former left child u becomes a
 * dashed child of q. The deltas are moved so that every absolute cost is kept
 * when q is the root of its solid tree, which is how the splay calls it.
 */
module PathSplice {
  import opened BinaryNodes
  import opened PathForests
  import opened PathChains

  /** The new forest and the parent spliced into, or NIL when x is a solid child or has no parent. */
  function Spliced(f: Forest, x: int): (Forest, int)
    requires Valid(f) && IsNode(f, x)
  {
    var q := f.links.parent[x];
    if Side(f, x).Some? || q == NIL then (f, NIL)
    else
      assert NodeOK(f, x);
      var mid1 := f.middle[q := f.middle[q] - {x}];
      var (l1, u) := Swapped(f.links, q, LEFT, x);
      var l2 := if u != NIL then l1.(parent := l1.parent[u := q]) else l1;
      var mid2 := if u != NIL then mid1[q := mid1[q] + {u}] else mid1;
      var dc1 := if u != NIL then f.deltaCost[u := f.deltaCost[u] + f.deltaCost[q]] else f.deltaCost;
      var dc2 := dc1[x := dc1[x] - f.deltaCost[q]];
      var dm := f.deltaMin[q := Max3(0, f.deltaMin[x] - dc2[x], Diff(f, dc2, f.links.right[q]))];
      (Forest(l2, mid2, dc2, dm, f.next, f.sub), q)
  }

  /** x hangs from q by a dashed edge, and u is q's left child. */
  ghost predicate SpliceSetting(f: Forest, x: int, q: int, u: int)
  {
    && Valid(f) && IsNode(f, x) && Side(f, x).None?
    && q == f.links.parent[x] && q != NIL && IsNode(f, q) && u == f.links.left[q]
  }

  lemma SpliceFacts(f: Forest, x: int, q: int, u: int)
    requires SpliceSetting(f, x, q, u)
    ensures NodeOK(f, x) && NodeOK(f, q)
    ensures x in f.middle[q] && x != u && x != q && x != f.links.right[q]
    ensures f.sub[x] <= MidSub(f, q) && f.sub[x] < f.sub[q] && q !in f.sub[x]
    ensures u != NIL ==> IsNode(f, u) && f.links.parent[u] == q && u !in f.middle[q] && u != q
    ensures u != NIL ==> f.sub[u] < f.sub[q] && q !in f.sub[u] && f.sub[u] !! f.sub[x] && x !in f.sub[u] && u !in f.sub[x]
  {
    assert NodeOK(f, x);
    assert NodeOK(f, q);
    ChildBelow(f, q, x);
    SubInMidSub(f, q, x);
    if u != NIL {
      ChildBelow(f, q, u);
    }
  }

  /** The fields after a splice, as a relation between f and f'. */
  ghost predicate SpliceStep(f: Forest, f': Forest, x: int, q: int, u: int)
    requires SpliceSetting(f, x, q, u)
  {
    SpliceLinkStep(f, f', x, q, u) && SpliceCostStep(f, f', x, q, u)
  }

  /** The links and dashed children after a splice: x is q's left child, u a dashed child of q. */
  ghost predicate SpliceLinkStep(f: Forest, f': Forest, x: int, q: int, u: int)
    requires SpliceSetting(f, x, q, u)
  {
    && Shaped(f') && N(f') == N(f) && f'.next == f.next && f'.sub == f.sub
    && f'.links.parent == f.links.parent
    && f'.links.left[q] == x && f'.links.right[q] == f.links.right[q]
    && (forall k :: 0 <= k < N(f) && k != q ==> f'.links.left[k] == f.links.left[k] && f'.links.right[k] == f.links.right[k])
    && f'.middle[q] == f.middle[q] - {x} + (if u != NIL then {u} else {})
    && (forall k :: 0 <= k < N(f) && k != q ==> f'.middle[k] == f.middle[k])
  }

  /** The deltas after a splice: x and u are re-based on q, and q's deltaMin is recomputed. */
  ghost predicate SpliceCostStep(f: Forest, f': Forest, x: int, q: int, u: int)
    requires SpliceSetting(f, x, q, u)
  {
    && Shaped(f') && N(f') == N(f)
    && f'.deltaCost[x] == f.deltaCost[x] - f.deltaCost[q]
    && (u != NIL ==> f'.deltaCost[u] == f.deltaCost[u] + f.deltaCost[q])
    && (forall k :: 0 <= k < N(f) && k != x && k != u ==> f'.deltaCost[k] == f.deltaCost[k])
    && f'.deltaMin[q] == Max3(0, f.deltaMin[x] - f'.deltaCost[x], Diff(f, f'.deltaCost, f.links.right[q]))
    && (forall k :: 0 <= k < N(f) && k != q ==> f'.deltaMin[k] == f.deltaMin[k])
  }

  lemma SplicedStep(f: Forest, x: int, q: int, u: int)
    requires SpliceSetting(f, x, q, u)
    ensures SpliceStep(f, Spliced(f, x).0, x, q, u) && Spliced(f, x).1 == q
  {
    SplicedLinks(f, x, q, u);
    SplicedCosts(f, x, q, u);
  }

  /** Spliced meets SpliceLinkStep. */
  lemma SplicedLinks(f: Forest, x: int, q: int, u: int)
    requires SpliceSetting(f, x, q, u)
    ensures SpliceLinkStep(f, Spliced(f, x).0, x, q, u) && Spliced(f, x).1 == q
  {
    assert x != q && (u != NIL ==> f.links.parent[u] == q && u != q) by {
      SpliceFacts(f, x, q, u);
    }
  }

  /** Spliced meets SpliceCostStep. */
  lemma SplicedCosts(f: Forest, x: int, q: int, u: int)
    requires SpliceSetting(f, x, q, u)
    ensures SpliceCostStep(f, Spliced(f, x).0, x, q, u)
  {
    assert x != q && u != q && x != u && x != f.links.right[q] by {
      SpliceFacts(f, x, q, u);
    }
  }

  /** Swapping the dashed child x for u moves x's set out of q's dashed part and u's set in. */
  lemma SpliceMidSub(f: Forest, f': Forest, x: int, q: int, u: int)
    requires SpliceSetting(f, x, q, u) && SpliceStep(f, f', x, q, u)
    ensures MidSub(f', q) + f.sub[x] == MidSub(f, q) + S(f, u)
    ensures MidSub(f', q) !! f.sub[x] && MidSub(f', q) <= MidSub(f, q) + S(f, u)
  {
    SpliceFacts(f, x, q, u);
    forall y | y in MidSub(f', q) ensures y in MidSub(f, q) + S(f, u) && y !in f.sub[x] {
      var m :| m in f'.middle[q] && 0 <= m < |f'.sub| && y in f'.sub[m];
      if m != u || u == NIL {
        assert m in f.middle[q] && m != x;
        assert y in MidSub(f, q);
      }
    }
    forall y | y in MidSub(f, q) + S(f, u) ensures y in MidSub(f', q) + f.sub[x] {
      if y in MidSub(f, q) {
        var m :| m in f.middle[q] && 0 <= m < |f.sub| && y in f.sub[m];
        if m != x {
          assert m in f'.middle[q] && 0 <= m < |f'.sub| && y in f'.sub[m];
        }
      } else {
        assert u in f'.middle[q] && 0 <= u < |f'.sub| && y in f'.sub[u];
      }
    }
  }

  lemma SpliceLinksAtQ(f: Forest, f': Forest, x: int, q: int, u: int)
    requires SpliceSetting(f, x, q, u) && SpliceStep(f, f', x, q, u)
    ensures LinksOK(f', q)
  {
    SpliceFacts(f, x, q, u);
    assert f.links.right[q] != u || u == NIL;
  }

  lemma SpliceSubAtQ(f: Forest, f': Forest, x: int, q: int, u: int)
    requires SpliceSetting(f, x, q, u) && SpliceStep(f, f', x, q, u)
    ensures f'.links.IsRef(f'.links.left[q]) && f'.links.IsRef(f'.links.right[q]) && SubOK(f', q)
  {
    SpliceFacts(f, x, q, u);
    SpliceMidSub(f, f', x, q, u);
    var r := f.links.right[q];
    assert S(f', x) == f.sub[x] && S(f', r) == S(f, r);
    SpliceMiddles(f, f', x, q, u);
  }

  lemma SpliceMiddles(f: Forest, f': Forest, x: int, q: int, u: int)
    requires SpliceSetting(f, x, q, u) && SpliceStep(f, f', x, q, u)
    ensures forall m1, m2 :: m1 in f'.middle[q] && m2 in f'.middle[q] && m1 != m2 && 0 <= m1 < N(f) && 0 <= m2 < N(f) ==>
      f'.sub[m1] !! f'.sub[m2]
  {
    SpliceFacts(f, x, q, u);
    forall m1, m2 | m1 in f'.middle[q] && m2 in f'.middle[q] && m1 != m2 && 0 <= m1 < N(f) && 0 <= m2 < N(f)
      ensures f'.sub[m1] !! f'.sub[m2]
    {
      if m1 == u {
        SubInMidSub(f, q, m2);
      } else if m2 == u {
        SubInMidSub(f, q, m1);
      }
    }
  }

  lemma SpliceOKElse(f: Forest, f': Forest, x: int, q: int, u: int, k: int)
    requires SpliceSetting(f, x, q, u) && SpliceStep(f, f', x, q, u)
    requires 0 <= k < N(f) && k != q
    ensures NodeOK(f', k)
  {
    SpliceFacts(f, x, q, u);
    assert NodeOK(f, k);
    assert ParentLinked(f', k);
    NodeOKFrame(f, f', k);
  }

  /** A splice keeps the forest well formed. */
  lemma SpliceValid(f: Forest, f': Forest, x: int, q: int, u: int)
    requires SpliceSetting(f, x, q, u) && SpliceStep(f, f', x, q, u)
    ensures Valid(f')
  {
    forall k | 0 <= k < N(f') ensures NodeOK(f', k) {
      if k == q {
        SpliceLinksAtQ(f, f', x, q, u);
        SpliceSubAtQ(f, f', x, q, u);
      } else {
        SpliceOKElse(f, f', x, q, u, k);
      }
    }
  }

  lemma SpliceSides(f: Forest, f': Forest, x: int, q: int, u: int)
    requires SpliceSetting(f, x, q, u) && SpliceStep(f, f', x, q, u)
    ensures Valid(f') && Side(f', x) == Some(LEFT) && (u != NIL ==> Side(f, u) == Some(LEFT) && Side(f', u) == None)
    ensures forall k :: 0 <= k < N(f) && k != x && k != u ==> Side(f', k) == Side(f, k)
  {
    SpliceValid(f, f', x, q, u);
    SpliceFacts(f, x, q, u);
    forall k | 0 <= k < N(f) && k != x && k != u ensures Side(f', k) == Side(f, k) {
      assert NodeOK(f, k);
    }
  }

  /** Splicing below a solid root changes no node's absolute cost. */
  lemma {:induction false} SpliceSolidCost(f: Forest, f': Forest, x: int, q: int, u: int, k: int)
    requires SpliceSetting(f, x, q, u) && SpliceStep(f, f', x, q, u) && Side(f, q).None?
    requires 0 <= k < N(f)
    ensures Valid(f') && SolidCost(f', k) == SolidCost(f, k)
    decreases Range(N(f)) - f.sub[k]
  {
    SpliceSides(f, f', x, q, u);
    SpliceFacts(f, x, q, u);
    if k == x {
      assert SolidCost(f', q) == f.deltaCost[q];
    } else if k == u {
      assert SolidCost(f, q) == f.deltaCost[q];
    } else if Side(f, k).Some? {
      ParentAbove(f, k);
      SpliceSolidCost(f, f', x, q, u, f.links.parent[k]);
    }
  }

  /** Solid subtrees that do not contain q keep their order. */
  lemma {:induction false} SpliceInOrderBelow(f: Forest, f': Forest, x: int, q: int, u: int, k: int)
    requires SpliceSetting(f, x, q, u) && SpliceStep(f, f', x, q, u)
    requires f.links.IsRef(k) && (k != NIL ==> q !in f.sub[k])
    ensures Valid(f') && InOrder(f', k) == InOrder(f, k)
    decreases S(f, k)
  {
    SpliceValid(f, f', x, q, u);
    if k != NIL {
      assert NodeOK(f, k);
      ChildBelowSolid(f, k);
      OwnSub(f, q);
      var l, r := f.links.left[k], f.links.right[k];
      SpliceInOrderBelow(f, f', x, q, u, l);
      SpliceInOrderBelow(f, f', x, q, u, r);
    }
  }

  /** After the splice q's solid subtree reads x's solid subtree, then q, then q's right subtree. */
  lemma SpliceInOrder(f: Forest, f': Forest, x: int, q: int, u: int)
    requires SpliceSetting(f, x, q, u) && SpliceStep(f, f', x, q, u)
    ensures Valid(f')
    ensures InOrder(f', q) == InOrder(f, x) + [q] + InOrder(f, f.links.right[q])
    ensures u != NIL ==> InOrder(f', u) == InOrder(f, u)
  {
    SpliceValid(f, f', x, q, u);
    SpliceFacts(f, x, q, u);
    var r := f.links.right[q];
    if r != NIL { ChildBelow(f, q, r); }
    SpliceInOrderBelow(f, f', x, q, u, x);
    SpliceInOrderBelow(f, f', x, q, u, r);
    SpliceInOrderBelow(f, f', x, q, u, u);
    ChildBelowSolid(f', q);
  }

  /**
   * The second splay pass: when x and everything above it are solid roots,
   * after splicing x into q the solid chain from y reaches q, and everything
   * from q up is still a solid root.
   */
  lemma SpliceChains(f: Forest, f': Forest, x: int, q: int, u: int, y: int)
    requires SpliceSetting(f, x, q, u) && SpliceStep(f, f', x, q, u)
    requires DashedUp(f, x) && IsNode(f, y) && SolidTo(f, y, x)
    ensures Valid(f') && Side(f, q).None? && DashedUp(f', q) && SolidTo(f', y, q)
  {
    SpliceDashedUp(f, f', x, q, u);
    SpliceSolidTo(f, f', x, q, u, y);
  }

  lemma SpliceDashedUp(f: Forest, f': Forest, x: int, q: int, u: int)
    requires SpliceSetting(f, x, q, u) && SpliceStep(f, f', x, q, u) && DashedUp(f, x)
    ensures Valid(f') && Side(f, q).None? && DashedUp(f', q)
  {
    SpliceSides(f, f', x, q, u);
    SpliceFacts(f, x, q, u);
    ParentAbove(f, x);
    assert DashedUp(f, q);
    forall j | 0 <= j < N(f) && f.sub[q] <= f.sub[j] && Side(f, j).None?
      ensures f'.links.parent[j] == f.links.parent[j] && Side(f', j).None?
    {
      OwnSub(f, q);
      assert j != x && j != u;
    }
    DashedUpFrame(f, f', q);
  }

  lemma SpliceSolidTo(f: Forest, f': Forest, x: int, q: int, u: int, y: int)
    requires SpliceSetting(f, x, q, u) && SpliceStep(f, f', x, q, u)
    requires IsNode(f, y) && SolidTo(f, y, x)
    ensures Valid(f') && SolidTo(f', y, q)
  {
    SpliceSides(f, f', x, q, u);
    SpliceFacts(f, x, q, u);
    SolidToSub(f, y, x);
    forall j | 0 <= j < N(f) && j != x && f.sub[y] <= f.sub[j] && f.sub[j] <= f.sub[x]
      ensures f'.links.parent[j] == f.links.parent[j] && Side(f', j) == Side(f, j)
    {
      OwnSub(f, j);
      assert j != u;
    }
    SolidToFrame(f, f', y, x);
    assert SolidTo(f', x, q);
    SolidToTrans(f', y, x, q);
  }
}
