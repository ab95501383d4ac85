/**
 * Walks up the path forest that the splay passes rely on: up a solid tree
 * to its root (SolidTo), up a chain of dashed edges (DashedTo), and all the
 * way to the top of the forest through solid roots only (DashedUp).
 */
module PathChains {
  import opened BinaryNodes
  import opened PathForests

  /** k reaches top by solid edges only. */
  ghost predicate SolidTo(f: Forest, k: int, top: int)
    requires Valid(f) && IsNode(f, k)
    decreases Range(N(f)) - f.sub[k]
  {
    if k == top then true
    else if Side(f, k).None? then false
    else
      ParentAbove(f, k);
      SolidTo(f, f.links.parent[k], top)
  }

  /** k reaches top by dashed edges only. */
  ghost predicate DashedTo(f: Forest, k: int, top: int)
    requires Valid(f) && IsNode(f, k)
    decreases Range(N(f)) - f.sub[k]
  {
    if k == top then true
    else if Side(f, k).Some? || f.links.parent[k] == NIL then false
    else
      ParentAbove(f, k);
      DashedTo(f, f.links.parent[k], top)
  }

  /** Every node from k to the top of its tree is the root of its solid tree. */
  ghost predicate DashedUp(f: Forest, k: int)
    requires Valid(f) && IsNode(f, k)
    decreases Range(N(f)) - f.sub[k]
  {
    if Side(f, k).Some? then false
    else if f.links.parent[k] == NIL then true
    else
      ParentAbove(f, k);
      DashedUp(f, f.links.parent[k])
  }

  lemma OwnSub(f: Forest, k: int)
    requires Valid(f) && IsNode(f, k)
    ensures k in f.sub[k]
  {
    assert NodeOK(f, k);
  }

  /** The parent's set holds the child's. */
  lemma SubUp(f: Forest, k: int)
    requires Valid(f) && IsNode(f, k) && f.links.parent[k] != NIL
    ensures IsNode(f, f.links.parent[k]) && f.sub[k] < f.sub[f.links.parent[k]]
  {
    assert NodeOK(f, k);
    ChildBelow(f, f.links.parent[k], k);
  }

  lemma {:induction false} SolidToSub(f: Forest, k: int, top: int)
    requires Valid(f) && IsNode(f, k) && SolidTo(f, k, top)
    ensures IsNode(f, top) && f.sub[k] <= f.sub[top]
    decreases Range(N(f)) - f.sub[k]
  {
    if k != top {
      SubUp(f, k);
      ParentAbove(f, k);
      SolidToSub(f, f.links.parent[k], top);
    }
  }

  lemma {:induction false} DashedToSub(f: Forest, k: int, top: int)
    requires Valid(f) && IsNode(f, k) && DashedTo(f, k, top)
    ensures IsNode(f, top) && f.sub[k] <= f.sub[top]
    decreases Range(N(f)) - f.sub[k]
  {
    if k != top {
      SubUp(f, k);
      ParentAbove(f, k);
      DashedToSub(f, f.links.parent[k], top);
    }
  }

  lemma SolidToRoot(f: Forest, k: int, top: int)
    requires Valid(f) && IsNode(f, k) && SolidTo(f, k, top) && Side(f, k).None?
    ensures k == top
  {
  }

  lemma {:induction false} DashedToTrans(f: Forest, k: int, m: int, top: int)
    requires Valid(f) && IsNode(f, k) && IsNode(f, m) && DashedTo(f, k, m) && DashedTo(f, m, top)
    ensures DashedTo(f, k, top)
    decreases Range(N(f)) - f.sub[k]
  {
    if k != m {
      ParentAbove(f, k);
      DashedToTrans(f, f.links.parent[k], m, top);
    }
  }

  /** A dashed chain ending at a node with no parent makes every node on it a solid root up to the top. */
  lemma {:induction false} DashedToUp(f: Forest, k: int, top: int)
    requires Valid(f) && IsNode(f, k) && DashedTo(f, k, top)
    requires IsNode(f, top) && DashedUp(f, top)
    ensures DashedUp(f, k)
    decreases Range(N(f)) - f.sub[k]
  {
    if k != top {
      ParentAbove(f, k);
      DashedToUp(f, f.links.parent[k], top);
    }
  }

  /** A solid chain survives any change that keeps the parent and side of the nodes along it. */
  lemma {:induction false} SolidToFrame(f: Forest, f': Forest, k: int, top: int)
    requires Valid(f) && Valid(f') && N(f') == N(f) && IsNode(f, k) && IsNode(f, top) && SolidTo(f, k, top)
    requires forall j :: 0 <= j < N(f) && j != top && f.sub[k] <= f.sub[j] && f.sub[j] <= f.sub[top] ==>
      f'.links.parent[j] == f.links.parent[j] && Side(f', j) == Side(f, j)
    ensures SolidTo(f', k, top)
    decreases Range(N(f)) - f.sub[k]
  {
    if k != top {
      OwnSub(f, k);
      SolidToSub(f, k, top);
      var q := f.links.parent[k];
      SubUp(f, k);
      ParentAbove(f, k);
      SolidToFrame(f, f', q, top);
    }
  }

  /** A dashed chain below top survives any change that keeps the dashed children on it where they are. */
  lemma {:induction false} DashedToFrame(f: Forest, f': Forest, k: int, top: int)
    requires Valid(f) && Valid(f') && N(f') == N(f) && IsNode(f, k) && IsNode(f, top) && DashedTo(f, k, top)
    requires forall j :: 0 <= j < N(f) && j != top && f.sub[k] <= f.sub[j] && f.sub[j] <= f.sub[top] && Side(f, j).None? ==>
      f'.links.parent[j] == f.links.parent[j] && Side(f', j).None?
    ensures DashedTo(f', k, top)
    decreases Range(N(f)) - f.sub[k]
  {
    if k != top {
      OwnSub(f, k);
      DashedToSub(f, k, top);
      var q := f.links.parent[k];
      SubUp(f, k);
      ParentAbove(f, k);
      DashedToFrame(f, f', q, top);
    }
  }

  /** The chain of solid roots above k survives any change that keeps them solid roots under the same parents. */
  lemma {:induction false} DashedUpFrame(f: Forest, f': Forest, k: int)
    requires Valid(f) && Valid(f') && N(f') == N(f) && IsNode(f, k) && DashedUp(f, k)
    requires forall j :: 0 <= j < N(f) && f.sub[k] <= f.sub[j] && Side(f, j).None? ==>
      f'.links.parent[j] == f.links.parent[j] && Side(f', j).None?
    ensures DashedUp(f', k)
    decreases Range(N(f)) - f.sub[k]
  {
    OwnSub(f, k);
    if f.links.parent[k] != NIL {
      var q := f.links.parent[k];
      SubUp(f, k);
      ParentAbove(f, k);
      DashedUpFrame(f, f', q);
    }
  }

  /** Every node of k's solid subtree appears in the in-order sequence of any solid ancestor. */
  lemma {:induction false} SolidToInOrder(f: Forest, k: int, top: int)
    requires Valid(f) && IsNode(f, k) && SolidTo(f, k, top)
    ensures IsNode(f, top) && k in InOrder(f, k)
    ensures forall y :: y in InOrder(f, k) ==> y in InOrder(f, top)
    decreases Range(N(f)) - f.sub[k]
  {
    SolidToSub(f, k, top);
    ChildBelowSolid(f, k);
    assert InOrder(f, k) == InOrder(f, f.links.left[k]) + [k] + InOrder(f, f.links.right[k]);
    if k != top {
      var q := f.links.parent[k];
      ParentAbove(f, k);
      ChildBelowSolid(f, q);
      assert InOrder(f, q) == InOrder(f, f.links.left[q]) + [q] + InOrder(f, f.links.right[q]);
      SolidToInOrder(f, q, top);
    }
  }

  lemma {:induction false} SolidToTrans(f: Forest, k: int, m: int, top: int)
    requires Valid(f) && IsNode(f, k) && IsNode(f, m) && SolidTo(f, k, m) && SolidTo(f, m, top)
    ensures SolidTo(f, k, top)
    decreases Range(N(f)) - f.sub[k]
  {
    if k != m {
      ParentAbove(f, k);
      SolidToTrans(f, f.links.parent[k], m, top);
    }
  }

  /** Every node in top's in-order sequence reaches top by solid edges (the converse of SolidToInOrder). */
  lemma {:induction false} InOrderSolidTo(f: Forest, top: int, y: int)
    requires Valid(f) && IsNode(f, top) && y in InOrder(f, top)
    ensures IsNode(f, y) && SolidTo(f, y, top)
    decreases f.sub[top]
  {
    ChildBelowSolid(f, top);
    assert NodeOK(f, top);
    var l, r := f.links.left[top], f.links.right[top];
    assert InOrder(f, top) == InOrder(f, l) + [top] + InOrder(f, r);
    if y != top {
      var c := if y in InOrder(f, l) then l else r;
      assert y in InOrder(f, c) && c != NIL;
      InOrderSolidTo(f, c, y);
      assert SolidTo(f, c, top);
      SolidToTrans(f, y, c, top);
    }
  }

  /** A solid child reaches its parent by one solid edge. */
  lemma ChildSolidTo(f: Forest, k: int, c: int)
    requires Valid(f) && IsNode(f, k) && c != NIL && (c == f.links.left[k] || c == f.links.right[k])
    ensures IsNode(f, c) && f.links.parent[c] == k && Side(f, c).Some? && SolidTo(f, c, k)
  {
    assert NodeOK(f, k);
    ChildBelow(f, k, c);
  }
}
