/**
 * `link`: the top node x of one tree becomes a dashed child of the top node
 * of another. Linking is only sound between two different trees, so the
 * module first shows that the descendant sets of two top nodes are disjoint.
 */
module PathLinks {
  import opened BinaryNodes
  import opened PathForests
  import opened PathChains
  import opened PathCosts

  /** Following parent links from y, solid or dashed, reaches k. */
  ghost predicate Reaches(f: Forest, y: int, k: int)
    requires Valid(f) && IsNode(f, y)
    decreases Range(N(f)) - f.sub[y]
  {
    if y == k then true
    else if f.links.parent[y] == NIL then false
    else
      ParentAbove(f, y);
      Reaches(f, f.links.parent[y], k)
  }

  lemma {:induction false} ReachesTrans(f: Forest, y: int, m: int, k: int)
    requires Valid(f) && IsNode(f, y) && IsNode(f, m) && Reaches(f, y, m) && Reaches(f, m, k)
    ensures Reaches(f, y, k)
    decreases Range(N(f)) - f.sub[y]
  {
    if y != m {
      ParentAbove(f, y);
      ReachesTrans(f, f.links.parent[y], m, k);
    }
  }

  /** Every node of sub[k] hangs below k. */
  lemma {:induction false} SubReaches(f: Forest, k: int, y: int)
    requires Valid(f) && IsNode(f, k) && y in f.sub[k]
    ensures IsNode(f, y) && Reaches(f, y, k)
    decreases f.sub[k]
  {
    assert NodeOK(f, k);
    if y != k {
      var l, r := f.links.left[k], f.links.right[k];
      var c;
      if y in S(f, l) {
        c := l;
      } else if y in S(f, r) {
        c := r;
      } else {
        var m :| m in f.middle[k] && 0 <= m < |f.sub| && y in f.sub[m];
        c := m;
      }
      ChildBelow(f, k, c);
      SubReaches(f, c, y);
      assert Reaches(f, c, k);
      ReachesTrans(f, y, c, k);
    }
  }

  /** A node hangs below one top node only. */
  lemma {:induction false} ReachesTop(f: Forest, y: int, a: int, b: int)
    requires Valid(f) && IsNode(f, y) && IsNode(f, a) && IsNode(f, b)
    requires f.links.parent[a] == NIL && f.links.parent[b] == NIL
    requires Reaches(f, y, a) && Reaches(f, y, b)
    ensures a == b
    decreases Range(N(f)) - f.sub[y]
  {
    if y != a && y != b {
      ParentAbove(f, y);
      ReachesTop(f, f.links.parent[y], a, b);
    }
  }

  /** The trees of two different top nodes share no node. */
  lemma TopsDisjoint(f: Forest, a: int, b: int)
    requires Valid(f) && IsNode(f, a) && IsNode(f, b) && a != b
    requires f.links.parent[a] == NIL && f.links.parent[b] == NIL
    ensures f.sub[a] !! f.sub[b]
  {
    forall y | y in f.sub[a] ensures y !in f.sub[b] {
      SubReaches(f, a, y);
      if y in f.sub[b] {
        SubReaches(f, b, y);
        ReachesTop(f, y, a, b);
      }
    }
  }

  /** `link` of the top node x under the top node o: x becomes a dashed child of o, and o its next node. */
  function LinkedAt(f: Forest, x: int, o: int): Forest
    requires Shaped(f) && IsNode(f, x) && IsNode(f, o)
  {
    Forest(
      f.links.(parent := f.links.parent[x := o]),
      f.middle[o := f.middle[o] + {x}],
      f.deltaCost, f.deltaMin,
      f.next[x := o],
      f.sub[o := f.sub[o] + f.sub[x]])
  }

  /** Facts about the two top nodes that the proofs below share. */
  lemma LinkFacts(f: Forest, x: int, o: int)
    requires Valid(f) && IsNode(f, x) && IsNode(f, o) && x != o
    requires f.links.parent[x] == NIL && f.links.parent[o] == NIL
    ensures var f' := LinkedAt(f, x, o);
      && Shaped(f') && N(f') == N(f) && NodeOK(f, x) && NodeOK(f, o)
      && f.sub[x] !! f.sub[o] && x in f.sub[x] && o in f.sub[o]
      && x !in f.middle[o] && o !in f.middle[o]
      && (forall k :: 0 <= k < N(f) && k != x ==> f'.links.parent[k] == f.links.parent[k])
      && (forall k :: 0 <= k < N(f) && k != o ==> f'.sub[k] == f.sub[k] && f'.middle[k] == f.middle[k])
  {
    assert NodeOK(f, x);
    assert NodeOK(f, o);
    TopsDisjoint(f, x, o);
  }

  /** Linking two different trees keeps the forest well formed. */
  lemma LinkValid(f: Forest, x: int, o: int)
    requires Valid(f) && IsNode(f, x) && IsNode(f, o) && x != o
    requires f.links.parent[x] == NIL && f.links.parent[o] == NIL
    ensures Valid(LinkedAt(f, x, o))
  {
    var f' := LinkedAt(f, x, o);
    LinkFacts(f, x, o);
    forall k | 0 <= k < N(f) ensures NodeOK(f', k) {
      assert NodeOK(f, k);
      if k == o {
        LinkTopOK(f, x, o);
      } else if k == x {
        forall c | 0 <= c < N(f) && (c == f.links.left[x] || c == f.links.right[x] || c in f.middle[x])
          ensures c != o
        {
          ChildBelow(f, x, c);
        }
        MidSubFrame(f, f', x);
      } else {
        forall c | 0 <= c < N(f) && (c == f.links.left[k] || c == f.links.right[k] || c in f.middle[k])
          ensures c != x && c != o
        {
        }
        NodeOKFrame(f, f', k);
      }
    }
  }

  /** The new top node o holds x's whole tree as one more dashed child. */
  lemma LinkTopOK(f: Forest, x: int, o: int)
    requires Valid(f) && IsNode(f, x) && IsNode(f, o) && x != o
    requires f.links.parent[x] == NIL && f.links.parent[o] == NIL
    ensures NodeOK(LinkedAt(f, x, o), o)
  {
    LinkTopLinks(f, x, o);
    LinkTopSub(f, x, o);
  }

  /** The new top node o is linked to x as a dashed child. */
  lemma LinkTopLinks(f: Forest, x: int, o: int)
    requires Valid(f) && IsNode(f, x) && IsNode(f, o) && x != o
    requires f.links.parent[x] == NIL && f.links.parent[o] == NIL
    ensures Shaped(LinkedAt(f, x, o)) && LinksOK(LinkedAt(f, x, o), o)
  {
    LinkFacts(f, x, o);
  }

  /** The nodes below the new top node o are those it had, and x's whole tree. */
  lemma LinkTopSub(f: Forest, x: int, o: int)
    requires Valid(f) && IsNode(f, x) && IsNode(f, o) && x != o
    requires f.links.parent[x] == NIL && f.links.parent[o] == NIL
    ensures Shaped(LinkedAt(f, x, o)) && SubOK(LinkedAt(f, x, o), o)
  {
    var f' := LinkedAt(f, x, o);
    LinkFacts(f, x, o);
    var l, r := f.links.left[o], f.links.right[o];
    assert S(f', l) == S(f, l) && S(f', r) == S(f, r) by {
      if l != NIL {
        ChildBelow(f, o, l);
      }
      if r != NIL {
        ChildBelow(f, o, r);
      }
    }
    LinkMidSub(f, x, o);
    forall m | m in f.middle[o] && 0 <= m < N(f) ensures f.sub[m] <= f.sub[o] {
      SubInMidSub(f, o, m);
    }
  }

  /** The nodes below o's dashed children gain x's tree. */
  lemma LinkMidSub(f: Forest, x: int, o: int)
    requires Valid(f) && IsNode(f, x) && IsNode(f, o) && x != o
    requires f.links.parent[x] == NIL && f.links.parent[o] == NIL
    ensures MidSub(LinkedAt(f, x, o), o) == MidSub(f, o) + f.sub[x]
  {
    var f' := LinkedAt(f, x, o);
    LinkFacts(f, x, o);
    forall m | m in f.middle[o] ensures 0 <= m < N(f) && f'.sub[m] == f.sub[m] {
      ChildBelow(f, o, m);
    }
    forall y | y in MidSub(f', o) ensures y in MidSub(f, o) + f.sub[x] {
      var m :| m in f'.middle[o] && 0 <= m < |f'.sub| && y in f'.sub[m];
      if m != x {
        assert m in f.middle[o] && y in f.sub[m];
      }
    }
    forall y | y in MidSub(f, o) + f.sub[x] ensures y in MidSub(f', o) {
      if y in f.sub[x] {
        assert x in f'.middle[o] && y in f'.sub[x];
      } else {
        var m :| m in f.middle[o] && 0 <= m < |f.sub| && y in f.sub[m];
        assert m in f'.middle[o] && y in f'.sub[m];
      }
    }
  }

  /** Linking changes no node's absolute cost: x stays the root of its solid tree. */
  lemma {:induction false} LinkCost(f: Forest, x: int, o: int, k: int)
    requires Valid(f) && IsNode(f, x) && IsNode(f, o) && x != o
    requires f.links.parent[x] == NIL && f.links.parent[o] == NIL && IsNode(f, k)
    ensures Valid(LinkedAt(f, x, o)) && SolidCost(LinkedAt(f, x, o), k) == SolidCost(f, k)
    decreases Range(N(f)) - f.sub[k]
  {
    var f' := LinkedAt(f, x, o);
    LinkFacts(f, x, o);
    LinkValid(f, x, o);
    if k == x {
      assert Side(f', x).None? && Side(f, x).None?;
    } else {
      assert Side(f', k) == Side(f, k);
      if Side(f, k).Some? {
        ParentAbove(f, k);
        LinkCost(f, x, o, f.links.parent[k]);
      }
    }
  }

  /**
   * Linking two different trees keeps the forest well formed, every node's
   * absolute cost and every solid tree's path; x hangs from o and takes o as
   * its next node, and o's tree now holds x's.
   */
  lemma LinkKeeps(f: Forest, x: int, o: int)
    requires Valid(f) && IsNode(f, x) && IsNode(f, o) && x != o
    requires f.links.parent[x] == NIL && f.links.parent[o] == NIL
    ensures var f' := LinkedAt(f, x, o);
      && Valid(f') && N(f') == N(f)
      && f'.links.parent[x] == o && Side(f', x).None? && f'.next[x] == o
      && f'.sub[o] == f.sub[o] + f.sub[x]
      && (forall k :: 0 <= k < N(f) ==> SolidCost(f', k) == SolidCost(f, k))
      && (forall k :: 0 <= k < N(f) ==> InOrder(f', k) == InOrder(f, k))
  {
    var f' := LinkedAt(f, x, o);
    LinkFacts(f, x, o);
    LinkValid(f, x, o);
    assert Side(f', x).None?;
    forall k | 0 <= k < N(f) ensures SolidCost(f', k) == SolidCost(f, k) && InOrder(f', k) == InOrder(f, k) {
      LinkCost(f, x, o, k);
      InOrderFrame(f, f', k);
    }
  }

  /**
   * `adopt_middle(child)` as written (the same two statements open `link`):
   * child is appended to k's dashed children, then the assignment to the
   * read-only `parent` property raises AttributeError, so child's parent
   * link, like every other link and next node, is left as it was.
   */
  function AdoptAsWritten(f: Forest, k: int, child: int): (g: Forest)
    requires Shaped(f) && IsNode(f, k) && IsNode(f, child)
    ensures Shaped(g) && N(g) == N(f) && child in g.middle[k]
    ensures g.links == f.links && g.next == f.next
  {
    f.(middle := f.middle[k := f.middle[k] + {child}])
  }

  /**
   * Whatever state `adopt_middle` is called in, when child's parent is not
   * already k the state it leaves behind is not a well-formed forest: k
   * lists a dashed child whose parent is not k. Both callers, the rotation
   * under a dashed grandparent and the splice, have just detached child,
   * so its parent is NIL there.
   */
  lemma AdoptAsWrittenBreaks(f: Forest, k: int, child: int)
    requires Shaped(f) && IsNode(f, k) && IsNode(f, child) && f.links.parent[child] != k
    ensures !Valid(AdoptAsWritten(f, k, child))
  {
    var g := AdoptAsWritten(f, k, child);
    assert !LinksOK(g, k);
    assert !NodeOK(g, k);
  }

  /**
   * Whatever two different trees are linked, the state the source leaves
   * behind is not a well-formed forest, while the intended link keeps it
   * well formed.
   */
  lemma LinkAsWrittenBreaks(f: Forest, x: int, o: int)
    requires Valid(f) && IsNode(f, x) && IsNode(f, o) && x != o
    requires f.links.parent[x] == NIL && f.links.parent[o] == NIL
    ensures !Valid(AdoptAsWritten(f, o, x))
    ensures Valid(LinkedAt(f, x, o))
  {
    AdoptAsWrittenBreaks(f, o, x);
    LinkValid(f, x, o);
  }
}
