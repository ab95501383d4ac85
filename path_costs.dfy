/**
 * What `add_cost`, `cut` and `link` do to the absolute costs and to the
 * paths of the forest, once the node they act on has been splayed to the top.
 */
module PathCosts {
  import opened BinaryNodes
  import opened PathForests
  import opened PathChains
  import opened PathRotationKeeps

  /** The in-order sequence depends on the links only. */
  lemma {:induction false} InOrderOfLinks(f: Forest, f': Forest, k: int)
    requires Valid(f) && Valid(f') && f'.links == f.links && f'.sub == f.sub && f.links.IsRef(k)
    ensures InOrder(f', k) == InOrder(f, k)
    decreases S(f, k)
  {
    if k != NIL {
      ChildBelowSolid(f, k);
      InOrderOfLinks(f, f', f.links.left[k]);
      InOrderOfLinks(f, f', f.links.right[k]);
    }
  }

  /** The deltaCost change of `add_cost` at a top node x: +c at x, -c at its left child. */
  function AddedCost(f: Forest, x: int, c: int): (r: Forest)
    requires Valid(f) && IsNode(f, x)
    ensures Valid(r) && r.links == f.links && r.sub == f.sub && r.middle == f.middle && r.next == f.next
  {
    assert NodeOK(f, x);
    var l := f.links.left[x];
    var dc := f.deltaCost[x := f.deltaCost[x] + c];
    var r := f.(deltaCost := if l != NIL then dc[l := dc[l] - c] else dc);
    CostsOnly(f, r);
    r
  }

  /** Changing deltaCost alone keeps the forest well formed. */
  lemma CostsOnly(f: Forest, f': Forest)
    requires Valid(f) && f' == f.(deltaCost := f'.deltaCost) && |f'.deltaCost| == N(f)
    ensures Valid(f')
  {
    forall k | 0 <= k < N(f) ensures NodeOK(f', k) {
      assert NodeOK(f, k);
      MidSubFrame(f, f', k);
    }
  }

  /**
   * After `add_cost(c)` on the top node x, x and every node of its right
   * subtree (x's successors on its path) cost c more; x's left subtree and
   * every other node keep their cost.
   */
  lemma {:induction false} AddedCostAt(f: Forest, x: int, c: int, k: int)
    requires Valid(f) && IsNode(f, x) && f.links.parent[x] == NIL && IsNode(f, k)
    ensures var r := f.links.right[x];
      SolidCost(AddedCost(f, x, c), k) ==
        SolidCost(f, k) + (if k == x || (r != NIL && SolidTo(f, k, r)) then c else 0)
    decreases Range(N(f)) - f.sub[k]
  {
    var f' := AddedCost(f, x, c);
    assert NodeOK(f, x);
    var l, r := f.links.left[x], f.links.right[x];
    assert Side(f', k) == Side(f, k);
    if Side(f, k).Some? {
      var p := f.links.parent[k];
      ParentAbove(f, k);
      AddedCostAt(f, x, c, p);
      assert k != x;
      if p == x {
        assert k == l || k == r;
        if k == l {
          assert k != r;
          if r != NIL && SolidTo(f, x, r) {
            ChildBelow(f, x, r);
            SolidToSub(f, x, r);
          }
        }
      } else {
        if k == l || k == r {
          ChildBelow(f, x, k);
        }
        if r != NIL && SolidTo(f, p, r) {
          SolidToSub(f, p, r);
          OwnSub(f, p);
          ChildBelow(f, x, r);
          assert p != x;
        }
      }
    }
  }

  /** AddedCostAt for every node, with x's successors named by its right subtree's in-order sequence. */
  lemma AddedCosts(f: Forest, x: int, c: int)
    requires Valid(f) && IsNode(f, x) && f.links.parent[x] == NIL
    ensures var f' := AddedCost(f, x, c);
      forall k :: 0 <= k < N(f) ==>
        SolidCost(f', k) == SolidCost(f, k) + (if k == x || k in InOrder(f', f'.links.right[x]) then c else 0)
  {
    var f' := AddedCost(f, x, c);
    assert NodeOK(f, x);
    var r := f.links.right[x];
    InOrderOfLinks(f, f', r);
    forall k | 0 <= k < N(f)
      ensures SolidCost(f', k) == SolidCost(f, k) + (if k == x || k in InOrder(f', r) then c else 0)
    {
      AddedCostAt(f, x, c, k);
      if r != NIL {
        if SolidTo(f, k, r) {
          SolidToInOrder(f, k, r);
        }
        if k in InOrder(f, r) {
          InOrderSolidTo(f, r, k);
        }
      } else {
        assert InOrder(f, r) == [];
      }
    }
  }

  /** The in-order sequence of k depends only on the solid links of the nodes below k. */
  lemma {:induction false} InOrderFrame(f: Forest, f': Forest, k: int)
    requires Valid(f) && Valid(f') && N(f') == N(f) && f.links.IsRef(k)
    requires forall j :: j in S(f, k) && 0 <= j < N(f) ==> f'.links.left[j] == f.links.left[j] && f'.links.right[j] == f.links.right[j]
    ensures InOrder(f', k) == InOrder(f, k)
    decreases S(f, k)
  {
    if k != NIL {
      ChildBelowSolid(f, k);
      ChildBelowSolid(f', k);
      OwnSub(f, k);
      InOrderFrame(f, f', f.links.left[k]);
      InOrderFrame(f, f', f.links.right[k]);
    }
  }

  /** `cut` at the top node x: x gives up its right subtree, which takes x's deltaCost along, and forgets its next node. */
  function CutAt(f: Forest, x: int): Forest
    requires Valid(f) && IsNode(f, x)
  {
    assert NodeOK(f, x);
    var r := f.links.right[x];
    var dc := if r != NIL then f.deltaCost[r := f.deltaCost[r] + f.deltaCost[x]] else f.deltaCost;
    Forest(Swapped(f.links, x, RIGHT, NIL).0, f.middle, dc, f.deltaMin, f.next[x := NIL], f.sub[x := f.sub[x] - S(f, r)])
  }

  lemma CutFacts(f: Forest, x: int)
    requires Valid(f) && IsNode(f, x) && f.links.parent[x] == NIL
    ensures var f' := CutAt(f, x); var r := f.links.right[x];
      && Shaped(f') && N(f') == N(f) && NodeOK(f, x)
      && f'.links.right[x] == NIL && f'.links.left[x] == f.links.left[x]
      && (r != NIL ==> IsNode(f, r) && f'.links.parent[r] == NIL && f.links.parent[r] == x && x !in f.sub[r])
      && (forall k :: 0 <= k < N(f) && k != r ==> f'.links.parent[k] == f.links.parent[k])
      && (forall k :: 0 <= k < N(f) && k != x ==> f'.links.left[k] == f.links.left[k] && f'.links.right[k] == f.links.right[k])
      && f'.sub[x] == {x} + S(f, f.links.left[x]) + MidSub(f, x)
  {
    assert NodeOK(f, x);
    var r := f.links.right[x];
    if r != NIL {
      ChildBelow(f, x, r);
    }
  }

  /** Cutting keeps the forest well formed. */
  lemma CutValid(f: Forest, x: int)
    requires Valid(f) && IsNode(f, x) && f.links.parent[x] == NIL
    ensures Valid(CutAt(f, x))
  {
    var f' := CutAt(f, x);
    CutFacts(f, x);
    var r := f.links.right[x];
    forall k | 0 <= k < N(f) ensures NodeOK(f', k) {
      assert NodeOK(f, k);
      if k == x {
        MidSubFrame(f, f', x);
      } else {
        if f.links.parent[k] == x {
          ChildBelow(f, x, k);
        }
        forall c | 0 <= c < N(f) && (c == f.links.left[k] || c == f.links.right[k] || c in f.middle[k])
          ensures f'.links.parent[c] == f.links.parent[c] && f'.sub[c] == f.sub[c]
        {
          assert c != x;
        }
        NodeOKFrame(f, f', k);
      }
    }
  }

  /** Cutting keeps every node's absolute cost: the right subtree's new root absorbs x's cost. */
  lemma {:induction false} CutCost(f: Forest, x: int, k: int)
    requires Valid(f) && IsNode(f, x) && f.links.parent[x] == NIL && IsNode(f, k)
    ensures Valid(CutAt(f, x)) && SolidCost(CutAt(f, x), k) == SolidCost(f, k)
    decreases Range(N(f)) - f.sub[k]
  {
    var f' := CutAt(f, x);
    CutFacts(f, x);
    CutValid(f, x);
    var r := f.links.right[x];
    if k == r {
      assert Side(f', r).None? && Side(f, r).Some? && Side(f, x).None?;
    } else {
      assert Side(f', k) == Side(f, k);
      if Side(f, k).Some? {
        ParentAbove(f, k);
        CutCost(f, x, f.links.parent[k]);
      }
    }
  }

  /** The path through x splits at x: x's part now ends at x, the rest hangs from x's old right child. */
  lemma CutInOrder(f: Forest, x: int)
    requires Valid(f) && IsNode(f, x) && f.links.parent[x] == NIL
    ensures var f' := CutAt(f, x); var r := f.links.right[x];
      && Valid(f') && InOrder(f, x) == InOrder(f', x) + InOrder(f', r)
  {
    var f' := CutAt(f, x);
    var l, r := f.links.left[x], f.links.right[x];
    CutSides(f, x);
    assert InOrder(f, x) == InOrder(f', x) + InOrder(f', r) by {
      InOrderUnfold(f, x);
      InOrderUnfold(f', x);
      assert InOrder(f', f'.links.right[x]) == [];
    }
  }

  /** After the cut x keeps its left side, loses its right one, and both sides keep their in-order sequences. */
  lemma CutSides(f: Forest, x: int)
    requires Valid(f) && IsNode(f, x) && f.links.parent[x] == NIL
    ensures var f' := CutAt(f, x); var l, r := f.links.left[x], f.links.right[x];
      && Valid(f') && IsNode(f', x) && f.links.IsRef(l) && f.links.IsRef(r)
      && f'.links.left[x] == l && f'.links.right[x] == NIL
      && InOrder(f', l) == InOrder(f, l) && InOrder(f', r) == InOrder(f, r)
  {
    var f' := CutAt(f, x);
    CutFacts(f, x);
    CutValid(f, x);
    var l, r := f.links.left[x], f.links.right[x];
    ChildBelowSolid(f, x);
    InOrderFrame(f, f', l);
    InOrderFrame(f, f', r);
  }
}
