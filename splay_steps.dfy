/**
 * One step of `_splay` at a time, as the loops of the path forest class use
 * them: a rotation of a solid child, and a splice of a dashed child into its
 * parent's left slot. Each lemma says what the step keeps (well-formedness,
 * every node's absolute cost) and how it moves the walks the loops track.
 */
module PathSplaySteps {
  import opened BinaryNodes
  import opened PathForests
  import opened PathChains
  import opened PathRotation
  import opened PathRotationValid
  import opened PathRotationKeeps
  import opened PathRotationChains
  import opened PathSplice

  /** The root of k's solid tree. */
  ghost function SolidRoot(f: Forest, k: int): (r: int)
    requires Valid(f) && IsNode(f, k)
    ensures IsNode(f, r) && SolidTo(f, k, r) && Side(f, r).None?
    decreases Range(N(f)) - f.sub[k]
  {
    if Side(f, k).None? then k
    else
      ParentAbove(f, k);
      SolidRoot(f, f.links.parent[k])
  }

  /** A solid walk ends at one solid root only. */
  lemma {:induction false} SolidRootUnique(f: Forest, k: int, top: int)
    requires Valid(f) && IsNode(f, k) && IsNode(f, top) && SolidTo(f, k, top) && Side(f, top).None?
    ensures SolidRoot(f, k) == top
    decreases Range(N(f)) - f.sub[k]
  {
    if k != top {
      ParentAbove(f, k);
      SolidRootUnique(f, f.links.parent[k], top);
    }
  }

  /**
   * A rotation keeps the forest well formed and every node's absolute cost;
   * x climbs (its descendant set grows) and the flag says whether it is
   * still a solid child.
   */
  lemma RotatedKeeps(f: Forest, x: int)
    requires Valid(f) && IsNode(f, x) && Side(f, x).Some?
    ensures var (f', more) := Rotated(f, x);
      && Valid(f') && N(f') == N(f) && f'.next == f.next
      && (forall k :: 0 <= k < N(f) ==> SolidCost(f', k) == SolidCost(f, k))
      && (more <==> Side(f', x).Some?)
      && f.sub[x] < f'.sub[x]
  {
    var side, p, a, b, c, g, gs := RotateSetting(f, x);
    var f' := Rotated(f, x).0;
    RotatedStep(f, x, side, p, a, b, c, g, gs);
    StepSides(f, f', x, side, p, a, b, c, g, gs);
    forall k | 0 <= k < N(f) ensures SolidCost(f', k) == SolidCost(f, k) {
      StepSolidCost(f, f', x, side, p, a, b, c, g, gs, k);
    }
    SettingFacts(f, x, side, p, a, b, c, g, gs);
    ChildBelow(f, p, x);
  }

  /**
   * A rotation carries the walk from x to its solid root over to the new
   * root (x itself when its parent was the root), which keeps the old root's
   * parent and in-order sequence; a dashed walk from y down to x survives.
   */
  lemma RotatedChains(f: Forest, x: int, top: int, y: int)
    requires Valid(f) && IsNode(f, x) && Side(f, x).Some?
    requires IsNode(f, top) && SolidTo(f, x, top) && Side(f, top).None?
    requires IsNode(f, y) && DashedTo(f, y, x)
    ensures var f' := Rotated(f, x).0;
      var top' := if f.links.parent[x] == top then x else top;
      && Valid(f') && IsNode(f', top')
      && SolidTo(f', x, top') && Side(f', top').None?
      && f'.links.parent[top'] == f.links.parent[top] && InOrder(f', top') == InOrder(f, top)
      && DashedTo(f', y, x)
  {
    var side, p, a, b, c, g, gs := RotateSetting(f, x);
    var f' := Rotated(f, x).0;
    RotatedStep(f, x, side, p, a, b, c, g, gs);
    StepSolidRoot(f, f', x, side, p, a, b, c, g, gs, top);
    StepDashedBelow(f, f', x, side, p, a, b, c, g, gs, y);
  }

  /**
   * Splicing x, a solid root whose walk to the top of its tree passes through
   * solid roots only, keeps the forest well formed and every absolute cost,
   * and moves both walks up to x's parent q.
   */
  lemma SplicedKeeps(f: Forest, x: int, y: int)
    requires Valid(f) && IsNode(f, x) && DashedUp(f, x) && f.links.parent[x] != NIL
    requires IsNode(f, y) && SolidTo(f, y, x)
    ensures var (f', q) := Spliced(f, x);
      && q == f.links.parent[x] && IsNode(f, q)
      && Valid(f') && N(f') == N(f) && f'.next == f.next && f'.sub == f.sub
      && (forall k :: 0 <= k < N(f) ==> SolidCost(f', k) == SolidCost(f, k))
      && DashedUp(f', q) && SolidTo(f', y, q)
  {
    var q := f.links.parent[x];
    assert Side(f, x).None?;
    ParentAbove(f, x);
    var u := f.links.left[q];
    var f' := Spliced(f, x).0;
    SplicedStep(f, x, q, u);
    SpliceChains(f, f', x, q, u, y);
    forall k | 0 <= k < N(f) ensures SolidCost(f', k) == SolidCost(f, k) {
      SpliceSolidCost(f, f', x, q, u, k);
    }
  }
}
