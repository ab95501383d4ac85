/**
 * How a rotation of x moves the chains the splay passes walk: the root of
 * x's solid tree is replaced by x when p was that root, and the dashed chains
 * hanging below x are untouched.
 */
module PathRotationChains {
  import opened BinaryNodes
  import opened PathForests
  import opened PathChains
  import opened PathRotation
  import opened PathRotationValid
  import opened PathRotationKeeps

  /** The root of x's solid tree keeps its place, parent and in-order sequence, with x standing in for p. */
  lemma StepSolidRoot(f: Forest, f': Forest, x: int, side: bool, p: int, a: int, b: int, c: int, g: int, gs: Option<bool>, top: int)
    requires Setting(f, x, side, p, a, b, c, g, gs) && Step(f, f', x, side, p, a, b, c, g, gs)
    requires IsNode(f, top) && SolidTo(f, x, top) && Side(f, top).None?
    ensures var top' := if p == top then x else top;
      && Valid(f') && SolidTo(f', x, top') && Side(f', top') == None
      && f'.links.parent[top'] == f.links.parent[top] && InOrder(f', top') == InOrder(f, top)
  {
    StepSides(f, f', x, side, p, a, b, c, g, gs);
    SettingFacts(f, x, side, p, a, b, c, g, gs);
    assert SolidTo(f, p, top);
    if p == top {
      StepInOrderTop(f, f', x, side, p, a, b, c, g, gs);
    } else {
      ChildBelow(f, p, x);
      ChildBelow(f, g, p);
      if b != NIL { ChildBelow(f, x, b); }
      assert SolidTo(f, g, top);
      SolidToFrame(f, f', g, top);
      SolidToSub(f, g, top);
      StepInOrder(f, f', x, side, p, a, b, c, g, gs, top);
      assert SolidTo(f', x, top);
    }
  }

  /** Dashed chains that end at x survive the rotation. */
  lemma StepDashedBelow(f: Forest, f': Forest, x: int, side: bool, p: int, a: int, b: int, c: int, g: int, gs: Option<bool>, y: int)
    requires Setting(f, x, side, p, a, b, c, g, gs) && Step(f, f', x, side, p, a, b, c, g, gs)
    requires IsNode(f, y) && DashedTo(f, y, x)
    ensures Valid(f') && DashedTo(f', y, x)
  {
    StepSides(f, f', x, side, p, a, b, c, g, gs);
    SettingFacts(f, x, side, p, a, b, c, g, gs);
    ChildBelow(f, p, x);
    DashedToFrame(f, f', y, x);
  }
}
