/**
 * What a rotation keeps: the side of every node it does not move, the
 * absolute (solid) cost of every node, and the left-to-right order of every
 * solid subtree, with x standing for p at the top.
 */
module PathRotationKeeps {
  import opened BinaryNodes
  import opened PathForests
  import opened PathRotation
  import opened PathRotationValid

  lemma StepSides(f: Forest, f': Forest, x: int, side: bool, p: int, a: int, b: int, c: int, g: int, gs: Option<bool>)
    requires Setting(f, x, side, p, a, b, c, g, gs) && Step(f, f', x, side, p, a, b, c, g, gs)
    ensures Valid(f')
    ensures Side(f', x) == gs && Side(f', p) == Some(!side)
    ensures b != NIL ==> Side(f', b) == Some(side)
    ensures forall k :: 0 <= k < N(f) && k != x && k != p && k != b ==> Side(f', k) == Side(f, k)
  {
    StepValid(f, f', x, side, p, a, b, c, g, gs);
    SettingFacts(f, x, side, p, a, b, c, g, gs);
    forall k | 0 <= k < N(f) && k != x && k != p && k != b ensures Side(f', k) == Side(f, k) {
      StepSideElse(f, f', x, side, p, a, b, c, g, gs, k);
    }
    if g != NIL && gs.None? {
      assert NodeOK(f, g);
    }
  }

  lemma StepSideElse(f: Forest, f': Forest, x: int, side: bool, p: int, a: int, b: int, c: int, g: int, gs: Option<bool>, k: int)
    requires Setting(f, x, side, p, a, b, c, g, gs) && Step(f, f', x, side, p, a, b, c, g, gs) && Valid(f')
    requires 0 <= k < N(f) && k != x && k != p && k != b
    ensures Side(f', k) == Side(f, k)
  {
    SettingApart(f, x, side, p, a, b, c, g, gs);
    assert NodeOK(f, k);
    var q := f.links.parent[k];
    if q == x {
      assert NodeOK(f, x);
    } else if q == p {
      assert NodeOK(f, p);
    } else if q == g && q != NIL {
      assert NodeOK(f, g);
    }
  }

  /** The state a rotation leaves: the setting, the step it takes, and a well-formed result. */
  ghost predicate Rotating(f: Forest, f': Forest, x: int, side: bool, p: int, a: int, b: int, c: int, g: int, gs: Option<bool>)
  {
    Setting(f, x, side, p, a, b, c, g, gs) && Step(f, f', x, side, p, a, b, c, g, gs) && Valid(f')
  }

  /** A rotation changes no node's absolute cost. */
  lemma {:induction false} StepSolidCost(f: Forest, f': Forest, x: int, side: bool, p: int, a: int, b: int, c: int, g: int, gs: Option<bool>, k: int)
    requires Rotating(f, f', x, side, p, a, b, c, g, gs)
    requires 0 <= k < N(f)
    ensures SolidCost(f', k) == SolidCost(f, k)
    decreases Range(N(f)) - f'.sub[k]
  {
    SettingApart(f, x, side, p, a, b, c, g, gs);
    if k == x {
      if gs.Some? {
        ParentAbove(f', x);
        StepSolidCost(f, f', x, side, p, a, b, c, g, gs, g);
      }
      CostAtX(f, f', x, side, p, a, b, c, g, gs);
    } else if k == p {
      ParentAbove(f', p);
      StepSolidCost(f, f', x, side, p, a, b, c, g, gs, x);
      CostAtP(f, f', x, side, p, a, b, c, g, gs);
    } else if k == b {
      ParentAbove(f', b);
      StepSolidCost(f, f', x, side, p, a, b, c, g, gs, p);
      CostAtB(f, f', x, side, p, a, b, c, g, gs);
    } else if Side(f, k).Some? {
      assert NodeOK(f, k);
      ParentAbove(f', k);
      StepSolidCost(f, f', x, side, p, a, b, c, g, gs, f.links.parent[k]);
      CostAtOther(f, f', x, side, p, a, b, c, g, gs, k);
    } else {
      CostAtOther(f, f', x, side, p, a, b, c, g, gs, k);
    }
  }

  /** x's absolute cost is p's old one, or its own plus g's when g holds it as a solid child. */
  lemma CostAtX(f: Forest, f': Forest, x: int, side: bool, p: int, a: int, b: int, c: int, g: int, gs: Option<bool>)
    requires Rotating(f, f', x, side, p, a, b, c, g, gs)
    requires gs.Some? ==> IsNode(f, g) && SolidCost(f', g) == SolidCost(f, g)
    ensures IsNode(f, x) && SolidCost(f', x) == SolidCost(f, x)
  {
    StepSides(f, f', x, side, p, a, b, c, g, gs);
    SettingApart(f, x, side, p, a, b, c, g, gs);
  }

  /** p's absolute cost is kept once x's is. */
  lemma CostAtP(f: Forest, f': Forest, x: int, side: bool, p: int, a: int, b: int, c: int, g: int, gs: Option<bool>)
    requires Rotating(f, f', x, side, p, a, b, c, g, gs) && IsNode(f, x) && SolidCost(f', x) == SolidCost(f, x)
    ensures IsNode(f, p) && SolidCost(f', p) == SolidCost(f, p)
  {
    StepSides(f, f', x, side, p, a, b, c, g, gs);
    SettingApart(f, x, side, p, a, b, c, g, gs);
  }

  /** b's absolute cost is kept once p's is. */
  lemma CostAtB(f: Forest, f': Forest, x: int, side: bool, p: int, a: int, b: int, c: int, g: int, gs: Option<bool>)
    requires Rotating(f, f', x, side, p, a, b, c, g, gs) && b != NIL && IsNode(f, p) && SolidCost(f', p) == SolidCost(f, p)
    ensures IsNode(f, b) && SolidCost(f', b) == SolidCost(f, b)
  {
    StepSides(f, f', x, side, p, a, b, c, g, gs);
    SettingApart(f, x, side, p, a, b, c, g, gs);
    assert NodeOK(f, x);
    assert Side(f, b).Some?;
  }

  /** Any other node's absolute cost is kept once its parent's is. */
  lemma CostAtOther(f: Forest, f': Forest, x: int, side: bool, p: int, a: int, b: int, c: int, g: int, gs: Option<bool>, k: int)
    requires Rotating(f, f', x, side, p, a, b, c, g, gs) && 0 <= k < N(f) && k != x && k != p && k != b
    requires Side(f, k).Some? ==> IsNode(f, f.links.parent[k]) && SolidCost(f', f.links.parent[k]) == SolidCost(f, f.links.parent[k])
    ensures SolidCost(f', k) == SolidCost(f, k)
  {
    StepSides(f, f', x, side, p, a, b, c, g, gs);
  }

  /** Every solid subtree that a rotation does not move keeps its left-to-right order. */
  lemma {:induction false} StepInOrder(f: Forest, f': Forest, x: int, side: bool, p: int, a: int, b: int, c: int, g: int, gs: Option<bool>, k: int)
    requires Setting(f, x, side, p, a, b, c, g, gs) && Step(f, f', x, side, p, a, b, c, g, gs)
    requires f.links.IsRef(k) && k != x && k != p
    ensures Valid(f') && InOrder(f', k) == InOrder(f, k)
    decreases S(f, k)
  {
    StepValid(f, f', x, side, p, a, b, c, g, gs);
    SettingApart(f, x, side, p, a, b, c, g, gs);
    if k != NIL {
      assert NodeOK(f, k);
      ChildBelowSolid(f, k);
      var l, r := f.links.left[k], f.links.right[k];
      if k == g && gs.Some? {
        ChildBelow(f, g, p);
        if gs.value == RIGHT {
          StepInOrder(f, f', x, side, p, a, b, c, g, gs, l);
          StepInOrderTop(f, f', x, side, p, a, b, c, g, gs);
        } else {
          StepInOrder(f, f', x, side, p, a, b, c, g, gs, r);
          StepInOrderTop(f, f', x, side, p, a, b, c, g, gs);
        }
      } else {
        StepInOrder(f, f', x, side, p, a, b, c, g, gs, l);
        StepInOrder(f, f', x, side, p, a, b, c, g, gs, r);
      }
    }
  }

  /** After the rotation x's solid subtree reads exactly as p's did before. */
  lemma {:induction false} StepInOrderTop(f: Forest, f': Forest, x: int, side: bool, p: int, a: int, b: int, c: int, g: int, gs: Option<bool>)
    requires Setting(f, x, side, p, a, b, c, g, gs) && Step(f, f', x, side, p, a, b, c, g, gs)
    ensures Valid(f') && InOrder(f', x) == InOrder(f, p)
    decreases f.sub[p]
  {
    StepValid(f, f', x, side, p, a, b, c, g, gs);
    SettingApart(f, x, side, p, a, b, c, g, gs);
    ChildBelow(f, p, x);
    if a != NIL { ChildBelow(f, x, a); }
    if b != NIL { ChildBelow(f, x, b); }
    if c != NIL { ChildBelow(f, p, c); }
    StepInOrder(f, f', x, side, p, a, b, c, g, gs, a);
    StepInOrder(f, f', x, side, p, a, b, c, g, gs, b);
    StepInOrder(f, f', x, side, p, a, b, c, g, gs, c);
    var sa, sb, sc := InOrder(f, a), InOrder(f, b), InOrder(f, c);
    InOrderUnfold(f', x);
    InOrderUnfold(f', p);
    InOrderUnfold(f, x);
    InOrderUnfold(f, p);
    if side == LEFT {
      assert f'.links.left[x] == a && f'.links.right[x] == p;
      assert f'.links.left[p] == b && f'.links.right[p] == c;
      assert f.links.left[p] == x && f.links.right[p] == c;
      assert f.links.left[x] == a && f.links.right[x] == b;
      SeqRegroup(sa, [x], sb, [p], sc);
    } else {
      assert f'.links.left[x] == p && f'.links.right[x] == a;
      assert f'.links.left[p] == c && f'.links.right[p] == b;
      assert f.links.left[p] == c && f.links.right[p] == x;
      assert f.links.left[x] == b && f.links.right[x] == a;
      SeqRegroup(sc, [p], sb, [x], sa);
    }
  }

  lemma SeqRegroup<T>(s1: seq<T>, s2: seq<T>, s3: seq<T>, s4: seq<T>, s5: seq<T>)
    ensures s1 + s2 + (s3 + s4 + s5) == (s1 + s2 + s3) + s4 + s5
  {
  }

  lemma InOrderUnfold(f: Forest, k: int)
    requires Valid(f) && IsNode(f, k)
    ensures f.links.IsRef(f.links.left[k]) && f.links.IsRef(f.links.right[k])
    ensures InOrder(f, k) == InOrder(f, f.links.left[k]) + [k] + InOrder(f, f.links.right[k])
  {
    ChildBelowSolid(f, k);
  }
}
