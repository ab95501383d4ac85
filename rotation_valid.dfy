/**
 * A rotation keeps the path forest well formed: every node's links, dashed
 * children and descendant sets still agree after `_rotate`.
 */
module PathRotationValid {
  import opened BinaryNodes
  import opened PathForests
  import opened PathRotation

  /** What one rotation of x (in the setting given) does to every field, as a relation between f and f'. */
  ghost predicate Step(f: Forest, f': Forest, x: int, side: bool, p: int, a: int, b: int, c: int, g: int, gs: Option<bool>)
    requires Setting(f, x, side, p, a, b, c, g, gs)
  {
      && Shaped(f') && N(f') == N(f) && f'.next == f.next
      && f'.links.parent[x] == g && f'.links.parent[p] == x && (b != NIL ==> f'.links.parent[b] == p)
      && (forall k :: 0 <= k < N(f) && k != x && k != p && k != b ==> f'.links.parent[k] == f.links.parent[k])
      && f'.links.Child(x, side) == a && f'.links.Child(x, !side) == p
      && f'.links.Child(p, side) == b && f'.links.Child(p, !side) == c
      && (gs.Some? ==> f'.links.Child(g, gs.value) == x && f'.links.Child(g, !gs.value) == f.links.Child(g, !gs.value))
      && (forall k :: 0 <= k < N(f) && k != x && k != p && (k != g || gs.None?) ==>
            f'.links.left[k] == f.links.left[k] && f'.links.right[k] == f.links.right[k])
      && (g != NIL && gs.None? ==> f'.middle[g] == f.middle[g] - {p} + {x})
      && (forall k :: 0 <= k < N(f) && (k != g || gs.Some?) ==> f'.middle[k] == f.middle[k])
      && f'.deltaCost[x] == f.deltaCost[x] + f.deltaCost[p] && f'.deltaCost[p] == - f.deltaCost[x]
      && (b != NIL ==> f'.deltaCost[b] == f.deltaCost[b] + f.deltaCost[x])
      && (forall k :: 0 <= k < N(f) && k != x && k != p && k != b ==> f'.deltaCost[k] == f.deltaCost[k])
      && f'.deltaMin[x] >= 0 && f'.deltaMin[p] >= 0
      && (forall k :: 0 <= k < N(f) && k != x && k != p ==> f'.deltaMin[k] == f.deltaMin[k])
      && f'.sub[x] == f.sub[p] && f'.sub[p] == {p} + S(f, b) + S(f, c) + MidSub(f, p)
      && (forall k :: 0 <= k < N(f) && k != x && k != p ==> f'.sub[k] == f.sub[k])
  }

  lemma RotatedStep(f: Forest, x: int, side: bool, p: int, a: int, b: int, c: int, g: int, gs: Option<bool>)
    requires Setting(f, x, side, p, a, b, c, g, gs)
    ensures Step(f, Rotated(f, x).0, x, side, p, a, b, c, g, gs)
  {
    RotatedParents(f, x, side, p, a, b, c, g, gs);
    RotatedChildren(f, x, side, p, a, b, c, g, gs);
    RotatedDeltaCosts(f, x, side, p, a, b, c, g, gs);
    RotatedDeltaMins(f, x, side, p, a, b, c, g, gs);
    RotatedSubs(f, x, side, p, a, b, c, g, gs);
  }

  lemma StepOKAtX(f: Forest, f': Forest, x: int, side: bool, p: int, a: int, b: int, c: int, g: int, gs: Option<bool>)
    requires Setting(f, x, side, p, a, b, c, g, gs) && Step(f, f', x, side, p, a, b, c, g, gs)
    ensures NodeOK(f', x)
  {
    StepLinksAtX(f, f', x, side, p, a, b, c, g, gs);
    StepSubAtX(f, f', x, side, p, a, b, c, g, gs);
  }

  lemma StepLinksAtX(f: Forest, f': Forest, x: int, side: bool, p: int, a: int, b: int, c: int, g: int, gs: Option<bool>)
    requires Setting(f, x, side, p, a, b, c, g, gs) && Step(f, f', x, side, p, a, b, c, g, gs)
    ensures LinksOK(f', x)
  {
    SettingApart(f, x, side, p, a, b, c, g, gs);
    assert NodeOK(f, x);
    assert NodeOK(f, p);
  }

  lemma StepSubAtX(f: Forest, f': Forest, x: int, side: bool, p: int, a: int, b: int, c: int, g: int, gs: Option<bool>)
    requires Setting(f, x, side, p, a, b, c, g, gs) && Step(f, f', x, side, p, a, b, c, g, gs)
    ensures f'.links.IsRef(f'.links.left[x]) && f'.links.IsRef(f'.links.right[x]) && SubOK(f', x)
  {
    SettingApart(f, x, side, p, a, b, c, g, gs);
    RotateSubs(f, x, side, p, a, b, c, g);
    RotatedSets(x, p, S(f, a), S(f, b), S(f, c), MidSub(f, x), MidSub(f, p));
    assert NodeOK(f, x);
    assert forall y :: y in f.sub[p] ==> 0 <= y < N(f) by { assert NodeOK(f, p); }
    MidSubFrame(f, f', x);
    assert S(f', a) == S(f, a);
    assert S(f', p) == {p} + S(f, b) + S(f, c) + MidSub(f, p);
  }

  lemma StepOKAtP(f: Forest, f': Forest, x: int, side: bool, p: int, a: int, b: int, c: int, g: int, gs: Option<bool>)
    requires Setting(f, x, side, p, a, b, c, g, gs) && Step(f, f', x, side, p, a, b, c, g, gs)
    ensures NodeOK(f', p)
  {
    StepLinksAtP(f, f', x, side, p, a, b, c, g, gs);
    StepSubAtP(f, f', x, side, p, a, b, c, g, gs);
  }

  lemma StepLinksAtP(f: Forest, f': Forest, x: int, side: bool, p: int, a: int, b: int, c: int, g: int, gs: Option<bool>)
    requires Setting(f, x, side, p, a, b, c, g, gs) && Step(f, f', x, side, p, a, b, c, g, gs)
    ensures LinksOK(f', p)
  {
    SettingApart(f, x, side, p, a, b, c, g, gs);
    assert NodeOK(f, p);
    assert NodeOK(f, x);
  }

  lemma StepSubAtP(f: Forest, f': Forest, x: int, side: bool, p: int, a: int, b: int, c: int, g: int, gs: Option<bool>)
    requires Setting(f, x, side, p, a, b, c, g, gs) && Step(f, f', x, side, p, a, b, c, g, gs)
    ensures f'.links.IsRef(f'.links.left[p]) && f'.links.IsRef(f'.links.right[p]) && SubOK(f', p)
  {
    SettingApart(f, x, side, p, a, b, c, g, gs);
    RotateSubs(f, x, side, p, a, b, c, g);
    assert NodeOK(f, p);
    MidSubFrame(f, f', p);
    assert S(f', b) == S(f, b);
    assert S(f', c) == S(f, c);
  }

  /** Replacing the dashed child p by x, which carries p's set, keeps the dashed part of g. */
  lemma MidSubReplace(f: Forest, f': Forest, g: int, p: int, x: int)
    requires Shaped(f) && Shaped(f') && N(f') == N(f) && IsNode(f, g) && IsNode(f, p) && IsNode(f, x)
    requires p in f.middle[g] && f'.middle[g] == f.middle[g] - {p} + {x} && f'.sub[x] == f.sub[p]
    requires forall m :: m in f.middle[g] && m != p && 0 <= m < N(f) ==> f'.sub[m] == f.sub[m]
    ensures MidSub(f', g) == MidSub(f, g)
  {
    forall y | y in MidSub(f, g) ensures y in MidSub(f', g) {
      var m :| m in f.middle[g] && 0 <= m < |f.sub| && y in f.sub[m];
      var m' := if m == p then x else m;
      assert m' in f'.middle[g] && 0 <= m' < |f'.sub| && y in f'.sub[m'];
    }
    forall y | y in MidSub(f', g) ensures y in MidSub(f, g) {
      var m :| m in f'.middle[g] && 0 <= m < |f'.sub| && y in f'.sub[m];
      var m' := if m == x then p else m;
      assert m' in f.middle[g] && 0 <= m' < |f.sub| && y in f.sub[m'];
    }
  }

  lemma StepOKAtG(f: Forest, f': Forest, x: int, side: bool, p: int, a: int, b: int, c: int, g: int, gs: Option<bool>)
    requires Setting(f, x, side, p, a, b, c, g, gs) && Step(f, f', x, side, p, a, b, c, g, gs) && g != NIL
    ensures NodeOK(f', g)
  {
    SettingApart(f, x, side, p, a, b, c, g, gs);
    if gs.Some? {
      StepLinksAtSolidG(f, f', x, side, p, a, b, c, g, gs);
      StepSubAtSolidG(f, f', x, side, p, a, b, c, g, gs);
    } else {
      StepLinksAtDashedG(f, f', x, side, p, a, b, c, g, gs);
      StepSubAtDashedG(f, f', x, side, p, a, b, c, g, gs);
    }
  }

  lemma StepParentAtG(f: Forest, f': Forest, x: int, side: bool, p: int, a: int, b: int, c: int, g: int, gs: Option<bool>)
    requires Setting(f, x, side, p, a, b, c, g, gs) && Step(f, f', x, side, p, a, b, c, g, gs) && g != NIL
    ensures IsNode(f, g) && ParentLinked(f', g)
  {
    SettingApart(f, x, side, p, a, b, c, g, gs);
    assert NodeOK(f, g);
    if f.links.parent[g] != NIL {
      GrandparentParent(f, x, side, p, a, b, c, g, gs);
    }
  }

  lemma StepLinksAtSolidG(f: Forest, f': Forest, x: int, side: bool, p: int, a: int, b: int, c: int, g: int, gs: Option<bool>)
    requires Setting(f, x, side, p, a, b, c, g, gs) && Step(f, f', x, side, p, a, b, c, g, gs) && gs.Some?
    ensures IsNode(f, g) && LinksOK(f', g)
  {
    SettingApart(f, x, side, p, a, b, c, g, gs);
    StepParentAtG(f, f', x, side, p, a, b, c, g, gs);
    assert NodeOK(f, g);
  }

  lemma StepSubAtSolidG(f: Forest, f': Forest, x: int, side: bool, p: int, a: int, b: int, c: int, g: int, gs: Option<bool>)
    requires Setting(f, x, side, p, a, b, c, g, gs) && Step(f, f', x, side, p, a, b, c, g, gs) && gs.Some?
    ensures IsNode(f, g) && f'.links.IsRef(f'.links.left[g]) && f'.links.IsRef(f'.links.right[g]) && SubOK(f', g)
  {
    SettingApart(f, x, side, p, a, b, c, g, gs);
    assert NodeOK(f, g);
    var o := f.links.Child(g, !gs.value);
    MidSubFrame(f, f', g);
    assert S(f', x) == S(f, p);
    assert S(f', o) == S(f, o);
  }

  lemma StepLinksAtDashedG(f: Forest, f': Forest, x: int, side: bool, p: int, a: int, b: int, c: int, g: int, gs: Option<bool>)
    requires Setting(f, x, side, p, a, b, c, g, gs) && Step(f, f', x, side, p, a, b, c, g, gs) && gs.None? && g != NIL
    ensures IsNode(f, g) && LinksOK(f', g)
  {
    SettingApart(f, x, side, p, a, b, c, g, gs);
    StepParentAtG(f, f', x, side, p, a, b, c, g, gs);
    assert NodeOK(f, g);
    forall m | m in f'.middle[g] ensures 0 <= m < N(f) && f'.links.parent[m] == g {
      if m != x {
        assert m in f.middle[g] && m != p;
        assert m != b by {
          if b != NIL { assert f.links.parent[b] == x; }
        }
      }
    }
  }

  lemma StepSubAtDashedG(f: Forest, f': Forest, x: int, side: bool, p: int, a: int, b: int, c: int, g: int, gs: Option<bool>)
    requires Setting(f, x, side, p, a, b, c, g, gs) && Step(f, f', x, side, p, a, b, c, g, gs) && gs.None? && g != NIL
    ensures IsNode(f, g) && f'.links.IsRef(f'.links.left[g]) && f'.links.IsRef(f'.links.right[g]) && SubOK(f', g)
  {
    SettingApart(f, x, side, p, a, b, c, g, gs);
    assert NodeOK(f, g);
    assert x !in f.middle[g];
    MidSubReplace(f, f', g, p, x);
    assert S(f', f.links.left[g]) == S(f, f.links.left[g]);
    assert S(f', f.links.right[g]) == S(f, f.links.right[g]);
    DashedGMiddles(f, f', x, side, p, a, b, c, g, gs);
  }

  lemma DashedGMiddles(f: Forest, f': Forest, x: int, side: bool, p: int, a: int, b: int, c: int, g: int, gs: Option<bool>)
    requires Setting(f, x, side, p, a, b, c, g, gs) && Step(f, f', x, side, p, a, b, c, g, gs) && gs.None? && g != NIL
    ensures IsNode(f, g)
    ensures forall m1, m2 :: m1 in f'.middle[g] && m2 in f'.middle[g] && m1 != m2 && 0 <= m1 < N(f) && 0 <= m2 < N(f) ==>
      f'.sub[m1] !! f'.sub[m2]
  {
    assert IsNode(f, g) && p in f.middle[g] && x !in f.middle[g] by {
      SettingFacts(f, x, side, p, a, b, c, g, gs);
    }
    assert NodeOK(f, g);
    forall m1, m2 | m1 in f'.middle[g] && m2 in f'.middle[g] && m1 != m2 && 0 <= m1 < N(f) && 0 <= m2 < N(f)
      ensures f'.sub[m1] !! f'.sub[m2]
    {
      var n1 := if m1 == x then p else m1;
      var n2 := if m2 == x then p else m2;
      assert n1 in f.middle[g] && n2 in f.middle[g] && n1 != n2;
      assert f'.sub[m1] == f.sub[n1] && f'.sub[m2] == f.sub[n2];
    }
  }

  lemma StepParentElse(f: Forest, f': Forest, x: int, side: bool, p: int, a: int, b: int, c: int, g: int, gs: Option<bool>, k: int)
    requires Setting(f, x, side, p, a, b, c, g, gs) && Step(f, f', x, side, p, a, b, c, g, gs)
    requires 0 <= k < N(f) && k != x && k != p && k != g
    ensures ParentLinked(f', k)
  {
    SettingApart(f, x, side, p, a, b, c, g, gs);
    assert NodeOK(f, k);
    var q := f.links.parent[k];
    if k == b {
    } else if q == x {
      assert NodeOK(f, x);
    } else if q == p {
      assert NodeOK(f, p);
    } else if q == g && q != NIL {
      assert NodeOK(f, g);
    }
  }

  lemma StepOKElse(f: Forest, f': Forest, x: int, side: bool, p: int, a: int, b: int, c: int, g: int, gs: Option<bool>, k: int)
    requires Setting(f, x, side, p, a, b, c, g, gs) && Step(f, f', x, side, p, a, b, c, g, gs)
    requires 0 <= k < N(f) && k != x && k != p && k != g
    ensures NodeOK(f', k)
  {
    SettingApart(f, x, side, p, a, b, c, g, gs);
    StepParentElse(f, f', x, side, p, a, b, c, g, gs, k);
    assert NodeOK(f, k);
    forall c' | 0 <= c' < N(f) && (c' == f.links.left[k] || c' == f.links.right[k] || c' in f.middle[k])
      ensures f'.links.parent[c'] == f.links.parent[c'] && f'.sub[c'] == f.sub[c']
    {
      assert f.links.parent[c'] == k;
    }
    NodeOKFrame(f, f', k);
  }

  /** A rotation keeps the forest well formed. */
  lemma StepValid(f: Forest, f': Forest, x: int, side: bool, p: int, a: int, b: int, c: int, g: int, gs: Option<bool>)
    requires Setting(f, x, side, p, a, b, c, g, gs) && Step(f, f', x, side, p, a, b, c, g, gs)
    ensures Valid(f')
  {
    forall k | 0 <= k < N(f') ensures NodeOK(f', k) {
      if k == x {
        StepOKAtX(f, f', x, side, p, a, b, c, g, gs);
      } else if k == p {
        StepOKAtP(f, f', x, side, p, a, b, c, g, gs);
      } else if k == g {
        StepOKAtG(f, f', x, side, p, a, b, c, g, gs);
      } else {
        StepOKElse(f, f', x, side, p, a, b, c, g, gs, k);
      }
    }
  }
}
