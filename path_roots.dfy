/**
 * The tree a path forest represents. Each solid tree stores one path of it,
 * deepest node first, and the parent of the solid root is the node that
 * path hangs from (NIL at the top). Up reads a node's path to the root of
 * its represented tree, RootPath the whole path its solid tree belongs to
 * continued up to that root. Rotations and splices, the steps of `_splay`,
 * change neither.
 */
module PathRoots {
  import opened BinaryNodes
  import opened PathForests
  import opened PathChains
  import opened PathRotation
  import opened PathRotationValid
  import opened PathRotationKeeps
  import opened PathRotationChains
  import opened PathSplice
  import opened PathSplaySteps

  /** Every node lies on the solid path of its solid root. */
  lemma InOwnRoot(f: Forest, k: int)
    requires Valid(f) && IsNode(f, k)
    ensures k in InOrder(f, SolidRoot(f, k))
  {
    SolidToInOrder(f, k, SolidRoot(f, k));
  }

  /** A node on the solid path of a solid root r has r as its solid root. */
  lemma RootOfMember(f: Forest, r: int, k: int)
    requires Valid(f) && IsNode(f, r) && Side(f, r).None? && k in InOrder(f, r)
    ensures IsNode(f, k) && SolidRoot(f, k) == r
  {
    InOrderSolidTo(f, r, k);
    SolidRootUnique(f, k, r);
  }

  /** The node a solid path hangs from lies higher up the forest than the path. */
  lemma RootAbove(f: Forest, k: int)
    requires Valid(f) && IsNode(f, k) && f.links.parent[SolidRoot(f, k)] != NIL
    ensures var q := f.links.parent[SolidRoot(f, k)];
      IsNode(f, q) && Range(N(f)) - f.sub[SolidRoot(f, q)] < Range(N(f)) - f.sub[SolidRoot(f, k)]
  {
    var r := SolidRoot(f, k);
    var q := f.links.parent[r];
    ParentAbove(f, r);
    SolidToSub(f, q, SolidRoot(f, q));
  }

  /**
   * The path from k up to the root of its represented tree: the part of k's
   * solid path from k on, then the path from the node it hangs from.
   */
  ghost function Up(f: Forest, k: int): (u: seq<int>)
    requires Valid(f) && IsNode(f, k)
    ensures |u| > 0 && u[0] == k
    decreases Range(N(f)) - f.sub[SolidRoot(f, k)]
  {
    var r := SolidRoot(f, k);
    InOwnRoot(f, k);
    From(InOrder(f, r), k) + (if f.links.parent[r] == NIL then [] else RootAbove(f, k); Up(f, f.links.parent[r]))
  }

  /** The whole path k's solid path belongs to, from its deepest node up to the root of the represented tree. */
  ghost function RootPath(f: Forest, k: int): (p: seq<int>)
    requires Valid(f) && IsNode(f, k)
    ensures k in p
  {
    var r := SolidRoot(f, k);
    InOwnRoot(f, k);
    InOrder(f, r) + (if f.links.parent[r] == NIL then [] else RootAbove(f, k); Up(f, f.links.parent[r]))
  }

  /** For a node with no parent, its own solid path is the whole root path. */
  lemma TopRootPath(f: Forest, x: int)
    requires Valid(f) && IsNode(f, x) && f.links.parent[x] == NIL
    ensures SolidRoot(f, x) == x && RootPath(f, x) == InOrder(f, x)
  {
  }

  /** Every node of a root path has that root path. */
  lemma RootPathMember(f: Forest, x: int, y: int)
    requires Valid(f) && IsNode(f, x) && y in InOrder(f, SolidRoot(f, x))
    ensures IsNode(f, y) && RootPath(f, y) == RootPath(f, x)
  {
    RootOfMember(f, SolidRoot(f, x), y);
  }

  /** On a + b, the part from a node of a is the rest of a followed by b. */
  lemma {:induction false} FromLeft(a: seq<int>, b: seq<int>, k: int)
    requires k in a
    ensures From(a + b, k) == From(a, k) + b
  {
    if a[0] != k {
      assert (a + b)[1..] == a[1..] + b;
      FromLeft(a[1..], b, k);
    }
  }

  /** On a + b, the part from a node not in a is the part of b from it. */
  lemma {:induction false} FromRight(a: seq<int>, b: seq<int>, k: int)
    requires k !in a
    ensures From(a + b, k) == From(b, k)
  {
    if a != [] {
      assert (a + b)[0] == a[0] != k;
      assert (a + b)[1..] == a[1..] + b;
      FromRight(a[1..], b, k);
    } else {
      assert a + b == b;
    }
  }

  /** f' keeps, node by node, the solid path the node is on and the node that path hangs from. */
  ghost predicate SamePaths(f: Forest, f': Forest)
  {
    && Valid(f) && Valid(f') && N(f') == N(f)
    && forall k :: 0 <= k < N(f) ==>
         InOrder(f', SolidRoot(f', k)) == InOrder(f, SolidRoot(f, k))
         && f'.links.parent[SolidRoot(f', k)] == f.links.parent[SolidRoot(f, k)]
  }

  /** Forests with the same solid paths hung from the same nodes represent the same trees. */
  lemma {:induction false} SamePathsUp(f: Forest, f': Forest, k: int)
    requires SamePaths(f, f') && IsNode(f, k)
    ensures Up(f', k) == Up(f, k) && RootPath(f', k) == RootPath(f, k)
    decreases Range(N(f)) - f.sub[SolidRoot(f, k)]
  {
    var r := SolidRoot(f, k);
    if f.links.parent[r] != NIL {
      RootAbove(f, k);
      SamePathsUp(f, f', f.links.parent[r]);
    }
  }

  /** A rotation keeps the solid path of k and the node it hangs from. */
  lemma RotatedPathAt(f: Forest, x: int, k: int)
    requires Valid(f) && IsNode(f, x) && Side(f, x).Some? && IsNode(f, k)
    ensures var f' := Rotated(f, x).0;
      && Valid(f') && N(f') == N(f)
      && InOrder(f', SolidRoot(f', k)) == InOrder(f, SolidRoot(f, k))
      && f'.links.parent[SolidRoot(f', k)] == f.links.parent[SolidRoot(f, k)]
  {
    var side, p, a, b, c, g, gs := RotateSetting(f, x);
    var f' := Rotated(f, x).0;
    RotatedStep(f, x, side, p, a, b, c, g, gs);
    StepSides(f, f', x, side, p, a, b, c, g, gs);
    SettingFacts(f, x, side, p, a, b, c, g, gs);
    var top := SolidRoot(f, x);
    var r := SolidRoot(f, k);
    InOwnRoot(f, k);
    if r == top {
      StepSolidRoot(f, f', x, side, p, a, b, c, g, gs, top);
      var top' := if p == top then x else top;
      RootOfMember(f', top', k);
    } else {
      assert SolidTo(f, p, top);
      if r == p {
        SolidToRoot(f, p, top);
      }
      StepInOrder(f, f', x, side, p, a, b, c, g, gs, r);
      RootOfMember(f', r, k);
    }
  }

  /** A rotation changes no solid path as a sequence, and no node a path hangs from. */
  lemma RotatedPaths(f: Forest, x: int)
    requires Valid(f) && IsNode(f, x) && Side(f, x).Some?
    ensures SamePaths(f, Rotated(f, x).0)
  {
    forall k | 0 <= k < N(f)
      ensures var f' := Rotated(f, x).0;
        && Valid(f') && N(f') == N(f)
        && InOrder(f', SolidRoot(f', k)) == InOrder(f, SolidRoot(f, k))
        && f'.links.parent[SolidRoot(f', k)] == f.links.parent[SolidRoot(f, k)]
    {
      RotatedPathAt(f, x, k);
    }
    RotatedKeeps(f, x);
  }

  /** Solid subtrees whose path does not hold q keep their order across a splice into q. */
  lemma {:induction false} SpliceInOrderOff(f: Forest, f': Forest, x: int, q: int, u: int, k: int)
    requires SpliceSetting(f, x, q, u) && SpliceStep(f, f', x, q, u)
    requires f.links.IsRef(k) && q !in InOrder(f, k)
    ensures Valid(f') && InOrder(f', k) == InOrder(f, k)
    decreases S(f, k)
  {
    SpliceValid(f, f', x, q, u);
    if k != NIL {
      InOrderUnfold(f, k);
      ChildBelowSolid(f, k);
      SpliceInOrderOff(f, f', x, q, u, f.links.left[k]);
      SpliceInOrderOff(f, f', x, q, u, f.links.right[k]);
    }
  }

  /** What a solid path rooted at r hangs from, read up to the root of its represented tree. */
  ghost function Hang(f: Forest, r: int): seq<int>
    requires Valid(f) && IsNode(f, r)
  {
    if f.links.parent[r] == NIL then [] else assert NodeOK(f, r); Up(f, f.links.parent[r])
  }

  lemma UpIs(f: Forest, k: int)
    requires Valid(f) && IsNode(f, k)
    ensures Up(f, k) == From(InOrder(f, SolidRoot(f, k)), k) + Hang(f, SolidRoot(f, k))
    ensures RootPath(f, k) == InOrder(f, SolidRoot(f, k)) + Hang(f, SolidRoot(f, k))
  {
  }

  /** Which solid roots a splice into a solid root q leaves, and where. */
  lemma SpliceRoots(f: Forest, f': Forest, x: int, q: int, u: int)
    requires SpliceSetting(f, x, q, u) && SpliceStep(f, f', x, q, u) && Side(f, q).None?
    ensures Valid(f') && f'.links.parent == f.links.parent
    ensures SolidRoot(f, q) == q && SolidRoot(f', q) == q && SolidRoot(f, x) == x
    ensures Side(f', q).None? && Hang(f, x) == Up(f, q)
    ensures u != NIL ==> IsNode(f, u) && Side(f', u).None? && f.links.parent[u] == q
  {
    SpliceSides(f, f', x, q, u);
    SpliceFacts(f, x, q, u);
  }

  /** The solid paths of q and u before and after a splice of x into q. */
  lemma SpliceOrders(f: Forest, f': Forest, x: int, q: int, u: int)
    requires SpliceSetting(f, x, q, u) && SpliceStep(f, f', x, q, u)
    ensures Valid(f') && f.links.IsRef(f.links.right[q]) && f.links.IsRef(u)
    ensures var X, U, R := InOrder(f, x), InOrder(f, u), InOrder(f, f.links.right[q]);
      && InOrder(f, q) == U + ([q] + R) && InOrder(f', q) == X + ([q] + R)
      && (u != NIL ==> InOrder(f', u) == U)
      && (u == NIL ==> U == [])
  {
    SpliceInOrder(f, f', x, q, u);
    SpliceOrderBefore(f, q);
  }

  lemma SpliceOrderBefore(f: Forest, q: int)
    requires Valid(f) && IsNode(f, q)
    ensures f.links.IsRef(f.links.right[q]) && f.links.IsRef(f.links.left[q])
    ensures InOrder(f, q) == InOrder(f, f.links.left[q]) + ([q] + InOrder(f, f.links.right[q]))
  {
    InOrderUnfold(f, q);
  }

  /** x's solid path shares no node with q's, and q is not in u's. */
  lemma SpliceApart(f: Forest, x: int, q: int, u: int)
    requires SpliceSetting(f, x, q, u)
    ensures f.links.IsRef(f.links.right[q]) && f.links.IsRef(u)
    ensures var X, U, R := InOrder(f, x), InOrder(f, u), InOrder(f, f.links.right[q]);
      q !in X && q !in U && (forall y :: y in X ==> y !in [q] + R)
  {
    SpliceFacts(f, x, q, u);
    ChildBelowSolid(f, q);
    InOrderInSub(f, x);
    InOrderInSub(f, u);
    InOrderInSub(f, f.links.right[q]);
  }

  /** Splicing into a solid root q leaves every node's path to the root of its represented tree as it was. */
  lemma {:induction false} SplicedUp(f: Forest, f': Forest, x: int, q: int, u: int, k: int)
    requires SpliceSetting(f, x, q, u) && SpliceStep(f, f', x, q, u) && Side(f, q).None?
    requires IsNode(f, k)
    ensures Valid(f') && Up(f', k) == Up(f, k)
    decreases Range(N(f)) - f.sub[SolidRoot(f, k)]
  {
    SpliceRoots(f, f', x, q, u);
    var r := SolidRoot(f, k);
    if r == x || r == q {
      var pq := f.links.parent[q];
      if pq != NIL {
        RootAbove(f, q);
        if r == x {
          SpliceFacts(f, x, q, u);
          assert Range(N(f)) - f.sub[q] <= Range(N(f)) - f.sub[x];
        }
        SplicedUp(f, f', x, q, u, pq);
      }
      SplicedUpNear(f, f', x, q, u, k);
    } else {
      if q in InOrder(f, r) {
        RootOfMember(f, r, q);
      }
      SpliceInOrderOff(f, f', x, q, u, r);
      SpliceSides(f, f', x, q, u);
      InOwnRoot(f, k);
      RootOfMember(f', r, k);
      if f.links.parent[r] != NIL {
        RootAbove(f, k);
        SplicedUp(f, f', x, q, u, f.links.parent[r]);
      }
    }
  }

  /** SplicedUp for the nodes on the paths of x and q, given that the path above q is kept. */
  lemma SplicedUpNear(f: Forest, f': Forest, x: int, q: int, u: int, k: int)
    requires SpliceSetting(f, x, q, u) && SpliceStep(f, f', x, q, u) && Side(f, q).None?
    requires IsNode(f, k) && (SolidRoot(f, k) == x || SolidRoot(f, k) == q)
    requires Valid(f') && (f.links.parent[q] != NIL ==> Up(f', f.links.parent[q]) == Up(f, f.links.parent[q]))
    ensures Up(f', k) == Up(f, k)
  {
    SpliceRoots(f, f', x, q, u);
    assert Hang(f', q) == Hang(f, q);
    SpliceOrders(f, f', x, q, u);
    SpliceApart(f, x, q, u);
    var X, U, R := InOrder(f, x), InOrder(f, u), InOrder(f, f.links.right[q]);
    InOwnRoot(f, k);
    UpAtQ(f, q, U, R);
    if SolidRoot(f, k) == x {
      UpInX(f, f', x, q, k, X, R);
    } else if k in U {
      UpAtQ(f', q, X, R);
      UpInU(f, f', q, u, k, U, R);
    } else {
      UpInQ(f, f', q, k, X, U, R);
    }
  }

  /** The path of q from q on: q, its right part, then what q hangs from. */
  lemma UpAtQ(f: Forest, q: int, U: seq<int>, R: seq<int>)
    requires Valid(f) && IsNode(f, q) && SolidRoot(f, q) == q && InOrder(f, q) == U + ([q] + R) && q !in U
    ensures Up(f, q) == [q] + R + Hang(f, q)
  {
    UpIs(f, q);
    FromRight(U, [q] + R, q);
  }

  /** A node of x's path: x's path now runs on into q's. */
  lemma UpInX(f: Forest, f': Forest, x: int, q: int, k: int, X: seq<int>, R: seq<int>)
    requires Valid(f) && Valid(f') && IsNode(f, x) && IsNode(f, q) && IsNode(f, k) && N(f') == N(f)
    requires SolidRoot(f, k) == x && X == InOrder(f, x) && k in X && Hang(f, x) == Up(f, q)
    requires Side(f', q).None? && InOrder(f', q) == X + ([q] + R)
    requires Up(f, q) == [q] + R + Hang(f, q) && Hang(f', q) == Hang(f, q)
    ensures Up(f', k) == Up(f, k)
  {
    var H := Hang(f, q);
    assert Up(f, k) == From(X, k) + ([q] + R + H) by {
      UpIs(f, k);
    }
    assert Up(f', k) == From(X, k) + ([q] + R) + H by {
      RootOfMember(f', q, k);
      UpIs(f', k);
      FromLeft(X, [q] + R, k);
    }
  }

  /** A node of u's path: u's path now hangs from q, where it used to continue. */
  lemma UpInU(f: Forest, f': Forest, q: int, u: int, k: int, U: seq<int>, R: seq<int>)
    requires Valid(f) && Valid(f') && IsNode(f, q) && IsNode(f, u) && IsNode(f, k) && N(f') == N(f)
    requires SolidRoot(f, k) == q && InOrder(f, q) == U + ([q] + R) && k in U && Hang(f', q) == Hang(f, q)
    requires Side(f', u).None? && InOrder(f', u) == U && f'.links.parent[u] == q
    requires Up(f', q) == [q] + R + Hang(f', q)
    ensures Up(f', k) == Up(f, k)
  {
    UpFromPart(f, q, k, U, [q] + R);
    UpHung(f', u, q, k);
    Regroup(From(U, k), [q] + R, Hang(f, q));
  }

  lemma Regroup(a: seq<int>, b: seq<int>, c: seq<int>)
    ensures a + b + c == a + (b + c)
  {
  }

  /** On a solid path that reads a + b, the path up from a node of a is the rest of a, b, and what the path hangs from. */
  lemma UpFromPart(f: Forest, r: int, k: int, a: seq<int>, b: seq<int>)
    requires Valid(f) && IsNode(f, r) && IsNode(f, k) && SolidRoot(f, k) == r && InOrder(f, r) == a + b && k in a
    ensures Up(f, k) == From(a, k) + b + Hang(f, r)
  {
    UpIs(f, k);
    FromLeft(a, b, k);
  }

  /** The path up from a node of a solid path rooted at u, which hangs from q. */
  lemma UpHung(f: Forest, u: int, q: int, k: int)
    requires Valid(f) && IsNode(f, u) && Side(f, u).None? && f.links.parent[u] == q && q != NIL
    requires k in InOrder(f, u)
    ensures IsNode(f, k) && Up(f, k) == From(InOrder(f, u), k) + Up(f, q)
  {
    RootOfMember(f, u, k);
    UpIs(f, k);
  }

  /** q or a node after it on q's path: that part of the path is unchanged. */
  lemma UpInQ(f: Forest, f': Forest, q: int, k: int, X: seq<int>, U: seq<int>, R: seq<int>)
    requires Valid(f) && Valid(f') && IsNode(f, q) && IsNode(f, k) && N(f') == N(f)
    requires SolidRoot(f, k) == q && InOrder(f, q) == U + ([q] + R) && k in InOrder(f, q) && k !in U
    requires Side(f', q).None? && InOrder(f', q) == X + ([q] + R) && (forall y :: y in X ==> y !in [q] + R)
    requires Hang(f', q) == Hang(f, q)
    ensures Up(f', k) == Up(f, k)
  {
    assert k in [q] + R;
    UpIs(f, k);
    FromRight(U, [q] + R, k);
    RootOfMember(f', q, k);
    UpIs(f', k);
    FromRight(X, [q] + R, k);
  }

  /** After a splice of x into a solid root q, the nodes of x's path lie on the root path they lay on before. */
  lemma SplicedRootPath(f: Forest, f': Forest, x: int, q: int, u: int, y: int)
    requires SpliceSetting(f, x, q, u) && SpliceStep(f, f', x, q, u) && Side(f, q).None?
    requires IsNode(f, y) && SolidTo(f, y, x)
    requires Valid(f') && (f.links.parent[q] != NIL ==> Up(f', f.links.parent[q]) == Up(f, f.links.parent[q]))
    ensures RootPath(f', y) == RootPath(f, y)
  {
    SpliceRoots(f, f', x, q, u);
    assert Hang(f', q) == Hang(f, q);
    SpliceOrders(f, f', x, q, u);
    SpliceApart(f, x, q, u);
    var X, U, R := InOrder(f, x), InOrder(f, u), InOrder(f, f.links.right[q]);
    UpAtQ(f, q, U, R);
    SolidRootUnique(f, y, x);
    SolidToInOrder(f, y, x);
    RootOfMember(f', q, y);
    UpIs(f, y);
    UpIs(f', y);
    Regroup(X, [q] + R, Hang(f, q));
  }

  /** f represents the same trees as f0, and y still lies on the root path it lay on. */
  ghost predicate SameTrees(f0: Forest, f: Forest, y: int)
  {
    && Valid(f0) && Valid(f) && N(f) == N(f0) && IsNode(f0, y)
    && (forall k :: 0 <= k < N(f0) ==> Up(f, k) == Up(f0, k))
    && RootPath(f, y) == RootPath(f0, y)
  }

  lemma SameTreesTrans(f0: Forest, f1: Forest, f2: Forest, y: int)
    requires SameTrees(f0, f1, y) && SameTrees(f1, f2, y)
    ensures SameTrees(f0, f2, y)
  {
  }

  /** A rotation changes no represented tree and no root path. */
  lemma RotatedTrees(f: Forest, x: int, y: int)
    requires Valid(f) && IsNode(f, x) && Side(f, x).Some? && IsNode(f, y)
    ensures SameTrees(f, Rotated(f, x).0, y)
  {
    var f' := Rotated(f, x).0;
    RotatedPaths(f, x);
    forall k | 0 <= k < N(f) ensures Up(f', k) == Up(f, k) {
      SamePathsUp(f, f', k);
    }
    SamePathsUp(f, f', y);
  }

  /**
   * Splicing x, a solid root whose walk to the top passes through solid roots
   * only, changes no represented tree, and the nodes of x's solid path keep
   * their root path.
   */
  lemma SplicedTrees(f: Forest, x: int, y: int)
    requires Valid(f) && IsNode(f, x) && DashedUp(f, x) && f.links.parent[x] != NIL
    requires IsNode(f, y) && SolidTo(f, y, x)
    ensures SameTrees(f, Spliced(f, x).0, y)
  {
    var q := f.links.parent[x];
    ParentAbove(f, x);
    var u := f.links.left[q];
    var f' := Spliced(f, x).0;
    SplicedStep(f, x, q, u);
    SpliceDashedUp(f, f', x, q, u);
    forall k | 0 <= k < N(f) ensures Up(f', k) == Up(f, k) {
      SplicedUp(f, f', x, q, u, k);
    }
    SplicedRootPath(f, f', x, q, u, y);
  }
}
