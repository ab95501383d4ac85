/**
 * The residual-capacity bookkeeping of max_flow/rework.py as pure functions:
 * the flow on an edge, which edges of the residual network have capacity,
 * what one `update_edge` writes, the entries of one vertex's level-graph
 * exit list, and the list removals of `remove_edge`.
 *
 * Matrices are sequences of rows; a vertex is an index into them.
 */
module FlowNetworks {
  import opened BinaryNodes

  /** An entry of `exits[u]`: the target vertex, the capacity found for the edge, and whether it runs against a flow-carrying edge. */
  datatype Edge = Edge(to: int, cap: int, reverse: bool)

  /** A square matrix of side n. */
  predicate IsSquare(M: seq<seq<int>>, n: nat) {
    |M| == n && forall i :: 0 <= i < n ==> |M[i]| == n
  }

  /** Capacities and residuals of one network of n vertices, u and v two of its vertices. */
  predicate InNetwork(C: seq<seq<int>>, R: seq<seq<int>>, u: int, v: int) {
    IsSquare(C, |C|) && IsSquare(R, |C|) && 0 <= u < |C| && 0 <= v < |C|
  }

  /** `F`: the flow along (u, v). */
  function Flow(C: seq<seq<int>>, R: seq<seq<int>>, u: int, v: int): int
    requires InNetwork(C, R, u, v)
  {
    C[u][v] - R[u][v]
  }

  /**
   * `has_capacity` as written: the residual of (u, v) when it is nonzero,
   * and otherwise `R[v][u] and F(v, u)` (Python's `or`/`and` yield an
   * operand, not a boolean). It asks whether (v, u) still has residual
   * capacity, not whether it carries flow, so the way back along a
   * saturated edge is never offered.
   */
  function HasCapacityAsWritten(C: seq<seq<int>>, R: seq<seq<int>>, u: int, v: int): (c: int)
    requires InNetwork(C, R, u, v)
    ensures c != 0 <==> R[u][v] != 0 || (R[v][u] != 0 && Flow(C, R, v, u) != 0)
    ensures R[u][v] != 0 ==> c == R[u][v]
    ensures R[u][v] == 0 ==> c == 0 || c == Flow(C, R, v, u)
  {
    if R[u][v] != 0 then R[u][v]
    else if R[v][u] == 0 then 0
    else Flow(C, R, v, u)
  }

  /**
   * `has_capacity` as evidently intended: the residual of (u, v) when it is
   * nonzero, and otherwise the flow that (v, u) carries and could give back.
   * The model of the level build uses this one.
   */
  function HasCapacity(C: seq<seq<int>>, R: seq<seq<int>>, u: int, v: int): (c: int)
    requires InNetwork(C, R, u, v)
    ensures c != 0 <==> R[u][v] != 0 || Flow(C, R, v, u) != 0
    ensures R[u][v] != 0 ==> c == R[u][v]
    ensures R[u][v] == 0 ==> c == Flow(C, R, v, u)
  {
    if R[u][v] != 0 then R[u][v] else Flow(C, R, v, u)
  }

  /**
   * The two readings of `has_capacity` differ exactly on the way back along
   * a saturated edge: (u, v) has no residual, (v, u) has a capacity and no
   * residual left.
   */
  lemma CapacityReadingsDiffer(C: seq<seq<int>>, R: seq<seq<int>>, u: int, v: int)
    requires InNetwork(C, R, u, v)
    ensures HasCapacityAsWritten(C, R, u, v) != HasCapacity(C, R, u, v) <==>
      R[u][v] == 0 && R[v][u] == 0 && C[v][u] != 0
  {
  }

  /** `is_reverse`: (u, v) has no residual of its own, so an edge found for it runs back along (v, u). */
  function IsReverse(R: seq<seq<int>>, u: int, v: int): bool
    requires 0 <= u < |R| && 0 <= v < |R[u]|
  {
    R[u][v] == 0
  }

  /**
   * The edge `exits[u]` records for v. A forward edge carries the residual
   * of (u, v); a reverse edge carries the flow on (v, u), which is what can
   * be pushed back.
   */
  function ExitEdge(C: seq<seq<int>>, R: seq<seq<int>>, u: int, v: int): (e: Edge)
    requires InNetwork(C, R, u, v) && HasCapacity(C, R, u, v) != 0
    ensures e.to == v && e.cap != 0
    ensures !e.reverse ==> e.cap == R[u][v]
    ensures e.reverse ==> R[u][v] == 0 && e.cap == Flow(C, R, v, u)
  {
    Edge(v, HasCapacity(C, R, u, v), IsReverse(R, u, v))
  }

  /** `is_on_level`: v has no level yet, or already has level i. */
  predicate IsOnLevel(levelOf: seq<Option<int>>, v: int, i: int)
    requires 0 <= v < |levelOf|
  {
    levelOf[v] == None || levelOf[v] == Some(i)
  }

  /**
   * The list comprehension of the level build, over the vertices below k:
   * one edge for every vertex v that may take level ii and that u has
   * capacity to, in increasing order of v.
   */
  function ExitsBelow(C: seq<seq<int>>, R: seq<seq<int>>, levelOf: seq<Option<int>>, u: int, ii: int, k: int): seq<Edge>
    requires InNetwork(C, R, u, u) && |levelOf| == |C| && 0 <= k <= |C|
  {
    if k == 0 then []
    else
      var es := ExitsBelow(C, R, levelOf, u, ii, k - 1);
      if IsOnLevel(levelOf, k - 1, ii) && HasCapacity(C, R, u, k - 1) != 0 then es + [ExitEdge(C, R, u, k - 1)]
      else es
  }

  /**
   * The comprehension below k holds an edge to exactly the vertices below k
   * that may take level ii and that u has capacity to, each once, in
   * increasing order.
   */
  lemma {:induction false} ExitsBelowMeans(C: seq<seq<int>>, R: seq<seq<int>>, levelOf: seq<Option<int>>, u: int, ii: int, k: int)
    requires InNetwork(C, R, u, u) && |levelOf| == |C| && 0 <= k <= |C|
    ensures var es := ExitsBelow(C, R, levelOf, u, ii, k);
      && (forall j :: 0 <= j < |es| ==>
            && 0 <= es[j].to < k && IsOnLevel(levelOf, es[j].to, ii)
            && HasCapacity(C, R, u, es[j].to) != 0 && es[j] == ExitEdge(C, R, u, es[j].to))
      && (forall v :: 0 <= v < k && IsOnLevel(levelOf, v, ii) && HasCapacity(C, R, u, v) != 0 ==>
            ExitEdge(C, R, u, v) in es)
      && (forall j1, j2 :: 0 <= j1 < j2 < |es| ==> es[j1].to < es[j2].to)
  {
    if k > 0 {
      ExitsBelowMeans(C, R, levelOf, u, ii, k - 1);
    }
  }

  /** The vertices an exit list leads to. */
  function Targets(es: seq<Edge>): set<int> {
    set e | e in es :: e.to
  }

  /** `exits[u]` as the level build of level ii writes it. */
  function Exits(C: seq<seq<int>>, R: seq<seq<int>>, levelOf: seq<Option<int>>, u: int, ii: int): seq<Edge>
    requires InNetwork(C, R, u, u) && |levelOf| == |C|
  {
    ExitsBelow(C, R, levelOf, u, ii, |C|)
  }

  /** The level build's exit list of u leads exactly to the vertices that may take level ii and that u has capacity to. */
  lemma ExitsTargets(C: seq<seq<int>>, R: seq<seq<int>>, levelOf: seq<Option<int>>, u: int, ii: int)
    requires InNetwork(C, R, u, u) && |levelOf| == |C|
    ensures Targets(Exits(C, R, levelOf, u, ii)) ==
      set v | 0 <= v < |C| && IsOnLevel(levelOf, v, ii) && HasCapacity(C, R, u, v) != 0
  {
    var es := Exits(C, R, levelOf, u, ii);
    ExitsBelowMeans(C, R, levelOf, u, ii, |C|);
    forall v | 0 <= v < |C| && IsOnLevel(levelOf, v, ii) && HasCapacity(C, R, u, v) != 0
      ensures v in Targets(es)
    {
      assert ExitEdge(C, R, u, v) in es;
    }
  }

  /**
   * `update_edge(u, uv, d)`: d is the residual left on the edge. A forward
   * edge stores it in R[u][v]; a reverse edge, whose residual is the flow
   * (v, u) can still give back, stores C[v][u] - d in R[v][u]. No other cell changes.
   */
  function UpdatedResidual(C: seq<seq<int>>, R: seq<seq<int>>, u: int, e: Edge, d: int): (R': seq<seq<int>>)
    requires InNetwork(C, R, u, e.to)
    ensures IsSquare(R', |C|)
    ensures !e.reverse ==> R'[u][e.to] == d && Flow(C, R', u, e.to) == C[u][e.to] - d
    ensures e.reverse ==> Flow(C, R', e.to, u) == d
    ensures EdgeResidual(C, R', u, e) == d
    ensures forall a, b :: 0 <= a < |C| && 0 <= b < |C| && R'[a][b] != R[a][b] ==>
      if e.reverse then a == e.to && b == u else a == u && b == e.to
  {
    var v := e.to;
    if e.reverse then R[v := R[v][u := C[v][u] - d]]
    else R[u := R[u][v := d]]
  }

  /**
   * What is left to push along the edge e out of u: the residual of (u, v)
   * for a forward edge, the flow on (v, u) for a reverse one. It is read
   * from the one cell of R that `update_edge` writes for e.
   */
  function EdgeResidual(C: seq<seq<int>>, R: seq<seq<int>>, u: int, e: Edge): int
    requires InNetwork(C, R, u, e.to)
  {
    if e.reverse then Flow(C, R, e.to, u) else R[u][e.to]
  }

  /** The cell of R that `update_edge` writes for the edge e out of u. */
  function Cell(u: int, e: Edge): (int, int) {
    if e.reverse then (e.to, u) else (u, e.to)
  }

  /** Writing the residual of one edge leaves every edge that has another cell as it was. */
  lemma OtherCellKept(C: seq<seq<int>>, R: seq<seq<int>>, u: int, e: Edge, d: int, k: int, f: Edge)
    requires InNetwork(C, R, u, e.to) && InNetwork(C, R, k, f.to) && Cell(u, e) != Cell(k, f)
    ensures EdgeResidual(C, UpdatedResidual(C, R, u, e, d), k, f) == EdgeResidual(C, R, k, f)
  {
    var R' := UpdatedResidual(C, R, u, e, d);
    var (a, b) := Cell(k, f);
    assert R'[a][b] == R[a][b];
  }

  /** Python's `list.remove(x)`: the list without its first x. */
  function RemoveFirst<T(==)>(s: seq<T>, x: T): (r: seq<T>)
    ensures x in s ==> |r| == |s| - 1 && multiset(r) == multiset(s) - multiset{x}
    ensures x !in s ==> r == s
    ensures multiset(r) <= multiset(s) && forall y :: y in r ==> y in s
  {
    if s == [] then []
    else
      assert s == [s[0]] + s[1..];
      if s[0] == x then s[1..]
      else [s[0]] + RemoveFirst(s[1..], x)
  }

  /** `find_edge(u, v)`: the first edge of es that leads to v, if any. */
  function FirstEdgeTo(es: seq<Edge>, v: int): (r: Option<Edge>)
    ensures r.Some? <==> exists j :: 0 <= j < |es| && es[j].to == v
    ensures r.Some? ==> r.value.to == v
    ensures r.Some? ==>
      exists j :: 0 <= j < |es| && es[j] == r.value && forall i :: 0 <= i < j ==> es[i].to != v
  {
    if es == [] then None
    else if es[0].to == v then Some(es[0])
    else
      var r := FirstEdgeTo(es[1..], v);
      assert forall j :: 1 <= j < |es| ==> es[j] == es[1..][j - 1];
      r
  }

  /** The total number of entries of a list of lists. */
  function TotalLength<T>(ss: seq<seq<T>>): nat
  {
    if ss == [] then 0 else |ss[0]| + TotalLength(ss[1..])
  }

  /** Replacing one list changes the total by the difference in its length. */
  lemma {:induction false} TotalLengthUpdate<T>(ss: seq<seq<T>>, i: int, s: seq<T>)
    requires 0 <= i < |ss|
    ensures TotalLength(ss[i := s]) == TotalLength(ss) - |ss[i]| + |s|
  {
    if i > 0 {
      assert ss[i := s][1..] == ss[1..][i - 1 := s];
      TotalLengthUpdate(ss[1..], i - 1, s);
    }
  }

  /** The sum of the flows out of s to the vertices below k. */
  function OutflowBelow(C: seq<seq<int>>, R: seq<seq<int>>, s: int, k: int): int
    requires InNetwork(C, R, s, s) && 0 <= k <= |C|
  {
    if k == 0 then 0 else OutflowBelow(C, R, s, k - 1) + Flow(C, R, s, k - 1)
  }

  /** The value `find_max_flow` returns: the sum of the flows out of the source. */
  function Outflow(C: seq<seq<int>>, R: seq<seq<int>>, s: int): int
    requires InNetwork(C, R, s, s)
  {
    OutflowBelow(C, R, s, |C|)
  }

  /** With every residual still equal to its capacity no flow leaves the source. */
  lemma {:induction false} NoFlowYet(C: seq<seq<int>>, s: int, k: int)
    requires InNetwork(C, C, s, s) && 0 <= k <= |C|
    ensures OutflowBelow(C, C, s, k) == 0
  {
    if k > 0 {
      NoFlowYet(C, s, k - 1);
    }
  }

  /** p is a walk along edges that still have residual capacity (`has_capacity`, as intended, is non-zero). */
  ghost predicate IsResidualPath(C: seq<seq<int>>, R: seq<seq<int>>, p: seq<int>) {
    && |p| > 0
    && (forall k :: 0 <= k < |p| ==> InNetwork(C, R, p[k], p[k]))
    && (forall k :: 0 <= k < |p| - 1 ==> HasCapacity(C, R, p[k], p[k + 1]) != 0)
  }

  /** No edge with residual capacity leaves the vertices that levelOf has placed on a level. */
  ghost predicate ClosedLevels(C: seq<seq<int>>, R: seq<seq<int>>, levelOf: seq<Option<int>>) {
    && |levelOf| == |C| && IsSquare(C, |C|) && IsSquare(R, |C|)
    && forall u, v :: 0 <= u < |C| && 0 <= v < |C| && levelOf[u].Some? && HasCapacity(C, R, u, v) != 0 ==> levelOf[v].Some?
  }

  /** A residual walk that starts on a level never leaves the levelled vertices. */
  lemma {:induction false} ClosedKeepsPaths(C: seq<seq<int>>, R: seq<seq<int>>, levelOf: seq<Option<int>>, p: seq<int>)
    requires ClosedLevels(C, R, levelOf) && IsResidualPath(C, R, p) && levelOf[p[0]].Some?
    ensures levelOf[p[|p| - 1]].Some?
    decreases |p|
  {
    if |p| > 1 {
      var q := p[..|p| - 1];
      assert IsResidualPath(C, R, q) by {
        assert forall k :: 0 <= k < |q| ==> q[k] == p[k];
      }
      ClosedKeepsPaths(C, R, levelOf, q);
      assert HasCapacity(C, R, p[|p| - 2], p[|p| - 1]) != 0;
    }
  }
}
