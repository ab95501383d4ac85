/**
 * A network on which `has_capacity` as written in max_flow/rework.py stops
 * short of the maximum flow. Vertices: s = 0, a = 1, b = 2, c = 3, d = 4,
 * e = 5, f = 6, t = 7; every edge below has capacity 1.
 *
 * The first level graph holds only the s-t path s a b t (f and t share a
 * level, so f t is not in it), and the blocking flow saturates it. After
 * that the one augmenting path, s c d b a e f t, runs back along (a, b),
 * and the as-written capacity of (b, a) is 0.
 */
module FlowCounterexample {
  import opened FlowNetworks

  /** Capacity 1 on s a, a b, b t, s c, c d, d b, a e, e f and f t; row u holds the edges out of u. */
  function Capacities(): seq<seq<int>> {
    [[0, 1, 0, 1, 0, 0, 0, 0],
     [0, 0, 1, 0, 0, 1, 0, 0],
     [0, 0, 0, 0, 0, 0, 0, 1],
     [0, 0, 0, 0, 1, 0, 0, 0],
     [0, 0, 1, 0, 0, 0, 0, 0],
     [0, 0, 0, 0, 0, 0, 1, 0],
     [0, 0, 0, 0, 0, 0, 0, 1],
     [0, 0, 0, 0, 0, 0, 0, 0]]
  }

  /** The residuals once one unit has gone along s a b t. */
  function AfterFirstPhase(): seq<seq<int>> {
    [[0, 0, 0, 1, 0, 0, 0, 0],
     [0, 0, 0, 0, 0, 1, 0, 0],
     [0, 0, 0, 0, 0, 0, 0, 0],
     [0, 0, 0, 0, 1, 0, 0, 0],
     [0, 0, 1, 0, 0, 0, 0, 0],
     [0, 0, 0, 0, 0, 0, 1, 0],
     [0, 0, 0, 0, 0, 0, 0, 1],
     [0, 0, 0, 0, 0, 0, 0, 0]]
  }

  /** The residuals once one more unit has gone along s c d b a e f t, giving (a, b) its unit back. */
  function AfterSecondPath(): seq<seq<int>> {
    [[0, 0, 0, 0, 0, 0, 0, 0],
     [0, 0, 1, 0, 0, 0, 0, 0],
     [0, 0, 0, 0, 0, 0, 0, 0],
     [0, 0, 0, 0, 0, 0, 0, 0],
     [0, 0, 0, 0, 0, 0, 0, 0],
     [0, 0, 0, 0, 0, 0, 0, 0],
     [0, 0, 0, 0, 0, 0, 0, 0],
     [0, 0, 0, 0, 0, 0, 0, 0]]
  }

  /** The vertices the as-written level build can still reach from s after the first phase. */
  function Reached(): set<int> {
    {0, 3, 4, 2}
  }

  /**
   * As written: (a, b) carries one unit, yet the way back from b to a has
   * capacity 0; no as-written capacity leaves {s, c, d, b}, which does not
   * hold t, so the next level build never reaches t and the loop ends with
   * a flow of 1 out of s.
   */
  lemma AsWrittenStalls()
    ensures var C, R := Capacities(), AfterFirstPhase();
      && InNetwork(C, R, 2, 1) && Flow(C, R, 1, 2) == 1 && HasCapacityAsWritten(C, R, 2, 1) == 0
      && 7 !in Reached() && 0 in Reached()
      && (forall u, v :: u in Reached() && 0 <= v < 8 && v !in Reached() ==>
            InNetwork(C, R, u, v) && HasCapacityAsWritten(C, R, u, v) == 0)
      && Outflow(C, R, 0) == 1
  {
    var C, R := Capacities(), AfterFirstPhase();
    forall u, v | u in Reached() && 0 <= v < 8 && v !in Reached()
      ensures InNetwork(C, R, u, v) && HasCapacityAsWritten(C, R, u, v) == 0
    {
      assert R[u][v] == 0 && R[v][u] == 0;
    }
    assert OutflowBelow(C, R, 0, 1) == 0;
    assert OutflowBelow(C, R, 0, 2) == 1;
    assert OutflowBelow(C, R, 0, 3) == 1;
    assert OutflowBelow(C, R, 0, 4) == 1;
    assert OutflowBelow(C, R, 0, 5) == 1;
    assert OutflowBelow(C, R, 0, 6) == 1;
    assert OutflowBelow(C, R, 0, 7) == 1;
  }

  /**
   * As intended: the way back from b to a has capacity 1, so s c d b a e f t
   * is a residual path from s to t, and pushing one unit along it gives a
   * flow of 2 out of s, which is the capacity out of s.
   */
  lemma CorrectedAugments()
    ensures var C, R := Capacities(), AfterFirstPhase();
      && InNetwork(C, R, 2, 1) && HasCapacity(C, R, 2, 1) == 1
      && IsResidualPath(C, R, [0, 3, 4, 2, 1, 5, 6, 7])
      && Outflow(C, AfterSecondPath(), 0) == 2
  {
    var C, R := Capacities(), AfterFirstPhase();
    var p := [0, 3, 4, 2, 1, 5, 6, 7];
    forall k | 0 <= k < |p| - 1 ensures HasCapacity(C, R, p[k], p[k + 1]) != 0 {
      assert R[p[k]][p[k + 1]] != 0 || Flow(C, R, p[k + 1], p[k]) != 0;
    }
    var R2 := AfterSecondPath();
    assert OutflowBelow(C, R2, 0, 1) == 0;
    assert OutflowBelow(C, R2, 0, 2) == 1;
    assert OutflowBelow(C, R2, 0, 3) == 1;
    assert OutflowBelow(C, R2, 0, 4) == 2;
    assert OutflowBelow(C, R2, 0, 5) == 2;
    assert OutflowBelow(C, R2, 0, 6) == 2;
    assert OutflowBelow(C, R2, 0, 7) == 2;
  }
}
