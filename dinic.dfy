/**
 * Dinic's algorithm as max_flow/rework.py runs it. `find_max_flow` keeps
 * its working state in local lists that its inner functions update in
 * place; here that state is the class Network, and the inner functions and
 * `send_blocking_flow` are its methods. Python's exceptions are the
 * Failure values.
 */
module Dinic {
  import opened BinaryNodes
  import opened PathForests
  import opened PathTrees
  import opened PathSplaySteps
  import opened PathRotationKeeps
  import opened FlowNetworks
  import opened DinicState

  /** Why a run stops without a result. */
  datatype Failure =
    | NoGraphEdge      // RuntimeError('Tree edge lacks corresponding graph edge')
    | NotAnEntrance    // ValueError from `entrances[v].remove(u)`
    | EdgeNotOnPath    // RuntimeError('Edge not on path')
    | InvalidCostData  // RuntimeError('Invalid cost data') from `find_min`
    | NoSuchLevel      // IndexError on `levels[i]` with i == n
    | LevelOverflow    // IndexError on `levels[ii].add(v)` with ii == n
    | SameTree         // `link` inside one tree, which the source does not detect
    | OutOfFuel        // the step bound given to the model ran out

  datatype Outcome<T> = Ok(value: T) | Fail(failure: Failure)

  /** `find_edge(k, v)` finds an edge in es, and R leaves d to push along it. */
  ghost predicate WrittenBack(C: seq<seq<int>>, R: seq<seq<int>>, es: seq<Edge>, k: int, v: int, d: int) {
    && InNetwork(C, R, k, v)
    && FirstEdgeTo(es, v).Some?
    && EdgeResidual(C, R, k, FirstEdgeTo(es, v).value) == d
  }

  /** k's next node, if any, does not have k as its own next node. */
  predicate OneWay(nx: seq<int>, k: int)
    requires 0 <= k < |nx|
  {
    nx[k] == NIL || !(0 <= nx[k] < |nx| && nx[nx[k]] == k)
  }

  /**
   * From the forest f0 and exit lists E0 to f and E: next nodes were only
   * cleared, a node that still has one kept its exit list, and no absolute
   * cost changed.
   */
  ghost predicate Based(f0: Forest, E0: seq<seq<Edge>>, f: Forest, E: seq<seq<Edge>>)
    requires PathForests.Valid(f0) && PathForests.Valid(f)
  {
    && N(f) == N(f0) && |E0| == N(f0) && |E| == N(f0)
    && forall k :: 0 <= k < N(f0) ==>
         && (f.next[k] == f0.next[k] || f.next[k] == NIL)
         && (f.next[k] != NIL ==> E[k] == E0[k])
         && SolidCost(f, k) == SolidCost(f0, k)
  }

  /** Cutting u, dropping from u's exit list only, and keeping every cost, stays Based on f0. */
  lemma BasedStep(f0: Forest, E0: seq<seq<Edge>>, f1: Forest, E1: seq<seq<Edge>>, f2: Forest, E2: seq<seq<Edge>>, u: int)
    requires PathForests.Valid(f0) && PathForests.Valid(f1) && PathForests.Valid(f2)
    requires Based(f0, E0, f1, E1) && 0 <= u < N(f1)
    requires N(f2) == N(f1) && |E2| == |E1| && f2.next == f1.next[u := NIL]
    requires forall k :: 0 <= k < N(f1) && k != u ==> E2[k] == E1[k]
    requires forall k :: 0 <= k < N(f1) ==> SolidCost(f2, k) == SolidCost(f1, k)
    ensures Based(f0, E0, f2, E2)
  {
  }

  /** Steps that keep every cost and every next node stay Based on f0. */
  lemma BasedKept(f0: Forest, E0: seq<seq<Edge>>, f1: Forest, f2: Forest, E: seq<seq<Edge>>)
    requires PathForests.Valid(f0) && PathForests.Valid(f1) && Based(f0, E0, f1, E) && CostsKept(f1, f2)
    ensures Based(f0, E0, f2, E)
  {
  }

  /**
   * Every node k cut from its next node v since f0 (nx is the current next
   * list) has had its edge to v written back with its cost in f0, unless v
   * had k as its own next node.
   */
  ghost predicate CutBack(C: seq<seq<int>>, R: seq<seq<int>>, E0: seq<seq<Edge>>, f0: Forest, nx: seq<int>)
    requires PathForests.Valid(f0) && |E0| == N(f0) && |nx| == N(f0)
  {
    forall k :: 0 <= k < N(f0) && f0.next[k] != NIL && nx[k] == NIL && OneWay(f0.next, k) ==>
      WrittenBack(C, R, E0[k], k, f0.next[k], SolidCost(f0, k))
  }

  /** Cutting one more node u, and writing its edge back with its cost in f0, extends CutBack to u. */
  lemma CutBackStep(C: seq<seq<int>>, R1: seq<seq<int>>, R2: seq<seq<int>>, E0: seq<seq<Edge>>, f0: Forest, nx1: seq<int>, u: int)
    requires PathForests.Valid(f0) && |E0| == N(f0) && |nx1| == N(f0) && 0 <= u < N(f0)
    requires forall k :: 0 <= k < N(f0) ==> nx1[k] == f0.next[k] || nx1[k] == NIL
    requires CutBack(C, R1, E0, f0, nx1)
    requires nx1[u] == NIL ==> R2 == R1
    requires nx1[u] != NIL ==>
      InNetwork(C, R1, u, nx1[u]) && FirstEdgeTo(E0[u], nx1[u]).Some? &&
      R2 == UpdatedResidual(C, R1, u, FirstEdgeTo(E0[u], nx1[u]).value, SolidCost(f0, u))
    ensures CutBack(C, R2, E0, f0, nx1[u := NIL])
  {
    var nx2 := nx1[u := NIL];
    forall k | 0 <= k < N(f0) && f0.next[k] != NIL && nx2[k] == NIL && OneWay(f0.next, k)
      ensures WrittenBack(C, R2, E0[k], k, f0.next[k], SolidCost(f0, k))
    {
      if k != u && nx1[u] != NIL {
        var eu := FirstEdgeTo(E0[u], nx1[u]).value;
        var ek := FirstEdgeTo(E0[k], f0.next[k]).value;
        assert Cell(u, eu) != Cell(k, ek);
        OtherCellKept(C, R1, u, eu, SolidCost(f0, u), k, ek);
      }
    }
  }

  /**
   * Every node k cut from v since f0 has had its edge to v written back
   * with its cost in f0 (all these edges end at v, so none overwrites another).
   */
  ghost predicate CutBackTo(C: seq<seq<int>>, R: seq<seq<int>>, E0: seq<seq<Edge>>, f0: Forest, nx: seq<int>, v: int)
    requires PathForests.Valid(f0) && |E0| == N(f0) && |nx| == N(f0)
  {
    forall k :: 0 <= k < N(f0) && f0.next[k] == v && nx[k] == NIL ==>
      WrittenBack(C, R, E0[k], k, v, SolidCost(f0, k))
  }

  /** Cutting one more node u from v, and writing its edge back, extends CutBackTo to u. */
  lemma CutBackToStep(C: seq<seq<int>>, R1: seq<seq<int>>, R2: seq<seq<int>>, E0: seq<seq<Edge>>, f0: Forest, nx1: seq<int>, v: int, u: int)
    requires PathForests.Valid(f0) && |E0| == N(f0) && |nx1| == N(f0) && 0 <= u < N(f0) && v != NIL
    requires CutBackTo(C, R1, E0, f0, nx1, v)
    requires nx1[u] == v && f0.next[u] == v && InNetwork(C, R1, u, v) && FirstEdgeTo(E0[u], v).Some?
    requires R2 == UpdatedResidual(C, R1, u, FirstEdgeTo(E0[u], v).value, SolidCost(f0, u))
    ensures CutBackTo(C, R2, E0, f0, nx1[u := NIL], v)
  {
    forall k | 0 <= k < N(f0) && f0.next[k] == v && nx1[u := NIL][k] == NIL
      ensures WrittenBack(C, R2, E0[k], k, v, SolidCost(f0, k))
    {
      if k != u {
        var eu := FirstEdgeTo(E0[u], v).value;
        var ek := FirstEdgeTo(E0[k], v).value;
        OtherCellKept(C, R1, u, eu, SolidCost(f0, u), k, ek);
      }
    }
  }

  /** A list whose entries all come from an empty one is empty. */
  lemma NoneLeft<T>(a: seq<T>, b: seq<T>)
    requires multiset(a) <= multiset(b) && b == []
    ensures a == []
  {
    assert |multiset(a)| == |a|;
  }

  class Network {
    const n: nat
    const C: seq<seq<int>>
    var R: seq<seq<int>>
    var exits: seq<seq<Edge>>
    var entrances: seq<seq<int>>
    var levelOf: seq<Option<int>>
    var levels: seq<set<int>>

    ghost predicate Valid()
      reads this
    {
      NetworkShaped(n, C, R, exits, entrances, levelOf, levels)
    }

    /** `levels` and `level_of` say the same thing: every vertex is on at most one level. */
    ghost predicate Levelled()
      reads this
    {
      LevelsAgree(levelOf, levels, n)
    }

    /** Since the state (R0, E0, N0): R was written only through edges of E0, and exits and entrances only lost entries. */
    ghost predicate Since(R0: seq<seq<int>>, E0: seq<seq<Edge>>, N0: seq<seq<int>>)
      reads this
    {
      Valid() && Shrunk(n, R0, E0, N0, R, exits, entrances)
    }

    /** The initial state: R a copy of C, no exits or entrances, and only s levelled, at level 0. */
    constructor (s: int, C0: seq<seq<int>>)
      requires IsSquare(C0, |C0|) && 0 <= s < |C0|
      ensures n == |C0| && C == C0 && R == C0 && Valid() && Levelled()
      ensures exits == seq(n, _ => []) && entrances == seq(n, _ => [])
      ensures levelOf == FreshLevels(n, s) && levels == seq(n, _ => {})[0 := {s}]
    {
      n := |C0|;
      C := C0;
      R := C0;
      exits := seq(|C0|, _ => []);
      entrances := seq(|C0|, _ => []);
      levelOf := FreshLevels(|C0|, s);
      levels := seq(|C0|, _ => {})[0 := {s}];
    }

    /** `update_edge(u, uv, d)`: the one writer of R. */
    method UpdateEdge(u: int, uv: Edge, d: int)
      requires Valid() && 0 <= u < n && 0 <= uv.to < n
      modifies this
      ensures Valid() && R == UpdatedResidual(C, old(R), u, uv, d)
      ensures exits == old(exits) && entrances == old(entrances) && levelOf == old(levelOf) && levels == old(levels)
    {
      var v := uv.to;
      if uv.reverse {
        R := R[v := R[v][u := C[v][u] - d]];
      } else {
        R := R[u := R[u][v := d]];
      }
    }

    /**
     * `remove_edge(u, v, d)`: drop the first edge from u to v from exits[u]
     * and the first u from entrances[v], writing the residual d through the
     * edge first when it is given.
     */
    method RemoveEdge(u: int, v: int, d: Option<int>) returns (err: Option<Failure>)
      requires Valid() && 0 <= u < n && 0 <= v < n
      modifies this
      ensures Valid() && levelOf == old(levelOf) && levels == old(levels)
      ensures err == None <==> FirstEdgeTo(old(exits[u]), v).Some? && u in old(entrances[v])
      ensures err == Some(NoGraphEdge) <==> FirstEdgeTo(old(exits[u]), v).None?
      ensures forall k :: 0 <= k < n && k != u ==> exits[k] == old(exits[k])
      ensures err == None ==> var e := FirstEdgeTo(old(exits[u]), v).value;
        && exits == old(exits)[u := RemoveFirst(old(exits[u]), e)]
        && entrances == old(entrances)[v := RemoveFirst(old(entrances[v]), u)]
        && R == (if d.Some? then UpdatedResidual(C, old(R), u, e, d.value) else old(R))
        && TotalLength(exits) == TotalLength(old(exits)) - 1
        && |entrances[v]| == |old(entrances[v])| - 1
      ensures err == None ==> Since(old(R), old(exits), old(entrances))
    {
      ghost var R0, E0, N0 := R, exits, entrances;
      var uv := FirstEdgeTo(exits[u], v);
      if uv.None? {
        return Some(NoGraphEdge);
      }
      var e := uv.value;
      if d.Some? {
        UpdateEdge(u, e, d.value);
      }
      exits := exits[u := RemoveFirst(exits[u], e)];
      if u !in entrances[v] {
        return Some(NotAnEntrance);
      }
      entrances := entrances[v := RemoveFirst(entrances[v], u)];
      TotalLengthUpdate(E0, u, exits[u]);
      SinceRemoved(R0, E0, N0, u, v, e);
      return None;
    }

    /** The Since facts for one successful `remove_edge`. */
    lemma SinceRemoved(R0: seq<seq<int>>, E0: seq<seq<Edge>>, N0: seq<seq<int>>, u: int, v: int, e: Edge)
      requires IsSquare(R0, n) && EdgesIn(E0, n) && VerticesIn(N0, n) && Valid()
      requires 0 <= u < n && 0 <= v < n && e in E0[u] && e.to == v && u in N0[v]
      requires exits == E0[u := RemoveFirst(E0[u], e)] && entrances == N0[v := RemoveFirst(N0[v], u)]
      requires forall a, b :: 0 <= a < n && 0 <= b < n && R[a][b] != R0[a][b] ==>
        if e.reverse then a == e.to && b == u else a == u && b == e.to
      ensures Since(R0, E0, N0)
    {
      forall a, b | 0 <= a < n && 0 <= b < n && R[a][b] != R0[a][b] ensures Touched(E0, a, b) {
      }
    }
 
    /** `is_on_level(v, ii)` answers as it did in L0, before the build of level ii began. */
    ghost predicate SameOnLevel(L0: seq<Option<int>>, ii: int)
      reads this
      requires Valid() && |L0| == n
    {
      SameAnswers(levelOf, L0, ii)
    }

    /**
     * One `exits[u] = [...]` of the level build: the comprehension over every
     * vertex v, which joins level ii and records u as its entrance when it
     * may take level ii and u has capacity to it. False is the IndexError of
     * `levels[ii]` when level ii does not exist.
     */
    method BuildExits(u: int, ii: int, ghost L0: seq<Option<int>>) returns (ok: bool)
      requires Valid() && Levelled() && 0 <= u < n && 0 < ii && |L0| == n && SameOnLevel(L0, ii)
      modifies this
      ensures Valid() && R == old(R)
      ensures ok <==> ii < n || forall v :: 0 <= v < n ==> !Joins(C, R, L0, u, ii, v)
      ensures ok ==> Levelled() && SameOnLevel(L0, ii)
      ensures ok ==> exits == old(exits)[u := Exits(C, R, L0, u, ii)]
      ensures ok ==> var J := Joiners(C, R, L0, u, ii);
        && EntrancesGrown(old(entrances), entrances, J, u)
        && LevelOfGrown(old(levelOf), levelOf, J, ii)
        && LevelsGrown(old(levels), levels, J, ii)
    {
      ghost var LO0, LV0 := levelOf, levels;
      var es;
      es, ok := CollectExits(u, ii, L0);
      if ok {
        BuiltLevels(u, ii, L0, es, LO0, LV0);
        ExitsBelowMeans(C, R, L0, u, ii, |C|);
        assert forall e :: e in es ==> 0 <= e.to < n;
        exits := exits[u := es];
      }
    }

    /** Write back the level records and entrance lists the comprehension built. */
    method Store(lo: seq<Option<int>>, lv: seq<set<int>>, ents: seq<seq<int>>)
      requires Valid() && |lo| == n && |lv| == n && VerticesIn(ents, n)
      modifies this
      ensures Valid() && levelOf == lo && levels == lv && entrances == ents
      ensures R == old(R) && exits == old(exits)
    {
      levelOf, levels, entrances := lo, lv, ents;
    }

    /** The loop of the comprehension, collecting the new `exits[u]` in es. */
    method CollectExits(u: int, ii: int, ghost L0: seq<Option<int>>) returns (es: seq<Edge>, ok: bool)
      requires Valid() && 0 <= u < n && 0 < ii && |L0| == n && SameOnLevel(L0, ii)
      modifies this
      ensures Valid() && R == old(R) && exits == old(exits)
      ensures !ok ==> ii >= n && exists v :: 0 <= v < n && Joins(C, R, L0, u, ii, v)
      ensures ok ==> es == Exits(C, R, L0, u, ii) && (ii >= n ==> es == [])
      ensures ok ==> EntrancesGrown(old(entrances), entrances, Targets(es), u)
      ensures ok ==> LevelOfGrown(old(levelOf), levelOf, Targets(es), ii)
      ensures ok ==> LevelsGrown(old(levels), levels, Targets(es), ii)
    {
      es := [];
      var lo, lv, ents := levelOf, levels, entrances;
      var v := 0;
      while v < n
        modifies {}
        invariant 0 <= v <= n && |lo| == |lv| == |ents| == n
        invariant Collected(C, R, L0, u, ii, v, es, entrances, ents, levelOf, lo, levels, lv)
      {
        CollectedStep(C, R, L0, u, ii, v, es, entrances, ents, levelOf, lo, levels, lv);
        if IsOnLevel(lo, v, ii) {
          var c := HasCapacity(C, R, u, v);
          if c != 0 {
            if ii >= n {
              return es, false;
            }
            lo := lo[v := Some(ii)];
            lv := lv[ii := lv[ii] + {v}];
            ents := ents[v := ents[v] + [u]];
            es := es + [ExitEdge(C, R, u, v)];
          }
        }
        v := v + 1;
      }
      assert |C| == n;
      assert es == Exits(C, R, L0, u, ii);
      GrownVertices(entrances, ents, Targets(es), u, n);
      Store(lo, lv, ents);
      return es, true;
    }

    /** The level facts at the end of one build of `exits[u]`. */
    lemma BuiltLevels(u: int, ii: int, L0: seq<Option<int>>, es: seq<Edge>, LO0: seq<Option<int>>, LV0: seq<set<int>>)
      requires Valid() && 0 <= u < n && 0 < ii && |L0| == n && es == Exits(C, R, L0, u, ii)
      requires LevelsAgree(LO0, LV0, n) && forall v :: 0 <= v < n ==> (IsOnLevel(LO0, v, ii) <==> IsOnLevel(L0, v, ii))
      requires ii >= n ==> es == []
      requires LevelOfGrown(LO0, levelOf, Targets(es), ii) && LevelsGrown(LV0, levels, Targets(es), ii)
      ensures Levelled() && SameOnLevel(L0, ii)
      ensures ii < n || forall v :: 0 <= v < n ==> !Joins(C, R, L0, u, ii, v)
      ensures Targets(es) == Joiners(C, R, L0, u, ii)
    {
      ExitsTargets(C, R, L0, u, ii);
      LevelsAgreeGrown(LO0, LV0, levelOf, levels, Targets(es), ii, n);
    }

    /**
     * `for u in levels[i]: exits[u] = [...]`: build level i + 1 from level i,
     * visiting the vertices of level i in an order the model leaves open.
     * Afterwards every vertex that a vertex of level i has capacity to has a
     * level, the new ones level i + 1. False is the IndexError of
     * `levels[i + 1]` when i + 1 == n and some vertex would take that level.
     */
    method BuildLevel(i: int, ii: int, ghost L0: seq<Option<int>>) returns (ok: bool)
      requires Valid() && Levelled() && 0 <= i < n && ii == i + 1 && L0 == levelOf
      modifies this
      ensures Valid() && R == old(R)
      ensures ok <==> ii < n || forall u, v :: u in old(levels[i]) && 0 <= u < n && 0 <= v < n ==> !Joins(C, R, L0, u, ii, v)
      ensures ok ==> Levelled() && levels[i] == old(levels[i])
      ensures ok ==> forall u :: 0 <= u < n ==>
        exits[u] == if u in old(levels[i]) then Exits(C, R, L0, u, ii) else old(exits[u])
      ensures ok ==> LevelOfGrown(L0, levelOf, NextLevel(C, R, L0, old(levels[i]), ii), ii)
      ensures ok ==> EntrancesFrom(C, R, L0, old(entrances), entrances, old(levels[i]), ii)
    {
      ghost var J, via;
      ok, J, via := BuildAll(i, ii, L0);
      if ok {
        BuiltMeans(L0, ii, old(levels[i]), old(exits), old(entrances), J, via);
      }
    }

    /** The loop of `for u in levels[i]`, visiting the vertices in increasing order. */
    method BuildAll(i: int, ii: int, ghost L0: seq<Option<int>>) returns (ok: bool, ghost J: set<int>, ghost via: map<int, int>)
      requires Valid() && Levelled() && 0 <= i < n && ii == i + 1 && L0 == levelOf
      modifies this
      ensures Valid() && R == old(R)
      ensures !ok ==> ii >= n && exists u, v :: u in old(levels[i]) && 0 <= u < n && 0 <= v < n && Joins(C, R, L0, u, ii, v)
      ensures ok ==> levels[i] == old(levels[i]) && BuiltFrom(L0, ii, old(levels[i]), old(exits), old(entrances), J, via)
    {
      ghost var E0, N0 := exits, entrances;
      ghost var level := levels[i];
      J, via := {}, map[];
      var u := 0;
      VisitedNone(level);
      while u < n
        invariant 0 <= u <= n && Valid() && R == old(R) && levels[i] == level
        invariant forall x :: x in level ==> 0 <= x < n
        invariant BuiltFrom(L0, ii, Visited(level, u), E0, N0, J, via)
      {
        VisitedStep(level, u);
        if u in levels[i] {
          ok, J, via := BuildOne(u, i, ii, L0, Visited(level, u), E0, N0, J, via);
          if !ok {
            return;
          }
        }
        u := u + 1;
      }
      VisitedAll(level, n);
      return true, J, via;
    }

    /** What the finished build of level ii from `level` leaves behind. */
    lemma BuiltMeans(L0: seq<Option<int>>, ii: int, level: set<int>, E0: seq<seq<Edge>>, N0: seq<seq<int>>,
                     J: set<int>, via: map<int, int>)
      requires Valid() && |L0| == n && BuiltFrom(L0, ii, level, E0, N0, J, via)
      ensures Levelled()
      ensures ii < n || forall u, v :: u in level && 0 <= u < n && 0 <= v < n ==> !Joins(C, R, L0, u, ii, v)
      ensures forall u :: 0 <= u < n ==> exits[u] == if u in level then Exits(C, R, L0, u, ii) else E0[u]
      ensures LevelOfGrown(L0, levelOf, NextLevel(C, R, L0, level, ii), ii)
      ensures EntrancesFrom(C, R, L0, N0, entrances, level, ii)
    {
      JoinedAll(C, R, L0, level, J, via, ii);
    }

    /**
     * The state part-way through the build of level ii: the vertices of D
     * have built their exits, which made the vertices of J join level ii.
     */
    ghost predicate BuiltFrom(L0: seq<Option<int>>, ii: int, D: set<int>, E0: seq<seq<Edge>>, N0: seq<seq<int>>,
                              J: set<int>, via: map<int, int>)
      reads this
      requires Valid() && |L0| == n
    {
      BuiltVals(C, R, L0, ii, D, E0, N0, J, via, exits, entrances, levelOf, levels)
    }

    /** One pass of the `for u in levels[i]` loop. */
    method BuildOne(u: int, i: int, ii: int, ghost L0: seq<Option<int>>, ghost D: set<int>,
                    ghost E0: seq<seq<Edge>>, ghost N0: seq<seq<int>>, ghost J: set<int>, ghost via: map<int, int>)
      returns (ok: bool, ghost J': set<int>, ghost via': map<int, int>)
      requires Valid() && |L0| == n && 0 <= u < n && 0 <= i < n && ii == i + 1 && u !in D
      requires BuiltFrom(L0, ii, D, E0, N0, J, via)
      modifies this
      ensures Valid() && R == old(R)
      ensures ok ==> levels[i] == old(levels[i])
      ensures !ok ==> ii >= n && exists v :: 0 <= v < n && Joins(C, R, L0, u, ii, v)
      ensures ok ==> BuiltFrom(L0, ii, D + {u}, E0, N0, J', via')
    {
      ghost var E1, N1, LO1, LV1 := exits, entrances, levelOf, levels;
      ok := BuildExits(u, ii, L0);
      if !ok {
        return ok, J, via;
      }
      ghost var Ju := Joiners(C, R, L0, u, ii);
      BuiltStep(C, R, L0, ii, D, E0, N0, J, via, E1, N1, LO1, LV1, exits, entrances, levelOf, levels, u);
      J' := J + Ju;
      via' := ViaExtended(via, J, Ju, u);
    }

    /**
     * `remove_saturated_edge(u)`: read u's cost, cut u from its next node v,
     * and remove the edge (u, v) with that cost as its new residual. The
     * result is the node `find_min` gives on s's path, or NIL when u is s
     * with no next node.
     */
    method RemoveSaturatedEdge(forest: PathForest, s: int, u: int) returns (r: Outcome<int>)
      requires Valid() && forest.Valid() && N(forest.Snap()) == n && 0 <= s < n && 0 <= u < n
      modifies this, forest, forest.links
      ensures Valid() && levelOf == old(levelOf) && levels == old(levels)
      ensures forest.Valid() && N(forest.Snap()) == n && forest.next == old(forest.next)[u := NIL]
      ensures old(forest.next[u]) == NIL ==>
        r == (if u == s then Ok(NIL) else Fail(EdgeNotOnPath)) && R == old(R) && exits == old(exits) && entrances == old(entrances)
      ensures old(forest.next[u]) != NIL ==> var v := old(forest.next[u]);
        && (r == Fail(NoGraphEdge) <==> FirstEdgeTo(old(exits[u]), v).None?)
        && (r.Ok? ==> R == UpdatedResidual(C, old(R), u, FirstEdgeTo(old(exits[u]), v).value, SolidCost(old(forest.Snap()), u)))
        && (r.Ok? ==> TotalLength(exits) == TotalLength(old(exits)) - 1 && Since(old(R), old(exits), old(entrances)))
      ensures r.Ok? && r.value != NIL ==> IsNode(forest.Snap(), r.value) && old(forest.next[u]) != NIL
      ensures forall k :: 0 <= k < n ==> SolidCost(forest.Snap(), k) == SolidCost(old(forest.Snap()), k)
      ensures forall k :: 0 <= k < n && k != u ==> exits[k] == old(exits[k])
    {
      var d := forest.FindCost(u);
      assert NodeOK(forest.Snap(), u);
      var v := forest.next[u];
      var right := forest.Cut(u);
      if v != NIL {
        assert old(forest.next[u]) == v;
        var err := RemoveEdge(u, v, Some(d));
        if err.Some? {
          return Fail(err.value);
        }
      } else if u == s {
        return Ok(NIL);
      } else {
        return Fail(EdgeNotOnPath);
      }
      var m := forest.FindMin(s);
      if m.None? {
        return Fail(InvalidCostData);
      }
      return Ok(m.value);
    }

    /**
     * The update step of `send_blocking_flow`, once s's path reaches t: take
     * the bottleneck cost d off the whole path, then remove saturated edges
     * while the node `find_min` gives has cost 0.
     */
    method Augment(forest: PathForest, s: int) returns (err: Option<Failure>, ghost low: int, ghost d: int)
      requires Valid() && forest.Valid() && N(forest.Snap()) == n && 0 <= s < n
      modifies this, forest, forest.links
      ensures Valid() && levelOf == old(levelOf) && levels == old(levels)
      ensures forest.Valid() && N(forest.Snap()) == n
      ensures err == None ==> Since(old(R), old(exits), old(entrances))
      ensures err == None ==> forall k :: 0 <= k < n ==> forest.next[k] == old(forest.next[k]) || forest.next[k] == NIL
      ensures err == None ==> IsNode(old(forest.Snap()), low) && d == SolidCost(old(forest.Snap()), low)
      ensures err == None && old(forest.links.parent[SolidRoot(forest.Snap(), s)]) == NIL ==>
        var p := InOrder(old(forest.Snap()), SolidRoot(old(forest.Snap()), s));
        && low in p
        && forall k :: 0 <= k < n ==>
             SolidCost(forest.Snap(), k) == SolidCost(old(forest.Snap()), k) - (if k in From(p, s) then d else 0)
      ensures err == None ==> forall k :: 0 <= k < n && old(forest.next[k]) != NIL && forest.next[k] == NIL && OneWay(old(forest.next), k) ==>
        WrittenBack(C, R, old(exits[k]), k, old(forest.next[k]), SolidCost(forest.Snap(), k))
    {
      var m;
      m, low, d := Bottleneck(forest, s);
      if m.None? {
        return Some(InvalidCostData), low, d;
      }
      err := Saturate(forest, s, m.value);
    }

    /**
     * `v = remove_saturated_edge(s.find_min())` and the loop that follows
     * it: cut m and then every node whose cost is 0, writing each one's cost
     * back as its edge's residual. No absolute cost changes.
     */
    method Saturate(forest: PathForest, s: int, m: int) returns (err: Option<Failure>)
      requires Valid() && forest.Valid() && N(forest.Snap()) == n && 0 <= s < n && 0 <= m < n
      modifies this, forest, forest.links
      ensures Valid() && levelOf == old(levelOf) && levels == old(levels)
      ensures forest.Valid() && N(forest.Snap()) == n
      ensures err == None ==> Since(old(R), old(exits), old(entrances))
      ensures err == None ==> Based(old(forest.Snap()), old(exits), forest.Snap(), exits)
      ensures err == None ==> CutBack(C, R, old(exits), old(forest.Snap()), forest.next)
      ensures err == None ==> forall k :: 0 <= k < n && k != m && old(forest.next[k]) != NIL && forest.next[k] == NIL ==>
        SolidCost(forest.Snap(), k) == 0
    {
      ghost var fB, RB, EB := forest.Snap(), R, exits;
      var r := RemoveSaturatedEdge(forest, s, m);
      if r.Fail? {
        return Some(r.failure);
      }
      CutBackStep(C, RB, R, EB, fB, fB.next, m);
      ghost var R1, E1, N1 := R, exits, entrances;
      err := Trim(forest, s, r.value, EB, fB);
      if err == None {
        ShrunkTrans(n, old(R), old(exits), old(entrances), R1, E1, N1, R, exits, entrances);
      }
    }

    /**
     * `d = s.find_min().find_cost(); s.add_cost(-d)`, then `s.find_min()`
     * again: take the bottleneck cost d, the cost of the node low that
     * `find_min` gives, off s and every node after s on its path, and return
     * the node whose cost now limits the path. None is the RuntimeError of
     * `find_min`.
     */
    method Bottleneck(forest: PathForest, s: int) returns (m: Option<int>, ghost low: int, ghost d: int)
      requires forest.Valid() && IsNode(forest.Snap(), s)
      modifies forest, forest.links
      ensures forest.Valid() && N(forest.Snap()) == N(old(forest.Snap())) && forest.next == old(forest.next)
      ensures m.Some? ==> IsNode(forest.Snap(), m.value)
      ensures m.Some? ==> IsNode(old(forest.Snap()), low) && d == SolidCost(old(forest.Snap()), low)
      ensures m.Some? && old(forest.links.parent[SolidRoot(forest.Snap(), s)]) == NIL ==>
        var p := InOrder(old(forest.Snap()), SolidRoot(old(forest.Snap()), s));
        && low in p
        && forall k :: 0 <= k < N(old(forest.Snap())) ==>
             SolidCost(forest.Snap(), k) == SolidCost(old(forest.Snap()), k) - (if k in From(p, s) then d else 0)
    {
      var m0, c := MinCost(forest, s);
      low, d := s, 0;
      if m0.None? {
        return None, low, d;
      }
      low, d := m0.value, c;
      ghost var f2 := forest.Snap();
      forest.AddCost(s, -c);
      ghost var f3 := forest.Snap();
      m := forest.FindMin(s);
      if m.Some? && old(forest.links.parent[SolidRoot(forest.Snap(), s)]) == NIL {
        TopSolidRoot(f2, low, s);
        FromSelf(f3, s);
      }
    }

    /**
     * `s.find_min().find_cost()`: the node m that `find_min` gives on s's
     * path and its cost d, with m splayed to the top. When s's solid tree
     * was the top one, m's path is s's path as it was.
     */
    method MinCost(forest: PathForest, s: int) returns (m: Option<int>, d: int)
      requires forest.Valid() && IsNode(forest.Snap(), s)
      modifies forest, forest.links
      ensures forest.Valid() && CostsKept(old(forest.Snap()), forest.Snap())
      ensures m.Some? ==> IsNode(forest.Snap(), m.value) && d == SolidCost(old(forest.Snap()), m.value)
      ensures m.Some? ==> forest.links.parent[m.value] == NIL && m.value in InOrder(forest.Snap(), m.value)
      ensures m.Some? && old(forest.links.parent[SolidRoot(forest.Snap(), s)]) == NIL ==>
        && InOrder(forest.Snap(), m.value) == InOrder(old(forest.Snap()), SolidRoot(old(forest.Snap()), s))
        && s in InOrder(forest.Snap(), m.value)
    {
      ghost var f0 := forest.Snap();
      d := 0;
      m := forest.FindMin(s);
      if m.None? {
        return;
      }
      ghost var f1 := forest.Snap();
      InOrderUnfold(f1, m.value);
      assert SolidRoot(f1, m.value) == m.value;
      d := forest.FindCost(m.value);
      CostsKeptTrans(f0, f1, forest.Snap());
    }

    /** `while v.find_cost() == 0: v = remove_saturated_edge(v)`; NIL has no cost and ends the loop. */
    method Trim(forest: PathForest, s: int, v0: int, ghost E0: seq<seq<Edge>>, ghost f0: Forest) returns (err: Option<Failure>)
      requires Valid() && forest.Valid() && N(forest.Snap()) == n && 0 <= s < n && (v0 == NIL || 0 <= v0 < n)
      requires PathForests.Valid(f0) && Based(f0, E0, forest.Snap(), exits) && CutBack(C, R, E0, f0, forest.next)
      modifies this, forest, forest.links
      ensures Valid() && levelOf == old(levelOf) && levels == old(levels)
      ensures forest.Valid() && N(forest.Snap()) == n
      ensures err == None ==> Since(old(R), old(exits), old(entrances))
      ensures err == None ==> Based(f0, E0, forest.Snap(), exits) && CutBack(C, R, E0, f0, forest.next)
      ensures err == None ==> forall k :: 0 <= k < n && old(forest.next[k]) != NIL && forest.next[k] == NIL ==>
        SolidCost(forest.Snap(), k) == 0
    {
      var v := v0;
      while v != NIL
        invariant Valid() && forest.Valid() && N(forest.Snap()) == n && levelOf == old(levelOf) && levels == old(levels)
        invariant v != NIL ==> 0 <= v < n
        invariant Shrunk(n, old(R), old(exits), old(entrances), R, exits, entrances)
        invariant Based(f0, E0, forest.Snap(), exits) && CutBack(C, R, E0, f0, forest.next)
        invariant forall k :: 0 <= k < n && old(forest.next[k]) != NIL && forest.next[k] == NIL ==>
          SolidCost(forest.Snap(), k) == 0
        decreases if v == NIL then 0 else TotalLength(exits) + 1
      {
        ghost var fa := forest.Snap();
        var c := forest.FindCost(v);
        if c != 0 {
          break;
        }
        BasedKept(f0, E0, fa, forest.Snap(), exits);
        ghost var R1, E1, N1 := R, exits, entrances;
        var r := TrimStep(forest, s, v, E0, f0, old(forest.next));
        if r.Fail? {
          return Some(r.failure);
        }
        ShrunkTrans(n, old(R), old(exits), old(entrances), R1, E1, N1, R, exits, entrances);
        v := r.value;
      }
      return None;
    }

    /** One pass of the trimming loop: v has cost 0, so cut it and write its edge back. */
    method TrimStep(forest: PathForest, s: int, v: int, ghost E0: seq<seq<Edge>>, ghost f0: Forest, ghost nx0: seq<int>) returns (r: Outcome<int>)
      requires Valid() && forest.Valid() && N(forest.Snap()) == n && 0 <= s < n && 0 <= v < n && |nx0| == n
      requires PathForests.Valid(f0) && Based(f0, E0, forest.Snap(), exits) && CutBack(C, R, E0, f0, forest.next)
      requires forall k :: 0 <= k < n && nx0[k] != NIL && forest.next[k] == NIL ==> SolidCost(forest.Snap(), k) == 0
      requires SolidCost(forest.Snap(), v) == 0
      modifies this, forest, forest.links
      ensures Valid() && levelOf == old(levelOf) && levels == old(levels)
      ensures forest.Valid() && N(forest.Snap()) == n
      ensures r.Ok? ==> Since(old(R), old(exits), old(entrances))
      ensures r.Ok? ==> Based(f0, E0, forest.Snap(), exits) && CutBack(C, R, E0, f0, forest.next)
      ensures r.Ok? ==> forall k :: 0 <= k < n && nx0[k] != NIL && forest.next[k] == NIL ==> SolidCost(forest.Snap(), k) == 0
      ensures r.Ok? && r.value != NIL ==> 0 <= r.value < n && TotalLength(exits) < TotalLength(old(exits))
    {
      ghost var R1, E1, nx1, fc := R, exits, forest.next, forest.Snap();
      r := RemoveSaturatedEdge(forest, s, v);
      if r.Fail? {
        return;
      }
      CutBackStep(C, R1, R, E0, f0, nx1, v);
      BasedStep(f0, E0, fc, E1, forest.Snap(), exits, v);
    }

    /**
     * The retreat step of `send_blocking_flow`: v is a dead end, so remove
     * every edge into it, last entrance first. A predecessor u whose next
     * node is v is cut from it, its cost written back as the edge's residual
     * and then taken off u's own cost.
     */
    method Retreat(forest: PathForest, v: int) returns (err: Option<Failure>)
      requires Valid() && forest.Valid() && N(forest.Snap()) == n && 0 <= v < n
      modifies this, forest, forest.links
      ensures Valid() && levelOf == old(levelOf) && levels == old(levels)
      ensures forest.Valid() && N(forest.Snap()) == n
      ensures err == None ==> entrances[v] == [] && Since(old(R), old(exits), old(entrances))
      ensures err == None ==> Retreated(old(forest.next), forest.next, old(entrances[v]), [], v)
      ensures err == None ==> forall k :: 0 <= k < n && old(forest.next[k]) == v && k in old(entrances[v]) ==>
        && WrittenBack(C, R, old(exits[k]), k, v, SolidCost(old(forest.Snap()), k))
        && SolidCost(forest.Snap(), k) == 0
      ensures forall k :: 0 <= k < n && forest.next[k] == old(forest.next[k]) ==>
        SolidCost(forest.Snap(), k) == SolidCost(old(forest.Snap()), k)
    {
      ghost var f0 := forest.Snap();
      while |entrances[v]| > 0
        invariant Valid() && forest.Valid() && N(forest.Snap()) == n && levelOf == old(levelOf) && levels == old(levels)
        invariant Shrunk(n, old(R), old(exits), old(entrances), R, exits, entrances)
        invariant Retreated(old(forest.next), forest.next, old(entrances[v]), entrances[v], v)
        invariant f0 == old(forest.Snap())
        invariant RetreatedFrom(forest.Snap(), v, old(exits), f0)
        decreases |entrances[v]|
      {
        var u := entrances[v][|entrances[v]| - 1];
        assert u in entrances[v];
        ghost var R1, E1, N1, nx1 := R, exits, entrances, forest.next;
        err := RetreatStep(forest, u, v, old(exits), f0);
        if err.Some? {
          return;
        }
        RetreatedStep(old(forest.next), nx1, forest.next, old(entrances[v]), N1[v], entrances[v], u, v);
        ShrunkTrans(n, old(R), old(exits), old(entrances), R1, E1, N1, R, exits, entrances);
      }
      return None;
    }

    /**
     * The retreat from v so far, starting from the forest f0 and exit lists
     * E0: every node cut from v has had its edge written back and has cost
     * 0, every other node kept its cost, and a node still linked to v kept
     * its exit list.
     */
    ghost predicate RetreatedFrom(f: Forest, v: int, E0: seq<seq<Edge>>, f0: Forest)
      reads this
      requires PathForests.Valid(f0) && PathForests.Valid(f)
    {
      && N(f0) == n && N(f) == n && |E0| == n && |exits| == n && v != NIL
      && CutBackTo(C, R, E0, f0, f.next, v)
      && (forall k :: 0 <= k < n && f.next[k] == v ==> exits[k] == E0[k])
      && (forall k :: 0 <= k < n ==> SolidCost(f, k) == if f.next[k] == f0.next[k] then SolidCost(f0, k) else 0)
    }

    /** RetreatEdge for u, carrying the facts of the retreat loop. */
    method RetreatStep(forest: PathForest, u: int, v: int, ghost E0: seq<seq<Edge>>, ghost f0: Forest) returns (err: Option<Failure>)
      requires Valid() && forest.Valid() && N(forest.Snap()) == n && 0 <= u < n && 0 <= v < n && u in entrances[v]
      requires PathForests.Valid(f0) && RetreatedFrom(forest.Snap(), v, E0, f0)
      requires forest.next[u] == v ==> f0.next[u] == v
      modifies this, forest, forest.links
      ensures Valid() && levelOf == old(levelOf) && levels == old(levels)
      ensures forest.Valid() && N(forest.Snap()) == n
      ensures forest.next == if old(forest.next[u]) == v then old(forest.next)[u := NIL] else old(forest.next)
      ensures forall k :: 0 <= k < n ==> SolidCost(forest.Snap(), k) == if forest.next[k] == f0.next[k] then SolidCost(f0, k) else 0
      ensures err == None ==> Since(old(R), old(exits), old(entrances))
      ensures err == None ==> entrances[v] == RemoveFirst(old(entrances[v]), u) && |entrances[v]| == |old(entrances[v])| - 1
      ensures err == None ==> RetreatedFrom(forest.Snap(), v, E0, f0)
    {
      ghost var R1, nx1 := R, forest.next;
      err := RetreatEdge(forest, u, v);
      if err.Some? {
        return;
      }
      if nx1[u] == v {
        CutBackToStep(C, R1, R, E0, f0, nx1, v, u);
      }
    }

    /**
     * One entrance u of v in the retreat loop: when v is u's next node, cut
     * u from v and write u's cost back as the edge's residual; then remove
     * the edge.
     */
    method RetreatEdge(forest: PathForest, u: int, v: int) returns (err: Option<Failure>)
      requires Valid() && forest.Valid() && N(forest.Snap()) == n && 0 <= u < n && 0 <= v < n && u in entrances[v]
      modifies this, forest, forest.links
      ensures Valid() && levelOf == old(levelOf) && levels == old(levels)
      ensures forest.Valid() && N(forest.Snap()) == n
      ensures forest.next == if old(forest.next[u]) == v then old(forest.next)[u := NIL] else old(forest.next)
      ensures forall k :: 0 <= k < n && k != u ==> exits[k] == old(exits[k])
      ensures forall k :: 0 <= k < n && (k != u || old(forest.next[u]) != v) ==>
        SolidCost(forest.Snap(), k) == SolidCost(old(forest.Snap()), k)
      ensures old(forest.next[u]) == v ==> SolidCost(forest.Snap(), u) == 0
      ensures err == None ==> Since(old(R), old(exits), old(entrances))
      ensures err == None ==> entrances[v] == RemoveFirst(old(entrances[v]), u) && |entrances[v]| == |old(entrances[v])| - 1
      ensures err == None && old(forest.next[u]) == v ==>
        && FirstEdgeTo(old(exits[u]), v).Some?
        && R == UpdatedResidual(C, old(R), u, FirstEdgeTo(old(exits[u]), v).value, SolidCost(old(forest.Snap()), u))
      ensures err == None && old(forest.next[u]) != v ==> R == old(R)
    {
      var uu := forest.next[u];
      if uu == v {
        var d := Detach(forest, u);
        err := RemoveEdge(u, v, Some(d));
      } else {
        err := RemoveEdge(u, v, None);
      }
    }

    /** `d = u.find_cost(); u.cut(); u.add_cost(-d)`: cut u from its next node, leaving it cost 0; d was its cost. */
    method Detach(forest: PathForest, u: int) returns (d: int)
      requires forest.Valid() && IsNode(forest.Snap(), u)
      modifies forest, forest.links
      ensures forest.Valid() && N(forest.Snap()) == N(old(forest.Snap())) && forest.next == old(forest.next)[u := NIL]
      ensures d == SolidCost(old(forest.Snap()), u) && SolidCost(forest.Snap(), u) == 0
      ensures forall k :: 0 <= k < N(old(forest.Snap())) && k != u ==>
        SolidCost(forest.Snap(), k) == SolidCost(old(forest.Snap()), k)
    {
      d := forest.FindCost(u);
      var _ := forest.Cut(u);
      assert forest.links.right[u] == NIL;
      forest.AddCost(u, -d);
    }

    /**
     * The final loop of `send_blocking_flow`: every node still linked to its
     * next node gives its cost back to that edge as the residual, the edge
     * leaves the level graph and the node is cut.
     */
    method Flush(forest: PathForest) returns (err: Option<Failure>)
      requires Valid() && forest.Valid() && N(forest.Snap()) == n
      modifies this, forest, forest.links
      ensures Valid() && levelOf == old(levelOf) && levels == old(levels)
      ensures forest.Valid() && N(forest.Snap()) == n
      ensures err == None ==> Since(old(R), old(exits), old(entrances))
      ensures err == None ==> forall k :: 0 <= k < n ==> forest.next[k] == NIL
      ensures err == None ==> TotalLength(exits) == TotalLength(old(exits)) - SolidEdges(old(forest.next), n)
      ensures forall k :: 0 <= k < n ==> SolidCost(forest.Snap(), k) == SolidCost(old(forest.Snap()), k)
      ensures err == None ==> CutBack(C, R, old(exits), old(forest.Snap()), forest.next)
    {
      ghost var f0 := forest.Snap();
      var u := 0;
      while u < n
        invariant 0 <= u <= n
        invariant Valid() && forest.Valid() && N(forest.Snap()) == n && levelOf == old(levelOf) && levels == old(levels)
        invariant Shrunk(n, old(R), old(exits), old(entrances), R, exits, entrances)
        invariant |forest.next| == n
        invariant f0 == old(forest.Snap())
        invariant TotalLength(exits) == TotalLength(old(exits)) - SolidEdges(f0.next, u)
        invariant FlushedBelow(forest.Snap(), u, old(exits), f0)
      {
        ghost var R1, E1, N1 := R, exits, entrances;
        err := FlushStep(forest, u, old(exits), f0);
        if err.Some? {
          return;
        }
        ShrunkTrans(n, old(R), old(exits), old(entrances), R1, E1, N1, R, exits, entrances);
        u := u + 1;
      }
      return None;
    }

    /**
     * The final loop has passed the nodes below u, starting from the forest
     * f0 and exit lists E0: those nodes are cut and their edges written
     * back, the other nodes keep their exit lists, and no cost changed.
     */
    ghost predicate FlushedBelow(f: Forest, u: int, E0: seq<seq<Edge>>, f0: Forest)
      reads this
      requires PathForests.Valid(f0) && PathForests.Valid(f)
    {
      && N(f0) == n && N(f) == n && |E0| == n && |exits| == n && 0 <= u <= n
      && Flushed(f0.next, f.next, u)
      && (forall k :: 0 <= k < n ==> SolidCost(f, k) == SolidCost(f0, k))
      && (forall k :: u <= k < n ==> exits[k] == E0[k])
      && CutBack(C, R, E0, f0, f.next)
    }

    /** FlushOne for u, carrying the facts of the final loop from u to u + 1. */
    method FlushStep(forest: PathForest, u: int, ghost E0: seq<seq<Edge>>, ghost f0: Forest) returns (err: Option<Failure>)
      requires Valid() && forest.Valid() && N(forest.Snap()) == n && 0 <= u < n
      requires PathForests.Valid(f0) && FlushedBelow(forest.Snap(), u, E0, f0)
      modifies this, forest, forest.links
      ensures Valid() && levelOf == old(levelOf) && levels == old(levels)
      ensures forest.Valid() && N(forest.Snap()) == n
      ensures forall k :: 0 <= k < n ==> SolidCost(forest.Snap(), k) == SolidCost(f0, k)
      ensures err == None ==> Since(old(R), old(exits), old(entrances))
      ensures err == None ==> TotalLength(exits) == TotalLength(old(exits)) - (if f0.next[u] != NIL then 1 else 0)
      ensures err == None ==> FlushedBelow(forest.Snap(), u + 1, E0, f0)
    {
      ghost var R1, nx1 := R, forest.next;
      err := FlushOne(forest, u);
      if err.Some? {
        return;
      }
      CutBackStep(C, R1, R, E0, f0, nx1, u);
    }

    /** One pass of the final loop of `send_blocking_flow`, for node u. */
    method FlushOne(forest: PathForest, u: int) returns (err: Option<Failure>)
      requires Valid() && forest.Valid() && N(forest.Snap()) == n && 0 <= u < n
      modifies this, forest, forest.links
      ensures Valid() && levelOf == old(levelOf) && levels == old(levels)
      ensures forest.Valid() && N(forest.Snap()) == n && |forest.next| == n
      ensures err == None ==> forest.next == old(forest.next)[u := NIL]
      ensures err == None ==> Since(old(R), old(exits), old(entrances))
      ensures err == None ==> TotalLength(exits) == TotalLength(old(exits)) - (if old(forest.next[u]) != NIL then 1 else 0)
      ensures err == None && old(forest.next[u]) == NIL ==> R == old(R) && exits == old(exits) && entrances == old(entrances)
      ensures err == None && old(forest.next[u]) != NIL ==>
        && FirstEdgeTo(old(exits[u]), old(forest.next[u])).Some?
        && R == UpdatedResidual(C, old(R), u, FirstEdgeTo(old(exits[u]), old(forest.next[u])).value, SolidCost(old(forest.Snap()), u))
      ensures forall k :: 0 <= k < n ==> SolidCost(forest.Snap(), k) == SolidCost(old(forest.Snap()), k)
      ensures forall k :: 0 <= k < n && k != u ==> exits[k] == old(exits[k])
    {
      var v := forest.next[u];
      if v != NIL {
        assert NodeOK(forest.Snap(), u);
        ghost var f0 := forest.Snap();
        var d := forest.FindCost(u);
        assert CostsKept(f0, forest.Snap());
        err := RemoveEdge(u, v, Some(d));
        if err.Some? {
          return;
        }
        ghost var f1 := forest.Snap();
        var _ := forest.Cut(u);
        assert forall k :: 0 <= k < n ==> SolidCost(forest.Snap(), k) == SolidCost(f1, k);
      }
      return None;
    }

    /**
     * `send_blocking_flow`: grow a path from s through the level graph in a
     * forest of path trees, one node per vertex. When the path reaches t, the
     * smallest residual on it is pushed and the saturated edges are trimmed;
     * a dead end is retreated from; the loop stops when s has no exit left.
     * Whatever happens, only residuals of level-graph edges change, and the
     * level graph only loses edges.
     */
    method SendBlockingFlow(s: int, t: int, fuel: nat) returns (err: Option<Failure>)
      requires Valid() && 0 <= s < n && 0 <= t < n
      modifies this
      ensures Valid() && levelOf == old(levelOf) && levels == old(levels)
      ensures err == None ==> Since(old(R), old(exits), old(entrances))
      ensures err == None ==> exits[s] == []
    {
      var forest := new PathForest();
      var k := 0;
      while k < n
        invariant 0 <= k <= n && forest.Valid() && N(forest.Snap()) == k && fresh(forest) && fresh(forest.links)
        modifies forest, forest.links
      {
        var _ := forest.AddNode();
        k := k + 1;
      }
      var steps := fuel;
      while true
        invariant Valid() && levelOf == old(levelOf) && levels == old(levels)
        invariant forest.Valid() && N(forest.Snap()) == n && fresh(forest) && fresh(forest.links)
        invariant Shrunk(n, old(R), old(exits), old(entrances), R, exits, entrances)
        decreases steps
      {
        if steps == 0 {
          return Some(OutOfFuel);
        }
        steps := steps - 1;
        ghost var R1, E1, N1 := R, exits, entrances;
        var v := forest.FindRoot(s);
        if v == t {
          ghost var low, pushed;
          err, low, pushed := Augment(forest, s);
          if err.Some? {
            return;
          }
          ShrunkTrans(n, old(R), old(exits), old(entrances), R1, E1, N1, R, exits, entrances);
        } else if |exits[v]| > 0 {
          var vw := exits[v][|exits[v]| - 1];
          forest.AddCost(v, vw.cap);
          var linked := forest.Link(v, vw.to);
          if !linked {
            return Some(SameTree);
          }
        } else if v != s {
          err := Retreat(forest, v);
          if err.Some? {
            return;
          }
          ShrunkTrans(n, old(R), old(exits), old(entrances), R1, E1, N1, R, exits, entrances);
        } else {
          break;
        }
      }
      ghost var R1, E1, N1 := R, exits, entrances;
      assert E1[s] == [];
      err := Flush(forest);
      if err == None {
        ShrunkTrans(n, old(R), old(exits), old(entrances), R1, E1, N1, R, exits, entrances);
        NoneLeft(exits[s], E1[s]);
      }
    }

    /** The reset after a blocking flow: every level and entrance list emptied, s alone on level 0. */
    method Reset(s: int)
      requires Valid() && 0 <= s < n
      modifies this
      ensures Valid() && Levelled() && R == old(R) && exits == old(exits)
      ensures entrances == seq(n, _ => [])
      ensures levelOf == FreshLevels(n, s) && levels == seq(n, _ => {})[0 := {s}]
    {
      for j := 0 to n
        invariant Valid() && R == old(R) && exits == old(exits) && entrances == old(entrances)
        invariant forall k :: 0 <= k < n ==> levels[k] == if k < j then {} else old(levels[k])
      {
        levels := levels[j := {}];
      }
      for v := 0 to n
        invariant Valid() && R == old(R) && exits == old(exits) && levels == seq(n, _ => {})
        invariant forall k :: 0 <= k < n ==> entrances[k] == if k < v then [] else old(entrances[k])
      {
        entrances := entrances[v := []];
      }
      levelOf := FreshLevels(n, s);
      levels := levels[0 := {s}];
    }

    /**
     * The main loop of `find_max_flow`: build level after level from s; when
     * t joins a level, send a blocking flow and start over. It ends when the
     * level to extend is empty or, as written, with an IndexError when the
     * levels run past n - 1. Either way no residual path then leads from s
     * to t.
     */
    method Run(s: int, t: int, fuel: nat) returns (ended: bool, err: Option<Failure>)
      requires Valid() && Levelled() && 0 <= s < n && 0 <= t < n && levelOf == FreshLevels(n, s)
      modifies this
      ensures Valid()
      ensures ended && s != t ==> forall p :: IsResidualPath(C, R, p) && p[0] == s ==> p[|p| - 1] != t
      ensures ended ==> err == None || err == Some(NoSuchLevel)
      ensures !ended ==> err.Some?
      ensures n == 1 && s == t && fuel > 0 ==> ended && err == Some(NoSuchLevel)
    {
      var i := 0;
      var steps := fuel;
      PhaseStart(C, R, s, t);
      while true
        invariant Valid() && Levelled() && 0 <= i <= n && Phase(C, R, levelOf, s, t, i)
        invariant n == 1 && s == t && fuel > 0 ==> (i == 0 && steps == fuel) || i == n
        decreases steps
      {
        if i == n {
          PhaseEnd(C, R, levelOf, levels, s, t, i);
          return true, Some(NoSuchLevel);
        }
        if levels[i] == {} {
          PhaseEnd(C, R, levelOf, levels, s, t, i);
          return true, None;
        }
        if steps == 0 {
          return false, Some(OutOfFuel);
        }
        steps := steps - 1;
        i, err := Round(i, s, t, fuel);
        if err.Some? {
          return false, err;
        }
      }
    }

    /**
     * One pass of the main loop: build level i + 1 from level i; when t has
     * joined it, send a blocking flow and reset. The next level to extend
     * is returned.
     */
    method Round(i: int, s: int, t: int, fuel: nat) returns (next: int, err: Option<Failure>)
      requires Valid() && Levelled() && 0 <= i < n && Phase(C, R, levelOf, s, t, i)
      modifies this
      ensures Valid()
      ensures err == None ==> Levelled() && 0 <= next <= n && Phase(C, R, levelOf, s, t, next)
      ensures n == 1 && s == t ==> err == None && next == n
    {
      ghost var L0, LV0 := levelOf, levels;
      if n == 1 && s == t {
        LoneVertex(C, R, L0, levels[i], i + 1);
      }
      var ok := BuildLevel(i, i + 1, levelOf);
      if !ok {
        return i, Some(LevelOverflow);
      }
      next, err := Advance(i, s, t, fuel, L0, LV0);
    }

    /** After level i + 1 is built: solve the level graph if t is on it, otherwise move up a level. */
    method Advance(i: int, s: int, t: int, fuel: nat, ghost L0: seq<Option<int>>, ghost LV0: seq<set<int>>)
      returns (next: int, err: Option<Failure>)
      requires Valid() && Levelled() && 0 <= i < n && Phase(C, R, L0, s, t, i) && LevelsAgree(L0, LV0, n)
      requires LevelOfGrown(L0, levelOf, NextLevel(C, R, L0, LV0[i], i + 1), i + 1)
      modifies this
      ensures Valid()
      ensures err == None ==> Levelled() && 0 <= next <= n && Phase(C, R, levelOf, s, t, next)
      ensures old(levelOf[t]) != Some(i + 1) ==> err == None && next == i + 1
    {
      if levelOf[t] == Some(i + 1) {
        err := Solve(s, t, fuel);
        return 0, err;
      }
      PhaseStep(C, R, L0, LV0, levelOf, s, t, i);
      return i + 1, None;
    }

    /** t has been reached: send a blocking flow through the level graph, then reset the levels. */
    method Solve(s: int, t: int, fuel: nat) returns (err: Option<Failure>)
      requires Valid() && 0 <= s < n && 0 <= t < n
      modifies this
      ensures Valid()
      ensures err == None ==> Levelled() && Phase(C, R, levelOf, s, t, 0)
      ensures err == None ==> Since(old(R), old(exits), old(entrances)) && levelOf == FreshLevels(n, s)
    {
      err := SendBlockingFlow(s, t, fuel);
      if err.Some? {
        return;
      }
      ghost var R1, E1, N1 := R, exits, entrances;
      Reset(s);
      PhaseStart(C, R, s, t);
      ShrunkTrans(n, old(R), old(exits), old(entrances), R1, E1, N1, R, exits, entrances);
    }
  }

  /**
   * `find_max_flow(s, t, C)` as written: the flow out of s once no level
   * can be extended. When s == t the levels can run past the last one and
   * the source raises IndexError, as it does for a network of one vertex.
   */
  method FindMaxFlowAsWritten(s: int, t: int, C0: seq<seq<int>>, fuel: nat) returns (r: Outcome<int>, ghost Rf: seq<seq<int>>)
    requires IsSquare(C0, |C0|) && 0 <= s < |C0| && 0 <= t < |C0|
    ensures r.Ok? ==> IsSquare(Rf, |C0|) && r.value == Outflow(C0, Rf, s)
    ensures r.Ok? && s != t ==> forall p :: IsResidualPath(C0, Rf, p) && p[0] == s ==> p[|p| - 1] != t
    ensures |C0| == 1 && s == t && fuel > 0 ==> r == Fail(NoSuchLevel)
  {
    var net := new Network(s, C0);
    var ended, err := net.Run(s, t, fuel);
    Rf := net.R;
    if err.Some? {
      return Fail(err.value), Rf;
    }
    return Ok(Outflow(net.C, net.R, s)), Rf;
  }

  /**
   * `find_max_flow` with the level loop also stopping when the levels are
   * used up, which is what the IndexError interrupts: the result is then the
   * flow out of s and no residual path leads from s to t.
   */
  method FindMaxFlow(s: int, t: int, C0: seq<seq<int>>, fuel: nat) returns (r: Outcome<int>, ghost Rf: seq<seq<int>>)
    requires IsSquare(C0, |C0|) && 0 <= s < |C0| && 0 <= t < |C0|
    ensures r.Ok? ==> IsSquare(Rf, |C0|) && r.value == Outflow(C0, Rf, s)
    ensures r.Ok? && s != t ==> forall p :: IsResidualPath(C0, Rf, p) && p[0] == s ==> p[|p| - 1] != t
    ensures |C0| == 1 && s == t && fuel > 0 ==> r.Ok?
  {
    var net := new Network(s, C0);
    var ended, err := net.Run(s, t, fuel);
    Rf := net.R;
    if !ended {
      return Fail(err.value), Rf;
    }
    return Ok(Outflow(net.C, net.R, s)), Rf;
  }
}
