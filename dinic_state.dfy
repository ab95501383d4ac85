/**
 * The bookkeeping of `find_max_flow`'s working state, as predicates over
 * its values: which edges the exit and entrance lists may hold, how the
 * residuals and lists may change, and what the build of one level leaves
 * behind.
 */
module DinicState {
  import opened BinaryNodes
  import opened FlowNetworks

  /** One exit list per vertex, every edge leading to a vertex. */
  ghost predicate EdgesIn(exits: seq<seq<Edge>>, n: nat) {
    |exits| == n && forall u, e :: 0 <= u < n && e in exits[u] ==> 0 <= e.to < n
  }

  /** One entrance list per vertex, every entry a vertex. */
  ghost predicate VerticesIn(entrances: seq<seq<int>>, n: nat) {
    |entrances| == n && forall v, u :: 0 <= v < n && u in entrances[v] ==> 0 <= u < n
  }

  /** The state of `find_max_flow` for n vertices: n by n matrices, and one list and one level per vertex. */
  ghost predicate NetworkShaped(n: nat, C: seq<seq<int>>, R: seq<seq<int>>, exits: seq<seq<Edge>>, entrances: seq<seq<int>>,
                         levelOf: seq<Option<int>>, levels: seq<set<int>>)
  {
    && IsSquare(C, n) && IsSquare(R, n)
    && EdgesIn(exits, n) && VerticesIn(entrances, n)
    && |levelOf| == n && |levels| == n
  }

  /** R[a][b] may have been written through an edge of `exits`: a forward edge (a, b) or a reverse edge (b, a). */
  ghost predicate Touched(exits: seq<seq<Edge>>, a: int, b: int)
    requires 0 <= a < |exits| && 0 <= b < |exits|
  {
    (exists e :: e in exits[a] && e.to == b && !e.reverse) || (exists e :: e in exits[b] && e.to == a && e.reverse)
  }

  /**
   * From (R0, E0, N0) to (R, E, N): residuals were written only through
   * edges of E0, and the exit and entrance lists only lost entries.
   */
  ghost predicate Shrunk(n: nat, R0: seq<seq<int>>, E0: seq<seq<Edge>>, N0: seq<seq<int>>,
                         R: seq<seq<int>>, E: seq<seq<Edge>>, N: seq<seq<int>>)
  {
    && IsSquare(R0, n) && EdgesIn(E0, n) && VerticesIn(N0, n)
    && IsSquare(R, n) && EdgesIn(E, n) && VerticesIn(N, n)
    && (forall a, b :: 0 <= a < n && 0 <= b < n && R[a][b] != R0[a][b] ==> Touched(E0, a, b))
    && (forall u :: 0 <= u < n ==> multiset(E[u]) <= multiset(E0[u]))
    && (forall v :: 0 <= v < n ==> multiset(N[v]) <= multiset(N0[v]))
  }

  /** Two stretches of only losing entries are one. */
  lemma ShrunkTrans(n: nat, R0: seq<seq<int>>, E0: seq<seq<Edge>>, N0: seq<seq<int>>,
                    R1: seq<seq<int>>, E1: seq<seq<Edge>>, N1: seq<seq<int>>,
                    R2: seq<seq<int>>, E2: seq<seq<Edge>>, N2: seq<seq<int>>)
    requires Shrunk(n, R0, E0, N0, R1, E1, N1) && Shrunk(n, R1, E1, N1, R2, E2, N2)
    ensures Shrunk(n, R0, E0, N0, R2, E2, N2)
  {
    forall a, b | 0 <= a < n && 0 <= b < n && R2[a][b] != R0[a][b] ensures Touched(E0, a, b) {
      if R2[a][b] != R1[a][b] {
        assert Touched(E1, a, b);
        if e :| e in E1[a] && e.to == b && !e.reverse {
          assert multiset(E1[a])[e] > 0;
          assert e in E0[a];
        } else {
          var e :| e in E1[b] && e.to == a && e.reverse;
          assert multiset(E1[b])[e] > 0;
          assert e in E0[b];
        }
      }
    }
  }

  /** `levels[j]` holds exactly the vertices whose `level_of` is j, and every level is below n. */
  ghost predicate LevelsAgree(levelOf: seq<Option<int>>, levels: seq<set<int>>, n: nat) {
    && |levelOf| == n && |levels| == n
    && (forall v, j :: 0 <= v < n && 0 <= j < n ==> (v in levels[j] <==> levelOf[v] == Some(j)))
    && (forall j, v :: 0 <= j < n && v in levels[j] ==> 0 <= v < n)
    && (forall v :: 0 <= v < n && levelOf[v].Some? ==> 0 <= levelOf[v].value < n)
  }

  /** Every list of N0 grew by u exactly at the vertices of J. */
  ghost predicate EntrancesGrown(N0: seq<seq<int>>, N: seq<seq<int>>, J: set<int>, u: int) {
    |N| == |N0| && forall w :: 0 <= w < |N0| ==> N[w] == N0[w] + (if w in J then [u] else [])
  }

  /** The vertices of J took level ii; no other level changed. */
  ghost predicate LevelOfGrown(LO0: seq<Option<int>>, LO: seq<Option<int>>, J: set<int>, ii: int) {
    |LO| == |LO0| && forall w :: 0 <= w < |LO0| ==> LO[w] == (if w in J then Some(ii) else LO0[w])
  }

  /** Level ii gained the vertices of J; no other level set changed. */
  ghost predicate LevelsGrown(LV0: seq<set<int>>, LV: seq<set<int>>, J: set<int>, ii: int) {
    |LV| == |LV0| && forall j :: 0 <= j < |LV0| ==> LV[j] == LV0[j] + (if j == ii then J else {})
  }

  /** Two rounds of joining are one round with both sets. */
  lemma GrownTrans(LO0: seq<Option<int>>, LO1: seq<Option<int>>, LO2: seq<Option<int>>, J1: set<int>, J2: set<int>, ii: int)
    requires LevelOfGrown(LO0, LO1, J1, ii) && LevelOfGrown(LO1, LO2, J2, ii)
    ensures LevelOfGrown(LO0, LO2, J1 + J2, ii)
  {
  }

  /** Growing the lists by a vertex keeps every entry a vertex. */
  lemma GrownVertices(N0: seq<seq<int>>, N: seq<seq<int>>, J: set<int>, u: int, n: nat)
    requires VerticesIn(N0, n) && EntrancesGrown(N0, N, J, u) && 0 <= u < n
    ensures VerticesIn(N, n)
  {
  }

  /** One more vertex v, not yet in J, joins. */
  lemma GrownStep(N0: seq<seq<int>>, N: seq<seq<int>>, LO0: seq<Option<int>>, LO: seq<Option<int>>,
                  LV0: seq<set<int>>, LV: seq<set<int>>, J: set<int>, u: int, v: int, ii: int)
    requires EntrancesGrown(N0, N, J, u) && LevelOfGrown(LO0, LO, J, ii) && LevelsGrown(LV0, LV, J, ii)
    requires 0 <= v < |N| && v < |LO| && v !in J && 0 <= ii < |LV|
    ensures EntrancesGrown(N0, N[v := N[v] + [u]], J + {v}, u)
    ensures LevelOfGrown(LO0, LO[v := Some(ii)], J + {v}, ii)
    ensures LevelsGrown(LV0, LV[ii := LV[ii] + {v}], J + {v}, ii)
  {
  }

  /**
   * Progress of the comprehension that builds `exits[u]`: es holds the
   * edges to the vertices below v, and every vertex they lead to has joined
   * level ii, with u as a new entrance.
   */
  ghost predicate Collected(C: seq<seq<int>>, R: seq<seq<int>>, L0: seq<Option<int>>, u: int, ii: int, v: int,
                            es: seq<Edge>, N0: seq<seq<int>>, N: seq<seq<int>>,
                            LO0: seq<Option<int>>, LO: seq<Option<int>>, LV0: seq<set<int>>, LV: seq<set<int>>)
    requires InNetwork(C, R, u, u) && |L0| == |C| && 0 <= v <= |C|
  {
    && es == ExitsBelow(C, R, L0, u, ii, v)
    && EntrancesGrown(N0, N, Targets(es), u)
    && LevelOfGrown(LO0, LO, Targets(es), ii)
    && LevelsGrown(LV0, LV, Targets(es), ii)
    && (ii >= |C| ==> es == [])
  }

  /**
   * One vertex v of the comprehension: it joins exactly when it may take
   * level ii and u has capacity to it, and the progress moves past v.
   */
  lemma CollectedStep(C: seq<seq<int>>, R: seq<seq<int>>, L0: seq<Option<int>>, u: int, ii: int, v: int,
                      es: seq<Edge>, N0: seq<seq<int>>, N: seq<seq<int>>,
                      LO0: seq<Option<int>>, LO: seq<Option<int>>, LV0: seq<set<int>>, LV: seq<set<int>>)
    requires InNetwork(C, R, u, v) && |L0| == |C| && 0 <= ii && SameAnswers(LO0, L0, ii)
    requires |N| == |C| && |LO| == |C| && |LV| == |C|
    requires Collected(C, R, L0, u, ii, v, es, N0, N, LO0, LO, LV0, LV)
    ensures IsOnLevel(LO, v, ii) <==> IsOnLevel(L0, v, ii)
    ensures IsOnLevel(LO, v, ii) && HasCapacity(C, R, u, v) != 0 ==> Joins(C, R, L0, u, ii, v)
    ensures !(IsOnLevel(LO, v, ii) && HasCapacity(C, R, u, v) != 0) ==>
      Collected(C, R, L0, u, ii, v + 1, es, N0, N, LO0, LO, LV0, LV)
    ensures IsOnLevel(LO, v, ii) && HasCapacity(C, R, u, v) != 0 && ii < |C| ==>
      Collected(C, R, L0, u, ii, v + 1, es + [ExitEdge(C, R, u, v)], N0, N[v := N[v] + [u]],
                LO0, LO[v := Some(ii)], LV0, LV[ii := LV[ii] + {v}])
  {
    ExitsBelowMeans(C, R, L0, u, ii, v);
    assert v !in Targets(es);
    if IsOnLevel(LO, v, ii) && HasCapacity(C, R, u, v) != 0 && ii < |C| {
      GrownStep(N0, N, LO0, LO, LV0, LV, Targets(es), u, v, ii);
      assert Targets(es + [ExitEdge(C, R, u, v)]) == Targets(es) + {v};
    }
  }

  /**
   * Vertices that had no level or level ii already, all taking level ii,
   * keep the two level records in agreement and change no answer of
   * `is_on_level(_, ii)`.
   */
  lemma LevelsAgreeGrown(LO0: seq<Option<int>>, LV0: seq<set<int>>, LO: seq<Option<int>>, LV: seq<set<int>>,
                         J: set<int>, ii: int, n: nat)
    requires LevelsAgree(LO0, LV0, n) && LevelOfGrown(LO0, LO, J, ii) && LevelsGrown(LV0, LV, J, ii)
    requires J == {} || 0 <= ii < n
    requires forall v :: v in J ==> 0 <= v < n && IsOnLevel(LO0, v, ii)
    ensures LevelsAgree(LO, LV, n)
    ensures forall v :: 0 <= v < n ==> (IsOnLevel(LO, v, ii) <==> IsOnLevel(LO0, v, ii))
  {
  }

  /** v may join level ii from u: it has no other level and u has capacity to it. */
  ghost predicate Joins(C: seq<seq<int>>, R: seq<seq<int>>, L0: seq<Option<int>>, u: int, ii: int, v: int)
    requires InNetwork(C, R, u, v) && |L0| == |C|
  {
    IsOnLevel(L0, v, ii) && HasCapacity(C, R, u, v) != 0
  }

  /** The vertices of `level` that the loop `for u in levels[i]` has visited before u, in increasing order. */
  function Visited(level: set<int>, u: int): set<int> {
    set x | x in level && 0 <= x < u
  }

  lemma VisitedNone(level: set<int>)
    ensures Visited(level, 0) == {}
  {
  }

  lemma VisitedStep(level: set<int>, u: int)
    requires 0 <= u
    ensures u !in Visited(level, u)
    ensures Visited(level, u + 1) == Visited(level, u) + (if u in level then {u} else {})
  {
  }

  lemma VisitedAll(level: set<int>, n: int)
    requires forall x :: x in level ==> 0 <= x < n
    ensures Visited(level, n) == level
  {
  }

  /** The vertices that u lets join level ii. */
  ghost function Joiners(C: seq<seq<int>>, R: seq<seq<int>>, L0: seq<Option<int>>, u: int, ii: int): set<int>
    requires IsSquare(C, |C|) && IsSquare(R, |C|) && |L0| == |C| && 0 <= u < |C|
  {
    set v | 0 <= v < |C| && Joins(C, R, L0, u, ii, v)
  }

  /** `via` after u has let the vertices of Ju join: those new to J name u. */
  ghost function ViaExtended(via: map<int, int>, J: set<int>, Ju: set<int>, u: int): map<int, int>
    requires forall v :: v in J ==> v in via
  {
    map v | v in J + Ju :: if v in J then via[v] else u
  }

  /** Some vertex of `level` lets v join level ii. */
  ghost predicate JoinsFrom(C: seq<seq<int>>, R: seq<seq<int>>, L0: seq<Option<int>>, level: set<int>, ii: int, v: int)
    requires InNetwork(C, R, v, v) && |L0| == |C|
  {
    exists u :: u in level && 0 <= u < |C| && Joins(C, R, L0, u, ii, v)
  }

  /** The vertices that some vertex of `level` lets join level ii. */
  ghost function NextLevel(C: seq<seq<int>>, R: seq<seq<int>>, L0: seq<Option<int>>, level: set<int>, ii: int): set<int>
    requires IsSquare(C, |C|) && IsSquare(R, |C|) && |L0| == |C|
  {
    set v | 0 <= v < |C| && JoinsFrom(C, R, L0, level, ii, v)
  }

  /** Each list of N grew from N0 by the vertices of D that let its vertex join level ii. */
  ghost predicate EntrancesFrom(C: seq<seq<int>>, R: seq<seq<int>>, L0: seq<Option<int>>,
                                N0: seq<seq<int>>, N: seq<seq<int>>, D: set<int>, ii: int)
    requires IsSquare(C, |C|) && IsSquare(R, |C|) && |L0| == |C|
  {
    && |N0| == |C| && |N| == |C|
    && forall v, x :: 0 <= v < |C| ==>
      (x in N[v] <==> x in N0[v] || (x in D && 0 <= x < |C| && Joins(C, R, L0, x, ii, v)))
  }

  /** The entrance lists after one more vertex u of the level has built its exits. */
  lemma EntrancesStep(C: seq<seq<int>>, R: seq<seq<int>>, L0: seq<Option<int>>,
                      N0: seq<seq<int>>, N1: seq<seq<int>>, N2: seq<seq<int>>, D: set<int>, u: int, ii: int)
    requires IsSquare(C, |C|) && IsSquare(R, |C|) && |L0| == |C| && 0 <= u < |C|
    requires EntrancesFrom(C, R, L0, N0, N1, D, ii)
    requires EntrancesGrown(N1, N2, Joiners(C, R, L0, u, ii), u)
    ensures EntrancesFrom(C, R, L0, N0, N2, D + {u}, ii)
  {
  }

  /**
   * J holds exactly the vertices that some vertex of D lets join level ii;
   * `via` names one such vertex for each.
   */
  ghost predicate JoinedFrom(C: seq<seq<int>>, R: seq<seq<int>>, L0: seq<Option<int>>,
                             D: set<int>, J: set<int>, via: map<int, int>, ii: int)
    requires IsSquare(C, |C|) && IsSquare(R, |C|) && |L0| == |C|
  {
    && (forall v :: v in J ==> 0 <= v < |C| && v in via && via[v] in D && 0 <= via[v] < |C| && Joins(C, R, L0, via[v], ii, v))
    && (forall u, v :: u in D && 0 <= u < |C| && 0 <= v < |C| && Joins(C, R, L0, u, ii, v) ==> v in J)
  }

  /** The joined vertices after one more vertex u of the level has built its exits. */
  lemma JoinedStep(C: seq<seq<int>>, R: seq<seq<int>>, L0: seq<Option<int>>,
                   D: set<int>, J: set<int>, via: map<int, int>, u: int, ii: int)
    requires IsSquare(C, |C|) && IsSquare(R, |C|) && |L0| == |C| && 0 <= u < |C|
    requires JoinedFrom(C, R, L0, D, J, via, ii)
    ensures var Ju := Joiners(C, R, L0, u, ii);
      JoinedFrom(C, R, L0, D + {u}, J + Ju, ViaExtended(via, J, Ju, u), ii)
  {
  }

  /** At the end J is the whole next level. */
  lemma JoinedAll(C: seq<seq<int>>, R: seq<seq<int>>, L0: seq<Option<int>>,
                  D: set<int>, J: set<int>, via: map<int, int>, ii: int)
    requires IsSquare(C, |C|) && IsSquare(R, |C|) && |L0| == |C|
    requires JoinedFrom(C, R, L0, D, J, via, ii)
    ensures J == NextLevel(C, R, L0, D, ii)
  {
  }

  /** `is_on_level(v, ii)` answers in LO as it does in L0. */
  ghost predicate SameAnswers(LO: seq<Option<int>>, L0: seq<Option<int>>, ii: int)
  {
    |LO| == |L0| && forall v :: 0 <= v < |L0| ==> (IsOnLevel(LO, v, ii) <==> IsOnLevel(L0, v, ii))
  }

  /**
   * The state (E, N, LO, LV) part-way through the build of level ii from
   * (E0, N0, L0): the vertices of D have built their exits, which made the
   * vertices of J join level ii.
   */
  ghost predicate BuiltVals(C: seq<seq<int>>, R: seq<seq<int>>, L0: seq<Option<int>>, ii: int, D: set<int>,
                            E0: seq<seq<Edge>>, N0: seq<seq<int>>, J: set<int>, via: map<int, int>,
                            E: seq<seq<Edge>>, N: seq<seq<int>>, LO: seq<Option<int>>, LV: seq<set<int>>)
    requires IsSquare(C, |C|) && IsSquare(R, |C|) && |L0| == |C|
  {
    && LevelsAgree(LO, LV, |C|) && SameAnswers(LO, L0, ii) && 0 < ii && |E0| == |C| && |E| == |C|
    && (forall u :: 0 <= u < |C| ==> E[u] == if u in D then Exits(C, R, L0, u, ii) else E0[u])
    && LevelOfGrown(L0, LO, J, ii)
    && JoinedFrom(C, R, L0, D, J, via, ii)
    && EntrancesFrom(C, R, L0, N0, N, D, ii)
    && (ii >= |C| ==> forall u, v :: u in D && 0 <= u < |C| && 0 <= v < |C| ==> !Joins(C, R, L0, u, ii, v))
  }

  /** One more vertex u of the level built its exits. */
  lemma BuiltStep(C: seq<seq<int>>, R: seq<seq<int>>, L0: seq<Option<int>>, ii: int, D: set<int>,
                  E0: seq<seq<Edge>>, N0: seq<seq<int>>, J: set<int>, via: map<int, int>,
                  E1: seq<seq<Edge>>, N1: seq<seq<int>>, LO1: seq<Option<int>>, LV1: seq<set<int>>,
                  E2: seq<seq<Edge>>, N2: seq<seq<int>>, LO2: seq<Option<int>>, LV2: seq<set<int>>, u: int)
    requires IsSquare(C, |C|) && IsSquare(R, |C|) && |L0| == |C| && 0 <= u < |C| && u !in D
    requires BuiltVals(C, R, L0, ii, D, E0, N0, J, via, E1, N1, LO1, LV1)
    requires LevelsAgree(LO2, LV2, |C|) && SameAnswers(LO2, L0, ii) && E2 == E1[u := Exits(C, R, L0, u, ii)]
    requires EntrancesGrown(N1, N2, Joiners(C, R, L0, u, ii), u)
    requires LevelOfGrown(LO1, LO2, Joiners(C, R, L0, u, ii), ii)
    requires ii >= |C| ==> forall v :: 0 <= v < |C| ==> !Joins(C, R, L0, u, ii, v)
    ensures var Ju := Joiners(C, R, L0, u, ii);
      BuiltVals(C, R, L0, ii, D + {u}, E0, N0, J + Ju, ViaExtended(via, J, Ju, u),
                E2, N2, LO2, LV2)
  {
    var Ju := Joiners(C, R, L0, u, ii);
    GrownTrans(L0, LO1, LO2, J, Ju, ii);
    EntrancesStep(C, R, L0, N0, N1, N2, D, u, ii);
    JoinedStep(C, R, L0, D, J, via, u, ii);
  }


  /**
   * Progress of the retreat from v: next nodes only ever become NIL, only
   * for entrances of v whose next node was v, and every such entrance that
   * has left the list has been cut.
   */
  predicate Retreated(nx0: seq<int>, nx: seq<int>, ents0: seq<int>, ents: seq<int>, v: int) {
    && |nx| == |nx0|
    && (forall k :: 0 <= k < |nx| ==> nx[k] == nx0[k] || (nx[k] == NIL && nx0[k] == v && k in ents0))
    && (forall k :: 0 <= k < |nx| && nx0[k] == v && k in ents0 && k !in ents ==> nx[k] == NIL)
  }

  lemma RetreatedStep(nx0: seq<int>, nx1: seq<int>, nx2: seq<int>, ents0: seq<int>, ents1: seq<int>, ents2: seq<int>, u: int, v: int)
    requires Retreated(nx0, nx1, ents0, ents1, v) && 0 <= u < |nx1| && u in ents1
    requires multiset(ents1) <= multiset(ents0)
    requires nx2 == if nx1[u] == v then nx1[u := NIL] else nx1
    requires ents2 == RemoveFirst(ents1, u)
    ensures Retreated(nx0, nx2, ents0, ents2, v)
  {
    assert u in ents0 by { assert multiset(ents1)[u] > 0; }
    forall k | k != u && k in ents1 ensures k in ents2 {
      assert multiset(ents2)[k] == multiset(ents1)[k];
    }
  }

  /** The number of nodes below u that are linked to a next node. */
  function SolidEdges(nx: seq<int>, u: int): (r: nat)
    requires 0 <= u <= |nx|
    ensures r <= u
    ensures r == 0 <==> forall k :: 0 <= k < u ==> nx[k] == NIL
  {
    if u == 0 then 0 else SolidEdges(nx, u - 1) + (if nx[u - 1] != NIL then 1 else 0)
  }

  /** Progress of the final loop: the nodes below u have been cut, the rest are as they were. */
  predicate Flushed(nx0: seq<int>, nx: seq<int>, u: int) {
    |nx| == |nx0| && forall k :: 0 <= k < |nx| ==> nx[k] == if k < u then NIL else nx0[k]
  }

  /**
   * The state between two level builds of `find_max_flow`: s is on level 0,
   * no vertex is above level i, every residual edge out of a level below i
   * ends at a levelled vertex, and t is unlevelled unless it is s.
   */
  ghost predicate Phase(C: seq<seq<int>>, R: seq<seq<int>>, lo: seq<Option<int>>, s: int, t: int, i: int) {
    && |lo| == |C| && IsSquare(C, |C|) && IsSquare(R, |C|) && 0 <= s < |C| && 0 <= t < |C|
    && lo[s] == Some(0)
    && (forall v :: 0 <= v < |lo| && lo[v].Some? ==> lo[v].value <= i)
    && (forall u, v :: 0 <= u < |lo| && 0 <= v < |lo| && lo[u].Some? && lo[u].value < i && HasCapacity(C, R, u, v) != 0 ==>
          lo[v].Some?)
    && (s != t ==> lo[t] == None)
  }

  /** The level assignment right after a reset: s alone, on level 0. */
  function FreshLevels(n: nat, s: int): (lo: seq<Option<int>>)
    ensures |lo| == n && forall v :: 0 <= v < n ==> (lo[v].Some? <==> v == s)
    ensures 0 <= s < n ==> lo[s] == Some(0)
  {
    seq(n, v => if v == s then Some(0) else None)
  }

  lemma PhaseStart(C: seq<seq<int>>, R: seq<seq<int>>, s: int, t: int)
    requires IsSquare(C, |C|) && IsSquare(R, |C|) && 0 <= s < |C| && 0 <= t < |C|
    ensures Phase(C, R, FreshLevels(|C|, s), s, t, 0)
  {
  }

  /**
   * Building level ii = i + 1 keeps the phase invariant when t did not join:
   * every residual edge out of level i ends at a vertex that was levelled
   * already or has just joined level ii.
   */
  lemma PhaseStep(C: seq<seq<int>>, R: seq<seq<int>>, L0: seq<Option<int>>, LV: seq<set<int>>, lo: seq<Option<int>>, s: int, t: int, i: int)
    requires Phase(C, R, L0, s, t, i) && LevelsAgree(L0, LV, |C|) && 0 <= i < |C|
    requires LevelOfGrown(L0, lo, NextLevel(C, R, L0, LV[i], i + 1), i + 1) && lo[t] != Some(i + 1)
    ensures Phase(C, R, lo, s, t, i + 1)
  {
    var n := |C|;
    var J := NextLevel(C, R, L0, LV[i], i + 1);
    forall u, v | 0 <= u < n && 0 <= v < n && lo[u].Some? && lo[u].value < i + 1 && HasCapacity(C, R, u, v) != 0
      ensures lo[v].Some?
    {
      if L0[v].None? {
        assert u in LV[i];
        assert Joins(C, R, L0, u, i + 1, v);
        assert JoinsFrom(C, R, L0, LV[i], i + 1, v);
        assert v in J;
      }
    }
  }

  /**
   * When the level to extend is empty (or past the last one), the levelled
   * vertices are closed under residual edges, so no residual path leads
   * from s to an unlevelled t.
   */
  lemma PhaseEnd(C: seq<seq<int>>, R: seq<seq<int>>, lo: seq<Option<int>>, LV: seq<set<int>>, s: int, t: int, i: int)
    requires Phase(C, R, lo, s, t, i) && LevelsAgree(lo, LV, |C|) && 0 <= i <= |C|
    requires i < |C| ==> LV[i] == {}
    ensures s != t ==> forall p :: IsResidualPath(C, R, p) && p[0] == s ==> p[|p| - 1] != t
  {
    var n := |C|;
    forall v | 0 <= v < n && lo[v].Some? ensures lo[v].value < i {
    }
    assert ClosedLevels(C, R, lo);
    if s != t {
      forall p | IsResidualPath(C, R, p) && p[0] == s ensures p[|p| - 1] != t {
        ClosedKeepsPaths(C, R, lo, p);
      }
    }
  }

  /** In a network of one vertex, already on level 0, no vertex can join a higher level. */
  lemma LoneVertex(C: seq<seq<int>>, R: seq<seq<int>>, L0: seq<Option<int>>, level: set<int>, ii: int)
    requires IsSquare(C, 1) && IsSquare(R, 1) && |L0| == 1 && L0[0] == Some(0) && ii > 0
    ensures NextLevel(C, R, L0, level, ii) == {}
    ensures forall u, v :: u in level && 0 <= u < 1 && 0 <= v < 1 ==> !Joins(C, R, L0, u, ii, v)
  {
    assert !IsOnLevel(L0, 0, ii);
  }
}
