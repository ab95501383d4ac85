/**
 * `normalize_flow_graph` (max_flow/normalize_flow_graph.py): turn a network
 * with several sources or several sinks into one with a single source and a
 * single sink, by adding a super-source row and a super-sink column.
 */
module Normalization {
  import opened BinaryNodes
  import opened FlowNetworks

  /** The result of `normalize_flow_graph`: the new source, the new sink and the new matrix. */
  datatype Normalized = Normalized(s: int, t: int, C: seq<seq<int>>)

  /** Python's `sum` of a list. */
  function Sum(xs: seq<int>): int
  {
    if xs == [] then 0 else Sum(xs[..|xs| - 1]) + xs[|xs| - 1]
  }

  /** Every row of M has a column j. */
  predicate HasColumn(M: seq<seq<int>>, j: int) {
    0 <= j && forall i :: 0 <= i < |M| ==> j < |M[i]|
  }

  /** `sum([row[j] for row in M])`: the sum of column j. */
  function ColSum(M: seq<seq<int>>, j: int): int
    requires HasColumn(M, j)
  {
    if M == [] then 0 else ColSum(M[..|M| - 1], j) + M[|M| - 1][j]
  }

  /** The top-left k by k corner of M. */
  function Corner(M: seq<seq<int>>, k: nat): seq<seq<int>>
    requires k <= |M| && forall i :: 0 <= i < k ==> k <= |M[i]|
  {
    seq(k, i requires 0 <= i < k => M[i][..k])
  }

  /**
   * Lines 12-15: every row gains a trailing 0 and a new last row holds, for
   * every source v, the total capacity of v's row.
   */
  function AddSource(C: seq<seq<int>>, s: seq<int>): (M: seq<seq<int>>)
    requires IsSquare(C, |C|)
    ensures IsSquare(M, |C| + 1)
  {
    var n := |C|;
    seq(n, i requires 0 <= i < n => C[i] + [0]) + [seq(n + 1, v requires 0 <= v < n + 1 => if v < n && v in s then Sum(C[v]) else 0)]
  }

  /**
   * Lines 21-24: every row u gains, as its last entry, the sum of column u
   * if u is a sink and 0 otherwise, and a new all-zero row is appended.
   */
  function AddSink(M: seq<seq<int>>, t: seq<int>): (M': seq<seq<int>>)
    requires IsSquare(M, |M|)
    ensures IsSquare(M', |M| + 1)
  {
    var n := |M|;
    seq(n, u requires 0 <= u < n => M[u] + [if u in t then ColSum(M, u) else 0]) + [seq(n + 1, _ => 0)]
  }

  /**
   * What `normalize_flow_graph(s, t, C)` returns, or None where it raises
   * IndexError: with several sources, a source numbered len(C) makes the
   * new row read past the end of C.
   */
  function Normalize(s: seq<int>, t: seq<int>, C: seq<seq<int>>): (r: Option<Normalized>)
    requires IsSquare(C, |C|)
    ensures r.None? <==> |s| != 1 && |C| in s
    ensures r.Some? ==> IsSquare(r.value.C, |C| + (if |s| == 1 then 0 else 1) + (if |t| == 1 then 0 else 1))
  {
    if |s| != 1 && |C| in s then None
    else
      var sn := if |s| == 1 then s[0] else |C|;
      var M := if |s| == 1 then C else AddSource(C, s);
      var tn := if |t| == 1 then t[0] else |M|;
      var M' := if |t| == 1 then M else AddSink(M, t);
      Some(Normalized(sn, tn, M'))
  }

  /** A column sum only reads the column: rows that agree up to column j give the same sum. */
  lemma {:induction false} ColSumPrefix(M: seq<seq<int>>, M': seq<seq<int>>, j: int)
    requires HasColumn(M, j) && HasColumn(M', j) && |M| == |M'|
    requires forall i :: 0 <= i < |M| ==> M[i][j] == M'[i][j]
    ensures ColSum(M, j) == ColSum(M', j)
    decreases |M|
  {
    if M != [] {
      var k := |M| - 1;
      ColSumPrefix(M[..k], M'[..k], j);
    }
  }

  /**
   * The copy-and-append of `normalize_flow_graph`, on a copy of C; the
   * caller's matrix is a value and cannot change.
   */
  method NormalizeFlowGraph(s: seq<int>, t: seq<int>, C: seq<seq<int>>) returns (r: Option<Normalized>)
    requires IsSquare(C, |C|)
    ensures r == Normalize(s, t, C)
  {
    var cn := C;
    var sn;
    if |s| == 1 {
      sn := s[0];
    } else {
      if |C| in s {
        return None;
      }
      sn := |cn|;
      cn := WithSuperSource(cn, s);
    }
    var tn;
    if |t| == 1 {
      tn := t[0];
    } else {
      tn := |cn|;
      cn := WithSuperSink(cn, t);
    }
    return Some(Normalized(sn, tn, cn));
  }

  /** Lines 12-15: a trailing 0 on every row, then the super-source row. */
  method WithSuperSource(C: seq<seq<int>>, s: seq<int>) returns (M: seq<seq<int>>)
    requires IsSquare(C, |C|) && |C| !in s
    ensures M == AddSource(C, s)
  {
    var n := |C|;
    M := C;
    for i := 0 to n
      invariant |M| == n
      invariant forall k :: 0 <= k < n ==> M[k] == if k < i then C[k] + [0] else C[k]
    {
      M := M[i := M[i] + [0]];
    }
    M := M + [seq(n + 1, v requires 0 <= v < n + 1 => if v < n && v in s then Sum(C[v]) else 0)];
  }

  /** Lines 21-24: the super-sink column, row by row, then the all-zero super-sink row. */
  method WithSuperSink(M0: seq<seq<int>>, t: seq<int>) returns (M: seq<seq<int>>)
    requires IsSquare(M0, |M0|)
    ensures M == AddSink(M0, t)
  {
    var n := |M0|;
    M := M0;
    for u := 0 to n
      invariant |M| == n
      invariant forall k :: 0 <= k < n ==> M[k] == if k < u then M0[k] + [if k in t then ColSum(M0, k) else 0] else M0[k]
    {
      var c := 0;
      if u in t {
        ColSumPrefix(M, M0, u);
        c := ColSum(M, u);
      }
      M := M[u := M[u] + [c]];
    }
    M := M + [seq(n + 1, _ => 0)];
  }

  /** A column of zeros sums to zero. */
  lemma {:induction false} ColSumZero(M: seq<seq<int>>, j: int)
    requires HasColumn(M, j) && forall i :: 0 <= i < |M| ==> M[i][j] == 0
    ensures ColSum(M, j) == 0
    decreases |M|
  {
    if M != [] {
      ColSumZero(M[..|M| - 1], j);
    }
  }

  /** Adding the super-source keeps C in the corner and enters nothing into the new vertex. */
  lemma AddSourceKeeps(C: seq<seq<int>>, s: seq<int>)
    requires IsSquare(C, |C|)
    ensures var M := AddSource(C, s);
      && Corner(M, |C|) == C
      && (forall v :: 0 <= v < |C| ==> M[|C|][v] == if v in s then Sum(C[v]) else 0)
      && (|C| !in s ==> forall u :: 0 <= u <= |C| ==> M[u][|C|] == 0)
  {
    var M := AddSource(C, s);
    assert Corner(M, |C|) == C by {
      forall i | 0 <= i < |C| ensures Corner(M, |C|)[i] == C[i] {
        assert M[i] == C[i] + [0];
      }
    }
  }

  /** Adding the super-sink keeps M in the corner; the new vertex has no exit. */
  lemma AddSinkKeeps(M: seq<seq<int>>, t: seq<int>)
    requires IsSquare(M, |M|)
    ensures var M' := AddSink(M, t);
      && Corner(M', |M|) == M
      && (forall v :: 0 <= v <= |M| ==> M'[|M|][v] == 0)
      && (forall u :: 0 <= u < |M| ==> M'[u][|M|] == if u in t then ColSum(M, u) else 0)
  {
    var M' := AddSink(M, t);
    assert Corner(M', |M|) == M by {
      forall i | 0 <= i < |M| ensures Corner(M', |M|)[i] == M[i] {
        assert M'[i] == M[i] + [if i in t then ColSum(M, i) else 0];
      }
    }
  }

  /**
   * Where normalisation puts things: C sits unchanged in the top-left corner
   * of the result; a single source or sink is returned as it is, an added
   * one is the next free index.
   */
  lemma NormalizeMeans(s: seq<int>, t: seq<int>, C: seq<seq<int>>)
    requires IsSquare(C, |C|) && Normalize(s, t, C).Some?
    ensures
      var r := Normalize(s, t, C).value;
      var m := |C| + (if |s| == 1 then 0 else 1);
      && Corner(r.C, |C|) == C
      && r.s == (if |s| == 1 then s[0] else |C|)
      && r.t == (if |t| == 1 then t[0] else m)
  {
    var r := Normalize(s, t, C).value;
    var M := if |s| == 1 then C else AddSource(C, s);
    assert Corner(r.C, |C|) == C by {
      if |s| != 1 {
        AddSourceKeeps(C, s);
      }
      if |t| != 1 {
        AddSinkKeeps(M, t);
        CornerOfCorner(r.C, |M|, |C|);
      } else if |s| == 1 {
        forall i | 0 <= i < |C| ensures Corner(C, |C|)[i] == C[i] {
          assert C[i][..|C|] == C[i];
        }
      }
    }
  }

  /** The k by k corner of the m by m corner of M is M's k by k corner. */
  lemma CornerOfCorner(M: seq<seq<int>>, m: nat, k: nat)
    requires k <= m <= |M| && forall i :: 0 <= i < m ==> m <= |M[i]|
    ensures Corner(Corner(M, m), k) == Corner(M, k)
  {
    forall i | 0 <= i < k ensures Corner(Corner(M, m), k)[i] == Corner(M, k)[i] {
      assert M[i][..k] == (M[i][..m])[..k];
    }
  }

  /**
   * With several sources, the super-source's row holds each source's total
   * capacity, and no edge enters the super-source.
   */
  lemma NormalizeSourceRow(s: seq<int>, t: seq<int>, C: seq<seq<int>>)
    requires IsSquare(C, |C|) && Normalize(s, t, C).Some? && |s| != 1
    ensures
      var r := Normalize(s, t, C).value;
      && (forall v :: 0 <= v < |C| ==> r.C[|C|][v] == if v in s then Sum(C[v]) else 0)
      && (forall u :: 0 <= u < |r.C| ==> r.C[u][|C|] == 0)
  {
    var r := Normalize(s, t, C).value;
    var M := AddSource(C, s);
    AddSourceKeeps(C, s);
    if |t| != 1 {
      AddSinkKeeps(M, t);
      assert forall u :: 0 <= u < |M| ==> r.C[u][..|M|] == M[u];
    }
  }

  /**
   * With several sinks, the super-sink's column holds, for each sink, the
   * total capacity into that sink, and no edge leaves the super-sink.
   */
  lemma NormalizeSinkColumn(s: seq<int>, t: seq<int>, C: seq<seq<int>>)
    requires IsSquare(C, |C|) && Normalize(s, t, C).Some? && |t| != 1
    ensures
      var r := Normalize(s, t, C).value;
      var m := |C| + (if |s| == 1 then 0 else 1);
      && (forall v :: 0 <= v <= m ==> r.C[m][v] == 0)
      && (forall u :: 0 <= u < m ==> r.C[u][m] == if u in t then ColSum(Corner(r.C, m), u) else 0)
  {
    var r := Normalize(s, t, C).value;
    var M := if |s| == 1 then C else AddSource(C, s);
    AddSinkKeeps(M, t);
    assert Corner(r.C, |M|) == M;
  }
}
