/**
 * The shape of an ordered-key splay tree (util/data_structures/SplayTree.py)
 * as a value: a binary tree whose nodes are arena indices, and a zipper
 * context (the path from a position back up to the root) used to describe
 * searches, rotations and replacements of a subtree.
 */
module SplayShapes {
  import opened BinaryNodes

  datatype Tree = Nil | Node(left: Tree, id: int, right: Tree)

  /**
   * One step of a path: the node `id` holds the position on `side`, and
   * `other` is its subtree on the opposite side.
   */
  datatype Frame = Frame(side: bool, id: int, other: Tree)

  /** The node at the top of t, or NIL. */
  function Top(t: Tree): int {
    if t.Nil? then NIL else t.id
  }

  function Ids(t: Tree): set<int> {
    match t
    case Nil => {}
    case Node(a, x, b) => Ids(a) + {x} + Ids(b)
  }

  /** No node occurs twice. */
  predicate Distinct(t: Tree) {
    match t
    case Nil => true
    case Node(a, x, b) => Distinct(a) && Distinct(b) && x !in Ids(a) && x !in Ids(b) && Ids(a) !! Ids(b)
  }

  /** Put t back into the slot the frame describes. */
  function Attach(F: Frame, t: Tree): Tree {
    if F.side == RIGHT then Node(F.other, F.id, t) else Node(t, F.id, F.other)
  }

  /** The whole tree, with t at the position ctx (innermost frame first) describes. */
  function Plug(ctx: seq<Frame>, t: Tree): Tree
    decreases |ctx|
  {
    if ctx == [] then t else Plug(ctx[1..], Attach(ctx[0], t))
  }

  /** The parent of the position ctx describes, or NIL at the top. */
  function Up(ctx: seq<Frame>): int {
    if ctx == [] then NIL else ctx[0].id
  }

  /** Node k's key; nodes outside the key table read as 0 (the invariants exclude them). */
  function Key(keys: seq<int>, k: int): int {
    if 0 <= k < |keys| then keys[k] else 0
  }

  /** The keys of t in order. */
  function Values(keys: seq<int>, t: Tree): seq<int> {
    match t
    case Nil => []
    case Node(a, x, b) => Values(keys, a) + [Key(keys, x)] + Values(keys, b)
  }

  /** The keys that come before the position ctx describes. */
  function Before(keys: seq<int>, ctx: seq<Frame>): seq<int>
    decreases |ctx|
  {
    if ctx == [] then []
    else Before(keys, ctx[1..]) + (if ctx[0].side == RIGHT then Values(keys, ctx[0].other) + [Key(keys, ctx[0].id)] else [])
  }

  /** The keys that come after the position ctx describes. */
  function After(keys: seq<int>, ctx: seq<Frame>): seq<int>
    decreases |ctx|
  {
    if ctx == [] then []
    else (if ctx[0].side == LEFT then [Key(keys, ctx[0].id)] + Values(keys, ctx[0].other) else []) + After(keys, ctx[1..])
  }

  predicate Increasing(s: seq<int>) {
    forall i, j :: 0 <= i < j < |s| ==> s[i] < s[j]
  }

  /** The groupings of five parts, with and without a middle element, that removal goes through. */
  lemma Regroup(B: seq<int>, L: seq<int>, k: int, R: seq<int>, A: seq<int>)
    ensures B + (L + [k] + R) + A == (B + L) + [k] + (R + A)
    ensures B + (L + R) + A == (B + L) + (R + A) == B + ((L + R) + A)
  {
  }

  /**
   * One rotation, `rotate` on the tree: t, the child of F.id on F.side, takes
   * F.id's place; F.id becomes t's child on the opposite side and takes over
   * t's former child on that side.
   */
  function RotateUp(F: Frame, t: Tree): (r: Tree)
    requires t.Node?
    ensures r.Node? && r.id == t.id
  {
    if F.side == RIGHT then Node(Node(F.other, F.id, t.left), t.id, t.right)
    else Node(t.left, t.id, Node(t.right, F.id, F.other))
  }

  /** The keys of a plugged tree: those before the position, t's, those after. */
  lemma {:induction false} PlugValues(keys: seq<int>, ctx: seq<Frame>, t: Tree)
    ensures Values(keys, Plug(ctx, t)) == Before(keys, ctx) + Values(keys, t) + After(keys, ctx)
    decreases |ctx|
  {
    if ctx != [] {
      var F, rest := ctx[0], ctx[1..];
      PlugValues(keys, rest, Attach(F, t));
      var A, V, Z := Before(keys, rest), Values(keys, t), After(keys, rest);
      if F.side == RIGHT {
        var M := Values(keys, F.other) + [Key(keys, F.id)];
        assert Values(keys, Attach(F, t)) == M + V;
        Reassociate(A, M, V, Z);
      } else {
        var M := [Key(keys, F.id)] + Values(keys, F.other);
        assert Values(keys, Attach(F, t)) == V + M;
        Reassociate(A, M, V, Z);
        assert A + [] == A;
      }
    }
  }

  /** The two regroupings of four parts that plugging a tree one frame higher goes through. */
  lemma Reassociate(A: seq<int>, M: seq<int>, V: seq<int>, Z: seq<int>)
    ensures A + (M + V) + Z == (A + M) + V + Z
    ensures A + (V + M) + Z == A + V + (M + Z)
  {
  }

  /**
   * The nodes of a plugged tree are those of the path and t's; it has no
   * repeated node exactly when the path has none, t has none and they share none.
   */
  lemma {:induction false} PlugIds(ctx: seq<Frame>, t: Tree)
    ensures Ids(Plug(ctx, t)) == Ids(Plug(ctx, Nil)) + Ids(t)
    ensures Distinct(Plug(ctx, t)) <==> Distinct(Plug(ctx, Nil)) && Distinct(t) && Ids(Plug(ctx, Nil)) !! Ids(t)
    decreases |ctx|
  {
    if ctx != [] {
      var F, rest := ctx[0], ctx[1..];
      PlugIds(rest, Attach(F, t));
      PlugIds(rest, Attach(F, Nil));
    }
  }

  /** A rotation keeps the keys in order, the nodes, and their distinctness. */
  lemma RotateUpKeeps(keys: seq<int>, F: Frame, t: Tree)
    requires t.Node?
    ensures Values(keys, RotateUp(F, t)) == Values(keys, Attach(F, t))
    ensures Ids(RotateUp(F, t)) == Ids(Attach(F, t))
    ensures Distinct(Attach(F, t)) ==> Distinct(RotateUp(F, t))
  {
    var a, x, b := t.left, t.id, t.right;
    assert t == Node(a, x, b);
    if Distinct(Attach(F, t)) {
      assert Distinct(t) && F.id !in Ids(t) && Ids(t) !! Ids(F.other);
      if F.side == RIGHT {
        assert Ids(t) == Ids(a) + {x} + Ids(b);
        assert Distinct(Node(F.other, F.id, a));
      } else {
        assert Ids(t) == Ids(a) + {x} + Ids(b);
        assert Distinct(Node(b, F.id, F.other));
      }
    }
  }

  /** Rotating at the position keeps the keys of the whole tree in order. */
  lemma RotatePlugKeeps(keys: seq<int>, ctx: seq<Frame>, t: Tree)
    requires ctx != [] && t.Node?
    ensures Values(keys, Plug(ctx[1..], RotateUp(ctx[0], t))) == Values(keys, Plug(ctx, t))
    ensures Ids(Plug(ctx[1..], RotateUp(ctx[0], t))) == Ids(Plug(ctx, t))
    ensures Distinct(Plug(ctx, t)) ==> Distinct(Plug(ctx[1..], RotateUp(ctx[0], t)))
  {
    var F, rest := ctx[0], ctx[1..];
    RotateUpKeeps(keys, F, t);
    PlugValues(keys, rest, RotateUp(F, t));
    PlugValues(keys, rest, Attach(F, t));
    PlugIds(rest, RotateUp(F, t));
    PlugIds(rest, Attach(F, t));
  }
  /** The nodes of the path ctx: those of the outer path, the position's parent and its other subtree. */
  lemma CtxIdsSplit(ctx: seq<Frame>)
    requires ctx != []
    ensures Ids(Plug(ctx, Nil)) == Ids(Plug(ctx[1..], Nil)) + {ctx[0].id} + Ids(ctx[0].other)
    ensures Distinct(Plug(ctx, Nil)) <==>
      && Distinct(Plug(ctx[1..], Nil)) && Distinct(ctx[0].other) && ctx[0].id !in Ids(ctx[0].other)
      && Ids(Plug(ctx[1..], Nil)) !! ({ctx[0].id} + Ids(ctx[0].other))
  {
    PlugIds(ctx[1..], Attach(ctx[0], Nil));
  }

  /** A key table that only grows leaves the keys of a tree whose nodes it covers alone. */
  lemma {:induction false} ValuesExtend(keys: seq<int>, keys': seq<int>, t: Tree)
    requires |keys| <= |keys'| && keys'[..|keys|] == keys
    requires forall y :: y in Ids(t) ==> 0 <= y < |keys|
    ensures Values(keys', t) == Values(keys, t)
  {
    if t.Node? {
      var a, x, b := t.left, t.id, t.right;
      assert t == Node(a, x, b) && x in Ids(t) && Ids(a) <= Ids(t) && Ids(b) <= Ids(t);
      assert keys'[x] == keys[x];
      ValuesExtend(keys, keys', a);
      ValuesExtend(keys, keys', b);
    }
  }

  /** The same, for the keys before and after a position. */
  lemma {:induction false} BeforeAfterExtend(keys: seq<int>, keys': seq<int>, ctx: seq<Frame>)
    requires |keys| <= |keys'| && keys'[..|keys|] == keys
    requires forall y :: y in Ids(Plug(ctx, Nil)) ==> 0 <= y < |keys|
    ensures Before(keys', ctx) == Before(keys, ctx) && After(keys', ctx) == After(keys, ctx)
    decreases |ctx|
  {
    if ctx != [] {
      CtxIdsSplit(ctx);
      assert keys'[ctx[0].id] == keys[ctx[0].id];
      ValuesExtend(keys, keys', ctx[0].other);
      BeforeAfterExtend(keys, keys', ctx[1..]);
    }
  }

  /** In an increasing sequence, what precedes an element is smaller and what follows it larger. */
  lemma IncreasingAround(L: seq<int>, k: int, R: seq<int>)
    requires Increasing(L + [k] + R)
    ensures Increasing(L) && Increasing(R)
    ensures forall v :: v in L ==> v < k
    ensures forall v :: v in R ==> k < v
  {
    var s := L + [k] + R;
    forall i, j | 0 <= i < j < |L| ensures L[i] < L[j] {
      assert L[i] == s[i] && L[j] == s[j];
    }
    forall i, j | 0 <= i < j < |R| ensures R[i] < R[j] {
      assert R[i] == s[|L| + 1 + i] && R[j] == s[|L| + 1 + j];
    }
    forall v | v in L ensures v < k {
      var i :| 0 <= i < |L| && L[i] == v;
      assert s[i] == v && s[|L|] == k;
    }
    forall v | v in R ensures k < v {
      var i :| 0 <= i < |R| && R[i] == v;
      assert s[|L| + 1 + i] == v && s[|L|] == k;
    }
  }

  /** Both halves of an increasing sequence increase, and the first lies below the second. */
  lemma IncreasingHalves(L: seq<int>, R: seq<int>)
    requires Increasing(L + R)
    ensures Increasing(L) && Increasing(R)
    ensures forall u, v :: u in L && v in R ==> u < v
  {
    var s := L + R;
    forall i, j | 0 <= i < j < |L| ensures L[i] < L[j] {
      assert L[i] == s[i] && L[j] == s[j];
    }
    forall i, j | 0 <= i < j < |R| ensures R[i] < R[j] {
      assert R[i] == s[|L| + i] && R[j] == s[|L| + j];
    }
    forall u, v | u in L && v in R ensures u < v {
      var i :| 0 <= i < |L| && L[i] == u;
      var j :| 0 <= j < |R| && R[j] == v;
      assert s[i] == u && s[|L| + j] == v;
    }
  }

  /** Two increasing sequences, the first wholly below the second, make an increasing sequence. */
  lemma IncreasingConcat(L: seq<int>, R: seq<int>)
    requires Increasing(L) && Increasing(R)
    requires forall u, v :: u in L && v in R ==> u < v
    ensures Increasing(L + R)
  {
    var s := L + R;
    forall i, j | 0 <= i < j < |s| ensures s[i] < s[j] {
      if j < |L| {
        assert s[i] == L[i] && s[j] == L[j];
      } else if i >= |L| {
        assert s[i] == R[i - |L|] && s[j] == R[j - |L|];
      } else {
        assert s[i] in L && s[j] in R;
      }
    }
  }

  /** An element strictly between two increasing parts goes in between them. */
  lemma IncreasingInsert(L: seq<int>, k: int, R: seq<int>)
    requires Increasing(L + R)
    requires forall v :: v in L ==> v < k
    requires forall v :: v in R ==> k < v
    ensures Increasing(L + [k] + R)
  {
    IncreasingHalves(L, R);
    IncreasingConcat(L, [k]);
    IncreasingConcat(L + [k], R);
  }

  /** Dropping an element of an increasing sequence leaves it increasing and without that element. */
  lemma IncreasingDrop(L: seq<int>, k: int, R: seq<int>)
    requires Increasing(L + [k] + R)
    ensures Increasing(L + R) && k !in L + R
  {
    IncreasingAround(L, k, R);
    IncreasingConcat(L, R);
  }

  /** The last element of an increasing sequence is its largest, the first its smallest. */
  lemma IncreasingEnds(s: seq<int>, v: int)
    requires Increasing(s) && v in s
    ensures s[0] <= v <= s[|s| - 1]
  {
  }

  /** The first element of a non-empty sequence is one of its members. */
  lemma HeadIn(s: seq<int>)
    ensures s != [] ==> s[0] in s
  {
  }

  /** An increasing sequence is determined by its elements. */
  lemma {:induction false} IncreasingUnique(s1: seq<int>, s2: seq<int>)
    requires Increasing(s1) && Increasing(s2)
    requires forall v :: v in s1 <==> v in s2
    ensures s1 == s2
    decreases |s1|
  {
    if s1 == [] {
      HeadIn(s2);
    } else {
      assert s1[0] in s2 && s2 != [];
      IncreasingEnds(s1, s2[0]);
      IncreasingEnds(s2, s1[0]);
      IncreasingAround([], s1[0], s1[1..]);
      IncreasingAround([], s2[0], s2[1..]);
      assert s1 == [s1[0]] + s1[1..] && s2 == [s2[0]] + s2[1..];
      forall v ensures v in s1[1..] <==> v in s2[1..] {
        assert v in s1 <==> v in s2;
      }
      IncreasingUnique(s1[1..], s2[1..]);
    }
  }

  /** In an increasing sequence, an element is the last one exactly when nothing follows it. */
  lemma IncreasingLast(L: seq<int>, k: int, R: seq<int>)
    requires Increasing(L + [k] + R)
    ensures (L + [k] + R)[|L| + |R|] == k <==> R == []
  {
    var s := L + [k] + R;
    if R != [] {
      assert s[|L|] == k && s[|L| + |R|] == R[|R| - 1];
    }
  }

  /** Nothing comes after the position at the end of a path that only goes right. */
  lemma {:induction false} AfterAllRight(keys: seq<int>, ctx: seq<Frame>)
    requires forall i :: 0 <= i < |ctx| ==> ctx[i].side == RIGHT
    ensures After(keys, ctx) == []
    decreases |ctx|
  {
    if ctx != [] {
      assert ctx[0].side == RIGHT;
      AfterAllRight(keys, ctx[1..]);
    }
  }

  /**
   * v is a neighbour of item in s: a key of s other than item with no key of
   * s strictly between the two.
   */
  predicate Neighbour(s: seq<int>, item: int, v: int) {
    && v in s && v != item
    && forall w :: w in s ==> !(v < w < item) && !(item < w < v)
  }

  /**
   * Where a search for a missing item ends, the key of the position's parent
   * is a neighbour of item: the last key before the position or the first
   * after it.
   */
  lemma SearchNeighbour(keys: seq<int>, ctx: seq<Frame>, item: int)
    requires ctx != []
    requires Increasing(Before(keys, ctx) + After(keys, ctx))
    requires forall v :: v in Before(keys, ctx) ==> v < item
    requires forall v :: v in After(keys, ctx) ==> item < v
    ensures Neighbour(Before(keys, ctx) + After(keys, ctx), item, Key(keys, ctx[0].id))
  {
    var F, B, A := ctx[0], Before(keys, ctx), After(keys, ctx);
    var k := Key(keys, F.id);
    IncreasingHalves(B, A);
    if F.side == RIGHT {
      assert B == Before(keys, ctx[1..]) + (Values(keys, F.other) + [k]);
      NeighbourBelow(B, A, item);
    } else {
      assert A == ([k] + Values(keys, F.other)) + After(keys, ctx[1..]);
      NeighbourAbove(B, A, item);
    }
  }

  /** The largest key below item is a neighbour of item. */
  lemma NeighbourBelow(B: seq<int>, A: seq<int>, item: int)
    requires B != [] && Increasing(B)
    requires forall v :: v in B ==> v < item
    requires forall v :: v in A ==> item < v
    ensures Neighbour(B + A, item, B[|B| - 1])
  {
    var k := B[|B| - 1];
    assert k in B;
    forall w | w in B + A ensures !(k < w < item) && !(item < w < k) {
      if w in B {
        IncreasingEnds(B, w);
      }
    }
  }

  /** The smallest key above item is a neighbour of item. */
  lemma NeighbourAbove(B: seq<int>, A: seq<int>, item: int)
    requires A != [] && Increasing(A)
    requires forall v :: v in B ==> v < item
    requires forall v :: v in A ==> item < v
    ensures Neighbour(B + A, item, A[0])
  {
    var k := A[0];
    assert k in A;
    forall w | w in B + A ensures !(k < w < item) && !(item < w < k) {
      if w in A {
        IncreasingEnds(A, w);
      }
    }
  }



  /** The position one step further down a search for item, on the side the keys direct. */
  function Descend(keys: seq<int>, ctx: seq<Frame>, t: Tree, item: int): (seq<Frame>, Tree)
    requires t.Node?
  {
    var side := item > Key(keys, t.id);
    ([Frame(side, t.id, if side then t.left else t.right)] + ctx, if side then t.right else t.left)
  }

  /**
   * A search step keeps the tree and keeps item between the keys before the
   * position and those after it.
   */
  lemma SearchStep(keys: seq<int>, ctx: seq<Frame>, t: Tree, item: int)
    requires t.Node? && Key(keys, t.id) != item
    requires Increasing(Values(keys, Plug(ctx, t)))
    requires forall v :: v in Before(keys, ctx) ==> v < item
    requires forall v :: v in After(keys, ctx) ==> item < v
    ensures Plug(Descend(keys, ctx, t, item).0, Descend(keys, ctx, t, item).1) == Plug(ctx, t)
    ensures forall v :: v in Before(keys, Descend(keys, ctx, t, item).0) ==> v < item
    ensures forall v :: v in After(keys, Descend(keys, ctx, t, item).0) ==> item < v
  {
    var (ctx', t') := Descend(keys, ctx, t, item);
    var B, A, k := Before(keys, ctx), After(keys, ctx), Key(keys, t.id);
    PlugValues(keys, ctx, t);
    assert Values(keys, t) == Values(keys, t.left) + [k] + Values(keys, t.right);
    Regroup(B, Values(keys, t.left), k, Values(keys, t.right), A);
    IncreasingAround(B + Values(keys, t.left), k, Values(keys, t.right) + A);
    assert ctx'[1..] == ctx;
    if item > k {
      assert Before(keys, ctx') == B + (Values(keys, t.left) + [k]);
      forall v | v in Values(keys, t.left) ensures v < k {
        assert v in B + Values(keys, t.left);
      }
      assert After(keys, ctx') == A;
    } else {
      assert Before(keys, ctx') == B;
      assert After(keys, ctx') == ([k] + Values(keys, t.right)) + A;
      forall v | v in Values(keys, t.right) ensures k < v {
        assert v in Values(keys, t.right) + A;
      }
    }
  }

  /**
   * A new key, strictly between the keys before an empty position and those
   * after it, keeps the keys in order when its node fills the position.
   */
  lemma LeafValues(keys: seq<int>, ctx: seq<Frame>, item: int)
    requires forall y :: y in Ids(Plug(ctx, Nil)) ==> 0 <= y < |keys|
    requires Increasing(Values(keys, Plug(ctx, Nil)))
    requires forall v :: v in Before(keys, ctx) ==> v < item
    requires forall v :: v in After(keys, ctx) ==> item < v
    ensures
      var s := Values(keys + [item], Plug(ctx, Node(Nil, |keys|, Nil)));
      Increasing(s) && Inserted(Values(keys, Plug(ctx, Nil)), item, s)
  {
    LeafSplit(keys, ctx, item);
    IncreasingInsert(Before(keys, ctx), item, After(keys, ctx));
    InsertedBetween(Before(keys, ctx), item, After(keys, ctx));
  }

  /** The keys around an empty position, and around a new leaf that fills it. */
  lemma LeafSplit(keys: seq<int>, ctx: seq<Frame>, item: int)
    requires forall y :: y in Ids(Plug(ctx, Nil)) ==> 0 <= y < |keys|
    ensures Values(keys, Plug(ctx, Nil)) == Before(keys, ctx) + After(keys, ctx)
    ensures Values(keys + [item], Plug(ctx, Node(Nil, |keys|, Nil)))
         == Before(keys, ctx) + [item] + After(keys, ctx)
  {
    var keys', leaf := keys + [item], Node(Nil, |keys|, Nil);
    var B, A := Before(keys, ctx), After(keys, ctx);
    PlugValues(keys, ctx, Nil);
    assert B + [] == B;
    assert keys'[..|keys|] == keys;
    BeforeAfterExtend(keys, keys', ctx);
    assert Values(keys', leaf) == [item] by {
      assert Key(keys', |keys|) == item;
    }
    PlugValues(keys', ctx, leaf);
  }

  /** C is C0 with item added: one element longer, and with item besides C0's elements. */
  ghost predicate Inserted(C0: seq<int>, item: int, C: seq<int>) {
    && |C| == |C0| + 1
    && forall v :: v in C <==> v in C0 || v == item
  }

  /** Putting an element between two parts inserts it. */
  lemma InsertedBetween(L: seq<int>, item: int, R: seq<int>)
    ensures Inserted(L + R, item, L + [item] + R)
  {
  }

  /** C is C0 with item removed: one element shorter, and with C0's elements other than item. */
  ghost predicate Deleted(C0: seq<int>, item: int, C: seq<int>) {
    && |C| == |C0| - 1
    && forall v :: v in C <==> v in C0 && v != item
  }

  /** Taking an element out from between two parts that lack it deletes it. */
  lemma DeletedBetween(L: seq<int>, k: int, R: seq<int>)
    requires k !in L + R
    ensures Deleted(L + [k] + R, k, L + R)
  {
  }

  /**
   * Removing the top key of t at a position: the keys of t's two subtrees
   * still increase, and so do the keys before the position, then theirs,
   * then those after it, which are the old keys without t's own.
   */
  lemma DropValues(keys: seq<int>, ctx: seq<Frame>, t: Tree)
    requires t.Node? && Increasing(Values(keys, Plug(ctx, t)))
    ensures
      var B, A := Before(keys, ctx), After(keys, ctx);
      var V := Values(keys, t.left) + Values(keys, t.right);
      && Increasing(V) && Increasing(B + V + A)
      && Deleted(Values(keys, Plug(ctx, t)), Key(keys, t.id), B + V + A)
  {
    var B, A, k := Before(keys, ctx), After(keys, ctx), Key(keys, t.id);
    var Vl, Vr := Values(keys, t.left), Values(keys, t.right);
    var S, T := B + Vl, Vr + A;
    PlugValues(keys, ctx, t);
    assert Values(keys, t) == Vl + [k] + Vr;
    Regroup(B, Vl, k, Vr, A);
    IncreasingDrop(S, k, T);
    DeletedBetween(S, k, T);
    IncreasingHalves(B, (Vl + Vr) + A);
    IncreasingHalves(Vl + Vr, A);
  }

  /**
   * When no key lies below item, what `access(item)` chooses is the
   * smallest key: item itself if present, else the first key above it.
   */
  lemma AccessedLeast(C: seq<int>, item: int, v: int)
    requires Increasing(C) && C != []
    requires forall w :: w in C ==> item <= w
    requires v == item <==> item in C
    requires item !in C ==> Neighbour(C, item, v)
    ensures v == C[0]
  {
    HeadIn(C);
    if item in C {
      IncreasingEnds(C, item);
    } else {
      IncreasingEnds(C, v);
    }
  }

  /** Deleting the smallest key of an increasing sequence leaves the rest, in order. */
  lemma DeletedHead(C: seq<int>, C': seq<int>)
    requires Increasing(C) && Increasing(C') && C != []
    requires Deleted(C, C[0], C')
    ensures C' == C[1..]
  {
    assert C == [] + [C[0]] + C[1..];
    IncreasingAround([], C[0], C[1..]);
    forall v ensures v in C' <==> v in C[1..] {
      assert v in C <==> v == C[0] || v in C[1..];
    }
    IncreasingUnique(C', C[1..]);
  }
}
