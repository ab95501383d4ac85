/**
 * Binary-tree node primitives shared by the path tree and the ordered-key
 * splay tree (util/data_structures/BSTNode.py).
 *
 * Nodes live in an arena and are addressed by index; the source's NULL object
 * is the index NIL. Every write the source sends to NULL (which the NULL
 * object silently absorbs) is a write that does not happen here.
 */
module BinaryNodes {

  /** The absent node. */
  const NIL: int := -1
  /** Child slots are addressed by a boolean side, as in the source. */
  const LEFT: bool := false
  const RIGHT: bool := true

  datatype Option<T> = None | Some(value: T)

  /** Parent and child links of every node of an arena. */
  datatype Links = Links(parent: seq<int>, left: seq<int>, right: seq<int>)
  {
    function Size(): nat { |parent| }

    /** A reference: either NIL or a node of the arena. */
    predicate IsRef(k: int) { k == NIL || 0 <= k < |parent| }

    predicate Valid() {
      && |left| == |parent|
      && |right| == |parent|
      && forall k :: 0 <= k < |parent| ==> IsRef(parent[k]) && IsRef(left[k]) && IsRef(right[k])
    }

    /** `children[side]` of node k. */
    function Child(k: int, side: bool): int
      requires Valid() && 0 <= k < Size()
    {
      if side == RIGHT then right[k] else left[k]
    }
  }

  /**
   * `k.swap(side, child)`: `child` gets `k` as parent, takes slot `side` of
   * `k`, and the evicted occupant (returned) loses its parent. The writes
   * happen in that order, so swapping a node into the slot it already holds
   * leaves it without a parent.
   */
  function Swapped(l: Links, k: int, side: bool, child: int): (r: (Links, int))
    requires l.Valid() && 0 <= k < l.Size() && l.IsRef(child)
    ensures r.0.Valid() && r.0.Size() == l.Size()
    ensures r.1 == l.Child(k, side)
    ensures r.0.Child(k, side) == child
    ensures r.0.Child(k, !side) == l.Child(k, !side)
    ensures child != NIL && child != r.1 ==> r.0.parent[child] == k
    ensures r.1 != NIL ==> r.0.parent[r.1] == NIL
    ensures forall j :: 0 <= j < l.Size() && j != child && j != r.1 ==> r.0.parent[j] == l.parent[j]
    ensures forall j :: 0 <= j < l.Size() && j != k ==> r.0.left[j] == l.left[j] && r.0.right[j] == l.right[j]
  {
    var l1 := if child == NIL then l else l.(parent := l.parent[child := k]);
    var evicted := l.Child(k, side);
    var l2 := if side == RIGHT then l1.(right := l1.right[k := child]) else l1.(left := l1.left[k := child]);
    var l3 := if evicted == NIL then l2 else l2.(parent := l2.parent[evicted := NIL]);
    (l3, evicted)
  }

  /** An arena of binary-tree nodes whose links are rewritten in place. */
  class NodeArena {
    var parent: seq<int>
    var left: seq<int>
    var right: seq<int>

    function View(): Links
      reads this
    {
      Links(parent, left, right)
    }

    ghost predicate Valid()
      reads this
    {
      View().Valid()
    }

    constructor ()
      ensures Valid() && parent == [] && left == [] && right == []
    {
      parent, left, right := [], [], [];
    }

    /** A fresh node: NULL parent and two NULL children. */
    method NewNode() returns (k: int)
      requires Valid()
      modifies this
      ensures Valid() && k == |old(parent)|
      ensures parent == old(parent) + [NIL]
      ensures left == old(left) + [NIL] && right == old(right) + [NIL]
    {
      k := |parent|;
      parent, left, right := parent + [NIL], left + [NIL], right + [NIL];
    }

    /** The `left` property. */
    function Left(k: int): (r: int)
      reads this
      requires Valid() && 0 <= k < |parent|
      ensures r == View().Child(k, LEFT)
    {
      left[k]
    }

    /** The `right` property. */
    function Right(k: int): (r: int)
      reads this
      requires Valid() && 0 <= k < |parent|
      ensures r == View().Child(k, RIGHT)
    {
      right[k]
    }

    /**
     * `is_on(side)`: whether k is its parent's child on `side`. The source
     * indexes the NULL object's children when k has no parent, which raises;
     * that outcome is None here.
     */
    method IsOn(k: int, side: bool) returns (r: Option<bool>)
      requires Valid() && 0 <= k < |parent|
      ensures r.None? <==> parent[k] == NIL
      ensures r.Some? ==> (r.value <==> View().Child(parent[k], side) == k)
    {
      var p := parent[k];
      if p == NIL {
        r := None;
      } else {
        r := Some(if side == RIGHT then right[p] == k else left[p] == k);
      }
    }

    method Swap(k: int, side: bool, child: int) returns (evicted: int)
      requires Valid() && 0 <= k < |parent| && View().IsRef(child)
      modifies this
      ensures (View(), evicted) == Swapped(old(View()), k, side, child)
    {
      if child != NIL {
        parent := parent[child := k];
      }
      evicted := if side == RIGHT then right[k] else left[k];
      if side == RIGHT {
        right := right[k := child];
      } else {
        left := left[k := child];
      }
      if evicted != NIL {
        parent := parent[evicted := NIL];
      }
    }

    /** Point k's parent link at q without touching any child slot (`k.parent = q`). */
    method SetParent(k: int, q: int)
      requires Valid() && 0 <= k < |parent| && View().IsRef(q)
      modifies this
      ensures Valid() && parent == old(parent)[k := q] && left == old(left) && right == old(right)
    {
      parent := parent[k := q];
    }

    /** `give(side)`: empty the slot and return what was there. */
    method Give(k: int, side: bool) returns (evicted: int)
      requires Valid() && 0 <= k < |parent|
      modifies this
      ensures (View(), evicted) == Swapped(old(View()), k, side, NIL)
    {
      evicted := Swap(k, side, NIL);
    }

    /** `drop(side)`: empty the slot, discarding its occupant. */
    method Drop(k: int, side: bool)
      requires Valid() && 0 <= k < |parent|
      modifies this
      ensures View() == Swapped(old(View()), k, side, NIL).0
    {
      var _ := Give(k, side);
    }
  }
}
