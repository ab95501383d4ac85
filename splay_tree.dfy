/**
 * The ordered-key splay tree: SplayTreeNode.rotate
 * (util/data_structures/SplayTreeNode.py) and the SplayTree class
 * (util/data_structures/SplayTree.py), on an arena of nodes. Each node's
 * `value` is its entry in the tree's key table.
 */
module SplayTrees {
  import opened BinaryNodes
  import opened SplayShapes
  import opened SplayLinks

  /** The error `insert` raises for a key already present and `delete` for a missing one. */
  datatype Failure = ValueError

  /** Where `rotate()` looks without a look-ahead: x's parent, and whether x is its right child. */
  function LookAhead(l: Links, x: int): (int, bool)
    requires l.Valid() && 0 <= x < l.Size()
  {
    var p := l.parent[x];
    (p, p != NIL && l.right[p] == x)
  }

  /**
   * `rotate(lookAhead)` on node x: with no parent, nothing happens and the
   * result is None; otherwise the rotation's link surgery happens and the
   * result is the grandparent and the side it held the parent on.
   */
  method Rotate(links: NodeArena, x: int, look: Option<(int, bool)>) returns (r: Option<(int, bool)>)
    requires links.Valid() && 0 <= x < |links.parent|
    requires look.Some? ==> links.View().IsRef(look.value.0)
    modifies links
    ensures links.Valid()
    ensures
      var (p, side) := if look.Some? then look.value else LookAhead(old(links.View()), x);
      if p == NIL then r.None? && links.View() == old(links.View())
      else
        var (l4, g, gs) := Rotation(old(links.View()), x, side, p);
        r == Some((g, gs)) && links.View() == l4
  {
    var p, side;
    if look.Some? {
      p, side := look.value.0, look.value.1;
    } else {
      p := links.parent[x];
      side := p != NIL && links.right[p] == x;
    }
    if p == NIL {
      return None;
    }
    var side0 := !side;
    var saveChild := links.Give(x, side0);
    var _ := links.Swap(p, side, saveChild);
    var g := links.parent[p];
    var gs := g != NIL && links.right[g] == p;
    if g != NIL {
      var _ := links.Swap(g, gs, x);
    }
    var _ := links.Swap(x, side0, p);
    r := Some((g, gs));
  }

  /**
   * The loop of `_splay`: rotate x until it has no parent. The arena then
   * holds, with x at the top, a tree with the same nodes and the same keys
   * in order; nodes outside the tree keep their links.
   */
  method SplayUp(links: NodeArena, x: int, ghost keys: seq<int>, ghost ctx: seq<Frame>, ghost t: Tree, ghost top: int)
    returns (ghost t': Tree)
    requires links.Valid() && t.Node? && t.id == x
    requires CtxRepr(links.View(), ctx, x, top) && Repr(links.View(), t, x, Up(ctx)) && Distinct(Plug(ctx, t))
    modifies links
    ensures links.Valid() && |links.parent| == old(|links.parent|)
    ensures t'.Node? && t'.id == x && Repr(links.View(), t', x, NIL) && Distinct(t')
    ensures Ids(t') == Ids(Plug(ctx, t)) && Values(keys, t') == Values(keys, Plug(ctx, t))
    ensures forall j :: 0 <= j < |links.parent| && j !in Ids(Plug(ctx, t)) ==> Same(old(links.View()), links.View(), j)
  {
    ghost var L0 := links.View();
    var look, c, u, tp := SplayStep(links, x, None, keys, ctx, t, top);
    while look.Some?
      invariant links.Valid() && |links.parent| == |L0.parent|
      invariant u.Node? && u.id == x
      invariant CtxRepr(links.View(), c, x, tp) && Repr(links.View(), u, x, Up(c)) && Distinct(Plug(c, u))
      invariant Ids(Plug(c, u)) == Ids(Plug(ctx, t)) && Values(keys, Plug(c, u)) == Values(keys, Plug(ctx, t))
      invariant look.Some? ==> look.value.0 == Up(c) && (c != [] ==> look.value.1 == c[0].side)
      invariant look.None? ==> c == []
      invariant forall j :: 0 <= j < |L0.parent| && j !in Ids(Plug(ctx, t)) ==> Same(L0, links.View(), j)
      decreases |c| + (if look.Some? then 1 else 0)
    {
      look, c, u, tp := SplayStep(links, x, look, keys, c, u, tp);
    }
    t' := u;
  }

  /** One call of `rotate` in `_splay`, with the tree it leaves. */
  method SplayStep(links: NodeArena, x: int, look: Option<(int, bool)>,
                   ghost keys: seq<int>, ghost c: seq<Frame>, ghost u: Tree, ghost tp: int)
    returns (r: Option<(int, bool)>, ghost c': seq<Frame>, ghost u': Tree, ghost tp': int)
    requires links.Valid() && u.Node? && u.id == x
    requires CtxRepr(links.View(), c, x, tp) && Repr(links.View(), u, x, Up(c)) && Distinct(Plug(c, u))
    requires look.Some? ==> look.value.0 == Up(c) && (c != [] ==> look.value.1 == c[0].side)
    modifies links
    ensures links.Valid() && |links.parent| == old(|links.parent|)
    ensures c == [] ==> c' == [] && r.None?
    ensures c != [] ==> c' == c[1..] && r.Some?
    ensures u'.Node? && u'.id == x
    ensures CtxRepr(links.View(), c', x, tp') && Repr(links.View(), u', x, Up(c')) && Distinct(Plug(c', u'))
    ensures Ids(Plug(c', u')) == Ids(Plug(c, u)) && Values(keys, Plug(c', u')) == Values(keys, Plug(c, u))
    ensures r.Some? ==> r.value.0 == Up(c') && (c' != [] ==> r.value.1 == c'[0].side)
    ensures forall j :: 0 <= j < |links.parent| && j !in Ids(Plug(c, u)) ==> Same(old(links.View()), links.View(), j)
  {
    ghost var L := links.View();
    PositionSide(L, c, u, tp);
    ReprIds(L, u, x, Up(c));
    if c != [] {
      RotationStep(L, c, u, tp);
      RotatePlugKeeps(keys, c, u);
    }
    r := Rotate(links, x, look);
    if c != [] {
      c', u', tp' := c[1..], RotateUp(c[0], u), if c[1..] == [] then x else tp;
    } else {
      c', u', tp' := c, u, tp;
    }
  }

  /**
   * The first part of `join` with a non-empty left tree: walk RIGHT from its
   * top to its largest node m, then splay m. m then has no right child, the
   * tree has the same nodes and keys in order, and other nodes keep their links.
   */
  method SplayMax(links: NodeArena, ghost keys: seq<int>, left: int, ghost ta: Tree) returns (m: int, ghost a: Tree)
    requires links.Valid() && ta.Node? && Repr(links.View(), ta, left, NIL) && Distinct(ta)
    requires Increasing(Values(keys, ta))
    modifies links
    ensures links.Valid() && |links.parent| == old(|links.parent|)
    ensures Repr(links.View(), Node(a, m, Nil), m, NIL) && Distinct(Node(a, m, Nil))
    ensures Ids(Node(a, m, Nil)) == Ids(ta) && Values(keys, Node(a, m, Nil)) == Values(keys, ta)
    ensures forall j :: 0 <= j < |links.parent| && j !in Ids(ta) ==> Same(old(links.View()), links.View(), j)
  {
    var parent := left;
    var node := links.right[parent];
    ghost var c: seq<Frame> := [];
    ghost var u := ta;
    while node != NIL
      invariant links.Valid() && links.View() == old(links.View())
      invariant u.Node? && u.id == parent && Plug(c, u) == ta
      invariant CtxRepr(links.View(), c, parent, left) && Repr(links.View(), u, parent, Up(c))
      invariant node == links.right[parent]
      invariant forall i :: 0 <= i < |c| ==> c[i].side == RIGHT
      decreases u
    {
      ReprIds(links.View(), u.right, node, parent);
      c := [Frame(RIGHT, parent, u.left)] + c;
      u := u.right;
      parent := node;
      node := links.right[node];
    }
    ReprIds(links.View(), u.right, node, parent);
    assert u.right == Nil;
    AfterAllRight(keys, c);
    PlugValues(keys, c, u);
    ghost var s := Values(keys, ta);
    assert s == Before(keys, c) + Values(keys, u.left) + [Key(keys, parent)];
    assert s[|s| - 1] == Key(keys, parent);
    m := parent;
    RootPath(links.View(), c, u, left);
    ghost var t: Tree;
    if m == left {
      t := u;
    } else {
      t := SplayUp(links, m, keys, c, u, left);
    }
    IncreasingLast(Values(keys, t.left), Key(keys, m), Values(keys, t.right));
    a := t.left;
  }

  /**
   * `join(left, right)`, which demands that every key of the left tree lie
   * below every key of the right one: the joint tree holds the left keys and
   * then the right keys, in order, and only the two trees' nodes change links.
   */
  method Join(links: NodeArena, ghost keys: seq<int>, left: int, right: int, ghost ta: Tree, ghost tb: Tree)
    returns (j: int, ghost tj: Tree)
    requires links.Valid() && Repr(links.View(), ta, left, NIL) && Repr(links.View(), tb, right, NIL)
    requires Distinct(ta) && Distinct(tb) && Ids(ta) !! Ids(tb)
    requires Increasing(Values(keys, ta) + Values(keys, tb))
    modifies links
    ensures links.Valid() && |links.parent| == old(|links.parent|)
    ensures Repr(links.View(), tj, j, NIL) && Distinct(tj) && Ids(tj) == Ids(ta) + Ids(tb)
    ensures Values(keys, tj) == Values(keys, ta) + Values(keys, tb)
    ensures forall k :: 0 <= k < |links.parent| && k !in Ids(ta) + Ids(tb) ==> Same(old(links.View()), links.View(), k)
    ensures left != NIL && right != NIL ==>
      0 <= j < |links.right| && links.right[j] == right && Key(keys, j) == Values(keys, ta)[|Values(keys, ta)| - 1]
  {
    if right == NIL {
      assert Values(keys, ta) + Values(keys, tb) == Values(keys, ta);
      return left, ta;
    } else if left != NIL {
      j, tj := Graft(links, keys, left, right, ta, tb);
    } else {
      assert Values(keys, ta) + Values(keys, tb) == Values(keys, tb);
      return right, tb;
    }
  }

  /**
   * `join` with two non-empty trees: splay the left tree's largest node m
   * to its top, then hang the right tree below m on the RIGHT.
   */
  method Graft(links: NodeArena, ghost keys: seq<int>, left: int, right: int, ghost ta: Tree, ghost tb: Tree)
    returns (j: int, ghost tj: Tree)
    requires links.Valid() && Repr(links.View(), ta, left, NIL) && Repr(links.View(), tb, right, NIL)
    requires left != NIL && right != NIL
    requires Distinct(ta) && Distinct(tb) && Ids(ta) !! Ids(tb)
    requires Increasing(Values(keys, ta) + Values(keys, tb))
    modifies links
    ensures links.Valid() && |links.parent| == old(|links.parent|)
    ensures Repr(links.View(), tj, j, NIL) && Distinct(tj) && Ids(tj) == Ids(ta) + Ids(tb)
    ensures Values(keys, tj) == Values(keys, ta) + Values(keys, tb)
    ensures forall k :: 0 <= k < |links.parent| && k !in Ids(ta) + Ids(tb) ==> Same(old(links.View()), links.View(), k)
    ensures 0 <= j < |links.right| && links.right[j] == right && Key(keys, j) == Values(keys, ta)[|Values(keys, ta)| - 1]
  {
    IncreasingHalves(Values(keys, ta), Values(keys, tb));
    ghost var L0 := links.View();
    ReprIds(L0, tb, right, NIL);
    var m;
    ghost var a;
    m, a := SplayMax(links, keys, left, ta);
    ghost var L1 := links.View();
    assert forall k :: k in Ids(tb) ==> Same(L0, L1, k);
    ReprFrame(L0, L1, tb, NIL, NIL);
    Hung(L1, a, m, tb, right);
    Grafted(keys, a, m, ta, tb);
    var _ := links.Swap(m, RIGHT, right);
    j, tj := m, Node(a, m, tb);
  }

  /** Hanging tb on the right of the top of a tree with no right child appends tb's nodes and keys. */
  lemma Grafted(keys: seq<int>, a: Tree, m: int, ta: Tree, tb: Tree)
    requires Ids(Node(a, m, Nil)) == Ids(ta) && Values(keys, Node(a, m, Nil)) == Values(keys, ta)
    ensures Ids(Node(a, m, tb)) == Ids(ta) + Ids(tb)
    ensures Values(keys, Node(a, m, tb)) == Values(keys, ta) + Values(keys, tb)
  {
    assert Values(keys, Node(a, m, Nil)) == Values(keys, a) + [Key(keys, m)];
  }

  /**
   * What `access(item)` returns, for a tree with keys C: the node's key v is
   * item when item is present, and otherwise a neighbour of item in C.
   */
  ghost predicate Accessed(C: seq<int>, item: int, v: int) {
    && (v == item <==> item in C)
    && (item !in C ==> Neighbour(C, item, v))
  }

  /**
   * When the search for an absent item ends below a node, that node is
   * the one `access` chooses: its key is a neighbour of item.
   */
  lemma AccessChoice(keys: seq<int>, ctx: seq<Frame>, item: int)
    requires ctx != [] && 0 <= ctx[0].id < |keys|
    requires Increasing(Values(keys, Plug(ctx, Nil)))
    requires forall v :: v in Before(keys, ctx) ==> v < item
    requires forall v :: v in After(keys, ctx) ==> item < v
    ensures Accessed(Values(keys, Plug(ctx, Nil)), item, keys[ctx[0].id])
    ensures Plug(ctx[1..], Attach(ctx[0], Nil)) == Plug(ctx, Nil)
    ensures ctx[0].side == LEFT ==> item < keys[ctx[0].id]
    ensures ctx[0].side == RIGHT ==> keys[ctx[0].id] < item
  {
    var B, A := Before(keys, ctx), After(keys, ctx);
    if ctx[0].side == LEFT {
      assert Key(keys, ctx[0].id) in A;
    } else {
      assert Key(keys, ctx[0].id) in B;
    }
    PlugValues(keys, ctx, Nil);
    assert B + [] == B;
    SearchNeighbour(keys, ctx, item);
    Outside(B, A, item);
  }

  /** An item below every key of B and above every key of A is in neither. */
  lemma Outside(B: seq<int>, A: seq<int>, item: int)
    requires forall v :: v in B ==> v < item
    requires forall v :: v in A ==> item < v
    ensures item !in B + A
  {
  }

  /**
   * A SplayTree: its root node in an arena of nodes, and each node's key.
   * The ghost `tree` is the shape the arena holds below the root.
   */
  class SplayTree {
    const links: NodeArena
    var keys: seq<int>
    var root: int
    ghost var tree: Tree

    ghost predicate Valid()
      reads this, links
    {
      links.Valid() && Holds(links.View(), keys, tree, root)
    }

    /** The keys of the tree in order. */
    ghost function Contents(): seq<int>
      reads this
    {
      Values(keys, tree)
    }

    /** `SplayTree()`: the empty tree. */
    constructor ()
      ensures Valid() && Contents() == [] && fresh(links)
    {
      links := new NodeArena();
      keys, root, tree := [], NIL, Nil;
    }

    /**
     * `_search(value)`: walk down from the root, by key comparison, to the
     * node holding item or to the empty position where it would go. The
     * result names that node (or NIL), its parent (or NIL) and the side of
     * the parent the position is on; the keys before the position are below
     * item and those after it above.
     */
    method Search(item: int) returns (node: int, parent: int, side: bool, ghost ctx: seq<Frame>, ghost t: Tree)
      requires Valid()
      ensures tree == Plug(ctx, t) && Top(t) == node && Up(ctx) == parent
      ensures t == Nil <==> node == NIL
      ensures ctx == [] <==> parent == NIL
      ensures parent != NIL ==> 0 <= parent < |keys|
      ensures parent != NIL ==> side == ctx[0].side
      ensures forall v :: v in Before(keys, ctx) ==> v < item
      ensures forall v :: v in After(keys, ctx) ==> item < v
      ensures node != NIL ==> 0 <= node < |keys| && keys[node] == item
      ensures node != NIL <==> item in Contents()
    {
      node, parent, side := root, NIL, false;
      ctx, t := [], tree;
      while node != NIL
        invariant tree == Plug(ctx, t) && Top(t) == node && Up(ctx) == parent
        invariant CtxRepr(links.View(), ctx, node, root) && Repr(links.View(), t, node, parent)
        invariant parent != NIL ==> side == ctx[0].side
        invariant forall v :: v in Before(keys, ctx) ==> v < item
        invariant forall v :: v in After(keys, ctx) ==> item < v
        decreases t
      {
        if keys[node] == item {
          break;
        }
        SearchStep(keys, ctx, t, item);
        side := item > keys[node];
        parent := node;
        node := if side then links.right[node] else links.left[node];
        ghost var d := Descend(keys, ctx, t, item);
        ctx, t := d.0, d.1;
      }
      PlugValues(keys, ctx, t);
    }
  
    /**
     * `_splay(node)`: unless x is already the root, rotate it up until it is.
     * The keys stay in order and the arena's other nodes are untouched.
     */
    method Splay(x: int, ghost ctx: seq<Frame>, ghost t: Tree)
      requires Valid() && t.Node? && t.id == x && tree == Plug(ctx, t)
      modifies this, links
      ensures Valid() && root == x && keys == old(keys)
      ensures Contents() == old(Contents()) && Ids(tree) == old(Ids(tree))
      ensures forall j :: 0 <= j < |links.parent| && j !in old(Ids(tree)) ==> Same(old(links.View()), links.View(), j)
    {
      PlugRepr(links.View(), ctx, t, root);
      RootPath(links.View(), ctx, t, root);
      if x == root {
        return;
      }
      tree := SplayUp(links, x, keys, ctx, t, root);
      root := x;
    }

    /**
     * `access(item)`: splay the node holding item, or else the last node the
     * search visited, and return it; NIL for the empty tree. The node found
     * holds item when item is present and otherwise a neighbour of item.
     */
    method Access(item: int) returns (node: int)
      requires Valid()
      modifies this, links
      ensures Valid() && keys == old(keys) && Contents() == old(Contents())
      ensures node == NIL <==> Contents() == []
      ensures node != NIL ==> root == node && 0 <= node < |keys|
      ensures node != NIL ==> Accessed(Contents(), item, keys[node])
    {
      ghost var ctx, t;
      node, ctx, t := AccessTarget(item);
      if node == NIL {
        return;
      }
      Splay(node, ctx, t);
    }

    /**
     * The choice `access(item)` makes before splaying: the node holding item,
     * else the parent of the empty position the search ended at, else NIL.
     */
    method AccessTarget(item: int) returns (node: int, ghost ctx: seq<Frame>, ghost t: Tree)
      requires Valid()
      ensures node == NIL <==> Contents() == []
      ensures node != NIL ==> t.Node? && t.id == node && tree == Plug(ctx, t)
      ensures node != NIL ==> 0 <= node < |keys| && Accessed(Contents(), item, keys[node])
      ensures node != NIL && item !in Contents() ==>
        || (item < keys[node] && t.Node? && t.left == Nil)
        || (keys[node] < item && t.Node? && t.right == Nil)
    {
      var parent, side;
      node, parent, side, ctx, t := Search(item);
      if node == NIL && parent != NIL {
        AccessChoice(keys, ctx, item);
        node := parent;
        t := Attach(ctx[0], Nil);
        ctx := ctx[1..];
      }
    }

    /**
     * `insert(item)`: ValueError when item is present; otherwise a new node
     * holding item fills the position the search ended at and is splayed to
     * the root.
     */
    method Insert(item: int) returns (err: Option<Failure>)
      requires Valid()
      modifies this, links
      ensures Valid()
      ensures item in old(Contents()) ==> err == Some(ValueError) && Contents() == old(Contents())
      ensures item !in old(Contents()) ==> err.None? && 0 <= root < |keys| && keys[root] == item
      ensures item !in old(Contents()) ==> Inserted(old(Contents()), item, Contents())
    {
      var node, parent, side;
      ghost var ctx, t;
      node, parent, side, ctx, t := Search(item);
      if node != NIL {
        return Some(ValueError);
      }
      Place(item, parent, side, ctx);
      err := None;
    }

    /** The part of `insert` after the search: add the node, then splay it unless it is the root. */
    method Place(item: int, parent: int, side: bool, ghost ctx: seq<Frame>)
      requires Valid() && tree == Plug(ctx, Nil) && Up(ctx) == parent && (parent != NIL ==> side == ctx[0].side)
      requires forall v :: v in Before(keys, ctx) ==> v < item
      requires forall v :: v in After(keys, ctx) ==> item < v
      modifies this, links
      ensures Valid() && 0 <= root < |keys| && keys[root] == item
      ensures Inserted(old(Contents()), item, Contents())
    {
      var n := AddLeaf(item, parent, side, ctx);
      if parent != NIL {
        Splay(n, ctx, Node(Nil, n, Nil));
      }
    }

    /**
     * The new node of `insert`: a node holding item goes into the empty
     * position ctx describes (becoming the root when the tree was empty),
     * and its key lands between the keys before and after the position.
     */
    method AddLeaf(item: int, parent: int, side: bool, ghost ctx: seq<Frame>) returns (n: int)
      requires Valid() && tree == Plug(ctx, Nil) && Up(ctx) == parent && (parent != NIL ==> side == ctx[0].side)
      requires forall v :: v in Before(keys, ctx) ==> v < item
      requires forall v :: v in After(keys, ctx) ==> item < v
      modifies this, links
      ensures Valid() && n == old(|keys|) && keys == old(keys) + [item]
      ensures tree == Plug(ctx, Node(Nil, n, Nil)) && (parent == NIL ==> root == n)
      ensures Inserted(old(Contents()), item, Contents())
    {
      PlugRepr(links.View(), ctx, Nil, root);
      LeafPlaced(links.View(), ctx, root, side);
      CtxReprIds(links.View(), ctx, NIL, root);
      LeafValues(keys, ctx, item);
      n := links.NewNode();
      keys := keys + [item];
      tree := Plug(ctx, Node(Nil, n, Nil));
      if parent == NIL {
        root := n;
        return;
      }
      var _ := links.Swap(parent, side, n);
    }

    /** The keys of a valid tree increase. */
    lemma ValidIncreasing()
      requires Valid()
      ensures Increasing(Contents())
    {
    }

    /** The tree is empty exactly when the root is NIL. */
    lemma Emptiness()
      requires Valid()
      ensures root == NIL <==> Contents() == []
    {
      ReprIds(links.View(), tree, root, NIL);
    }

    /**
     * `delete(item)`: ValueError when item is absent; otherwise its node
     * leaves the tree, which keeps every other key in order.
     */
    method Delete(item: int) returns (err: Option<Failure>)
      requires Valid()
      modifies this, links
      ensures Valid() && keys == old(keys)
      ensures item !in old(Contents()) ==> err == Some(ValueError) && Contents() == old(Contents())
      ensures item in old(Contents()) ==> err.None? && Deleted(old(Contents()), item, Contents())
    {
      var node, parent, side;
      ghost var ctx, t;
      node, parent, side, ctx, t := Search(item);
      if node == NIL {
        return Some(ValueError);
      }
      Remove(node, parent, side, ctx, t);
      err := None;
    }

    /**
     * The part of `delete` after the search: the node gives up both
     * subtrees, they are joined, and the joined tree takes the node's place
     * below its parent, which is then splayed, or becomes the root.
     */
    method Remove(node: int, parent: int, side: bool, ghost ctx: seq<Frame>, ghost t: Tree)
      requires Valid() && t.Node? && t.id == node && tree == Plug(ctx, t) && Up(ctx) == parent
      requires ctx == [] <==> parent == NIL
      requires parent != NIL ==> side == ctx[0].side
      modifies this, links
      ensures Valid() && keys == old(keys)
      ensures Deleted(old(Contents()), Key(keys, node), Contents())
    {
      DropValues(keys, ctx, t);
      var j;
      ghost var tj;
      j, tj := Detach(node, ctx, t);
      PlugValues(keys, ctx, tj);
      PlugIds(ctx, tj);
      if parent == NIL {
        root, tree := j, tj;
      } else {
        Replaced(links.View(), ctx, node, root, tj, j);
        var _ := links.Swap(parent, side, j);
        tree := Plug(ctx, tj);
        Splay(parent, ctx[1..], Attach(ctx[0], tj));
      }
    }

    /**
     * `give(LEFT)`, `give(RIGHT)` and `join` in `delete`: node's two subtrees
     * become one tree tj at j with their keys in order, and the path above
     * node is untouched.
     */
    method Detach(node: int, ghost ctx: seq<Frame>, ghost t: Tree) returns (j: int, ghost tj: Tree)
      requires Valid() && t.Node? && t.id == node && tree == Plug(ctx, t)
      requires Increasing(Values(keys, t.left) + Values(keys, t.right))
      modifies links
      ensures links.Valid() && |links.parent| == |keys| && 0 <= node < |keys|
      ensures CtxRepr(links.View(), ctx, node, root) && Distinct(Plug(ctx, Nil)) && node !in Ids(Plug(ctx, Nil))
      ensures Repr(links.View(), tj, j, NIL) && Distinct(tj) && node !in Ids(tj)
      ensures Ids(tj) == Ids(t.left) + Ids(t.right) && Ids(tj) !! Ids(Plug(ctx, Nil))
      ensures Values(keys, tj) == Values(keys, t.left) + Values(keys, t.right)
    {
      ghost var L0 := links.View();
      DetachSetting(L0, ctx, t, root);
      var left := links.Give(node, LEFT);
      var right := links.Give(node, RIGHT);
      ghost var L2 := links.View();
      j, tj := Join(links, keys, left, right, t.left, t.right);
      ghost var L3 := links.View();
      forall k | k in Ids(Plug(ctx, Nil)) ensures Same(L0, L3, k) {
        assert Same(L0, L2, k) && Same(L2, L3, k);
      }
      PathKept(L0, L3, ctx, node, root);
    }
  }

  /**
   * The splay tree test: insert 0, 50, 20, 5, 30 and 15, delete 30, then,
   * while the tree has a root, access 0 and delete the key found. The keys
   * come out in increasing order.
   */
  method Scenario() returns (values: seq<int>)
    ensures values == [0, 5, 15, 20, 50]
  {
    var t := Sample();
    values := Drain(t);
  }

  /**
   * The loop of the splay tree test on any tree whose keys are all at least
   * 0: accessing 0 and deleting the key found, until the tree is empty,
   * takes the keys out in increasing order.
   */
  method Drain(t: SplayTree) returns (values: seq<int>)
    requires t.Valid() && forall w :: w in t.Contents() ==> 0 <= w
    modifies t, t.links
    ensures t.Valid() && t.Contents() == [] && values == old(t.Contents())
  {
    ghost var L := t.Contents();
    values := [];
    while t.root != NIL
      invariant t.Valid() && |values| <= |L| && values == L[..|values|] && t.Contents() == L[|values|..]
      invariant forall w :: w in t.Contents() ==> 0 <= w
      decreases |t.Contents()|
    {
      ghost var C, n := t.Contents(), |values|;
      t.Emptiness();
      var node := t.Access(0);
      var value := t.keys[node];
      AccessedLeast(C, 0, value);
      assert value == L[n] && L[..n + 1] == L[..n] + [L[n]];
      values := values + [value];
      var err := t.Delete(value);
      DeletedHead(C, t.Contents());
      assert forall w :: w in t.Contents() ==> w in C;
    }
    t.Emptiness();
  }

  /** The tree the test builds: after the six inserts and the delete it holds 0, 5, 15, 20 and 50. */
  method Sample() returns (t: SplayTree)
    ensures fresh(t) && fresh(t.links) && t.Valid() && t.Contents() == [0, 5, 15, 20, 50]
  {
    t := SampleStart();
    InsertBetween(t, [0, 5, 20], 30, [50]);
    InsertBetween(t, [0, 5], 15, [20, 30, 50]);
    DeleteBetween(t, [0, 5, 15, 20], 30, [50]);
  }

  /** The first four inserts of the test: 0, 50, 20 and 5. */
  method SampleStart() returns (t: SplayTree)
    ensures fresh(t) && fresh(t.links) && t.Valid() && t.Contents() == [0, 5, 20, 50]
  {
    t := new SplayTree();
    InsertBetween(t, [], 0, []);
    InsertBetween(t, [0], 50, []);
    InsertBetween(t, [0], 20, [50]);
    InsertBetween(t, [0], 5, [20, 50]);
  }

  /** `insert(item)` on a tree whose keys are L + R, with item between L and R. */
  method InsertBetween(t: SplayTree, L: seq<int>, item: int, R: seq<int>)
    requires t.Valid() && t.Contents() == L + R && Increasing(L + [item] + R)
    modifies t, t.links
    ensures t.Valid() && t.Contents() == L + [item] + R
  {
    IncreasingDrop(L, item, R);
    var err := t.Insert(item);
    Pinned(L, item, R, t.Contents());
  }

  /** `delete(item)` on a tree whose keys are L + [item] + R. */
  method DeleteBetween(t: SplayTree, L: seq<int>, item: int, R: seq<int>)
    requires t.Valid() && t.Contents() == L + [item] + R
    modifies t, t.links
    ensures t.Valid() && t.Contents() == L + R
  {
    t.ValidIncreasing();
    var err := t.Delete(item);
    Unpinned(L, item, R, t.Contents());
  }

  /** Keys in increasing order are fixed by the insertion that made them. */
  lemma Pinned(L: seq<int>, item: int, R: seq<int>, C: seq<int>)
    requires Increasing(C) && Increasing(L + [item] + R) && Inserted(L + R, item, C)
    ensures C == L + [item] + R
  {
    forall v ensures v in C <==> v in L + [item] + R {
      assert v in L + R <==> v in L || v in R;
    }
    IncreasingUnique(C, L + [item] + R);
  }

  /** Keys in increasing order are fixed by the deletion that made them. */
  lemma Unpinned(L: seq<int>, item: int, R: seq<int>, C: seq<int>)
    requires Increasing(C) && Increasing(L + [item] + R) && Deleted(L + [item] + R, item, C)
    ensures C == L + R
  {
    IncreasingDrop(L, item, R);
    forall v ensures v in C <==> v in L + R {
      assert v in L + [item] + R <==> v in L || v == item || v in R;
    }
    IncreasingUnique(C, L + R);
  }
}
