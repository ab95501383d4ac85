# Dinic's maximum flow over link-cut path trees, in Dafny

This project models the core of a Python max-flow library.

- **`find_max_flow`** (`max_flow/rework.py`) runs Dinic's algorithm. It keeps a residual matrix `R` beside the capacity matrix `C`. It builds breadth-first levels from the source (`exits`, `entrances`, `level_of`, `levels`). Whenever the sink joins a level, it calls `send_blocking_flow`.
- **`send_blocking_flow`** grows a path from the source through the level graph, then advances, retreats or augments. The path is kept in a forest of link-cut path trees.
- **`PathTree`** (`max_flow/PathTreeRework.py`) is that link-cut tree, built on the child/parent primitives of **`BSTNode`** (`util/data_structures/BSTNode.py`).
  - Solid edges form splay trees whose in-order sequence is a path, deepest node first and path root last.
  - Dashed (`middle`) edges hang one solid tree below a node of another.
  - Costs are stored lazily: `delta_cost` is relative to the solid parent, and `delta_min` is how far a subtree's minimum lies below the node's own cost.
- **`normalize_flow_graph`** adds a super-source and/or a super-sink to a capacity matrix.
- **`SplayTree`** / **`SplayTreeNode`** (`util/data_structures/`) is an ordered-key splay tree with insert, delete, access and join, using single rotations.

## Modelling choices

- **Nodes in an arena.** Nodes are indices into an arena, with `NIL` (-1) standing for the NULL object.
  - `BSTNode` becomes the class `BinaryNodes.NodeArena`: parent and child links are sequences that its methods reassign.
  - The pure function `BinaryNodes.Swapped` specifies `swap`.
- **The path forest.** `PathTree` becomes the class `PathTrees.PathForest`. It holds:
  - an arena;
  - `middle`, each node's set of dashed children;
  - `deltaCost`, `deltaMin` and `next`;
  - a ghost descendant set per node, used for termination and frames.

  `Snap()` reads this state as a `Forest` value. The specification functions over that value live in modules `PathForests`, `PathSplice`, `PathCosts`, `PathLinks` and `PathRoots`. Each method of the class is proved to produce exactly the value its specification function gives, for example `Rotated` for `_rotate` and `Spliced` for `_splice`.
- **Represented trees.** Each solid tree stores one path of a represented tree, deepest node first. The parent of its solid root is the node the path hangs from. `PathRoots.Up` reads a node's path up to the root of its represented tree. `PathRoots.RootPath` reads the whole path the node's solid path belongs to, continued up to that root. `SameTrees` says that every `Up` is unchanged and that a given node keeps its `RootPath`.
- **Absolute cost.** `SolidCost` is the sum of `delta_cost` over a node and its solid ancestors. The source's `cost` property also adds the parent's cost across a dashed edge; that is `Cost`, and it is only read after `_splay` has removed the parent, where the two agree (`FindCost`).
- **The Dinic state.** The state of `find_max_flow` is the class `Dinic.Network`. Its inner functions and `send_blocking_flow` are methods of that class, and Python's exceptions become `Failure` values.
- **The splay tree.** A `SplayTree` is a root in an arena of key-carrying nodes, plus a ghost `Tree` value that the arena is proved to hold. `Contents()` is the in-order sequence of keys.

## Model

| member | source | states |
|---|---|---|
| BinaryNodes.Swapped | util/data_structures/BSTNode.py:36-41 | slot `side` of k holds `child` and the previous occupant is returned; `child`'s parent becomes k and the evicted node's parent NIL; k's other slot, every other node's children and every other parent link are unchanged |
| BinaryNodes.NodeArena.NewNode | util/data_structures/BSTNode.py:13-15 | the new node is appended with a NIL parent and two NIL children; existing nodes are untouched |
| BinaryNodes.NodeArena.Left | util/data_structures/BSTNode.py:25-27 | `left` is the child in slot LEFT |
| BinaryNodes.NodeArena.Right | util/data_structures/BSTNode.py:29-31 | `right` is the child in slot RIGHT |
| BinaryNodes.NodeArena.IsOn | util/data_structures/BSTNode.py:33-34 | true iff k is its parent's child on `side`; the failure case (indexing the NULL object) exactly when k has no parent |
| BinaryNodes.NodeArena.Swap | util/data_structures/BSTNode.py:36-41 | the new links and the returned node are exactly those `Swapped` gives |
| BinaryNodes.NodeArena.Give | util/data_structures/BSTNode.py:43-44 | the slot is emptied and its occupant returned with its parent link cleared (`Swapped` with NIL) |
| BinaryNodes.NodeArena.Drop | util/data_structures/BSTNode.py:46-47 | the links `give` leaves, with the occupant discarded |
| PathForests.SideOf | max_flow/PathTreeRework.py:37-45 | RIGHT or LEFT only when k is that child of its parent; None only for a root or a dashed child |
| PathTrees.WithNodeKeeps | max_flow/PathTreeRework.py:11-17 | a fresh node keeps the forest well formed, has no parent and cost 0, and leaves every other absolute cost unchanged |
| PathTrees.PathForest.AddNode | max_flow/PathTreeRework.py:11-17 | the forest gains exactly that node, with cost 0; all older costs are kept |
| PathTrees.PathForest.AdoptMiddle | max_flow/PathTreeRework.py:33-35 | `child` joins k's dashed children and its parent link points at k; nothing else changes |
| PathTrees.PathForest.Rotate | max_flow/PathTreeRework.py:47-95 | the new forest and the look-ahead flag are exactly `Rotated`; a root or dashed child is left unchanged with the flag false |
| PathTrees.PathForest.RotateSolid | max_flow/PathTreeRework.py:58-95 | for a solid child, the same result as `Rotated` |
| PathTrees.PathForest.RotateLinks | max_flow/PathTreeRework.py:58-94 | the swaps give `RotatedLinks`; a dashed grandparent swaps p for x among its dashed children; costs are untouched |
| PathTrees.PathForest.RotateCosts | max_flow/PathTreeRework.py:68-80 | x absorbs p's `delta_cost`, p gets minus x's old one and b gains it; both `delta_min` values are recomputed from the new children |
| PathTrees.PathForest.RotateReattach | max_flow/PathTreeRework.py:82-95 | x takes p's slot under a solid grandparent (result true) or its place among a dashed grandparent's children; x takes p on the opposite side |
| PathSplaySteps.RotatedKeeps | max_flow/PathTreeRework.py:47-95 | a rotation keeps the forest well formed, every absolute cost and every next node; the flag says whether x is still a solid child; x's descendant set grows |
| PathRotationValid.StepValid | max_flow/PathTreeRework.py:58-94 | one rotation keeps every well-formedness invariant, including `delta_min >= 0` |
| PathRotationKeeps.StepSolidCost | max_flow/PathTreeRework.py:69-75 | no node's absolute cost changes under rotation |
| PathRotationKeeps.StepInOrder | max_flow/PathTreeRework.py:58-94 | every solid subtree other than x's and p's keeps its left-to-right sequence |
| PathRotationKeeps.StepSides | max_flow/PathTreeRework.py:82-94 | after rotation x has p's old side, p is x's child opposite `side`, b is p's child on `side`; every other node's side is unchanged |
| PathRotationChains.StepSolidRoot | max_flow/PathTreeRework.py:47-95 | the root of x's solid tree keeps its parent and its whole in-order sequence, with x in p's place when p was the root |
| PathRotationChains.StepDashedBelow | max_flow/PathTreeRework.py:82-93 | dashed chains that end at x survive a rotation |
| PathTrees.RotatedSplaying | max_flow/PathTreeRework.py:115-118 | each rotation of `_solid_splay` keeps the splay on track and strictly grows x's descendant set (termination) |
| PathTrees.PathForest.Splice | max_flow/PathTreeRework.py:97-113 | the new forest and the returned parent are exactly `Spliced` (no change and NIL for a solid child or a root) |
| PathTrees.PathForest.SpliceAt | max_flow/PathTreeRework.py:101-113 | for a dashed child, the same result as `Spliced` |
| PathTrees.PathForest.SpliceLinks | max_flow/PathTreeRework.py:103-106 | x leaves q's dashed children and takes q's LEFT slot; the evicted left child becomes a dashed child of q |
| PathSplice.SpliceValid | max_flow/PathTreeRework.py:97-113 | a splice keeps the forest well formed, `delta_min >= 0` included |
| PathSplice.SpliceSides | max_flow/PathTreeRework.py:103-106 | x becomes q's LEFT child, q's former left child becomes dashed, and every other side is unchanged |
| PathSplice.SpliceSolidCost | max_flow/PathTreeRework.py:107-108 | below a solid root q, no node's absolute cost changes |
| PathSplice.SpliceInOrder | max_flow/PathTreeRework.py:104-109 | q's sequence becomes x's sequence, then q, then q's right subtree; the evicted subtree keeps its sequence |
| PathSplaySteps.SplicedKeeps | max_flow/PathTreeRework.py:136-138 | a splice in pass 2 keeps well-formedness, every cost and next node, and moves the dashed chain up to q |
| PathRoots.RotatedPaths | max_flow/PathTreeRework.py:47-95 | a rotation leaves every node's solid path, read as a sequence, and the node that path hangs from unchanged |
| PathRoots.SamePathsUp | max_flow/PathTreeRework.py:47-95 | forests that agree node by node on solid paths and on what each hangs from represent the same trees: every node has the same path to its root and the same root path |
| PathRoots.RotatedTrees | max_flow/PathTreeRework.py:47-95 | a rotation changes no represented tree and no root path |
| PathRoots.SplicedUp | max_flow/PathTreeRework.py:97-113 | splicing into a solid root leaves every node's path to the root of its represented tree unchanged |
| PathRoots.SplicedRootPath | max_flow/PathTreeRework.py:97-113 | after splicing x into a solid root q, the nodes of x's solid path lie on the root path they lay on before |
| PathRoots.SplicedTrees | max_flow/PathTreeRework.py:136-138 | a splice in pass 2 changes no represented tree, and x's root path is kept |
| PathTrees.SplayedTwice | max_flow/PathTreeRework.py:154-168 | splaying x, then a node of x's new solid path, leaves that node heading x's original root path, with every represented tree kept |
| PathTrees.PathForest.SolidSplay | max_flow/PathTreeRework.py:115-121 | x becomes the root of its solid tree, whose sequence and parent it inherits, and the result is that parent; all costs and every represented tree are kept, and y stays on its root path |
| PathTrees.PathForest.SplayStep | max_flow/PathTreeRework.py:117-118 | one loop step of `_solid_splay` keeps the splay on track and strictly shrinks the nodes outside x's subtree |
| PathTrees.PathForest.SolidSplayUp | max_flow/PathTreeRework.py:128-131 | pass 1 ends at a node with no parent, reached from x through solid roots, with every cost, every represented tree and x's root path kept |
| PathTrees.PathForest.SpliceUp | max_flow/PathTreeRework.py:133-138 | pass 2 ends with x on one solid path up to a parentless node, with every cost, every represented tree and x's root path kept |
| PathTrees.PathForest.Splay | max_flow/PathTreeRework.py:123-142 | after `_splay`, x has no parent; every absolute cost and every represented tree (each node's path up to its root) is unchanged; x's solid path is now exactly the root path x lay on: its old solid path, then the path up from the node that path hung from; a node that had no parent is left as it was |
| PathTrees.PathForest.FindCost | max_flow/PathTreeRework.py:151-152 | the result is x's absolute cost before the call, and equals the source's `cost` property (lines 20-26) of the splayed x; x's solid path becomes its root path and the represented trees are kept |
| PathTrees.PathForest.FindRoot | max_flow/PathTreeRework.py:154-160 | the result is the root of x's represented tree: its solid path is exactly x's root path before the call and it is the last node of it; it is splayed, with no parent and no right child; costs and represented trees are kept |
| PathTrees.PathForest.Rightmost | max_flow/PathTreeRework.py:156-159 | the walk ends at the last node of the sequence, which has no right child |
| PathTrees.PathForest.FindStem | max_flow/PathTreeRework.py:162-168 | the result is the first (deepest) node of x's root path before the call; it is splayed, and its solid path is exactly that root path; costs and represented trees are kept |
| PathTrees.PathForest.Leftmost | max_flow/PathTreeRework.py:164-167 | the walk ends at the first node of the sequence, which has no left child |
| PathCosts.AddedCosts | max_flow/PathTreeRework.py:207-210 | adding c at a top node x raises by c exactly the costs of x and of its right subtree |
| PathTrees.PathForest.AddCost | max_flow/PathTreeRework.py:205-211 | x is splayed; x and every node after it on its path gain c, and every other cost is unchanged |
| PathCosts.CutValid | max_flow/PathTreeRework.py:213-218 | cutting at a top node keeps the forest well formed |
| PathCosts.CutCost | max_flow/PathTreeRework.py:216-217 | the detached root absorbs x's `delta_cost`, so no absolute cost changes |
| PathCosts.CutInOrder | max_flow/PathTreeRework.py:214 | the path splits at x: x's part ends at x and the rest is the old right subtree's sequence |
| PathTrees.PathForest.Cut | max_flow/PathTreeRework.py:213-218 | x is splayed and loses its right child and next node; the detached part is a parentless tree; every cost is kept |
| PathTrees.PathForest.CutRoot | max_flow/PathTreeRework.py:214-218 | x's old sequence is its new one followed by the detached part's |
| PathLinks.LinkValid | max_flow/PathTreeRework.py:220-226 | linking one tree top under a top of another tree keeps the forest well formed |
| PathLinks.LinkCost | max_flow/PathTreeRework.py:224-225 | linking changes no absolute cost |
| PathLinks.LinkKeeps | max_flow/PathTreeRework.py:220-226 | after the link, x's parent is `other` by a dashed edge and its next node is `other`; every cost and solid sequence is kept |
| PathLinks.AdoptAsWritten | max_flow/PathTreeRework.py:33-35 | `adopt_middle` as written: child is appended to k's `middle`, then the assignment to the read-only `parent` raises, so every link and next node is left as it was |
| PathLinks.AdoptAsWrittenBreaks | max_flow/PathTreeRework.py:33-35 | whenever child's parent is not already k, as at both callers (lines 92 and 106, right after child was detached), the state `adopt_middle` leaves is not well formed |
| PathLinks.LinkAsWrittenBreaks | max_flow/PathTreeRework.py:224-225 | for any two tree tops, the state `link` leaves as written is never well formed, while the intended link is |
| PathTrees.PathForest.Link | max_flow/PathTreeRework.py:220-226 | both nodes are splayed; when they are in different trees, x becomes a dashed child of `other` with `other` as next node; costs are kept; otherwise false |
| PathTrees.PathForest.LinkTops | max_flow/PathTreeRework.py:224-226 | for two tops of different trees, the forest becomes exactly the intended link: x a dashed child of `other` with `other` as next node, every cost kept |
| PathTrees.PathForest.FindMin | max_flow/PathTreeRework.py:170-203 | the result (splayed, no parent) lies on x's path, before its last node unless the path has one node; None is 'Invalid cost data' |
| PathTrees.PathForest.MinWalk | max_flow/PathTreeRework.py:173-201 | the root itself when it has no left child, else a node of its left subtree; failure exactly when a node with `delta_min > 0` lacks a left child |
| PathTrees.PathForest.CutNext | max_flow/PathTreeRework.py:144-149 | returns x's cost and the node that followed x on x's root path before the call, splayed (NIL when x was the root of its tree); costs are kept |
| PathTrees.PathForest.CutStem | max_flow/PathTreeRework.py:146-149 | the returned node directly follows x in x's old sequence, or NIL when x was last |
| FlowNetworks.HasCapacity | max_flow/rework.py:54-56 | as intended: `R[u][v]` when nonzero, otherwise the flow `F(v, u)` that could be cancelled; nonzero iff either is |
| FlowNetworks.HasCapacityAsWritten | max_flow/rework.py:54-56 | as written: `R[u][v]` when nonzero, otherwise 0 when `R[v][u]` is 0, otherwise `F(v, u)`; nonzero iff `R[u][v]` is, or `R[v][u]` and `F(v, u)` both are |
| FlowNetworks.CapacityReadingsDiffer | max_flow/rework.py:56 | the two readings differ exactly when both residuals are 0 and (v, u) has capacity, that is when the edge v→u is saturated |
| FlowCounterexample.AsWrittenStalls | max_flow/rework.py:56 | on the 8-vertex network after the first phase, the as-written capacity from b back to a is 0 although (a, b) carries a unit, no as-written capacity leaves {s, c, d, b}, and the flow out of s is 1 |
| FlowCounterexample.CorrectedAugments | max_flow/rework.py:56 | on the same residuals the corrected capacity admits the path s c d b a e f t, and pushing along it gives a flow of 2 out of s |
| FlowNetworks.ExitEdge | max_flow/rework.py:75 | a forward edge carries `R[u][v]`; a reverse edge (`R[u][v] == 0`) carries `F(v, u)` |
| FlowNetworks.ExitsBelowMeans | max_flow/rework.py:72-79 | an edge to v is collected exactly when v may join the level and u has capacity to v |
| FlowNetworks.ExitsTargets | max_flow/rework.py:72-79 | the targets of `exits[u]` are exactly the vertices that join through u |
| FlowNetworks.UpdatedResidual | max_flow/rework.py:45-52 | forward: `R[u][v] = d`; reverse: `R[v][u] = C[v][u] - d`, so the flow becomes d; exactly one cell changes |
| FlowNetworks.RemoveFirst | max_flow/rework.py:135-136 | `list.remove`: the first occurrence goes, one element shorter; unchanged when absent |
| FlowNetworks.FirstEdgeTo | max_flow/rework.py:123-125 | some edge to v iff one exists, and it is the first one |
| FlowNetworks.NoFlowYet | max_flow/rework.py:13-28 | with `R` a copy of `C`, the outflow of s is 0 |
| FlowNetworks.ClosedKeepsPaths | max_flow/rework.py:62-69 | when every residual edge out of a levelled vertex ends at a levelled vertex, every residual path from a levelled vertex stays levelled |
| Dinic.Network.constructor | max_flow/rework.py:12-23 | `R` a copy of `C`, no exits or entrances, s alone on level 0 |
| Dinic.Network.UpdateEdge | max_flow/rework.py:45-52 | `R` becomes `UpdatedResidual`; nothing else changes |
| Dinic.Network.RemoveEdge | max_flow/rework.py:129-136 | 'Tree edge lacks corresponding graph edge' exactly when `exits[u]` has no edge to v; otherwise the first such edge and u's first entrance are removed, and `R` changes only when d is given |
| Dinic.Network.BuildExits | max_flow/rework.py:72-79 | `exits[u]` becomes the edges to the vertices that may join level ii; they join it with u recorded as an entrance; IndexError exactly when ii is past the last level and a vertex would join |
| Dinic.Network.CollectExits | max_flow/rework.py:72-79 | the comprehension's list, entrances and level records, vertex by vertex |
| Dinic.Network.BuildLevel | max_flow/rework.py:71-79 | level ii is exactly the vertices some vertex of level i lets join, with matching exits and entrances |
| Dinic.Network.BuildAll | max_flow/rework.py:71-79 | the `for u in levels[i]` loop builds every vertex's exits in turn |
| DinicState.JoinedAll | max_flow/rework.py:71-79 | the vertices collected are exactly the next level |
| DinicState.LevelsAgreeGrown | max_flow/rework.py:34-38 | `level_of` and `levels` still agree after joining, and so each vertex has at most one level |
| Dinic.Network.RemoveSaturatedEdge | max_flow/rework.py:138-148 | u is cut; with a next node v, the edge u→v is removed with its residual set to u's cost; at s without a next node the result is NIL; 'Edge not on path' otherwise |
| Dinic.Network.Augment | max_flow/rework.py:153-162 | when s's path is the top one, the cost d of the node `find_min` picks is taken off s and every node after it on the path; every node cut on the way has its edge's residual set to its cost; residuals change only through level-graph edges, which only leave, and next nodes are only cleared |
| Dinic.Network.Bottleneck | max_flow/rework.py:154-159 | d is the old cost of the node `find_min` gives; when s's path is the top one that node lies on it, and exactly s and the nodes after it lose d while every other cost is kept; None is 'Invalid cost data' |
| Dinic.Network.MinCost | max_flow/rework.py:154-155 | the node `find_min` gives, splayed, with its cost before the call; on the top path its sequence is s's path; costs are kept |
| Dinic.Network.Saturate | max_flow/rework.py:160-162 | every node cut since the push has its edge's residual set to its cost, every cut node other than the first has cost 0, next nodes are only cleared and costs are kept |
| Dinic.Network.Trim | max_flow/rework.py:159-162 | the loop cuts only nodes of cost 0 and sets each one's edge residual to its cost, keeps every cost, only clears next nodes and only removes exits and entrances |
| Dinic.Network.TrimStep | max_flow/rework.py:161-162 | one pass: v is cut with its residual written back and the exits strictly shrink, keeping the facts of the loop |
| Dinic.Network.Retreat | max_flow/rework.py:169-181 | `entrances[v]` ends empty; every entrance whose next node was v is cut, its edge's residual set to its cost and its cost made 0; every other node keeps its cost |
| Dinic.Network.RetreatStep | max_flow/rework.py:171-181 | one removal keeps the retreat's facts: cut nodes written back with cost 0, the rest unchanged |
| Dinic.Network.RetreatEdge | max_flow/rework.py:172-181 | one entrance u: when its next node is v, u is cut with cost 0 and `R` becomes the write-back of u's old cost to the first edge to v; otherwise `R` is unchanged; the edge and entrance are removed |
| DinicState.RetreatedStep | max_flow/rework.py:171-181 | the retreat invariant is kept by each removal |
| Dinic.Network.Detach | max_flow/rework.py:176-178 | `find_cost; cut; add_cost(-d)`: u leaves its next node with cost 0, d was its cost, and every other cost is kept |
| Dinic.Network.Flush | max_flow/rework.py:185-189 | every next node is cleared, each tree edge's residual is set to its node's cost, exactly one level-graph edge is removed per tree edge, and no cost changes |
| Dinic.Network.FlushStep | max_flow/rework.py:186-189 | one pass carries the loop's facts from u to u + 1 |
| Dinic.Network.FlushOne | max_flow/rework.py:186-189 | for node u with a next node, its first edge there gets u's cost as residual and u is cut; without one nothing changes |
| Dinic.Network.SendBlockingFlow | max_flow/rework.py:103-189 | the loop runs until s has no exit left; residuals change only through level-graph edges, exits and entrances only lose entries, and levels are untouched |
| DinicState.ShrunkTrans | max_flow/rework.py:150-183 | "only lost edges, wrote only through them" composes across loop steps |
| Dinic.Network.Reset | max_flow/rework.py:85-95 | every level and entrance list is emptied and s is alone on level 0 |
| DinicState.PhaseStep | max_flow/rework.py:96-98 | when t did not join level i + 1, the invariant holds one level up |
| DinicState.PhaseEnd | max_flow/rework.py:69 | once the level to extend is empty (or past the last), no s–t path has nonzero capacity at every step |
| Dinic.Network.Solve | max_flow/rework.py:81-95 | after the blocking flow and reset, the phase invariant holds at level 0 |
| Dinic.Network.Advance | max_flow/rework.py:81-98 | solve when t joined level i + 1, otherwise move up a level |
| Dinic.Network.Round | max_flow/rework.py:71-98 | one pass of the main loop keeps the phase invariant |
| Dinic.Network.Run | max_flow/rework.py:69-98 | when the loop ends, no s–t path has nonzero capacity at every step; IndexError (`NoSuchLevel`) when the levels run out, which a lone vertex with s == t reaches |
| Dinic.FindMaxFlowAsWritten | max_flow/rework.py:8-101 | the result is the flow out of s over the final residuals, and no s–t path with nonzero capacity at every step remains; `find_max_flow(0, 0, [[0]])` fails |
| Dinic.FindMaxFlow | max_flow/rework.py:8-101 | the same, with the level loop also stopping when the levels are used up |
| Normalization.Normalize | max_flow/normalize_flow_graph.py:3-26 | fails exactly when several sources include index len(C); otherwise the result is square, of size len(C) + [several sources] + [several sinks] |
| Normalization.NormalizeFlowGraph | max_flow/normalize_flow_graph.py:3-26 | the loops over the copied matrix give exactly `Normalize` |
| Normalization.WithSuperSource | max_flow/normalize_flow_graph.py:11-15 | the appended zeros and the new row give exactly `AddSource` |
| Normalization.WithSuperSink | max_flow/normalize_flow_graph.py:21-24 | the appended column and zero row give exactly `AddSink` |
| Normalization.AddSourceKeeps | max_flow/normalize_flow_graph.py:12-15 | C stays in the corner; the new row holds `sum(C[v])` for each source and 0 elsewhere; no edge enters the super-source |
| Normalization.AddSinkKeeps | max_flow/normalize_flow_graph.py:21-24 | the matrix stays in the corner; the new column holds each sink's column sum; the new row is zero |
| Normalization.NormalizeMeans | max_flow/normalize_flow_graph.py:5-26 | C is unchanged in the corner; one source or sink is returned as given, an added one at the next free index |
| Normalization.NormalizeSourceRow | max_flow/normalize_flow_graph.py:11-15 | with several sources, the super-source row holds each source's total capacity and its column is zero |
| Normalization.NormalizeSinkColumn | max_flow/normalize_flow_graph.py:21-24 | with several sinks, the super-sink column holds each sink's incoming total and its row is zero |
| SplayTrees.Rotate | util/data_structures/SplayTreeNode.py:19-34 | with no parent, nothing changes and the result is None; otherwise the rotation's surgery and (grandparent, side) |
| SplayLinks.RotationAround | util/data_structures/SplayTreeNode.py:27-33 | x takes p's slot under the grandparent, p becomes x's child opposite `side`, x's former child there moves to p; no other links change |
| SplayShapes.RotateUpKeeps | util/data_structures/SplayTreeNode.py:27-33 | a rotation keeps the in-order keys, the node set and distinctness |
| SplayLinks.RotatedSubtree | util/data_structures/SplayTreeNode.py:27-33 | the arena holds the rotated subtree at x, below the grandparent |
| SplayTrees.SplayUp | util/data_structures/SplayTree.py:114-123 | x ends at the top with the same keys in the same order and the same nodes; no other node changes |
| SplayTrees.SplayTree.Splay | util/data_structures/SplayTree.py:114-123 | x becomes root and `Contents()` is unchanged |
| SplayTrees.SplayTree.Search | util/data_structures/SplayTree.py:100-112 | the node holding item iff item is present; else NIL with the parent and side of the empty slot, every key before it smaller and every key after it larger |
| SplayShapes.SearchStep | util/data_structures/SplayTree.py:104-110 | each step keeps the tree and keeps item between the keys before and after the position |
| SplayShapes.SearchNeighbour | util/data_structures/SplayTree.py:59-60 | where a search for a missing item ends, the parent's key is its nearest neighbour |
| SplayTrees.AccessChoice | util/data_structures/SplayTree.py:55-60 | the node `access` picks holds item, or is the parent of the empty slot where item belongs: its key is above item on a LEFT slot and below it on a RIGHT one |
| SplayTrees.SplayTree.Access | util/data_structures/SplayTree.py:54-65 | NIL iff the tree is empty; otherwise the result is root and holds item, or a key with no other key between it and item; keys unchanged |
| SplayTrees.SplayTree.AccessTarget | util/data_structures/SplayTree.py:55-60 | for an absent item, the node picked is the last one on the search path: item is below its key with no left child there, or above it with no right child |
| SplayTrees.SplayTree.Insert | util/data_structures/SplayTree.py:67-80 | ValueError iff item is present (tree unchanged); otherwise the new root holds item and the keys gain exactly item, still increasing |
| SplayTrees.SplayTree.Place | util/data_structures/SplayTree.py:73-78 | the new node goes into the empty slot, then is splayed unless it is the root |
| SplayTrees.SplayTree.AddLeaf | util/data_structures/SplayTree.py:73-77 | the leaf is held in the searched slot and the keys gain exactly item |
| SplayShapes.LeafValues | util/data_structures/SplayTree.py:73-77 | a key strictly between its neighbours keeps the keys increasing when placed in the empty slot |
| SplayLinks.LeafPlaced | util/data_structures/SplayTree.py:74-77 | the arena holds the whole tree with the new leaf in place |
| SplayTrees.SplayTree.Emptiness | util/data_structures/SplayTree.py:61-62 | the root is NIL exactly when the tree holds no key |
| SplayTrees.SplayTree.Delete | util/data_structures/SplayTree.py:82-98 | ValueError iff item is absent (tree unchanged); otherwise the keys lose exactly item, still increasing |
| SplayTrees.SplayTree.Remove | util/data_structures/SplayTree.py:88-96 | the node's subtrees are joined and put in its slot, and the parent is splayed |
| SplayTrees.SplayTree.Detach | util/data_structures/SplayTree.py:88-90 | both subtrees are given up and joined into one tree holding their nodes and keys in order |
| SplayShapes.DropValues | util/data_structures/SplayTree.py:88-93 | removing a node's key leaves the rest in increasing order |
| SplayLinks.Unhung | util/data_structures/SplayTree.py:88-89 | after both `give`s, each subtree is held on its own with no parent |
| SplayLinks.Replaced | util/data_structures/SplayTree.py:92-93 | the parent holding the joined tree in the removed node's slot yields the whole tree |
| SplayTrees.Join | util/data_structures/SplayTree.py:26-52 | for left keys below right keys, the result holds both node sets and the keys `left ++ right`; with both trees present the left maximum is the top and right its right subtree; nothing else changes |
| SplayTrees.SplayMax | util/data_structures/SplayTree.py:39-45 | the maximum of the left tree is splayed to its top and has no right child |
| SplayTrees.Graft | util/data_structures/SplayTree.py:38-47 | the right tree hangs as the RIGHT child of the left maximum |
| SplayLinks.Hung | util/data_structures/SplayTree.py:46 | the right tree is held as the top's RIGHT child |
| SplayShapes.IncreasingUnique | util/data_structures/SplayTree.py:100-112 | an increasing sequence is fixed by its elements |
| SplayShapes.AccessedLeast | util/data_structures/__test__/test_SplayTree.py:7 | `access(0)` on non-negative keys picks the smallest key |
| SplayShapes.DeletedHead | util/data_structures/__test__/test_SplayTree.py:10 | deleting the smallest key leaves the rest in order |
| SplayTrees.Drain | util/data_structures/__test__/test_SplayTree.py:5-10 | repeated `access(0)` and delete yields the keys in increasing order and empties the tree |
| SplayTrees.Scenario | util/data_structures/__test__/test_SplayTree.py:4-10 | inserting 0, 50, 20, 5, 30 and 15, then deleting 30 and draining, yields [0, 5, 15, 20, 50] |

## Left out

- Weak references (`BSTNode._parent_ref`) are plain parent indices; garbage collection is not modelled.
- The NULL object is the index NIL. Its effects are written out where the code relies on it absorbing calls:
  - a missing grandparent in `rotate`;
  - a NULL child or evicted node in `swap`;
  - `remove_saturated_edge` returning NULL, which ends the trim loop.
- Python's `is` on integers (`is_on_level`) is treated as equality.
- The list order of `middle` is not modelled: it is a set per node, because the source only appends and removes by identity and never reads the order.
- `PathTrees.PathForest.FindMin`: does not claim the node found has the minimum cost on the path. After `add_cost` or `cut` at a node with a left subtree, `delta_min` is no longer exact in the source, so only membership in the path is proved.
- `PathTrees.PathForest.Link`: when both nodes are in one tree (the source would build a cycle), the model refuses and returns false, and the Dinic model reports `SameTree`. It is not proved that Dinic never links within one tree.
- `Dinic.Network.SendBlockingFlow`: does not claim that the flow sent is blocking or that it respects capacities and conservation. It proves that the loop ends with no exit left at s, that residuals change along level-graph edges alone and that the level graph only loses edges; the write-back of each cut edge is stated by the steps (`Augment`, `Retreat`, `Flush`), not carried to the end of the loop.
- `Dinic.Network.Augment`: the cost push is stated only when s's solid tree is the top one, as `find_root` leaves it in the source; the node m cut first is not stated to have cost 0 after the push.
- `Dinic.Network.Augment`, `Dinic.Network.Saturate` and `Dinic.Network.Flush`: the residual write-back is stated for every cut node k whose next node v does not have k as its own next node. Well-formedness of the forest does not tie next nodes to the trees, so such a two-node cycle is not excluded, and there the two write-backs could hit the same matrix cell.
- `Dinic.FindMaxFlow`: does not prove that the result is the maximum flow. As written it is not (see Findings: `has_capacity` cannot cancel flow on a saturated edge). The model uses the corrected `has_capacity` throughout the level build, and proves that the result is the outflow of s and that no s–t path with nonzero corrected capacity remains at the end. That `R` stays a valid flow (capacity bounds, conservation) is not carried as an invariant, so maximality by the max-flow min-cut theorem is not concluded. The test values 2, 6, 4 and 16 and the agreement with the push-relabel oracle are not proved.
- `Dinic.Network.Run`: the `while True` of `send_blocking_flow` and the phase loop of `find_max_flow` run under a `fuel` bound, and exhausting it is the `OutOfFuel` failure. Termination of the real algorithm is not proved.
- `Dinic.Network.BuildLevel`: the entrance lists are specified by membership, not by their order or multiplicity.
- The `LevelOverflow` IndexError (a vertex joining a level past n - 1) is modelled but not proved unreachable.
- `exits` of vertices off the current levels keep stale entries from earlier phases, as in the source. The model does not say more about them than that they are lists of edges.
- `set_level_of`, `set_entrance` and `is_on_level` are inlined into the level build. `F` is `FlowNetworks.Flow`.
- Callers must pass a square matrix and vertex indices in range (`IsSquare`, `0 <= s < n`): the source indexes those without checking.
- `Normalization.Normalize`: the input is a value, so the copy at line 5 and the absence of aliasing are given, not proved.
- `SplayTrees.Join`: requires left keys below right keys, the condition the docstring places on callers. It also requires disjoint node sets.
- `SplayTrees.SplayTree.constructor`: builds only the empty tree, so the RuntimeError for a non-root node is not modelled. Inside `delete` and `join`, the trees wrapped around subtrees are roots held as indices.
- Splay-tree nodes removed by `delete` stay in the arena, unreachable.
- Splay-tree keys are integers, not any ordered type.
- The push-relabel oracle (`max_flow/third_party_code/verified.py`, floating-point infinity) is not part of this model. Neither are the superseded copies `max_flow/solution.py`, `max_flow/PathTree.py`, `max_flow/max_flow.py`, `max_flow/Edge.py` and the root-level `SplayTree.py`.
- Amortised complexity, timing, randomness and the tests' printing are not modelled.

## Findings

| source | as written | input that shows it | evidently intended | confidence | as-written member | corrected member |
|---|---|---|---|---|---|---|
| max_flow/PathTreeRework.py:35 and :225 | `adopt_middle` and `link` assign `child.parent = self`, but `parent` is a getter-only property of `BSTNode`, so the assignment raises AttributeError after the child was appended to `middle` | any `link` of two tree tops, e.g. the first Advance step of `find_max_flow(0, 1, [[0, 2], [0, 0]])`; any `_splice` that evicts a left child | the child's parent link points at the new dashed parent (and, in `link`, `next_in_path` is set) | high that the property has no setter; not executed | PathLinks.AdoptAsWritten, PathLinks.AdoptAsWrittenBreaks, PathLinks.LinkAsWrittenBreaks | PathTrees.PathForest.AdoptMiddle, PathLinks.LinkKeeps, PathTrees.PathForest.Link |
| max_flow/rework.py:56 | `has_capacity` is `R[u][v] or (R[v][u] and F(v, u))`, so once an edge a→b is saturated (`R[a][b] == 0 == R[b][a]`) the way back from b to a has capacity 0 and its flow can never be cancelled | capacity 1 on s→a, a→b, b→t, s→c, c→d, d→b, a→e, e→f, f→t (s = 0, …, t = 7): the first phase sends 1 along s a b t, the second cannot reach t, and 1 is returned while the maximum is 2 | `R[u][v] or F(v, u)`: a unit of flow on (v, u) can always be sent back | high; not executed | FlowNetworks.HasCapacityAsWritten, FlowCounterexample.AsWrittenStalls | FlowNetworks.HasCapacity, FlowCounterexample.CorrectedAugments |
| max_flow/rework.py:69 | `while len(levels[i]) > 0` reads `levels[n]` once the levels are used up, raising IndexError | `find_max_flow(0, 0, [[0]])` | stop the loop when no level is left, returning the flow out of s | medium; not executed | Dinic.FindMaxFlowAsWritten | Dinic.FindMaxFlow |
