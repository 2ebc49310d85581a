# TMTree treemap model

A Dafny model of the `TMTree` class of `tm_trees.py`. It also covers the
`FileSystemTree` suffix rule. A `TMTree` is a weighted tree of named nodes
with links back to each parent. The treemap visualiser lays it out as nested
rectangles, shows it and lets the user change it.

The model keeps every node in an arena, and a node is named by its index.
Each attribute of a `TMTree` is one column:

- `names` holds `_name`; `None` marks the empty tree.
- `sizes` holds `data_size`.
- `kids` holds `_subtrees`, in order.
- `parents` holds `_parent_tree`.
- `rects` holds `rect`.
- `expanded` holds `_expanded`.
- `colours` holds `_colour`.

One arena can hold several trees. A tree is identified with its root node.

`Valid()` is the structural invariant of the class `TMTrees.TMForest`.
Each method that requires it keeps it, with one exception: `ChangeSize`
keeps it unless it grows the empty tree. `UpdateDataSizes` needs only the
shape part of it and keeps that part; validity after it is proved in the
lemma `TMTrees.UpdatedSizes`. The parts of `Valid()` are:

- Every child is a node, ranked strictly below its parent. The rank is a
  ghost acyclicity witness and serves as the termination measure.
- Parent links and child lists agree. A child is listed once.
- The empty tree has no children, no parent and size 0.
- Colours are in 0-255.

The other representation invariants of tm_trees.py:60-76 are separate
predicates: non-negative sizes, sizes consistent with the children, and the
visibility rules. The source does not keep all of them at every step.
`move`, for one, leaves ancestor sizes stale until `update_data_sizes` runs.
So the lemmas state under which conditions each operation keeps them.

The displayed rectangles need not cover the tree's rectangle. The last child
of a folder takes the rest of the axis even when its size is 0. A node of
size 0 places itself at a point and is not displayed, so that rest is shown by
no node. `get_tree_at_position` then returns None at a point inside the
tree's rectangle, although its docstring (tm_trees.py:217-219) promises None
only outside it. The model follows the code: `Coverage.UncoveredPoint` lays
out a folder of size 3 over leaves of sizes 1, 1, 1 and 0 in (0, 0, 5, 2).
Nothing is displayed at the interior point (4, 1).

Modules:

- `Trees` holds the data model, the invariants and the subtree sets.
- `Sizes` covers size aggregation and the `change_size` rule.
- `Construction` covers `__init__` as an arena extension.
- `Moves` covers `move` as a function on the arena.
- `Treemap` covers the layout of `update_rectangles` and `_is_last`.
- `Display` covers `get_rectangles`, `_list_rec`, `_in_rec` and `get_tree_at_position`.
- `Paths` covers `get_path_string` and `get_suffix`.
- `Coverage` holds a concrete layout whose displayed rectangles leave part of the tree's rectangle uncovered.
- `TMTrees` holds the class whose methods mirror the mutating `TMTree` methods.

Where the source loops, the model loops too: accumulating loops, the walk
up the parents, and the strip loop of the layout. Each such method is
proved against a recursive function, and the lemmas state the properties of
that function.

## Model

| member | source | states |
|---|---|---|
| TMTrees.TMForest.constructor | tm_trees.py:27-85 | an empty arena is valid |
| TMTrees.TMForest.AddNode | tm_trees.py:87-123 | `__init__`: the new node is appended with size 0 (empty tree), the given size (leaf) or its recomputed size (internal). It starts collapsed with rectangle (0,0,0,0), becomes the parent of each child, and the arena stays valid. |
| TMTrees.TMForest.AddedValid | tm_trees.py:109-123 | the object left by `__init__` is valid, and the new size equals the recomputed size after linking |
| Construction.Reparent | tm_trees.py:122-123 | after linking, exactly the listed children have the new node as parent; every other link is unchanged |
| Construction.LinkParents | tm_trees.py:122-123 | the parent-setting loop computes `Reparent` |
| Construction.AddedOk | tm_trees.py:87-123 | appending a node over distinct named roots keeps the arena well formed. The size computed before linking equals the one after. |
| Construction.AddedConsistent | tm_trees.py:62-63 | on consistent sizes, a new internal node gets the sum of its children's stored sizes (lines 114-118), and sizes stay consistent |
| Construction.AddedNonNegative | tm_trees.py:61 | non-negative sizes stay non-negative when the given leaf size is non-negative |
| Construction.AddedExpansion | tm_trees.py:73-76 | a new collapsed node over collapsed trees keeps the visibility invariant |
| Sizes.GetDataSize | tm_trees.py:126-138 | `_get_data_size`'s loop returns the recomputed size `DataSize`: 0 for the empty tree, the stored size of a leaf, the sum over the children otherwise |
| Sizes.DataSizeFromLeaves | tm_trees.py:126-138 | the recomputed size depends only on the structure and the sizes of named leaves |
| Sizes.ConsistentDataSize | tm_trees.py:62-63 | when sizes are consistent, the recomputed size of every node is its stored size |
| Sizes.DataSizeNonNegative | tm_trees.py:61 | non-negative leaf sizes give non-negative recomputed sizes |
| Sizes.DataSizeExtend | tm_trees.py:87-123 | appending nodes changes no existing node's recomputed size |
| Sizes.NewNodeDataSize | tm_trees.py:114-118 | a node built over consistently sized trees recomputes to the sum of their stored sizes |
| Sizes.UpdatedConsistent | tm_trees.py:270-284 | once each subtree node holds its recomputed size, every internal node of the subtree holds the sum of its children's sizes |
| TMTrees.TMForest.UpdateDataSizes | tm_trees.py:270-284 | returns the node's recomputed size (0 for the empty tree, the size of a leaf). It stores the recomputed size at every named node of the subtree and changes nothing else. |
| TMTrees.UpdatedSizes | tm_trees.py:270-284 | after `update_data_sizes`: the arena stays well formed, every internal node of the subtree holds the sum of its children's sizes, and an already consistent arena is unchanged |
| TMTrees.SizingLeaf | tm_trees.py:276-279 | on the empty tree or a leaf, nothing is written, and the result is 0 or the leaf's own size |
| TMTrees.TMForest.Move | tm_trees.py:287-296 | when the node is a leaf and `dest` has children, the arena becomes `Moved`. Otherwise it is unchanged. The arena stays valid either way. |
| Moves.MovedKids | tm_trees.py:292-293 | the old parent's list loses the leaf at its first position, and `dest`'s list gains it at the end. When the two are the same list, the leaf moves to its end. No other list changes. |
| Moves.KidsMoved | tm_trees.py:292-293 | after a move the leaf is the last child of `dest` and the child of no other node. Other children stay where they were, only two lists change, and no list has a repetition. |
| Moves.MovedLists | tm_trees.py:287-296 | the same facts on a well-formed arena |
| Moves.MovedShaped | tm_trees.py:287-296 | with the moved leaf at rank 0, every child still ranks below its parent |
| Moves.MovedWf | tm_trees.py:287-296 | a move keeps the arena well formed, and puts the leaf in the same tree as `dest` |
| Moves.MovedExpansion | tm_trees.py:73-76 | after a move the visibility invariant holds exactly when the old parent keeps a child or was collapsed |
| TMTrees.TMForest.MovedValid | tm_trees.py:287-296 | the object left by `move` is valid |
| TMTrees.TMForest.ChangeSize | tm_trees.py:299-317 | a node with children is unchanged, and a leaf takes `Resized`. Validity is kept unless the empty tree grows, and non-negative sizes stay so for factors of at least -1. |
| Sizes.CeilDiv | tm_trees.py:308 | the result is the ceiling of the quotient |
| Sizes.ResizedGrows | tm_trees.py:307-317 | a positive factor always makes a non-negative size grow: 0 becomes 1, otherwise the rounded-up product |
| Sizes.ResizedShrinks | tm_trees.py:307-317 | a negative factor never makes a size grow, and strictly shrinks every size above 1 |
| Sizes.ResizedCorrection | tm_trees.py:309-315 | the forced correction moves the size by at most one and never below 1. It moves it exactly when factor > 0, or factor < 0 and size > 1. |
| Sizes.ResizedZero | tm_trees.py:299-317 | a zero factor leaves the size alone |
| Sizes.ResizedEmpty | tm_trees.py:299-317 | a size of 0 moves only for a positive factor, and then to 1 |
| Sizes.ResizedNonNegative | tm_trees.py:61 | a factor of at least -1 keeps a non-negative size non-negative |
| Sizes.ResizedHalfOfOne | tm_trees.py:309-315 | size 1 with factor -1/2 stays 1 |
| TMTrees.TMForest.Expand | tm_trees.py:320-327 | the node is expanded iff it has children. Nothing else changes, and validity is kept. |
| TMTrees.ExpandOk | tm_trees.py:73-76 | expanding a root, or a node whose parent is expanded, keeps the visibility invariant |
| TMTrees.TMForest.CollapseChildren | tm_trees.py:342-352 | exactly the nodes of the subtree become collapsed, and no other node changes |
| TMTrees.TMForest.Collapse | tm_trees.py:330-339 | a no-op on a root. Otherwise the parent's subtree is collapsed and nothing else changes. Validity and the visibility invariant are kept. |
| TMTrees.CollapsedSubtreeOk | tm_trees.py:73-76 | collapsing a whole subtree keeps well-formedness and the visibility invariant |
| TMTrees.TMForest.ExpandAll | tm_trees.py:354-363 | every subtree node is expanded iff it has children, other nodes are unchanged, and validity is kept |
| TMTrees.ExpandedSubtreeOk | tm_trees.py:73-76 | expand-all under an expanded parent or at a root keeps the visibility invariant |
| TMTrees.TMForest.CollapseAll | tm_trees.py:365-372 | climbs to the root and collapses exactly that root's tree. Every node of the tree ends collapsed and other trees are untouched. |
| Trees.Root | tm_trees.py:369-371 | the node reached by following parent links has no parent |
| Trees.RootDesc | tm_trees.py:365-372 | every node lies in the subtree of its root |
| Trees.EmptyAlone | tm_trees.py:67-69 | the empty tree has no children, no parent and size 0, and no node lists it |
| Trees.CollapsedKids | tm_trees.py:74-75 | a collapsed node has no expanded child |
| Trees.OnlyListedByParent | tm_trees.py:71 | a node is listed only by its parent |
| Trees.SiblingsDisjoint | tm_trees.py:53-56 | the subtrees of two different children share no node |
| Trees.RemoveFirst | tm_trees.py:293 | `list.remove` drops one element when it is present and keeps all others |
| Trees.RemoveFirstAt | tm_trees.py:293 | removing the first occurrence at index `i` leaves the rest in order |
| Treemap.FloorDiv | tm_trees.py:165-177 | the result is the floor of the quotient, for either sign of divisor |
| Treemap.IsLastIff | tm_trees.py:187-195 | `_is_last`'s identity test against the last listed sibling holds exactly at the final child index. There the strip takes the rest of the axis. |
| TMTrees.TMForest.UpdateRectangles | tm_trees.py:146-185 | the loop's rectangles equal `Layout`, and nothing but rectangles changes |
| Treemap.LayoutSelf | tm_trees.py:154-159 | the empty tree gets (0,0,0,0), size 0 gets (x,y,0,0), and anything else gets the given rectangle. For the empty tree and size 0, no other rectangle changes. |
| Treemap.LayoutFrame | tm_trees.py:146-185 | laying out a subtree changes no rectangle outside it |
| Treemap.LayoutStrips | tm_trees.py:161-185 | child k of the node being laid out, if that node is named and of non-zero size, is placed in strip k. Strips run along the width when width > height and along the height otherwise. Deeper levels follow through `Treemap.LayoutNested`. |
| Treemap.LayoutNested | tm_trees.py:146-185 | the recursive call of line 172 or 180: inside the subtree of child k, the node's layout equals child k's own layout in strip k. With `LayoutStrips` this places every descendant, level by level, in a strip of its parent's rectangle. |
| Treemap.LayoutGrandchild | tm_trees.py:146-185 | two levels down: a grandchild under a named child of non-zero size is placed in its strip of the child's strip |
| Treemap.LayoutLocal | tm_trees.py:146-185 | the rectangle a layout leaves at a node depends on the starting rectangles only through that node's own |
| Treemap.StripsTile | tm_trees.py:161-185 | each strip starts where the previous ends, the first at the origin, and together they cover the axis exactly |
| Treemap.StripsNonNegative | tm_trees.py:61-63 | with non-negative child sizes summing to the parent's positive size, no strip has negative length |
| Treemap.OffsetBelowShare | tm_trees.py:165-177 | the floored shares of the first k children never exceed the floored share of their sum |
| Display.GetRectangles | tm_trees.py:198-213 | the loop returns `Displayed`: nothing for size 0, the node for a collapsed node, and the children's entries in order for an expanded node |
| Display.ListRec | tm_trees.py:241-257 | the loop returns `Hits`, which is `Displayed` filtered by `_in_rec` |
| Display.InRec | tm_trees.py:259-267 | containment is inclusive on all four edges |
| Display.SharedEdge | tm_trees.py:216-223 | a point on the edge two adjacent rectangles share lies in both |
| Display.HitsSound | tm_trees.py:241-267 | every hit is a node of the subtree with non-zero size, collapsed, whose rectangle contains the point |
| Display.HitsAreDisplayed | tm_trees.py:198-257 | the entries of the hits are exactly the displayed entries containing the point, in order |
| Display.GetTreeAtPosition | tm_trees.py:216-238 | None iff nothing is hit. Otherwise the first hit whose top-left corner is closest to the origin. |
| Trees.IsEmpty | tm_trees.py:141-144 | `is_empty`: the node's name is None |
| Sizes.DataSize | tm_trees.py:126-138 | the size `_get_data_size` recomputes: 0 for the empty tree, the stored size of a leaf, the sum over the children otherwise |
| Sizes.KidsDataSize | tm_trees.py:134-137 | the accumulated sum over the first `i` children |
| Construction.Added | tm_trees.py:87-123 | the arena after `__init__`: the new node appended with its name, children, size, colour, collapsed, as parent of its children and without parent |
| Moves.Moved | tm_trees.py:291-296 | the arena after `move` acts: append to `dest`, remove the first occurrence from the old parent, zero the old parent's size if it has no child left, relink the parent |
| Moves.Movable | tm_trees.py:291 | the case in which `move` acts, on a well-formed arena |
| Sizes.Resized | tm_trees.py:307-317 | the `change_size` rule: the rounded-up product, or a forced step of one when that equals the old size |
| Treemap.Share | tm_trees.py:162-177 | the floored share of the axis for a child's size out of the parent's |
| Treemap.StripOffset | tm_trees.py:161-185 | where strip `k` starts: the sum of the earlier shares |
| Treemap.StripLength | tm_trees.py:168-180 | the length of strip `k`: its share, or the rest of the axis for the last child |
| Treemap.StripRect | tm_trees.py:166-183 | strip `k` along the width when width > height, along the height otherwise, with the other dimension kept |
| Treemap.IsLastDim | tm_trees.py:187-195 | `_is_last`: the rest of the axis for the child that is the last entry of its parent's list, the floored share otherwise |
| Treemap.Placed | tm_trees.py:150-159 | the rectangle a node gives itself: (0,0,0,0) for the empty tree, (x,y,0,0) for size 0, the given rectangle otherwise |
| Treemap.Layout | tm_trees.py:146-185 | the rectangles after `update_rectangles` on a node |
| Treemap.LayoutKids | tm_trees.py:161-185 | the strip loop over the children from the `i`-th on, with its running position and totals |
| Display.Displayed | tm_trees.py:198-213 | the entries `get_rectangles` returns: none for size 0, the node itself when collapsed, the children's entries in order when expanded |
| Display.DisplayedKids | tm_trees.py:211-212 | the entries of the first `i` children, concatenated |
| Display.Hits | tm_trees.py:241-257 | the nodes `_list_rec` returns: none for size 0, the node itself when collapsed and under the point, the children's hits in order when expanded |
| Display.HitsKids | tm_trees.py:255-256 | the hits of the first `i` children, concatenated |
| Paths.Tail | tm_trees.py:382-391 | the suffix a path gets: at a root only when final, below a root when final or at a leaf |
| Paths.FileSuffix | tm_trees.py:447-453 | " (file)" for a leaf, " (folder)" otherwise |
| Paths.PathString | tm_trees.py:375-392 | defined exactly for named nodes |
| Paths.Ancestry | tm_trees.py:375-392 | the chain from the root down to the node, linked by parent links |
| Paths.PathStringJoin | tm_trees.py:375-392 | the path is the names from the root down joined by the separator, plus the node's own suffix. No ancestor adds a suffix. |
| Paths.PathStartsAtRoot | tm_trees.py:375-381 | a path begins with its root's name |
| Trees.Linked | tm_trees.py:67-71 | a child's parent is the node that lists it; a node with a parent is listed by it, and only once; the empty tree has no children, no parent and size 0 |
| Trees.NonNegative | tm_trees.py:61 | `data_size >= 0` at every node |
| Trees.Consistent | tm_trees.py:62-63 | a node with children has the sum of their sizes |
| Trees.ExpansionOk | tm_trees.py:73-76 | an expanded node has children and, unless it is a root, an expanded parent |
| Trees.Wf | tm_trees.py:60-71 | every child is a node ranked below its parent, the links agree as in `Linked`, and colours are in 0-255 (line 65) |
| TMTrees.TMForest.Valid | tm_trees.py:60-71 | the object's arena is well formed and has one rectangle per node |
| Display.SquaredDistance | tm_trees.py:231-234 | the squared distance of a rectangle's top-left corner from the origin |
| Display.FirstClosest | tm_trees.py:231-237 | `min(dst)` then `dst.index`: the hit at `k` is closest to the origin and every earlier hit is strictly farther |
| TMTrees.Recomputed | tm_trees.py:270-284 | only sizes change, every named node of the subtree holds its recomputed size, and every other node keeps its size |
| Coverage.ZeroTailOk | tm_trees.py:60-76 | the example arena, a folder of size 3 over leaves of sizes 1, 1, 1 and 0, is well formed, has non-negative consistent sizes and meets the visibility invariant |
| Coverage.ZeroTailLayout | tm_trees.py:146-195 | laid out in (0, 0, 5, 2), the leaves get (0,0,1,2), (1,0,1,2) and (2,0,1,2); the leaf of size 0 takes the 2-wide remainder strip but places itself at (3,0,0,0) |
| Coverage.UncoveredPoint | tm_trees.py:216-257 | after that layout, (4, 1) lies strictly inside the folder's rectangle, yet no displayed node contains it, so `get_tree_at_position` returns None there |

## Left out

- `FileSystemTree.__init__` reads the file system (`os.listdir`, `os.path.isdir`, `os.path.getsize`). Trees are built with `AddNode` instead, so a file system is one possible input.
- `get_separator` returns `os.sep`, which is a parameter `sep` of `PathString`. The abstract `get_separator` and `get_suffix`, which raise `NotImplementedError`, are replaced by that parameter and by `FileSuffix`.
- The colour from `randint` is an argument of `AddNode`. It must be in 0-255.
- Float arithmetic is idealised. `update_rectangles` computes `math.floor(width * sub / total)` exactly with `FloorDiv`. `change_size` takes its factor as a fraction `num / den` with `den > 0` and computes the ceiling exactly. Float rounding is not modelled, and the two differ on ordinary inputs. In IEEE double, `49 * (1 / 49)` is `0.9999999999999999`, so the source gives a child of size 1 under a parent of size 49, on a 49-wide axis, a strip of 0, where `Share` gives 1. And `9 * (1 + (-1 / 3))` is `6.000000000000001`, so `change_size(-1/3)` on a leaf of size 9 gives 7 in the source, where `Resized(9, -1, 3)` is 6. `get_tree_at_position` compares exact squared distances where the source compares `math.sqrt` of them as floats. The two choose the same hit while `x*x + y*y` stays exactly representable, below 2^53. Above that, two different squared distances can round to the same float. The source then picks the earlier hit, where the model picks the strictly closer one.
- The `self._name == ()` check in `get_path_string` can never fire for string names, so it is dropped. The empty tree, whose name is None, has the path `None` in the model. The source returns that same `None` for `get_path_string(False)` (lines 381 and 384), but with `final_node` true it fails on `None + str` at line 383.
- TMTrees.TMForest.Move: calling `move` on a root leaf fails in the source, because it has no parent. The model makes a parent a precondition in that case.
- TMTrees.TMForest.AddNode: requires its children to be distinct named roots of the arena. `__init__` does not check this. An empty-tree child would get a parent, against lines 67-69. A child that already has a parent would stay listed by its old parent while its link moves to the new node, so the old parent would list a node whose parent it is not (`Trees.Linked`). A child passed twice would be listed twice.
- Display.GetTreeAtPosition: finds a tree only where a displayed rectangle contains the point, not at every point of the tree's rectangle as the docstring at tm_trees.py:217-219 says. The code behaves the same way; `Coverage.UncoveredPoint` shows a point where the two differ.
- TMTrees.TMForest.Move: only structural validity is kept unconditionally. `move` re-sums no ancestor sizes, so consistency of sizes may break until `update_data_sizes` runs. The visibility invariant holds afterwards exactly under the condition `Moves.MovedExpansion` states. The source can leave an expanded parent without children, against line 76.
- TMTrees.TMForest.ChangeSize: growing the empty tree (size 0, factor > 0) gives it size 1, against the invariant of lines 67-69. The contract then promises nothing about validity.
- TMTrees.TMForest.UpdateDataSizes: states the new sizes through `Recomputed`. The invariants they establish are proved separately in `TMTrees.UpdatedSizes`, which also needs the arena to be well formed.
- Node identity: Python compares `TMTree` objects by identity. The arena compares indices, which amounts to the same thing.
- Trees.RemoveFirst: it is total, and returns the list unchanged when `x` is absent, where `list.remove` raises `ValueError`. `move` never reaches that case, because a valid arena always lists the leaf in its parent's children.
- The `python_ta` block and the pygame rendering are not part of the core logic.
