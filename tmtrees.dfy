/** The mutable treemap tree: one `TMForest` object holds the arena of all
    `TMTree` nodes, and each method models the `TMTree` method of the same
    name called on node `id`. The methods keep the structural invariant
    `Valid()`, except that `ChangeSize` breaks it when it grows the empty
    tree and `UpdateDataSizes` keeps only its shape part (see
    `UpdatedSizes`); the size and visibility invariants of tm_trees.py:60-76
    are kept under the conditions each method states. */
module TMTrees {
  import opened Trees
  import opened Sizes
  import opened Treemap
  import opened Construction
  import opened Moves

  class TMForest {
    var names: seq<Option<string>>
    var sizes: seq<int>
    var kids: seq<seq<nat>>
    var parents: seq<Option<nat>>
    var rects: seq<Rect>
    var expanded: seq<bool>
    var colours: seq<Colour>
    ghost var rank: seq<nat>

    /** The arena, apart from the layout rectangles. */
    function View(): Forest
      reads this`names, this`sizes, this`kids, this`parents, this`expanded, this`colours
    {
      Forest(names, sizes, kids, parents, expanded, colours)
    }

    ghost predicate Valid()
      reads this
    {
      Wf(View(), rank) && |rects| == |names|
    }

    /** An empty arena. */
    constructor ()
      ensures Valid() && names == [] && rects == []
    {
      names, sizes, kids, parents, rects, expanded, colours := [], [], [], [], [], [], [];
      rank := [];
    }

    /** `TMTree.__init__` (tm_trees.py:87-123): appends a node named `name`
        over the roots `subs` and returns it. Its size is 0 for the empty
        tree, `size` for a leaf and the recomputed size of its children
        otherwise, computed before the children are linked to it; it becomes
        the parent of each of `subs`, starts collapsed with the rectangle
        (0, 0, 0, 0) and takes the colour drawn by the caller. `AddedOk` and
        the lemmas beside it state which invariants the new node keeps. */
    method AddNode(name: Option<string>, subs: seq<nat>, size: int, colour: Colour) returns (id: nat)
      requires Valid() && (name.None? ==> subs == []) && Adoptable(View(), subs) && ColourOk(colour)
      modifies this
      ensures id == old(|names|) && |names| == id + 1 && Valid() && rank[..id] == old(rank)
      ensures View() == Added(old(View()), name, subs, sizes[id], colour)
      ensures rects == old(rects) + [Rect(0, 0, 0, 0)]
      ensures sizes[id] == if name.None? then 0 else if subs == [] then size else DataSize(View(), rank, id)
    {
      ghost var f, rf := View(), rank;
      id := |names|;
      ghost var rg := rank + [RankAbove(rank, subs, id)];
      // the node as `_get_data_size` sees it: children set, parents not yet
      var g := Forest(names + [name], sizes + [0], kids + [subs], parents + [None], expanded + [false], colours + [colour]);
      AppendedShaped(f, rf, g, rg);
      var s := 0;
      if name.None? {
      } else if subs == [] {
        s := size;
      } else {
        s := GetDataSize(g, rg, id);
      }
      var ps := LinkParents(parents, subs, id);
      names, sizes, kids, parents := g.names, sizes + [s], g.kids, ps + [None];
      rects, expanded, colours, rank := rects + [Rect(0, 0, 0, 0)], g.expanded, g.colours, rg;
      AddedValid(f, rf, g, name, subs, size, s, colour);
    }

    /** `update_rectangles` (tm_trees.py:146-185): lays out the subtree of
        `id` in `r`; only the rectangles change. */
    method UpdateRectangles(id: nat, r: Rect)
      requires Valid() && id < |names|
      modifies this`rects
      ensures Valid()
      ensures rects == Layout(View(), rank, id, r, old(rects))
      decreases rank[id]
    {
      ghost var f := View();
      ghost var goal := Layout(f, rank, id, r, rects);
      var x, y, width, height := r.x, r.y, r.width, r.height;
      rects := rects[id := r];
      var totalWidth, totalHeight := 0, 0;
      if names[id].None? {
        rects := rects[id := Rect(0, 0, 0, 0)];
      } else if sizes[id] == 0 {
        rects := rects[id := Rect(x, y, 0, 0)];
      } else if kids[id] == [] {
        rects := rects[id := Rect(x, y, width, height)];
      } else {
        LoopRestBounds(f, rank, id, r, old(rects), goal);
        for i := 0 to |kids[id]|
          invariant names == f.names && sizes == f.sizes && kids == f.kids
          invariant parents == f.parents && expanded == f.expanded && colours == f.colours
          invariant LoopRest(f, rank, id, r, i, x, y, totalWidth, totalHeight, rects, goal)
        {
          var c := kids[id][i];
          ghost var before := rects;
          assert c < |names| && parents[c] == Some(id);
          var subSize := sizes[c];
          var totalSize := sizes[id];
          if width > height {
            var newDim := Share(width, subSize, totalSize);
            newDim := IsLastDim(View(), rank, c, width, totalWidth, newDim);
            UpdateRectangles(c, Rect(x, y, newDim, height));
            ghost var x0, tw0 := x, totalWidth;
            x := x + newDim;
            totalWidth := totalWidth + newDim;
            AdvanceWide(f, rank, id, r, i, x0, y, tw0, totalHeight, before, rects, c, newDim, goal, x, totalWidth);
          } else {
            var newDim := Share(height, subSize, totalSize);
            newDim := IsLastDim(View(), rank, c, height, totalHeight, newDim);
            UpdateRectangles(c, Rect(x, y, width, newDim));
            ghost var y0, th0 := y, totalHeight;
            y := y + newDim;
            totalHeight := totalHeight + newDim;
            AdvanceTall(f, rank, id, r, i, x, y0, totalWidth, th0, before, rects, c, newDim, goal, y, totalHeight);
          }
        }
      }
    }

    /** `update_data_sizes` (tm_trees.py:270-284): every named node of the
        subtree of `id` takes its recomputed size and the root's is returned;
        no other node changes. Recomputing needs only well-founded children
        lists in which the empty tree is a leaf; `UpdatedSizes` states what
        the new sizes mean on a well-formed arena. */
    method UpdateDataSizes(id: nat) returns (r: int)
      requires Shaped(View(), rank) && EmptyIsLeaf(names, kids) && id < |names|
      modifies this`sizes
      ensures Shaped(View(), rank)
      ensures r == DataSize(old(View()), rank, id)
      ensures Recomputed(old(View()), View(), rank, id)
      decreases rank[id]
    {
      ghost var f := View();
      if IsEmpty(View(), id) {
        SizingLeaf(f, rank, id);
        r := 0;
      } else if kids[id] == [] {
        SizingLeaf(f, rank, id);
        r := sizes[id];
      } else {
        sizes := sizes[id := 0];
        StartSizing(f, View(), rank, id);
        for i := 0 to |kids[id]|
          invariant names == f.names && kids == f.kids
          invariant PartlyRecomputed(f, View(), rank, id, i)
        {
          var c := kids[id][i];
          ghost var g := View();
          SizingFrame(f, g, rank, id, i);
          var s := UpdateDataSizes(c);
          ghost var h := View();
          sizes := sizes[id := sizes[id] + s];
          SizingStep(f, g, h, View(), rank, id, i, s);
        }
        SizingDone(f, View(), rank, id);
        r := sizes[id];
      }
    }

    /** `move` (tm_trees.py:287-296): when `id` is a leaf and `dest` has
        children, `id` becomes the last child of `dest` as `Moved` says;
        otherwise nothing changes. A leaf without a parent cannot be moved:
        the source then fails on the missing parent. */
    method Move(id: nat, dest: nat)
      requires Valid() && id < |names| && dest < |names|
      requires kids[id] == [] && kids[dest] != [] ==> parents[id].Some?
      modifies this`kids, this`sizes, this`parents, this`rank
      ensures Valid()
      ensures old(kids[id]) == [] && old(kids[dest]) != [] ==> View() == Moved(old(View()), id, dest)
      ensures !(old(kids[id]) == [] && old(kids[dest]) != []) ==> View() == old(View())
    {
      if kids[id] == [] && |kids[dest]| > 0 {
        ghost var f, rf := View(), rank;
        var p := parents[id].value;
        kids := kids[dest := kids[dest] + [id]];
        kids := kids[p := RemoveFirst(kids[p], id)];
        if kids[p] == [] {
          sizes := sizes[p := 0];
        }
        parents := parents[id := Some(dest)];
        rank := rank[id := 0];
        MovedValid(f, rf, id, dest);
      }
    }

    /** `change_size` (tm_trees.py:299-317) with the factor `num / den`:
        a leaf takes the size `Resized`; a node with children is left alone.
        The structure stays valid unless the empty tree is grown. */
    method ChangeSize(id: nat, num: int, den: int)
      requires Valid() && id < |names| && den > 0
      modifies this`sizes
      ensures old(kids[id]) != [] ==> sizes == old(sizes)
      ensures old(kids[id]) == [] ==> sizes == old(sizes)[id := Resized(old(sizes[id]), num, den)]
      ensures names[id].Some? || num <= 0 ==> Valid()
      ensures NonNegative(old(View())) && num + den >= 0 ==> NonNegative(View())
    {
      if |kids[id]| == 0 {
        var newSize := CeilDiv(sizes[id] * (den + num), den);
        if newSize == sizes[id] {
          if num < 0 && sizes[id] > 1 {
            sizes := sizes[id := sizes[id] - 1];
          } else if num > 0 {
            sizes := sizes[id := sizes[id] + 1];
          }
        } else {
          sizes := sizes[id := newSize];
        }
        if names[id].None? {
          ResizedEmpty(num, den);
        }
        if names[id].Some? || num <= 0 {
          WfFrameHere(old(View()));
        }
        if NonNegative(old(View())) && num + den >= 0 {
          ResizedNonNegative(old(sizes[id]), num, den);
        }
      }
    }

    /** The object `TMTree.__init__` leaves behind is valid, and the new
        node's size is its recomputed size. */
    lemma AddedValid(f: Forest, rf: seq<nat>, g: Forest,
                     name: Option<string>, subs: seq<nat>, size: int, s: int, colour: Colour)
      requires Wf(f, rf) && Adoptable(f, subs) && ColourOk(colour) && (name.None? ==> subs == [])
      requires |rank| == |f.names| + 1 && rank[..|f.names|] == rf
      requires forall k :: 0 <= k < |subs| ==> rf[subs[k]] < rank[|f.names|]
      requires rank[|f.names|] <= |f.names|
      requires g == Forest(f.names + [name], f.sizes + [0], f.kids + [subs], f.parents + [None], f.expanded + [false], f.colours + [colour])
      requires Shaped(g, rank)
      requires s == if name.None? then 0 else if subs == [] then size else DataSize(g, rank, |f.names|)
      requires View() == Added(f, name, subs, s, colour) && |rects| == |names|
      ensures Valid()
      ensures s == if name.None? then 0 else if subs == [] then size else DataSize(View(), rank, |f.names|)
    {
      AddedOk(f, rf, g, rank, name, subs, size, s, colour);
    }

    /** The object `move` leaves behind is valid. */
    lemma MovedValid(f: Forest, rf: seq<nat>, id: nat, dest: nat)
      requires Movable(f, rf, id, dest) && |rects| == |f.names|
      requires View() == Moved(f, id, dest) && rank == rf[id := 0]
      ensures Valid()
    {
      MovedWf(f, rf, id, dest);
    }

    /** Changing sizes and flags only keeps the structure valid. */
    lemma WfFrameHere(f: Forest)
      requires Wf(f, rank) && |rects| == |f.names|
      requires names == f.names && kids == f.kids && parents == f.parents && colours == f.colours
      requires |sizes| == |f.sizes| && |expanded| == |f.expanded|
      requires forall i :: 0 <= i < |names| && names[i].None? ==> sizes[i] == 0 || sizes[i] == f.sizes[i]
      ensures Valid()
    {
      WfFrame(f, View(), rank);
    }

    /** `expand` (tm_trees.py:320-327): the node is expanded iff it has
        children. */
    method Expand(id: nat)
      requires |expanded| == |kids| && id < |kids|
      modifies this`expanded
      ensures expanded == old(expanded)[id := |kids[id]| > 0]
      ensures old(Valid()) ==> Valid()
    {
      if |kids[id]| > 0 {
        expanded := expanded[id := true];
      } else {
        expanded := expanded[id := false];
      }
      if old(Valid()) {
        WfFrame(old(View()), View(), rank);
      }
    }

    /** `_collapse_children` (tm_trees.py:342-352): every node of the subtree
        of `id` is collapsed, and no other node changes. It needs of the
        arena only that the children lists be well-founded. */
    method CollapseChildren(id: nat)
      requires KidsShaped(kids, rank) && |expanded| == |kids| && id < |kids|
      modifies this`expanded
      ensures |expanded| == |old(expanded)|
      ensures forall n :: 0 <= n < |expanded| ==>
                expanded[n] == (n !in Desc(kids, rank, id) && old(expanded[n]))
      decreases rank[id]
    {
      if |kids[id]| == 0 {
        expanded := expanded[id := false];
      } else {
        expanded := expanded[id := false];
        for i := 0 to |kids[id]|
          invariant |expanded| == |old(expanded)|
          invariant forall n :: 0 <= n < |expanded| ==>
                      expanded[n] == (n != id && n !in DescKids(kids, rank, id, i) && old(expanded[n]))
        {
          CollapseChildren(kids[id][i]);
        }
      }
    }

    /** `collapse` (tm_trees.py:330-339): collapses the parent and every node
        of the parent's subtree; a root is left alone. */
    method Collapse(id: nat)
      requires Valid() && id < |names|
      modifies this`expanded
      ensures Valid()
      ensures parents[id].None? ==> expanded == old(expanded)
      ensures parents[id].Some? ==> |expanded| == |old(expanded)| && forall n :: 0 <= n < |expanded| ==>
                expanded[n] == (n !in Desc(kids, rank, parents[id].value) && old(expanded[n]))
      ensures ExpansionOk(old(View()), rank) ==> ExpansionOk(View(), rank)
    {
      if parents[id].Some? {
        ghost var f := View();
        var p := parents[id].value;
        ParentRank(f, rank, id);
        expanded := expanded[p := false];
        CollapseChildren(p);
        CollapsedSubtreeOk(f, View(), rank, p);
      }
    }

    /** `expand_all` (tm_trees.py:354-363): every node of the subtree of
        `id` is expanded iff it has children, and no other node changes. It
        needs of the arena only that the children lists be well-founded. */
    method ExpandAll(id: nat)
      requires KidsShaped(kids, rank) && |expanded| == |kids| && id < |kids|
      modifies this`expanded
      ensures |expanded| == |old(expanded)|
      ensures forall n :: 0 <= n < |expanded| ==>
                expanded[n] == if n in Desc(kids, rank, id) then kids[n] != [] else old(expanded[n])
      ensures old(Valid()) ==> Valid()
      decreases rank[id]
    {
      if |kids[id]| == 0 {
        expanded := expanded[id := false];
      } else {
        expanded := expanded[id := true];
        for i := 0 to |kids[id]|
          invariant |expanded| == |old(expanded)|
          invariant forall n :: 0 <= n < |expanded| ==>
                      expanded[n] == if n == id || n in DescKids(kids, rank, id, i) then kids[n] != [] else old(expanded[n])
        {
          ExpandAll(kids[id][i]);
        }
      }
      if old(Valid()) {
        WfFrame(old(View()), View(), rank);
      }
    }

    /** `collapse_all` (tm_trees.py:365-372): climbs to the root of the tree
        of `id` and collapses that whole tree; other trees of the arena are
        left alone. */
    method CollapseAll(id: nat)
      requires Valid() && id < |names|
      modifies this`expanded
      ensures Valid()
      ensures |expanded| == |old(expanded)|
      ensures forall n :: 0 <= n < |expanded| ==>
                expanded[n] == (n !in Desc(kids, rank, Root(old(View()), rank, id)) && old(expanded[n]))
      ensures forall n :: 0 <= n < |expanded| && Root(old(View()), rank, n) == Root(old(View()), rank, id) ==>
                !expanded[n]
      ensures ExpansionOk(old(View()), rank) ==> ExpansionOk(View(), rank)
    {
      ghost var f := View();
      var tree: nat := id;
      while parents[tree].Some?
        invariant expanded == f.expanded
        invariant tree < |names| && Root(f, rank, tree) == Root(f, rank, id)
        decreases |names| - rank[tree]
      {
        ParentRank(f, rank, tree);
        tree := parents[tree].value;
      }
      CollapseChildren(tree);
      forall n | 0 <= n < |expanded| && Root(f, rank, n) == Root(f, rank, id)
        ensures n in Desc(kids, rank, tree)
      {
        RootDesc(f, rank, n);
      }
      CollapsedSubtreeOk(f, View(), rank, tree);
    }
  }

  /** Collapsing a whole subtree (and nothing else) keeps the visibility
      invariant of lines 73-76. */
  lemma CollapsedSubtreeOk(f: Forest, g: Forest, rank: seq<nat>, p: nat)
    requires Wf(f, rank) && p < |f.names|
    requires g == f.(expanded := g.expanded) && |g.expanded| == |f.expanded|
    requires forall n :: 0 <= n < |g.expanded| ==> g.expanded[n] == (n !in Desc(f.kids, rank, p) && f.expanded[n])
    ensures Wf(g, rank)
    ensures ExpansionOk(f, rank) ==> ExpansionOk(g, rank)
  {
    WfFrame(f, g, rank);
    forall i | 0 <= i < |g.names| && g.expanded[i] && g.parents[i].Some? && ExpansionOk(f, rank)
      ensures g.expanded[g.parents[i].value]
    {
      var q := g.parents[i].value;
      if q in Desc(f.kids, rank, p) {
        var k :| 0 <= k < |f.kids[q]| && f.kids[q][k] == i;
        DescClosed(f.kids, rank, p, q, k);
      }
    }
  }

  /** Expanding a node that is a root or has an expanded parent keeps the
      visibility invariant of lines 73-76. */
  lemma ExpandOk(f: Forest, g: Forest, rank: seq<nat>, id: nat)
    requires Wf(f, rank) && ExpansionOk(f, rank) && id < |f.names|
    requires g == f.(expanded := f.expanded[id := f.kids[id] != []])
    requires f.parents[id].None? || f.expanded[f.parents[id].value]
    ensures Wf(g, rank) && ExpansionOk(g, rank)
  {
    WfFrame(f, g, rank);
    forall i | 0 <= i < |g.names| && g.expanded[i] && g.parents[i].Some?
      ensures g.expanded[g.parents[i].value]
    {
      if g.parents[i].value == id {
        assert f.kids[id] != [];
      }
    }
  }

  /** Expanding every internal node of a subtree whose root is a root or has
      an expanded parent keeps the visibility invariant of lines 73-76. */
  lemma ExpandedSubtreeOk(f: Forest, g: Forest, rank: seq<nat>, id: nat)
    requires Wf(f, rank) && ExpansionOk(f, rank) && id < |f.names|
    requires g == f.(expanded := g.expanded) && |g.expanded| == |f.expanded|
    requires forall n :: 0 <= n < |g.expanded| ==>
               g.expanded[n] == if n in Desc(f.kids, rank, id) then f.kids[n] != [] else f.expanded[n]
    requires f.parents[id].None? || g.expanded[f.parents[id].value]
    ensures Wf(g, rank) && ExpansionOk(g, rank)
  {
    WfFrame(f, g, rank);
    forall i | 0 <= i < |g.names| && g.expanded[i] && g.parents[i].Some?
      ensures g.expanded[g.parents[i].value]
    {
      var q := g.parents[i].value;
      if i in Desc(f.kids, rank, id) && i != id {
        DescParent(f, rank, i, id);
        assert f.kids[q] != [];
      } else if i !in Desc(f.kids, rank, id) && q in Desc(f.kids, rank, id) {
        var k :| 0 <= k < |f.kids[q]| && f.kids[q][k] == i;
        DescClosed(f.kids, rank, id, q, k);
      }
    }
  }

  /** `g` differs from `f` in its sizes only. */
  ghost predicate SizesFrom(f: Forest, g: Forest) {
    && g.names == f.names && g.kids == f.kids && g.parents == f.parents
    && g.expanded == f.expanded && g.colours == f.colours && |g.sizes| == |f.sizes|
  }

  /** `g` is `f` with every node of the subtree of `id` holding its
      recomputed size. */
  ghost predicate Recomputed(f: Forest, g: Forest, rank: seq<nat>, id: nat)
    requires Shaped(f, rank) && id < |f.names|
  {
    && SizesFrom(f, g)
    && forall n :: 0 <= n < |g.sizes| ==>
         g.sizes[n] == if n in Desc(f.kids, rank, id) && f.names[n].Some? then DataSize(f, rank, n) else f.sizes[n]
  }

  /** The state of `update_data_sizes` after its first `i` children. */
  ghost predicate PartlyRecomputed(f: Forest, g: Forest, rank: seq<nat>, id: nat, i: nat)
    requires Shaped(f, rank) && id < |f.names| && i <= |f.kids[id]|
  {
    && SizesFrom(f, g)
    && g.sizes[id] == KidsDataSize(f, rank, id, i)
    && forall n :: 0 <= n < |g.sizes| && n != id ==>
         g.sizes[n] == if n in DescKids(f.kids, rank, id, i) && f.names[n].Some? then DataSize(f, rank, n) else f.sizes[n]
  }

  lemma StartSizing(f: Forest, g: Forest, rank: seq<nat>, id: nat)
    requires Shaped(f, rank) && id < |f.names| && f.names[id].Some? && f.kids[id] != []
    requires g == f.(sizes := f.sizes[id := 0])
    ensures PartlyRecomputed(f, g, rank, id, 0)
  {
  }

  /** Inside the loop of `update_data_sizes` the named leaves still hold
      their sizes, so every recomputed size is as before the loop. */
  lemma SizingFrame(f: Forest, g: Forest, rank: seq<nat>, id: nat, i: nat)
    requires Shaped(f, rank) && id < |f.names| && f.names[id].Some? && f.kids[id] != [] && i <= |f.kids[id]|
    requires PartlyRecomputed(f, g, rank, id, i)
    ensures Shaped(g, rank)
    ensures forall n :: 0 <= n < |f.names| ==> DataSize(g, rank, n) == DataSize(f, rank, n)
  {
    forall n | 0 <= n < |f.names| && f.names[n].Some? && f.kids[n] == []
      ensures f.sizes[n] == g.sizes[n]
    {
    }
    forall n | 0 <= n < |f.names|
      ensures DataSize(g, rank, n) == DataSize(f, rank, n)
    {
      DataSizeFromLeaves(f, g, rank, n);
    }
  }

  /** One child of `update_data_sizes`: its subtree is recomputed and its
      size added to the parent's. */
  lemma SizingStep(f: Forest, g: Forest, h: Forest, k: Forest, rank: seq<nat>, id: nat, i: nat, s: int)
    requires Shaped(f, rank) && id < |f.names| && f.names[id].Some? && i < |f.kids[id]|
    requires PartlyRecomputed(f, g, rank, id, i) && Shaped(g, rank)
    requires forall n :: 0 <= n < |f.names| ==> DataSize(g, rank, n) == DataSize(f, rank, n)
    requires Recomputed(g, h, rank, f.kids[id][i]) && s == DataSize(g, rank, f.kids[id][i])
    requires k == h.(sizes := h.sizes[id := h.sizes[id] + s])
    ensures PartlyRecomputed(f, k, rank, id, i + 1)
  {
    var c := f.kids[id][i];
    DescOnlyBelow(f.kids, rank, c, id);
    forall n | n in Desc(f.kids, rank, c)
      ensures n < |f.names|
    {
      DescBounds(f.kids, rank, c, n);
    }
  }

  /** The empty tree and a leaf are their own recomputation. */
  lemma SizingLeaf(f: Forest, rank: seq<nat>, id: nat)
    requires Shaped(f, rank) && EmptyIsLeaf(f.names, f.kids) && id < |f.names|
    requires f.names[id].None? || f.kids[id] == []
    ensures Recomputed(f, f, rank, id)
    ensures DataSize(f, rank, id) == if f.names[id].None? then 0 else f.sizes[id]
  {
    assert f.kids[id] == [];
    assert Desc(f.kids, rank, id) == {id};
  }

  /** After its last child the loop of `update_data_sizes` has recomputed the
      whole subtree. */
  lemma SizingDone(f: Forest, g: Forest, rank: seq<nat>, id: nat)
    requires Shaped(f, rank) && id < |f.names| && f.names[id].Some? && f.kids[id] != []
    requires PartlyRecomputed(f, g, rank, id, |f.kids[id]|)
    ensures Recomputed(f, g, rank, id) && g.sizes[id] == DataSize(f, rank, id)
  {
  }

  /** What `update_data_sizes` leaves behind on a well-formed arena: the
      arena stays well-formed, every internal node of the subtree holds the
      sum of its children's sizes, and if the sizes were already consistent
      nothing changes. */
  lemma UpdatedSizes(f: Forest, g: Forest, rank: seq<nat>, id: nat)
    requires Wf(f, rank) && id < |f.names| && Recomputed(f, g, rank, id)
    ensures Wf(g, rank)
    ensures forall m :: 0 <= m < |g.kids| && m in Desc(f.kids, rank, id) && f.kids[m] != [] ==>
              g.sizes[m] == SumSizes(g.sizes, f.kids[m])
    ensures Consistent(f, rank) ==> g.sizes == f.sizes
  {
    forall i | 0 <= i < |f.names| && f.names[i].None?
      ensures g.sizes[i] == 0
    {
      if i in Desc(f.kids, rank, id) {
        DescBounds(f.kids, rank, id, i);
      }
    }
    WfFrame(f, g, rank);
    forall n | n in Desc(f.kids, rank, id)
      ensures n < |f.names| && g.sizes[n] == DataSize(f, rank, n)
    {
      DescBounds(f.kids, rank, id, n);
      if f.names[n].None? {
        EmptyAlone(f, rank, n);
      }
    }
    UpdatedConsistent(f, g, rank, id);
    if Consistent(f, rank) {
      forall n | 0 <= n < |f.sizes|
        ensures g.sizes[n] == f.sizes[n]
      {
        if n in Desc(f.kids, rank, id) {
          ConsistentDataSize(f, rank, n);
        }
      }
    }
  }
}
