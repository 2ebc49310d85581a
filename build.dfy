/** Building a tree over existing trees (`TMTree.__init__`) as a function on
    the arena, and the invariants a new node keeps. */
module Construction {
  import opened Trees
  import opened Sizes

  /** The trees a new node may take as its children: distinct named roots. */
  ghost predicate Adoptable(f: Forest, subs: seq<nat>) {
    && (forall k :: 0 <= k < |subs| ==>
          subs[k] < |f.names| && subs[k] < |f.parents| && f.names[subs[k]].Some? && f.parents[subs[k]].None?)
    && (forall j, k :: 0 <= j < k < |subs| ==> subs[j] != subs[k])
  }

  /** No node of `subs` is expanded. */
  ghost predicate NoneExpanded(expanded: seq<bool>, subs: seq<nat>) {
    forall k :: 0 <= k < |subs| ==> subs[k] < |expanded| && !expanded[subs[k]]
  }

  /** The parent links after each of `subs` is given the parent `p`
      (tm_trees.py:122-123). */
  function Reparent(ps: seq<Option<nat>>, subs: seq<nat>, p: nat): (r: seq<Option<nat>>)
    requires forall k :: 0 <= k < |subs| ==> subs[k] < |ps|
    ensures |r| == |ps|
    ensures forall c :: 0 <= c < |ps| ==> r[c] == if c in subs then Some(p) else ps[c]
  {
    if subs == [] then ps
    else Reparent(ps, subs[..|subs| - 1], p)[subs[|subs| - 1] := Some(p)]
  }

  /** The loop of `TMTree.__init__` that makes `p` the parent of each of
      `subs` (tm_trees.py:122-123). */
  method LinkParents(ps: seq<Option<nat>>, subs: seq<nat>, p: nat) returns (r: seq<Option<nat>>)
    requires forall k :: 0 <= k < |subs| ==> subs[k] < |ps|
    ensures r == Reparent(ps, subs, p)
  {
    r := ps;
    for i := 0 to |subs|
      invariant r == Reparent(ps, subs[..i], p)
    {
      assert subs[..i + 1][..i] == subs[..i];
      r := r[subs[i] := Some(p)];
    }
    assert subs[..|subs|] == subs;
  }

  /** The arena after `TMTree.__init__` appends node `|f.names|` with the
      given name, children, size and colour, collapsed, as the parent of its
      children and with no parent of its own. */
  function Added(f: Forest, name: Option<string>, subs: seq<nat>, size: int, colour: Colour): Forest
    requires forall k :: 0 <= k < |subs| ==> subs[k] < |f.parents|
  {
    Forest(f.names + [name], f.sizes + [size], f.kids + [subs],
           Reparent(f.parents, subs, |f.names|) + [None], f.expanded + [false], f.colours + [colour])
  }

  /** A rank for a new node over `subs`: above each of theirs and at most
      `bound`. */
  ghost function RankAbove(rank: seq<nat>, subs: seq<nat>, bound: nat): (r: nat)
    requires forall k :: 0 <= k < |subs| ==> subs[k] < |rank| && rank[subs[k]] < bound
    ensures r <= bound
    ensures forall k :: 0 <= k < |subs| ==> rank[subs[k]] < r
  {
    if subs == [] then 0
    else
      var r := RankAbove(rank, subs[..|subs| - 1], bound);
      var c := subs[|subs| - 1];
      if rank[c] < r then r else rank[c] + 1
  }

  /** Appending a node above its children keeps the arena shaped. */
  lemma AppendedShaped(f: Forest, rf: seq<nat>, g: Forest, rg: seq<nat>)
    requires Shaped(f, rf) && |g.names| == |f.names| + 1
    requires |g.sizes| == |g.names| && |g.parents| == |g.names| && |g.expanded| == |g.names| && |g.colours| == |g.names|
    requires |g.kids| == |g.names| && |rg| == |g.names| && g.kids[..|f.names|] == f.kids && rg[..|f.names|] == rf
    requires forall k :: 0 <= k < |g.kids[|f.names|]| ==>
               g.kids[|f.names|][k] < |f.names| && rf[g.kids[|f.names|][k]] < rg[|f.names|]
    requires rg[|f.names|] <= |f.names|
    ensures Shaped(g, rg)
  {
    var n := |f.names|;
    forall i, k | 0 <= i < |g.kids| && 0 <= k < |g.kids[i]|
      ensures g.kids[i][k] < |g.kids| && rg[g.kids[i][k]] < rg[i]
    {
      if i < n {
        assert g.kids[i] == f.kids[i];
      }
    }
  }

  /** What the construction in `TMTree.__init__` establishes: the new arena
      is well-formed and the new node's size is its recomputed size, the
      same whether computed before or after its children are linked to it. */
  lemma AddedOk(f: Forest, rf: seq<nat>, g: Forest, rg: seq<nat>,
                name: Option<string>, subs: seq<nat>, size: int, s: int, colour: Colour)
    requires Wf(f, rf) && Adoptable(f, subs) && ColourOk(colour) && (name.None? ==> subs == [])
    requires |rg| == |f.names| + 1 && rg[..|f.names|] == rf
    requires forall k :: 0 <= k < |subs| ==> rf[subs[k]] < rg[|f.names|]
    requires rg[|f.names|] <= |f.names|
    requires g == Forest(f.names + [name], f.sizes + [0], f.kids + [subs], f.parents + [None], f.expanded + [false], f.colours + [colour])
    requires Shaped(g, rg)
    requires s == if name.None? then 0 else if subs == [] then size else DataSize(g, rg, |f.names|)
    ensures Wf(Added(f, name, subs, s, colour), rg)
    ensures s == if name.None? then 0 else if subs == [] then size else DataSize(Added(f, name, subs, s, colour), rg, |f.names|)
  {
    var h := Added(f, name, subs, s, colour);
    AppendedShaped(f, rf, h, rg);
    AddedLinked(f, rf, h, rg, name, subs, s, colour);
    if name.Some? && subs != [] {
      DataSizeFromLeaves(g, h, rg, |f.names|);
    }
  }

  lemma AddedLinked(f: Forest, rf: seq<nat>, h: Forest, rh: seq<nat>,
                    name: Option<string>, subs: seq<nat>, s: int, colour: Colour)
    requires Wf(f, rf) && Adoptable(f, subs) && ColourOk(colour) && (name.None? ==> subs == [] && s == 0)
    requires h == Added(f, name, subs, s, colour) && Shaped(h, rh)
    ensures Wf(h, rh)
  {
    var n := |f.names|;
    forall i, k | 0 <= i < |h.names| && 0 <= k < |h.kids[i]|
      ensures h.parents[h.kids[i][k]] == Some(i)
    {
      if i < n {
        var c := f.kids[i][k];
        assert h.kids[i] == f.kids[i] && f.parents[c] == Some(i);
      }
    }
    forall c | 0 <= c < |h.names| && h.parents[c].Some?
      ensures h.parents[c].value < |h.names| && c in h.kids[h.parents[c].value]
    {
      if c < n && c !in subs {
        assert h.kids[f.parents[c].value] == f.kids[f.parents[c].value];
      }
    }
    forall i, j, k | 0 <= i < |h.names| && 0 <= j < k < |h.kids[i]|
      ensures h.kids[i][j] != h.kids[i][k]
    {
      if i < n {
        assert h.kids[i] == f.kids[i];
      }
    }
    forall i | 0 <= i < |h.names| && h.names[i].None?
      ensures h.kids[i] == [] && h.parents[i].None? && h.sizes[i] == 0
    {
      if i < n {
        assert h.names[i] == f.names[i] && h.kids[i] == f.kids[i] && h.sizes[i] == f.sizes[i];
      }
    }
    forall i | 0 <= i < |h.colours|
      ensures ColourOk(h.colours[i])
    {
      if i < n {
        assert h.colours[i] == f.colours[i];
      }
    }
  }

  /** On consistent sizes a new node over children holds the sum of their
      stored sizes, and the sizes stay consistent (tm_trees.py:62-63,
      114-118). */
  lemma AddedConsistent(f: Forest, rf: seq<nat>, rh: seq<nat>,
                        name: Option<string>, subs: seq<nat>, s: int, colour: Colour)
    requires Wf(f, rf) && Consistent(f, rf) && Adoptable(f, subs) && (name.None? ==> subs == [])
    requires |rh| == |f.names| + 1 && rh[..|f.names|] == rf
    requires Shaped(Added(f, name, subs, s, colour), rh)
    requires name.Some? && subs != [] ==> s == DataSize(Added(f, name, subs, s, colour), rh, |f.names|)
    ensures Consistent(Added(f, name, subs, s, colour), rh)
    ensures name.Some? && subs != [] ==> s == SumSizes(f.sizes, subs)
  {
    var n := |f.names|;
    var h := Added(f, name, subs, s, colour);
    if name.Some? && subs != [] {
      NewNodeDataSize(f, rf, h, rh);
    }
    forall m | 0 <= m < |h.names| && h.kids[m] != []
      ensures h.sizes[m] == SumSizes(h.sizes, h.kids[m])
    {
      SumSizesFrame(f.sizes, h.sizes, h.kids[m]);
      if m < n {
        assert h.kids[m] == f.kids[m];
      }
    }
  }

  /** Non-negative sizes stay non-negative (tm_trees.py:61) when the given
      size is, where it is used: for a named leaf. */
  lemma AddedNonNegative(f: Forest, rh: seq<nat>, name: Option<string>, subs: seq<nat>, size: int, s: int, colour: Colour)
    requires forall k :: 0 <= k < |subs| ==> subs[k] < |f.parents|
    requires Shaped(Added(f, name, subs, s, colour), rh) && NonNegative(f)
    requires name.Some? && subs == [] ==> size >= 0
    requires s == if name.None? then 0 else if subs == [] then size else DataSize(Added(f, name, subs, s, colour), rh, |f.names|)
    ensures NonNegative(Added(f, name, subs, s, colour))
  {
    var n := |f.names|;
    var h := Added(f, name, subs, s, colour);
    if name.Some? && subs != [] {
      // the new node's own stored size is not consulted
      var h0 := h.(sizes := h.sizes[n := 0]);
      DataSizeFromLeaves(h0, h, rh, n);
      DataSizeNonNegative(h0, rh, n);
    }
    forall i | 0 <= i < |h.sizes|
      ensures h.sizes[i] >= 0
    {
      if i < n {
        assert h.sizes[i] == f.sizes[i];
      }
    }
  }

  /** A new collapsed node over collapsed trees keeps the visibility
      invariant (tm_trees.py:73-76). */
  lemma AddedExpansion(f: Forest, rf: seq<nat>, rh: seq<nat>, name: Option<string>, subs: seq<nat>, s: int, colour: Colour)
    requires Wf(f, rf) && Adoptable(f, subs) && Wf(Added(f, name, subs, s, colour), rh)
    requires ExpansionOk(f, rf) && NoneExpanded(f.expanded, subs)
    ensures ExpansionOk(Added(f, name, subs, s, colour), rh)
  {
    var n := |f.names|;
    var h := Added(f, name, subs, s, colour);
    forall i | 0 <= i < |h.names| && h.expanded[i]
      ensures h.kids[i] != [] && (h.parents[i].Some? ==> h.expanded[h.parents[i].value])
    {
      assert i < n && f.expanded[i] && h.kids[i] == f.kids[i];
    }
  }
}
