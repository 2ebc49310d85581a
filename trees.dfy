/** The data model of a treemap tree (a TMTree and its descendants).

    Nodes live in an arena and are named by their index. Every attribute of
    a node is one column of the arena: node `i` has name `names[i]`, size
    `sizes[i]`, children `kids[i]` (in order), parent `parents[i]`, layout
    rectangle `rects[i]`, visibility flag `expanded[i]` and colour
    `colours[i]`. Several trees may share one arena; a tree is identified
    with its root. The layout rectangles are a column of their own, apart
    from the `Forest` value, because only the layout engine writes them. */
module Trees {

  datatype Option<T> = None | Some(value: T)

  /** A layout rectangle (x, y, width, height). */
  datatype Rect = Rect(x: int, y: int, width: int, height: int)

  /** An RGB colour, assigned when a node is created and never changed. */
  datatype Colour = Colour(red: int, green: int, blue: int)

  datatype Forest = Forest(
    names: seq<Option<string>>,   // None marks the empty tree
    sizes: seq<int>,              // data_size
    kids: seq<seq<nat>>,          // _subtrees
    parents: seq<Option<nat>>,    // _parent_tree
    expanded: seq<bool>,          // _expanded
    colours: seq<Colour>)         // _colour

  predicate ColourOk(c: Colour) {
    0 <= c.red <= 255 && 0 <= c.green <= 255 && 0 <= c.blue <= 255
  }

  /** Every column has one entry per node, every child is a node, and the
      rank strictly decreases from a node to each of its children, so that
      no node is its own descendant. The rank is a proof device only. */
  ghost predicate Shaped(f: Forest, rank: seq<nat>) {
    var n := |f.names|;
    && |f.sizes| == n && |f.kids| == n && |f.parents| == n
    && |f.expanded| == n && |f.colours| == n
    && KidsShaped(f.kids, rank)
    && (forall i :: 0 <= i < n ==> rank[i] < n)
  }

  /** Every child is a node, ranked strictly below its parent. */
  ghost predicate KidsShaped(kids: seq<seq<nat>>, rank: seq<nat>) {
    && |rank| == |kids|
    && (forall i, k :: 0 <= i < |kids| && 0 <= k < |kids[i]| ==>
          kids[i][k] < |kids| && rank[kids[i][k]] < rank[i])
  }

  /** The representation invariants that tie the parent links to the child
      lists, and the shape of the empty tree. */
  ghost predicate Linked(f: Forest, rank: seq<nat>)
    requires Shaped(f, rank)
  {
    var n := |f.names|;
    // a child's parent is the node that lists it
    && (forall i, k :: 0 <= i < n && 0 <= k < |f.kids[i]| ==>
          f.parents[f.kids[i][k]] == Some(i))
    // a node with a parent is listed by that parent
    && (forall c :: 0 <= c < n && f.parents[c].Some? ==>
          f.parents[c].value < n && c in f.kids[f.parents[c].value])
    // and listed only once
    && (forall i, j, k :: 0 <= i < n && 0 <= j < k < |f.kids[i]| ==>
          f.kids[i][j] != f.kids[i][k])
    // the empty tree has no children, no parent and size 0
    && (forall i :: 0 <= i < n && f.names[i].None? ==>
          f.kids[i] == [] && f.parents[i].None? && f.sizes[i] == 0)
  }

  /** The empty tree has no children. */
  ghost predicate EmptyIsLeaf(names: seq<Option<string>>, kids: seq<seq<nat>>) {
    forall i :: 0 <= i < |names| && i < |kids| && names[i].None? ==> kids[i] == []
  }

  /** The structural invariant every operation preserves. */
  ghost predicate Wf(f: Forest, rank: seq<nat>) {
    && Shaped(f, rank)
    && Linked(f, rank)
    && (forall i :: 0 <= i < |f.colours| ==> ColourOk(f.colours[i]))
  }

  /** Sizes are never negative. */
  ghost predicate NonNegative(f: Forest) {
    forall i :: 0 <= i < |f.sizes| ==> f.sizes[i] >= 0
  }

  /** The sum of the sizes of the nodes `ks`, in order. */
  function SumSizes(sizes: seq<int>, ks: seq<nat>): int
    requires forall k :: 0 <= k < |ks| ==> ks[k] < |sizes|
  {
    if ks == [] then 0 else SumSizes(sizes, ks[..|ks| - 1]) + sizes[ks[|ks| - 1]]
  }

  /** The size of each node with children is the sum of its children's. */
  ghost predicate Consistent(f: Forest, rank: seq<nat>)
    requires Shaped(f, rank)
  {
    forall i :: 0 <= i < |f.names| && f.kids[i] != [] ==>
      f.sizes[i] == SumSizes(f.sizes, f.kids[i])
  }

  /** An expanded node has children and an expanded parent. */
  ghost predicate ExpansionOk(f: Forest, rank: seq<nat>)
    requires Wf(f, rank)
  {
    forall i :: 0 <= i < |f.names| && f.expanded[i] ==>
      f.kids[i] != [] && (f.parents[i].Some? ==> f.expanded[f.parents[i].value])
  }

  /** The nodes of the subtree rooted at `id`, the root included. */
  ghost function Desc(kids: seq<seq<nat>>, rank: seq<nat>, id: nat): set<nat>
    requires KidsShaped(kids, rank) && id < |kids|
    decreases rank[id], 1
  {
    {id} + DescKids(kids, rank, id, |kids[id]|)
  }

  /** The nodes of the subtrees of the first `i` children of `id`. */
  ghost function DescKids(kids: seq<seq<nat>>, rank: seq<nat>, id: nat, i: nat): set<nat>
    requires KidsShaped(kids, rank) && id < |kids| && i <= |kids[id]|
    decreases rank[id], 0, i
  {
    if i == 0 then {}
    else DescKids(kids, rank, id, i - 1) + Desc(kids, rank, kids[id][i - 1])
  }

  /** The root of the tree that contains `id`, found by following the
      parent links. */
  function Root(f: Forest, ghost rank: seq<nat>, id: nat): (r: nat)
    requires Wf(f, rank) && id < |f.names|
    ensures r < |f.names| && f.parents[r].None?
    decreases |f.names| - rank[id]
  {
    match f.parents[id]
    case None => id
    case Some(p) =>
      ParentRank(f, rank, id);
      Root(f, rank, p)
  }

  /** A parent outranks its child. */
  lemma ParentRank(f: Forest, rank: seq<nat>, c: nat)
    requires Wf(f, rank) && c < |f.names| && f.parents[c].Some?
    ensures f.parents[c].value < |f.names|
    ensures rank[c] < rank[f.parents[c].value]
  {
    var p := f.parents[c].value;
    var k :| 0 <= k < |f.kids[p]| && f.kids[p][k] == c;
  }

  lemma {:induction false} DescKidsCover(kids: seq<seq<nat>>, rank: seq<nat>, id: nat, i: nat, j: nat)
    requires KidsShaped(kids, rank) && id < |kids| && j < i <= |kids[id]|
    ensures Desc(kids, rank, kids[id][j]) <= DescKids(kids, rank, id, i)
    decreases i
  {
    if j < i - 1 {
      DescKidsCover(kids, rank, id, i - 1, j);
    }
  }

  /** The subtree of a child lies inside the subtree of its parent. */
  lemma KidDesc(kids: seq<seq<nat>>, rank: seq<nat>, id: nat, j: nat)
    requires KidsShaped(kids, rank) && id < |kids| && j < |kids[id]|
    ensures Desc(kids, rank, kids[id][j]) <= Desc(kids, rank, id)
  {
    DescKidsCover(kids, rank, id, |kids[id]|, j);
  }

  lemma {:induction false} DescKidsWitness(kids: seq<seq<nat>>, rank: seq<nat>, id: nat, i: nat, x: nat)
    requires KidsShaped(kids, rank) && id < |kids| && i <= |kids[id]|
    requires x in DescKids(kids, rank, id, i)
    ensures exists j :: 0 <= j < i && x in Desc(kids, rank, kids[id][j])
    decreases i
  {
    if x !in Desc(kids, rank, kids[id][i - 1]) {
      DescKidsWitness(kids, rank, id, i - 1, x);
    }
  }

  /** A proper descendant of `id` lies in the subtree of one of its children. */
  lemma DescWitness(kids: seq<seq<nat>>, rank: seq<nat>, id: nat, x: nat)
    requires KidsShaped(kids, rank) && id < |kids| && x in Desc(kids, rank, id) && x != id
    ensures exists j :: 0 <= j < |kids[id]| && x in Desc(kids, rank, kids[id][j])
  {
    DescKidsWitness(kids, rank, id, |kids[id]|, x);
  }

  /** Every node of a subtree is a node of the arena, ranked no higher than
      the subtree's root. */
  lemma {:induction false} DescBounds(kids: seq<seq<nat>>, rank: seq<nat>, id: nat, x: nat)
    requires KidsShaped(kids, rank) && id < |kids| && x in Desc(kids, rank, id)
    ensures x < |kids| && rank[x] <= rank[id]
    decreases rank[id]
  {
    if x != id {
      DescWitness(kids, rank, id, x);
      var j :| 0 <= j < |kids[id]| && x in Desc(kids, rank, kids[id][j]);
      DescBounds(kids, rank, kids[id][j], x);
    }
  }

  /** Subtrees nest: the subtree of a descendant lies inside. */
  lemma {:induction false} DescTrans(kids: seq<seq<nat>>, rank: seq<nat>, a: nat, b: nat)
    requires KidsShaped(kids, rank) && b < |kids| && a in Desc(kids, rank, b)
    ensures a < |kids| && Desc(kids, rank, a) <= Desc(kids, rank, b)
    decreases rank[b]
  {
    if a != b {
      DescWitness(kids, rank, b, a);
      var j :| 0 <= j < |kids[b]| && a in Desc(kids, rank, kids[b][j]);
      DescTrans(kids, rank, a, kids[b][j]);
      KidDesc(kids, rank, b, j);
    }
  }

  /** A node ranked above `id` is not in its subtree. */
  lemma DescOnlyBelow(kids: seq<seq<nat>>, rank: seq<nat>, id: nat, x: nat)
    requires KidsShaped(kids, rank) && id < |kids| && x < |kids| && rank[x] > rank[id]
    ensures x !in Desc(kids, rank, id)
  {
    if x in Desc(kids, rank, id) {
      DescBounds(kids, rank, id, x);
    }
  }

  /** The children of a node of a subtree are in the subtree. */
  lemma DescClosed(kids: seq<seq<nat>>, rank: seq<nat>, b: nat, x: nat, k: nat)
    requires KidsShaped(kids, rank) && b < |kids| && x in Desc(kids, rank, b)
    requires x < |kids| && k < |kids[x]|
    ensures kids[x][k] in Desc(kids, rank, b)
  {
    KidDesc(kids, rank, x, k);
    DescTrans(kids, rank, x, b);
  }

  /** The parent of a proper descendant is in the subtree too. */
  lemma {:induction false} DescParent(f: Forest, rank: seq<nat>, a: nat, b: nat)
    requires Wf(f, rank) && b < |f.names| && a in Desc(f.kids, rank, b) && a != b
    ensures a < |f.names| && f.parents[a].Some? && f.parents[a].value in Desc(f.kids, rank, b)
    decreases rank[b]
  {
    DescWitness(f.kids, rank, b, a);
    var j :| 0 <= j < |f.kids[b]| && a in Desc(f.kids, rank, f.kids[b][j]);
    var c := f.kids[b][j];
    KidDesc(f.kids, rank, b, j);
    if a != c {
      DescParent(f, rank, a, c);
    }
  }

  /** A child is not a descendant of one of its siblings. */
  lemma SiblingNotDesc(f: Forest, rank: seq<nat>, p: nat, j: nat, k: nat)
    requires Wf(f, rank) && p < |f.names| && j < |f.kids[p]| && k < |f.kids[p]| && j != k
    ensures f.kids[p][k] !in Desc(f.kids, rank, f.kids[p][j])
  {
    var c, d := f.kids[p][k], f.kids[p][j];
    if c in Desc(f.kids, rank, d) {
      DescParent(f, rank, c, d);
      DescBounds(f.kids, rank, d, p);
    }
  }

  /** Every node belongs to the tree of its root. */
  lemma {:induction false} RootDesc(f: Forest, rank: seq<nat>, id: nat)
    requires Wf(f, rank) && id < |f.names|
    ensures id in Desc(f.kids, rank, Root(f, rank, id))
    decreases |f.names| - rank[id]
  {
    if f.parents[id].Some? {
      var p := f.parents[id].value;
      ParentRank(f, rank, id);
      RootDesc(f, rank, p);
      var k :| 0 <= k < |f.kids[p]| && f.kids[p][k] == id;
      KidDesc(f.kids, rank, p, k);
      DescTrans(f.kids, rank, p, Root(f, rank, id));
    }
  }

  /** Invariant of lines 74-75: a collapsed node has no expanded child. */
  lemma CollapsedKids(f: Forest, rank: seq<nat>, i: nat)
    requires Wf(f, rank) && ExpansionOk(f, rank) && i < |f.names| && !f.expanded[i]
    ensures forall k :: 0 <= k < |f.kids[i]| ==> !f.expanded[f.kids[i][k]]
  {
    forall k | 0 <= k < |f.kids[i]|
      ensures !f.expanded[f.kids[i][k]]
    {
      assert f.parents[f.kids[i][k]] == Some(i);
    }
  }

  /** `is_empty` (tm_trees.py:141-144). */
  predicate IsEmpty(f: Forest, id: nat)
    requires id < |f.names|
  {
    f.names[id].None?
  }

  /** The empty tree stands alone (invariant of lines 67-69): no children,
      no parent, size 0, and no node lists it as a child. */
  lemma EmptyAlone(f: Forest, rank: seq<nat>, id: nat)
    requires Wf(f, rank) && id < |f.names| && IsEmpty(f, id)
    ensures f.kids[id] == [] && f.parents[id].None? && f.sizes[id] == 0
    ensures Desc(f.kids, rank, id) == {id}
    ensures forall i :: 0 <= i < |f.names| ==> id !in f.kids[i]
  {
    forall i, k | 0 <= i < |f.names| && 0 <= k < |f.kids[i]|
      ensures f.kids[i][k] != id
    {
      assert f.parents[f.kids[i][k]] == Some(i);
    }
  }

  /** A sum of sizes only depends on the sizes of the nodes summed. */
  lemma {:induction false} SumSizesFrame(a: seq<int>, b: seq<int>, ks: seq<nat>)
    requires forall k :: 0 <= k < |ks| ==> ks[k] < |a| && ks[k] < |b| && a[ks[k]] == b[ks[k]]
    ensures SumSizes(a, ks) == SumSizes(b, ks)
    decreases |ks|
  {
    if ks != [] {
      SumSizesFrame(a, b, ks[..|ks| - 1]);
    }
  }

  /** The subtrees of two different children of a node share no node. */
  lemma {:induction false} SiblingsDisjoint(f: Forest, rank: seq<nat>, p: nat, j: nat, k: nat, x: nat)
    requires Wf(f, rank) && p < |f.names| && j < |f.kids[p]| && k < |f.kids[p]|
    requires x < |f.names| && x in Desc(f.kids, rank, f.kids[p][j]) && x in Desc(f.kids, rank, f.kids[p][k])
    ensures j == k
    decreases |f.names| - rank[x]
  {
    var a, b := f.kids[p][j], f.kids[p][k];
    DescBounds(f.kids, rank, a, x);
    if x == a || x == b {
      if j != k {
        if x == a {
          SiblingNotDesc(f, rank, p, k, j);
        } else {
          SiblingNotDesc(f, rank, p, j, k);
        }
      }
    } else {
      DescParent(f, rank, x, a);
      DescParent(f, rank, x, b);
      ParentRank(f, rank, x);
      SiblingsDisjoint(f, rank, p, j, k, f.parents[x].value);
    }
  }

  /** Changing only sizes and flags keeps the structure well formed, as long
      as the empty tree keeps size 0. */
  lemma WfFrame(f: Forest, g: Forest, rank: seq<nat>)
    requires Wf(f, rank)
    requires g.names == f.names && g.kids == f.kids && g.parents == f.parents && g.colours == f.colours
    requires |g.sizes| == |f.sizes| && |g.expanded| == |f.expanded|
    requires forall i :: 0 <= i < |f.names| && f.names[i].None? ==> g.sizes[i] == 0
    ensures Wf(g, rank)
  {
  }

  /** A node is listed only by its parent. */
  lemma OnlyListedByParent(f: Forest, rank: seq<nat>, c: nat)
    requires Wf(f, rank) && c < |f.names|
    ensures forall i :: 0 <= i < |f.names| && c in f.kids[i] ==> f.parents[c] == Some(i)
  {
    forall i | 0 <= i < |f.names| && c in f.kids[i]
      ensures f.parents[c] == Some(i)
    {
      var k :| 0 <= k < |f.kids[i]| && f.kids[i][k] == c;
    }
  }

  /** `list.remove`: the list without the first occurrence of `x`. */
  function RemoveFirst(s: seq<nat>, x: nat): (r: seq<nat>)
    ensures |r| == if x in s then |s| - 1 else |s|
    ensures forall y :: y in r ==> y in s
    ensures forall y :: y in s && y != x ==> y in r
  {
    if s == [] then []
    else if s[0] == x then s[1..]
    else [s[0]] + RemoveFirst(s[1..], x)
  }

  /** Removing the first occurrence, found at index `i`, keeps the order of
      everything else. */
  lemma {:induction false} RemoveFirstAt(s: seq<nat>, x: nat, i: nat)
    requires i < |s| && s[i] == x && x !in s[..i]
    ensures RemoveFirst(s, x) == s[..i] + s[i + 1..]
    decreases i
  {
    if i > 0 {
      assert s[0] != x by { assert s[0] == s[..i][0]; }
      assert x !in s[1..][..i - 1] by { assert s[1..][..i - 1] == s[..i][1..]; }
      RemoveFirstAt(s[1..], x, i - 1);
      assert s[..i] == [s[0]] + s[1..][..i - 1];
      assert s[i + 1..] == s[1..][i..];
    }
  }

  /** Removing an element from a list without repetition leaves a list
      without repetition that lacks it. */
  lemma RemoveFirstDistinct(s: seq<nat>, x: nat, i: nat)
    requires i < |s| && s[i] == x
    requires forall a, b :: 0 <= a < b < |s| ==> s[a] != s[b]
    ensures RemoveFirst(s, x) == s[..i] + s[i + 1..]
    ensures x !in RemoveFirst(s, x)
    ensures forall a, b :: 0 <= a < b < |RemoveFirst(s, x)| ==> RemoveFirst(s, x)[a] != RemoveFirst(s, x)[b]
  {
    RemoveFirstAt(s, x, i);
    var r := s[..i] + s[i + 1..];
    forall a | 0 <= a < |r|
      ensures r[a] == s[if a < i then a else a + 1]
    {
    }
  }

  /** Multiplying by a non-negative factor keeps the order. */
  lemma MulLe(a: int, b: int, t: int)
    requires a <= b && t >= 0
    ensures a * t <= b * t
  {
    assert b * t - a * t == (b - a) * t;
  }
}
