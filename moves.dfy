/** Moving a leaf under another node (`TMTree.move`) as a function on the
    arena, and what the move keeps. */
module Moves {
  import opened Trees

  /** The arena after `move` (tm_trees.py:287-296) moves the leaf `id`
      under `dest`: `id` is appended to the children of `dest`, then its
      first occurrence is removed from its old parent's children, which
      drops to size 0 if no child is left, and `dest` becomes its parent. */
  function Moved(f: Forest, id: nat, dest: nat): Forest
    requires id < |f.parents| && dest < |f.kids| && f.parents[id].Some?
    requires f.parents[id].value < |f.kids| && f.parents[id].value < |f.sizes|
  {
    var p := f.parents[id].value;
    var ks := f.kids[dest := f.kids[dest] + [id]];
    var ks2 := ks[p := RemoveFirst(ks[p], id)];
    Forest(f.names, if ks2[p] == [] then f.sizes[p := 0] else f.sizes, ks2,
           f.parents[id := Some(dest)], f.expanded, f.colours)
  }

  /** The case in which `move` acts: a leaf with a parent goes under a node
      with children. */
  ghost predicate Movable(f: Forest, rank: seq<nat>, id: nat, dest: nat) {
    && Wf(f, rank) && id < |f.names| && dest < |f.names|
    && f.kids[id] == [] && f.kids[dest] != [] && f.parents[id].Some?
  }

  /** The two lists a move touches: the old parent's `p` loses the leaf at
      its first position `j` and `dest`'s gains it at the end (when they are
      the same list, the leaf moves to the end). */
  lemma MovedKids(kids: seq<seq<nat>>, id: nat, p: nat, dest: nat, j: nat, ks: seq<seq<nat>>)
    requires p < |kids| && dest < |kids| && j < |kids[p]| && kids[p][j] == id && id !in kids[p][..j]
    requires ks == (var k1 := kids[dest := kids[dest] + [id]]; k1[p := RemoveFirst(k1[p], id)])
    ensures |ks| == |kids|
    ensures ks[p] == if p == dest then kids[p][..j] + kids[p][j + 1..] + [id] else kids[p][..j] + kids[p][j + 1..]
    ensures p != dest ==> ks[dest] == kids[dest] + [id]
    ensures forall i :: 0 <= i < |ks| && i != p && i != dest ==> ks[i] == kids[i]
  {
    var s := kids[p];
    var k1 := kids[dest := kids[dest] + [id]];
    if p == dest {
      var t := s + [id];
      assert k1[p] == t;
      assert t[..j] == s[..j] && t[j + 1..] == s[j + 1..] + [id];
      RemoveFirstAt(t, id, j);
      assert s[..j] + (s[j + 1..] + [id]) == s[..j] + s[j + 1..] + [id];
    } else {
      assert k1[p] == s;
      RemoveFirstAt(s, id, j);
    }
  }

  /** The child lists after a move, on the lists alone: `id` is the last
      child of `dest` and the child of no other node, no other node changes
      its children, and only the old parent `p` and `dest` have their lists
      touched, none with a repetition. */
  lemma KidsMoved(kids: seq<seq<nat>>, id: nat, p: nat, dest: nat, j: nat, ks: seq<seq<nat>>)
    requires p < |kids| && dest < |kids| && j < |kids[p]| && kids[p][j] == id
    requires forall i :: 0 <= i < |kids| && id in kids[i] ==> i == p
    requires forall i, a, b :: 0 <= i < |kids| && 0 <= a < b < |kids[i]| ==> kids[i][a] != kids[i][b]
    requires ks == (var k1 := kids[dest := kids[dest] + [id]]; k1[p := RemoveFirst(k1[p], id)])
    ensures |ks| == |kids|
    ensures ks[dest] != [] && ks[dest][|ks[dest]| - 1] == id
    ensures forall i :: 0 <= i < |ks| ==> (id in ks[i] <==> i == dest)
    ensures forall i, c :: 0 <= i < |ks| && c != id ==> (c in ks[i] <==> c in kids[i])
    ensures forall i :: 0 <= i < |ks| && i != p && i != dest ==> ks[i] == kids[i]
    ensures forall i, a, b :: 0 <= i < |ks| && 0 <= a < b < |ks[i]| ==> ks[i][a] != ks[i][b]
  {
    var s := kids[p];
    assert id !in s[..j] by {
      forall a | 0 <= a < j
        ensures s[..j][a] != id
      {
        assert s[a] != s[j];
      }
    }
    MovedKids(kids, id, p, dest, j, ks);
    RemoveFirstDistinct(s, id, j);
    var r := s[..j] + s[j + 1..];
    assert r == RemoveFirst(s, id);
    if p == dest {
      DistinctAppend(r, id);
    } else {
      assert id !in kids[dest];
      DistinctAppend(kids[dest], id);
    }
  }

  /** The child lists after a move on a well-formed arena. */
  lemma MovedLists(f: Forest, rank: seq<nat>, id: nat, dest: nat, g: Forest)
    requires Movable(f, rank, id, dest) && g == Moved(f, id, dest)
    ensures |g.kids| == |f.kids|
    ensures g.kids[dest] != [] && g.kids[dest][|g.kids[dest]| - 1] == id
    ensures forall i :: 0 <= i < |g.kids| ==> (id in g.kids[i] <==> i == dest)
    ensures forall i, c :: 0 <= i < |g.kids| && c != id ==> (c in g.kids[i] <==> c in f.kids[i])
    ensures forall i :: 0 <= i < |g.kids| && i != f.parents[id].value && i != dest ==> g.kids[i] == f.kids[i]
    ensures forall i, j, k :: 0 <= i < |g.kids| && 0 <= j < k < |g.kids[i]| ==> g.kids[i][j] != g.kids[i][k]
  {
    var p := f.parents[id].value;
    var s := f.kids[p];
    assert id in s;
    var j :| 0 <= j < |s| && s[j] == id;
    OnlyListedByParent(f, rank, id);
    KidsMoved(f.kids, id, p, dest, j, g.kids);
  }

  /** Appending an absent element keeps a list without repetition. */
  lemma DistinctAppend(s: seq<nat>, x: nat)
    requires x !in s && forall a, b :: 0 <= a < b < |s| ==> s[a] != s[b]
    ensures forall a, b :: 0 <= a < b < |s + [x]| ==> (s + [x])[a] != (s + [x])[b]
  {
  }

  /** Child lists in which the leaf `id` moved under `dest` keep every
      child ranked below its parent once `id` takes rank 0. */
  lemma KidsShapedMoved(kids: seq<seq<nat>>, rank: seq<nat>, id: nat, dest: nat, ks: seq<seq<nat>>)
    requires KidsShaped(kids, rank) && id < |kids| && dest < |kids| && kids[id] == [] && kids[dest] != []
    requires |ks| == |kids|
    requires forall i :: 0 <= i < |ks| ==> (id in ks[i] <==> i == dest)
    requires forall i, c :: 0 <= i < |ks| && c != id ==> (c in ks[i] <==> c in kids[i])
    ensures KidsShaped(ks, rank[id := 0])
  {
    var rg := rank[id := 0];
    var n := |kids|;
    var d := kids[dest][0];
    assert rank[d] < rank[dest];
    forall i, k | 0 <= i < n && 0 <= k < |ks[i]|
      ensures ks[i][k] < n && rg[ks[i][k]] < rg[i]
    {
      var c := ks[i][k];
      assert c in ks[i];
      if c != id {
        var k' :| 0 <= k' < |kids[i]| && kids[i][k'] == c;
        assert i != id by { assert kids[id] == []; }
      }
    }
  }

  /** A move keeps the arena's shape once the moved leaf takes rank 0. */
  lemma MovedShaped(f: Forest, rank: seq<nat>, id: nat, dest: nat, g: Forest)
    requires Movable(f, rank, id, dest) && g == Moved(f, id, dest)
    ensures Shaped(g, rank[id := 0])
  {
    MovedLists(f, rank, id, dest, g);
    KidsShapedMoved(f.kids, rank, id, dest, g.kids);
  }

  /** A move keeps the arena well-formed, the moved leaf taking rank 0, and
      puts the leaf in the tree of `dest`. */
  lemma MovedWf(f: Forest, rank: seq<nat>, id: nat, dest: nat)
    requires Movable(f, rank, id, dest)
    ensures Wf(Moved(f, id, dest), rank[id := 0])
    ensures Root(Moved(f, id, dest), rank[id := 0], id) == Root(Moved(f, id, dest), rank[id := 0], dest)
  {
    var g := Moved(f, id, dest);
    var rg := rank[id := 0];
    var p := f.parents[id].value;
    var n := |f.names|;
    MovedLists(f, rank, id, dest, g);
    MovedShaped(f, rank, id, dest, g);
    forall i, k | 0 <= i < n && 0 <= k < |g.kids[i]|
      ensures g.parents[g.kids[i][k]] == Some(i)
    {
      var c := g.kids[i][k];
      assert c in g.kids[i];
      if c != id {
        var k' :| 0 <= k' < |f.kids[i]| && f.kids[i][k'] == c;
      }
    }
    forall c | 0 <= c < n && g.parents[c].Some?
      ensures g.parents[c].value < n && c in g.kids[g.parents[c].value]
    {
    }
    forall i | 0 <= i < n && g.names[i].None?
      ensures g.kids[i] == [] && g.parents[i].None? && g.sizes[i] == 0
    {
      assert i != id && i != dest && i != p;
    }
    assert Wf(g, rg);
  }

  /** On a tree whose visibility invariant holds, the invariant still holds
      after a move exactly when the old parent keeps a child or is
      collapsed: `move` does not collapse a parent it leaves childless
      (tm_trees.py:76). */
  lemma MovedExpansion(f: Forest, rank: seq<nat>, id: nat, dest: nat)
    requires Movable(f, rank, id, dest) && ExpansionOk(f, rank)
    ensures Wf(Moved(f, id, dest), rank[id := 0])
    ensures ExpansionOk(Moved(f, id, dest), rank[id := 0]) <==>
              Moved(f, id, dest).kids[f.parents[id].value] != [] || !f.expanded[f.parents[id].value]
  {
    var g := Moved(f, id, dest);
    MovedWf(f, rank, id, dest);
    MovedLists(f, rank, id, dest, g);
    var p := f.parents[id].value;
    assert !f.expanded[id];
    if g.kids[p] != [] || !f.expanded[p] {
      forall i | 0 <= i < |g.names| && g.expanded[i]
        ensures g.kids[i] != [] && (g.parents[i].Some? ==> g.expanded[g.parents[i].value])
      {
        assert i != id;
      }
    }
  }
}
