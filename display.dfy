/** Display queries: the rectangles of the displayed tree
    (`get_rectangles`), the displayed nodes under a point (`_list_rec`,
    `_in_rec`) and the hit test (`get_tree_at_position`). A node is
    displayed as one rectangle when it is collapsed and its size is not 0;
    an expanded node shows its children instead. */
module Display {
  import opened Trees

  /** `_in_rec` (tm_trees.py:259-267): containment, inclusive on all four
      edges. */
  predicate InRec(r: Rect, px: int, py: int) {
    r.x <= px <= r.x + r.width && r.y <= py <= r.y + r.height
  }

  /** A point on the edge two side-by-side rectangles share lies in both, so
      the hit test must break the tie. */
  lemma SharedEdge(a: Rect, b: Rect, py: int)
    requires a.width >= 0 && b.width >= 0 && a.x + a.width == b.x
    requires a.y == b.y && a.height == b.height && a.y <= py <= a.y + a.height
    ensures InRec(a, b.x, py) && InRec(b, b.x, py)
  {
  }

  type Entry = (Rect, Colour)

  /** The (rectangle, colour) entries get_rectangles returns for `id`. */
  ghost function Displayed(f: Forest, rank: seq<nat>, rects: seq<Rect>, id: nat): seq<Entry>
    requires Shaped(f, rank) && |rects| == |f.names| && id < |f.names|
    decreases rank[id], 1
  {
    if f.sizes[id] == 0 then []
    else if !f.expanded[id] then [(rects[id], f.colours[id])]
    else DisplayedKids(f, rank, rects, id, |f.kids[id]|)
  }

  ghost function DisplayedKids(f: Forest, rank: seq<nat>, rects: seq<Rect>, id: nat, i: nat): seq<Entry>
    requires Shaped(f, rank) && |rects| == |f.names| && id < |f.names| && i <= |f.kids[id]|
    decreases rank[id], 0, i
  {
    if i == 0 then []
    else DisplayedKids(f, rank, rects, id, i - 1) + Displayed(f, rank, rects, f.kids[id][i - 1])
  }

  /** The displayed nodes under (px, py) that `_list_rec` returns for `id`. */
  ghost function Hits(f: Forest, rank: seq<nat>, rects: seq<Rect>, id: nat, px: int, py: int): seq<nat>
    requires Shaped(f, rank) && |rects| == |f.names| && id < |f.names|
    decreases rank[id], 1
  {
    if f.sizes[id] == 0 then []
    else if !f.expanded[id] then (if InRec(rects[id], px, py) then [id] else [])
    else HitsKids(f, rank, rects, id, |f.kids[id]|, px, py)
  }

  ghost function HitsKids(f: Forest, rank: seq<nat>, rects: seq<Rect>, id: nat, i: nat, px: int, py: int): seq<nat>
    requires Shaped(f, rank) && |rects| == |f.names| && id < |f.names| && i <= |f.kids[id]|
    decreases rank[id], 0, i
  {
    if i == 0 then []
    else HitsKids(f, rank, rects, id, i - 1, px, py) + Hits(f, rank, rects, f.kids[id][i - 1], px, py)
  }

  /** `get_rectangles` (tm_trees.py:198-213), with its accumulating loop. */
  method GetRectangles(f: Forest, ghost rank: seq<nat>, rects: seq<Rect>, id: nat) returns (out: seq<Entry>)
    requires Shaped(f, rank) && |rects| == |f.names| && id < |f.names|
    ensures out == Displayed(f, rank, rects, id)
    decreases rank[id]
  {
    if f.sizes[id] == 0 {
      return [];
    } else if !f.expanded[id] {
      return [(rects[id], f.colours[id])];
    }
    out := [];
    for i := 0 to |f.kids[id]|
      invariant out == DisplayedKids(f, rank, rects, id, i)
    {
      var more := GetRectangles(f, rank, rects, f.kids[id][i]);
      out := out + more;
    }
  }

  /** `_list_rec` (tm_trees.py:241-257), with its accumulating loop. */
  method ListRec(f: Forest, ghost rank: seq<nat>, rects: seq<Rect>, id: nat, px: int, py: int)
    returns (out: seq<nat>)
    requires Shaped(f, rank) && |rects| == |f.names| && id < |f.names|
    ensures out == Hits(f, rank, rects, id, px, py)
    decreases rank[id]
  {
    if f.sizes[id] == 0 {
      return [];
    } else if !f.expanded[id] {
      if InRec(rects[id], px, py) {
        return [id];
      }
      return [];
    }
    out := [];
    for i := 0 to |f.kids[id]|
      invariant out == HitsKids(f, rank, rects, id, i, px, py)
    {
      var more := ListRec(f, rank, rects, f.kids[id][i], px, py);
      out := out + more;
    }
  }

  /** The entries of the nodes `ns`. */
  function EntriesOf(f: Forest, rects: seq<Rect>, ns: seq<nat>): seq<Entry>
    requires |rects| == |f.colours| && forall j :: 0 <= j < |ns| ==> ns[j] < |rects|
  {
    if ns == [] then [] else EntriesOf(f, rects, ns[..|ns| - 1]) + [(rects[ns[|ns| - 1]], f.colours[ns[|ns| - 1]])]
  }

  /** The entries whose rectangle contains (px, py), in order. */
  function EntriesAt(es: seq<Entry>, px: int, py: int): seq<Entry> {
    if es == [] then []
    else EntriesAt(es[..|es| - 1], px, py) + (if InRec(es[|es| - 1].0, px, py) then [es[|es| - 1]] else [])
  }

  lemma {:induction false} EntriesOfAppend(f: Forest, rects: seq<Rect>, a: seq<nat>, b: seq<nat>)
    requires |rects| == |f.colours|
    requires forall j :: 0 <= j < |a| ==> a[j] < |rects|
    requires forall j :: 0 <= j < |b| ==> b[j] < |rects|
    ensures EntriesOf(f, rects, a + b) == EntriesOf(f, rects, a) + EntriesOf(f, rects, b)
    decreases |b|
  {
    if b != [] {
      assert (a + b)[..|a + b| - 1] == a + b[..|b| - 1];
      EntriesOfAppend(f, rects, a, b[..|b| - 1]);
    } else {
      assert a + b == a;
    }
  }

  lemma {:induction false} EntriesAtAppend(a: seq<Entry>, b: seq<Entry>, px: int, py: int)
    ensures EntriesAt(a + b, px, py) == EntriesAt(a, px, py) + EntriesAt(b, px, py)
    decreases |b|
  {
    if b != [] {
      assert (a + b)[..|a + b| - 1] == a + b[..|b| - 1];
      EntriesAtAppend(a, b[..|b| - 1], px, py);
    } else {
      assert a + b == a;
    }
  }

  /** The hits of a node are nodes of its subtree. */
  lemma {:induction false} HitsInRange(f: Forest, rank: seq<nat>, rects: seq<Rect>, id: nat, px: int, py: int)
    requires Shaped(f, rank) && |rects| == |f.names| && id < |f.names|
    ensures forall j :: 0 <= j < |Hits(f, rank, rects, id, px, py)| ==>
              Hits(f, rank, rects, id, px, py)[j] in Desc(f.kids, rank, id)
    decreases rank[id], 1
  {
    if f.sizes[id] != 0 && f.expanded[id] {
      HitsKidsInRange(f, rank, rects, id, |f.kids[id]|, px, py);
    }
  }

  lemma {:induction false} HitsKidsInRange(f: Forest, rank: seq<nat>, rects: seq<Rect>, id: nat, i: nat, px: int, py: int)
    requires Shaped(f, rank) && |rects| == |f.names| && id < |f.names| && i <= |f.kids[id]|
    ensures forall j :: 0 <= j < |HitsKids(f, rank, rects, id, i, px, py)| ==>
              HitsKids(f, rank, rects, id, i, px, py)[j] in Desc(f.kids, rank, id)
    decreases rank[id], 0, i
  {
    if i > 0 {
      HitsKidsInRange(f, rank, rects, id, i - 1, px, py);
      HitsInRange(f, rank, rects, f.kids[id][i - 1], px, py);
      KidDesc(f.kids, rank, id, i - 1);
    }
  }

  /** Every hit is a displayed node of the subtree (non-zero size,
      collapsed) whose rectangle contains the point. */
  lemma {:induction false} HitsSound(f: Forest, rank: seq<nat>, rects: seq<Rect>, id: nat, px: int, py: int)
    requires Shaped(f, rank) && |rects| == |f.names| && id < |f.names|
    ensures forall j :: 0 <= j < |Hits(f, rank, rects, id, px, py)| ==>
              var n := Hits(f, rank, rects, id, px, py)[j];
              n in Desc(f.kids, rank, id) && n < |f.names| &&
              f.sizes[n] != 0 && !f.expanded[n] && InRec(rects[n], px, py)
    decreases rank[id], 1
  {
    HitsInRange(f, rank, rects, id, px, py);
    forall j | 0 <= j < |Hits(f, rank, rects, id, px, py)|
      ensures Hits(f, rank, rects, id, px, py)[j] < |f.names|
    {
      DescBounds(f.kids, rank, id, Hits(f, rank, rects, id, px, py)[j]);
    }
    if f.sizes[id] != 0 && f.expanded[id] {
      HitsKidsSound(f, rank, rects, id, |f.kids[id]|, px, py);
    }
  }

  lemma {:induction false} HitsKidsSound(f: Forest, rank: seq<nat>, rects: seq<Rect>, id: nat, i: nat, px: int, py: int)
    requires Shaped(f, rank) && |rects| == |f.names| && id < |f.names| && i <= |f.kids[id]|
    ensures forall j :: 0 <= j < |HitsKids(f, rank, rects, id, i, px, py)| ==>
              var n := HitsKids(f, rank, rects, id, i, px, py)[j];
              n < |f.names| && f.sizes[n] != 0 && !f.expanded[n] && InRec(rects[n], px, py)
    decreases rank[id], 0, i
  {
    if i > 0 {
      HitsKidsSound(f, rank, rects, id, i - 1, px, py);
      HitsSound(f, rank, rects, f.kids[id][i - 1], px, py);
    }
  }

  /** `_list_rec` and `get_rectangles` agree: the entries of the hits at a
      point are exactly the displayed entries whose rectangle contains it,
      in the same order. */
  lemma {:induction false} HitsAreDisplayed(f: Forest, rank: seq<nat>, rects: seq<Rect>, id: nat, px: int, py: int)
    requires Shaped(f, rank) && |rects| == |f.names| && id < |f.names|
    ensures forall j :: 0 <= j < |Hits(f, rank, rects, id, px, py)| ==> Hits(f, rank, rects, id, px, py)[j] < |rects|
    ensures EntriesOf(f, rects, Hits(f, rank, rects, id, px, py)) ==
            EntriesAt(Displayed(f, rank, rects, id), px, py)
    decreases rank[id], 1
  {
    HitsSound(f, rank, rects, id, px, py);
    if f.sizes[id] != 0 {
      if !f.expanded[id] {
        var e := (rects[id], f.colours[id]);
        assert EntriesAt([e], px, py) == EntriesAt([], px, py) + (if InRec(e.0, px, py) then [e] else []);
        if InRec(rects[id], px, py) {
          assert EntriesOf(f, rects, [id]) == EntriesOf(f, rects, []) + [e];
        }
      } else {
        HitsKidsAreDisplayed(f, rank, rects, id, |f.kids[id]|, px, py);
      }
    }
  }

  lemma {:induction false} HitsKidsAreDisplayed(f: Forest, rank: seq<nat>, rects: seq<Rect>, id: nat, i: nat, px: int, py: int)
    requires Shaped(f, rank) && |rects| == |f.names| && id < |f.names| && i <= |f.kids[id]|
    ensures forall j :: 0 <= j < |HitsKids(f, rank, rects, id, i, px, py)| ==> HitsKids(f, rank, rects, id, i, px, py)[j] < |rects|
    ensures EntriesOf(f, rects, HitsKids(f, rank, rects, id, i, px, py)) ==
            EntriesAt(DisplayedKids(f, rank, rects, id, i), px, py)
    decreases rank[id], 0, i
  {
    if i > 0 {
      var c := f.kids[id][i - 1];
      HitsKidsAreDisplayed(f, rank, rects, id, i - 1, px, py);
      HitsAreDisplayed(f, rank, rects, c, px, py);
      EntriesOfAppend(f, rects, HitsKids(f, rank, rects, id, i - 1, px, py), Hits(f, rank, rects, c, px, py));
      EntriesAtAppend(DisplayedKids(f, rank, rects, id, i - 1), Displayed(f, rank, rects, c), px, py);
    }
  }

  /** The squared distance of a rectangle's top-left corner from the origin. */
  function SquaredDistance(r: Rect): int {
    r.x * r.x + r.y * r.y
  }

  /** `hs[k]` is the first of `hs` whose rectangle's top-left corner is
      closest to the origin. */
  ghost predicate FirstClosest(rects: seq<Rect>, hs: seq<nat>, k: nat) {
    && k < |hs|
    && (forall j :: 0 <= j < |hs| ==> hs[j] < |rects|)
    && (forall j :: 0 <= j < |hs| ==> SquaredDistance(rects[hs[k]]) <= SquaredDistance(rects[hs[j]]))
    && (forall j :: 0 <= j < k ==> SquaredDistance(rects[hs[j]]) > SquaredDistance(rects[hs[k]]))
  }

  /** `get_tree_at_position` (tm_trees.py:216-238): of the displayed nodes
      under the point, the one whose rectangle's top-left corner is closest
      to the origin, the first such on a tie; nothing when no displayed node
      is under the point. */
  method GetTreeAtPosition(f: Forest, ghost rank: seq<nat>, rects: seq<Rect>, id: nat, px: int, py: int)
    returns (t: Option<nat>)
    requires Shaped(f, rank) && |rects| == |f.names| && id < |f.names|
    ensures t.None? <==> Hits(f, rank, rects, id, px, py) == []
    ensures t.Some? ==> exists k: nat :: FirstClosest(rects, Hits(f, rank, rects, id, px, py), k) &&
                                    Hits(f, rank, rects, id, px, py)[k] == t.value
  {
    HitsSound(f, rank, rects, id, px, py);
    var hs := ListRec(f, rank, rects, id, px, py);
    if |hs| == 0 {
      return None;
    } else if |hs| == 1 {
      assert FirstClosest(rects, hs, 0);
      return Some(hs[0]);
    }
    var dst: seq<int> := [];
    for i := 0 to |hs|
      invariant |dst| == i
      invariant forall j :: 0 <= j < i ==> dst[j] == SquaredDistance(rects[hs[j]])
    {
      dst := dst + [SquaredDistance(rects[hs[i]])];
    }
    // min(dst), then dst.index of it: the first minimal entry
    var ind := 0;
    for i := 1 to |dst|
      invariant 0 <= ind < i
      invariant forall j :: 0 <= j < i ==> dst[ind] <= dst[j]
      invariant forall j :: 0 <= j < ind ==> dst[j] > dst[ind]
    {
      if dst[i] < dst[ind] {
        ind := i;
      }
    }
    assert FirstClosest(rects, hs, ind);
    return Some(hs[ind]);
  }
}
