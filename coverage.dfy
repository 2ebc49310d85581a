/** How the displayed rectangles of a laid-out tree relate to the tree's own
    rectangle. The last child takes the rest of the axis even when its size
    is 0, and a node of size 0 places itself at a point and is not
    displayed, so the rounding remainder of a strip layout can be shown by
    no node at all. */
module Coverage {
  import opened Trees
  import opened Treemap
  import opened Display

  /** A folder `4` of size 3 over the leaves `0` to `3` of sizes 1, 1, 1
      and 0, the folder expanded and its leaves collapsed. */
  function ZeroTail(): Forest {
    Forest([Some("a"), Some("b"), Some("c"), Some("d"), Some("p")],
           [1, 1, 1, 0, 3],
           [[], [], [], [], [0, 1, 2, 3]],
           [Some(4), Some(4), Some(4), Some(4), None],
           [false, false, false, false, true],
           [Colour(0, 0, 0), Colour(0, 0, 0), Colour(0, 0, 0), Colour(0, 0, 0), Colour(0, 0, 0)])
  }

  /** The shape of `ZeroTail` the layout and the hit test depend on. */
  ghost predicate ZeroTailed(f: Forest) {
    && |f.names| == 5 && |f.sizes| == 5 && |f.kids| == 5 && |f.expanded| == 5
    && f.kids == [[], [], [], [], [0, 1, 2, 3]] && f.sizes == [1, 1, 1, 0, 3]
    && f.expanded == [false, false, false, false, true]
    && forall i :: 0 <= i < 5 ==> f.names[i].Some?
  }

  lemma ZeroTailShaped()
    ensures Shaped(ZeroTail(), [0, 0, 0, 0, 1])
  {
    var ks, rank := ZeroTail().kids, [0, 0, 0, 0, 1];
    forall i, k | 0 <= i < 5 && 0 <= k < |ks[i]|
      ensures ks[i][k] < 5 && rank[ks[i][k]] < rank[i]
    {
      assert i == 4 && ks[4][k] == k;
    }
  }

  lemma ZeroTailParents()
    ensures var f := ZeroTail();
            forall i, k :: 0 <= i < 5 && 0 <= k < |f.kids[i]| ==> f.parents[f.kids[i][k]] == Some(i)
    ensures var f := ZeroTail();
            forall c :: 0 <= c < 5 && f.parents[c].Some? ==> f.parents[c].value < 5 && c in f.kids[f.parents[c].value]
  {
    var f := ZeroTail();
    forall i, k | 0 <= i < 5 && 0 <= k < |f.kids[i]|
      ensures f.parents[f.kids[i][k]] == Some(i)
    {
      assert i == 4 && f.kids[4][k] == k;
    }
    forall c | 0 <= c < 5 && f.parents[c].Some?
      ensures f.parents[c].value < 5 && c in f.kids[f.parents[c].value]
    {
      assert c < 4 && f.kids[4][c] == c;
    }
  }

  lemma ZeroTailDistinct()
    ensures var ks := ZeroTail().kids;
            forall i, j, k :: 0 <= i < 5 && 0 <= j < k < |ks[i]| ==> ks[i][j] != ks[i][k]
  {
    var ks := ZeroTail().kids;
    forall i, j, k | 0 <= i < 5 && 0 <= j < k < |ks[i]|
      ensures ks[i][j] != ks[i][k]
    {
      assert i == 4 && ks[4][j] == j && ks[4][k] == k;
    }
  }

  lemma LeavesSum(s: seq<int>)
    requires |s| == 5 && s[0] == 1 && s[1] == 1 && s[2] == 1 && s[3] == 0
    ensures SumSizes(s, [0, 1, 2, 3]) == 3
  {
    var ks := [0, 1, 2, 3];
    assert ks[..3] == [0, 1, 2] && ks[..3][..2] == [0, 1] && ks[..3][..2][..1] == [0];
    assert SumSizes(s, [0]) == 1;
    assert SumSizes(s, [0, 1]) == 2;
    assert SumSizes(s, [0, 1, 2]) == 3;
  }

  lemma ZeroTailSized(f: Forest, rank: seq<nat>)
    requires Shaped(f, rank) && ZeroTailed(f)
    ensures NonNegative(f) && Consistent(f, rank)
  {
    LeavesSum(f.sizes);
  }

  /** The arena above is a well-formed tree of that shape: its sizes are
      non-negative and consistent, and it meets the visibility invariant. */
  lemma ZeroTailOk()
    ensures Wf(ZeroTail(), [0, 0, 0, 0, 1]) && ZeroTailed(ZeroTail())
    ensures NonNegative(ZeroTail()) && Consistent(ZeroTail(), [0, 0, 0, 0, 1])
    ensures ExpansionOk(ZeroTail(), [0, 0, 0, 0, 1])
  {
    ZeroTailShaped();
    ZeroTailParents();
    ZeroTailDistinct();
    var f, rank := ZeroTail(), [0, 0, 0, 0, 1];
    assert forall i :: 0 <= i < 5 ==> f.names[i].Some?;
    assert forall i :: 0 <= i < 5 ==> ColourOk(f.colours[i]);
    assert Linked(f, rank);
    assert Wf(f, rank);
    assert forall i :: 0 <= i < 4 ==> !f.expanded[i];
    ZeroTailSized(f, rank);
  }

  /** One turn of the strip loop along the width over a leaf child. */
  lemma WideLeafTurn(f: Forest, rank: seq<nat>, p: nat, r: Rect, i: nat,
                     x: int, y: int, totalWidth: int, totalHeight: int, rs: seq<Rect>)
    requires Wf(f, rank) && p < |f.names| && |rs| == |f.names|
    requires f.sizes[p] != 0 && i < |f.kids[p]| && f.kids[f.kids[p][i]] == [] && r.width > r.height
    ensures var c := f.kids[p][i];
            var d := IsLastDim(f, rank, c, r.width, totalWidth, Share(r.width, f.sizes[c], f.sizes[p]));
            LayoutKids(f, rank, p, r, i, x, y, totalWidth, totalHeight, rs) ==
            LayoutKids(f, rank, p, r, i + 1, x + d, y, totalWidth + d, totalHeight,
                       rs[c := Placed(f, c, Rect(x, y, d, r.height))])
  {
  }

  /** One turn of the strip loop in (0, 0, 5, 2): leaf `i` starts at `x`,
      gets the strip length `d` and places itself at `p`. */
  lemma ZeroTailStep(f: Forest, rank: seq<nat>, rs: seq<Rect>, i: nat, x: int, d: int, p: Rect)
    requires Wf(f, rank) && ZeroTailed(f) && |rs| == 5 && i < 4
    requires x == i && d == [1, 1, 1, 2][i]
    requires p == [Rect(0, 0, 1, 2), Rect(1, 0, 1, 2), Rect(2, 0, 1, 2), Rect(3, 0, 0, 0)][i]
    ensures LayoutKids(f, rank, 4, Rect(0, 0, 5, 2), i, x, 0, x, 0, rs) ==
            LayoutKids(f, rank, 4, Rect(0, 0, 5, 2), i + 1, x + d, 0, x + d, 0, rs[i := p])
  {
    assert f.kids[4][i] == i && f.kids[i] == [];
    assert IsLastDim(f, rank, i, 5, x, Share(5, f.sizes[i], 3)) == d;
    assert Placed(f, i, Rect(x, 0, d, 2)) == p;
    WideLeafTurn(f, rank, 4, Rect(0, 0, 5, 2), i, x, 0, x, 0, rs);
  }

  /** Laid out in (0, 0, 5, 2), the folder splits the width into the strips
      1, 1, 1 and 2. The leaf of size 0 takes the last strip, 2 wide, but
      places itself at (3, 0, 0, 0). */
  lemma ZeroTailLayout(f: Forest, rank: seq<nat>, rs: seq<Rect>)
    requires Wf(f, rank) && ZeroTailed(f) && |rs| == 5
    ensures var out := Layout(f, rank, 4, Rect(0, 0, 5, 2), rs);
            && |out| == 5 && out[0] == Rect(0, 0, 1, 2) && out[1] == Rect(1, 0, 1, 2)
            && out[2] == Rect(2, 0, 1, 2) && out[3] == Rect(3, 0, 0, 0) && out[4] == Rect(0, 0, 5, 2)
  {
    var r := Rect(0, 0, 5, 2);
    var rs0 := rs[4 := r];
    var rs1 := rs0[0 := Rect(0, 0, 1, 2)];
    var rs2 := rs1[1 := Rect(1, 0, 1, 2)];
    var rs3 := rs2[2 := Rect(2, 0, 1, 2)];
    var rs4 := rs3[3 := Rect(3, 0, 0, 0)];
    ZeroTailStep(f, rank, rs0, 0, 0, 1, Rect(0, 0, 1, 2));
    ZeroTailStep(f, rank, rs1, 1, 1, 1, Rect(1, 0, 1, 2));
    ZeroTailStep(f, rank, rs2, 2, 2, 1, Rect(2, 0, 1, 2));
    ZeroTailStep(f, rank, rs3, 3, 3, 2, Rect(3, 0, 0, 0));
    assert rs4[0] == Rect(0, 0, 1, 2) && rs4[1] == Rect(1, 0, 1, 2) && rs4[2] == Rect(2, 0, 1, 2);
    assert rs4[3] == Rect(3, 0, 0, 0) && rs4[4] == r;
    assert Layout(f, rank, 4, r, rs) == LayoutKids(f, rank, 4, r, 4, 5, 0, 5, 0, rs4) == rs4;
  }

  /** After that layout, the point (4, 1) lies strictly inside the folder's
      rectangle but in no displayed rectangle, so `get_tree_at_position`
      finds no tree at a point that is not outside the tree's rectangle. */
  lemma UncoveredPoint(f: Forest, rank: seq<nat>, rs: seq<Rect>)
    requires Wf(f, rank) && ZeroTailed(f) && |rs| == 5
    ensures var out := Layout(f, rank, 4, Rect(0, 0, 5, 2), rs);
            && out[4].x < 4 < out[4].x + out[4].width && out[4].y < 1 < out[4].y + out[4].height
            && Hits(f, rank, out, 4, 4, 1) == []
  {
    ZeroTailLayout(f, rank, rs);
    var out := Layout(f, rank, 4, Rect(0, 0, 5, 2), rs);
    assert forall c :: 0 <= c < 4 ==> Hits(f, rank, out, c, 4, 1) == [];
    assert HitsKids(f, rank, out, 4, 1, 4, 1) == HitsKids(f, rank, out, 4, 0, 4, 1) + Hits(f, rank, out, 0, 4, 1);
    assert HitsKids(f, rank, out, 4, 2, 4, 1) == HitsKids(f, rank, out, 4, 1, 4, 1) + Hits(f, rank, out, 1, 4, 1);
    assert HitsKids(f, rank, out, 4, 3, 4, 1) == HitsKids(f, rank, out, 4, 2, 4, 1) + Hits(f, rank, out, 2, 4, 1);
    assert HitsKids(f, rank, out, 4, 4, 4, 1) == HitsKids(f, rank, out, 4, 3, 4, 1) + Hits(f, rank, out, 3, 4, 1);
  }
}
