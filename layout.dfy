/** The layout engine: `update_rectangles` slices a rectangle into strips
    along its longer side, one strip per child in child order, each as long
    as the floored share of the child's size; the last child takes whatever
    length is left. */
module Treemap {
  import opened Trees

  /** floor(a / b), the value of Python's `math.floor(a / b)` for exact
      arithmetic (Dafny's `/` rounds towards minus infinity only for a
      positive divisor). */
  function FloorDiv(a: int, b: int): (q: int)
    requires b != 0
    ensures b > 0 ==> q * b <= a < q * b + b
    ensures b < 0 ==> q * b + b < a <= q * b
  {
    if b > 0 then a / b else (-a) / (-b)
  }

  /** The floored share of `axis` for a size `s` out of `total`. */
  function Share(axis: int, s: int, total: int): int
    requires total != 0
  {
    FloorDiv(axis * s, total)
  }

  ghost predicate NodesOf(sizes: seq<int>, ks: seq<nat>) {
    forall j :: 0 <= j < |ks| ==> ks[j] < |sizes|
  }

  /** Where the strip of child `k` starts: the shares of the children before
      it. */
  function StripOffset(axis: int, sizes: seq<int>, ks: seq<nat>, total: int, k: nat): int
    requires total != 0 && k <= |ks| && NodesOf(sizes, ks)
  {
    if k == 0 then 0
    else StripOffset(axis, sizes, ks, total, k - 1) + Share(axis, sizes[ks[k - 1]], total)
  }

  /** The length of the strip of child `k`: its share, or for the last child
      the rest of the axis. */
  function StripLength(axis: int, sizes: seq<int>, ks: seq<nat>, total: int, k: nat): int
    requires total != 0 && k < |ks| && NodesOf(sizes, ks)
  {
    if k == |ks| - 1 then axis - StripOffset(axis, sizes, ks, total, k)
    else Share(axis, sizes[ks[k]], total)
  }

  /** The strip of child `k` of a rectangle: a vertical strip when the
      rectangle is wider than high, a horizontal one otherwise. The other
      dimension is kept. */
  function StripRect(r: Rect, sizes: seq<int>, ks: seq<nat>, total: int, k: nat): Rect
    requires total != 0 && k < |ks| && NodesOf(sizes, ks)
  {
    if r.width > r.height then
      Rect(r.x + StripOffset(r.width, sizes, ks, total, k), r.y,
           StripLength(r.width, sizes, ks, total, k), r.height)
    else
      Rect(r.x, r.y + StripOffset(r.height, sizes, ks, total, k),
           r.width, StripLength(r.height, sizes, ks, total, k))
  }

  /** The sum of the lengths of the first `k` strips. */
  function StripsLength(axis: int, sizes: seq<int>, ks: seq<nat>, total: int, k: nat): int
    requires total != 0 && k <= |ks| && NodesOf(sizes, ks)
  {
    if k == 0 then 0
    else StripsLength(axis, sizes, ks, total, k - 1) + StripLength(axis, sizes, ks, total, k - 1)
  }

  /** The strips are contiguous: each starts where the previous ends, and
      together they cover the axis exactly. */
  lemma {:induction false} StripsTile(axis: int, sizes: seq<int>, ks: seq<nat>, total: int, k: nat)
    requires total != 0 && ks != [] && k <= |ks| && NodesOf(sizes, ks)
    ensures k < |ks| ==> StripsLength(axis, sizes, ks, total, k) == StripOffset(axis, sizes, ks, total, k)
    ensures k == |ks| ==> StripsLength(axis, sizes, ks, total, k) == axis
  {
    if k > 0 {
      StripsTile(axis, sizes, ks, total, k - 1);
    }
  }

  /** A multiple of `t` that does not exceed `m` is at most `m / t` times `t`. */
  lemma BelowQuotient(c: int, m: int, t: int)
    requires t > 0 && c * t <= m
    ensures c <= m / t
  {
    var q := m / t;
    assert m == q * t + m % t && m % t < t;
    if q < c {
      assert (q + 1) * t == q * t + t;
      MulLe(q + 1, c, t);
    }
  }

  lemma DivAddBelow(a: int, b: int, t: int)
    requires t > 0
    ensures a / t + b / t <= (a + b) / t
  {
    var qa, qb := a / t, b / t;
    assert a == qa * t + a % t && a % t >= 0;
    assert b == qb * t + b % t && b % t >= 0;
    assert (qa + qb) * t == qa * t + qb * t;
    BelowQuotient(qa + qb, a + b, t);
  }

  lemma DivMono(a: int, b: int, t: int)
    requires t > 0 && a <= b
    ensures a / t <= b / t
  {
    var qa := a / t;
    assert a == qa * t + a % t && a % t >= 0;
    BelowQuotient(qa, b, t);
  }

  lemma MulDiv(a: int, t: int)
    requires t > 0
    ensures (a * t) / t == a
  {
    BelowQuotient(a, a * t, t);
    var q := (a * t) / t;
    assert a * t == q * t + (a * t) % t && (a * t) % t < t;
  }

  lemma PrefixSum(sizes: seq<int>, ks: seq<nat>, k: nat)
    requires k < |ks| && NodesOf(sizes, ks)
    ensures SumSizes(sizes, ks[..k + 1]) == SumSizes(sizes, ks[..k]) + sizes[ks[k]]
  {
    assert ks[..k + 1][..k] == ks[..k];
  }

  lemma {:induction false} PrefixSumNonNegative(sizes: seq<int>, ks: seq<nat>, k: nat)
    requires k <= |ks| && NodesOf(sizes, ks)
    requires forall j :: 0 <= j < |ks| ==> sizes[ks[j]] >= 0
    ensures SumSizes(sizes, ks[..k]) >= 0
  {
    if k > 0 {
      PrefixSum(sizes, ks, k - 1);
      PrefixSumNonNegative(sizes, ks, k - 1);
    }
  }

  lemma {:induction false} PrefixSumBelow(sizes: seq<int>, ks: seq<nat>, k: nat)
    requires k <= |ks| && NodesOf(sizes, ks)
    requires forall j :: 0 <= j < |ks| ==> sizes[ks[j]] >= 0
    ensures SumSizes(sizes, ks[..k]) <= SumSizes(sizes, ks)
    decreases |ks| - k
  {
    if k < |ks| {
      PrefixSum(sizes, ks, k);
      PrefixSumBelow(sizes, ks, k + 1);
    } else {
      assert ks[..k] == ks;
    }
  }

  /** Adding one floored share keeps below the floored share of the sum. */
  lemma ShareAdd(axis: int, p: int, s: int, total: int)
    requires total > 0 && axis >= 0 && s >= 0
    ensures 0 <= Share(axis, s, total)
    ensures (axis * p) / total + Share(axis, s, total) <= (axis * (p + s)) / total
  {
    assert Share(axis, s, total) == (axis * s) / total;
    MulLe(0, s, axis);
    DivMono(0, axis * s, total);
    DivAddBelow(axis * p, axis * s, total);
    assert axis * p + axis * s == axis * (p + s);
  }

  /** The floored shares never add up to more than the floored share of
      their sum. */
  lemma {:induction false} OffsetBelowShare(axis: int, sizes: seq<int>, ks: seq<nat>, total: int, k: nat)
    requires total > 0 && axis >= 0 && k <= |ks| && NodesOf(sizes, ks)
    requires forall j :: 0 <= j < |ks| ==> sizes[ks[j]] >= 0
    ensures 0 <= StripOffset(axis, sizes, ks, total, k) <= (axis * SumSizes(sizes, ks[..k])) / total
  {
    if k == 0 {
      assert ks[..0] == [];
      assert SumSizes(sizes, ks[..0]) == 0;
    } else {
      OffsetBelowShare(axis, sizes, ks, total, k - 1);
      PrefixSum(sizes, ks, k - 1);
      var p, s := SumSizes(sizes, ks[..k - 1]), sizes[ks[k - 1]];
      ShareAdd(axis, p, s, total);
      assert StripOffset(axis, sizes, ks, total, k) ==
             StripOffset(axis, sizes, ks, total, k - 1) + Share(axis, s, total);
    }
  }

  /** When the children's sizes are non-negative and add up to the parent's
      positive size, and the axis is not negative, no strip has a negative
      length. */
  lemma StripsNonNegative(axis: int, sizes: seq<int>, ks: seq<nat>, total: int, k: nat)
    requires total > 0 && axis >= 0 && k < |ks| && NodesOf(sizes, ks)
    requires forall j :: 0 <= j < |ks| ==> sizes[ks[j]] >= 0
    requires SumSizes(sizes, ks) == total
    ensures StripLength(axis, sizes, ks, total, k) >= 0
  {
    if k == |ks| - 1 {
      OffsetBelowShare(axis, sizes, ks, total, k);
      PrefixSumBelow(sizes, ks, k);
      ShareBelowAxis(axis, SumSizes(sizes, ks[..k]), total);
    } else {
      ShareAdd(axis, 0, sizes[ks[k]], total);
    }
  }

  /** The floored share of a part of the total is at most the axis. */
  lemma ShareBelowAxis(axis: int, p: int, total: int)
    requires total > 0 && axis >= 0 && p <= total
    ensures (axis * p) / total <= axis
  {
    MulLe(p, total, axis);
    assert p * axis == axis * p && total * axis == axis * total;
    DivMono(axis * p, axis * total, total);
    MulDiv(axis, total);
  }

  /** `_is_last` (tm_trees.py:187-195): the strip length for child `c` given
      the axis length, the length given out so far and the floored share. A
      child that is the last entry of its parent's child list takes the
      rest of the axis. */
  function IsLastDim(f: Forest, ghost rank: seq<nat>, c: nat, axis: int, done: int, share: int): int
    requires Wf(f, rank) && c < |f.names| && f.parents[c].Some?
  {
    var siblings := f.kids[f.parents[c].value];
    if siblings[|siblings| - 1] == c then axis - done else share
  }

  /** Identity with the last entry of the parent's list is exactly being the
      child at the final index, because a parent lists a child only once. */
  lemma IsLastIff(f: Forest, rank: seq<nat>, p: nat, k: nat, axis: int, done: int, share: int)
    requires Wf(f, rank) && p < |f.names| && k < |f.kids[p]|
    ensures f.kids[p][k] < |f.names| && f.parents[f.kids[p][k]] == Some(p)
    ensures IsLastDim(f, rank, f.kids[p][k], axis, done, share) ==
            if k == |f.kids[p]| - 1 then axis - done else share
  {
    var last := |f.kids[p]| - 1;
    if k != last {
      assert f.kids[p][k] != f.kids[p][last];
    }
  }

  /** The rectangle `update_rectangles(r)` gives the node it is called on:
      nothing for the empty tree, a degenerate one at the origin of `r` for a
      node of size 0, and `r` itself otherwise. */
  function Placed(f: Forest, id: nat, r: Rect): Rect
    requires id < |f.names| && |f.sizes| == |f.names|
  {
    if f.names[id].None? then Rect(0, 0, 0, 0)
    else if f.sizes[id] == 0 then Rect(r.x, r.y, 0, 0)
    else r
  }

  /** The rectangles after `update_rectangles(r)` on node `id`
      (tm_trees.py:146-185), starting from the rectangles `rs`. */
  function Layout(f: Forest, ghost rank: seq<nat>, id: nat, r: Rect, rs: seq<Rect>): (out: seq<Rect>)
    requires Wf(f, rank) && id < |f.names| && |rs| == |f.names|
    ensures |out| == |rs|
    decreases rank[id], 1
  {
    if f.names[id].None? || f.sizes[id] == 0 || f.kids[id] == [] then rs[id := Placed(f, id, r)]
    else LayoutKids(f, rank, id, r, 0, r.x, r.y, 0, 0, rs[id := r])
  }

  /** The loop of `update_rectangles` over the children of `p` from the
      `i`-th on, with the loop's running position and allocated totals. */
  function LayoutKids(f: Forest, ghost rank: seq<nat>, p: nat, r: Rect, i: nat,
                      x: int, y: int, totalWidth: int, totalHeight: int, rs: seq<Rect>): (out: seq<Rect>)
    requires Wf(f, rank) && p < |f.names| && |rs| == |f.names|
    requires f.sizes[p] != 0 && i <= |f.kids[p]|
    ensures |out| == |rs|
    decreases rank[p], 0, |f.kids[p]| - i
  {
    if i == |f.kids[p]| then rs
    else
      var c := f.kids[p][i];
      if r.width > r.height then
        var d := IsLastDim(f, rank, c, r.width, totalWidth, Share(r.width, f.sizes[c], f.sizes[p]));
        LayoutKids(f, rank, p, r, i + 1, x + d, y, totalWidth + d, totalHeight,
                   Layout(f, rank, c, Rect(x, y, d, r.height), rs))
      else
        var d := IsLastDim(f, rank, c, r.height, totalHeight, Share(r.height, f.sizes[c], f.sizes[p]));
        LayoutKids(f, rank, p, r, i + 1, x, y + d, totalWidth, totalHeight + d,
                   Layout(f, rank, c, Rect(x, y, r.width, d), rs))
  }

  /** Laying out a subtree changes no rectangle outside it. */
  lemma {:induction false} LayoutFrame(f: Forest, rank: seq<nat>, id: nat, r: Rect, rs: seq<Rect>, n: nat)
    requires Wf(f, rank) && id < |f.names| && |rs| == |f.names|
    requires n < |f.names| && n !in Desc(f.kids, rank, id)
    ensures Layout(f, rank, id, r, rs)[n] == rs[n]
    decreases rank[id], 1
  {
    if !(f.names[id].None? || f.sizes[id] == 0 || f.kids[id] == []) {
      forall j | 0 <= j < |f.kids[id]|
        ensures n !in Desc(f.kids, rank, f.kids[id][j])
      {
        KidDesc(f.kids, rank, id, j);
      }
      LayoutKidsFrame(f, rank, id, r, 0, r.x, r.y, 0, 0, rs[id := r], n);
    }
  }

  lemma {:induction false} LayoutKidsFrame(f: Forest, rank: seq<nat>, p: nat, r: Rect, i: nat,
                                           x: int, y: int, totalWidth: int, totalHeight: int,
                                           rs: seq<Rect>, n: nat)
    requires Wf(f, rank) && p < |f.names| && |rs| == |f.names|
    requires f.sizes[p] != 0 && i <= |f.kids[p]| && n < |f.names|
    requires forall j :: i <= j < |f.kids[p]| ==> n !in Desc(f.kids, rank, f.kids[p][j])
    ensures LayoutKids(f, rank, p, r, i, x, y, totalWidth, totalHeight, rs)[n] == rs[n]
    decreases rank[p], 0, |f.kids[p]| - i
  {
    if i < |f.kids[p]| {
      var c := f.kids[p][i];
      if r.width > r.height {
        var d := IsLastDim(f, rank, c, r.width, totalWidth, Share(r.width, f.sizes[c], f.sizes[p]));
        LayoutFrame(f, rank, c, Rect(x, y, d, r.height), rs, n);
        LayoutKidsFrame(f, rank, p, r, i + 1, x + d, y, totalWidth + d, totalHeight,
                        Layout(f, rank, c, Rect(x, y, d, r.height), rs), n);
      } else {
        var d := IsLastDim(f, rank, c, r.height, totalHeight, Share(r.height, f.sizes[c], f.sizes[p]));
        LayoutFrame(f, rank, c, Rect(x, y, r.width, d), rs, n);
        LayoutKidsFrame(f, rank, p, r, i + 1, x, y + d, totalWidth, totalHeight + d,
                        Layout(f, rank, c, Rect(x, y, r.width, d), rs), n);
      }
    }
  }

  /** The node itself ends up with its `Placed` rectangle; a node of size 0
      or the empty tree changes nothing else. */
  lemma LayoutSelf(f: Forest, rank: seq<nat>, id: nat, r: Rect, rs: seq<Rect>)
    requires Wf(f, rank) && id < |f.names| && |rs| == |f.names|
    ensures Layout(f, rank, id, r, rs)[id] == Placed(f, id, r)
    ensures f.names[id].None? || f.sizes[id] == 0 ==>
              Layout(f, rank, id, r, rs) == rs[id := Placed(f, id, r)]
  {
    if !(f.names[id].None? || f.sizes[id] == 0 || f.kids[id] == []) {
      forall j | 0 <= j < |f.kids[id]|
        ensures id !in Desc(f.kids, rank, f.kids[id][j])
      {
        if id in Desc(f.kids, rank, f.kids[id][j]) {
          DescBounds(f.kids, rank, f.kids[id][j], id);
        }
      }
      LayoutKidsFrame(f, rank, id, r, 0, r.x, r.y, 0, 0, rs[id := r], id);
    }
  }

  /** The loop invariant of `update_rectangles`: before child `i` the
      running position and total are the offset of strip `i`. */
  ghost predicate AtStrip(f: Forest, rank: seq<nat>, p: nat, r: Rect, i: nat,
                          x: int, y: int, totalWidth: int, totalHeight: int)
    requires Wf(f, rank) && p < |f.names| && f.sizes[p] != 0 && i <= |f.kids[p]|
  {
    if r.width > r.height then
      var off := StripOffset(r.width, f.sizes, f.kids[p], f.sizes[p], i);
      x == r.x + off && y == r.y && totalWidth == off
    else
      var off := StripOffset(r.height, f.sizes, f.kids[p], f.sizes[p], i);
      x == r.x && y == r.y + off && totalHeight == off
  }

  /** The loop invariant of `update_rectangles`: laying out the children of
      `p` from the `i`-th on, starting from `rs`, ends in `goal`. */
  ghost predicate LoopRest(f: Forest, rank: seq<nat>, p: nat, r: Rect, i: nat,
                           x: int, y: int, totalWidth: int, totalHeight: int, rs: seq<Rect>, goal: seq<Rect>)
  {
    && Wf(f, rank) && p < |f.names| && |rs| == |f.names|
    && f.sizes[p] != 0 && i <= |f.kids[p]|
    && LayoutKids(f, rank, p, r, i, x, y, totalWidth, totalHeight, rs) == goal
  }

  /** One turn of the loop of `update_rectangles` across the width: once
      child `c` is laid out in its strip of width `d`, what remains of the
      layout is the rest of the loop. */
  lemma AdvanceWide(f: Forest, rank: seq<nat>, p: nat, r: Rect, i: nat,
                    x: int, y: int, totalWidth: int, totalHeight: int,
                    before: seq<Rect>, after: seq<Rect>, c: nat, d: int, goal: seq<Rect>, x': int, tw': int)
    requires LoopRest(f, rank, p, r, i, x, y, totalWidth, totalHeight, before, goal)
    requires i < |f.kids[p]| && c == f.kids[p][i] && c < |f.names| && f.parents[c].Some?
    requires r.width > r.height
    requires d == IsLastDim(f, rank, c, r.width, totalWidth, Share(r.width, f.sizes[c], f.sizes[p]))
    requires after == Layout(f, rank, c, Rect(x, y, d, r.height), before)
    requires x' == x + d && tw' == totalWidth + d
    ensures LoopRest(f, rank, p, r, i + 1, x', y, tw', totalHeight, after, goal)
  {
  }

  /** The same down the height. */
  lemma AdvanceTall(f: Forest, rank: seq<nat>, p: nat, r: Rect, i: nat,
                    x: int, y: int, totalWidth: int, totalHeight: int,
                    before: seq<Rect>, after: seq<Rect>, c: nat, d: int, goal: seq<Rect>, y': int, th': int)
    requires LoopRest(f, rank, p, r, i, x, y, totalWidth, totalHeight, before, goal)
    requires i < |f.kids[p]| && c == f.kids[p][i] && c < |f.names| && f.parents[c].Some?
    requires r.width <= r.height
    requires d == IsLastDim(f, rank, c, r.height, totalHeight, Share(r.height, f.sizes[c], f.sizes[p]))
    requires after == Layout(f, rank, c, Rect(x, y, r.width, d), before)
    requires y' == y + d && th' == totalHeight + d
    ensures LoopRest(f, rank, p, r, i + 1, x, y', totalWidth, th', after, goal)
  {
  }

  /** The loop of `update_rectangles` starts with the layout of `p` ahead
      and ends with it done. */
  lemma LoopRestBounds(f: Forest, rank: seq<nat>, p: nat, r: Rect, rs: seq<Rect>, goal: seq<Rect>)
    requires Wf(f, rank) && p < |f.names| && |rs| == |f.names|
    requires f.names[p].Some? && f.sizes[p] != 0 && f.kids[p] != [] && goal == Layout(f, rank, p, r, rs)
    ensures LoopRest(f, rank, p, r, 0, r.x, r.y, 0, 0, rs[p := r], goal)
    ensures forall x, y, tw, th, out :: LoopRest(f, rank, p, r, |f.kids[p]|, x, y, tw, th, out, goal) ==> out == goal
  {
  }

  /** One turn of the loop: under the loop invariant, child `i` is laid out
      in its strip, and the invariant holds for the next child. */
  lemma LayoutKidsStep(f: Forest, rank: seq<nat>, p: nat, r: Rect, i: nat,
                       x: int, y: int, totalWidth: int, totalHeight: int, rs: seq<Rect>)
    returns (x': int, y': int, tw': int, th': int)
    requires Wf(f, rank) && p < |f.names| && |rs| == |f.names|
    requires f.sizes[p] != 0 && i < |f.kids[p]|
    requires AtStrip(f, rank, p, r, i, x, y, totalWidth, totalHeight)
    ensures LayoutKids(f, rank, p, r, i, x, y, totalWidth, totalHeight, rs) ==
            LayoutKids(f, rank, p, r, i + 1, x', y', tw', th',
                       Layout(f, rank, f.kids[p][i], StripRect(r, f.sizes, f.kids[p], f.sizes[p], i), rs))
    ensures i + 1 < |f.kids[p]| ==> AtStrip(f, rank, p, r, i + 1, x', y', tw', th')
  {
    var c := f.kids[p][i];
    if r.width > r.height {
      var share := Share(r.width, f.sizes[c], f.sizes[p]);
      IsLastIff(f, rank, p, i, r.width, totalWidth, share);
      var d := IsLastDim(f, rank, c, r.width, totalWidth, share);
      x', y', tw', th' := x + d, y, totalWidth + d, totalHeight;
    } else {
      var share := Share(r.height, f.sizes[c], f.sizes[p]);
      IsLastIff(f, rank, p, i, r.height, totalHeight, share);
      var d := IsLastDim(f, rank, c, r.height, totalHeight, share);
      x', y', tw', th' := x, y + d, totalWidth, totalHeight + d;
    }
  }

  /** The child the loop is at keeps the rectangle it is laid out in: the
      children after it do not touch it. */
  lemma LayoutKidsHere(f: Forest, rank: seq<nat>, p: nat, r: Rect, i: nat,
                       x: int, y: int, totalWidth: int, totalHeight: int, strip: Rect, rs: seq<Rect>)
    requires Wf(f, rank) && p < |f.names| && |rs| == |f.names|
    requires f.sizes[p] != 0 && i < |f.kids[p]|
    ensures LayoutKids(f, rank, p, r, i + 1, x, y, totalWidth, totalHeight,
                       Layout(f, rank, f.kids[p][i], strip, rs))[f.kids[p][i]] ==
            Placed(f, f.kids[p][i], strip)
  {
    var c := f.kids[p][i];
    forall j | i + 1 <= j < |f.kids[p]|
      ensures c !in Desc(f.kids, rank, f.kids[p][j])
    {
      SiblingNotDesc(f, rank, p, j, i);
    }
    LayoutKidsFrame(f, rank, p, r, i + 1, x, y, totalWidth, totalHeight,
                    Layout(f, rank, c, strip, rs), c);
    LayoutSelf(f, rank, c, strip, rs);
  }

  lemma {:induction false} LayoutKidsStrips(f: Forest, rank: seq<nat>, p: nat, r: Rect, i: nat,
                                            x: int, y: int, totalWidth: int, totalHeight: int,
                                            rs: seq<Rect>, k: nat)
    requires Wf(f, rank) && p < |f.names| && |rs| == |f.names|
    requires f.sizes[p] != 0 && i <= k < |f.kids[p]|
    requires AtStrip(f, rank, p, r, i, x, y, totalWidth, totalHeight)
    ensures LayoutKids(f, rank, p, r, i, x, y, totalWidth, totalHeight, rs)[f.kids[p][k]] ==
            Placed(f, f.kids[p][k], StripRect(r, f.sizes, f.kids[p], f.sizes[p], k))
    decreases |f.kids[p]| - i
  {
    if k == i {
      LayoutKidsStripHere(f, rank, p, r, i, x, y, totalWidth, totalHeight, rs);
    } else {
      var strip := StripRect(r, f.sizes, f.kids[p], f.sizes[p], i);
      var x', y', tw', th' := LayoutKidsStep(f, rank, p, r, i, x, y, totalWidth, totalHeight, rs);
      LayoutKidsStrips(f, rank, p, r, i + 1, x', y', tw', th', Layout(f, rank, f.kids[p][i], strip, rs), k);
    }
  }

  /** The child the loop is at is placed in its own strip. */
  lemma LayoutKidsStripHere(f: Forest, rank: seq<nat>, p: nat, r: Rect, i: nat,
                            x: int, y: int, totalWidth: int, totalHeight: int, rs: seq<Rect>)
    requires Wf(f, rank) && p < |f.names| && |rs| == |f.names|
    requires f.sizes[p] != 0 && i < |f.kids[p]|
    requires AtStrip(f, rank, p, r, i, x, y, totalWidth, totalHeight)
    ensures LayoutKids(f, rank, p, r, i, x, y, totalWidth, totalHeight, rs)[f.kids[p][i]] ==
            Placed(f, f.kids[p][i], StripRect(r, f.sizes, f.kids[p], f.sizes[p], i))
  {
    var strip := StripRect(r, f.sizes, f.kids[p], f.sizes[p], i);
    var x', y', tw', th' := LayoutKidsStep(f, rank, p, r, i, x, y, totalWidth, totalHeight, rs);
    LayoutKidsHere(f, rank, p, r, i, x', y', tw', th', strip, rs);
  }

  /** Each child of a laid-out node of non-zero size receives its strip of
      the node's rectangle (and then places itself in it, degenerate if the
      child's size is 0). */
  lemma LayoutStrips(f: Forest, rank: seq<nat>, p: nat, r: Rect, rs: seq<Rect>, k: nat)
    requires Wf(f, rank) && p < |f.names| && |rs| == |f.names|
    requires f.names[p].Some? && f.sizes[p] != 0 && k < |f.kids[p]|
    ensures Layout(f, rank, p, r, rs)[f.kids[p][k]] ==
            Placed(f, f.kids[p][k], StripRect(r, f.sizes, f.kids[p], f.sizes[p], k))
  {
    LayoutKidsStrips(f, rank, p, r, 0, r.x, r.y, 0, 0, rs[p := r], k);
  }

  /** The rectangle a layout leaves at node `n` depends on the starting
      rectangles only through the one at `n`. */
  lemma {:induction false} LayoutLocal(f: Forest, rank: seq<nat>, id: nat, r: Rect, a: seq<Rect>, b: seq<Rect>, n: nat)
    requires Wf(f, rank) && id < |f.names| && |a| == |f.names| && |b| == |f.names|
    requires n < |f.names| && a[n] == b[n]
    ensures Layout(f, rank, id, r, a)[n] == Layout(f, rank, id, r, b)[n]
    decreases rank[id], 1
  {
    if !(f.names[id].None? || f.sizes[id] == 0 || f.kids[id] == []) {
      LayoutKidsLocal(f, rank, id, r, 0, r.x, r.y, 0, 0, a[id := r], b[id := r], n);
    }
  }

  lemma {:induction false} LayoutKidsLocal(f: Forest, rank: seq<nat>, p: nat, r: Rect, i: nat,
                                           x: int, y: int, totalWidth: int, totalHeight: int,
                                           a: seq<Rect>, b: seq<Rect>, n: nat)
    requires Wf(f, rank) && p < |f.names| && |a| == |f.names| && |b| == |f.names|
    requires f.sizes[p] != 0 && i <= |f.kids[p]| && n < |f.names| && a[n] == b[n]
    ensures LayoutKids(f, rank, p, r, i, x, y, totalWidth, totalHeight, a)[n] ==
            LayoutKids(f, rank, p, r, i, x, y, totalWidth, totalHeight, b)[n]
    decreases rank[p], 0, |f.kids[p]| - i
  {
    if i < |f.kids[p]| {
      var c := f.kids[p][i];
      if r.width > r.height {
        var d := IsLastDim(f, rank, c, r.width, totalWidth, Share(r.width, f.sizes[c], f.sizes[p]));
        var strip := Rect(x, y, d, r.height);
        LayoutLocal(f, rank, c, strip, a, b, n);
        LayoutKidsLocal(f, rank, p, r, i + 1, x + d, y, totalWidth + d, totalHeight,
                        Layout(f, rank, c, strip, a), Layout(f, rank, c, strip, b), n);
      } else {
        var d := IsLastDim(f, rank, c, r.height, totalHeight, Share(r.height, f.sizes[c], f.sizes[p]));
        var strip := Rect(x, y, r.width, d);
        LayoutLocal(f, rank, c, strip, a, b, n);
        LayoutKidsLocal(f, rank, p, r, i + 1, x, y + d, totalWidth, totalHeight + d,
                        Layout(f, rank, c, strip, a), Layout(f, rank, c, strip, b), n);
      }
    }
  }

  lemma {:induction false} LayoutKidsNested(f: Forest, rank: seq<nat>, p: nat, r: Rect, i: nat,
                                            x: int, y: int, totalWidth: int, totalHeight: int,
                                            rs: seq<Rect>, k: nat, n: nat)
    requires Wf(f, rank) && p < |f.names| && |rs| == |f.names|
    requires f.sizes[p] != 0 && i <= k < |f.kids[p]|
    requires AtStrip(f, rank, p, r, i, x, y, totalWidth, totalHeight)
    requires n in Desc(f.kids, rank, f.kids[p][k])
    ensures n < |f.names|
    ensures LayoutKids(f, rank, p, r, i, x, y, totalWidth, totalHeight, rs)[n] ==
            Layout(f, rank, f.kids[p][k], StripRect(r, f.sizes, f.kids[p], f.sizes[p], k), rs)[n]
    decreases |f.kids[p]| - i
  {
    DescBounds(f.kids, rank, f.kids[p][k], n);
    if k == i {
      LayoutKidsNestedHere(f, rank, p, r, i, x, y, totalWidth, totalHeight, rs, n);
    } else {
      var strip := StripRect(r, f.sizes, f.kids[p], f.sizes[p], i);
      var x', y', tw', th' := LayoutKidsStep(f, rank, p, r, i, x, y, totalWidth, totalHeight, rs);
      var rs' := Layout(f, rank, f.kids[p][i], strip, rs);
      LayoutKidsNested(f, rank, p, r, i + 1, x', y', tw', th', rs', k, n);
      NestedElsewhere(f, rank, p, i, k, strip, StripRect(r, f.sizes, f.kids[p], f.sizes[p], k), rs, n);
    }
  }

  /** The subtree of the child the loop is at keeps what that child's
      layout gives it: the children after it do not touch it. */
  lemma LayoutKidsNestedHere(f: Forest, rank: seq<nat>, p: nat, r: Rect, i: nat,
                             x: int, y: int, totalWidth: int, totalHeight: int, rs: seq<Rect>, n: nat)
    requires Wf(f, rank) && p < |f.names| && |rs| == |f.names|
    requires f.sizes[p] != 0 && i < |f.kids[p]|
    requires AtStrip(f, rank, p, r, i, x, y, totalWidth, totalHeight)
    requires n < |f.names| && n in Desc(f.kids, rank, f.kids[p][i])
    ensures LayoutKids(f, rank, p, r, i, x, y, totalWidth, totalHeight, rs)[n] ==
            Layout(f, rank, f.kids[p][i], StripRect(r, f.sizes, f.kids[p], f.sizes[p], i), rs)[n]
  {
    var strip := StripRect(r, f.sizes, f.kids[p], f.sizes[p], i);
    var x', y', tw', th' := LayoutKidsStep(f, rank, p, r, i, x, y, totalWidth, totalHeight, rs);
    forall j | i + 1 <= j < |f.kids[p]|
      ensures n !in Desc(f.kids, rank, f.kids[p][j])
    {
      if n in Desc(f.kids, rank, f.kids[p][j]) {
        SiblingsDisjoint(f, rank, p, j, i, n);
      }
    }
    LayoutKidsFrame(f, rank, p, r, i + 1, x', y', tw', th', Layout(f, rank, f.kids[p][i], strip, rs), n);
  }

  /** Laying out a sibling `i` first does not change what child `k`'s
      layout leaves in its own subtree. */
  lemma NestedElsewhere(f: Forest, rank: seq<nat>, p: nat, i: nat, k: nat, si: Rect, sk: Rect, rs: seq<Rect>, n: nat)
    requires Wf(f, rank) && p < |f.names| && |rs| == |f.names|
    requires i < |f.kids[p]| && k < |f.kids[p]| && i != k
    requires n < |f.names| && n in Desc(f.kids, rank, f.kids[p][k])
    ensures Layout(f, rank, f.kids[p][k], sk, Layout(f, rank, f.kids[p][i], si, rs))[n] ==
            Layout(f, rank, f.kids[p][k], sk, rs)[n]
  {
    if n in Desc(f.kids, rank, f.kids[p][i]) {
      SiblingsDisjoint(f, rank, p, i, k, n);
    }
    LayoutFrame(f, rank, f.kids[p][i], si, rs, n);
    LayoutLocal(f, rank, f.kids[p][k], sk, Layout(f, rank, f.kids[p][i], si, rs), rs, n);
  }

  /** Composition: inside the subtree of child `k`, laying out a node of
      non-zero size gives the rectangles of laying out child `k` on its own
      in its strip. With `LayoutStrips` this places every level of the
      subtree, each in a strip of the rectangle of the level above. */
  lemma LayoutNested(f: Forest, rank: seq<nat>, p: nat, r: Rect, rs: seq<Rect>, k: nat, n: nat)
    requires Wf(f, rank) && p < |f.names| && |rs| == |f.names|
    requires f.names[p].Some? && f.sizes[p] != 0 && k < |f.kids[p]|
    requires n in Desc(f.kids, rank, f.kids[p][k])
    ensures n < |f.names|
    ensures Layout(f, rank, p, r, rs)[n] ==
            Layout(f, rank, f.kids[p][k], StripRect(r, f.sizes, f.kids[p], f.sizes[p], k), rs)[n]
  {
    var c := f.kids[p][k];
    LayoutKidsNested(f, rank, p, r, 0, r.x, r.y, 0, 0, rs[p := r], k, n);
    DescBounds(f.kids, rank, c, n);
    assert n != p;
    LayoutLocal(f, rank, c, StripRect(r, f.sizes, f.kids[p], f.sizes[p], k), rs[p := r], rs, n);
  }

  /** Two levels down: a grandchild under a named child of non-zero size is
      placed in its strip of the child's strip. */
  lemma LayoutGrandchild(f: Forest, rank: seq<nat>, p: nat, r: Rect, rs: seq<Rect>, k: nat, j: nat)
    requires Wf(f, rank) && p < |f.names| && |rs| == |f.names|
    requires f.names[p].Some? && f.sizes[p] != 0 && k < |f.kids[p]|
    requires f.kids[p][k] < |f.names| && f.names[f.kids[p][k]].Some? && f.sizes[f.kids[p][k]] != 0
    requires j < |f.kids[f.kids[p][k]]|
    ensures var c := f.kids[p][k];
            Layout(f, rank, p, r, rs)[f.kids[c][j]] ==
            Placed(f, f.kids[c][j], StripRect(StripRect(r, f.sizes, f.kids[p], f.sizes[p], k), f.sizes, f.kids[c], f.sizes[c], j))
  {
    var c := f.kids[p][k];
    var strip := StripRect(r, f.sizes, f.kids[p], f.sizes[p], k);
    KidDesc(f.kids, rank, c, j);
    LayoutNested(f, rank, p, r, rs, k, f.kids[c][j]);
    LayoutStrips(f, rank, c, strip, rs, j);
  }
}
