/** Size aggregation (`_get_data_size`, `__init__`'s sizing) and the leaf
    resizing rule of `change_size`. */
module Sizes {
  import opened Trees

  /** The size `_get_data_size` computes: 0 for the empty tree, the stored
      size of a leaf, and the sum of the children's recomputed sizes for any
      other node. Stored sizes of internal nodes are never consulted. */
  ghost function DataSize(f: Forest, rank: seq<nat>, id: nat): int
    requires Shaped(f, rank) && id < |f.names|
    decreases rank[id], 1
  {
    if f.names[id].None? then 0
    else if f.kids[id] == [] then f.sizes[id]
    else KidsDataSize(f, rank, id, |f.kids[id]|)
  }

  /** The sum of `DataSize` over the first `i` children of `id`. */
  ghost function KidsDataSize(f: Forest, rank: seq<nat>, id: nat, i: nat): int
    requires Shaped(f, rank) && id < |f.names| && i <= |f.kids[id]|
    decreases rank[id], 0, i
  {
    if i == 0 then 0
    else KidsDataSize(f, rank, id, i - 1) + DataSize(f, rank, f.kids[id][i - 1])
  }

  /** `_get_data_size` (tm_trees.py:126-138), with its accumulator loop. */
  method GetDataSize(f: Forest, ghost rank: seq<nat>, id: nat) returns (r: int)
    requires Shaped(f, rank) && id < |f.names|
    ensures r == DataSize(f, rank, id)
    decreases rank[id]
  {
    if IsEmpty(f, id) {
      return 0;
    } else if f.kids[id] == [] {
      return f.sizes[id];
    }
    var count := 0;
    for i := 0 to |f.kids[id]|
      invariant count == KidsDataSize(f, rank, id, i)
    {
      var s := GetDataSize(f, rank, f.kids[id][i]);
      count := count + s;
    }
    return count;
  }

  /** Two arenas with the same names and children whose named leaves have the
      same sizes agree on every recomputed size. */
  lemma {:induction false} DataSizeFromLeaves(f: Forest, g: Forest, rank: seq<nat>, id: nat)
    requires Shaped(f, rank) && Shaped(g, rank) && id < |f.names|
    requires f.names == g.names && f.kids == g.kids
    requires forall i :: 0 <= i < |f.names| && f.names[i].Some? && f.kids[i] == [] ==>
               f.sizes[i] == g.sizes[i]
    ensures DataSize(f, rank, id) == DataSize(g, rank, id)
    decreases rank[id], 1
  {
    if f.names[id].Some? && f.kids[id] != [] {
      KidsDataSizeFromLeaves(f, g, rank, id, |f.kids[id]|);
    }
  }

  lemma {:induction false} KidsDataSizeFromLeaves(f: Forest, g: Forest, rank: seq<nat>, id: nat, i: nat)
    requires Shaped(f, rank) && Shaped(g, rank) && id < |f.names| && i <= |f.kids[id]|
    requires f.names == g.names && f.kids == g.kids
    requires forall i :: 0 <= i < |f.names| && f.names[i].Some? && f.kids[i] == [] ==>
               f.sizes[i] == g.sizes[i]
    ensures KidsDataSize(f, rank, id, i) == KidsDataSize(g, rank, id, i)
    decreases rank[id], 0, i
  {
    if i > 0 {
      KidsDataSizeFromLeaves(f, g, rank, id, i - 1);
      DataSizeFromLeaves(f, g, rank, f.kids[id][i - 1]);
    }
  }

  /** When every stored size is consistent (invariant of lines 62-63), the
      recomputed size of a node is its stored size. */
  lemma {:induction false} ConsistentDataSize(f: Forest, rank: seq<nat>, id: nat)
    requires Wf(f, rank) && Consistent(f, rank) && id < |f.names|
    ensures DataSize(f, rank, id) == f.sizes[id]
    decreases rank[id], 1
  {
    if f.names[id].Some? && f.kids[id] != [] {
      ConsistentKidsDataSize(f, rank, id, |f.kids[id]|);
      assert f.kids[id][..|f.kids[id]|] == f.kids[id];
    }
  }

  lemma {:induction false} ConsistentKidsDataSize(f: Forest, rank: seq<nat>, id: nat, i: nat)
    requires Wf(f, rank) && Consistent(f, rank) && id < |f.names| && i <= |f.kids[id]|
    ensures KidsDataSize(f, rank, id, i) == SumSizes(f.sizes, f.kids[id][..i])
    decreases rank[id], 0, i
  {
    if i > 0 {
      ConsistentKidsDataSize(f, rank, id, i - 1);
      ConsistentDataSize(f, rank, f.kids[id][i - 1]);
      assert f.kids[id][..i][..i - 1] == f.kids[id][..i - 1];
    }
  }

  /** Recomputed sizes of non-negative leaves are non-negative. */
  lemma {:induction false} DataSizeNonNegative(f: Forest, rank: seq<nat>, id: nat)
    requires Shaped(f, rank) && NonNegative(f) && id < |f.names|
    ensures DataSize(f, rank, id) >= 0
    decreases rank[id], 1
  {
    if f.names[id].Some? && f.kids[id] != [] {
      KidsDataSizeNonNegative(f, rank, id, |f.kids[id]|);
    }
  }

  lemma {:induction false} KidsDataSizeNonNegative(f: Forest, rank: seq<nat>, id: nat, i: nat)
    requires Shaped(f, rank) && NonNegative(f) && id < |f.names| && i <= |f.kids[id]|
    ensures KidsDataSize(f, rank, id, i) >= 0
    decreases rank[id], 0, i
  {
    if i > 0 {
      KidsDataSizeNonNegative(f, rank, id, i - 1);
      DataSizeNonNegative(f, rank, f.kids[id][i - 1]);
    }
  }

  /** Extending the arena with new nodes changes no recomputed size of an
      existing node. */
  lemma {:induction false} DataSizeExtend(f: Forest, rf: seq<nat>, g: Forest, rg: seq<nat>, id: nat)
    requires Shaped(f, rf) && Shaped(g, rg) && id < |f.names| <= |g.names|
    requires forall i :: 0 <= i < |f.names| ==>
               g.names[i] == f.names[i] && g.kids[i] == f.kids[i] && g.sizes[i] == f.sizes[i] && rg[i] == rf[i]
    ensures DataSize(g, rg, id) == DataSize(f, rf, id)
    decreases rf[id], 1
  {
    if f.names[id].Some? && f.kids[id] != [] {
      KidsDataSizeExtend(f, rf, g, rg, id, |f.kids[id]|);
    }
  }

  lemma {:induction false} KidsDataSizeExtend(f: Forest, rf: seq<nat>, g: Forest, rg: seq<nat>, id: nat, i: nat)
    requires Shaped(f, rf) && Shaped(g, rg) && id < |f.names| <= |g.names| && i <= |f.kids[id]|
    requires forall i :: 0 <= i < |f.names| ==>
               g.names[i] == f.names[i] && g.kids[i] == f.kids[i] && g.sizes[i] == f.sizes[i] && rg[i] == rf[i]
    ensures KidsDataSize(g, rg, id, i) == KidsDataSize(f, rf, id, i)
    decreases rf[id], 0, i
  {
    if i > 0 {
      KidsDataSizeExtend(f, rf, g, rg, id, i - 1);
      DataSizeExtend(f, rf, g, rg, f.kids[id][i - 1]);
    }
  }

  /** A node appended over existing, consistently sized trees gets the sum of
      their stored sizes as its recomputed size (tm_trees.py:114-118). */
  lemma NewNodeDataSize(f: Forest, rf: seq<nat>, g: Forest, rg: seq<nat>)
    requires Wf(f, rf) && Consistent(f, rf) && Shaped(g, rg) && |g.names| == |f.names| + 1
    requires forall i :: 0 <= i < |f.names| ==>
               g.names[i] == f.names[i] && g.kids[i] == f.kids[i] && g.sizes[i] == f.sizes[i] && rg[i] == rf[i]
    requires g.names[|f.names|].Some? && g.kids[|f.names|] != []
    requires forall k :: 0 <= k < |g.kids[|f.names|]| ==> g.kids[|f.names|][k] < |f.names|
    ensures DataSize(g, rg, |f.names|) == SumSizes(f.sizes, g.kids[|f.names|])
  {
    var id := |f.names|;
    NewKidsDataSize(f, rf, g, rg, |g.kids[id]|);
    assert g.kids[id][..|g.kids[id]|] == g.kids[id];
  }

  lemma {:induction false} NewKidsDataSize(f: Forest, rf: seq<nat>, g: Forest, rg: seq<nat>, i: nat)
    requires Wf(f, rf) && Consistent(f, rf) && Shaped(g, rg) && |g.names| == |f.names| + 1
    requires forall i :: 0 <= i < |f.names| ==>
               g.names[i] == f.names[i] && g.kids[i] == f.kids[i] && g.sizes[i] == f.sizes[i] && rg[i] == rf[i]
    requires i <= |g.kids[|f.names|]|
    requires forall k :: 0 <= k < |g.kids[|f.names|]| ==> g.kids[|f.names|][k] < |f.names|
    ensures KidsDataSize(g, rg, |f.names|, i) == SumSizes(f.sizes, g.kids[|f.names|][..i])
  {
    var id := |f.names|;
    if i > 0 {
      NewKidsDataSize(f, rf, g, rg, i - 1);
      var c := g.kids[id][i - 1];
      DataSizeExtend(f, rf, g, rg, c);
      ConsistentDataSize(f, rf, c);
      assert g.kids[id][..i][..i - 1] == g.kids[id][..i - 1];
    }
  }

  /** Once every node of a subtree holds its recomputed size, every internal
      node of the subtree holds the sum of its children's sizes
      (tm_trees.py:270-284 establishes the invariant of lines 62-63). */
  lemma UpdatedConsistent(f: Forest, g: Forest, rank: seq<nat>, id: nat)
    requires Wf(f, rank) && Shaped(g, rank) && g.names == f.names && g.kids == f.kids && id < |f.names|
    requires forall n :: n in Desc(f.kids, rank, id) ==> n < |f.names| && g.sizes[n] == DataSize(f, rank, n)
    ensures forall m :: m in Desc(f.kids, rank, id) && f.kids[m] != [] ==>
              g.sizes[m] == SumSizes(g.sizes, f.kids[m])
  {
    forall m | m in Desc(f.kids, rank, id) && f.kids[m] != []
      ensures g.sizes[m] == SumSizes(g.sizes, f.kids[m])
    {
      UpdatedKidsSum(f, g, rank, id, m, |f.kids[m]|);
      assert f.kids[m][..|f.kids[m]|] == f.kids[m];
    }
  }

  lemma {:induction false} UpdatedKidsSum(f: Forest, g: Forest, rank: seq<nat>, id: nat, m: nat, i: nat)
    requires Wf(f, rank) && Shaped(g, rank) && g.names == f.names && g.kids == f.kids && id < |f.names|
    requires forall n :: n in Desc(f.kids, rank, id) ==> n < |f.names| && g.sizes[n] == DataSize(f, rank, n)
    requires m in Desc(f.kids, rank, id) && m < |f.names| && i <= |f.kids[m]|
    ensures KidsDataSize(f, rank, m, i) == SumSizes(g.sizes, f.kids[m][..i])
  {
    if i > 0 {
      UpdatedKidsSum(f, g, rank, id, m, i - 1);
      DescClosed(f.kids, rank, id, m, i - 1);
      assert f.kids[m][..i][..i - 1] == f.kids[m][..i - 1];
    }
  }

  /** ceil(a / b) for a positive divisor. */
  function CeilDiv(a: int, b: int): (q: int)
    requires b > 0
    ensures (q - 1) * b < a <= q * b
  {
    -((-a) / b)
  }

  /** The size `change_size` gives a leaf of size `s` for the factor
      `num / den`: ceil(s * (1 + factor)), except that an unchanged result is
      forced one step down (factor < 0, only while the size exceeds 1) or one
      step up (factor > 0). */
  function Resized(s: int, num: int, den: int): int
    requires den > 0
  {
    var newSize := CeilDiv(s * (den + num), den);
    if newSize == s then
      if num < 0 && s > 1 then s - 1
      else if num > 0 then s + 1
      else s
    else newSize
  }

  /** A positive factor always makes a non-negative size grow. */
  lemma ResizedGrows(s: int, num: int, den: int)
    requires den > 0 && num > 0 && s >= 0
    ensures Resized(s, num, den) > s
    ensures Resized(s, num, den) == if s == 0 then 1 else CeilDiv(s * (den + num), den)
  {
    var q := CeilDiv(s * (den + num), den);
    assert s * (den + num) == s * den + s * num;
    if s > 0 {
      assert s * num > 0;
      assert (q - 1) * den < s * den + s * num <= q * den;
    }
  }

  /** A negative factor never makes a non-negative size grow, and shrinks
      every size above 1; a size of 0 or 1 only moves if the rounded result
      itself differs. */
  lemma ResizedShrinks(s: int, num: int, den: int)
    requires den > 0 && num < 0 && s >= 0
    ensures Resized(s, num, den) <= s
    ensures s > 1 ==> Resized(s, num, den) < s
    ensures s <= 1 ==> Resized(s, num, den) == CeilDiv(s * (den + num), den)
  {
    var q := CeilDiv(s * (den + num), den);
    assert s * (den + num) == s * den + s * num;
    MulNonPositive(s, num);
    assert (q - 1) * den < s * den;
    if q - 1 >= s {
      MulLe(s, q - 1, den);
    }
    assert q <= s;
  }

  lemma MulNonPositive(a: int, b: int)
    requires a >= 0 && b < 0
    ensures a * b <= 0
  {
  }

  /** A zero factor leaves the size alone. */
  lemma ResizedZero(s: int, den: int)
    requires den > 0
    ensures Resized(s, 0, den) == s
  {
    var q := CeilDiv(s * den, den);
    assert (q - 1) * den < s * den <= q * den;
    if q > s {
      MulLe(s, q - 1, den);
    } else if q < s {
      assert (s - 1) * den == s * den - den;
      MulLe(q, s - 1, den);
    }
  }

  /** A size of 0 only moves for a positive factor, and then to 1. */
  lemma ResizedEmpty(num: int, den: int)
    requires den > 0
    ensures Resized(0, num, den) == if num > 0 then 1 else 0
  {
    var q := CeilDiv(0 * (den + num), den);
    assert (q - 1) * den < 0 <= q * den;
    if q < 0 {
      MulNegative(q, den);
    } else if q > 0 {
      MulNegative(-(q - 1), den);
    }
  }

  lemma MulNegative(a: int, b: int)
    requires a < 0 && b > 0
    ensures a * b < 0
  {
  }

  /** A factor of at least -1 keeps a non-negative size non-negative, so the
      invariant of line 61 is kept. */
  lemma ResizedNonNegative(s: int, num: int, den: int)
    requires den > 0 && num + den >= 0 && s >= 0
    ensures Resized(s, num, den) >= 0
  {
    var q := CeilDiv(s * (den + num), den);
    assert s * (den + num) >= 0;
    assert (q - 1) * den < s * (den + num) <= q * den;
    assert q * den >= 0;
  }

  /** The forced correction moves the size by one step at most and never
      takes a size of at least 1 below 1. */
  lemma ResizedCorrection(s: int, num: int, den: int)
    requires den > 0 && s >= 1 && CeilDiv(s * (den + num), den) == s
    ensures s - 1 <= Resized(s, num, den) <= s + 1
    ensures Resized(s, num, den) >= 1
    ensures Resized(s, num, den) != s <==> num > 0 || (num < 0 && s > 1)
  {
  }

  /** The example of a size-1 leaf shrunk by half: it stays at 1, because the
      forced step down stops above 1. */
  lemma ResizedHalfOfOne()
    ensures Resized(1, -1, 2) == 1
  {
  }
}
