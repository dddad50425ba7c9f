/**
 * Shelf packing of rectangles (fit_rects_in_rect) and the power-of-two
 * square packing built on it (rect_packing_pow2_sq).
 */
module RectPacking {
  import opened BasicMath
  import opened Shapes
  import Vectors

  /** Same number of rectangles, and each keeps its width and height. */
  predicate SameSizes(a: seq<Rect>, b: seq<Rect>)
  {
    |a| == |b| && forall j :: 0 <= j < |a| ==> a[j].w == b[j].w && a[j].h == b[j].h
  }

  /**
   * The loop of fit_rects_in_rect from rectangle i on, with the current
   * shelf at yLevel, its height levelHeight and the next free x. Returns
   * whether all rectangles were placed, and the rectangles as left behind
   * (on failure the ones placed so far keep their new positions).
   */
  function FitLoop(rs: seq<Rect>, width: int, height: int, i: nat, yLevel: int, levelHeight: int, x: int): (bool, seq<Rect>)
    requires i <= |rs|
    decreases |rs| - i
  {
    if i == |rs| then (true, rs)
    else
      var r := rs[i];
      var newLevel := r.w + x >= width;
      var y := if newLevel then yLevel + levelHeight else yLevel;
      var shelf := if newLevel then r.h else levelHeight;
      var x0 := if newLevel then 0 else x;
      if r.h + y >= height then (false, rs)
      else FitLoop(rs[i := r.(x := x0, y := y)], width, height, i + 1, y, shelf, x0 + r.w)
  }

  /** fit_rects_in_rect's outcome: the first shelf is as high as the first rectangle. */
  function Fit(rs: seq<Rect>, width: int, height: int): (bool, seq<Rect>)
  {
    if |rs| == 0 then (true, rs) else FitLoop(rs, width, height, 0, 0, rs[0].h, 0)
  }

  /**
   * fit_rects_in_rect: places the rectangles left to right on shelves; a
   * rectangle that would reach `width` starts a new shelf, one that would
   * reach `height` makes it give up.
   */
  method FitRectsInRect(rects: array<Rect>, width: int, height: int) returns (ok: bool)
    modifies rects
    ensures (ok, rects[..]) == Fit(old(rects[..]), width, height)
  {
    if rects.Length == 0 {
      return true;
    }
    var yLevel := 0;
    var levelHeight := rects[0].h;
    var x := 0;
    var i := 0;
    while i < rects.Length
      invariant 0 <= i <= rects.Length
      invariant FitLoop(rects[..], width, height, i, yLevel, levelHeight, x) == Fit(old(rects[..]), width, height)
    {
      if rects[i].w + x >= width {
        yLevel := yLevel + levelHeight;
        levelHeight := rects[i].h;
        x := 0;
      }
      if rects[i].h + yLevel >= height {
        return false;
      }
      rects[i] := rects[i].(x := x, y := yLevel);
      x := x + rects[i].w;
      i := i + 1;
    }
    ok := true;
  }

  lemma {:induction false} FitLoopKeepsSizes(rs: seq<Rect>, width: int, height: int, i: nat, yLevel: int, levelHeight: int, x: int)
    requires i <= |rs|
    ensures SameSizes(rs, FitLoop(rs, width, height, i, yLevel, levelHeight, x).1)
    decreases |rs| - i
  {
    if i < |rs| {
      var r := rs[i];
      var newLevel := r.w + x >= width;
      var y := if newLevel then yLevel + levelHeight else yLevel;
      var shelf := if newLevel then r.h else levelHeight;
      var x0 := if newLevel then 0 else x;
      if r.h + y < height {
        var next := rs[i := r.(x := x0, y := y)];
        FitLoopKeepsSizes(next, width, height, i + 1, y, shelf, x0 + r.w);
      }
    }
  }

  /** Whether a fit succeeds, and where it puts the rectangles, depends only on their sizes. */
  lemma {:induction false} FitLoopDependsOnSizes(a: seq<Rect>, b: seq<Rect>, width: int, height: int, i: nat,
                                                  yLevel: int, levelHeight: int, x: int)
    requires i <= |a| && SameSizes(a, b) && a[..i] == b[..i]
    ensures FitLoop(a, width, height, i, yLevel, levelHeight, x).0 == FitLoop(b, width, height, i, yLevel, levelHeight, x).0
    ensures FitLoop(a, width, height, i, yLevel, levelHeight, x).0 ==>
      FitLoop(a, width, height, i, yLevel, levelHeight, x).1 == FitLoop(b, width, height, i, yLevel, levelHeight, x).1
    decreases |a| - i
  {
    if i == |a| {
      assert a == a[..i] && b == b[..i];
    } else {
      var r := a[i];
      var newLevel := r.w + x >= width;
      var y := if newLevel then yLevel + levelHeight else yLevel;
      var shelf := if newLevel then r.h else levelHeight;
      var x0 := if newLevel then 0 else x;
      if r.h + y < height {
        var nextA := a[i := r.(x := x0, y := y)];
        var nextB := b[i := b[i].(x := x0, y := y)];
        assert r.(x := x0, y := y) == b[i].(x := x0, y := y);
        assert nextA[..i + 1] == a[..i] + [r.(x := x0, y := y)];
        assert nextB[..i + 1] == b[..i] + [b[i].(x := x0, y := y)];
        FitLoopDependsOnSizes(nextA, nextB, width, height, i + 1, y, shelf, x0 + r.w);
      }
    }
  }

  /** Fit's outcome depends only on the sizes. */
  lemma FitDependsOnSizes(a: seq<Rect>, b: seq<Rect>, width: int, height: int)
    requires SameSizes(a, b)
    ensures Fit(a, width, height).0 == Fit(b, width, height).0
    ensures Fit(a, width, height).0 ==> Fit(a, width, height).1 == Fit(b, width, height).1
  {
    if |a| > 0 {
      FitLoopDependsOnSizes(a, b, width, height, 0, 0, a[0].h, 0);
    }
  }

  /** Fitting never changes a width or a height. */
  lemma FitKeepsSizes(rs: seq<Rect>, width: int, height: int)
    ensures SameSizes(rs, Fit(rs, width, height).1)
  {
    if |rs| > 0 {
      FitLoopKeepsSizes(rs, width, height, 0, 0, rs[0].h, 0);
    }
  }

  /** Non-negative widths and heights. */
  predicate NonNegativeSizes(rs: seq<Rect>)
  {
    forall j :: 0 <= j < |rs| ==> rs[j].w >= 0 && rs[j].h >= 0
  }

  /**
   * Where a successfully fitted rectangle may lie: at non-negative
   * coordinates, strictly below `height`, and strictly left of `width`
   * unless it starts a shelf at x = 0.
   */
  predicate PlacedWithin(r: Rect, width: int, height: int)
  {
    r.x >= 0 && r.y >= 0 && r.MaxY() < height && (r.MaxX() < width || r.x == 0)
  }

  lemma {:induction false} FitLoopBounds(rs: seq<Rect>, width: int, height: int, i: nat, yLevel: int, levelHeight: int, x: int)
    requires i <= |rs| && NonNegativeSizes(rs)
    requires yLevel >= 0 && levelHeight >= 0 && x >= 0
    requires forall j :: 0 <= j < i ==> PlacedWithin(rs[j], width, height)
    ensures var (ok, out) := FitLoop(rs, width, height, i, yLevel, levelHeight, x);
      ok ==> forall j :: 0 <= j < |out| ==> PlacedWithin(out[j], width, height)
    decreases |rs| - i
  {
    if i < |rs| {
      var r := rs[i];
      var newLevel := r.w + x >= width;
      var y := if newLevel then yLevel + levelHeight else yLevel;
      var shelf := if newLevel then r.h else levelHeight;
      var x0 := if newLevel then 0 else x;
      if r.h + y < height {
        var next := rs[i := r.(x := x0, y := y)];
        assert NonNegativeSizes(next) by {
          forall j | 0 <= j < |next|
            ensures next[j].w >= 0 && next[j].h >= 0
          {
            assert next[j].w == rs[j].w && next[j].h == rs[j].h;
          }
        }
        forall j | 0 <= j < i + 1
          ensures PlacedWithin(next[j], width, height)
        {
          if j < i {
            assert next[j] == rs[j];
          }
        }
        FitLoopBounds(next, width, height, i + 1, y, shelf, x0 + r.w);
        assert FitLoop(rs, width, height, i, yLevel, levelHeight, x) == FitLoop(next, width, height, i + 1, y, shelf, x0 + r.w);
      }
    }
  }

  /** After a successful fit every rectangle lies within the given size. */
  lemma FitBounds(rs: seq<Rect>, width: int, height: int)
    requires NonNegativeSizes(rs)
    ensures var (ok, out) := Fit(rs, width, height);
      ok ==> forall j :: 0 <= j < |out| ==> PlacedWithin(out[j], width, height)
  {
    if |rs| > 0 {
      FitLoopBounds(rs, width, height, 0, 0, rs[0].h, 0);
    }
  }

  /** Heights do not increase along the sequence (the order fit_rects_in_rect assumes). */
  predicate HeightsDescending(rs: seq<Rect>)
  {
    forall a, b :: 0 <= a < b < |rs| ==> rs[a].h >= rs[b].h
  }

  /** No two distinct rectangles overlap. */
  predicate PairwiseSeparated(rs: seq<Rect>)
  {
    forall a, b :: 0 <= a < |rs| && 0 <= b < |rs| && a != b ==> Separated(rs[a], rs[b])
  }

  /**
   * Where an already placed rectangle is relative to the current shelf:
   * entirely above it, or on it, left of x and no higher than the shelf.
   */
  predicate BeforeCursor(r: Rect, yLevel: int, levelHeight: int, x: int)
  {
    r.MaxY() <= yLevel || (r.y == yLevel && r.MaxX() <= x && r.h <= levelHeight)
  }

  ghost predicate ShelfInvariant(rs: seq<Rect>, i: nat, yLevel: int, levelHeight: int, x: int)
    requires i <= |rs|
  {
    levelHeight >= 0 &&
    (forall j :: 0 <= j < i ==> BeforeCursor(rs[j], yLevel, levelHeight, x)) &&
    (forall j :: i <= j < |rs| ==> rs[j].h <= levelHeight) &&
    (forall a, b :: 0 <= a < i && 0 <= b < i && a != b ==> Separated(rs[a], rs[b]))
  }

  /** Placing rectangle i at (x0, y) keeps the shelf invariant. */
  lemma ShelfStep(rs: seq<Rect>, i: nat, yLevel: int, levelHeight: int, x: int, x0: int, y: int, shelf: int)
    requires i < |rs| && HeightsDescending(rs) && NonNegativeSizes(rs)
    requires ShelfInvariant(rs, i, yLevel, levelHeight, x)
    requires (x0 == x && y == yLevel && shelf == levelHeight) || (x0 == 0 && y == yLevel + levelHeight && shelf == rs[i].h)
    ensures var next := rs[i := rs[i].(x := x0, y := y)];
      HeightsDescending(next) && NonNegativeSizes(next) && ShelfInvariant(next, i + 1, y, shelf, x0 + rs[i].w)
  {
    var next := rs[i := rs[i].(x := x0, y := y)];
    assert forall j :: 0 <= j < i ==> BeforeCursor(next[j], y, shelf, x0);
    forall a, b | 0 <= a < i + 1 && 0 <= b < i + 1 && a != b
      ensures Separated(next[a], next[b])
    {
      if a == i {
        assert BeforeCursor(next[b], y, shelf, x0);
      } else if b == i {
        assert BeforeCursor(next[a], y, shelf, x0);
      }
    }
  }

  lemma {:induction false} FitLoopSeparated(rs: seq<Rect>, width: int, height: int, i: nat, yLevel: int, levelHeight: int, x: int)
    requires i <= |rs| && HeightsDescending(rs) && NonNegativeSizes(rs)
    requires ShelfInvariant(rs, i, yLevel, levelHeight, x)
    ensures var (ok, out) := FitLoop(rs, width, height, i, yLevel, levelHeight, x);
      ok ==> PairwiseSeparated(out)
    decreases |rs| - i
  {
    if i < |rs| {
      var r := rs[i];
      var newLevel := r.w + x >= width;
      var y := if newLevel then yLevel + levelHeight else yLevel;
      var shelf := if newLevel then r.h else levelHeight;
      var x0 := if newLevel then 0 else x;
      if r.h + y < height {
        ShelfStep(rs, i, yLevel, levelHeight, x, x0, y, shelf);
        FitLoopSeparated(rs[i := r.(x := x0, y := y)], width, height, i + 1, y, shelf, x0 + r.w);
      }
    }
  }

  /**
   * With heights in non-increasing order and non-negative sizes, a successful
   * fit leaves no two rectangles overlapping.
   */
  lemma FitSeparated(rs: seq<Rect>, width: int, height: int)
    requires HeightsDescending(rs) && NonNegativeSizes(rs)
    ensures var (ok, out) := Fit(rs, width, height);
      ok ==> PairwiseSeparated(out)
  {
    if |rs| > 0 {
      FitLoopSeparated(rs, width, height, 0, 0, rs[0].h, 0);
    }
  }

  /** The widths of rectangles i.. summed. */
  function WidthSum(rs: seq<Rect>, i: nat): int
    requires i <= |rs|
    decreases |rs| - i
  {
    if i == |rs| then 0 else rs[i].w + WidthSum(rs, i + 1)
  }

  lemma {:induction false} WidthSumBound(rs: seq<Rect>, i: nat, j: nat)
    requires i <= j <= |rs| && NonNegativeSizes(rs)
    ensures WidthSum(rs, j) <= WidthSum(rs, i)
    decreases j - i
  {
    if i < j {
      WidthSumBound(rs, i + 1, j);
    }
  }

  lemma {:induction false} WidthSumOfSameSizes(a: seq<Rect>, b: seq<Rect>, i: nat)
    requires SameSizes(a, b) && i <= |a|
    ensures WidthSum(a, i) == WidthSum(b, i)
    decreases |a| - i
  {
    if i < |a| {
      WidthSumOfSameSizes(a, b, i + 1);
    }
  }

  lemma {:induction false} FitLoopSucceedsOnOneShelf(rs: seq<Rect>, width: int, height: int, i: nat, levelHeight: int, x: int)
    requires i <= |rs| && NonNegativeSizes(rs)
    requires x + WidthSum(rs, i) < width
    requires forall j :: i <= j < |rs| ==> rs[j].h < height
    ensures FitLoop(rs, width, height, i, 0, levelHeight, x).0
    decreases |rs| - i
  {
    if i < |rs| {
      var next := rs[i := rs[i].(x := x, y := 0)];
      assert SameSizes(rs, next);
      WidthSumOfSameSizes(rs, next, i + 1);
      WidthSumBound(rs, i + 1, |rs|);
      FitLoopSucceedsOnOneShelf(next, width, height, i + 1, levelHeight, x + rs[i].w);
    }
  }

  /**
   * Wide and high enough, everything fits on the first shelf: the fit
   * succeeds once width exceeds the total width and height the tallest height.
   */
  lemma FitSucceedsWhenLarge(rs: seq<Rect>, width: int, height: int)
    requires NonNegativeSizes(rs)
    requires WidthSum(rs, 0) < width
    requires forall j :: 0 <= j < |rs| ==> rs[j].h < height
    ensures Fit(rs, width, height).0
  {
    if |rs| > 0 {
      FitLoopSucceedsOnOneShelf(rs, width, height, 0, rs[0].h, 0);
    }
  }
}

module RectPackingSquare {
  import opened BasicMath
  import opened Shapes
  import opened RectPacking
  import Vectors

  /**
   * std::sqrt of the area, truncated to an integer: the largest s with
   * s * s <= n (exact for the int range, where double's square root is
   * correctly rounded).
   */
  function FloorSqrt(n: nat): (s: nat)
    ensures s * s <= n < (s + 1) * (s + 1)
  {
    if n == 0 then 0
    else
      var s := FloorSqrt(n - 1);
      if (s + 1) * (s + 1) <= n then s + 1 else s
  }

  /** The summed area h * w of the rectangles. */
  function AreaOf(rs: seq<Rect>): int
  {
    if |rs| == 0 then 0 else AreaOf(rs[..|rs| - 1]) + rs[|rs| - 1].h * rs[|rs| - 1].w
  }

  /** The largest width or height, and 0 for no rectangles. */
  function MaxSideOf(rs: seq<Rect>): (m: int)
    ensures m >= 0 && forall j :: 0 <= j < |rs| ==> rs[j].w <= m && rs[j].h <= m
  {
    if |rs| == 0 then 0
    else Max(rs[|rs| - 1].h, Max(rs[|rs| - 1].w, MaxSideOf(rs[..|rs| - 1])))
  }

  lemma AreaNonNegative(rs: seq<Rect>)
    requires NonNegativeSizes(rs)
    ensures AreaOf(rs) >= 0
  {
    if |rs| > 0 {
      AreaNonNegative(rs[..|rs| - 1]);
    }
  }

  /** The (height, index) pairs the packing sorts. */
  function HeightIndexPairs(rs: seq<Rect>): (p: seq<(int, int)>)
    ensures |p| == |rs| && forall j :: 0 <= j < |rs| ==> p[j] == (rs[j].h, j)
  {
    seq(|rs|, j requires 0 <= j < |rs| => (rs[j].h, j))
  }

  /** std::pair's operator>: lexicographic, first on the height, then on the index. */
  function PairGreater(p: (int, int), q: (int, int)): bool
  {
    p.0 > q.0 || (p.0 == q.0 && p.1 > q.1)
  }

  /**
   * P lists each index of rs exactly once, paired with that rectangle's
   * height.
   */
  ghost predicate IndexPermutation(p: seq<(int, int)>, rs: seq<Rect>)
  {
    |p| == |rs| &&
    (forall i :: 0 <= i < |p| ==> 0 <= p[i].1 < |rs| && p[i].0 == rs[p[i].1].h) &&
    (forall a, b :: 0 <= a < |p| && 0 <= b < |p| && a != b ==> p[a].1 != p[b].1) &&
    (forall j :: 0 <= j < |rs| ==> ListsIndex(p, j))
  }

  /** Some pair in p carries index j. */
  ghost predicate ListsIndex(p: seq<(int, int)>, j: int)
  {
    exists i :: 0 <= i < |p| && p[i].1 == j
  }

  lemma CountAtLeastTwo<T>(s: seq<T>, a: nat, b: nat)
    requires a < b < |s| && s[a] == s[b]
    ensures multiset(s)[s[a]] >= 2
  {
    assert s == s[..b] + [s[b]] + s[b + 1..];
    assert s[a] in s[..b];
  }

  lemma {:induction false} DistinctCountAtMostOne<T>(s: seq<T>, v: T)
    requires forall a, b :: 0 <= a < b < |s| ==> s[a] != s[b]
    ensures multiset(s)[v] <= 1
  {
    if |s| > 0 {
      var init := s[..|s| - 1];
      DistinctCountAtMostOne(init, v);
      assert s == init + [s[|s| - 1]];
      if s[|s| - 1] == v {
        assert v !in init;
      }
    }
  }

  /** Reading orig through distinct indices, one per element, gives a rearrangement of orig. */
  lemma {:induction false} ReindexedMultiset<T>(orig: seq<T>, idx: seq<int>, s: seq<T>)
    requires |idx| == |orig| == |s|
    requires forall k :: 0 <= k < |idx| ==> 0 <= idx[k] < |orig| && s[k] == orig[idx[k]]
    requires forall a, b :: 0 <= a < b < |idx| ==> idx[a] != idx[b]
    ensures multiset(s) == multiset(orig)
    decreases |s|
  {
    if |s| > 0 {
      var n := |s| - 1;
      var j := idx[n];
      var rest := orig[..j] + orig[j + 1..];
      var shifted := seq(n, k requires 0 <= k < n => if idx[k] < j then idx[k] else idx[k] - 1);
      forall k | 0 <= k < n
        ensures 0 <= shifted[k] < |rest| && s[..n][k] == rest[shifted[k]]
      {
        assert idx[k] != idx[n];
      }
      forall a, b | 0 <= a < b < n
        ensures shifted[a] != shifted[b]
      {
        assert idx[a] != idx[b];
      }
      ReindexedMultiset(rest, shifted, s[..n]);
      assert s == s[..n] + [s[n]];
      assert orig == orig[..j] + [orig[j]] + orig[j + 1..];
    }
  }

  /** A rearrangement of the (height, index) pairs is an index permutation. */
  lemma PermutedPairs(p: seq<(int, int)>, rs: seq<Rect>)
    requires multiset(p) == multiset(HeightIndexPairs(rs))
    ensures IndexPermutation(p, rs)
  {
    var orig := HeightIndexPairs(rs);
    assert |p| == |multiset(p)| == |orig|;
    forall i | 0 <= i < |p|
      ensures 0 <= p[i].1 < |rs| && p[i].0 == rs[p[i].1].h
    {
      assert p[i] in multiset(orig);
    }
    forall a, b | 0 <= a < |p| && 0 <= b < |p| && a != b
      ensures p[a].1 != p[b].1
    {
      if p[a].1 == p[b].1 {
        if a < b {
          CountAtLeastTwo(p, a, b);
        } else {
          CountAtLeastTwo(p, b, a);
        }
        DistinctCountAtMostOne(orig, p[a]);
      }
    }
    forall j | 0 <= j < |rs|
      ensures ListsIndex(p, j)
    {
      assert orig[j] in multiset(p);
    }
  }

  /** Sorting with std::pair's operator> orders the heights largest first. */
  lemma SortedPairsDescend(p: seq<(int, int)>)
    requires Vectors.SortedBy(p, PairGreater)
    ensures forall a, b :: 0 <= a < b < |p| ==> p[a].0 >= p[b].0
  {
    forall a, b | 0 <= a < b < |p|
      ensures p[a].0 >= p[b].0
    {
      assert !PairGreater(p[b], p[a]);
    }
  }

  /** The pair comparison is a comparator std::sort accepts. */
  lemma PairGreaterIsStrictWeakOrder()
    ensures Vectors.StrictWeakOrder(PairGreater)
  {
  }

  /** Sizes equal index by index carry over the shelf preconditions. */
  lemma SameSizesPreserve(a: seq<Rect>, b: seq<Rect>)
    requires SameSizes(a, b)
    ensures NonNegativeSizes(a) ==> NonNegativeSizes(b)
    ensures HeightsDescending(a) ==> HeightsDescending(b)
    ensures WidthSum(a, 0) == WidthSum(b, 0)
  {
    WidthSumOfSameSizes(a, b, 0);
  }

  /** A fit of a square can only fail while the side is at most the total width plus the tallest height. */
  lemma FitFailureBound(rs: seq<Rect>, size: int, tallest: int)
    requires NonNegativeSizes(rs) && forall j :: 0 <= j < |rs| ==> rs[j].h <= tallest
    requires tallest >= 0
    ensures !Fit(rs, size, size).0 ==> size <= WidthSum(rs, 0) + tallest
  {
    if size > WidthSum(rs, 0) + tallest {
      WidthSumBound(rs, 0, |rs|);
      FitSucceedsWhenLarge(rs, size, size);
    }
  }

  /** The side the packing starts from: neither below sqrt(area) nor below the longest side, rounded up. */
  function InitialGrid(rs: seq<Rect>): (g: nat)
    requires NonNegativeSizes(rs)
    ensures IsPow2(g) && g >= MaxSideOf(rs)
  {
    AreaNonNegative(rs);
    var bySqrt := UpperPow2(FloorSqrt(AreaOf(rs) as nat));
    var bySide := UpperPow2(MaxSideOf(rs) as nat);
    if bySqrt >= bySide then bySqrt else bySide
  }

  /**
   * The (height, index) pairs, built by pushing one per rectangle and sorted
   * with std::pair's operator>.
   */
  method SortedHeightOrder(rects: array<Rect>) returns (order: seq<(int, int)>)
    ensures IndexPermutation(order, rects[..])
    ensures forall a, b :: 0 <= a < b < |order| ==> order[a].0 >= order[b].0
  {
    var pairs := new (int, int)[rects.Length];
    var i := 0;
    while i < rects.Length
      invariant 0 <= i <= rects.Length
      invariant forall k :: 0 <= k < i ==> pairs[k] == (rects[k].h, k)
    {
      pairs[i] := (rects[i].h, i);
      i := i + 1;
    }
    assert pairs[..] == HeightIndexPairs(rects[..]);
    PairGreaterIsStrictWeakOrder();
    Vectors.SortBy(pairs, PairGreater);
    order := pairs[..];
    PermutedPairs(order, rects[..]);
    SortedPairsDescend(order);
  }

  /** rects[order[i].1] holds placed[i] for every i. */
  ghost predicate Scattered(result: seq<Rect>, order: seq<(int, int)>, placed: seq<Rect>)
    requires |order| == |placed|
    requires forall i :: 0 <= i < |order| ==> 0 <= order[i].1 < |result|
  {
    forall i :: 0 <= i < |order| ==> result[order[i].1] == placed[i]
  }

  /** What writing the placed copies back to their original indices gives. */
  lemma ScatterProperties(orig: seq<Rect>, order: seq<(int, int)>, placed: seq<Rect>, result: seq<Rect>, grid: int)
    requires IndexPermutation(order, orig) && |result| == |orig| && |placed| == |order|
    requires Scattered(result, order, placed)
    requires forall i :: 0 <= i < |placed| ==> placed[i].w == orig[order[i].1].w && placed[i].h == orig[order[i].1].h
    requires forall i :: 0 <= i < |placed| ==> PlacedWithin(placed[i], grid, grid) && placed[i].MaxX() <= grid
    ensures SameSizes(orig, result)
    ensures forall j :: 0 <= j < |result| ==> PlacedWithin(result[j], grid, grid) && result[j].MaxX() <= grid
    ensures PairwiseSeparated(placed) ==> PairwiseSeparated(result)
  {
    forall j | 0 <= j < |result|
      ensures result[j].w == orig[j].w && result[j].h == orig[j].h
      ensures PlacedWithin(result[j], grid, grid) && result[j].MaxX() <= grid
    {
      assert ListsIndex(order, j);
    }
    if PairwiseSeparated(placed) {
      forall a, b | 0 <= a < |result| && 0 <= b < |result| && a != b
        ensures Separated(result[a], result[b])
      {
        assert ListsIndex(order, a) && ListsIndex(order, b);
        var ia :| 0 <= ia < |order| && order[ia].1 == a;
        var ib :| 0 <= ib < |order| && order[ib].1 == b;
      }
    }
  }

  /** The summed area of the rectangles, accumulated in one pass. */
  method TotalArea(rects: array<Rect>) returns (area: int)
    ensures area == AreaOf(rects[..])
  {
    area := 0;
    var i := 0;
    while i < rects.Length
      invariant 0 <= i <= rects.Length
      invariant area == AreaOf(rects[..i])
    {
      assert rects[..i + 1][..i] == rects[..i];
      area := area + rects[i].h * rects[i].w;
      i := i + 1;
    }
    assert rects[..rects.Length] == rects[..];
  }

  /** The longest side of any rectangle, accumulated in one pass. */
  method LongestSide(rects: array<Rect>) returns (maxSide: int)
    ensures maxSide == MaxSideOf(rects[..])
  {
    maxSide := 0;
    var i := 0;
    while i < rects.Length
      invariant 0 <= i <= rects.Length
      invariant maxSide == MaxSideOf(rects[..i])
    {
      assert rects[..i + 1][..i] == rects[..i];
      maxSide := Max(rects[i].w, maxSide);
      maxSide := Max(rects[i].h, maxSide);
      i := i + 1;
    }
    assert rects[..rects.Length] == rects[..];
  }

  /** A fresh array holding rects[order[i].1] at each i. */
  method CopyInOrder(rects: array<Rect>, order: seq<(int, int)>) returns (copy: array<Rect>)
    requires IndexPermutation(order, rects[..])
    ensures fresh(copy) && copy.Length == rects.Length
    ensures forall k :: 0 <= k < copy.Length ==> copy[k] == rects[order[k].1]
  {
    copy := new Rect[rects.Length];
    var i := 0;
    while i < rects.Length
      invariant 0 <= i <= rects.Length
      invariant forall k :: 0 <= k < i ==> copy[k] == rects[order[k].1]
    {
      copy[i] := rects[order[i].1];
      i := i + 1;
    }
  }

  /** Writes placed[i] to rects[order[i].1] for every i. */
  method ScatterBack(rects: array<Rect>, order: seq<(int, int)>, placed: array<Rect>)
    requires IndexPermutation(order, rects[..]) && placed.Length == |order|
    requires placed != rects
    modifies rects
    ensures Scattered(rects[..], order, placed[..])
  {
    ghost var orig := rects[..];
    var i := 0;
    while i < rects.Length
      invariant 0 <= i <= rects.Length
      invariant forall k :: 0 <= k < i ==> rects[order[k].1] == placed[k]
    {
      rects[order[i].1] := placed[i];
      i := i + 1;
    }
  }

  /**
   * The doubling loop: refits the rectangles into a square twice as wide
   * until the fit succeeds. Since a square wider than the total width plus
   * the tallest height always fits, it ends.
   */
  method GrowUntilFit(rects: array<Rect>, start: nat, tallest: int) returns (grid: nat, ghost before: seq<Rect>)
    requires IsPow2(start) && NonNegativeSizes(rects[..]) && tallest >= 0
    requires forall j :: 0 <= j < rects.Length ==> rects[j].h <= tallest
    modifies rects
    ensures IsPow2(grid) && grid >= start
    ensures SameSizes(old(rects[..]), before)
    ensures (true, rects[..]) == Fit(before, grid, grid)
    ensures Fit(old(rects[..]), start, start).0 ==> grid == start
    ensures grid > start ==> !Fit(old(rects[..]), grid / 2, grid / 2).0
  {
    ghost var sorted := rects[..];
    ghost var bound := WidthSum(sorted, 0) + tallest;
    grid := start;
    before := rects[..];
    var ok := FitRectsInRect(rects, grid, grid);
    FitKeepsSizes(before, grid, grid);
    FitDependsOnSizes(sorted, before, grid, grid);
    while !ok
      invariant IsPow2(grid) && grid >= start
      invariant SameSizes(sorted, before) && SameSizes(sorted, rects[..])
      invariant (ok, rects[..]) == Fit(before, grid, grid)
      invariant ok == Fit(sorted, grid, grid).0
      invariant grid == start || !Fit(sorted, grid / 2, grid / 2).0
      invariant Fit(sorted, start, start).0 ==> grid == start
      decreases if grid <= bound then bound + 1 - grid else 0
    {
      SameSizesPreserve(sorted, before);
      FitFailureBound(before, grid, tallest);
      grid := grid * 2;
      before := rects[..];
      ok := FitRectsInRect(rects, grid, grid);
      FitKeepsSizes(before, grid, grid);
      FitDependsOnSizes(sorted, before, grid, grid);
    }
  }

  /** The copy taken in descending height order meets the shelf preconditions. */
  lemma SortedCopyFacts(orig: seq<Rect>, order: seq<(int, int)>, sorted: seq<Rect>, maxSide: int)
    requires IndexPermutation(order, orig) && |sorted| == |order|
    requires forall a, b :: 0 <= a < b < |order| ==> order[a].0 >= order[b].0
    requires forall k :: 0 <= k < |sorted| ==> sorted[k] == orig[order[k].1]
    requires NonNegativeSizes(orig) && maxSide == MaxSideOf(orig)
    ensures HeightsDescending(sorted) && NonNegativeSizes(sorted)
    ensures forall k :: 0 <= k < |sorted| ==> sorted[k] in orig
    ensures multiset(sorted) == multiset(orig)
    ensures forall j :: 0 <= j < |sorted| ==> sorted[j].h <= maxSide && sorted[j].w <= maxSide
  {
    var idx := seq(|order|, k requires 0 <= k < |order| => order[k].1);
    ReindexedMultiset(orig, idx, sorted);
  }

  /** After the fit: sizes of the copy match the originals, and each placement is within the grid. */
  lemma PlacedFacts(orig: seq<Rect>, order: seq<(int, int)>, sorted: seq<Rect>, before: seq<Rect>,
                    placed: seq<Rect>, grid: nat, maxSide: int)
    requires IndexPermutation(order, orig) && |sorted| == |order|
    requires forall k :: 0 <= k < |sorted| ==> sorted[k] == orig[order[k].1]
    requires HeightsDescending(sorted) && NonNegativeSizes(sorted)
    requires forall j :: 0 <= j < |sorted| ==> sorted[j].w <= maxSide
    requires grid >= maxSide
    requires SameSizes(sorted, before) && (true, placed) == Fit(before, grid, grid)
    ensures |placed| == |order|
    ensures forall i :: 0 <= i < |placed| ==> placed[i].w == orig[order[i].1].w && placed[i].h == orig[order[i].1].h
    ensures forall i :: 0 <= i < |placed| ==> PlacedWithin(placed[i], grid, grid) && placed[i].MaxX() <= grid
    ensures PairwiseSeparated(placed)
  {
    SameSizesPreserve(sorted, before);
    FitKeepsSizes(before, grid, grid);
    FitBounds(before, grid, grid);
    FitSeparated(before, grid, grid);
  }

  /**
   * rect_packing_pow2_sq: starts from InitialGrid, packs a copy sorted by
   * height (largest first) into ever doubled squares until it fits, and
   * writes the positions back to the original indices.
   */
  method RectPackingPow2Sq(rects: array<Rect>) returns (grid: nat, ghost byHeight: seq<Rect>)
    requires NonNegativeSizes(rects[..])
    modifies rects
    ensures IsPow2(grid) && grid >= InitialGrid(old(rects[..]))
    ensures |byHeight| == rects.Length && HeightsDescending(byHeight)
    ensures forall k :: 0 <= k < |byHeight| ==> byHeight[k] in old(rects[..])
    ensures multiset(byHeight) == multiset(old(rects[..]))
    ensures Fit(byHeight, InitialGrid(old(rects[..])), InitialGrid(old(rects[..]))).0 ==> grid == InitialGrid(old(rects[..]))
    ensures grid > InitialGrid(old(rects[..])) ==> !Fit(byHeight, grid / 2, grid / 2).0
    ensures SameSizes(old(rects[..]), rects[..])
    ensures forall j :: 0 <= j < rects.Length ==> PlacedWithin(rects[j], grid, grid) && rects[j].MaxX() <= grid
    ensures PairwiseSeparated(rects[..])
  {
    ghost var orig := rects[..];
    var area := TotalArea(rects);
    var maxSide := LongestSide(rects);
    AreaNonNegative(orig);
    var bySqrt := UpperPow2(FloorSqrt(area as nat));
    var bySide := UpperPow2(maxSide as nat);
    var start := if bySqrt >= bySide then bySqrt else bySide;
    assert start == InitialGrid(orig);

    var order := SortedHeightOrder(rects);
    var descending := CopyInOrder(rects, order);
    ghost var sorted := descending[..];
    SortedCopyFacts(orig, order, sorted, maxSide);
    byHeight := sorted;

    ghost var before;
    grid, before := GrowUntilFit(descending, start, maxSide);
    ghost var placed := descending[..];
    PlacedFacts(orig, order, sorted, before, placed, grid, maxSide);
    ScatterBack(rects, order, descending);
    ScatterProperties(orig, order, placed, rects[..], grid);
  }
}
