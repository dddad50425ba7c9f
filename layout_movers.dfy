// The element movers of the layout: _PartsAlign and _PartsDivideBySize
// place the parts of an element relative to the element's own position.
// Each is a fold over the parts (AlignFrom, DivideFrom) and a loop on the
// pool proved against it (RunPartsAlign, RunPartsDivideBySize).

module LayoutMovers {
  import opened Wrappers
  import opened BasicMath
  import opened Shapes
  import opened Vectors
  import opened PoolAllocation
  import opened LayoutElements

  /** Where a mover run got to: the scene it left, and whether it stopped on a failed assertion. */
  datatype Outcome = Outcome(scene: Scene, failed: bool)

  /** A mover only moves elements: every other field is kept, and the alerts it adds are moved alerts. */
  ghost predicate MovesOnly(before: Scene, after: Scene)
  {
    |after.data| == |before.data|
    && (forall j :: 0 <= j < |before.data| ==> after.data[j] == before.data[j].(position := after.data[j].position))
    && |before.alerts| <= |after.alerts| && after.alerts[..|before.alerts|] == before.alerts
    && (forall k :: |before.alerts| <= k < |after.alerts| ==> after.alerts[k].Moved?)
  }

  lemma MovesOnlyStep(s: Scene, p: Ptr, pos: Rect, after: Scene)
    requires 0 <= p.index < |s.data| && MovesOnly(SetElementPosition(s, p, pos), after)
    ensures MovesOnly(s, after)
  {
    var t := SetElementPosition(s, p, pos);
    assert after.alerts[..|s.alerts|] == after.alerts[..|t.alerts|][..|s.alerts|];
  }

  /** Parts in pairwise distinct slots, none of them the parent's. */
  predicate SeparateParts(parts: seq<Ptr>, parent: nat)
  {
    (forall a, b :: 0 <= a < b < |parts| ==> parts[a].index != parts[b].index)
    && forall a :: 0 <= a < |parts| ==> parts[a].index != parent
  }

  // ------------------------------------------------------------- align

  /**
   * _PartsAlign::update from part i on: it stops at the end of the parts or
   * of the sizes, skips NO_ALIGNMENT, gives each other part the size
   * (width[i], height[i]) and aligns it to the parent's current position;
   * an expired part or an alignment align_rect does not implement stops it
   * with a failure.
   */
  function AlignFrom(keys: seq<Key>, s: Scene, parent: nat, parts: seq<Ptr>,
                     alignment: seq<RectAlignment>, width: seq<int>, height: seq<int>, i: nat): (o: Outcome)
    requires |keys| == |s.data| && parent < |s.data|
    requires |width| <= |alignment| && |width| <= |height|
    ensures |o.scene.data| == |s.data|
    decreases |parts| - i
  {
    if i >= |parts| || i >= |width| then Outcome(s, false)
    else if alignment[i].NoAlignment? then AlignFrom(keys, s, parent, parts, alignment, width, height, i + 1)
    else if !Live(keys, parts[i]) then Outcome(s, true)
    else
      var aligned := AlignRect(s.data[parts[i].index].position.(w := width[i], h := height[i]), s.data[parent].position, alignment[i]);
      if aligned.Failure? then Outcome(s, true)
      else AlignFrom(keys, SetElementPosition(s, parts[i], aligned.value), parent, parts, alignment, width, height, i + 1)
  }

  /** An align run only moves elements. */
  lemma {:induction false} AlignFromMovesOnly(keys: seq<Key>, s: Scene, parent: nat, parts: seq<Ptr>,
                                              alignment: seq<RectAlignment>, width: seq<int>, height: seq<int>, i: nat)
    requires |keys| == |s.data| && parent < |s.data|
    requires |width| <= |alignment| && |width| <= |height|
    ensures MovesOnly(s, AlignFrom(keys, s, parent, parts, alignment, width, height, i).scene)
    decreases |parts| - i
  {
    if i >= |parts| || i >= |width| || (!alignment[i].NoAlignment? && !Live(keys, parts[i])) {
      assert s.alerts[..|s.alerts|] == s.alerts;
    } else if alignment[i].NoAlignment? {
      AlignFromMovesOnly(keys, s, parent, parts, alignment, width, height, i + 1);
    } else {
      var aligned := AlignRect(s.data[parts[i].index].position.(w := width[i], h := height[i]), s.data[parent].position, alignment[i]);
      if aligned.Failure? {
        assert s.alerts[..|s.alerts|] == s.alerts;
      } else {
        var next := SetElementPosition(s, parts[i], aligned.value);
        AlignFromMovesOnly(keys, next, parent, parts, alignment, width, height, i + 1);
        MovesOnlyStep(s, parts[i], aligned.value, AlignFrom(keys, next, parent, parts, alignment, width, height, i + 1).scene);
      }
    }
  }

  /** The part an align run stops at: one to align that has expired, or whose alignment is a middle one. */
  predicate AlignBlocked(keys: seq<Key>, parts: seq<Ptr>, alignment: seq<RectAlignment>, k: nat)
    requires k < |parts| && k < |alignment|
  {
    !alignment[k].NoAlignment? && (!Live(keys, parts[k]) || IsMiddleAlignment(alignment[k]))
  }

  /** An align run fails exactly when one of the parts it reaches is blocked. */
  lemma {:induction false} AlignFromFails(keys: seq<Key>, s: Scene, parent: nat, parts: seq<Ptr>,
                                          alignment: seq<RectAlignment>, width: seq<int>, height: seq<int>, i: nat)
    requires |keys| == |s.data| && parent < |s.data|
    requires |width| <= |alignment| && |width| <= |height|
    ensures AlignFrom(keys, s, parent, parts, alignment, width, height, i).failed <==>
      exists k :: i <= k < Min(|parts|, |width|) && AlignBlocked(keys, parts, alignment, k)
    decreases |parts| - i
  {
    if i < |parts| && i < |width| {
      if alignment[i].NoAlignment? {
        AlignFromFails(keys, s, parent, parts, alignment, width, height, i + 1);
      } else if Live(keys, parts[i]) && !IsMiddleAlignment(alignment[i]) {
        var aligned := AlignRect(s.data[parts[i].index].position.(w := width[i], h := height[i]), s.data[parent].position, alignment[i]);
        AlignFromFails(keys, SetElementPosition(s, parts[i], aligned.value), parent, parts, alignment, width, height, i + 1);
      } else {
        assert AlignBlocked(keys, parts, alignment, i);
      }
    }
  }

  /** An align run leaves every slot it does not reach from part i on as it was. */
  lemma {:induction false} AlignFromKeeps(keys: seq<Key>, s: Scene, parent: nat, parts: seq<Ptr>,
                                          alignment: seq<RectAlignment>, width: seq<int>, height: seq<int>, i: nat, j: nat)
    requires |keys| == |s.data| && parent < |s.data| && j < |s.data|
    requires |width| <= |alignment| && |width| <= |height|
    requires forall a :: i <= a < |parts| ==> parts[a].index != j
    ensures AlignFrom(keys, s, parent, parts, alignment, width, height, i).scene.data[j] == s.data[j]
    decreases |parts| - i
  {
    if i < |parts| && i < |width| {
      if alignment[i].NoAlignment? {
        AlignFromKeeps(keys, s, parent, parts, alignment, width, height, i + 1, j);
      } else if Live(keys, parts[i]) {
        var aligned := AlignRect(s.data[parts[i].index].position.(w := width[i], h := height[i]), s.data[parent].position, alignment[i]);
        if aligned.Success? {
          AlignFromKeeps(keys, SetElementPosition(s, parts[i], aligned.value), parent, parts, alignment, width, height, i + 1, j);
        }
      }
    }
  }

  /**
   * With the parts in separate slots, a completed align run puts part k
   * where align_rect puts its resized rectangle beside the parent's
   * position, and leaves a NO_ALIGNMENT part where it was.
   */
  lemma {:induction false} AlignFromPlaces(keys: seq<Key>, s: Scene, parent: nat, parts: seq<Ptr>,
                                           alignment: seq<RectAlignment>, width: seq<int>, height: seq<int>, i: nat, k: nat)
    requires |keys| == |s.data| && parent < |s.data|
    requires |width| <= |alignment| && |width| <= |height|
    requires SeparateParts(parts, parent) && i <= k < |parts| && k < |width|
    requires !AlignFrom(keys, s, parent, parts, alignment, width, height, i).failed
    ensures alignment[k].NoAlignment? && 0 <= parts[k].index < |s.data| ==>
      AlignFrom(keys, s, parent, parts, alignment, width, height, i).scene.data[parts[k].index] == s.data[parts[k].index]
    ensures !alignment[k].NoAlignment? ==>
      && Live(keys, parts[k])
      && AlignRect(s.data[parts[k].index].position.(w := width[k], h := height[k]), s.data[parent].position, alignment[k]).Success?
      && AlignFrom(keys, s, parent, parts, alignment, width, height, i).scene.data[parts[k].index].position ==
         AlignRect(s.data[parts[k].index].position.(w := width[k], h := height[k]), s.data[parent].position, alignment[k]).value
    decreases |parts| - i
  {
    if alignment[i].NoAlignment? {
      if i == k {
        if 0 <= parts[k].index < |s.data| {
          AlignFromKeeps(keys, s, parent, parts, alignment, width, height, i + 1, parts[k].index);
        }
      } else {
        AlignFromPlaces(keys, s, parent, parts, alignment, width, height, i + 1, k);
      }
    } else {
      var aligned := AlignRect(s.data[parts[i].index].position.(w := width[i], h := height[i]), s.data[parent].position, alignment[i]);
      var next := SetElementPosition(s, parts[i], aligned.value);
      if i == k {
        AlignFromKeeps(keys, next, parent, parts, alignment, width, height, i + 1, parts[k].index);
      } else {
        assert parts[i].index != parts[k].index && parts[i].index != parent;
        AlignFromPlaces(keys, next, parent, parts, alignment, width, height, i + 1, k);
      }
    }
  }

  // ------------------------------------------------------ divide by size

  /**
   * Where _PartsDivideBySize puts a part of size (w, h): forward, at the
   * running rectangle; reversed, against the parent's far edge across the
   * run and against the running rectangle's far edge along it. Either way
   * the rectangle is then cut to the parent, so a part of non-negative size
   * lies inside the parent.
   */
  function DividedRect(position: Rect, parentPos: Rect, w: int, h: int, vertical: bool, reversed: bool): (r: Rect)
    ensures r.w >= 0 && r.h >= 0 ==> Contains(parentPos, r)
  {
    var sized :=
      if !reversed then position.(w := w, h := h)
      else if vertical then Rect(parentPos.MaxX() - w, position.MaxY() - h, w, h)
      else Rect(position.MaxX() - w, parentPos.MaxY() - h, w, h);
    var cut := CutRectToFit(sized, parentPos);
    if cut.w >= 0 && cut.h >= 0 then
      CutRectToFitContained(sized, parentPos);
      cut
    else
      cut
  }

  /** The running rectangle after a part: forward it moves past the part, reversed it is the part. */
  function NextRunning(placed: Rect, w: int, h: int, vertical: bool, reversed: bool): Rect
  {
    if reversed then placed
    else if vertical then placed.(y := placed.y + h)
    else placed.(x := placed.x + w)
  }

  /**
   * _PartsDivideBySize::update from step i2 of n on: forward it places
   * part i2, reversed part n - i2 - 1, each from the running rectangle and
   * the parent's current position; an expired part stops it with a failure.
   */
  function DivideFrom(keys: seq<Key>, s: Scene, parent: nat, parts: seq<Ptr>, width: seq<int>, height: seq<int>,
                      vertical: bool, reversed: bool, n: nat, i2: nat, running: Rect): (o: Outcome)
    requires |keys| == |s.data| && parent < |s.data|
    requires n <= |parts| && n <= |width| && |width| <= |height|
    ensures |o.scene.data| == |s.data|
    decreases n - i2
  {
    if i2 >= n then Outcome(s, false)
    else
      var i := if reversed then n - i2 - 1 else i2;
      var placed := DividedRect(running, s.data[parent].position, width[i], height[i], vertical, reversed);
      if !Live(keys, parts[i]) then Outcome(s, true)
      else DivideFrom(keys, SetElementPosition(s, parts[i], placed), parent, parts, width, height, vertical, reversed,
                      n, i2 + 1, NextRunning(placed, width[i], height[i], vertical, reversed))
  }

  /** A divide run only moves elements. */
  lemma {:induction false} DivideFromMovesOnly(keys: seq<Key>, s: Scene, parent: nat, parts: seq<Ptr>, width: seq<int>, height: seq<int>,
                                               vertical: bool, reversed: bool, n: nat, i2: nat, running: Rect)
    requires |keys| == |s.data| && parent < |s.data|
    requires n <= |parts| && n <= |width| && |width| <= |height|
    ensures MovesOnly(s, DivideFrom(keys, s, parent, parts, width, height, vertical, reversed, n, i2, running).scene)
    decreases n - i2
  {
    var i := if reversed then n - i2 - 1 else i2;
    if i2 >= n || !Live(keys, parts[i]) {
      assert s.alerts[..|s.alerts|] == s.alerts;
    } else {
      var placed := DividedRect(running, s.data[parent].position, width[i], height[i], vertical, reversed);
      var next := SetElementPosition(s, parts[i], placed);
      var rest := NextRunning(placed, width[i], height[i], vertical, reversed);
      var o := DivideFrom(keys, next, parent, parts, width, height, vertical, reversed, n, i2 + 1, rest);
      assert DivideFrom(keys, s, parent, parts, width, height, vertical, reversed, n, i2, running) == o;
      DivideFromMovesOnly(keys, next, parent, parts, width, height, vertical, reversed, n, i2 + 1, rest);
      MovesOnlyStep(s, parts[i], placed, o.scene);
    }
  }

  /** The parts a divide run still has to place at step i2. */
  predicate DivideAhead(reversed: bool, n: nat, i2: nat, k: nat)
  {
    if reversed then k < n - i2 else i2 <= k < n
  }

  /** A divide run fails exactly when one of the parts it still has to place has expired. */
  lemma {:induction false} DivideFromFails(keys: seq<Key>, s: Scene, parent: nat, parts: seq<Ptr>, width: seq<int>, height: seq<int>,
                                           vertical: bool, reversed: bool, n: nat, i2: nat, running: Rect)
    requires |keys| == |s.data| && parent < |s.data|
    requires n <= |parts| && n <= |width| && |width| <= |height|
    ensures DivideFrom(keys, s, parent, parts, width, height, vertical, reversed, n, i2, running).failed <==>
      exists k :: 0 <= k < n && DivideAhead(reversed, n, i2, k) && !Live(keys, parts[k])
    decreases n - i2
  {
    if i2 < n {
      var i := if reversed then n - i2 - 1 else i2;
      assert DivideAhead(reversed, n, i2, i);
      if Live(keys, parts[i]) {
        var placed := DividedRect(running, s.data[parent].position, width[i], height[i], vertical, reversed);
        var next := SetElementPosition(s, parts[i], placed);
        var rest := NextRunning(placed, width[i], height[i], vertical, reversed);
        assert DivideFrom(keys, s, parent, parts, width, height, vertical, reversed, n, i2, running)
            == DivideFrom(keys, next, parent, parts, width, height, vertical, reversed, n, i2 + 1, rest);
        DivideFromFails(keys, next, parent, parts, width, height, vertical, reversed, n, i2 + 1, rest);
        forall k | 0 <= k < n && DivideAhead(reversed, n, i2, k) && k != i
          ensures DivideAhead(reversed, n, i2 + 1, k)
        {
        }
      }
    }
  }

  /**
   * Unless the parent is one of its own parts, every element a divide run
   * moves ends inside the parent, or with a negative width or height.
   */
  lemma {:induction false} DivideFromInsideParent(keys: seq<Key>, s: Scene, parent: nat, parts: seq<Ptr>, width: seq<int>, height: seq<int>,
                                                  vertical: bool, reversed: bool, n: nat, i2: nat, running: Rect, j: nat)
    requires |keys| == |s.data| && parent < |s.data| && j < |s.data|
    requires n <= |parts| && n <= |width| && |width| <= |height|
    requires forall a :: 0 <= a < n ==> parts[a].index != parent
    requires DivideFrom(keys, s, parent, parts, width, height, vertical, reversed, n, i2, running).scene.data[j].position != s.data[j].position
    ensures var pos := DivideFrom(keys, s, parent, parts, width, height, vertical, reversed, n, i2, running).scene.data[j].position;
      Contains(s.data[parent].position, pos) || pos.w < 0 || pos.h < 0
    decreases n - i2
  {
    var i := if reversed then n - i2 - 1 else i2;
    var placed := DividedRect(running, s.data[parent].position, width[i], height[i], vertical, reversed);
    var next := SetElementPosition(s, parts[i], placed);
    var rest := NextRunning(placed, width[i], height[i], vertical, reversed);
    assert next.data[parent] == s.data[parent];
    if DivideFrom(keys, next, parent, parts, width, height, vertical, reversed, n, i2 + 1, rest).scene.data[j].position != next.data[j].position {
      DivideFromInsideParent(keys, next, parent, parts, width, height, vertical, reversed, n, i2 + 1, rest, j);
    }
  }

  /** With non-negative widths the prefix sums grow, and step by one element. */
  lemma PrefixSumStep(width: seq<int>, k: nat, n: nat)
    requires k < n <= |width| && forall a :: 0 <= a < n ==> width[a] >= 0
    ensures Sum(width[..k + 1]) == Sum(width[..k]) + width[k] <= Sum(width[..n])
  {
    SumAppend(width[..k], [width[k]]);
    assert width[..k] + [width[k]] == width[..k + 1];
    SumAppend(width[..k + 1], width[k + 1..n]);
    assert width[..k + 1] + width[k + 1..n] == width[..n];
    SumNonNegative(width[k + 1..n]);
  }

  lemma {:induction false} SumNonNegative(s: seq<int>)
    requires forall a :: 0 <= a < |s| ==> s[a] >= 0
    ensures Sum(s) >= 0
  {
    if |s| > 0 {
      SumNonNegative(s[1..]);
    }
  }

  /**
   * Dividing forward along a row that fits: with the parts in separate
   * slots, non-negative widths whose total fits the parent's width and
   * heights that fit its height, a completed run puts part k at the
   * parent's left edge plus the widths before it, at the parent's top,
   * with exactly the requested size.
   */
  lemma {:induction false} DivideRowPlaces(keys: seq<Key>, s: Scene, parent: nat, parts: seq<Ptr>, width: seq<int>, height: seq<int>,
                                           n: nat, i2: nat, running: Rect, k: nat)
    requires |keys| == |s.data| && parent < |s.data|
    requires n <= |parts| && n <= |width| && |width| <= |height|
    requires SeparateParts(parts, parent) && i2 <= k < n
    requires var p := s.data[parent].position;
      && (forall a :: 0 <= a < n ==> width[a] >= 0 && 0 <= height[a] <= p.h)
      && Sum(width[..n]) <= p.w
      && running.x == p.x + Sum(width[..i2]) && running.y == p.y
    requires !DivideFrom(keys, s, parent, parts, width, height, false, false, n, i2, running).failed
    ensures var p := s.data[parent].position;
      && 0 <= parts[k].index < |s.data|
      && DivideFrom(keys, s, parent, parts, width, height, false, false, n, i2, running).scene.data[parts[k].index].position
         == Rect(p.x + Sum(width[..k]), p.y, width[k], height[k])
    decreases n - i2
  {
    var p := s.data[parent].position;
    var placed := DividedRect(running, p, width[i2], height[i2], false, false);
    var next := SetElementPosition(s, parts[i2], placed);
    var rest := NextRunning(placed, width[i2], height[i2], false, false);
    PrefixSumStep(width, i2, n);
    SumNonNegative(width[..i2]);
    assert placed == Rect(p.x + Sum(width[..i2]), p.y, width[i2], height[i2]);
    assert next.data[parent] == s.data[parent];
    if k == i2 {
      DivideFromKeeps(keys, next, parent, parts, width, height, false, false, n, i2 + 1, rest, parts[k].index);
    } else {
      assert parts[i2].index != parts[k].index;
      DivideRowPlaces(keys, next, parent, parts, width, height, n, i2 + 1, rest, k);
    }
  }

  /** A forward divide run leaves every slot it does not reach from step i2 on as it was. */
  lemma {:induction false} DivideFromKeeps(keys: seq<Key>, s: Scene, parent: nat, parts: seq<Ptr>, width: seq<int>, height: seq<int>,
                                           vertical: bool, reversed: bool, n: nat, i2: nat, running: Rect, j: nat)
    requires |keys| == |s.data| && parent < |s.data| && j < |s.data|
    requires n <= |parts| && n <= |width| && |width| <= |height|
    requires forall a :: 0 <= a < n && DivideAhead(reversed, n, i2, a) ==> parts[a].index != j
    ensures DivideFrom(keys, s, parent, parts, width, height, vertical, reversed, n, i2, running).scene.data[j] == s.data[j]
    decreases n - i2
  {
    if i2 < n {
      var i := if reversed then n - i2 - 1 else i2;
      assert DivideAhead(reversed, n, i2, i);
      if Live(keys, parts[i]) {
        var placed := DividedRect(running, s.data[parent].position, width[i], height[i], vertical, reversed);
        forall a | 0 <= a < n && DivideAhead(reversed, n, i2 + 1, a)
          ensures parts[a].index != j
        {
          assert DivideAhead(reversed, n, i2, a);
        }
        var next := SetElementPosition(s, parts[i], placed);
        var rest := NextRunning(placed, width[i], height[i], vertical, reversed);
        assert DivideFrom(keys, s, parent, parts, width, height, vertical, reversed, n, i2, running)
            == DivideFrom(keys, next, parent, parts, width, height, vertical, reversed, n, i2 + 1, rest);
        DivideFromKeeps(keys, next, parent, parts, width, height, vertical, reversed, n, i2 + 1, rest, j);
      }
    }
  }

  // ------------------------------------------------------- runs on the pool

  /** One step of _PartsAlign::update: part i, on the pool. */
  method AlignPart(m: LayoutElementManager, parent: Ptr, parts: seq<Ptr>, alignment: seq<RectAlignment>,
                   width: seq<int>, height: seq<int>, i: nat)
    returns (r: Result<()>)
    requires m.Valid() && Live(m.pool.keys, parent)
    requires |width| <= |alignment| && |width| <= |height| && i < |parts| && i < |width|
    modifies m.pool, m`alerts
    ensures m.Valid() && m.pool.keys == old(m.pool.keys) && m.pool.totalAllocationCount == old(m.pool.totalAllocationCount)
    ensures var s := old(Scene(m.pool.data, m.alerts));
      var o := AlignFrom(m.pool.keys, s, parent.index, parts, alignment, width, height, i);
      if r.Failure? then Scene(m.pool.data, m.alerts) == s && o == Outcome(s, true)
      else o == AlignFrom(m.pool.keys, Scene(m.pool.data, m.alerts), parent.index, parts, alignment, width, height, i + 1)
  {
    r := Success(());
    if !alignment[i].NoAlignment? {
      if !Live(m.pool.keys, parts[i]) {
        return Failure("a part to align has expired");
      }
      var resized := m.pool.data[parts[i].index].position.(w := width[i], h := height[i]);
      var aligned := AlignRect(resized, m.pool.data[parent.index].position, alignment[i]);
      if aligned.Failure? {
        return Failure(aligned.error);
      }
      m.MoveElement(parts[i], aligned.value);
    }
  }

  /** _PartsAlign::update on the element behind parent: the loop over its parts on the pool. */
  method RunPartsAlign(m: LayoutElementManager, parent: Ptr, alignment: seq<RectAlignment>, width: seq<int>, height: seq<int>)
    returns (r: Result<()>)
    requires m.Valid() && Live(m.pool.keys, parent)
    requires |width| <= |alignment| && |width| <= |height|
    modifies m.pool, m`alerts
    ensures m.Valid() && m.pool.keys == old(m.pool.keys) && m.pool.totalAllocationCount == old(m.pool.totalAllocationCount)
    ensures var o := AlignFrom(old(m.pool.keys), old(Scene(m.pool.data, m.alerts)), parent.index,
                               old(m.pool.data)[parent.index].parts, alignment, width, height, 0);
      Scene(m.pool.data, m.alerts) == o.scene && (r.Failure? <==> o.failed)
  {
    ghost var keys := m.pool.keys;
    ghost var goal := AlignFrom(keys, Scene(m.pool.data, m.alerts), parent.index, m.pool.data[parent.index].parts, alignment, width, height, 0);
    var parts := m.pool.data[parent.index].parts;
    var i := 0;
    while i < |parts| && i < |width|
      invariant m.Valid() && m.pool.keys == keys && m.pool.totalAllocationCount == old(m.pool.totalAllocationCount)
      invariant AlignFrom(keys, Scene(m.pool.data, m.alerts), parent.index, parts, alignment, width, height, i) == goal
      decreases |parts| - i
    {
      r := AlignPart(m, parent, parts, alignment, width, height, i);
      if r.Failure? {
        return;
      }
      i := i + 1;
    }
    r := Success(());
  }

  /** _PartsDivideBySize::update on the element behind parent: the loop over min(parts, sizes) steps on the pool. */
  method RunPartsDivideBySize(m: LayoutElementManager, parent: Ptr, width: seq<int>, height: seq<int>, vertical: bool, reversed: bool)
    returns (r: Result<()>)
    requires m.Valid() && Live(m.pool.keys, parent)
    requires |width| <= |height|
    modifies m.pool, m`alerts
    ensures m.Valid() && m.pool.keys == old(m.pool.keys) && m.pool.totalAllocationCount == old(m.pool.totalAllocationCount)
    ensures var e := old(m.pool.data)[parent.index];
      var o := DivideFrom(old(m.pool.keys), old(Scene(m.pool.data, m.alerts)), parent.index, e.parts, width, height,
                          vertical, reversed, Min(|e.parts|, |width|), 0, e.position);
      Scene(m.pool.data, m.alerts) == o.scene && (r.Failure? <==> o.failed)
  {
    ghost var keys := m.pool.keys;
    var parts := m.pool.data[parent.index].parts;
    var running := m.pool.data[parent.index].position;
    var n := Min(|parts|, |width|);
    ghost var goal := DivideFrom(keys, Scene(m.pool.data, m.alerts), parent.index, parts, width, height, vertical, reversed, n, 0, running);
    var i2 := 0;
    while i2 < n
      invariant m.Valid() && m.pool.keys == keys && m.pool.totalAllocationCount == old(m.pool.totalAllocationCount)
      invariant DivideFrom(keys, Scene(m.pool.data, m.alerts), parent.index, parts, width, height, vertical, reversed, n, i2, running) == goal
      decreases n - i2
    {
      var i := if reversed then n - i2 - 1 else i2;
      var placed := DividedRect(running, m.pool.data[parent.index].position, width[i], height[i], vertical, reversed);
      if !Live(m.pool.keys, parts[i]) {
        return Failure("a part to place has expired");
      }
      m.MoveElement(parts[i], placed);
      running := NextRunning(placed, width[i], height[i], vertical, reversed);
      i2 := i2 + 1;
    }
    r := Success(());
  }
}
