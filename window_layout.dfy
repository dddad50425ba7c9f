/**
 * The window layout of namespace __layout__ (L9_user_interface.h): a map
 * from element index to _WindowLayoutElement, a counter issuing indices,
 * and the recursive _update that splits each element's rectangle among its
 * children. A WindowLayoutElement handle is the element index; the layout
 * it refers to is the one object the methods run on.
 */
module WindowLayoutMap {
  import opened BasicMath
  import opened Shapes
  import opened Vectors
  import opened LayoutSizes

  /**
   * _WindowLayoutElement. The weight is left out: nothing assigns it after
   * construction, so every child weighs 1.
   */
  datatype Element = Element(
    pos: Rect,
    minWidth: int, maxWidth: int, minHeight: int, maxHeight: int,
    priority: int,
    splitHorizontal: bool,
    children: seq<int>,
    parent: int)

  /** A default-constructed element: 100x100 at the origin, no minimum, no maximum (-1). */
  const DefaultElement := Element(Rect(0, 0, 100, 100), 0, -1, 0, -1, 0, true, [], -1)

  const ZeroRect := Rect(0, 0, 0, 0)

  /** `_layout_elements[k]` read on a key that may be missing (operator[] default-constructs). */
  function Get(m: map<int, Element>, k: int): Element
  {
    if k in m then m[k] else DefaultElement
  }

  /** `_layout_elements[k]` touched through operator[]: a missing key gets a default element. */
  function Touch(m: map<int, Element>, k: int): (r: map<int, Element>)
    ensures k in r && r[k] == Get(m, k)
    ensures forall j :: j in m ==> j in r && r[j] == m[j]
  {
    if k in m then m else m[k := DefaultElement]
  }

  /** No index listed twice. */
  predicate Distinct(s: seq<int>)
  {
    |s| == 0 || (s[0] !in s[1..] && Distinct(s[1..]))
  }

  /** No children list repeats an index. */
  ghost predicate AllDistinct(m: map<int, Element>)
  {
    forall k :: k in m ==> Distinct(m[k].children)
  }

  lemma {:induction false} DistinctAt(s: seq<int>, i: int, j: int)
    requires Distinct(s) && 0 <= i < |s| && 0 <= j < |s| && i != j
    ensures s[i] != s[j]
  {
    if i > 0 && j > 0 {
      DistinctAt(s[1..], i - 1, j - 1);
    } else if i == 0 {
      assert s[j] == s[1..][j - 1];
    } else {
      assert s[i] == s[1..][i - 1];
    }
  }

  /**
   * A well-formed layout: indices run from -1 (a handle's default, which
   * operator[] can insert) up to the counter; an element's parent comes
   * before it, or is -1; a child is present, numbered above its parent and
   * records that parent.
   */
  ghost predicate Wf(m: map<int, Element>, counter: int)
  {
    (forall k :: k in m ==> -1 <= k < counter && -1 <= m[k].parent && (m[k].parent < k || m[k].parent == -1)) &&
    (forall k, i :: k in m && 0 <= i < |m[k].children| ==>
      var c := m[k].children[i]; c in m && k < c && m[c].parent == k)
  }

  /** Equal but for the position. */
  predicate SameButPos(a: Element, b: Element)
  {
    a.minWidth == b.minWidth && a.maxWidth == b.maxWidth &&
    a.minHeight == b.minHeight && a.maxHeight == b.maxHeight &&
    a.priority == b.priority && a.splitHorizontal == b.splitHorizontal &&
    a.children == b.children && a.parent == b.parent
  }

  /** Same elements, each equal but for its position. */
  ghost predicate SameShape(m: map<int, Element>, r: map<int, Element>)
  {
    (forall j :: j in m <==> j in r) && forall j :: j in m ==> SameButPos(m[j], r[j])
  }

  lemma WfSameShape(m: map<int, Element>, r: map<int, Element>, counter: int)
    requires Wf(m, counter) && SameShape(m, r)
    ensures Wf(r, counter)
  {
    forall k | k in r
      ensures -1 <= k < counter && -1 <= r[k].parent && (r[k].parent < k || r[k].parent == -1)
    {
      assert k in m;
    }
    forall k, i | k in r && 0 <= i < |r[k].children|
      ensures var c := r[k].children[i]; c in r && k < c && r[c].parent == k
    {
      assert k in m && r[k].children == m[k].children;
    }
  }

  /**
   * Element k and every element reachable from it through children lists,
   * following a child only when it is numbered above its parent and below
   * `bound` (as a well-formed layout has).
   */
  ghost function Subtree(m: map<int, Element>, k: int, bound: int): set<int>
    decreases bound - k, 1
  {
    if k !in m then {} else {k} + ChildrenSubtrees(m, k, m[k].children, bound)
  }

  ghost function ChildrenSubtrees(m: map<int, Element>, k: int, cs: seq<int>, bound: int): set<int>
    decreases bound - k, 0, |cs|
  {
    if |cs| == 0 then {}
    else
      var c := cs[|cs| - 1];
      ChildrenSubtrees(m, k, cs[..|cs| - 1], bound) + (if k < c < bound then Subtree(m, c, bound) else {})
  }

  // ---- _update ----

  /** The extent an element splits among its children: its width or its height. */
  function Extent(e: Element): int
  {
    if e.splitHorizontal then e.pos.w else e.pos.h
  }

  /** Where the first child starts: the element's x or y. */
  function Start(e: Element): int
  {
    if e.splitHorizontal then e.pos.x else e.pos.y
  }

  /** get_min_size_of_all_children. */
  function ChildMins(m: map<int, Element>, e: Element): (r: seq<int>)
    ensures |r| == |e.children|
  {
    seq(|e.children|, i requires 0 <= i < |e.children| =>
      var c := Get(m, e.children[i]);
      if e.splitHorizontal then c.minWidth else c.minHeight)
  }

  /** get_max_size_of_all_children: a negative maximum stands for the parent's own extent. */
  function ChildMaxs(m: map<int, Element>, e: Element): (r: seq<int>)
    ensures |r| == |e.children|
  {
    seq(|e.children|, i requires 0 <= i < |e.children| =>
      var c := Get(m, e.children[i]);
      if e.splitHorizontal then (if c.maxWidth < 0 then e.pos.w else c.maxWidth)
      else (if c.maxHeight < 0 then e.pos.h else c.maxHeight))
  }

  function ChildPriorities(m: map<int, Element>, e: Element): (r: seq<int>)
    ensures |r| == |e.children|
  {
    seq(|e.children|, i requires 0 <= i < |e.children| => Get(m, e.children[i]).priority)
  }

  function Ones(n: nat): (r: seq<real>)
    ensures |r| == n && forall i :: 0 <= i < n ==> r[i] == 1.0
  {
    seq(n, _ => 1.0)
  }

  /** The sizes _update hands its children: hide what does not fit, then share the extent. */
  function ChildSizes(m: map<int, Element>, e: Element): (r: seq<int>)
    requires Extent(e) >= 0
    ensures |r| == |e.children|
  {
    var mins := ChildMins(m, e);
    var maxs := ChildMaxs(m, e);
    var h := HideOn(mins, maxs, ChildPriorities(m, e), Extent(e));
    HideKeptOrZeroed(mins, maxs, ChildPriorities(m, e), Extent(e));
    ElementSizesOf(h.mins, h.maxs, Ones(|e.children|), Extent(e))
  }

  /**
   * A rule sharing an element's extent among its children, one size per
   * child. The properties of _update below hold for any such rule;
   * LayoutSizing is the one _update uses.
   */
  type Sizing = f: (map<int, Element>, Element) -> seq<int> | forall m, e :: |f(m, e)| == |e.children|
    witness (m: map<int, Element>, e: Element) => seq(|e.children|, _ => 0)

  /** ChildSizes, for an element whose extent is not negative (the only ones _update splits). */
  function SplitSizes(m: map<int, Element>, e: Element): (r: seq<int>)
    ensures |r| == |e.children|
  {
    if Extent(e) < 0 then seq(|e.children|, _ => 0) else ChildSizes(m, e)
  }

  const LayoutSizing: Sizing := (m: map<int, Element>, e: Element) => SplitSizes(m, e)

  /**
   * _set_child_position: a child of size 0 collapses to (0, 0, 0, 0);
   * otherwise it takes the slot along the split axis and the parent's other
   * extent, cut to the child's maximum there when it has one.
   */
  function ChildPosition(e: Element, child: Element, pos: int, size: int): Rect
  {
    if size == 0 then ZeroRect
    else if e.splitHorizontal then
      Rect(pos, e.pos.y, size, if child.maxHeight >= 0 then Min(e.pos.h, child.maxHeight) else e.pos.h)
    else
      Rect(e.pos.x, pos, if child.maxWidth >= 0 then Min(e.pos.w, child.maxWidth) else e.pos.w, size)
  }

  /** One child placed: its position written through operator[]. */
  function Placed(m: map<int, Element>, e: Element, c: int, pos: int, size: int): map<int, Element>
  {
    m[c := Get(m, c).(pos := ChildPosition(e, Get(m, c), pos, size))]
  }

  /**
   * _update(k): the element's children laid out one after another from its
   * start, each one updated in turn. `bound` is the counter: the recursion
   * follows a child only when it is numbered between its parent and the
   * counter, which a well-formed layout always has. A negative extent fails
   * the source's assertion (UpdateOk reports it); the model then leaves that
   * element's children as they are.
   */
  function UpdateOn(sz: Sizing, m: map<int, Element>, k: int, bound: int): map<int, Element>
    decreases bound - k, 1
  {
    if k !in m then m
    else
      var e := m[k];
      if Extent(e) < 0 then m
      else PlaceChildren(sz, m, k, e, sz(m, e), 0, Start(e), bound)
  }

  /** The for-loop of _update, from child i on, with `pos` where child i starts. */
  function PlaceChildren(sz: Sizing, m: map<int, Element>, k: int, e: Element, sizes: seq<int>, i: nat, pos: int, bound: int): map<int, Element>
    requires |sizes| == |e.children| && i <= |sizes|
    decreases bound - k, 1, |sizes| - i
  {
    if i == |sizes| then m
    else PlaceChildren(sz, PlaceOne(sz, m, k, e, e.children[i], pos, sizes[i], bound), k, e, sizes, i + 1, pos + sizes[i], bound)
  }

  /** One turn of that loop (_set_child_position): child c placed at `pos`, then updated itself. */
  function PlaceOne(sz: Sizing, m: map<int, Element>, k: int, e: Element, c: int, pos: int, size: int, bound: int): map<int, Element>
    decreases bound - k, 0
  {
    var m1 := Placed(m, e, c, pos, size);
    if k < c < bound then UpdateOn(sz, m1, c, bound) else m1
  }

  /**
   * No element _update(k) reaches, k included, has a negative extent along
   * its split axis: the source's Assert(total_size >= 0) holds throughout.
   */
  function UpdateOk(sz: Sizing, m: map<int, Element>, k: int, bound: int): bool
    decreases bound - k, 1
  {
    if k !in m then true
    else
      var e := m[k];
      if Extent(e) < 0 then false
      else ChildrenOk(sz, m, k, e, sz(m, e), 0, Start(e), bound)
  }

  /** UpdateOk for the for-loop of _update, from child i on. */
  function ChildrenOk(sz: Sizing, m: map<int, Element>, k: int, e: Element, sizes: seq<int>, i: nat, pos: int, bound: int): bool
    requires |sizes| == |e.children| && i <= |sizes|
    decreases bound - k, 1, |sizes| - i
  {
    if i == |sizes| then true
    else
      OneOk(sz, m, k, e, e.children[i], pos, sizes[i], bound)
      && ChildrenOk(sz, PlaceOne(sz, m, k, e, e.children[i], pos, sizes[i], bound), k, e, sizes, i + 1, pos + sizes[i], bound)
  }

  /** UpdateOk for one turn of that loop: the update of child c once it is placed. */
  function OneOk(sz: Sizing, m: map<int, Element>, k: int, e: Element, c: int, pos: int, size: int, bound: int): bool
    decreases bound - k, 0
  {
    var m1 := Placed(m, e, c, pos, size);
    if k < c < bound then UpdateOk(sz, m1, c, bound) else true
  }

  /** The layout after element k's parent, then k itself, have been updated (update()). */
  function UpdateWithParent(m: map<int, Element>, k: int, bound: int): map<int, Element>
  {
    var m1 := Touch(m, k);
    var m2 := if m1[k].parent >= 0 then UpdateOn(LayoutSizing, m1, m1[k].parent, bound) else m1;
    UpdateOn(LayoutSizing, m2, k, bound)
  }

  /** UpdateOk for both updates of update(). */
  function UpdateWithParentOk(m: map<int, Element>, k: int, bound: int): bool
  {
    var m1 := Touch(m, k);
    var m2 := if m1[k].parent >= 0 then UpdateOn(LayoutSizing, m1, m1[k].parent, bound) else m1;
    (m1[k].parent >= 0 ==> UpdateOk(LayoutSizing, m1, m1[k].parent, bound)) && UpdateOk(LayoutSizing, m2, k, bound)
  }

  class WindowLayout {
    /** _WindowLayout::_layout_elements. */
    var elements: map<int, Element>
    /** _WindowLayout::_elements_counter: the next index to issue. */
    var counter: int

    /** The layout is well-formed, no children list repeats an index, and the entire-window index 0 has been issued. */
    ghost predicate Valid()
      reads this
    {
      Wf(elements, counter) && AllDistinct(elements) && counter >= 1
    }

    /** WindowLayout(): the entire-window element gets index 0. */
    constructor ()
      ensures elements == map[0 := DefaultElement] && counter == 1
      ensures Valid()
    {
      elements := map[0 := DefaultElement];
      counter := 1;
    }

    /**
     * _update: lay out the children of element k, then update each of them;
     * ok is false when the source's assertion on the extent fails somewhere.
     */
    method UpdateAt(k: int) returns (ok: bool)
      modifies this
      ensures elements == UpdateOn(LayoutSizing, old(elements), k, counter) && counter == old(counter)
      ensures ok == UpdateOk(LayoutSizing, old(elements), k, counter)
      decreases counter - k, 3
    {
      ok := true;
      if k !in elements {
        return;
      }
      var e := elements[k];
      var total := if e.splitHorizontal then e.pos.w else e.pos.h;
      if total < 0 {
        return false;
      }
      var sizes := ChildSizesOf(k);
      var pos := if e.splitHorizontal then e.pos.x else e.pos.y;
      ok := PlaceChildrenFrom(k, e, sizes, pos);
    }

    /** The for-loop of _update: child after child, placed from `pos` on and updated. */
    method PlaceChildrenFrom(k: int, e: Element, sizes: seq<int>, pos: int) returns (ok: bool)
      requires |sizes| == |e.children|
      modifies this
      ensures elements == PlaceChildren(LayoutSizing, old(elements), k, e, sizes, 0, pos, counter) && counter == old(counter)
      ensures ok == ChildrenOk(LayoutSizing, old(elements), k, e, sizes, 0, pos, counter)
      decreases counter - k, 2
    {
      ok := true;
      ghost var m0, bound := elements, counter;
      var i, at := 0, pos;
      while i < |e.children|
        invariant 0 <= i <= |sizes|
        invariant counter == bound
        invariant PlaceChildren(LayoutSizing, elements, k, e, sizes, i, at, bound) == PlaceChildren(LayoutSizing, m0, k, e, sizes, 0, pos, bound)
        invariant (ok && ChildrenOk(LayoutSizing, elements, k, e, sizes, i, at, bound)) == ChildrenOk(LayoutSizing, m0, k, e, sizes, 0, pos, bound)
      {
        ghost var before := elements;
        PlaceUnfold(LayoutSizing, before, k, e, sizes, i, at, bound);
        var childOk := SetChildPosition(k, e, at, sizes[i], e.children[i]);
        ok := ok && childOk;
        assert elements == PlaceOne(LayoutSizing, before, k, e, e.children[i], at, sizes[i], bound);
        at := at + sizes[i];
        i := i + 1;
      }
    }

    /** _set_child_position: place child c of k, then update it. */
    method SetChildPosition(k: int, e: Element, pos: int, size: int, c: int) returns (ok: bool)
      modifies this
      ensures elements == PlaceOne(LayoutSizing, old(elements), k, e, c, pos, size, counter) && counter == old(counter)
      ensures ok == OneOk(LayoutSizing, old(elements), k, e, c, pos, size, counter)
      decreases counter - k, 1
    {
      var child := if c in elements then elements[c] else DefaultElement;
      var newPosition := ChildPosition(e, child, pos, size);
      elements := elements[c := child.(pos := newPosition)];
      ok := true;
      if k < c < counter {
        ok := UpdateAt(c);
      }
    }

    /** The part of _update that computes the children's sizes. */
    method ChildSizesOf(k: int) returns (sizes: seq<int>)
      requires k in elements && Extent(elements[k]) >= 0
      ensures sizes == ChildSizes(elements, elements[k])
    {
      var e := elements[k];
      var total := Extent(e);
      var mins := GetMinSizeOfAllChildren(k);
      var maxs := GetMaxSizeOfAllChildren(k);
      var priorities: seq<int> := [];
      var weights: seq<real> := [];
      for i := 0 to |e.children|
        invariant |priorities| == |weights| == i
        invariant forall j :: 0 <= j < i ==> priorities[j] == Get(elements, e.children[j]).priority && weights[j] == 1.0
      {
        var child := if e.children[i] in elements then elements[e.children[i]] else DefaultElement;
        priorities := priorities + [child.priority];
        weights := weights + [1.0];
      }
      assert priorities == ChildPriorities(elements, e);
      assert weights == Ones(|e.children|);
      var newMin, newMax := HideElementsIfAllDoesntFit(mins, maxs, priorities, total);
      HideFacts(mins, maxs, priorities, total);
      HideKeptOrZeroed(mins, maxs, priorities, total);
      sizes := GetElementSizes(newMin, newMax, weights, total);
    }

    /** get_min_size_of_all_children: each child's minimum along the split axis. */
    method GetMinSizeOfAllChildren(k: int) returns (r: seq<int>)
      requires k in elements
      ensures r == ChildMins(elements, elements[k])
    {
      var e := elements[k];
      r := [];
      for i := 0 to |e.children|
        invariant |r| == i
        invariant forall j :: 0 <= j < i ==> r[j] == ChildMins(elements, e)[j]
      {
        var child := if e.children[i] in elements then elements[e.children[i]] else DefaultElement;
        r := r + [if e.splitHorizontal then child.minWidth else child.minHeight];
      }
    }

    /** get_max_size_of_all_children: a negative maximum becomes the element's own extent. */
    method GetMaxSizeOfAllChildren(k: int) returns (r: seq<int>)
      requires k in elements
      ensures r == ChildMaxs(elements, elements[k])
    {
      var e := elements[k];
      r := [];
      for i := 0 to |e.children|
        invariant |r| == i
        invariant forall j :: 0 <= j < i ==> r[j] == ChildMaxs(elements, e)[j]
      {
        var child := if e.children[i] in elements then elements[e.children[i]] else DefaultElement;
        var size := if e.splitHorizontal then child.maxWidth else child.maxHeight;
        if size < 0 {
          size := if e.splitHorizontal then e.pos.w else e.pos.h;
        }
        r := r + [size];
      }
    }

    /** set_vertical_split: k splits its extent top to bottom from now on; -1 when k is missing. */
    method SetVerticalSplit(k: int) returns (code: int)
      requires Valid()
      modifies this
      ensures Valid() && counter == old(counter)
      ensures k !in old(elements) ==> code == -1 && elements == old(elements)
      ensures k in old(elements) ==>
        code == 0 && elements == old(elements)[k := old(elements)[k].(splitHorizontal := false)]
    {
      if k !in elements {
        return -1;
      }
      elements := elements[k := elements[k].(splitHorizontal := false)];
      SettingKeepsWf(old(elements), elements, counter);
      return 0;
    }

    /** set_horizontal_split: k splits its extent left to right from now on; -1 when k is missing. */
    method SetHorizontalSplit(k: int) returns (code: int)
      requires Valid()
      modifies this
      ensures Valid() && counter == old(counter)
      ensures k !in old(elements) ==> code == -1 && elements == old(elements)
      ensures k in old(elements) ==>
        code == 0 && elements == old(elements)[k := old(elements)[k].(splitHorizontal := true)]
    {
      if k !in elements {
        return -1;
      }
      elements := elements[k := elements[k].(splitHorizontal := true)];
      SettingKeepsWf(old(elements), elements, counter);
      return 0;
    }

    /** set_size(min_width, max_width, min_height, max_height): k's size limits; -1 when k is missing. */
    method SetSizeLimits(k: int, minWidth: int, maxWidth: int, minHeight: int, maxHeight: int) returns (code: int)
      requires Valid()
      modifies this
      ensures Valid() && counter == old(counter)
      ensures k !in old(elements) ==> code == -1 && elements == old(elements)
      ensures k in old(elements) ==>
        code == 0 && elements == old(elements)[k := old(elements)[k].(minWidth := minWidth, maxWidth := maxWidth,
                                                                      minHeight := minHeight, maxHeight := maxHeight)]
    {
      if k !in elements {
        return -1;
      }
      elements := elements[k := elements[k].(minWidth := minWidth, maxWidth := maxWidth, minHeight := minHeight, maxHeight := maxHeight)];
      SettingKeepsWf(old(elements), elements, counter);
      return 0;
    }

    /** set_size(width, height): k's size fixed, its minimum and maximum alike. */
    method SetFixedSize(k: int, width: int, height: int) returns (code: int)
      requires Valid()
      modifies this
      ensures Valid() && counter == old(counter)
      ensures k !in old(elements) ==> code == -1 && elements == old(elements)
      ensures k in old(elements) ==>
        code == 0 && elements == old(elements)[k := old(elements)[k].(minWidth := width, maxWidth := width,
                                                                      minHeight := height, maxHeight := height)]
    {
      code := SetSizeLimits(k, width, width, height, height);
    }

    /** set_width: k's width limits, its height limits kept; -1 when k is missing. */
    method SetWidth(k: int, minWidth: int, maxWidth: int) returns (code: int)
      requires Valid()
      modifies this
      ensures Valid() && counter == old(counter)
      ensures k !in old(elements) ==> code == -1 && elements == old(elements)
      ensures k in old(elements) ==>
        code == 0 && elements == old(elements)[k := old(elements)[k].(minWidth := minWidth, maxWidth := maxWidth)]
    {
      if k !in elements {
        return -1;
      }
      var e := elements[k];
      code := SetSizeLimits(k, minWidth, maxWidth, e.minHeight, e.maxHeight);
    }

    /** set_height: k's height limits, its width limits kept; -1 when k is missing. */
    method SetHeight(k: int, minHeight: int, maxHeight: int) returns (code: int)
      requires Valid()
      modifies this
      ensures Valid() && counter == old(counter)
      ensures k !in old(elements) ==> code == -1 && elements == old(elements)
      ensures k in old(elements) ==>
        code == 0 && elements == old(elements)[k := old(elements)[k].(minHeight := minHeight, maxHeight := maxHeight)]
    {
      if k !in elements {
        return -1;
      }
      var e := elements[k];
      code := SetSizeLimits(k, e.minWidth, e.maxWidth, minHeight, maxHeight);
    }

    /** set_priority_level: when not all of k's siblings fit, the lowest priority is hidden first; -1 when k is missing. */
    method SetPriorityLevel(k: int, priority: int) returns (code: int)
      requires Valid()
      modifies this
      ensures Valid() && counter == old(counter)
      ensures k !in old(elements) ==> code == -1 && elements == old(elements)
      ensures k in old(elements) ==>
        code == 0 && elements == old(elements)[k := old(elements)[k].(priority := priority)]
    {
      if k !in elements {
        return -1;
      }
      elements := elements[k := elements[k].(priority := priority)];
      SettingKeepsWf(old(elements), elements, counter);
      return 0;
    }

    /** update(): touch k through operator[], update its parent when it has one, then k itself. */
    method Update(k: int) returns (ok: bool)
      requires Valid() && -1 <= k < counter
      modifies this
      ensures elements == UpdateWithParent(old(elements), k, counter) && counter == old(counter)
      ensures ok == UpdateWithParentOk(old(elements), k, counter)
      ensures Valid()
    {
      if k !in elements {
        elements := elements[k := DefaultElement];
      }
      var p := elements[k].parent;
      UpdateKeepsValid(LayoutSizing, elements, p, counter);
      var parentOk := true;
      if p >= 0 {
        parentOk := UpdateAt(p);
      }
      UpdateKeepsValid(LayoutSizing, elements, k, counter);
      var selfOk := UpdateAt(k);
      ok := parentOk && selfOk;
    }

    /** WindowLayout::set_size: the entire-window element (index 0) gets the given size at the origin and is updated. */
    method SetSize(width: int, height: int) returns (ok: bool)
      requires Valid()
      modifies this
      ensures elements == UpdateWithParent(old(elements)[0 := Get(old(elements), 0).(pos := Rect(0, 0, width, height))], 0, counter)
      ensures ok == UpdateWithParentOk(old(elements)[0 := Get(old(elements), 0).(pos := Rect(0, 0, width, height))], 0, counter)
      ensures counter == old(counter) && Valid()
    {
      var root := Get(elements, 0);
      elements := elements[0 := root.(pos := Rect(0, 0, width, height))];
      SettingKeepsWf(old(elements)[0 := root], elements, counter);
      ok := Update(0);
    }

    /** create_child_element: a default element, numbered by the counter, appended to k's children; -1 when k is missing. */
    method CreateChildElement(k: int) returns (child: int)
      requires Valid()
      modifies this
      ensures Valid()
      ensures k !in old(elements) ==> child == -1 && elements == old(elements) && counter == old(counter)
      ensures k in old(elements) ==>
        child == old(counter) && counter == old(counter) + 1 && elements == WithChild(old(elements), k, old(counter))
    {
      if k !in elements {
        return -1;
      }
      WithChildWf(elements, k, counter);
      child := counter;
      counter := counter + 1;
      var created := DefaultElement.(parent := k);
      var parent := elements[k].(children := elements[k].children + [child]);
      elements := elements[child := created][k := parent];
    }

    /** get_children: the handles of k's children, in order; none when k is missing. */
    method GetChildren(k: int) returns (r: seq<int>)
      ensures k in elements ==> r == elements[k].children
      ensures k !in elements ==> r == []
    {
      if k !in elements {
        return [];
      }
      var cs := elements[k].children;
      r := [];
      for i := 0 to |cs|
        invariant r == cs[..i]
      {
        r := r + [cs[i]];
      }
    }

    /** get_position: where element k is on screen; (0, 0, 0, 0) when it is missing. */
    function GetPosition(k: int): Rect
      reads this
    {
      if k in elements then elements[k].pos else ZeroRect
    }

    /** erase(): _erase, then update k's former parent; -1 when k is missing. */
    method Erase(k: int) returns (code: int, ok: bool)
      requires Valid()
      modifies this
      ensures Valid() && counter == old(counter)
      ensures k !in old(elements) ==> code == -1 && ok && elements == old(elements)
      ensures k in old(elements) ==>
        code == 0 && elements == UpdateOn(LayoutSizing, Erased(old(elements), k, counter), old(elements)[k].parent, counter)
        && ok == UpdateOk(LayoutSizing, Erased(old(elements), k, counter), old(elements)[k].parent, counter)
    {
      if k !in elements {
        return -1, true;
      }
      var p := elements[k].parent;
      var _ := EraseAt(k);
      UpdateKeepsValid(LayoutSizing, elements, p, counter);
      ok := UpdateAt(p);
      return 0, ok;
    }

    /** _erase: unlink k from its parent, erase its children, then remove k; -1 when k is missing. */
    method EraseAt(k: int) returns (code: int)
      requires Valid()
      modifies this
      ensures Valid() && counter == old(counter)
      ensures k !in old(elements) ==> code == -1 && elements == old(elements)
      ensures k in old(elements) ==> code == 0 && elements == Erased(old(elements), k, counter)
      decreases counter - k, 1
    {
      if k !in elements {
        return -1;
      }
      ghost var m0 := elements;
      var p := elements[k].parent;
      if p !in elements {
        elements := elements[p := DefaultElement];
      }
      var siblings := elements[p].children;
      var i := 0;
      while i < |siblings| && siblings[i] != k
        invariant 0 <= i <= |siblings| && forall j :: 0 <= j < i ==> siblings[j] != k
      {
        i := i + 1;
      }
      if i < |siblings| {
        RemoveFirstAt(siblings, k, i);
        siblings := VecRemove(siblings, i);
      } else {
        RemoveFirstAbsent(siblings, k);
      }
      elements := elements[p := elements[p].(children := siblings)];
      assert elements == Unlinked(m0, k);
      UnlinkedWf(m0, k, counter);
      ErasedByPruning(m0, k, counter);
      ErasedWf(m0, k, counter);
      var _ := EraseChildren(k);
      elements := elements - {k};
      return 0;
    }

    /** erase_children: erase k's last child until none is left; -1 when k is missing. */
    method EraseChildren(k: int) returns (code: int)
      requires Valid()
      modifies this
      ensures Valid() && counter == old(counter)
      ensures k !in old(elements) ==> code == -1 && elements == old(elements)
      ensures k in old(elements) ==> code == 0 && elements == Pruned(old(elements), k, 0, counter)
      decreases counter - k, 0
    {
      if k !in elements {
        return -1;
      }
      ghost var m0 := elements;
      PrunedNone(m0, k, counter);
      while |elements[k].children| > 0
        invariant Valid() && counter == old(counter)
        invariant k in elements && |elements[k].children| <= |m0[k].children|
        invariant elements == Pruned(m0, k, |elements[k].children|, counter)
        decreases |elements[k].children|
      {
        var n := |elements[k].children|;
        var child := elements[k].children[n - 1];
        PrunedRoot(m0, k, n, counter);
        PrunedStep(m0, k, n, counter);
        var _ := EraseAt(child);
        PrunedRoot(m0, k, n - 1, counter);
      }
      return 0;
    }
  }

  // ---- subtrees ----

  lemma {:induction false} SubtreeAbove(m: map<int, Element>, k: int, bound: int)
    ensures forall j :: j in Subtree(m, k, bound) ==> k <= j && j in m
    decreases bound - k, 1
  {
    if k in m {
      ChildrenSubtreesAbove(m, k, m[k].children, bound);
    }
  }

  lemma {:induction false} ChildrenSubtreesAbove(m: map<int, Element>, k: int, cs: seq<int>, bound: int)
    ensures forall j :: j in ChildrenSubtrees(m, k, cs, bound) ==> k < j && j in m
    decreases bound - k, 0, |cs|
  {
    if |cs| > 0 {
      var c := cs[|cs| - 1];
      ChildrenSubtreesAbove(m, k, cs[..|cs| - 1], bound);
      if k < c < bound {
        SubtreeAbove(m, c, bound);
      }
    }
  }

  /** A child listed in cs brings its whole subtree. */
  lemma {:induction false} ChildSubtreeIn(m: map<int, Element>, k: int, cs: seq<int>, bound: int, i: int)
    requires 0 <= i < |cs| && k < cs[i] < bound
    ensures Subtree(m, cs[i], bound) <= ChildrenSubtrees(m, k, cs, bound)
    decreases |cs|
  {
    if i < |cs| - 1 {
      ChildSubtreeIn(m, k, cs[..|cs| - 1], bound, i);
    }
  }

  /** A subtree depends only on the children lists of the elements in it. */
  lemma {:induction false} SubtreeFrame(m: map<int, Element>, r: map<int, Element>, k: int, bound: int)
    requires Wf(m, bound) && k in m
    requires forall j :: j in Subtree(m, k, bound) ==> j in m && j in r && r[j].children == m[j].children
    ensures Subtree(r, k, bound) == Subtree(m, k, bound)
    decreases bound - k, 1
  {
    ChildrenSubtreesFrame(m, r, k, m[k].children, bound);
  }

  lemma {:induction false} ChildrenSubtreesFrame(m: map<int, Element>, r: map<int, Element>, k: int, cs: seq<int>, bound: int)
    requires Wf(m, bound) && k in m && forall c :: c in cs ==> c in m[k].children
    requires forall j :: j in ChildrenSubtrees(m, k, cs, bound) ==> j in m && j in r && r[j].children == m[j].children
    ensures ChildrenSubtrees(r, k, cs, bound) == ChildrenSubtrees(m, k, cs, bound)
    decreases bound - k, 0, |cs|
  {
    if |cs| > 0 {
      var c := cs[|cs| - 1];
      ChildrenSubtreesFrame(m, r, k, cs[..|cs| - 1], bound);
      if k < c < bound {
        assert c in m[k].children;
        SubtreeFrame(m, r, c, bound);
      }
    }
  }

  lemma SubtreeSameShape(m: map<int, Element>, r: map<int, Element>, k: int, bound: int)
    requires Wf(m, bound) && SameShape(m, r)
    ensures Subtree(r, k, bound) == Subtree(m, k, bound)
  {
    if k in m {
      SubtreeAbove(m, k, bound);
      SubtreeFrame(m, r, k, bound);
    }
  }

  /** Below its root, each element of a subtree has its parent, numbered lower, in the subtree too. */
  lemma {:induction false} SubtreeParent(m: map<int, Element>, k: int, bound: int)
    requires Wf(m, bound)
    ensures forall j :: j in Subtree(m, k, bound) && j != k ==>
      j in m && m[j].parent < j && m[j].parent in Subtree(m, k, bound)
    decreases bound - k, 1
  {
    if k in m {
      ChildrenSubtreesParent(m, k, m[k].children, bound);
    }
  }

  lemma {:induction false} ChildrenSubtreesParent(m: map<int, Element>, k: int, cs: seq<int>, bound: int)
    requires Wf(m, bound) && k in m && forall c :: c in cs ==> c in m[k].children
    ensures forall j :: j in ChildrenSubtrees(m, k, cs, bound) ==>
      j in m && m[j].parent < j && (m[j].parent == k || m[j].parent in ChildrenSubtrees(m, k, cs, bound))
    decreases bound - k, 0, |cs|
  {
    if |cs| > 0 {
      var c := cs[|cs| - 1];
      ChildrenSubtreesParent(m, k, cs[..|cs| - 1], bound);
      if k < c < bound {
        assert c in m[k].children;
        SubtreeParent(m, c, bound);
      }
    }
  }

  /** A child of k is outside the subtree of any other child of k. */
  lemma SiblingOutside(m: map<int, Element>, k: int, a: int, b: int, bound: int)
    requires Wf(m, bound) && k in m && 0 <= a < |m[k].children| && 0 <= b < |m[k].children|
    requires m[k].children[a] != m[k].children[b]
    ensures m[k].children[a] !in Subtree(m, m[k].children[b], bound)
  {
    var d := m[k].children[b];
    SubtreeParent(m, d, bound);
    SubtreeAbove(m, d, bound);
  }

  // ---- properties of _update ----

  lemma SameShapeTrans(a: map<int, Element>, b: map<int, Element>, c: map<int, Element>)
    requires SameShape(a, b) && SameShape(b, c)
    ensures SameShape(a, c)
  {
  }

  lemma PlaceDone(sz: Sizing, m: map<int, Element>, k: int, e: Element, sizes: seq<int>, pos: int, bound: int)
    requires |sizes| == |e.children|
    ensures PlaceChildren(sz, m, k, e, sizes, |sizes|, pos, bound) == m
  {
  }

  lemma PlaceUnfold(sz: Sizing, m: map<int, Element>, k: int, e: Element, sizes: seq<int>, i: nat, pos: int, bound: int)
    requires |sizes| == |e.children| && i < |sizes|
    ensures PlaceChildren(sz, m, k, e, sizes, i, pos, bound) ==
      PlaceChildren(sz, PlaceOne(sz, m, k, e, e.children[i], pos, sizes[i], bound), k, e, sizes, i + 1, pos + sizes[i], bound)
    ensures ChildrenOk(sz, m, k, e, sizes, i, pos, bound) ==
      (OneOk(sz, m, k, e, e.children[i], pos, sizes[i], bound)
       && ChildrenOk(sz, PlaceOne(sz, m, k, e, e.children[i], pos, sizes[i], bound), k, e, sizes, i + 1, pos + sizes[i], bound))
  {
  }

  /** Placing and updating one child keeps every element but for positions, and well-formedness. */
  lemma PlaceOneShape(sz: Sizing, m: map<int, Element>, k: int, e: Element, c: int, pos: int, size: int, bound: int)
    requires Wf(m, bound) && c in m
    ensures var r := PlaceOne(sz, m, k, e, c, pos, size, bound); SameShape(m, r) && Wf(r, bound)
    decreases bound - k, 0
  {
    var m1 := Placed(m, e, c, pos, size);
    assert SameShape(m, m1);
    WfSameShape(m, m1, bound);
    if k < c < bound {
      UpdateOnShape(sz, m1, c, bound);
      SameShapeTrans(m, m1, UpdateOn(sz, m1, c, bound));
      WfSameShape(m, UpdateOn(sz, m1, c, bound), bound);
    }
  }

  lemma UpdateOnShape(sz: Sizing, m: map<int, Element>, k: int, bound: int)
    requires Wf(m, bound)
    ensures SameShape(m, UpdateOn(sz, m, k, bound))
    decreases bound - k, 2
  {
    if k in m && Extent(m[k]) >= 0 {
      PlaceChildrenShape(sz, m, k, m[k], sz(m, m[k]), 0, Start(m[k]), bound);
    }
  }

  lemma PlaceChildrenShape(sz: Sizing, m: map<int, Element>, k: int, e: Element, sizes: seq<int>, i: nat, pos: int, bound: int)
    requires Wf(m, bound) && k in m && e.children == m[k].children && |sizes| == |e.children| && i <= |sizes|
    ensures SameShape(m, PlaceChildren(sz, m, k, e, sizes, i, pos, bound))
    decreases bound - k, 1, |sizes| - i
  {
    if i < |sizes| {
      assert e.children[i] in m;
      var m2 := PlaceOne(sz, m, k, e, e.children[i], pos, sizes[i], bound);
      PlaceUnfold(sz, m, k, e, sizes, i, pos, bound);
      PlaceOneShape(sz, m, k, e, e.children[i], pos, sizes[i], bound);
      PlaceChildrenShape(sz, m2, k, e, sizes, i + 1, pos + sizes[i], bound);
      SameShapeTrans(m, m2, PlaceChildren(sz, m2, k, e, sizes, i + 1, pos + sizes[i], bound));
    } else {
      PlaceDone(sz, m, k, e, sizes, pos, bound);
    }
  }

  /** _update(k) leaves k, and every element outside k's subtree, as it was. */
  lemma UpdateOnFrame(sz: Sizing, m: map<int, Element>, k: int, bound: int, x: int)
    requires Wf(m, bound) && x in m && (x == k || x !in Subtree(m, k, bound))
    ensures var r := UpdateOn(sz, m, k, bound); x in r && r[x] == m[x]
    decreases bound - k, 2
  {
    if k in m && Extent(m[k]) >= 0 {
      var e := m[k];
      var sizes := sz(m, e);
      forall i | 0 <= i < |sizes|
        ensures x !in Subtree(m, e.children[i], bound)
      {
        var c := e.children[i];
        assert c in m && k < c;
        SubtreeAbove(m, c, bound);
        ChildSubtreeIn(m, k, e.children, bound, i);
      }
      PlaceChildrenFrame(sz, m, k, e, sizes, 0, Start(e), bound, x);
    }
  }

  /** Placing and updating child c changes nothing outside c's subtree. */
  lemma PlaceOneFrame(sz: Sizing, m: map<int, Element>, k: int, e: Element, c: int, pos: int, size: int, bound: int, x: int)
    requires Wf(m, bound) && c in m && x in m && x !in Subtree(m, c, bound)
    ensures var r := PlaceOne(sz, m, k, e, c, pos, size, bound); x in r && r[x] == m[x]
    decreases bound - k, 0
  {
    var m1 := Placed(m, e, c, pos, size);
    assert SameShape(m, m1);
    if k < c < bound {
      SubtreeSameShape(m, m1, c, bound);
      WfSameShape(m, m1, bound);
      UpdateOnFrame(sz, m1, c, bound, x);
    }
  }

  /** The loop from child i on changes nothing outside the subtrees of children i and later. */
  lemma PlaceChildrenFrame(sz: Sizing, m: map<int, Element>, k: int, e: Element, sizes: seq<int>, i: nat, pos: int, bound: int, x: int)
    requires Wf(m, bound) && k in m && e.children == m[k].children && |sizes| == |e.children| && i <= |sizes|
    requires x in m && forall i' :: i <= i' < |sizes| ==> x !in Subtree(m, e.children[i'], bound)
    ensures var r := PlaceChildren(sz, m, k, e, sizes, i, pos, bound); x in r && r[x] == m[x]
    decreases bound - k, 1, |sizes| - i
  {
    if i < |sizes| {
      var c := e.children[i];
      assert c in m;
      var m2 := PlaceOne(sz, m, k, e, c, pos, sizes[i], bound);
      PlaceUnfold(sz, m, k, e, sizes, i, pos, bound);
      PlaceOneShape(sz, m, k, e, c, pos, sizes[i], bound);
      PlaceOneFrame(sz, m, k, e, c, pos, sizes[i], bound, x);
      forall i' | i < i' < |sizes|
        ensures x !in Subtree(m2, e.children[i'], bound)
      {
        SubtreeSameShape(m, m2, e.children[i'], bound);
      }
      PlaceChildrenFrame(sz, m2, k, e, sizes, i + 1, pos + sizes[i], bound, x);
    } else {
      PlaceDone(sz, m, k, e, sizes, pos, bound);
    }
  }

  /** Placing and updating child c leaves c where it was placed. */
  lemma PlaceOnePos(sz: Sizing, m: map<int, Element>, k: int, e: Element, c: int, pos: int, size: int, bound: int)
    requires Wf(m, bound) && c in m
    ensures var r := PlaceOne(sz, m, k, e, c, pos, size, bound); c in r && r[c].pos == ChildPosition(e, m[c], pos, size)
  {
    var m1 := Placed(m, e, c, pos, size);
    assert SameShape(m, m1);
    if k < c < bound {
      WfSameShape(m, m1, bound);
      UpdateOnFrame(sz, m1, c, bound, c);
    }
  }

  /** The loop from child i on puts child j at pos plus the sizes of children i to j - 1. */
  lemma {:induction false} PlaceChildrenLayout(sz: Sizing, m: map<int, Element>, k: int, e: Element, sizes: seq<int>, i: nat, pos: int, bound: int, j: nat)
    requires Distinct(e.children)
    requires Wf(m, bound) && k in m && e.children == m[k].children && |sizes| == |e.children| && i <= j < |sizes|
    ensures var c := e.children[j]; var r := PlaceChildren(sz, m, k, e, sizes, i, pos, bound);
      c in r && r[c].pos == ChildPosition(e, m[c], pos + Sum(sizes[i..j]), sizes[j])
    decreases j - i, 1
  {
    if i == j {
      PlaceChildPlaced(sz, m, k, e, sizes, i, pos, bound);
      assert sizes[i..j] == [];
    } else {
      PlaceLaterChild(sz, m, k, e, sizes, i, pos, bound, j);
    }
  }

  /** Child i stays where its own turn of the loop put it. */
  lemma PlaceChildPlaced(sz: Sizing, m: map<int, Element>, k: int, e: Element, sizes: seq<int>, i: nat, pos: int, bound: int)
    requires Distinct(e.children)
    requires Wf(m, bound) && k in m && e.children == m[k].children && |sizes| == |e.children| && i < |sizes|
    ensures var c := e.children[i]; var r := PlaceChildren(sz, m, k, e, sizes, i, pos, bound);
      c in r && r[c].pos == ChildPosition(e, m[c], pos, sizes[i])
  {
    var c := e.children[i];
    assert c in m;
    var m2 := PlaceOne(sz, m, k, e, c, pos, sizes[i], bound);
    PlaceUnfold(sz, m, k, e, sizes, i, pos, bound);
    PlaceOneShape(sz, m, k, e, c, pos, sizes[i], bound);
    PlaceOnePos(sz, m, k, e, c, pos, sizes[i], bound);
    forall i' | i < i' < |sizes|
      ensures c !in Subtree(m2, e.children[i'], bound)
    {
      DistinctAt(e.children, i, i');
      SiblingOutside(m2, k, i, i', bound);
    }
    PlaceChildrenFrame(sz, m2, k, e, sizes, i + 1, pos + sizes[i], bound, c);
    var r := PlaceChildren(sz, m2, k, e, sizes, i + 1, pos + sizes[i], bound);
    assert c in r && r[c].pos == ChildPosition(e, m[c], pos, sizes[i]);
  }

  /** A later child j is placed by the loop from child i + 1 on, shifted by child i's size. */
  lemma PlaceLaterChild(sz: Sizing, m: map<int, Element>, k: int, e: Element, sizes: seq<int>, i: nat, pos: int, bound: int, j: nat)
    requires Distinct(e.children)
    requires Wf(m, bound) && k in m && e.children == m[k].children && |sizes| == |e.children| && i < j < |sizes|
    ensures var c := e.children[j]; var r := PlaceChildren(sz, m, k, e, sizes, i, pos, bound);
      c in r && r[c].pos == ChildPosition(e, m[c], pos + Sum(sizes[i..j]), sizes[j])
    decreases j - i, 0
  {
    assert e.children[i] in m;
    var m2 := PlaceOne(sz, m, k, e, e.children[i], pos, sizes[i], bound);
    PlaceUnfold(sz, m, k, e, sizes, i, pos, bound);
    PlaceOneShape(sz, m, k, e, e.children[i], pos, sizes[i], bound);
    PlaceChildrenLayout(sz, m2, k, e, sizes, i + 1, pos + sizes[i], bound, j);
    var c := e.children[j];
    ShiftedPosition(e, m2[c], m[c], PlaceChildren(sz, m2, k, e, sizes, i + 1, pos + sizes[i], bound), c, pos, sizes, i, j);
  }

  /** Child j placed from child i + 1 on, at pos + sizes[i], is placed from child i on at pos. */
  lemma ShiftedPosition(e: Element, a: Element, b: Element, r: map<int, Element>, c: int, pos: int, sizes: seq<int>, i: nat, j: nat)
    requires i < j < |sizes| && SameButPos(b, a)
    requires c in r && r[c].pos == ChildPosition(e, a, pos + sizes[i] + Sum(sizes[i + 1..j]), sizes[j])
    ensures r[c].pos == ChildPosition(e, b, pos + Sum(sizes[i..j]), sizes[j])
  {
    assert sizes[i..j][1..] == sizes[i + 1..j];
  }

  /**
   * _update(k) lays k's children out one after another along the split
   * axis: child i starts where the sizes of the children before it end,
   * counting from k's x (or y).
   */
  lemma UpdateLaysOutChildren(m: map<int, Element>, k: int, bound: int)
    requires Wf(m, bound) && k in m && Extent(m[k]) >= 0 && Distinct(m[k].children)
    ensures var e := m[k]; var sizes := ChildSizes(m, e); var r := UpdateOn(LayoutSizing, m, k, bound);
      forall i :: 0 <= i < |e.children| ==>
        (e.children[i] in r &&
         r[e.children[i]].pos == ChildPosition(e, m[e.children[i]], Start(e) + Sum(sizes[..i]), sizes[i]))
  {
    var e := m[k];
    var sizes := ChildSizes(m, e);
    assert LayoutSizing(m, e) == sizes;
    forall i | 0 <= i < |e.children|
      ensures var r := UpdateOn(LayoutSizing, m, k, bound);
        e.children[i] in r &&
        r[e.children[i]].pos == ChildPosition(e, m[e.children[i]], Start(e) + Sum(sizes[..i]), sizes[i])
    {
      PlaceChildrenLayout(LayoutSizing, m, k, e, sizes, 0, Start(e), bound, i);
      assert sizes[0..i] == sizes[..i];
    }
  }

  // ---- _erase and create_child_element ----

  /**
   * The loop in _erase that unlinks an element from its parent's list: the
   * first occurrence of x removed (vec_remove), the list unchanged without one.
   */
  function RemoveFirst(s: seq<int>, x: int): (r: seq<int>)
    ensures |r| == if x in s then |s| - 1 else |s|
  {
    if |s| == 0 then []
    else if s[0] == x then s[1..]
    else [s[0]] + RemoveFirst(s[1..], x)
  }

  /** Exactly one occurrence of x leaves the list, when there is one. */
  lemma {:induction false} RemoveFirstMultiset(s: seq<int>, x: int)
    ensures multiset(RemoveFirst(s, x)) == if x in s then multiset(s) - multiset{x} else multiset(s)
  {
    if |s| > 0 {
      assert s == [s[0]] + s[1..];
      if s[0] != x {
        RemoveFirstMultiset(s[1..], x);
      }
    }
  }

  /** Stopping at the first occurrence, at i, and removing it there is RemoveFirst. */
  lemma {:induction false} RemoveFirstAt(s: seq<int>, x: int, i: nat)
    requires i < |s| && s[i] == x && forall j :: 0 <= j < i ==> s[j] != x
    ensures RemoveFirst(s, x) == VecRemove(s, i)
  {
    if i > 0 {
      var t := s[1..];
      assert s[0] != x;
      assert RemoveFirst(s, x) == [s[0]] + RemoveFirst(t, x);
      RemoveFirstAt(t, x, i - 1);
      assert RemoveFirst(t, x) == t[..i - 1] + t[i..];
      assert t[..i - 1] == s[1..i] && t[i..] == s[i + 1..];
      assert [s[0]] + (s[1..i] + s[i + 1..]) == ([s[0]] + s[1..i]) + s[i + 1..];
      assert [s[0]] + s[1..i] == s[..i];
    } else {
      assert RemoveFirst(s, x) == s[1..];
    }
  }

  lemma {:induction false} RemoveFirstAbsent(s: seq<int>, x: int)
    requires x !in s
    ensures RemoveFirst(s, x) == s
  {
    if |s| > 0 {
      RemoveFirstAbsent(s[1..], x);
    }
  }

  /** From a list without repeats, x disappears entirely, everything else stays, and no repeat appears. */
  lemma {:induction false} RemoveFirstDistinct(s: seq<int>, x: int)
    requires Distinct(s)
    ensures var r := RemoveFirst(s, x); Distinct(r) && forall y :: y in r <==> y in s && y != x
  {
    if |s| > 0 && s[0] != x {
      RemoveFirstDistinct(s[1..], x);
      var t := RemoveFirst(s[1..], x);
      assert ([s[0]] + t)[1..] == t;
    }
  }

  lemma {:induction false} DistinctAppend(s: seq<int>, x: int)
    requires Distinct(s) && x !in s
    ensures Distinct(s + [x])
  {
    if |s| > 0 {
      assert (s + [x])[1..] == s[1..] + [x];
      DistinctAppend(s[1..], x);
    }
  }

  /** _erase's first step: k taken out of its parent's list, the parent touched through operator[]. */
  function Unlinked(m: map<int, Element>, k: int): map<int, Element>
    requires k in m
  {
    var p := m[k].parent;
    var m1 := Touch(m, p);
    m1[p := m1[p].(children := RemoveFirst(m1[p].children, k))]
  }

  /** The layout after _erase(k): k unlinked from its parent, then k and everything below it removed. */
  ghost function Erased(m: map<int, Element>, k: int, bound: int): map<int, Element>
    requires k in m
  {
    var m1 := Unlinked(m, k);
    map j | j in m1 && j !in Subtree(m, k, bound) :: m1[j]
  }

  /**
   * Where erase_children(k) stands with n children left: the subtrees of
   * k's later children removed, and k listing its first n children.
   */
  ghost function Pruned(m: map<int, Element>, k: int, n: nat, bound: int): map<int, Element>
    requires k in m && n <= |m[k].children|
  {
    var cs := m[k].children;
    map j | j in m && (j !in ChildrenSubtrees(m, k, cs, bound) || j in ChildrenSubtrees(m, k, cs[..n], bound)) ::
      if j == k then m[k].(children := cs[..n]) else m[j]
  }

  /** create_child_element(k): a default element numbered c with parent k, appended to k's children. */
  function WithChild(m: map<int, Element>, k: int, c: int): map<int, Element>
    requires k in m
  {
    var m1 := m[c := DefaultElement.(parent := k)];
    m1[k := m1[k].(children := m1[k].children + [c])]
  }

  /** A member of the subtrees below k lies in the subtree of one of the listed children. */
  lemma {:induction false} ChildOf(m: map<int, Element>, k: int, cs: seq<int>, bound: int, j: int) returns (i: nat)
    requires j in ChildrenSubtrees(m, k, cs, bound)
    ensures i < |cs| && k < cs[i] < bound && j in Subtree(m, cs[i], bound)
    decreases |cs|
  {
    var c := cs[|cs| - 1];
    if k < c < bound && j in Subtree(m, c, bound) {
      i := |cs| - 1;
    } else {
      i := ChildOf(m, k, cs[..|cs| - 1], bound, j);
    }
  }

  /** The subtrees of two different children of k have nothing in common. */
  lemma SubtreesDisjoint(m: map<int, Element>, k: int, a: int, b: int, bound: int, j: int)
    requires Wf(m, bound) && k in m && 0 <= a < |m[k].children| && 0 <= b < |m[k].children|
    requires m[k].children[a] != m[k].children[b]
    ensures j !in Subtree(m, m[k].children[a], bound) || j !in Subtree(m, m[k].children[b], bound)
    decreases j - m[k].children[a]
  {
    var ca, cb := m[k].children[a], m[k].children[b];
    if j in Subtree(m, ca, bound) && j in Subtree(m, cb, bound) {
      SubtreeAbove(m, ca, bound);
      if j == ca {
        SiblingOutside(m, k, a, b, bound);
      } else if j == cb {
        SiblingOutside(m, k, b, a, bound);
      } else {
        SubtreeParent(m, ca, bound);
        SubtreeParent(m, cb, bound);
        SubtreesDisjoint(m, k, a, b, bound, m[j].parent);
      }
    }
  }

  /** Unlinking keeps the layout well-formed and free of repeats. */
  lemma UnlinkedWf(m: map<int, Element>, k: int, bound: int)
    requires Wf(m, bound) && AllDistinct(m) && k in m
    ensures Wf(Unlinked(m, k), bound) && AllDistinct(Unlinked(m, k))
  {
    var p := m[k].parent;
    var r := Unlinked(m, k);
    RemoveFirstDistinct(Get(m, p).children, k);
    forall j, i | j in r && 0 <= i < |r[j].children|
      ensures var c := r[j].children[i]; c in r && j < c && r[c].parent == j
    {
      if j == p {
        assert r[j].children[i] in r[j].children;
        var q :| 0 <= q < |Get(m, p).children| && Get(m, p).children[q] == r[j].children[i];
      }
    }
  }

  /** Erasing keeps the layout well-formed: nothing left lists an erased element. */
  lemma ErasedWf(m: map<int, Element>, k: int, bound: int)
    requires Wf(m, bound) && AllDistinct(m) && k in m
    ensures Wf(Erased(m, k, bound), bound) && AllDistinct(Erased(m, k, bound))
  {
    var p := m[k].parent;
    var m1 := Unlinked(m, k);
    var r := Erased(m, k, bound);
    UnlinkedWf(m, k, bound);
    SubtreeParent(m, k, bound);
    SubtreeAbove(m, k, bound);
    RemoveFirstDistinct(Get(m, p).children, k);
    forall j, i | j in r && 0 <= i < |r[j].children|
      ensures var c := r[j].children[i]; c in r && j < c && r[c].parent == j
    {
      var c := r[j].children[i];
      assert c in m1 && j < c && m1[c].parent == j;
    }
  }

  /** With all its children left, erase_children has not yet changed anything. */
  lemma PrunedNone(m: map<int, Element>, k: int, bound: int)
    requires k in m
    ensures Pruned(m, k, |m[k].children|, bound) == m
  {
    assert m[k].children[..|m[k].children|] == m[k].children;
  }

  /** Child n - 1, the last one left, is still in place, and so is its whole subtree. */
  lemma PrunedLast(m: map<int, Element>, k: int, n: nat, bound: int)
    requires Wf(m, bound) && k in m && 0 < n <= |m[k].children|
    ensures var cur := Pruned(m, k, n, bound); var c := m[k].children[n - 1];
      c in cur && cur[c] == m[c] && k in cur && cur[k] == m[k].(children := m[k].children[..n]) &&
      Subtree(cur, c, bound) == Subtree(m, c, bound)
  {
    var cs := m[k].children;
    var cur := Pruned(m, k, n, bound);
    var c := cs[n - 1];
    assert c in m && k < c;
    ChildrenSubtreesAbove(m, k, cs, bound);
    SubtreeAbove(m, c, bound);
    ChildSubtreeIn(m, k, cs[..n], bound, n - 1);
    SubtreeFrame(m, cur, c, bound);
  }

  /** The subtrees below the first n children: those below the first n - 1, and, apart from them, child n - 1's. */
  lemma ChildrenSplit(m: map<int, Element>, k: int, n: nat, bound: int)
    requires Wf(m, bound) && k in m && Distinct(m[k].children) && 0 < n <= |m[k].children|
    ensures var cs := m[k].children; var c := cs[n - 1];
      ChildrenSubtrees(m, k, cs[..n], bound) == ChildrenSubtrees(m, k, cs[..n - 1], bound) + Subtree(m, c, bound) &&
      Subtree(m, c, bound) <= ChildrenSubtrees(m, k, cs, bound) &&
      forall j :: j in ChildrenSubtrees(m, k, cs[..n - 1], bound) ==> j !in Subtree(m, c, bound)
  {
    var cs := m[k].children;
    var c := cs[n - 1];
    assert c in m && k < c < bound;
    assert cs[..n][..n - 1] == cs[..n - 1];
    ChildSubtreeIn(m, k, cs, bound, n - 1);
    forall j | j in ChildrenSubtrees(m, k, cs[..n - 1], bound)
      ensures j !in Subtree(m, c, bound)
    {
      var i := ChildOf(m, k, cs[..n - 1], bound, j);
      DistinctAt(cs, i, n - 1);
      SubtreesDisjoint(m, k, i, n - 1, bound, j);
    }
  }

  /** Unlinking the last child left from k drops it from the end of k's list. */
  lemma UnlinkLast(m: map<int, Element>, k: int, n: nat, bound: int)
    requires Wf(m, bound) && k in m && Distinct(m[k].children) && 0 < n <= |m[k].children|
    ensures var cur := Pruned(m, k, n, bound); var cs := m[k].children; var c := cs[n - 1];
      c in cur && Unlinked(cur, c) == cur[k := m[k].(children := cs[..n - 1])]
  {
    var cs := m[k].children;
    var c := cs[n - 1];
    PrunedLast(m, k, n, bound);
    assert m[c].parent == k;
    forall j | 0 <= j < n - 1
      ensures cs[..n][j] != c
    {
      DistinctAt(cs, j, n - 1);
    }
    RemoveFirstAt(cs[..n], c, n - 1);
    assert cs[..n][..n - 1] == cs[..n - 1];
    var cur := Pruned(m, k, n, bound);
    assert Touch(cur, k) == cur;
    assert RemoveFirst(cur[k].children, c) == cs[..n - 1];
  }

  /**
   * One turn of erase_children's loop: erasing the last child left (whose
   * parent is k) removes its subtree and shortens k's list by one.
   */
  lemma PrunedStep(m: map<int, Element>, k: int, n: nat, bound: int)
    requires Wf(m, bound) && k in m && Distinct(m[k].children) && 0 < n <= |m[k].children|
    ensures var cur := Pruned(m, k, n, bound); var c := m[k].children[n - 1];
      c in cur && cur[c].parent == k && Erased(cur, c, bound) == Pruned(m, k, n - 1, bound)
  {
    var cs := m[k].children;
    var cur := Pruned(m, k, n, bound);
    var c := cs[n - 1];
    PrunedLast(m, k, n, bound);
    ChildrenSplit(m, k, n, bound);
    UnlinkLast(m, k, n, bound);
    var e := Erased(cur, c, bound);
    var want := Pruned(m, k, n - 1, bound);
    forall j
      ensures j in e <==> j in want
    {
    }
    forall j | j in e
      ensures e[j] == want[j]
    {
    }
    assert e == want;
  }

  /** _erase as written: unlink k, erase all its children, then remove k itself. */
  lemma ErasedByPruning(m: map<int, Element>, k: int, bound: int)
    requires Wf(m, bound) && k in m
    ensures var m1 := Unlinked(m, k); k in m1 && Pruned(m1, k, 0, bound) - {k} == Erased(m, k, bound)
  {
    var p := m[k].parent;
    var m1 := Unlinked(m, k);
    var cs := m[k].children;
    if p == k {
      RemoveFirstAbsent(cs, k);
    }
    assert m1[k].children == cs;
    ChildrenSubtreesAbove(m, k, cs, bound);
    ChildrenSubtreesFrame(m, m1, k, cs, bound);
    assert cs[..0] == [];
  }

  /** A new child keeps the layout well-formed and free of repeats; the counter moves past it. */
  lemma WithChildWf(m: map<int, Element>, k: int, bound: int)
    requires Wf(m, bound) && AllDistinct(m) && k in m
    ensures Wf(WithChild(m, k, bound), bound + 1) && AllDistinct(WithChild(m, k, bound))
  {
    assert bound !in m;
    assert bound !in m[k].children;
    DistinctAppend(m[k].children, bound);
  }

  /** Erasing a freshly created child gives back the layout from before the creation. */
  lemma CreateThenErase(m: map<int, Element>, k: int, bound: int)
    requires Wf(m, bound) && k in m
    ensures var m1 := WithChild(m, k, bound); bound in m1 && Erased(m1, bound, bound + 1) == m
  {
    var m1 := WithChild(m, k, bound);
    assert bound !in m;
    var cs := m[k].children;
    assert bound !in cs;
    RemoveFirstAt(cs + [bound], bound, |cs|);
    assert VecRemove(cs + [bound], |cs|) == cs;
    assert Subtree(m1, bound, bound + 1) == {bound};
  }

  /** Where erase_children stands with n children left, k is present and lists its first n children. */
  lemma PrunedRoot(m: map<int, Element>, k: int, n: nat, bound: int)
    requires k in m && n <= |m[k].children|
    ensures var cur := Pruned(m, k, n, bound); k in cur && cur[k].children == m[k].children[..n]
  {
    ChildrenSubtreesAbove(m, k, m[k].children, bound);
  }

  /** Updating keeps the layout well-formed and free of repeats. */
  lemma UpdateKeepsValid(sz: Sizing, m: map<int, Element>, k: int, bound: int)
    requires Wf(m, bound) && AllDistinct(m)
    ensures Wf(UpdateOn(sz, m, k, bound), bound) && AllDistinct(UpdateOn(sz, m, k, bound))
  {
    UpdateOnShape(sz, m, k, bound);
    WfSameShape(m, UpdateOn(sz, m, k, bound), bound);
  }

  /** Changing anything but the children lists and parents of present elements keeps the layout well-formed. */
  lemma SettingKeepsWf(m: map<int, Element>, r: map<int, Element>, bound: int)
    requires Wf(m, bound) && AllDistinct(m) && forall j :: j in m <==> j in r
    requires forall j :: j in m ==> r[j].children == m[j].children && r[j].parent == m[j].parent
    ensures Wf(r, bound) && AllDistinct(r)
  {
    forall j, i | j in r && 0 <= i < |r[j].children|
      ensures var c := r[j].children[i]; c in r && j < c && r[c].parent == j
    {
      assert j in m;
    }
  }
}
