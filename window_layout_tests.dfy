/**
 * The two tests of the window layout (TEST1_WindowLayout and
 * TEST2_WindowLayout in L9_user_interface.h), followed through the model:
 * the sizes each update hands out, then the positions every step leaves.
 */
module WindowLayoutTests {
  import opened Shapes
  import opened Vectors
  import opened LayoutSizes
  import opened WindowLayoutMap

  // ---- the sizes _get_element_sizes hands out in the tests ----

  lemma SizesHalf()
    ensures ElementSizesOf([0, 0], [1000, 1000], [1.0, 1.0], 1000) == [500, 500]
  {
    var w := [1.0, 1.0];
    var start := Split([-1, -1], 1000, 2.0);
    assert seq(2, _ => -1) == [-1, -1];
    assert RealSum(w) == 2.0;
    assert Share(1000, 1.0, 2.0) == 500;
    var st := PassState([-1, -1], 1000, 2.0, true);
    assert Pass([0, 0], w, true, Shares(1000, w, 2.0), st, 0) == st;
    assert Phase([0, 0], w, true, start, false) == start;
    assert Pass([1000, 1000], w, false, Shares(1000, w, 2.0), st, 0) == st;
    assert Phase([1000, 1000], w, false, start, false) == start;
  }

  lemma SizesHalfVertical()
    ensures ElementSizesOf([0, 0], [800, 800], [1.0, 1.0], 800) == [400, 400]
  {
    var w := [1.0, 1.0];
    var start := Split([-1, -1], 800, 2.0);
    assert seq(2, _ => -1) == [-1, -1];
    assert RealSum(w) == 2.0;
    assert Share(800, 1.0, 2.0) == 400;
    var st := PassState([-1, -1], 800, 2.0, true);
    assert Pass([0, 0], w, true, Shares(800, w, 2.0), st, 0) == st;
    assert Phase([0, 0], w, true, start, false) == start;
    assert Pass([800, 800], w, false, Shares(800, w, 2.0), st, 0) == st;
    assert Phase([800, 800], w, false, start, false) == start;
  }

  /** A child capped at 200 takes 200; the other child takes the remaining 800. */
  lemma SizesCapped()
    ensures ElementSizesOf([200, 0], [200, 1000], [1.0, 1.0], 1000) == [200, 800]
  {
    var w := [1.0, 1.0];
    var start := Split([-1, -1], 1000, 2.0);
    assert seq(2, _ => -1) == [-1, -1];
    assert RealSum(w) == 2.0;
    assert Share(1000, 1.0, 2.0) == 500;
    assert Share(800, 1.0, 1.0) == 800;
    var st := PassState([-1, -1], 1000, 2.0, true);
    assert Pass([200, 0], w, true, Shares(1000, w, 2.0), st, 0) == st;
    assert Phase([200, 0], w, true, start, false) == start;
    var st1 := PassState([200, -1], 800, 1.0, false);
    assert Pass([200, 1000], w, false, Shares(1000, w, 2.0), st, 0) == st1;
    var st2 := PassState([200, -1], 800, 1.0, true);
    assert Pass([200, 1000], w, false, Shares(800, w, 1.0), st2, 0) == st2;
    assert Phase([200, 1000], w, false, Split([200, -1], 800, 1.0), true) == Split([200, -1], 800, 1.0);
    assert Phase([200, 1000], w, false, start, false) == Split([200, -1], 800, 1.0);
  }

  /** A child needing 600 gets it first; the other child takes the remaining 400. */
  lemma SizesWide()
    ensures ElementSizesOf([600, 0], [600, 1000], [1.0, 1.0], 1000) == [600, 400]
  {
    var w := [1.0, 1.0];
    var start := Split([-1, -1], 1000, 2.0);
    assert seq(2, _ => -1) == [-1, -1];
    assert RealSum(w) == 2.0;
    assert Share(1000, 1.0, 2.0) == 500;
    assert Share(400, 1.0, 1.0) == 400;
    var st := PassState([-1, -1], 1000, 2.0, true);
    var st1 := PassState([600, -1], 400, 1.0, false);
    assert Pass([600, 0], w, true, Shares(1000, w, 2.0), st, 0) == st1;
    var st2 := PassState([600, -1], 400, 1.0, true);
    assert Pass([600, 0], w, true, Shares(400, w, 1.0), st2, 0) == st2;
    var s1 := Split([600, -1], 400, 1.0);
    assert Phase([600, 0], w, true, s1, true) == s1;
    assert Phase([600, 0], w, true, start, false) == s1;
    assert Pass([600, 1000], w, false, Shares(400, w, 1.0), st2, 0) == st2;
    assert Phase([600, 1000], w, false, s1, true) == s1;
    assert Phase([600, 1000], w, false, s1, false) == s1;
  }

  /** With the second child hidden (minimum and maximum 0), the first keeps its 600 and the second gets 0. */
  lemma SizesSecondHidden()
    ensures ElementSizesOf([600, 0], [600, 0], [1.0, 1.0], 1000) == [600, 0]
  {
    var w := [1.0, 1.0];
    var start := Split([-1, -1], 1000, 2.0);
    assert seq(2, _ => -1) == [-1, -1];
    assert RealSum(w) == 2.0;
    assert Share(1000, 1.0, 2.0) == 500;
    assert Share(400, 1.0, 1.0) == 400;
    var st := PassState([-1, -1], 1000, 2.0, true);
    var st1 := PassState([600, -1], 400, 1.0, false);
    assert Pass([600, 0], w, true, Shares(1000, w, 2.0), st, 0) == st1;
    var st2 := PassState([600, -1], 400, 1.0, true);
    assert Pass([600, 0], w, true, Shares(400, w, 1.0), st2, 0) == st2;
    var s1 := Split([600, -1], 400, 1.0);
    assert Phase([600, 0], w, true, s1, true) == s1;
    assert Phase([600, 0], w, true, start, false) == s1;
    var st3 := PassState([600, 0], 400, 0.0, false);
    assert Pass([600, 0], w, false, Shares(400, w, 1.0), st2, 0) == st3;
    assert Phase([600, 0], w, false, Split([600, 0], 400, 0.0), false) == Split([600, 0], 400, 0.0);
    assert Phase([600, 0], w, false, s1, false) == Split([600, 0], 400, 0.0);
  }

  /** With the first child hidden, the second gets its 600. */
  lemma SizesFirstHidden()
    ensures ElementSizesOf([0, 600], [0, 600], [1.0, 1.0], 1000) == [0, 600]
  {
    var w := [1.0, 1.0];
    var start := Split([-1, -1], 1000, 2.0);
    assert seq(2, _ => -1) == [-1, -1];
    assert RealSum(w) == 2.0;
    assert Share(1000, 1.0, 2.0) == 500;
    assert Share(400, 1.0, 1.0) == 400;
    var st := PassState([-1, -1], 1000, 2.0, true);
    var st1 := PassState([-1, 600], 400, 1.0, false);
    assert Pass([0, 600], w, true, Shares(1000, w, 2.0), st, 0) == st1;
    var st2 := PassState([-1, 600], 400, 1.0, true);
    assert Pass([0, 600], w, true, Shares(400, w, 1.0), st2, 0) == st2;
    var s1 := Split([-1, 600], 400, 1.0);
    assert Phase([0, 600], w, true, s1, true) == s1;
    assert Phase([0, 600], w, true, start, false) == s1;
    var st3 := PassState([0, 600], 400, 0.0, false);
    assert Pass([0, 600], w, false, Shares(400, w, 1.0), st2, 0) == st3;
    assert Phase([0, 600], w, false, Split([0, 600], 400, 0.0), false) == Split([0, 600], 400, 0.0);
    assert Phase([0, 600], w, false, s1, false) == Split([0, 600], 400, 0.0);
  }

  /** A single child capped at 600 takes 600 of 1000. */
  lemma SizesSingle()
    ensures ElementSizesOf([600], [600], [1.0], 1000) == [600]
  {
    var w := [1.0];
    var start := Split([-1], 1000, 1.0);
    assert seq(1, _ => -1) == [-1];
    assert RealSum(w) == 1.0;
    assert Share(1000, 1.0, 1.0) == 1000;
    var st := PassState([-1], 1000, 1.0, true);
    assert Pass([600], w, true, Shares(1000, w, 1.0), st, 0) == st;
    assert Phase([600], w, true, start, false) == start;
    var st1 := PassState([600], 400, 0.0, false);
    assert Pass([600], w, false, Shares(1000, w, 1.0), st, 0) == st1;
    assert Phase([600], w, false, Split([600], 400, 0.0), false) == Split([600], 400, 0.0);
    assert Phase([600], w, false, start, false) == Split([600], 400, 0.0);
  }

  // ---- _update on one level of children ----

  /** An element without children is left as it is by its update. */
  lemma UpdateLeaf(sz: Sizing, m: map<int, Element>, c: int, bound: int)
    requires c in m ==> m[c].children == []
    ensures UpdateOn(sz, m, c, bound) == m
  {
    if c in m && Extent(m[c]) >= 0 {
      PlaceDone(sz, m, c, m[c], sz(m, m[c]), Start(m[c]), bound);
    }
  }

  /** An element with one childless child: the child takes its slot. */
  lemma UpdateOne(sz: Sizing, m: map<int, Element>, k: int, a: int, bound: int)
    requires k in m && Extent(m[k]) >= 0 && m[k].children == [a] && k < a < bound
    requires Get(m, a).children == []
    ensures var e := m[k]; var s := sz(m, e);
      UpdateOn(sz, m, k, bound) == Placed(m, e, a, Start(e), s[0])
  {
    var e := m[k];
    var s := sz(m, e);
    var m1 := Placed(m, e, a, Start(e), s[0]);
    assert UpdateOn(sz, m, k, bound) == PlaceChildren(sz, m, k, e, s, 0, Start(e), bound);
    PlaceUnfold(sz, m, k, e, s, 0, Start(e), bound);
    UpdateLeaf(sz, m1, a, bound);
    assert PlaceOne(sz, m, k, e, a, Start(e), s[0], bound) == m1;
    PlaceDone(sz, m1, k, e, s, Start(e) + s[0], bound);
  }

  /** An element with two childless children: they take consecutive slots. */
  lemma UpdateTwo(sz: Sizing, m: map<int, Element>, k: int, a: int, b: int, bound: int)
    requires k in m && Extent(m[k]) >= 0 && m[k].children == [a, b] && k < a < bound && k < b < bound && a != b
    requires Get(m, a).children == [] && Get(m, b).children == []
    ensures var e := m[k]; var s := sz(m, e);
      UpdateOn(sz, m, k, bound) == Placed(Placed(m, e, a, Start(e), s[0]), e, b, Start(e) + s[0], s[1])
  {
    var e := m[k];
    var s := sz(m, e);
    var m1 := Placed(m, e, a, Start(e), s[0]);
    assert UpdateOn(sz, m, k, bound) == PlaceChildren(sz, m, k, e, s, 0, Start(e), bound);
    PlaceUnfold(sz, m, k, e, s, 0, Start(e), bound);
    UpdateLeaf(sz, m1, a, bound);
    assert PlaceOne(sz, m, k, e, a, Start(e), s[0], bound) == m1;
    var m2 := Placed(m1, e, b, Start(e) + s[0], s[1]);
    PlaceUnfold(sz, m1, k, e, s, 1, Start(e) + s[0], bound);
    assert Get(m1, b) == Get(m, b);
    UpdateLeaf(sz, m2, b, bound);
    assert PlaceOne(sz, m1, k, e, b, Start(e) + s[0], s[1], bound) == m2;
    PlaceDone(sz, m2, k, e, s, Start(e) + s[0] + s[1], bound);
  }

  /** When the minimums fit, nothing is hidden and the sizes are _get_element_sizes' own. */
  lemma ChildSizesFit(m: map<int, Element>, e: Element)
    requires Extent(e) >= 0 && Sum(ChildMins(m, e)) <= Extent(e)
    ensures ChildSizes(m, e) == ElementSizesOf(ChildMins(m, e), ChildMaxs(m, e), Ones(|e.children|), Extent(e))
  {
  }

  /** An element 0 with two childless children 1 and 2: its update gives them consecutive slots. */
  lemma UpdateTwoLeaves(root: Element, left: Element, right: Element, s1: int, s2: int)
    requires root.children == [1, 2] && Extent(root) >= 0 && left.children == [] && right.children == []
    requires ChildSizes(map[0 := root, 1 := left, 2 := right], root) == [s1, s2]
    ensures UpdateOn(LayoutSizing, map[0 := root, 1 := left, 2 := right], 0, 3)
         == map[0 := root, 1 := left.(pos := ChildPosition(root, left, Start(root), s1)),
                2 := right.(pos := ChildPosition(root, right, Start(root) + s1, s2))]
  {
    var m := map[0 := root, 1 := left, 2 := right];
    assert LayoutSizing(m, root) == [s1, s2];
    UpdateTwo(LayoutSizing, m, 0, 1, 2, 3);
    var m1 := Placed(m, root, 1, Start(root), s1);
    assert m1 == m[1 := left.(pos := ChildPosition(root, left, Start(root), s1))];
    assert Placed(m1, root, 2, Start(root) + s1, s2) == m1[2 := right.(pos := ChildPosition(root, right, Start(root) + s1, s2))];
  }

  // ---- TEST1_WindowLayout ----

  /** A child of the entire-window element, as create_child_element makes it. */
  const Leaf := DefaultElement.(parent := 0)

  /** The entire-window element with children 1 and 2. */
  function Root(pos: Rect, horizontal: bool): Element
  {
    DefaultElement.(pos := pos, splitHorizontal := horizontal, children := [1, 2])
  }

  /** The entire window at 1000x800 with its two children, wherever they are. */
  function Test1Layout(horizontal: bool, p1: Rect, p2: Rect): map<int, Element>
  {
    map[0 := Root(Rect(0, 0, 1000, 800), horizontal), 1 := Leaf.(pos := p1), 2 := Leaf.(pos := p2)]
  }

  lemma Test1Sizes(horizontal: bool, p1: Rect, p2: Rect)
    ensures var m := Test1Layout(horizontal, p1, p2);
      ChildSizes(m, m[0]) == if horizontal then [500, 500] else [400, 400]
  {
    var m := Test1Layout(horizontal, p1, p2);
    var e := m[0];
    assert Ones(2) == [1.0, 1.0];
    if horizontal {
      assert ChildMins(m, e) == [0, 0] && ChildMaxs(m, e) == [1000, 1000];
      assert Sum([0, 0]) == 0;
      ChildSizesFit(m, e);
      SizesHalf();
    } else {
      assert ChildMins(m, e) == [0, 0] && ChildMaxs(m, e) == [800, 800];
      assert Sum([0, 0]) == 0;
      ChildSizesFit(m, e);
      SizesHalfVertical();
    }
  }

  /** The children's rectangles after the entire window is updated. */
  function Test1Placed(horizontal: bool): map<int, Element>
  {
    var root := Root(Rect(0, 0, 1000, 800), horizontal);
    if horizontal then map[0 := root, 1 := Leaf.(pos := Rect(0, 0, 500, 800)), 2 := Leaf.(pos := Rect(500, 0, 500, 800))]
    else map[0 := root, 1 := Leaf.(pos := Rect(0, 0, 1000, 400)), 2 := Leaf.(pos := Rect(0, 400, 1000, 400))]
  }

  /** update() on the entire window: side by side when split horizontally, stacked otherwise. */
  lemma Test1Update(horizontal: bool, p1: Rect, p2: Rect)
    ensures UpdateWithParent(Test1Layout(horizontal, p1, p2), 0, 3) == Test1Placed(horizontal)
  {
    var m := Test1Layout(horizontal, p1, p2);
    var e := m[0];
    assert Touch(m, 0) == m;
    assert UpdateWithParent(m, 0, 3) == UpdateOn(LayoutSizing, m, 0, 3);
    Test1Sizes(horizontal, p1, p2);
    var s := ChildSizes(m, e);
    UpdateTwoLeaves(e, Leaf.(pos := p1), Leaf.(pos := p2), s[0], s[1]);
  }

  /** Two create_child_element calls on the entire-window element of a new layout. */
  lemma CreatedTwo()
    ensures WithChild(map[0 := DefaultElement], 0, 1) == map[0 := DefaultElement.(children := [1]), 1 := Leaf]
    ensures WithChild(map[0 := DefaultElement.(children := [1]), 1 := Leaf], 0, 2)
         == map[0 := DefaultElement.(children := [1, 2]), 1 := Leaf, 2 := Leaf]
  {
    var m1 := WithChild(map[0 := DefaultElement], 0, 1);
    assert m1.Keys == {0, 1};
    assert m1[0] == DefaultElement.(children := [1]) && m1[1] == Leaf;
    var m2 := WithChild(map[0 := DefaultElement.(children := [1]), 1 := Leaf], 0, 2);
    assert m2.Keys == {0, 1, 2};
    assert [1] + [2] == [1, 2];
    assert m2[0] == DefaultElement.(children := [1, 2]) && m2[1] == Leaf && m2[2] == Leaf;
  }

  /** set_size on the layout, then set_vertical_split, as maps. */
  lemma Test1Steps()
    ensures var m := map[0 := DefaultElement.(children := [1, 2]), 1 := Leaf, 2 := Leaf];
      m[0 := Get(m, 0).(pos := Rect(0, 0, 1000, 800))] == Test1Layout(true, DefaultElement.pos, DefaultElement.pos)
    ensures var m := Test1Placed(true);
      m[0 := m[0].(splitHorizontal := false)] == Test1Layout(false, Rect(0, 0, 500, 800), Rect(500, 0, 500, 800))
  {
    var m := map[0 := DefaultElement.(children := [1, 2]), 1 := Leaf, 2 := Leaf];
    var r := m[0 := Get(m, 0).(pos := Rect(0, 0, 1000, 800))];
    assert r.Keys == {0, 1, 2};
    var t := Test1Placed(true);
    assert t[0 := t[0].(splitHorizontal := false)].Keys == {0, 1, 2};
  }

  /** TEST1_WindowLayout: two children side by side, then one above the other. */
  method Test1()
  {
    var layout := new WindowLayout();
    CreatedTwo();
    var left := layout.CreateChildElement(0);
    var right := layout.CreateChildElement(0);
    assert left == 1 && right == 2 && layout.counter == 3;
    assert layout.elements == map[0 := DefaultElement.(children := [1, 2]), 1 := Leaf, 2 := Leaf];
    Test1Steps();
    var ok := layout.SetSize(1000, 800);
    Test1Update(true, DefaultElement.pos, DefaultElement.pos);
    assert layout.GetPosition(left) == Rect(0, 0, 500, 800);
    assert layout.GetPosition(right) == Rect(500, 0, 500, 800);

    var code := layout.SetVerticalSplit(0);
    ok := layout.Update(0);
    Test1Update(false, Rect(0, 0, 500, 800), Rect(500, 0, 500, 800));
    assert layout.GetPosition(left) == Rect(0, 0, 1000, 400);
    assert layout.GetPosition(right) == Rect(0, 400, 1000, 400);
  }

  // ---- TEST2_WindowLayout ----

  /** A child of the entire window whose minimum and maximum are both n by n (set_size(n, n)). */
  function Fixed(n: int): Element
  {
    Leaf.(minWidth := n, maxWidth := n, minHeight := n, maxHeight := n)
  }

  const Window := Root(Rect(0, 0, 1000, 800), true)

  /** The entire window at 1000x800, split horizontally, with the two given children. */
  function Test2Layout(left: Element, right: Element): map<int, Element>
  {
    map[0 := Window, 1 := left, 2 := right]
  }

  /** update() on either child updates the entire window, then the child, which has no children. */
  lemma Test2ChildUpdate(left: Element, right: Element, k: int)
    requires left.children == [] && right.children == [] && left.parent == 0 && right.parent == 0
    requires 0 <= k <= 2
    ensures UpdateWithParent(Test2Layout(left, right), k, 3) == UpdateOn(LayoutSizing, Test2Layout(left, right), 0, 3)
  {
    var m := Test2Layout(left, right);
    assert Touch(m, k) == m;
    if k != 0 {
      var s := LayoutSizing(m, Window);
      UpdateTwo(LayoutSizing, m, 0, 1, 2, 3);
      var m2 := Placed(Placed(m, Window, 1, 0, s[0]), Window, 2, s[0], s[1]);
      assert m2[k].children == [];
      UpdateLeaf(LayoutSizing, m2, k, 3);
    }
  }

  /** The hiding orders of the test: equal priorities in index order, then priority 2 first. */
  /** Equal priorities keep index order. */
  lemma Test2OrderTied()
    ensures PriorityOrder([0, 0]) == [(0, 0), (0, 1)]
  {
    assert VecToPairWithIndices([0, 0]) == [(0, 0), (0, 1)];
    assert [(0, 0), (0, 1)][1..] == [(0, 1)];
    assert SortByPriority([(0, 1)]) == [(0, 1)];
  }

  /** The higher priority comes first. */
  lemma Test2OrderRaised()
    ensures PriorityOrder([0, 2]) == [(2, 1), (0, 0)]
  {
    assert VecToPairWithIndices([0, 2]) == [(0, 0), (2, 1)];
    assert [(0, 0), (2, 1)][1..] == [(2, 1)];
    assert SortByPriority([(2, 1)]) == [(2, 1)];
    assert InsertByPriority((0, 0), [(2, 1)]) == [(2, 1)] + InsertByPriority((0, 0), []);
  }

  /** Two 600-wide children with equal priorities in 1000: the second is hidden. */
  lemma Test2HideTied()
    ensures HideOn([600, 600], [600, 600], [0, 0], 1000) == Hidden([600, 0], [600, 0], 0)
  {
    assert Sum([600, 600]) == 1200;
    Test2OrderTied();
  }

  /** Two 600-wide children, the second with priority 2, in 1000: the first is hidden. */
  lemma Test2HideRaised()
    ensures HideOn([600, 600], [600, 600], [0, 2], 1000) == Hidden([0, 600], [0, 600], 0)
  {
    assert Sum([600, 600]) == 1200;
    Test2OrderRaised();
  }

  lemma Test2Sizes(p1: Rect, p2: Rect)
    ensures ChildSizes(Test2Layout(Fixed(200).(pos := p1), Leaf.(pos := p2)), Window) == [200, 800]
    ensures ChildSizes(Test2Layout(Fixed(600).(pos := p1), Leaf.(pos := p2)), Window) == [600, 400]
  {
    assert Ones(2) == [1.0, 1.0];
    var m := Test2Layout(Fixed(200).(pos := p1), Leaf.(pos := p2));
    assert ChildMins(m, Window) == [200, 0] && ChildMaxs(m, Window) == [200, 1000];
    assert Sum([200, 0]) == 200;
    ChildSizesFit(m, Window);
    SizesCapped();
    m := Test2Layout(Fixed(600).(pos := p1), Leaf.(pos := p2));
    assert ChildMins(m, Window) == [600, 0] && ChildMaxs(m, Window) == [600, 1000];
    assert Sum([600, 0]) == 600;
    ChildSizesFit(m, Window);
    SizesWide();
  }

  /** With both children at 600 and equal priorities, the later one is hidden. */
  lemma Test2SecondHidden(p1: Rect, p2: Rect)
    ensures ChildSizes(Test2Layout(Fixed(600).(pos := p1), Fixed(600).(pos := p2)), Window) == [600, 0]
  {
    assert Ones(2) == [1.0, 1.0];
    assert Sum([600, 600]) == 1200;
    Test2HideTied();
    var m := Test2Layout(Fixed(600).(pos := p1), Fixed(600).(pos := p2));
    assert ChildMins(m, Window) == [600, 600] && ChildMaxs(m, Window) == [600, 600];
    assert ChildPriorities(m, Window) == [0, 0];
    assert Sum([600, 0]) == 600;
    SizesSecondHidden();
  }

  /** With priority 2 on the right child, the left one is hidden instead. */
  lemma Test2FirstHidden(p1: Rect, p2: Rect)
    ensures ChildSizes(Test2Layout(Fixed(600).(pos := p1), Fixed(600).(priority := 2, pos := p2)), Window) == [0, 600]
  {
    assert Ones(2) == [1.0, 1.0];
    assert Sum([600, 600]) == 1200;
    Test2HideRaised();
    var m := Test2Layout(Fixed(600).(pos := p1), Fixed(600).(priority := 2, pos := p2));
    assert ChildMins(m, Window) == [600, 600] && ChildMaxs(m, Window) == [600, 600];
    assert ChildPriorities(m, Window) == [0, 2];
    assert Sum([0, 600]) == 600;
    SizesFirstHidden();
  }

  /** The maps the test goes through before its first update, and a setter on either child. */
  lemma Test2Steps(a: Element, b: Element, a': Element, b': Element)
    ensures WithChild(map[0 := DefaultElement.(children := [1]), 1 := Fixed(200)], 0, 2)
         == map[0 := DefaultElement.(children := [1, 2]), 1 := Fixed(200), 2 := Leaf]
    ensures var m := map[0 := DefaultElement.(children := [1, 2]), 1 := Fixed(200), 2 := Leaf];
      m[0 := Get(m, 0).(pos := Rect(0, 0, 1000, 800))] == Test2Layout(Fixed(200), Leaf)
    ensures Test2Layout(a, b)[1 := a'] == Test2Layout(a', b)
    ensures Test2Layout(a, b)[2 := b'] == Test2Layout(a, b')
  {
    var m := map[0 := DefaultElement.(children := [1]), 1 := Fixed(200)];
    var m1 := WithChild(m, 0, 2);
    assert m1.Keys == {0, 1, 2};
    assert [1] + [2] == [1, 2];
    assert m1[0] == DefaultElement.(children := [1, 2]) && m1[1] == Fixed(200) && m1[2] == Leaf;
    var m2 := map[0 := DefaultElement.(children := [1, 2]), 1 := Fixed(200), 2 := Leaf];
    assert m2[0 := Get(m2, 0).(pos := Rect(0, 0, 1000, 800))].Keys == {0, 1, 2};
    assert Test2Layout(a, b)[1 := a'].Keys == {0, 1, 2};
    assert Test2Layout(a, b)[2 := b'].Keys == {0, 1, 2};
  }

  /** erase() on the right child: the entire window keeps only the left one. */
  lemma Test2Erased(left: Element, right: Element)
    requires right.children == [] && right.parent == 0
    ensures Erased(Test2Layout(left, right), 2, 3) == map[0 := Window.(children := [1]), 1 := left]
  {
    var m := Test2Layout(left, right);
    assert ChildrenSubtrees(m, 2, [], 3) == {};
    assert Subtree(m, 2, 3) == {2};
    assert [1, 2][..1] == [1];
    assert RemoveFirst([1, 2], 2) == [1];
    assert Touch(m, 0) == m;
    var u := Unlinked(m, 2);
    assert u.Keys == {0, 1, 2};
    assert u == map[0 := Window.(children := [1]), 1 := left, 2 := right];
    assert Erased(m, 2, 3).Keys == {0, 1};
  }

  /** The update after the erase: the left child alone takes its 600 at the origin. */
  lemma Test2Regrown(p1: Rect)
    ensures var left := Fixed(600).(pos := p1); var w := Window.(children := [1]);
      UpdateOn(LayoutSizing, map[0 := w, 1 := left], 0, 3) == map[0 := w, 1 := left.(pos := Rect(0, 0, 600, 600))]
  {
    var left := Fixed(600).(pos := p1);
    var w := Window.(children := [1]);
    var m1 := map[0 := w, 1 := left];
    assert ChildMins(m1, w) == [600] && ChildMaxs(m1, w) == [600];
    assert Ones(1) == [1.0] && Sum([600]) == 600;
    ChildSizesFit(m1, w);
    SizesSingle();
    assert LayoutSizing(m1, w) == [600];
    UpdateOne(LayoutSizing, m1, 0, 1, 3);
    assert Placed(m1, w, 1, 0, 600) == m1[1 := left.(pos := Rect(0, 0, 600, 600))];
  }

  /** set_size(1000, 800) on the layout: 200 for the fixed left child, the other 800 for the right one. */
  lemma Test2Update1()
    ensures UpdateWithParent(Test2Layout(Fixed(200), Leaf), 0, 3)
         == Test2Layout(Fixed(200).(pos := Rect(0, 0, 200, 200)), Leaf.(pos := Rect(200, 0, 800, 800)))
  {
    var p := DefaultElement.pos;
    Test2Sizes(p, p);
    Test2ChildUpdate(Fixed(200), Leaf, 0);
    assert Start(Window) == 0;
    UpdateTwoLeaves(Window, Fixed(200), Leaf, 200, 800);
  }

  /** The left child fixed at 600: the right one takes the remaining 400. */
  lemma Test2Update2(p1: Rect, p2: Rect)
    ensures UpdateWithParent(Test2Layout(Fixed(600).(pos := p1), Leaf.(pos := p2)), 1, 3)
         == Test2Layout(Fixed(600).(pos := Rect(0, 0, 600, 600)), Leaf.(pos := Rect(600, 0, 400, 800)))
  {
    Test2Sizes(p1, p2);
    Test2ChildUpdate(Fixed(600).(pos := p1), Leaf.(pos := p2), 1);
    assert Start(Window) == 0;
    UpdateTwoLeaves(Window, Fixed(600).(pos := p1), Leaf.(pos := p2), 600, 400);
  }

  /** Both fixed at 600 with equal priorities: the right one is hidden. */
  lemma Test2Update3(p1: Rect, p2: Rect)
    ensures UpdateWithParent(Test2Layout(Fixed(600).(pos := p1), Fixed(600).(pos := p2)), 2, 3)
         == Test2Layout(Fixed(600).(pos := Rect(0, 0, 600, 600)), Fixed(600).(pos := ZeroRect))
  {
    Test2SecondHidden(p1, p2);
    Test2ChildUpdate(Fixed(600).(pos := p1), Fixed(600).(pos := p2), 2);
    assert Start(Window) == 0;
    UpdateTwoLeaves(Window, Fixed(600).(pos := p1), Fixed(600).(pos := p2), 600, 0);
  }

  /** Both fixed at 600, the right one at priority 2: the left one is hidden. */
  lemma Test2Update4(p1: Rect, p2: Rect)
    ensures UpdateWithParent(Test2Layout(Fixed(600).(pos := p1), Fixed(600).(priority := 2, pos := p2)), 2, 3)
         == Test2Layout(Fixed(600).(pos := ZeroRect), Fixed(600).(priority := 2, pos := Rect(0, 0, 600, 600)))
  {
    Test2FirstHidden(p1, p2);
    Test2ChildUpdate(Fixed(600).(pos := p1), Fixed(600).(priority := 2, pos := p2), 2);
    assert Start(Window) == 0;
    UpdateTwoLeaves(Window, Fixed(600).(pos := p1), Fixed(600).(priority := 2, pos := p2), 0, 600);
  }

  /** TEST2_WindowLayout: fixed sizes, hiding by index and by priority, and the left child back after an erase. */
  method Test2()
  {
    var layout := new WindowLayout();
    CreatedTwo();
    var left := layout.CreateChildElement(0);
    var code := layout.SetFixedSize(left, 200, 200);
    var right := layout.CreateChildElement(0);
    Test2Steps(Fixed(200), Leaf, Fixed(200), Leaf);
    assert layout.elements == map[0 := DefaultElement.(children := [1, 2]), 1 := Fixed(200), 2 := Leaf];
    var ok := layout.SetSize(1000, 800);
    var p1, p2 := Rect(0, 0, 200, 200), Rect(200, 0, 800, 800);
    Test2Update1();
    assert layout.elements == Test2Layout(Fixed(200).(pos := p1), Leaf.(pos := p2));
    assert layout.GetPosition(left) == Rect(0, 0, 200, 200);
    assert layout.GetPosition(right) == Rect(200, 0, 800, 800);

    code := layout.SetFixedSize(left, 600, 600);
    Test2Steps(Fixed(200).(pos := p1), Leaf.(pos := p2), Fixed(600).(pos := p1), Leaf);
    ok := layout.Update(left);
    Test2Update2(p1, p2);
    assert layout.GetPosition(left) == Rect(0, 0, 600, 600);
    assert layout.GetPosition(right) == Rect(600, 0, 400, 800);

    // both children at 600 do not fit in 1000: the later one, of equal priority, is hidden
    var q1, q2 := Rect(0, 0, 600, 600), Rect(600, 0, 400, 800);
    code := layout.SetFixedSize(right, 600, 600);
    Test2Steps(Fixed(600).(pos := q1), Leaf.(pos := q2), Fixed(600), Fixed(600).(pos := q2));
    ok := layout.Update(right);
    Test2Update3(q1, q2);
    assert layout.GetPosition(left) == Rect(0, 0, 600, 600);
    assert layout.GetPosition(right) == ZeroRect;

    // with the higher priority on the right, the left one is hidden instead
    code := layout.SetPriorityLevel(right, 2);
    Test2Steps(Fixed(600).(pos := q1), Fixed(600).(pos := ZeroRect), Fixed(600), Fixed(600).(priority := 2, pos := ZeroRect));
    ok := layout.Update(right);
    Test2Update4(q1, ZeroRect);
    assert layout.GetPosition(left) == ZeroRect;
    assert layout.GetPosition(right) == Rect(0, 0, 600, 600);

    // erasing the right one gives the left one its room back
    code, ok := layout.Erase(right);
    Test2Erased(Fixed(600).(pos := ZeroRect), Fixed(600).(priority := 2, pos := Rect(0, 0, 600, 600)));
    Test2Regrown(ZeroRect);
    assert layout.GetPosition(left) == Rect(0, 0, 600, 600);
    assert layout.GetPosition(right) == ZeroRect;
  }
}
