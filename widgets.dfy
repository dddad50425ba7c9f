/**
 * The widget layer of the list-based user interface: widgets kept in the
 * WidgetManager's list and picked by the mouse, layout rectangles kept in
 * the LayoutRectManager's list, the size split that places rectangles one
 * after another, and the search for a selected sub-layout.
 *
 * A list_ptr handle is modelled by the identity of its list entry: the
 * handle expires when its entry is removed from the list. The update
 * objects a layout rectangle notifies are not run; each notification is
 * recorded in an event log instead.
 */
module Widgets {
  import opened Wrappers
  import opened Shapes

  const ZeroRect := Rect(0, 0, 0, 0)

  // ---- widgets ----

  /** _Widget. Depths are floats in the source and exact reals here. */
  datatype WidgetState = WidgetState(isSelected: bool, isLastClicked: bool, wasClicked: bool, position: Rect, depth: real)

  /** A default-constructed _Widget. */
  const NewWidget := WidgetState(false, false, false, ZeroRect, 0.0)

  /**
   * An entry of an ObjectList: the identity its list_ptr handles share,
   * and the object. A handle whose entry has left the list has expired.
   */
  datatype Entry<T> = Entry(id: nat, item: T)

  /** WidgetManager::MouseInput. */
  datatype MouseInput = MouseInput(x: int, y: int, wasClicked: bool)

  predicate DistinctIds<T>(ws: seq<Entry<T>>)
  {
    forall i, j :: 0 <= i < j < |ws| ==> ws[i].id != ws[j].id
  }

  /** The position of the entry a handle refers to, if it has not expired. */
  function Find<T>(ws: seq<Entry<T>>, id: int): (r: Option<nat>)
    ensures r.Some? ==> r.value < |ws| && ws[r.value].id == id
    ensures r.None? <==> forall i :: 0 <= i < |ws| ==> ws[i].id != id
  {
    if |ws| == 0 then None
    else if ws[|ws| - 1].id == id then Some(|ws| - 1)
    else Find(ws[..|ws| - 1], id)
  }

  /** With distinct identities the entry found is the only one with that identity. */
  lemma FindUnique<T>(ws: seq<Entry<T>>, id: int, i: nat)
    requires DistinctIds(ws) && i < |ws| && ws[i].id == id
    ensures Find(ws, id) == Some(i)
  {
    assert forall k :: 0 <= k < |ws| && k != i ==> ws[k].id != ws[i].id;
  }

  /** _reset_widget_states for one widget: not selected, not clicked, and not last clicked after a click. */
  function ResetState(s: WidgetState, clicked: bool): WidgetState
  {
    s.(isSelected := false, wasClicked := false, isLastClicked := if clicked then false else s.isLastClicked)
  }

  /** _make_selected_widget: selected, and on a click also clicked and last clicked. */
  function MakeSelected(s: WidgetState, clicked: bool): WidgetState
  {
    if clicked then s.(isSelected := true, isLastClicked := true, wasClicked := true)
    else s.(isSelected := true)
  }

  /** Whether the mouse is on the widget (both edges count, as is_inside_rect). */
  predicate UnderMouse(s: WidgetState, x: int, y: int)
  {
    IsInsideRect(s.position, x, y)
  }

  /**
   * _update_selected_widget's scan over the first n widgets: a widget under
   * the mouse replaces the current pick only when its depth is strictly
   * smaller, so the earliest of the lowest wins.
   */
  function TopWidget(ws: seq<Entry<WidgetState>>, x: int, y: int): (r: Option<nat>)
    ensures r.Some? ==> r.value < |ws|
  {
    if |ws| == 0 then None
    else
      var t := TopWidget(ws[..|ws| - 1], x, y);
      var last := ws[|ws| - 1].item;
      if UnderMouse(last, x, y) && (t.None? || last.depth < ws[t.value].item.depth) then Some(|ws| - 1) else t
  }

  /**
   * The pick is the earliest widget of least depth among those under the
   * mouse, and there is none exactly when no widget is under the mouse.
   */
  lemma {:induction false} TopWidgetIsEarliestLowest(ws: seq<Entry<WidgetState>>, x: int, y: int)
    ensures TopWidget(ws, x, y).None? <==> forall j :: 0 <= j < |ws| ==> !UnderMouse(ws[j].item, x, y)
    ensures TopWidget(ws, x, y).Some? ==> var t := TopWidget(ws, x, y).value;
      UnderMouse(ws[t].item, x, y)
      && (forall j :: 0 <= j < |ws| && UnderMouse(ws[j].item, x, y) ==> ws[t].item.depth <= ws[j].item.depth)
      && (forall j :: 0 <= j < t && UnderMouse(ws[j].item, x, y) ==> ws[t].item.depth < ws[j].item.depth)
  {
    if |ws| > 0 {
      var init := ws[..|ws| - 1];
      TopWidgetIsEarliestLowest(init, x, y);
      assert forall j :: 0 <= j < |init| ==> init[j] == ws[j];
    }
  }

  /** The pick depends only on the positions and depths of the widgets. */
  lemma {:induction false} TopWidgetSameGeometry(ws: seq<Entry<WidgetState>>, vs: seq<Entry<WidgetState>>, x: int, y: int)
    requires |ws| == |vs|
    requires forall j :: 0 <= j < |ws| ==> ws[j].item.position == vs[j].item.position && ws[j].item.depth == vs[j].item.depth
    ensures TopWidget(ws, x, y) == TopWidget(vs, x, y)
  {
    if |ws| > 0 {
      TopWidgetSameGeometry(ws[..|ws| - 1], vs[..|vs| - 1], x, y);
    }
  }

  /** The list after _reset_widget_states. */
  function ResetAll(ws: seq<Entry<WidgetState>>, clicked: bool): (r: seq<Entry<WidgetState>>)
    ensures |r| == |ws|
  {
    seq(|ws|, j requires 0 <= j < |ws| => ws[j].(item := ResetState(ws[j].item, clicked)))
  }

  /** The list after WidgetManager::update: every widget reset, then the pick made selected. */
  function Updated(ws: seq<Entry<WidgetState>>, mouse: MouseInput): (r: seq<Entry<WidgetState>>)
    ensures |r| == |ws|
  {
    var reset := ResetAll(ws, mouse.wasClicked);
    match TopWidget(reset, mouse.x, mouse.y)
    case None => reset
    case Some(t) => reset[t := reset[t].(item := MakeSelected(reset[t].item, mouse.wasClicked))]
  }

  /**
   * After an update exactly the pick under the mouse is selected; on a
   * click exactly the pick is clicked and last clicked; without a click
   * nothing is clicked and the last-clicked flags stay as they were.
   * Identities, positions and depths never change.
   */
  lemma UpdatedFlags(ws: seq<Entry<WidgetState>>, mouse: MouseInput, i: nat)
    requires i < |ws|
    ensures var r := Updated(ws, mouse); var top := TopWidget(ws, mouse.x, mouse.y);
      && r[i].id == ws[i].id && r[i].item.position == ws[i].item.position && r[i].item.depth == ws[i].item.depth
      && (r[i].item.isSelected <==> top == Some(i))
      && (mouse.wasClicked ==> (r[i].item.wasClicked <==> top == Some(i)) && (r[i].item.isLastClicked <==> top == Some(i)))
      && (!mouse.wasClicked ==> !r[i].item.wasClicked && r[i].item.isLastClicked == ws[i].item.isLastClicked)
  {
    UpdatedAt(ws, mouse, i);
  }

  /** One widget after an update: reset, and made selected when it is the pick. */
  lemma UpdatedAt(ws: seq<Entry<WidgetState>>, mouse: MouseInput, i: nat)
    requires i < |ws|
    ensures var reset := ResetState(ws[i].item, mouse.wasClicked);
      Updated(ws, mouse)[i] == ws[i].(item := if TopWidget(ws, mouse.x, mouse.y) == Some(i) then MakeSelected(reset, mouse.wasClicked) else reset)
  {
    TopWidgetSameGeometry(ResetAll(ws, mouse.wasClicked), ws, mouse.x, mouse.y);
  }

  /** After an update at most one widget is selected. */
  lemma UpdatedSelectsAtMostOne(ws: seq<Entry<WidgetState>>, mouse: MouseInput, i: nat, j: nat)
    requires i < j < |ws|
    ensures !(Updated(ws, mouse)[i].item.isSelected && Updated(ws, mouse)[j].item.isSelected)
  {
    UpdatedFlags(ws, mouse, i);
    UpdatedFlags(ws, mouse, j);
  }

  /** Widget::get_position on the list: the widget's position, or the zero rectangle once expired. */
  function PositionIn(ws: seq<Entry<WidgetState>>, w: int): Rect
  {
    match Find(ws, w)
    case None => ZeroRect
    case Some(k) => ws[k].item.position
  }

  /** Widget::set_position on the list: a live widget takes the position; an expired handle changes nothing. */
  function WithPosition(ws: seq<Entry<WidgetState>>, w: int, pos: Rect): (r: seq<Entry<WidgetState>>)
    ensures |r| == |ws| && forall j :: 0 <= j < |ws| ==> r[j].id == ws[j].id
  {
    match Find(ws, w)
    case None => ws
    case Some(k) => ws[k := ws[k].(item := ws[k].item.(position := pos))]
  }

  /** A live widget reads back the position it was given; an expired one still reads the zero rectangle. */
  lemma WithPositionReadBack(ws: seq<Entry<WidgetState>>, w: int, pos: Rect)
    requires DistinctIds(ws)
    ensures PositionIn(WithPosition(ws, w, pos), w) == if Find(ws, w).Some? then pos else ZeroRect
  {
    var k := Find(ws, w);
    if k.Some? {
      FindUnique(WithPosition(ws, w, pos), w, k.value);
    }
  }

  /** Setting one widget's position leaves every other widget's position as it was. */
  lemma WithPositionKeepsOthers(ws: seq<Entry<WidgetState>>, w: int, pos: Rect, other: int)
    requires DistinctIds(ws) && other != w
    ensures PositionIn(WithPosition(ws, w, pos), other) == PositionIn(ws, other)
  {
    var r := WithPosition(ws, w, pos);
    SameIdsFind(ws, r, other);
    var o := Find(ws, other);
    if o.Some? {
      FindUnique(r, other, o.value);
    }
  }

  /**
   * Widget::create_widget as written: it returns Widget(_ptr), a second
   * handle to the very widget it is called on, not a new widget.
   */
  function CreateWidgetAsWritten(w: int): int
  {
    w
  }

  /**
   * So moving the "created" widget moves the original: for every live
   * widget, setting the position through the returned handle changes what
   * the original handle reads, where a new widget would leave it alone.
   */
  lemma CreateWidgetAsWrittenAliases(ws: seq<Entry<WidgetState>>, w: int, pos: Rect)
    requires DistinctIds(ws) && Find(ws, w).Some?
    ensures PositionIn(WithPosition(ws, CreateWidgetAsWritten(w), pos), w) == pos
  {
    WithPositionReadBack(ws, w, pos);
  }

  /** WidgetManager: the list of widgets, and the identity the next created widget gets. */
  class WidgetManager {
    var widgets: seq<Entry<WidgetState>>
    var nextId: nat

    ghost predicate Valid()
      reads this
    {
      DistinctIds(widgets) && forall i :: 0 <= i < |widgets| ==> widgets[i].id < nextId
    }

    constructor ()
      ensures Valid() && widgets == []
    {
      widgets, nextId := [], 0;
    }

    /** create_widget: a default widget pushed at the back of the list. */
    method CreateWidget() returns (w: nat)
      requires Valid()
      modifies this
      ensures Valid() && widgets == old(widgets) + [Entry(w, NewWidget)]
      ensures Find(old(widgets), w).None?
    {
      w := nextId;
      widgets := widgets + [Entry(w, NewWidget)];
      nextId := nextId + 1;
    }

    /**
     * Widget::create_widget as its comment describes it: a new default
     * widget in the same list as w, pushed at the back; a null handle (-1)
     * when w has expired, as LayoutRect::create_new does.
     */
    method CreateWidgetFrom(w: int) returns (n: int)
      requires Valid()
      modifies this
      ensures Valid()
      ensures Find(old(widgets), w).None? ==> n == -1 && widgets == old(widgets)
      ensures Find(old(widgets), w).Some? ==>
        (n >= 0 && n != w && Find(old(widgets), n).None? && widgets == old(widgets) + [Entry(n, NewWidget)])
    {
      if Find(widgets, w).None? {
        return -1;
      }
      n := CreateWidget();
    }

    /** Widget::remove: the entry leaves the list and every handle to it expires. */
    method Remove(w: int)
      requires Valid()
      modifies this
      ensures Valid() && Find(widgets, w).None?
      ensures Find(old(widgets), w).None? ==> widgets == old(widgets)
      ensures Find(old(widgets), w).Some? ==> var k := Find(old(widgets), w).value;
        widgets == old(widgets)[..k] + old(widgets)[k + 1..]
    {
      var k := Find(widgets, w);
      if k.Some? {
        RemoveEntry(widgets, k.value);
        widgets := widgets[..k.value] + widgets[k.value + 1..];
      }
    }

    /** Widget::expired. */
    function Expired(w: int): bool
      reads this
    {
      Find(widgets, w).None?
    }

    /** Widget::get_position. */
    function GetPosition(w: int): Rect
      reads this
    {
      PositionIn(widgets, w)
    }

    /** Widget::is_selected, false once expired. */
    function IsSelected(w: int): (r: bool)
      reads this
      ensures r ==> Find(widgets, w).Some? && widgets[Find(widgets, w).value].item.isSelected
    {
      match Find(widgets, w)
      case None => false
      case Some(k) => widgets[k].item.isSelected
    }

    /** Widget::is_last_clicked_widget, false once expired. */
    function IsLastClickedWidget(w: int): (r: bool)
      reads this
      ensures r ==> Find(widgets, w).Some? && widgets[Find(widgets, w).value].item.isLastClicked
    {
      match Find(widgets, w)
      case None => false
      case Some(k) => widgets[k].item.isLastClicked
    }

    /** Widget::was_clicked, false once expired. */
    function WasClicked(w: int): (r: bool)
      reads this
      ensures r ==> Find(widgets, w).Some? && widgets[Find(widgets, w).value].item.wasClicked
    {
      match Find(widgets, w)
      case None => false
      case Some(k) => widgets[k].item.wasClicked
    }

    /** Widget::set_position. */
    method SetPosition(w: int, pos: Rect)
      requires Valid()
      modifies this
      ensures Valid() && widgets == WithPosition(old(widgets), w, pos)
    {
      var k := Find(widgets, w);
      if k.Some? {
        widgets := widgets[k.value := widgets[k.value].(item := widgets[k.value].item.(position := pos))];
      }
    }

    /** Widget::set_depth: writes a live widget's depth; an expired handle changes nothing. */
    method SetDepth(w: int, depth: real)
      requires Valid()
      modifies this
      ensures Valid()
      ensures Find(old(widgets), w).None? ==> widgets == old(widgets)
      ensures Find(old(widgets), w).Some? ==> var k := Find(old(widgets), w).value;
        widgets == old(widgets)[k := old(widgets)[k].(item := old(widgets)[k].item.(depth := depth))]
    {
      var k := Find(widgets, w);
      if k.Some? {
        ghost var ws := widgets;
        widgets := widgets[k.value := widgets[k.value].(item := widgets[k.value].item.(depth := depth))];
        assert forall j :: 0 <= j < |widgets| ==> widgets[j].id == ws[j].id;
      }
    }

    /**
     * update: resets every widget, then makes the widget the mouse picks
     * selected (and clicked on a click).
     */
    method Update(mouse: MouseInput)
      requires Valid()
      modifies this
      ensures Valid() && widgets == Updated(old(widgets), mouse)
    {
      var reset := ResetWidgetStates(widgets, mouse);
      var selected := SelectedWidget(reset, mouse);
      if selected.Some? {
        var t := selected.value;
        reset := reset[t := reset[t].(item := MakeSelected(reset[t].item, mouse.wasClicked))];
      }
      widgets := reset;
    }

    /**
     * get_selected_subwidget / get_last_clicked_subwidget: the index path
     * to the first flagged sub-layout, looking at the direct sub-layouts
     * first and then, in order, inside each of them.
     */
    method GetFlaggedSubwidget(n: LayoutRectWidget, flag: WidgetFlag) returns (path: seq<nat>)
      ensures path == SubwidgetPath(widgets, n, flag)
      decreases n
    {
      var i := 0;
      while i < |n.subLayouts|
        invariant 0 <= i <= |n.subLayouts|
        invariant FirstFlagged(widgets, n.subLayouts, 0, flag) == FirstFlagged(widgets, n.subLayouts, i, flag)
      {
        if Flagged(widgets, n.subLayouts[i].widget, flag) {
          return [i];
        }
        i := i + 1;
      }
      i := 0;
      while i < |n.subLayouts|
        invariant 0 <= i <= |n.subLayouts|
        invariant FirstPathFrom(widgets, n, 0, flag) == FirstPathFrom(widgets, n, i, flag)
      {
        var sub := GetFlaggedSubwidget(n.subLayouts[i], flag);
        if |sub| > 0 {
          return [i] + sub;
        }
        i := i + 1;
      }
      return [];
    }
  }

  /** Removing an entry from a list with distinct identities keeps the others and drops its identity. */
  lemma RemoveEntry<T>(ws: seq<Entry<T>>, i: nat)
    requires DistinctIds(ws) && i < |ws|
    ensures var r := ws[..i] + ws[i + 1..];
      DistinctIds(r) && (forall j :: 0 <= j < |r| ==> r[j].id != ws[i].id)
      && forall j :: 0 <= j < |r| ==> r[j] == if j < i then ws[j] else ws[j + 1]
  {
    var r := ws[..i] + ws[i + 1..];
    assert forall j :: 0 <= j < |r| ==> r[j] == if j < i then ws[j] else ws[j + 1];
  }

  /** _reset_widget_states: the loop over the list. */
  method ResetWidgetStates(ws: seq<Entry<WidgetState>>, mouse: MouseInput) returns (reset: seq<Entry<WidgetState>>)
    ensures reset == ResetAll(ws, mouse.wasClicked)
  {
    reset := ws;
    var i := 0;
    while i < |reset|
      invariant 0 <= i <= |reset| && |reset| == |ws|
      invariant forall j :: 0 <= j < |ws| ==> reset[j] == if j < i then ws[j].(item := ResetState(ws[j].item, mouse.wasClicked)) else ws[j]
    {
      reset := reset[i := reset[i].(item := ResetState(reset[i].item, mouse.wasClicked))];
      i := i + 1;
    }
  }

  /** _update_selected_widget's scan: the widget under the mouse of strictly least depth, earliest first. */
  method SelectedWidget(ws: seq<Entry<WidgetState>>, mouse: MouseInput) returns (selected: Option<nat>)
    ensures selected == TopWidget(ws, mouse.x, mouse.y)
  {
    selected := None;
    var i := 0;
    while i < |ws|
      invariant 0 <= i <= |ws|
      invariant selected == TopWidget(ws[..i], mouse.x, mouse.y)
    {
      assert ws[..i + 1][..i] == ws[..i];
      if UnderMouse(ws[i].item, mouse.x, mouse.y) && (selected.None? || ws[i].item.depth < ws[selected.value].item.depth) {
        selected := Some(i);
      }
      i := i + 1;
    }
    assert ws[..i] == ws;
  }

  // ---- layout rectangles ----

  /** _LayoutRect: its position and the handle of the rectangle of the entire window. */
  datatype LayoutRectState = LayoutRectState(position: Rect, entireWindow: int)

  /** The notifications a layout rectangle sends to its update object. */
  datatype LayoutEvent = Moved(id: nat) | ScreenResized(id: nat) | Removed(id: nat)

  /** LayoutRect::get_position: the zero rectangle once expired. */
  function PositionOf(rs: seq<Entry<LayoutRectState>>, id: int): Rect
  {
    match Find(rs, id)
    case None => ZeroRect
    case Some(k) => rs[k].item.position
  }

  /**
   * LayoutRect::set_position on the list and the event log: a live
   * rectangle whose position differs takes the new one and notifies its
   * update object; otherwise nothing happens.
   */
  function SetPositionOn(rs: seq<Entry<LayoutRectState>>, events: seq<LayoutEvent>, id: int, pos: Rect): (seq<Entry<LayoutRectState>>, seq<LayoutEvent>)
  {
    match Find(rs, id)
    case None => (rs, events)
    case Some(k) =>
      if rs[k].item.position == pos then (rs, events)
      else (rs[k := rs[k].(item := rs[k].item.(position := pos))], events + [Moved(rs[k].id)])
  }

  /** Setting a position twice notifies once: the second call changes nothing. */
  lemma SetPositionIdempotent(rs: seq<Entry<LayoutRectState>>, events: seq<LayoutEvent>, id: int, pos: Rect)
    requires DistinctIds(rs)
    ensures var (rs1, ev1) := SetPositionOn(rs, events, id, pos);
      SetPositionOn(rs1, ev1, id, pos) == (rs1, ev1)
  {
    var (rs1, ev1) := SetPositionOn(rs, events, id, pos);
    var k := Find(rs, id);
    if k.Some? {
      assert forall j :: 0 <= j < |rs1| ==> rs1[j].id == rs[j].id;
      FindUnique(rs1, id, k.value);
    }
  }

  /** A live rectangle reads back the position it was set to. */
  lemma SetPositionReadBack(rs: seq<Entry<LayoutRectState>>, events: seq<LayoutEvent>, id: int, pos: Rect)
    requires DistinctIds(rs) && Find(rs, id).Some?
    ensures PositionOf(SetPositionOn(rs, events, id, pos).0, id) == pos
  {
    var k := Find(rs, id).value;
    var rs1 := SetPositionOn(rs, events, id, pos).0;
    assert forall j :: 0 <= j < |rs1| ==> rs1[j].id == rs[j].id;
    FindUnique(rs1, id, k);
  }

  /** Setting one rectangle's position leaves every other rectangle's position as it was. */
  lemma SetPositionKeepsOthers(rs: seq<Entry<LayoutRectState>>, events: seq<LayoutEvent>, id: int, pos: Rect, other: int)
    requires DistinctIds(rs) && other != id
    ensures PositionOf(SetPositionOn(rs, events, id, pos).0, other) == PositionOf(rs, other)
  {
    var rs1 := SetPositionOn(rs, events, id, pos).0;
    assert forall j :: 0 <= j < |rs1| ==> rs1[j].id == rs[j].id;
    SameIdsFind(rs, rs1, other);
    var o := Find(rs, other);
    if o.Some? {
      FindUnique(rs1, other, o.value);
    }
  }

  /** The ScreenResized notifications set_screen_size sends, in list order. */
  function ScreenEvents(rs: seq<Entry<LayoutRectState>>): (r: seq<LayoutEvent>)
    ensures |r| == |rs| && forall j :: 0 <= j < |rs| ==> r[j] == ScreenResized(rs[j].id)
  {
    seq(|rs|, j requires 0 <= j < |rs| => ScreenResized(rs[j].id))
  }

  /** Applies set_position to each (rectangle, position) pair in order. */
  function SetPositionsOn(rs: seq<Entry<LayoutRectState>>, events: seq<LayoutEvent>, ids: seq<int>, positions: seq<Rect>): (r: (seq<Entry<LayoutRectState>>, seq<LayoutEvent>))
    requires |ids| == |positions|
    ensures |r.0| == |rs| && forall j :: 0 <= j < |rs| ==> r.0[j].id == rs[j].id && r.0[j].item.entireWindow == rs[j].item.entireWindow
  {
    if |ids| == 0 then (rs, events)
    else
      var (rs1, ev1) := SetPositionsOn(rs, events, ids[..|ids| - 1], positions[..|ids| - 1]);
      SetPositionOn(rs1, ev1, ids[|ids| - 1], positions[|ids| - 1])
  }

  /** When the rectangles are distinct and live, each ends at the position given for it. */
  lemma {:induction false} SetPositionsLand(rs: seq<Entry<LayoutRectState>>, events: seq<LayoutEvent>, ids: seq<int>, positions: seq<Rect>, i: nat)
    requires |ids| == |positions| && DistinctIds(rs) && i < |ids|
    requires forall j :: 0 <= j < |ids| ==> Find(rs, ids[j]).Some?
    requires forall j, k :: 0 <= j < k < |ids| ==> ids[j] != ids[k]
    ensures PositionOf(SetPositionsOn(rs, events, ids, positions).0, ids[i]) == positions[i]
  {
    var n := |ids| - 1;
    var (rs1, ev1) := SetPositionsOn(rs, events, ids[..n], positions[..n]);
    assert DistinctIds(rs1) by {
      assert forall j :: 0 <= j < |rs1| ==> rs1[j].id == rs[j].id;
    }
    SameIdsFind(rs, rs1, ids[n]);
    if i == n {
      SetPositionReadBack(rs1, ev1, ids[n], positions[n]);
    } else {
      SetPositionsLand(rs, events, ids[..n], positions[..n], i);
      SetPositionKeepsOthers(rs1, ev1, ids[n], positions[n], ids[i]);
    }
  }

  /** Lists with the same identities find the same entries. */
  lemma {:induction false} SameIdsFind<T>(rs: seq<Entry<T>>, qs: seq<Entry<T>>, id: int)
    requires |rs| == |qs| && forall j :: 0 <= j < |rs| ==> rs[j].id == qs[j].id
    ensures Find(rs, id) == Find(qs, id)
  {
    if |rs| > 0 {
      SameIdsFind(rs[..|rs| - 1], qs[..|qs| - 1], id);
    }
  }

  // ---- size split ----

  /** _SizeSplitElement: the layout it places and the size it asks for. */
  datatype SizeSplitElement = SizeSplitElement(layout: int, height: int, width: int)

  /**
   * _SizeSplit::update from position pos on: each element gets the asked
   * size at pos, clipped to the parent, and the next one starts after the
   * clipped size along the split axis.
   */
  function SplitFrom(parent: Rect, pos: Rect, elements: seq<SizeSplitElement>, horizontal: bool): (r: seq<Rect>)
    ensures |r| == |elements|
    decreases |elements|
  {
    if |elements| == 0 then []
    else
      var placed := CutRectToFit(pos.(w := elements[0].width, h := elements[0].height), parent);
      var next := if horizontal then placed.(x := placed.x + placed.w) else placed.(y := placed.y + placed.h);
      [placed] + SplitFrom(parent, next, elements[1..], horizontal)
  }

  predicate NonNegativeSizes(elements: seq<SizeSplitElement>)
  {
    forall j :: 0 <= j < |elements| ==> elements[j].width >= 0 && elements[j].height >= 0
  }

  /**
   * With sizes that are not negative the elements tile the parent along
   * the split axis: each lies inside the parent, spans the parent's other
   * edge as far as it reaches, and starts where the one before it ends.
   */
  lemma {:induction false} SplitFromTiles(parent: Rect, pos: Rect, elements: seq<SizeSplitElement>, horizontal: bool)
    requires NonNegativeSizes(elements) && parent.w >= 0 && parent.h >= 0
    requires horizontal ==> parent.MinX() <= pos.x <= parent.MaxX() && pos.y == parent.y
    requires !horizontal ==> parent.MinY() <= pos.y <= parent.MaxY() && pos.x == parent.x
    ensures var r := SplitFrom(parent, pos, elements, horizontal);
      (forall j :: 0 <= j < |r| ==> Contains(parent, r[j]))
      && (|r| > 0 ==> (if horizontal then r[0].x == pos.x else r[0].y == pos.y))
      && (forall j :: 0 <= j < |r| - 1 ==> if horizontal then r[j + 1].MinX() == r[j].MaxX() else r[j + 1].MinY() == r[j].MaxY())
    decreases |elements|
  {
    if |elements| > 0 {
      var placed := CutRectToFit(pos.(w := elements[0].width, h := elements[0].height), parent);
      var next := if horizontal then placed.(x := placed.x + placed.w) else placed.(y := placed.y + placed.h);
      SplitFromTiles(parent, next, elements[1..], horizontal);
      var r := SplitFrom(parent, pos, elements, horizontal);
      var rest := SplitFrom(parent, next, elements[1..], horizontal);
      assert r == [placed] + rest;
      assert forall j :: 1 <= j < |r| ==> r[j] == rest[j - 1];
    }
  }

  /** _SizeSplit: the layout it splits, its elements and the split axis. */
  datatype SizeSplit = SizeSplit(layout: int, elements: seq<SizeSplitElement>, splitHorizontal: bool)

  function LayoutsOf(elements: seq<SizeSplitElement>): (r: seq<int>)
    ensures |r| == |elements| && forall j :: 0 <= j < |elements| ==> r[j] == elements[j].layout
  {
    seq(|elements|, j requires 0 <= j < |elements| => elements[j].layout)
  }

  // ---- layout rectangle manager ----

  /** LayoutRectManager: the list of layout rectangles, one of them the entire screen. */
  class LayoutRectManager {
    var rects: seq<Entry<LayoutRectState>>
    var nextId: nat
    var events: seq<LayoutEvent>
    const entireScreenRect: nat

    ghost predicate Valid()
      reads this
    {
      DistinctIds(rects) && forall i :: 0 <= i < |rects| ==> rects[i].id < nextId
    }

    /** The constructor: one rectangle, the entire screen, which is its own entire window. */
    constructor ()
      ensures Valid() && rects == [Entry(entireScreenRect, LayoutRectState(ZeroRect, entireScreenRect))] && events == []
    {
      entireScreenRect := 0;
      rects := [Entry(0, LayoutRectState(ZeroRect, 0))];
      nextId := 1;
      events := [];
    }

    /** LayoutRect::get_position. */
    function GetPosition(r: int): Rect
      reads this
    {
      PositionOf(rects, r)
    }

    /** LayoutRect::entire_window: the handle of the entire window, a null handle (-1) once expired. */
    function EntireWindow(r: int): (e: int)
      reads this
      ensures Find(rects, r).None? ==> e == -1
    {
      match Find(rects, r)
      case None => -1
      case Some(k) => rects[k].item.entireWindow
    }

    /** LayoutRect::create_new: a new rectangle in the same list sharing the entire window; a null handle when expired. */
    method CreateNew(r: int) returns (n: int)
      requires Valid()
      modifies this
      ensures Valid() && events == old(events)
      ensures Find(old(rects), r).None? ==> n == -1 && rects == old(rects)
      ensures Find(old(rects), r).Some? ==>
        (n >= 0 && Find(old(rects), n).None?
         && rects == old(rects) + [Entry(n, LayoutRectState(ZeroRect, old(rects)[Find(old(rects), r).value].item.entireWindow))])
    {
      var k := Find(rects, r);
      if k.None? {
        return -1;
      }
      n := nextId;
      rects := rects + [Entry(n, LayoutRectState(ZeroRect, rects[k.value].item.entireWindow))];
      nextId := nextId + 1;
    }

    /** LayoutRect::remove: the entry leaves the list and its update object hears of it. */
    method Remove(r: int)
      requires Valid()
      modifies this
      ensures Valid() && Find(rects, r).None?
      ensures Find(old(rects), r).None? ==> rects == old(rects) && events == old(events)
      ensures Find(old(rects), r).Some? ==> var k := Find(old(rects), r).value;
        rects == old(rects)[..k] + old(rects)[k + 1..] && events == old(events) + [Removed(old(rects)[k].id)]
    {
      var k := Find(rects, r);
      if k.Some? {
        RemoveEntry(rects, k.value);
        events := events + [Removed(rects[k.value].id)];
        rects := rects[..k.value] + rects[k.value + 1..];
      }
    }

    /** LayoutRect::set_position: a changed position is stored and announced; anything else is a no-op. */
    method SetPosition(r: int, pos: Rect)
      requires Valid()
      modifies this
      ensures Valid()
      ensures rects == SetPositionOn(old(rects), old(events), r, pos).0
      ensures events == SetPositionOn(old(rects), old(events), r, pos).1
    {
      var k := Find(rects, r);
      if k.Some? && rects[k.value].item.position != pos {
        var i := k.value;
        events := events + [Moved(rects[i].id)];
        rects := rects[i := rects[i].(item := rects[i].item.(position := pos))];
        assert forall j :: 0 <= j < |rects| ==> rects[j].id == old(rects[j].id);
      }
    }

    /**
     * set_screen_size: when the screen rectangle is not already (0, 0, w, h)
     * it is moved there and every rectangle in the list hears of the new
     * screen size; otherwise nothing happens.
     */
    method SetScreenSize(w: int, h: int)
      requires Valid()
      modifies this
      ensures Valid()
      ensures old(GetPosition(entireScreenRect)) == Rect(0, 0, w, h) ==> rects == old(rects) && events == old(events)
      ensures old(GetPosition(entireScreenRect)) != Rect(0, 0, w, h) ==>
        var (rs, ev) := SetPositionOn(old(rects), old(events), entireScreenRect, Rect(0, 0, w, h));
        rects == rs && events == ev + ScreenEvents(rs)
      ensures Find(old(rects), entireScreenRect).Some? ==> GetPosition(entireScreenRect) == Rect(0, 0, w, h)
    {
      if GetPosition(entireScreenRect) != Rect(0, 0, w, h) {
        SetPosition(entireScreenRect, Rect(0, 0, w, h));
        ghost var ev := events;
        ghost var rs := rects;
        var i := 0;
        while i < |rects|
          invariant 0 <= i <= |rects| && rects == rs && Valid()
          invariant events == ev + ScreenEvents(rects[..i])
        {
          assert ScreenEvents(rects[..i + 1]) == ScreenEvents(rects[..i]) + [ScreenResized(rects[i].id)];
          events := events + [ScreenResized(rects[i].id)];
          i := i + 1;
        }
        assert rects[..i] == rects;
        if Find(old(rects), entireScreenRect).Some? {
          SetPositionReadBack(old(rects), old(events), entireScreenRect, Rect(0, 0, w, h));
        }
      }
    }

    /**
     * _SizeSplit::update: places the split's elements one after another
     * inside the split layout's position, each through set_position.
     */
    method UpdateSizeSplit(split: SizeSplit)
      requires Valid()
      modifies this
      ensures Valid()
      ensures var placed := SplitFrom(old(GetPosition(split.layout)), old(GetPosition(split.layout)), split.elements, split.splitHorizontal);
        rects == SetPositionsOn(old(rects), old(events), LayoutsOf(split.elements), placed).0
        && events == SetPositionsOn(old(rects), old(events), LayoutsOf(split.elements), placed).1
    {
      var layoutPos := GetPosition(split.layout);
      PlaceSplit(split.elements, layoutPos, split.splitHorizontal);
    }

    /** The loop of _SizeSplit::update: each element in turn is cut to the layout and placed after the previous one. */
    method PlaceSplit(elements: seq<SizeSplitElement>, layoutPos: Rect, horizontal: bool)
      requires Valid()
      modifies this
      ensures Valid()
      ensures rects == SetPositionsOn(old(rects), old(events), LayoutsOf(elements), SplitFrom(layoutPos, layoutPos, elements, horizontal)).0
      ensures events == SetPositionsOn(old(rects), old(events), LayoutsOf(elements), SplitFrom(layoutPos, layoutPos, elements, horizontal)).1
    {
      ghost var rs0, ev0 := rects, events;
      ghost var placed := SplitFrom(layoutPos, layoutPos, elements, horizontal);
      ghost var ids := LayoutsOf(elements);
      var pos := layoutPos;
      var i := 0;
      while i < |elements|
        invariant 0 <= i <= |elements| && Valid()
        invariant rects == SetPositionsOn(rs0, ev0, ids[..i], placed[..i]).0
        invariant events == SetPositionsOn(rs0, ev0, ids[..i], placed[..i]).1
        invariant placed[i..] == SplitFrom(layoutPos, pos, elements[i..], horizontal)
      {
        var cut := CutRectToFit(pos.(w := elements[i].width, h := elements[i].height), layoutPos);
        var next := if horizontal then cut.(x := cut.x + cut.w) else cut.(y := cut.y + cut.h);
        SplitFromStep(placed, layoutPos, pos, elements, i, horizontal, cut, next);
        SetNextPosition(rs0, ev0, ids, placed, i, elements[i].layout, cut);
        pos := next;
        i := i + 1;
      }
      assert ids[..i] == ids && placed[..i] == placed;
    }

    /** One iteration of the set_position loop: the next rectangle is moved to its next position. */
    method SetNextPosition(ghost rs: seq<Entry<LayoutRectState>>, ghost ev: seq<LayoutEvent>, ghost ids: seq<int>, ghost positions: seq<Rect>,
                           ghost i: nat, id: int, pos: Rect)
      requires Valid() && |ids| == |positions| && i < |ids| && id == ids[i] && pos == positions[i]
      requires rects == SetPositionsOn(rs, ev, ids[..i], positions[..i]).0
      requires events == SetPositionsOn(rs, ev, ids[..i], positions[..i]).1
      modifies this
      ensures Valid()
      ensures rects == SetPositionsOn(rs, ev, ids[..i + 1], positions[..i + 1]).0
      ensures events == SetPositionsOn(rs, ev, ids[..i + 1], positions[..i + 1]).1
    {
      SetPositionsStep(rs, ev, ids, positions, i);
      SetPosition(id, pos);
    }
  }

  /** One step of SplitFrom, as the loop of _SizeSplit::update takes it. */
  lemma SplitFromStep(placed: seq<Rect>, parent: Rect, pos: Rect, elements: seq<SizeSplitElement>, i: nat, horizontal: bool, cut: Rect, next: Rect)
    requires i < |elements| == |placed| && placed[i..] == SplitFrom(parent, pos, elements[i..], horizontal)
    requires cut == CutRectToFit(pos.(w := elements[i].width, h := elements[i].height), parent)
    requires next == if horizontal then cut.(x := cut.x + cut.w) else cut.(y := cut.y + cut.h)
    ensures placed[i] == cut && placed[i + 1..] == SplitFrom(parent, next, elements[i + 1..], horizontal)
  {
    assert elements[i..][1..] == elements[i + 1..];
    assert placed[i] == placed[i..][0];
    assert placed[i + 1..] == placed[i..][1..];
  }

  /** One step of SetPositionsOn, as a loop over the pairs takes it. */
  lemma SetPositionsStep(rs: seq<Entry<LayoutRectState>>, events: seq<LayoutEvent>, ids: seq<int>, positions: seq<Rect>, i: nat)
    requires |ids| == |positions| && i < |ids|
    ensures var before := SetPositionsOn(rs, events, ids[..i], positions[..i]);
      SetPositionsOn(rs, events, ids[..i + 1], positions[..i + 1]) == SetPositionOn(before.0, before.1, ids[i], positions[i])
  {
    assert ids[..i + 1][..i] == ids[..i] && positions[..i + 1][..i] == positions[..i];
  }

  // ---- layout rectangle widgets ----

  /** A LayoutRectWidget as its sub-layout search sees it: the handle of its widget and its sub-layouts. */
  datatype LayoutRectWidget = LayoutRectWidget(widget: int, subLayouts: seq<LayoutRectWidget>)

  /** Which flag a sub-layout search looks for. */
  datatype WidgetFlag = SelectedFlag | LastClickedFlag

  /** is_selected / is_last_clicked_widget of a widget handle: false once expired (or never enabled). */
  function Flagged(ws: seq<Entry<WidgetState>>, w: int, flag: WidgetFlag): bool
  {
    match Find(ws, w)
    case None => false
    case Some(k) => if flag.SelectedFlag? then ws[k].item.isSelected else ws[k].item.isLastClicked
  }

  /** The first of subs[i..] whose widget is flagged. */
  function FirstFlagged(ws: seq<Entry<WidgetState>>, subs: seq<LayoutRectWidget>, i: nat, flag: WidgetFlag): (r: Option<nat>)
    ensures r.Some? ==> i <= r.value < |subs| && Flagged(ws, subs[r.value].widget, flag)
    decreases |subs| - i
  {
    if i >= |subs| then None
    else if Flagged(ws, subs[i].widget, flag) then Some(i)
    else FirstFlagged(ws, subs, i + 1, flag)
  }

  /** The sub-layout search of one layout rectangle widget, as an index path ([] when nothing is flagged). */
  function SubwidgetPath(ws: seq<Entry<WidgetState>>, n: LayoutRectWidget, flag: WidgetFlag): seq<nat>
    decreases n, 1, 0
  {
    match FirstFlagged(ws, n.subLayouts, 0, flag)
    case Some(i) => [i]
    case None => FirstPathFrom(ws, n, 0, flag)
  }

  /** The second loop: the first sub-layout from i on whose own search finds something. */
  function FirstPathFrom(ws: seq<Entry<WidgetState>>, n: LayoutRectWidget, i: nat, flag: WidgetFlag): seq<nat>
    decreases n, 0, |n.subLayouts| - i
  {
    if i >= |n.subLayouts| then []
    else
      var sub := SubwidgetPath(ws, n.subLayouts[i], flag);
      if |sub| > 0 then [i] + sub else FirstPathFrom(ws, n, i + 1, flag)
  }

  /** The layout rectangle widget an index path leads to. */
  function Descend(n: LayoutRectWidget, path: seq<nat>): Option<LayoutRectWidget>
    decreases |path|
  {
    if |path| == 0 then Some(n)
    else if path[0] < |n.subLayouts| then Descend(n.subLayouts[path[0]], path[1..])
    else None
  }

  /** Some sub-layout at any depth below n has its widget flagged. */
  predicate AnyFlaggedBelow(ws: seq<Entry<WidgetState>>, n: LayoutRectWidget, flag: WidgetFlag)
    decreases n
  {
    exists i :: 0 <= i < |n.subLayouts| && (Flagged(ws, n.subLayouts[i].widget, flag) || AnyFlaggedBelow(ws, n.subLayouts[i], flag))
  }

  /**
   * The search is sound and complete: a non-empty path leads to a flagged
   * sub-layout, and the path is empty only when nothing below is flagged.
   */
  lemma {:induction false} SubwidgetPathFinds(ws: seq<Entry<WidgetState>>, n: LayoutRectWidget, flag: WidgetFlag)
    ensures var p := SubwidgetPath(ws, n, flag);
      (|p| > 0 ==> Descend(n, p).Some? && Flagged(ws, Descend(n, p).value.widget, flag))
      && (|p| == 0 <==> !AnyFlaggedBelow(ws, n, flag))
    decreases n, 1
  {
    var p := SubwidgetPath(ws, n, flag);
    var first := FirstFlagged(ws, n.subLayouts, 0, flag);
    if first.Some? {
      assert Descend(n, p) == Descend(n.subLayouts[first.value], []);
    } else {
      NoneFlaggedFrom(ws, n.subLayouts, 0, flag);
      FirstPathFromFinds(ws, n, 0, flag);
    }
  }

  lemma {:induction false} NoneFlaggedFrom(ws: seq<Entry<WidgetState>>, subs: seq<LayoutRectWidget>, i: nat, flag: WidgetFlag)
    requires FirstFlagged(ws, subs, i, flag).None?
    ensures forall j :: i <= j < |subs| ==> !Flagged(ws, subs[j].widget, flag)
    decreases |subs| - i
  {
    if i < |subs| {
      NoneFlaggedFrom(ws, subs, i + 1, flag);
    }
  }

  lemma {:induction false} FirstPathFromFinds(ws: seq<Entry<WidgetState>>, n: LayoutRectWidget, i: nat, flag: WidgetFlag)
    requires forall j :: 0 <= j < |n.subLayouts| ==> !Flagged(ws, n.subLayouts[j].widget, flag)
    ensures var p := FirstPathFrom(ws, n, i, flag);
      (|p| > 0 ==> Descend(n, p).Some? && Flagged(ws, Descend(n, p).value.widget, flag))
      && (|p| == 0 <==> forall j :: i <= j < |n.subLayouts| ==> !AnyFlaggedBelow(ws, n.subLayouts[j], flag))
    decreases n, 0, |n.subLayouts| - i
  {
    if i < |n.subLayouts| {
      var sub := SubwidgetPath(ws, n.subLayouts[i], flag);
      SubwidgetPathFinds(ws, n.subLayouts[i], flag);
      var p := FirstPathFrom(ws, n, i, flag);
      if |sub| > 0 {
        assert p == [i] + sub && p[1..] == sub;
      } else {
        FirstPathFromFinds(ws, n, i + 1, flag);
      }
    }
  }
}
