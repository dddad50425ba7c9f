/**
 * The legacy recursive WindowLayout: a window holds a weight, a split
 * direction, its computed position and a vector of subwindows, each a
 * WindowLayout by value. Windows are found by instance id, depth first;
 * the children of a window tile it along its split axis in proportion to
 * their weights. Positions are doubles in the source and exact reals here.
 */
module WindowTree {
  import opened Wrappers
  import opened Vectors

  /** RectT<double>. */
  datatype Rect = Rect(x: real, y: real, w: real, h: real)

  const ZeroRect: Rect := Rect(0.0, 0.0, 0.0, 0.0)

  /** One WindowLayout: its instance id, weight, split direction, subwindows and position. */
  datatype Window = Window(id: int, weight: real, horizontal: bool, subwindows: seq<Window>, pos: Rect)

  /** A freshly constructed WindowLayout given the weight and split direction add_subwindow sets. */
  function NewWindow(id: int, weight: real, horizontal: bool): Window
  {
    Window(id, weight, horizontal, [], ZeroRect)
  }

  // ---- ids ----

  /** The ids of a window and all its descendants. */
  function Ids(w: Window): set<int>
    decreases w, 1, 0
  {
    {w.id} + ChildIds(w, 0)
  }

  /** The ids in the subtrees of the subwindows from index i on. */
  function ChildIds(w: Window, i: nat): set<int>
    decreases w, 0, |w.subwindows| - i
  {
    if i >= |w.subwindows| then {} else Ids(w.subwindows[i]) + ChildIds(w, i + 1)
  }

  lemma {:induction false} ChildIdsMembers(w: Window, i: nat, x: int)
    ensures x in ChildIds(w, i) <==> exists j :: i <= j < |w.subwindows| && x in Ids(w.subwindows[j])
    decreases |w.subwindows| - i
  {
    if i < |w.subwindows| {
      ChildIdsMembers(w, i + 1, x);
    }
  }

  /** No id occurs twice in the tree. */
  predicate UniqueIds(w: Window)
  {
    && w.id !in ChildIds(w, 0)
    && (forall i, j :: 0 <= i < j < |w.subwindows| ==> Ids(w.subwindows[i]) !! Ids(w.subwindows[j]))
    && (forall i :: 0 <= i < |w.subwindows| ==> UniqueIds(w.subwindows[i]))
  }

  // ---- depth-first search ----

  /** Some window of the tree, the root included, satisfies p. */
  predicate AnyNode(w: Window, p: Window -> bool)
    decreases w, 1, 0
  {
    p(w) || AnyChild(w, p, 0)
  }

  predicate AnyChild(w: Window, p: Window -> bool, i: nat)
    decreases w, 0, |w.subwindows| - i
  {
    i < |w.subwindows| && (AnyNode(w.subwindows[i], p) || AnyChild(w, p, i + 1))
  }

  /**
   * The recursion every WindowLayout operation shares: act on this window
   * if it matches, otherwise ask the subwindows in order and stop at the
   * first that reports success. The flag is the success report.
   */
  function ModifyFirst(w: Window, p: Window -> bool, f: Window -> Window): (Window, bool)
    decreases w, 1, 0
  {
    if p(w) then (f(w), true) else ModifyChild(w, p, f, 0)
  }

  function ModifyChild(w: Window, p: Window -> bool, f: Window -> Window, i: nat): (Window, bool)
    decreases w, 0, |w.subwindows| - i
  {
    if i >= |w.subwindows| then (w, false)
    else
      var (c, found) := ModifyFirst(w.subwindows[i], p, f);
      if found then (w.(subwindows := w.subwindows[i := c]), true)
      else ModifyChild(w, p, f, i + 1)
  }

  /** The search succeeds iff some window matches; when it fails nothing changes. */
  lemma {:induction false} ModifyFirstFound(w: Window, p: Window -> bool, f: Window -> Window)
    ensures ModifyFirst(w, p, f).1 <==> AnyNode(w, p)
    ensures !ModifyFirst(w, p, f).1 ==> ModifyFirst(w, p, f).0 == w
    decreases w, 1, 0
  {
    if !p(w) {
      ModifyChildFound(w, p, f, 0);
    }
  }

  lemma {:induction false} ModifyChildFound(w: Window, p: Window -> bool, f: Window -> Window, i: nat)
    ensures ModifyChild(w, p, f, i).1 <==> AnyChild(w, p, i)
    ensures !ModifyChild(w, p, f, i).1 ==> ModifyChild(w, p, f, i).0 == w
    decreases w, 0, |w.subwindows| - i
  {
    if i < |w.subwindows| {
      ModifyFirstFound(w.subwindows[i], p, f);
      ModifyChildFound(w, p, f, i + 1);
    }
  }

  /** A window with id x. */
  function IdIs(x: int): Window -> bool
  {
    (n: Window) => n.id == x
  }

  /** Some window of the tree has id x exactly when x is one of its ids. */
  lemma {:induction false} AnyNodeIdIs(w: Window, x: int)
    ensures AnyNode(w, IdIs(x)) <==> x in Ids(w)
    decreases w, 1, 0
  {
    AnyChildIdIs(w, x, 0);
  }

  lemma {:induction false} AnyChildIdIs(w: Window, x: int, i: nat)
    ensures AnyChild(w, IdIs(x), i) <==> x in ChildIds(w, i)
    decreases w, 0, |w.subwindows| - i
  {
    if i < |w.subwindows| {
      AnyNodeIdIs(w.subwindows[i], x);
      AnyChildIdIs(w, x, i + 1);
    }
  }

  // ---- ids under the search ----

  /** Replacing one subwindow by one with the ids S added adds S to the subwindows' ids. */
  lemma {:induction false} ChildIdsReplaceAdds(w: Window, i: nat, c: Window, S: set<int>, k: nat)
    requires i < |w.subwindows| && Ids(c) == Ids(w.subwindows[i]) + S
    ensures ChildIds(w.(subwindows := w.subwindows[i := c]), k) == ChildIds(w, k) + (if k <= i then S else {})
    decreases |w.subwindows| - k
  {
    if k < |w.subwindows| {
      ChildIdsReplaceAdds(w, i, c, S, k + 1);
    }
  }

  /** Replacing one subwindow by one whose ids lie within its own plus S keeps the subwindows' ids within theirs plus S. */
  lemma {:induction false} ChildIdsReplaceWithin(w: Window, i: nat, c: Window, S: set<int>, k: nat)
    requires i < |w.subwindows| && Ids(c) <= Ids(w.subwindows[i]) + S
    ensures ChildIds(w.(subwindows := w.subwindows[i := c]), k) <= ChildIds(w, k) + S
    decreases |w.subwindows| - k
  {
    if k < |w.subwindows| {
      ChildIdsReplaceWithin(w, i, c, S, k + 1);
    }
  }

  /** When the matched window gains exactly the ids S, so does the tree. */
  lemma {:induction false} ModifyFirstIds(w: Window, p: Window -> bool, f: Window -> Window, S: set<int>)
    requires forall n :: p(n) ==> Ids(f(n)) == Ids(n) + S
    ensures Ids(ModifyFirst(w, p, f).0) == Ids(w) + (if ModifyFirst(w, p, f).1 then S else {})
    decreases w, 1, 0
  {
    if !p(w) {
      ModifyChildIds(w, p, f, S, 0);
    }
  }

  lemma {:induction false} ModifyChildIds(w: Window, p: Window -> bool, f: Window -> Window, S: set<int>, i: nat)
    requires forall n :: p(n) ==> Ids(f(n)) == Ids(n) + S
    ensures Ids(ModifyChild(w, p, f, i).0) == Ids(w) + (if ModifyChild(w, p, f, i).1 then S else {})
    decreases w, 0, |w.subwindows| - i
  {
    if i < |w.subwindows| {
      var (c, found) := ModifyFirst(w.subwindows[i], p, f);
      ModifyFirstIds(w.subwindows[i], p, f, S);
      if found {
        ChildIdsReplaceAdds(w, i, c, S, 0);
      } else {
        ModifyChildIds(w, p, f, S, i + 1);
      }
    }
  }

  /** A subwindow's ids are ids of the window. */
  lemma SubwindowIds(w: Window, i: nat)
    requires i < |w.subwindows|
    ensures Ids(w.subwindows[i]) <= Ids(w)
  {
    forall x | x in Ids(w.subwindows[i])
      ensures x in ChildIds(w, 0)
    {
      ChildIdsMembers(w, 0, x);
    }
  }

  /**
   * Ids stay unique when the matched window keeps its ids unique and
   * gains only ids from S, a set of ids the tree does not use.
   */
  lemma {:induction false} ModifyFirstUnique(w: Window, p: Window -> bool, f: Window -> Window, S: set<int>)
    requires UniqueIds(w) && S !! Ids(w)
    requires forall n :: p(n) && UniqueIds(n) && S !! Ids(n) ==> UniqueIds(f(n)) && Ids(f(n)) <= Ids(n) + S
    ensures UniqueIds(ModifyFirst(w, p, f).0) && Ids(ModifyFirst(w, p, f).0) <= Ids(w) + S
    decreases w, 1, 0
  {
    if !p(w) {
      ModifyChildUnique(w, p, f, S, 0);
    }
  }

  lemma {:induction false} ModifyChildUnique(w: Window, p: Window -> bool, f: Window -> Window, S: set<int>, i: nat)
    requires UniqueIds(w) && S !! Ids(w)
    requires forall n :: p(n) && UniqueIds(n) && S !! Ids(n) ==> UniqueIds(f(n)) && Ids(f(n)) <= Ids(n) + S
    ensures UniqueIds(ModifyChild(w, p, f, i).0) && Ids(ModifyChild(w, p, f, i).0) <= Ids(w) + S
    decreases w, 0, |w.subwindows| - i
  {
    if i < |w.subwindows| {
      var (c, found) := ModifyFirst(w.subwindows[i], p, f);
      SubwindowIds(w, i);
      ModifyFirstUnique(w.subwindows[i], p, f, S);
      if found {
        var w' := w.(subwindows := w.subwindows[i := c]);
        ChildIdsReplaceWithin(w, i, c, S, 0);
        forall j | 0 <= j < |w.subwindows| && j != i
          ensures Ids(c) !! Ids(w.subwindows[j])
        {
          SubwindowIds(w, j);
        }
        assert UniqueIds(w');
      } else {
        ModifyChildUnique(w, p, f, S, i + 1);
      }
    }
  }

  // ---- positions ----

  /** The sum of the weights, added in order as _update_subwindow_positions does. */
  function WeightSum(ws: seq<Window>): real
  {
    if |ws| == 0 then 0.0 else WeightSum(ws[..|ws| - 1]) + ws[|ws| - 1].weight
  }

  /** extent * (part / total); a zero total gives 0 where the source divides by zero. */
  function Share(extent: real, part: real, total: real): real
  {
    if total == 0.0 then 0.0 else extent * (part / total)
  }

  /** Where the split axis starts and how far it extends, for a split of the given direction. */
  function Start(r: Rect, horizontal: bool): real { if horizontal then r.x else r.y }
  function Extent(r: Rect, horizontal: bool): real { if horizontal then r.w else r.h }

  /** The slot of a child whose predecessors weigh `before` in total. */
  function Slot(p: Rect, horizontal: bool, total: real, before: real, weight: real): Rect
  {
    if horizontal then Rect(p.x + Share(p.w, before, total), p.y, Share(p.w, weight, total), p.h)
    else Rect(p.x, p.y + Share(p.h, before, total), p.w, Share(p.h, weight, total))
  }

  /**
   * set_window_position: the window takes position p and lays out its
   * subwindows, recursively (_update_subwindow_positions).
   */
  function Place(w: Window, p: Rect): Window
    decreases w, 1, 0
  {
    w.(pos := p, subwindows := PlaceFrom(w, p, WeightSum(w.subwindows), 0, Start(p, w.horizontal)))
  }

  /** The loop of _update_subwindow_positions from child i on, the running edge at cursor. */
  function PlaceFrom(w: Window, p: Rect, total: real, i: nat, cursor: real): seq<Window>
    decreases w, 0, |w.subwindows| - i
  {
    if i >= |w.subwindows| then []
    else
      var c := w.subwindows[i];
      var r := if w.horizontal then Rect(cursor, p.y, Share(p.w, c.weight, total), p.h)
               else Rect(p.x, cursor, p.w, Share(p.h, c.weight, total));
      [Place(c, r)] + PlaceFrom(w, p, total, i + 1, cursor + Extent(r, w.horizontal))
  }

  /** The children sit in their slots for the window's position, direction and weights. */
  predicate Tiled(w: Window)
  {
    forall i :: 0 <= i < |w.subwindows| ==>
      w.subwindows[i].pos == Slot(w.pos, w.horizontal, WeightSum(w.subwindows), WeightSum(w.subwindows[..i]), w.subwindows[i].weight)
  }

  /** Every window of the tree is tiled by its subwindows. */
  predicate LaidOut(w: Window)
  {
    Tiled(w) && forall i :: 0 <= i < |w.subwindows| ==> LaidOut(w.subwindows[i])
  }

  lemma ShareAdd(e: real, a: real, b: real, t: real)
    ensures Share(e, a, t) + Share(e, b, t) == Share(e, a + b, t)
  {
    if t != 0.0 {
      assert (a + b) / t == a / t + b / t;
    }
  }

  lemma WeightSumStep(ws: seq<Window>, i: nat)
    requires i < |ws|
    ensures WeightSum(ws[..i + 1]) == WeightSum(ws[..i]) + ws[i].weight
  {
    assert ws[..i + 1][..i] == ws[..i];
  }

  /** Sequences with the same weights have the same weight sum. */
  lemma {:induction false} WeightSumSameWeights(ws: seq<Window>, vs: seq<Window>)
    requires |ws| == |vs| && forall i :: 0 <= i < |ws| ==> ws[i].weight == vs[i].weight
    ensures WeightSum(ws) == WeightSum(vs)
    decreases |ws|
  {
    if |ws| > 0 {
      WeightSumSameWeights(ws[..|ws| - 1], vs[..|vs| - 1]);
    }
  }

  /** Child i + k is placed in its slot, the cursor having advanced over the slots before it. */
  lemma {:induction false} PlaceFromSlots(w: Window, p: Rect, i: nat, cursor: real)
    requires i <= |w.subwindows|
    requires cursor == Start(p, w.horizontal) + Share(Extent(p, w.horizontal), WeightSum(w.subwindows[..i]), WeightSum(w.subwindows))
    ensures var placed := PlaceFrom(w, p, WeightSum(w.subwindows), i, cursor);
      |placed| == |w.subwindows| - i && forall k :: 0 <= k < |placed| ==>
        placed[k] == Place(w.subwindows[i + k], Slot(p, w.horizontal, WeightSum(w.subwindows), WeightSum(w.subwindows[..i + k]), w.subwindows[i + k].weight))
    decreases |w.subwindows| - i
  {
    if i < |w.subwindows| {
      var total := WeightSum(w.subwindows);
      var e := Extent(p, w.horizontal);
      var c := w.subwindows[i];
      var r := Slot(p, w.horizontal, total, WeightSum(w.subwindows[..i]), c.weight);
      WeightSumStep(w.subwindows, i);
      ShareAdd(e, WeightSum(w.subwindows[..i]), c.weight, total);
      PlaceFromSlots(w, p, i + 1, cursor + Extent(r, w.horizontal));
    }
  }

  /** A placed window is at p, keeps everything but positions, and its subwindows are placed in their slots. */
  lemma PlaceShape(w: Window, p: Rect)
    ensures var r := Place(w, p);
      && r.pos == p && r.id == w.id && r.weight == w.weight && r.horizontal == w.horizontal
      && |r.subwindows| == |w.subwindows|
      && forall k :: 0 <= k < |w.subwindows| ==>
        r.subwindows[k] == Place(w.subwindows[k], Slot(p, w.horizontal, WeightSum(w.subwindows), WeightSum(w.subwindows[..k]), w.subwindows[k].weight))
  {
    assert w.subwindows[..0] == [];
    PlaceFromSlots(w, p, 0, Start(p, w.horizontal));
  }

  /** A placed window is laid out: set_window_position leaves every window of the tree tiled by its subwindows. */
  lemma {:induction false} PlaceLaysOut(w: Window, p: Rect)
    ensures LaidOut(Place(w, p))
    decreases w
  {
    var r := Place(w, p);
    var ws := w.subwindows;
    PlaceShape(w, p);
    forall k | 0 <= k < |ws|
      ensures r.subwindows[k].weight == ws[k].weight && LaidOut(r.subwindows[k])
    {
      var slot := Slot(p, w.horizontal, WeightSum(ws), WeightSum(ws[..k]), ws[k].weight);
      PlaceShape(ws[k], slot);
      PlaceLaysOut(ws[k], slot);
    }
    WeightSumSameWeights(r.subwindows, ws);
    forall k | 0 <= k < |ws|
      ensures WeightSum(r.subwindows[..k]) == WeightSum(ws[..k])
    {
      WeightSumSameWeights(r.subwindows[..k], ws[..k]);
    }
    forall k | 0 <= k < |ws|
      ensures r.subwindows[k].pos == Slot(p, w.horizontal, WeightSum(ws), WeightSum(ws[..k]), ws[k].weight)
    {
      PlaceShape(ws[k], Slot(p, w.horizontal, WeightSum(ws), WeightSum(ws[..k]), ws[k].weight));
    }
  }

  /** The subwindows of a tiled window span it across the split axis. */
  lemma TiledAcross(w: Window)
    requires Tiled(w)
    ensures forall i :: 0 <= i < |w.subwindows| ==>
      Start(w.subwindows[i].pos, !w.horizontal) == Start(w.pos, !w.horizontal)
      && Extent(w.subwindows[i].pos, !w.horizontal) == Extent(w.pos, !w.horizontal)
  {
  }

  /**
   * The subwindows of a tiled window lie side by side along its split
   * axis: the first starts where the window starts and each starts where
   * the previous one ends.
   */
  lemma TiledAlong(w: Window)
    requires Tiled(w)
    ensures |w.subwindows| > 0 ==> Start(w.subwindows[0].pos, w.horizontal) == Start(w.pos, w.horizontal)
    ensures forall i :: 0 <= i < |w.subwindows| - 1 ==>
      Start(w.subwindows[i + 1].pos, w.horizontal) == Start(w.subwindows[i].pos, w.horizontal) + Extent(w.subwindows[i].pos, w.horizontal)
  {
    var ws := w.subwindows;
    if |ws| > 0 {
      assert ws[..0] == [];
    }
    forall i | 0 <= i < |ws| - 1
      ensures Start(ws[i + 1].pos, w.horizontal) == Start(ws[i].pos, w.horizontal) + Extent(ws[i].pos, w.horizontal)
    {
      WeightSumStep(ws, i);
      ShareAdd(Extent(w.pos, w.horizontal), WeightSum(ws[..i]), ws[i].weight, WeightSum(ws));
    }
  }

  /** When the weights do not sum to zero, the last subwindow ends where the window ends. */
  lemma TiledEnds(w: Window)
    requires Tiled(w) && |w.subwindows| > 0 && WeightSum(w.subwindows) != 0.0
    ensures var last := w.subwindows[|w.subwindows| - 1].pos;
      Start(last, w.horizontal) + Extent(last, w.horizontal) == Start(w.pos, w.horizontal) + Extent(w.pos, w.horizontal)
  {
    var ws := w.subwindows;
    var n := |ws| - 1;
    var total := WeightSum(ws);
    var e := Extent(w.pos, w.horizontal);
    WeightSumStep(ws, n);
    assert ws[..n + 1] == ws;
    ShareAdd(e, WeightSum(ws[..n]), ws[n].weight, total);
    assert total / total == 1.0;
  }

  /**
   * The tree stays laid out when the matched window is laid out again in
   * the same place with the same weight: its parent's tiling, which
   * depends only on its position and weight, is not disturbed.
   */
  /** Replacing one subwindow by a laid-out window in the same place with the same weight keeps the tree laid out. */
  lemma ReplaceChildLaidOut(w: Window, i: nat, c: Window)
    requires LaidOut(w) && i < |w.subwindows|
    requires LaidOut(c) && c.pos == w.subwindows[i].pos && c.weight == w.subwindows[i].weight
    ensures LaidOut(w.(subwindows := w.subwindows[i := c]))
  {
    var ws := w.subwindows;
    var vs := ws[i := c];
    var r := w.(subwindows := vs);
    assert Tiled(r) by {
      WeightSumSameWeights(vs, ws);
      forall k | 0 <= k < |ws|
        ensures WeightSum(vs[..k]) == WeightSum(ws[..k])
      {
        WeightSumSameWeights(vs[..k], ws[..k]);
      }
    }
    assert forall k :: 0 <= k < |vs| ==> LaidOut(vs[k]);
  }

  lemma {:induction false} ModifyFirstLaidOut(w: Window, p: Window -> bool, f: Window -> Window)
    requires LaidOut(w)
    requires forall n :: p(n) && LaidOut(n) ==> LaidOut(f(n)) && f(n).pos == n.pos && f(n).weight == n.weight
    ensures var r := ModifyFirst(w, p, f).0; LaidOut(r) && r.pos == w.pos && r.weight == w.weight
    decreases w, 1, 0
  {
    if !p(w) {
      ModifyChildLaidOut(w, p, f, 0);
    }
  }

  lemma {:induction false} ModifyChildLaidOut(w: Window, p: Window -> bool, f: Window -> Window, i: nat)
    requires LaidOut(w)
    requires forall n :: p(n) && LaidOut(n) ==> LaidOut(f(n)) && f(n).pos == n.pos && f(n).weight == n.weight
    ensures var r := ModifyChild(w, p, f, i).0; LaidOut(r) && r.pos == w.pos && r.weight == w.weight
    decreases w, 0, |w.subwindows| - i
  {
    if i < |w.subwindows| {
      var (c, found) := ModifyFirst(w.subwindows[i], p, f);
      ModifyFirstLaidOut(w.subwindows[i], p, f);
      if found {
        ReplaceChildLaidOut(w, i, c);
      } else {
        ModifyChildLaidOut(w, p, f, i + 1);
      }
    }
  }

  // ---- operations ----

  /** The step add_subwindow takes at the matched window: append a fresh subwindow, then lay the window out again. */
  function AppendChild(newId: int, weight: real, horizontal: bool): Window -> Window
  {
    (n: Window) => Place(n.(subwindows := n.subwindows + [NewWindow(newId, weight, horizontal)]), n.pos)
  }

  /**
   * add_subwindow(weight, windowId, horizontal) creating the window newId:
   * -1 or the root's id appends to the root; another id appends to the
   * first window with that id, depth first. The result is newId, or -1
   * when no window has the id (nothing is created then).
   */
  function AddSubwindowOn(w: Window, weight: real, windowId: int, horizontal: bool, newId: int): (Window, int)
  {
    if windowId == -1 then (AppendChild(newId, weight, horizontal)(w), newId)
    else
      var (r, found) := ModifyFirst(w, IdIs(windowId), AppendChild(newId, weight, horizontal));
      (r, if found then newId else -1)
  }

  /** What appending does to the matched window: one more subwindow, the fresh one, last; the others the same windows re-placed. */
  lemma AppendChildShape(n: Window, newId: int, weight: real, horizontal: bool)
    ensures var r := AppendChild(newId, weight, horizontal)(n);
      && r.id == n.id && r.pos == n.pos && r.weight == n.weight && r.horizontal == n.horizontal
      && |r.subwindows| == |n.subwindows| + 1
      && (forall k :: 0 <= k < |n.subwindows| ==> r.subwindows[k] == Place(n.subwindows[k], r.subwindows[k].pos))
      && r.subwindows[|n.subwindows|] == NewWindow(newId, weight, horizontal).(pos := r.subwindows[|n.subwindows|].pos)
  {
    var m := n.(subwindows := n.subwindows + [NewWindow(newId, weight, horizontal)]);
    PlaceShape(m, n.pos);
    var c := NewWindow(newId, weight, horizontal);
    var slot := Place(m, n.pos).subwindows[|n.subwindows|].pos;
    assert c.subwindows == [];
    assert Place(c, slot).subwindows == [];
  }

  /** Appending adds exactly the fresh id and leaves the matched window laid out. */
  lemma AppendChildIds(n: Window, newId: int, weight: real, horizontal: bool)
    ensures Ids(AppendChild(newId, weight, horizontal)(n)) == Ids(n) + {newId}
    ensures LaidOut(AppendChild(newId, weight, horizontal)(n))
  {
    var c := NewWindow(newId, weight, horizontal);
    var m := n.(subwindows := n.subwindows + [c]);
    PlaceIds(m, n.pos);
    PlaceLaysOut(m, n.pos);
    ChildIdsAppend(n, c, 0);
    assert ChildIds(c, 0) == {};
  }

  /** Placing changes no id. */
  lemma {:induction false} PlaceIds(w: Window, p: Rect)
    ensures Ids(Place(w, p)) == Ids(w)
    decreases w
  {
    var r := Place(w, p);
    PlaceShape(w, p);
    forall k | 0 <= k < |w.subwindows|
      ensures Ids(r.subwindows[k]) == Ids(w.subwindows[k])
    {
      PlaceIds(w.subwindows[k], r.subwindows[k].pos);
      PlaceShape(w.subwindows[k], Slot(p, w.horizontal, WeightSum(w.subwindows), WeightSum(w.subwindows[..k]), w.subwindows[k].weight));
    }
    SameChildIds(r, w, 0);
  }

  lemma {:induction false} SameChildIds(a: Window, b: Window, k: nat)
    requires |a.subwindows| == |b.subwindows|
    requires forall j :: 0 <= j < |a.subwindows| ==> Ids(a.subwindows[j]) == Ids(b.subwindows[j])
    ensures ChildIds(a, k) == ChildIds(b, k)
    decreases |a.subwindows| - k
  {
    if k < |a.subwindows| {
      SameChildIds(a, b, k + 1);
    }
  }

  lemma {:induction false} ChildIdsAppend(n: Window, c: Window, k: nat)
    requires k <= |n.subwindows|
    ensures ChildIds(n.(subwindows := n.subwindows + [c]), k) == ChildIds(n, k) + Ids(c)
    decreases |n.subwindows| - k
  {
    var m := n.(subwindows := n.subwindows + [c]);
    if k < |n.subwindows| {
      ChildIdsAppend(n, c, k + 1);
    } else {
      assert m.subwindows[k] == c;
    }
  }

  // ---- finding a window ----

  /** get_window_position's search: the first window with id x, depth first, the root first. */
  function Find(w: Window, x: int): Option<Window>
    decreases w, 1, 0
  {
    if w.id == x then Some(w) else FindChild(w, x, 0)
  }

  function FindChild(w: Window, x: int, i: nat): Option<Window>
    decreases w, 0, |w.subwindows| - i
  {
    if i >= |w.subwindows| then None
    else
      match Find(w.subwindows[i], x)
      case Some(n) => Some(n)
      case None => FindChild(w, x, i + 1)
  }

  /** The search finds a window exactly when x is an id of the tree, and what it finds has id x. */
  lemma {:induction false} FindIds(w: Window, x: int)
    ensures Find(w, x).Some? <==> x in Ids(w)
    ensures Find(w, x).Some? ==> Find(w, x).value.id == x
    decreases w, 1, 0
  {
    FindChildIds(w, x, 0);
  }

  lemma {:induction false} FindChildIds(w: Window, x: int, i: nat)
    ensures FindChild(w, x, i).Some? <==> x in ChildIds(w, i)
    ensures FindChild(w, x, i).Some? ==> FindChild(w, x, i).value.id == x
    decreases w, 0, |w.subwindows| - i
  {
    if i < |w.subwindows| {
      FindIds(w.subwindows[i], x);
      FindChildIds(w, x, i + 1);
    }
  }

  /** AnyChild is "some subwindow from index i on has a matching window". */
  lemma {:induction false} AnyChildMembers(w: Window, p: Window -> bool, i: nat)
    ensures AnyChild(w, p, i) <==> exists j :: i <= j < |w.subwindows| && AnyNode(w.subwindows[j], p)
    decreases |w.subwindows| - i
  {
    if i < |w.subwindows| {
      AnyChildMembers(w, p, i + 1);
    }
  }

  /** When matching windows all contain x among their ids, a tree with a match contains x. */
  lemma {:induction false} AnyNodeHolds(w: Window, p: Window -> bool, x: int)
    requires forall n :: p(n) ==> x in Ids(n)
    ensures AnyNode(w, p) ==> x in Ids(w)
    decreases w
  {
    AnyChildMembers(w, p, 0);
    forall j | 0 <= j < |w.subwindows|
      ensures AnyNode(w.subwindows[j], p) ==> x in Ids(w)
    {
      AnyNodeHolds(w.subwindows[j], p, x);
      SubwindowIds(w, j);
    }
  }

  /** With unique ids, no window below one with id x matches a property of windows with id x. */
  lemma NoMatchBelow(w: Window, p: Window -> bool, x: int)
    requires UniqueIds(w) && w.id == x
    requires forall n :: p(n) ==> n.id == x
    ensures !AnyChild(w, p, 0)
  {
    AnyChildMembers(w, p, 0);
    forall j | 0 <= j < |w.subwindows|
      ensures !AnyNode(w.subwindows[j], p)
    {
      AnyNodeHolds(w.subwindows[j], p, x);
      ChildIdsMembers(w, 0, x);
    }
  }

  /**
   * With unique ids, a property of windows with id x holds somewhere in
   * the tree exactly when it holds of the window the search finds.
   */
  lemma {:induction false} AnyNodeIsFound(w: Window, p: Window -> bool, x: int)
    requires UniqueIds(w)
    requires forall n :: p(n) ==> n.id == x
    ensures AnyNode(w, p) <==> Find(w, x).Some? && p(Find(w, x).value)
    decreases w, 1, 0
  {
    if w.id == x {
      NoMatchBelow(w, p, x);
    } else {
      AnyChildIsFound(w, p, x, 0);
    }
  }

  lemma {:induction false} AnyChildIsFound(w: Window, p: Window -> bool, x: int, i: nat)
    requires UniqueIds(w)
    requires forall n :: p(n) ==> n.id == x
    ensures AnyChild(w, p, i) <==> FindChild(w, x, i).Some? && p(FindChild(w, x, i).value)
    decreases w, 0, |w.subwindows| - i
  {
    if i < |w.subwindows| {
      var c := w.subwindows[i];
      AnyNodeIsFound(c, p, x);
      AnyChildIsFound(w, p, x, i + 1);
      FindIds(c, x);
      if Find(c, x).Some? {
        AnyChildMembers(w, p, i + 1);
        forall j | i + 1 <= j < |w.subwindows|
          ensures !AnyNode(w.subwindows[j], p)
        {
          assert Ids(c) !! Ids(w.subwindows[j]);
          AnyNodeHolds(w.subwindows[j], p, x);
        }
      }
    }
  }

  /** The search only replaces the subwindows at and after i, and keeps the window's own fields. */
  lemma {:induction false} ModifyChildRoot(w: Window, p: Window -> bool, f: Window -> Window, i: nat)
    ensures var r := ModifyChild(w, p, f, i).0;
      r == w.(subwindows := r.subwindows) && |r.subwindows| == |w.subwindows|
      && forall j :: 0 <= j < i && j < |w.subwindows| ==> r.subwindows[j] == w.subwindows[j]
    decreases |w.subwindows| - i
  {
    if i < |w.subwindows| {
      ModifyChildRoot(w, p, f, i + 1);
    }
  }

  /**
   * With unique ids, when the matched windows are those with id x and the
   * step keeps the id, the search afterwards finds the stepped window.
   */
  lemma {:induction false} ModifyFirstFind(w: Window, p: Window -> bool, f: Window -> Window, x: int)
    requires UniqueIds(w)
    requires forall n :: p(n) ==> n.id == x && f(n).id == x
    requires ModifyFirst(w, p, f).1
    ensures Find(w, x).Some? && Find(ModifyFirst(w, p, f).0, x) == Some(f(Find(w, x).value))
    decreases w, 1, 0
  {
    if !p(w) {
      ModifyFirstFound(w, p, f);
      AnyNodeIsFound(w, p, x);
      assert w.id != x;
      ModifyChildRoot(w, p, f, 0);
      ModifyChildFind(w, p, f, x, 0);
    }
  }

  lemma {:induction false} ModifyChildFind(w: Window, p: Window -> bool, f: Window -> Window, x: int, i: nat)
    requires UniqueIds(w) && w.id != x
    requires forall n :: p(n) ==> n.id == x && f(n).id == x
    requires ModifyChild(w, p, f, i).1
    ensures FindChild(w, x, i).Some? && FindChild(ModifyChild(w, p, f, i).0, x, i) == Some(f(FindChild(w, x, i).value))
    decreases w, 0, |w.subwindows| - i
  {
    var c := w.subwindows[i];
    var (c', found) := ModifyFirst(c, p, f);
    var r := ModifyChild(w, p, f, i).0;
    if found {
      ModifyFirstFind(c, p, f, x);
      assert r == w.(subwindows := w.subwindows[i := c']);
      assert r.subwindows[i] == c';
    } else {
      ModifyChildFound(w, p, f, i + 1);
      AnyChildMembers(w, p, i + 1);
      var j :| i + 1 <= j < |w.subwindows| && AnyNode(w.subwindows[j], p);
      AnyNodeHolds(w.subwindows[j], p, x);
      assert Ids(c) !! Ids(w.subwindows[j]);
      FindIds(c, x);
      ModifyChildFind(w, p, f, x, i + 1);
      ModifyChildRoot(w, p, f, i + 1);
      assert r.subwindows[i] == c;
    }
  }

  // ---- ids and uniqueness under the steps ----

  /** Placing keeps ids unique. */
  lemma {:induction false} PlaceUnique(w: Window, p: Rect)
    requires UniqueIds(w)
    ensures UniqueIds(Place(w, p))
    decreases w
  {
    var r := Place(w, p);
    PlaceShape(w, p);
    PlaceIds(w, p);
    forall k | 0 <= k < |w.subwindows|
      ensures Ids(r.subwindows[k]) == Ids(w.subwindows[k]) && UniqueIds(r.subwindows[k])
    {
      var slot := Slot(p, w.horizontal, WeightSum(w.subwindows), WeightSum(w.subwindows[..k]), w.subwindows[k].weight);
      PlaceIds(w.subwindows[k], slot);
      PlaceUnique(w.subwindows[k], slot);
    }
    SameChildIds(r, w, 0);
  }

  /** A window with other fields changed but the same id and subwindows has the same ids and uniqueness. */
  lemma SameShapeIds(a: Window, b: Window)
    requires a.id == b.id && a.subwindows == b.subwindows
    ensures Ids(a) == Ids(b) && (UniqueIds(a) <==> UniqueIds(b))
  {
    SameChildIds(a, b, 0);
  }

  /** Replacing a subwindow by one with the same ids and uniqueness keeps the window's ids and uniqueness. */
  lemma ReplaceSameIds(n: Window, i: nat, c: Window)
    requires i < |n.subwindows| && Ids(c) == Ids(n.subwindows[i])
    requires UniqueIds(n.subwindows[i]) ==> UniqueIds(c)
    ensures var m := n.(subwindows := n.subwindows[i := c]);
      Ids(m) == Ids(n) && (UniqueIds(n) ==> UniqueIds(m))
  {
    ChildIdsReplaceAdds(n, i, c, {}, 0);
  }

  /** Appending a fresh subwindow keeps ids unique. */
  /** Appending a window whose ids are unique and new to a window with unique ids keeps them unique. */
  lemma AppendUnique(n: Window, c: Window)
    requires UniqueIds(n) && UniqueIds(c) && Ids(c) !! Ids(n)
    ensures UniqueIds(n.(subwindows := n.subwindows + [c]))
  {
    var m := n.(subwindows := n.subwindows + [c]);
    assert m.id !in ChildIds(m, 0) by {
      ChildIdsAppend(n, c, 0);
    }
    forall i, j | 0 <= i < j < |m.subwindows|
      ensures Ids(m.subwindows[i]) !! Ids(m.subwindows[j])
    {
      assert m.subwindows[i] == n.subwindows[i];
      if j < |n.subwindows| {
        assert m.subwindows[j] == n.subwindows[j];
      } else {
        assert m.subwindows[j] == c;
        SubwindowIds(n, i);
      }
    }
    forall i | 0 <= i < |m.subwindows|
      ensures UniqueIds(m.subwindows[i])
    {
      if i < |n.subwindows| {
        assert m.subwindows[i] == n.subwindows[i];
      } else {
        assert m.subwindows[i] == c;
      }
    }
  }

  /** Appending a fresh id to a window with unique ids keeps them unique. */
  lemma AppendChildUnique(n: Window, newId: int, weight: real, horizontal: bool)
    requires UniqueIds(n) && newId !in Ids(n)
    ensures UniqueIds(AppendChild(newId, weight, horizontal)(n))
  {
    var c := NewWindow(newId, weight, horizontal);
    var m := n.(subwindows := n.subwindows + [c]);
    assert Ids(c) == {newId};
    AppendUnique(n, c);
    PlaceUnique(m, n.pos);
  }

  /**
   * When every matched window contains x and the step removes x from it
   * while adding no id, the tree no longer contains x.
   */
  lemma {:induction false} ModifyFirstDrops(w: Window, p: Window -> bool, f: Window -> Window, x: int)
    requires UniqueIds(w) && ModifyFirst(w, p, f).1
    requires forall n :: p(n) ==> x in Ids(n)
    requires forall n :: p(n) && UniqueIds(n) ==> x !in Ids(f(n))
    ensures x !in Ids(ModifyFirst(w, p, f).0)
    decreases w, 1, 0
  {
    if !p(w) {
      ModifyChildFound(w, p, f, 0);
      AnyChildMembers(w, p, 0);
      var j :| 0 <= j < |w.subwindows| && AnyNode(w.subwindows[j], p);
      AnyNodeHolds(w.subwindows[j], p, x);
      SubwindowIds(w, j);
      ChildIdsMembers(w, 0, x);
      ModifyChildRoot(w, p, f, 0);
      ModifyChildDrops(w, p, f, x, 0);
    }
  }

  lemma {:induction false} ModifyChildDrops(w: Window, p: Window -> bool, f: Window -> Window, x: int, i: nat)
    requires UniqueIds(w) && ModifyChild(w, p, f, i).1
    requires forall n :: p(n) ==> x in Ids(n)
    requires forall n :: p(n) && UniqueIds(n) ==> x !in Ids(f(n))
    ensures x !in ChildIds(ModifyChild(w, p, f, i).0, 0)
    decreases w, 0, |w.subwindows| - i
  {
    var c := w.subwindows[i];
    var (c', found) := ModifyFirst(c, p, f);
    if found {
      var r := w.(subwindows := w.subwindows[i := c']);
      ModifyFirstDrops(c, p, f, x);
      ModifyFirstFound(c, p, f);
      AnyNodeHolds(c, p, x);
      forall j | 0 <= j < |w.subwindows| && j != i
        ensures x !in Ids(w.subwindows[j])
      {
        assert Ids(c) !! Ids(w.subwindows[j]);
      }
      ChildIdsMembers(r, 0, x);
    } else {
      ModifyChildDrops(w, p, f, x, i + 1);
    }
  }

  // ---- the operations' promises ----

  /** add_subwindow succeeds exactly for -1 and the ids of the tree; on failure nothing changes. */
  lemma AddSubwindowFound(w: Window, weight: real, windowId: int, horizontal: bool, newId: int)
    requires newId != -1
    ensures AddSubwindowOn(w, weight, windowId, horizontal, newId).1 == (if windowId == -1 || windowId in Ids(w) then newId else -1)
    ensures AddSubwindowOn(w, weight, windowId, horizontal, newId).1 == -1 ==> AddSubwindowOn(w, weight, windowId, horizontal, newId).0 == w
  {
    if windowId != -1 {
      ModifyFirstFound(w, IdIs(windowId), AppendChild(newId, weight, horizontal));
      AnyNodeIdIs(w, windowId);
    }
  }

  /** A successful add_subwindow with an unused id adds exactly that id and keeps ids unique. */
  lemma AddSubwindowIds(w: Window, weight: real, windowId: int, horizontal: bool, newId: int)
    requires UniqueIds(w) && newId !in Ids(w)
    requires AddSubwindowOn(w, weight, windowId, horizontal, newId).1 != -1
    ensures var r := AddSubwindowOn(w, weight, windowId, horizontal, newId).0;
      Ids(r) == Ids(w) + {newId} && UniqueIds(r)
  {
    var f := AppendChild(newId, weight, horizontal);
    forall n: Window
      ensures Ids(f(n)) == Ids(n) + {newId}
      ensures UniqueIds(n) && {newId} !! Ids(n) ==> UniqueIds(f(n)) && Ids(f(n)) <= Ids(n) + {newId}
    {
      AppendChildIds(n, newId, weight, horizontal);
      if UniqueIds(n) && {newId} !! Ids(n) {
        AppendChildUnique(n, newId, weight, horizontal);
      }
    }
    if windowId != -1 {
      ModifyFirstIds(w, IdIs(windowId), f, {newId});
      ModifyFirstUnique(w, IdIs(windowId), f, {newId});
    } else {
      AppendChildUnique(w, newId, weight, horizontal);
    }
  }

  /** add_subwindow leaves a laid-out tree laid out, at the same position. */
  lemma AddSubwindowLaidOut(w: Window, weight: real, windowId: int, horizontal: bool, newId: int)
    requires LaidOut(w)
    ensures var r := AddSubwindowOn(w, weight, windowId, horizontal, newId).0;
      LaidOut(r) && r.pos == w.pos
  {
    var f := AppendChild(newId, weight, horizontal);
    forall n: Window
      ensures LaidOut(f(n)) && f(n).pos == n.pos && f(n).weight == n.weight
    {
      AppendChildShape(n, newId, weight, horizontal);
      AppendChildIds(n, newId, weight, horizontal);
    }
    if windowId != -1 {
      ModifyFirstLaidOut(w, IdIs(windowId), f);
    }
  }

  /**
   * After add_subwindow on an id of the tree, the search for that id finds
   * the window it found before with the subwindow appended (whose shape
   * AppendChildShape gives).
   */
  lemma AddSubwindowFind(w: Window, weight: real, windowId: int, horizontal: bool, newId: int)
    requires UniqueIds(w) && windowId != -1 && windowId in Ids(w)
    ensures Find(w, windowId).Some?
    ensures Find(AddSubwindowOn(w, weight, windowId, horizontal, newId).0, windowId)
      == Some(AppendChild(newId, weight, horizontal)(Find(w, windowId).value))
  {
    var f := AppendChild(newId, weight, horizontal);
    forall n: Window
      ensures f(n).id == n.id
    {
      AppendChildShape(n, newId, weight, horizontal);
    }
    ModifyFirstFound(w, IdIs(windowId), f);
    AnyNodeIdIs(w, windowId);
    ModifyFirstFind(w, IdIs(windowId), f, windowId);
  }

  // ---- steps that keep ids and layout ----

  /** A step that keeps the ids of the window it acts on, and their uniqueness. */
  ghost predicate KeepsIds(f: Window -> Window)
  {
    forall n :: Ids(f(n)) == Ids(n) && (UniqueIds(n) ==> UniqueIds(f(n))) && f(n).id == n.id
  }

  /** A step that leaves a laid-out window laid out, in the same place with the same weight. */
  ghost predicate KeepsLayout(f: Window -> Window)
  {
    forall n :: LaidOut(n) ==> LaidOut(f(n)) && f(n).pos == n.pos && f(n).weight == n.weight
  }

  /** The search with an id-keeping step keeps the tree's ids and their uniqueness, and with a layout-keeping step its layout. */
  lemma ModifyFirstKeeps(w: Window, p: Window -> bool, f: Window -> Window)
    requires KeepsIds(f)
    ensures var r := ModifyFirst(w, p, f).0;
      && Ids(r) == Ids(w) && (UniqueIds(w) ==> UniqueIds(r))
      && (KeepsLayout(f) && LaidOut(w) ==> LaidOut(r))
  {
    var r := ModifyFirst(w, p, f).0;
    assert Ids(r) == Ids(w) by {
      assert forall n :: p(n) ==> Ids(f(n)) == Ids(n) + {};
      ModifyFirstIds(w, p, f, {});
    }
    if UniqueIds(w) {
      assert UniqueIds(r) by {
        ModifyFirstUnique(w, p, f, {});
      }
    }
    if KeepsLayout(f) && LaidOut(w) {
      assert LaidOut(r) by {
        ModifyFirstLaidOut(w, p, f);
      }
    }
  }

  // ---- set_weight ----

  /** The windows set_weight acts on: id x and at least one subwindow. */
  function IdWithSubwindows(x: int): Window -> bool
  {
    (n: Window) => n.id == x && |n.subwindows| > 0
  }

  /** set_weight's step: the FIRST subwindow takes the weight, then the window is laid out again. */
  function FirstChildWeight(weight: real): Window -> Window
  {
    (n: Window) =>
      if |n.subwindows| == 0 then n
      else Place(n.(subwindows := n.subwindows[0 := n.subwindows[0].(weight := weight)]), n.pos)
  }

  /**
   * set_weight(x, weight): the first window with id x that has subwindows
   * gives its first subwindow the weight; 0 on success, -1 otherwise.
   */
  function SetWeightOn(w: Window, x: int, weight: real): (Window, int)
  {
    var (r, found) := ModifyFirst(w, IdWithSubwindows(x), FirstChildWeight(weight));
    (r, if found then 0 else -1)
  }

  /** What set_weight's step does to the window it acts on. */
  lemma FirstChildWeightShape(n: Window, weight: real)
    requires |n.subwindows| > 0
    ensures var r := FirstChildWeight(weight)(n);
      && r.id == n.id && r.weight == n.weight && r.pos == n.pos && r.horizontal == n.horizontal
      && |r.subwindows| == |n.subwindows|
      && r.subwindows[0].weight == weight
      && (forall k :: 0 < k < |n.subwindows| ==> r.subwindows[k].weight == n.subwindows[k].weight)
      && (forall k :: 0 <= k < |n.subwindows| ==> r.subwindows[k].id == n.subwindows[k].id)
  {
    var m := n.(subwindows := n.subwindows[0 := n.subwindows[0].(weight := weight)]);
    PlaceShape(m, n.pos);
    forall k | 0 <= k < |n.subwindows|
      ensures Place(m, n.pos).subwindows[k].weight == m.subwindows[k].weight
      ensures Place(m, n.pos).subwindows[k].id == m.subwindows[k].id
    {
      PlaceShape(m.subwindows[k], Place(m, n.pos).subwindows[k].pos);
    }
  }

  /** set_weight's step keeps ids, uniqueness and the layout, and keeps the window's own weight and place. */
  lemma FirstChildWeightKeeps(n: Window, weight: real)
    ensures var r := FirstChildWeight(weight)(n);
      && Ids(r) == Ids(n) && (UniqueIds(n) ==> UniqueIds(r))
      && (LaidOut(n) ==> LaidOut(r)) && r.pos == n.pos && r.weight == n.weight && r.id == n.id
  {
    if |n.subwindows| > 0 {
      var c := n.subwindows[0];
      var m := n.(subwindows := n.subwindows[0 := c.(weight := weight)]);
      SameShapeIds(c.(weight := weight), c);
      ReplaceSameIds(n, 0, c.(weight := weight));
      PlaceIds(m, n.pos);
      PlaceShape(m, n.pos);
      PlaceLaysOut(m, n.pos);
      if UniqueIds(n) {
        PlaceUnique(m, n.pos);
      }
    }
  }

  lemma FirstChildWeightAll(weight: real)
    ensures KeepsIds(FirstChildWeight(weight)) && KeepsLayout(FirstChildWeight(weight))
  {
    forall n: Window
      ensures var r := FirstChildWeight(weight)(n);
        && Ids(r) == Ids(n) && (UniqueIds(n) ==> UniqueIds(r))
        && (LaidOut(n) ==> LaidOut(r)) && r.pos == n.pos && r.weight == n.weight && r.id == n.id
    {
      FirstChildWeightKeeps(n, weight);
    }
  }

  /**
   * set_weight succeeds exactly when the tree has a window with id x that
   * has subwindows; a failure changes nothing.
   */
  lemma SetWeightFound(w: Window, x: int, weight: real)
    requires UniqueIds(w)
    ensures SetWeightOn(w, x, weight).1 == 0 <==> Find(w, x).Some? && |Find(w, x).value.subwindows| > 0
    ensures SetWeightOn(w, x, weight).1 != 0 ==> SetWeightOn(w, x, weight).1 == -1 && SetWeightOn(w, x, weight).0 == w
  {
    ModifyFirstFound(w, IdWithSubwindows(x), FirstChildWeight(weight));
    AnyNodeIsFound(w, IdWithSubwindows(x), x);
    FindIds(w, x);
  }

  /** set_weight keeps the ids, their uniqueness and the layout. */
  lemma SetWeightKeeps(w: Window, x: int, weight: real)
    ensures var r := SetWeightOn(w, x, weight).0;
      Ids(r) == Ids(w) && (UniqueIds(w) ==> UniqueIds(r)) && (LaidOut(w) ==> LaidOut(r))
  {
    FirstChildWeightAll(weight);
    ModifyFirstKeeps(w, IdWithSubwindows(x), FirstChildWeight(weight));
  }

  /**
   * After a successful set_weight the window with id x keeps its own
   * weight, and its first subwindow, not it, carries the new weight.
   */
  lemma SetWeightFind(w: Window, x: int, weight: real)
    requires UniqueIds(w) && SetWeightOn(w, x, weight).1 == 0
    ensures Find(w, x).Some? && Find(SetWeightOn(w, x, weight).0, x).Some?
    ensures var before := Find(w, x).value;
      var after := Find(SetWeightOn(w, x, weight).0, x).value;
      && after.weight == before.weight && after.pos == before.pos
      && |after.subwindows| == |before.subwindows| > 0
      && after.subwindows[0].weight == weight
      && (forall k :: 0 < k < |before.subwindows| ==> after.subwindows[k].weight == before.subwindows[k].weight)
  {
    FirstChildWeightAll(weight);
    ModifyFirstFind(w, IdWithSubwindows(x), FirstChildWeight(weight), x);
    SetWeightFound(w, x, weight);
    FirstChildWeightShape(Find(w, x).value, weight);
  }

  /** A leaf's id on its own is not enough: set_weight fails on a window without subwindows. */
  lemma SetWeightOnLeafFails(w: Window, x: int, weight: real)
    requires UniqueIds(w) && Find(w, x).Some? && Find(w, x).value.subwindows == []
    ensures SetWeightOn(w, x, weight) == (w, -1)
  {
    SetWeightFound(w, x, weight);
  }

  // ---- set_split_window_horizontal ----

  /** The step: the split direction changes, then the window is laid out again. */
  function Redirect(horizontal: bool): Window -> Window
  {
    (n: Window) => Place(n.(horizontal := horizontal), n.pos)
  }

  /** set_split_window_horizontal(horizontal, x): -1 means the root. 0 on success, -1 otherwise. */
  function SetSplitOn(w: Window, horizontal: bool, x: int): (Window, int)
  {
    if x == -1 then (Redirect(horizontal)(w), 0)
    else
      var (r, found) := ModifyFirst(w, IdIs(x), Redirect(horizontal));
      (r, if found then 0 else -1)
  }

  /** The step keeps ids, uniqueness, the window's place and weight, and lays the window out. */
  lemma RedirectKeeps(n: Window, horizontal: bool)
    ensures var r := Redirect(horizontal)(n);
      && Ids(r) == Ids(n) && (UniqueIds(n) ==> UniqueIds(r)) && LaidOut(r)
      && r.id == n.id && r.pos == n.pos && r.weight == n.weight && r.horizontal == horizontal
      && |r.subwindows| == |n.subwindows|
  {
    var m := n.(horizontal := horizontal);
    SameShapeIds(m, n);
    PlaceIds(m, n.pos);
    PlaceShape(m, n.pos);
    PlaceLaysOut(m, n.pos);
    if UniqueIds(n) {
      PlaceUnique(m, n.pos);
    }
  }

  lemma RedirectAll(horizontal: bool)
    ensures KeepsIds(Redirect(horizontal)) && KeepsLayout(Redirect(horizontal))
  {
    forall n: Window
      ensures var r := Redirect(horizontal)(n);
        && Ids(r) == Ids(n) && (UniqueIds(n) ==> UniqueIds(r)) && LaidOut(r)
        && r.id == n.id && r.pos == n.pos && r.weight == n.weight
    {
      RedirectKeeps(n, horizontal);
    }
  }

  /**
   * set_split_window_horizontal succeeds exactly for -1 and the ids of the
   * tree; a failure changes nothing; a success keeps the ids, their
   * uniqueness and the layout.
   */
  lemma SetSplitEffect(w: Window, horizontal: bool, x: int)
    ensures SetSplitOn(w, horizontal, x).1 == (if x == -1 || x in Ids(w) then 0 else -1)
    ensures SetSplitOn(w, horizontal, x).1 == -1 ==> SetSplitOn(w, horizontal, x).0 == w
    ensures var r := SetSplitOn(w, horizontal, x).0;
      Ids(r) == Ids(w) && (UniqueIds(w) ==> UniqueIds(r)) && (LaidOut(w) ==> LaidOut(r))
  {
    RedirectAll(horizontal);
    if x != -1 {
      ModifyFirstFound(w, IdIs(x), Redirect(horizontal));
      AnyNodeIdIs(w, x);
      ModifyFirstKeeps(w, IdIs(x), Redirect(horizontal));
    } else {
      RedirectKeeps(w, horizontal);
    }
  }

  /** The window set_split_window_horizontal acts on has the new direction, in the same place. */
  lemma SetSplitFind(w: Window, horizontal: bool, x: int)
    requires UniqueIds(w) && x != -1 && x in Ids(w)
    ensures Find(w, x).Some? && Find(SetSplitOn(w, horizontal, x).0, x).Some?
    ensures var before := Find(w, x).value;
      var after := Find(SetSplitOn(w, horizontal, x).0, x).value;
      after.horizontal == horizontal && after.pos == before.pos && after.weight == before.weight
      && |after.subwindows| == |before.subwindows|
  {
    RedirectAll(horizontal);
    ModifyFirstFound(w, IdIs(x), Redirect(horizontal));
    AnyNodeIdIs(w, x);
    ModifyFirstFind(w, IdIs(x), Redirect(horizontal), x);
    RedirectKeeps(Find(w, x).value, horizontal);
  }

  // ---- delete_all_subwindows ----

  /** The step: the subwindows are dropped; positions are not recomputed. */
  function ClearSubwindows(n: Window): Window
  {
    n.(subwindows := [])
  }

  /** delete_all_subwindows(x): the first window with id x loses its subwindows. 0 on success, -1 otherwise. */
  function DeleteAllSubwindowsOn(w: Window, x: int): (Window, int)
  {
    var (r, found) := ModifyFirst(w, IdIs(x), ClearSubwindows);
    (r, if found then 0 else -1)
  }

  /** delete_all_subwindows succeeds exactly for the ids of the tree and otherwise changes nothing. */
  lemma DeleteAllSubwindowsFound(w: Window, x: int)
    ensures DeleteAllSubwindowsOn(w, x).1 == (if x in Ids(w) then 0 else -1)
    ensures DeleteAllSubwindowsOn(w, x).1 == -1 ==> DeleteAllSubwindowsOn(w, x).0 == w
  {
    ModifyFirstFound(w, IdIs(x), ClearSubwindows);
    AnyNodeIdIs(w, x);
  }

  /** delete_all_subwindows keeps ids unique, only loses ids, and leaves a laid-out tree laid out. */
  lemma DeleteAllSubwindowsKeeps(w: Window, x: int)
    requires UniqueIds(w)
    ensures var r := DeleteAllSubwindowsOn(w, x).0;
      UniqueIds(r) && Ids(r) <= Ids(w) && (LaidOut(w) ==> LaidOut(r))
  {
    forall n: Window
      ensures Ids(ClearSubwindows(n)) == {n.id} && UniqueIds(ClearSubwindows(n)) && {n.id} <= Ids(n)
      ensures LaidOut(ClearSubwindows(n)) && ClearSubwindows(n).pos == n.pos && ClearSubwindows(n).weight == n.weight
    {
    }
    ModifyFirstUnique(w, IdIs(x), ClearSubwindows, {});
    if LaidOut(w) {
      ModifyFirstLaidOut(w, IdIs(x), ClearSubwindows);
    }
  }

  /** After delete_all_subwindows the window with id x is the one before, without subwindows. */
  lemma DeleteAllSubwindowsFind(w: Window, x: int)
    requires UniqueIds(w) && x in Ids(w)
    ensures Find(w, x).Some?
    ensures Find(DeleteAllSubwindowsOn(w, x).0, x) == Some(Find(w, x).value.(subwindows := []))
  {
    ModifyFirstFound(w, IdIs(x), ClearSubwindows);
    AnyNodeIdIs(w, x);
    ModifyFirstFind(w, IdIs(x), ClearSubwindows, x);
  }

  // ---- delete_subwindow ----

  /** The index of the first window with id x in ws, or |ws| when there is none. */
  function ChildIndex(ws: seq<Window>, x: int): nat
  {
    if |ws| == 0 || ws[0].id == x then 0 else 1 + ChildIndex(ws[1..], x)
  }

  lemma {:induction false} ChildIndexFirst(ws: seq<Window>, x: int)
    ensures ChildIndex(ws, x) <= |ws|
    ensures ChildIndex(ws, x) < |ws| ==> ws[ChildIndex(ws, x)].id == x
    ensures forall k :: 0 <= k < ChildIndex(ws, x) ==> ws[k].id != x
    decreases |ws|
  {
    if |ws| > 0 && ws[0].id != x {
      ChildIndexFirst(ws[1..], x);
    }
  }

  /** The windows delete_subwindow acts on: those with a direct subwindow of id x. */
  function HasChild(x: int): Window -> bool
  {
    (n: Window) => ChildIndex(n.subwindows, x) < |n.subwindows|
  }

  /** The step: the first direct subwindow with id x is erased (vec_remove); positions are not recomputed. */
  function RemoveChild(x: int): Window -> Window
  {
    (n: Window) =>
      var k := ChildIndex(n.subwindows, x);
      if k < |n.subwindows| then n.(subwindows := VecRemove(n.subwindows, k)) else n
  }

  /** delete_subwindow(x): erase the window with id x from its parent's subwindows. 0 on success, -1 otherwise. */
  function DeleteSubwindowOn(w: Window, x: int): (Window, int)
  {
    var (r, found) := ModifyFirst(w, HasChild(x), RemoveChild(x));
    (r, if found then 0 else -1)
  }

  /** Some window has a direct subwindow with id x exactly when x is an id below the root. */
  lemma {:induction false} AnyNodeHasChild(w: Window, x: int)
    ensures AnyNode(w, HasChild(x)) <==> x in ChildIds(w, 0)
    decreases w
  {
    ChildIndexFirst(w.subwindows, x);
    AnyChildMembers(w, HasChild(x), 0);
    ChildIdsMembers(w, 0, x);
    forall j | 0 <= j < |w.subwindows|
      ensures AnyNode(w.subwindows[j], HasChild(x)) <==> x in ChildIds(w.subwindows[j], 0)
    {
      AnyNodeHasChild(w.subwindows[j], x);
    }
  }

  /**
   * delete_subwindow succeeds exactly for the ids below the root, so it
   * fails for the root's own id; a failure changes nothing.
   */
  lemma DeleteSubwindowFound(w: Window, x: int)
    requires UniqueIds(w)
    ensures DeleteSubwindowOn(w, x).1 == (if x in ChildIds(w, 0) then 0 else -1)
    ensures DeleteSubwindowOn(w, x).1 == -1 ==> DeleteSubwindowOn(w, x).0 == w
    ensures x == w.id ==> DeleteSubwindowOn(w, x) == (w, -1)
  {
    ModifyFirstFound(w, HasChild(x), RemoveChild(x));
    AnyNodeHasChild(w, x);
  }

  /** Erasing subwindow k leaves, below the window, only ids it had and none of the erased subtree's. */
  lemma RemoveAtIds(n: Window, k: nat)
    requires UniqueIds(n) && k < |n.subwindows|
    ensures var m := n.(subwindows := VecRemove(n.subwindows, k));
      ChildIds(m, 0) <= ChildIds(n, 0) && ChildIds(m, 0) !! Ids(n.subwindows[k])
  {
    var ws := n.subwindows;
    var m := n.(subwindows := VecRemove(ws, k));
    var vs := m.subwindows;
    forall y | y in ChildIds(m, 0)
      ensures y in ChildIds(n, 0) && y !in Ids(ws[k])
    {
      ChildIdsMembers(m, 0, y);
      ChildIdsMembers(n, 0, y);
      var j :| 0 <= j < |vs| && y in Ids(vs[j]);
      var j' := if j < k then j else j + 1;
      assert vs[j] == ws[j'];
      assert Ids(ws[j']) !! Ids(ws[k]);
    }
  }

  /** Erasing a subwindow keeps ids unique. */
  lemma RemoveAtUnique(n: Window, k: nat)
    requires UniqueIds(n) && k < |n.subwindows|
    ensures UniqueIds(n.(subwindows := VecRemove(n.subwindows, k)))
  {
    var ws := n.subwindows;
    var vs := VecRemove(ws, k);
    RemoveAtIds(n, k);
    forall i, j | 0 <= i < j < |vs|
      ensures Ids(vs[i]) !! Ids(vs[j])
    {
      var i' := if i < k then i else i + 1;
      var j' := if j < k then j else j + 1;
      assert vs[i] == ws[i'] && vs[j] == ws[j'];
    }
    forall j | 0 <= j < |vs|
      ensures UniqueIds(vs[j])
    {
      assert vs[j] == ws[if j < k then j else j + 1];
    }
  }

  /** Erasing the subwindow with id x loses only ids, that one among them, and keeps ids unique. */
  lemma RemoveChildKeeps(n: Window, x: int)
    requires UniqueIds(n) && HasChild(x)(n)
    ensures var r := RemoveChild(x)(n);
      Ids(r) <= Ids(n) && UniqueIds(r) && x !in Ids(r)
  {
    var k := ChildIndex(n.subwindows, x);
    ChildIndexFirst(n.subwindows, x);
    RemoveAtIds(n, k);
    RemoveAtUnique(n, k);
    ChildIdsMembers(n, 0, x);
  }

  /**
   * A successful delete_subwindow removes x from the tree, and every
   * delete_subwindow keeps ids unique and adds none.
   */
  lemma DeleteSubwindowKeeps(w: Window, x: int)
    requires UniqueIds(w)
    ensures var r := DeleteSubwindowOn(w, x).0;
      UniqueIds(r) && Ids(r) <= Ids(w) && (DeleteSubwindowOn(w, x).1 == 0 ==> x !in Ids(r))
  {
    var p := HasChild(x);
    var f := RemoveChild(x);
    forall n: Window | p(n)
      ensures x in Ids(n)
      ensures UniqueIds(n) ==> x !in Ids(f(n)) && UniqueIds(f(n)) && Ids(f(n)) <= Ids(n)
    {
      ChildIndexFirst(n.subwindows, x);
      SubwindowIds(n, ChildIndex(n.subwindows, x));
      if UniqueIds(n) {
        RemoveChildKeeps(n, x);
      }
    }
    ModifyFirstUnique(w, p, f, {});
    if DeleteSubwindowOn(w, x).1 == 0 {
      ModifyFirstDrops(w, p, f, x);
    }
  }

  // ---- window_exists and get_window_position ----

  /** window_exists as written: the root, then the direct subwindows, then each subtree in turn. */
  predicate WindowExistsIn(w: Window, x: int)
    decreases w, 1, 0
  {
    w.id == x || ChildIndex(w.subwindows, x) < |w.subwindows| || ExistsBelow(w, x, 0)
  }

  predicate ExistsBelow(w: Window, x: int, i: nat)
    decreases w, 0, |w.subwindows| - i
  {
    i < |w.subwindows| && (WindowExistsIn(w.subwindows[i], x) || ExistsBelow(w, x, i + 1))
  }

  /** window_exists holds exactly for the ids of the tree. */
  lemma {:induction false} WindowExistsIds(w: Window, x: int)
    ensures WindowExistsIn(w, x) <==> x in Ids(w)
    decreases w, 1, 0
  {
    ChildIndexFirst(w.subwindows, x);
    ChildIdsMembers(w, 0, x);
    if ChildIndex(w.subwindows, x) < |w.subwindows| {
      assert x in Ids(w.subwindows[ChildIndex(w.subwindows, x)]);
    }
    ExistsBelowIds(w, x, 0);
  }

  lemma {:induction false} ExistsBelowIds(w: Window, x: int, i: nat)
    ensures ExistsBelow(w, x, i) <==> x in ChildIds(w, i)
    decreases w, 0, |w.subwindows| - i
  {
    if i < |w.subwindows| {
      WindowExistsIds(w.subwindows[i], x);
      ExistsBelowIds(w, x, i + 1);
    }
  }

  /**
   * get_window_position(x, &pos): 0 and the position of the first window
   * with id x, or -1 with pos as it was.
   */
  function PositionOf(w: Window, x: int, current: Rect): (int, Rect)
  {
    match Find(w, x)
    case Some(n) => (0, n.pos)
    case None => (-1, current)
  }

  /** get_window_position succeeds exactly when window_exists holds, and reports the window with id x. */
  lemma PositionOfEffect(w: Window, x: int, current: Rect)
    ensures PositionOf(w, x, current).0 == 0 <==> WindowExistsIn(w, x)
    ensures PositionOf(w, x, current).0 != 0 ==> PositionOf(w, x, current) == (-1, current)
    ensures PositionOf(w, x, current).0 == 0 ==>
      exists n :: Find(w, x) == Some(n) && n.id == x && PositionOf(w, x, current).1 == n.pos
  {
    FindIds(w, x);
    WindowExistsIds(w, x);
  }

  // ---- the legacy test ----

  /** A window without subwindows is placed by taking the position. */
  lemma PlaceLeaf(n: Window, p: Rect)
    requires n.subwindows == []
    ensures Place(n, p) == n.(pos := p)
  {
  }

  /** Adding a subwindow to a leaf at r gives it all of r. */
  lemma TestFirstAdd(a: int, b: int, r: Rect)
    ensures AddSubwindowOn(Place(NewWindow(a, 1.0, false), r), 1.0, a, false, b)
      == (Window(a, 1.0, false, [Window(b, 1.0, false, [], r)], r), b)
  {
    var w0 := Window(a, 1.0, false, [], r);
    var m := w0.(subwindows := [NewWindow(b, 1.0, false)]);
    assert Place(NewWindow(a, 1.0, false), r) == w0 by {
      PlaceLeaf(NewWindow(a, 1.0, false), r);
    }
    assert Place(m, r) == Window(a, 1.0, false, [Window(b, 1.0, false, [], r)], r) by {
      PlaceShape(m, r);
      assert m.subwindows[..0] == [];
      assert WeightSum(m.subwindows) == 1.0;
      PlaceLeaf(NewWindow(b, 1.0, false), Slot(r, false, 1.0, 0.0, 1.0));
    }
    assert AddSubwindowOn(w0, 1.0, a, false, b) == (Place(m, r), b);
  }

  /** Placing a window with two leaf subwindows puts them in the two slots of their weights. */
  lemma PlaceTwoLeaves(m: Window, r: Rect)
    requires |m.subwindows| == 2 && m.subwindows[0].subwindows == [] && m.subwindows[1].subwindows == []
    ensures var u := m.subwindows[0].weight;
      var v := m.subwindows[1].weight;
      Place(m, r) == m.(pos := r, subwindows := [m.subwindows[0].(pos := Slot(r, m.horizontal, u + v, 0.0, u)),
                                                m.subwindows[1].(pos := Slot(r, m.horizontal, u + v, u, v))])
  {
    var ws := m.subwindows;
    var u := ws[0].weight;
    var v := ws[1].weight;
    var S := Place(m, r).subwindows;
    PlaceShape(m, r);
    assert ws[..0] == [];
    assert ws[..1] == [ws[0]];
    assert ws[..2] == ws;
    assert WeightSum(ws[..1]) == u;
    assert WeightSum(ws) == u + v;
    PlaceLeaf(ws[0], Slot(r, m.horizontal, u + v, 0.0, u));
    PlaceLeaf(ws[1], Slot(r, m.horizontal, u + v, u, v));
    assert S == [S[0], S[1]];
  }

  /** Adding a subwindow of weight 3 beside one of weight 1 splits the height 1 : 3. */
  lemma TestSecondAdd(a: int, b: int, c: int)
    requires c != -1
    ensures var r := Rect(0.0, 0.0, 1000.0, 800.0);
      AddSubwindowOn(Window(a, 1.0, false, [Window(b, 1.0, false, [], r)], r), 3.0, a, false, c)
      == (Window(a, 1.0, false, [Window(b, 1.0, false, [], Rect(0.0, 0.0, 1000.0, 200.0)),
                                 Window(c, 3.0, false, [], Rect(0.0, 200.0, 1000.0, 600.0))], r), c)
  {
    var r := Rect(0.0, 0.0, 1000.0, 800.0);
    var kid := Window(b, 1.0, false, [], r);
    var w1 := Window(a, 1.0, false, [kid], r);
    var m := Window(a, 1.0, false, [kid, NewWindow(c, 3.0, false)], r);
    assert w1.subwindows + [NewWindow(c, 3.0, false)] == m.subwindows;
    assert AddSubwindowOn(w1, 3.0, a, false, c) == (Place(m, r), c);
    assert Slot(r, false, 4.0, 0.0, 1.0) == Rect(0.0, 0.0, 1000.0, 200.0);
    assert Slot(r, false, 4.0, 1.0, 3.0) == Rect(0.0, 200.0, 1000.0, 600.0);
    PlaceTwoLeaves(m, r);
  }

  /**
   * TEST_WindowLayout on values: a window at (0,0)-(1000,800) split
   * vertically into subwindows of weights 1 and 3 gives them the y-ranges
   * [0,200] and [200,800] across the full width.
   */
  lemma TestLayoutValues(a: int, b: int, c: int)
    requires a != b && a != c && b != c && c != -1
    ensures var w0 := Place(NewWindow(a, 1.0, false), Rect(0.0, 0.0, 1000.0, 800.0));
      var w1 := AddSubwindowOn(w0, 1.0, a, false, b);
      var w2 := AddSubwindowOn(w1.0, 3.0, a, false, c);
      && w1.1 == b && w2.1 == c
      && PositionOf(w2.0, b, ZeroRect) == (0, Rect(0.0, 0.0, 1000.0, 200.0))
      && PositionOf(w2.0, c, ZeroRect) == (0, Rect(0.0, 200.0, 1000.0, 600.0))
  {
    var r := Rect(0.0, 0.0, 1000.0, 800.0);
    var w2 := Window(a, 1.0, false, [Window(b, 1.0, false, [], Rect(0.0, 0.0, 1000.0, 200.0)),
                                     Window(c, 3.0, false, [], Rect(0.0, 200.0, 1000.0, 600.0))], r);
    assert AddSubwindowOn(AddSubwindowOn(Place(NewWindow(a, 1.0, false), r), 1.0, a, false, b).0, 3.0, a, false, c) == (w2, c) by {
      TestFirstAdd(a, b, r);
      TestSecondAdd(a, b, c);
    }
    assert AddSubwindowOn(Place(NewWindow(a, 1.0, false), r), 1.0, a, false, b).1 == b by {
      TestFirstAdd(a, b, r);
    }
    assert Find(w2.subwindows[0], b) == Some(w2.subwindows[0]);
    assert FindChild(w2, b, 0) == Some(w2.subwindows[0]);
    assert Find(w2, b) == Some(w2.subwindows[0]);
    assert PositionOf(w2, b, ZeroRect) == (0, Rect(0.0, 0.0, 1000.0, 200.0));
    assert Find(w2.subwindows[0], c) == None;
    assert FindChild(w2, c, 1) == Some(w2.subwindows[1]);
    assert Find(w2, c) == Some(w2.subwindows[1]);
    assert PositionOf(w2, c, ZeroRect) == (0, Rect(0.0, 200.0, 1000.0, 600.0));
  }

  /** The test's calls in sequence: the first add creates a + 1, the second a + 2, laid out 1 : 3 down the 800-high root. */
  lemma TestChain(w0: Window, a: int, n0: int, master: int, w1: Window, id1: int, n1: int, w2: Window, id2: int)
    requires a >= 0 && n0 == a && master == w0.id
    requires w0 == Place(NewWindow(a, 1.0, false), Rect(0.0, 0.0, 1000.0, 800.0))
    requires w1 == AddSubwindowOn(w0, 1.0, master, false, n0 + 1).0 && id1 == AddSubwindowOn(w0, 1.0, master, false, n0 + 1).1
    requires n1 == n0 + (if id1 == -1 then 0 else 1)
    requires w2 == AddSubwindowOn(w1, 3.0, master, false, n1 + 1).0 && id2 == AddSubwindowOn(w1, 3.0, master, false, n1 + 1).1
    ensures id1 == a + 1 && id2 == a + 2
    ensures PositionOf(w2, id1, ZeroRect) == (0, Rect(0.0, 0.0, 1000.0, 200.0))
    ensures PositionOf(w2, id2, ZeroRect) == (0, Rect(0.0, 200.0, 1000.0, 600.0))
  {
    assert w0.id == a by {
      PlaceShape(NewWindow(a, 1.0, false), Rect(0.0, 0.0, 1000.0, 800.0));
    }
    TestLayoutValues(a, a + 1, a + 2);
  }

  // ---- the objects ----

  /** Unique ids, all among the first n the counter handed out. */
  ghost predicate IdsIssued(w: Window, n: int)
  {
    UniqueIds(w) && forall y :: y in Ids(w) ==> 0 < y <= n
  }

  /** add_subwindow with the next id keeps the ids issued, counting the new one when it is created. */
  lemma AddSubwindowIssued(w: Window, weight: real, windowId: int, horizontal: bool, n: int)
    requires IdsIssued(w, n)
    ensures AddSubwindowOn(w, weight, windowId, horizontal, n + 1).1 == -1 <==> windowId != -1 && windowId !in Ids(w)
    ensures AddSubwindowOn(w, weight, windowId, horizontal, n + 1).1 == -1 ==> AddSubwindowOn(w, weight, windowId, horizontal, n + 1).0 == w
    ensures AddSubwindowOn(w, weight, windowId, horizontal, n + 1).1 != -1 ==>
      AddSubwindowOn(w, weight, windowId, horizontal, n + 1).1 == n + 1 && IdsIssued(AddSubwindowOn(w, weight, windowId, horizontal, n + 1).0, n + 1)
  {
    var r := AddSubwindowOn(w, weight, windowId, horizontal, n + 1);
    assert n + 1 !in Ids(w);
    AddSubwindowFound(w, weight, windowId, horizontal, n + 1);
    if r.1 != -1 {
      assert IdsIssued(r.0, n + 1) by {
        AddSubwindowIds(w, weight, windowId, horizontal, n + 1);
      }
    }
  }

  /** add_subwindow on a tree, drawing the new id from the counter only when the window is created. */
  method AddCounted(w: Window, weight: real, windowId: int, horizontal: bool, counter: InstanceCounter) returns (r: Window, id: int)
    modifies counter
    ensures (r, id) == AddSubwindowOn(w, weight, windowId, horizontal, old(counter.count) + 1)
    ensures counter.count == old(counter.count) + (if id == -1 then 0 else 1)
  {
    var res := AddSubwindowOn(w, weight, windowId, horizontal, counter.count + 1);
    r, id := res.0, res.1;
    if id != -1 {
      var issued := counter.NextId();
    }
  }

  /** ClassInstanceCounter's static count: every construction bumps it and takes the new value as id. */
  class InstanceCounter {
    var count: int

    constructor (start: int)
      ensures count == start
    {
      count := start;
    }

    /** _get_instance_count(true). */
    method NextId() returns (id: int)
      modifies this
      ensures count == old(count) + 1 && id == count
    {
      count := count + 1;
      id := count;
    }
  }

  /** A WindowLayout object: the tree it is the root of. */
  class WindowLayout {
    var tree: Window

    /** The ids are unique and all were handed out by the counter, which starts at 0. */
    ghost predicate Valid(counter: InstanceCounter)
      reads this, counter
    {
      IdsIssued(tree, counter.count)
    }

    /** WindowLayout(): weight 1, a vertical split, no subwindows, an empty rectangle, a fresh id. */
    constructor (counter: InstanceCounter)
      requires counter.count >= 0
      modifies counter
      ensures counter.count == old(counter.count) + 1
      ensures tree == NewWindow(counter.count, 1.0, false)
      ensures Valid(counter)
    {
      var id := counter.NextId();
      assert Ids(NewWindow(id, 1.0, false)) == {id};
      tree := NewWindow(id, 1.0, false);
    }

    /** set_window_position(min_x, min_y, max_x, max_y): the whole tree is laid out from the new rectangle. */
    method SetWindowPosition(minX: real, minY: real, maxX: real, maxY: real, ghost counter: InstanceCounter)
      requires Valid(counter)
      modifies this
      ensures tree == Place(old(tree), Rect(minX, minY, maxX - minX, maxY - minY))
      ensures LaidOut(tree) && Ids(tree) == Ids(old(tree)) && Valid(counter)
    {
      var p := Rect(minX, minY, maxX - minX, maxY - minY);
      PlaceIds(tree, p);
      PlaceUnique(tree, p);
      PlaceLaysOut(tree, p);
      tree := Place(tree, p);
    }

    /** get_window_position(x, &pos). */
    method GetWindowPosition(x: int, current: Rect) returns (code: int, pos: Rect)
      ensures (code, pos) == PositionOf(tree, x, current)
      ensures code == 0 <==> x in Ids(tree)
    {
      FindIds(tree, x);
      match Find(tree, x)
      case Some(n) =>
        code, pos := 0, n.pos;
      case None =>
        code, pos := -1, current;
    }

    /**
     * add_subwindow(weight, x, horizontal): a new window, with the next id,
     * is appended to the window with id x (-1 meaning this one); the
     * counter moves only when a window is created.
     */
    method AddSubwindow(weight: real, x: int, horizontal: bool, counter: InstanceCounter) returns (id: int)
      requires Valid(counter)
      modifies this, counter
      ensures tree == AddSubwindowOn(old(tree), weight, x, horizontal, old(counter.count) + 1).0
      ensures id == AddSubwindowOn(old(tree), weight, x, horizontal, old(counter.count) + 1).1
      ensures counter.count == old(counter.count) + (if id == -1 then 0 else 1)
      ensures Valid(counter)
    {
      ghost var before, n := tree, counter.count;
      tree, id := AddCounted(tree, weight, x, horizontal, counter);
      assert Valid(counter) by {
        AddSubwindowIssued(before, weight, x, horizontal, n);
      }
    }

    /** set_weight(x, weight). */
    method SetWeight(x: int, weight: real, ghost counter: InstanceCounter) returns (code: int)
      requires Valid(counter)
      modifies this
      ensures (tree, code) == SetWeightOn(old(tree), x, weight)
      ensures Ids(tree) == Ids(old(tree)) && Valid(counter)
    {
      SetWeightKeeps(tree, x, weight);
      var (r, c) := SetWeightOn(tree, x, weight);
      tree, code := r, c;
    }

    /** set_split_window_horizontal(horizontal, x). */
    method SetSplitWindowHorizontal(horizontal: bool, x: int, ghost counter: InstanceCounter) returns (code: int)
      requires Valid(counter)
      modifies this
      ensures (tree, code) == SetSplitOn(old(tree), horizontal, x)
      ensures Ids(tree) == Ids(old(tree)) && Valid(counter)
    {
      SetSplitEffect(tree, horizontal, x);
      var (r, c) := SetSplitOn(tree, horizontal, x);
      tree, code := r, c;
    }

    /** delete_all_subwindows(x). */
    method DeleteAllSubwindows(x: int, ghost counter: InstanceCounter) returns (code: int)
      requires Valid(counter)
      modifies this
      ensures (tree, code) == DeleteAllSubwindowsOn(old(tree), x)
      ensures Ids(tree) <= Ids(old(tree)) && Valid(counter)
    {
      DeleteAllSubwindowsKeeps(tree, x);
      var (r, c) := DeleteAllSubwindowsOn(tree, x);
      tree, code := r, c;
    }

    /** delete_subwindow(x). */
    method DeleteSubwindow(x: int, ghost counter: InstanceCounter) returns (code: int)
      requires Valid(counter)
      modifies this
      ensures (tree, code) == DeleteSubwindowOn(old(tree), x)
      ensures Ids(tree) <= Ids(old(tree)) && Valid(counter)
      ensures code == 0 ==> x !in Ids(tree)
    {
      DeleteSubwindowKeeps(tree, x);
      var (r, c) := DeleteSubwindowOn(tree, x);
      tree, code := r, c;
    }

    /** window_exists(x). */
    method WindowExists(x: int) returns (b: bool)
      ensures b == WindowExistsIn(tree, x)
      ensures b <==> x in Ids(tree)
    {
      WindowExistsIds(tree, x);
      b := WindowExistsIn(tree, x);
    }
  }

  /**
   * TEST_WindowLayout: a fresh layout at (0,0)-(1000,800) with subwindows
   * of weights 1 and 3 added to it; their positions are the top quarter
   * and the rest. The counter is global, so it may already stand at any
   * count when the test starts.
   */
  method TestWindowLayout(counter: InstanceCounter) returns (control: Rect, game: Rect)
    requires counter.count >= 0
    modifies counter
    ensures control == Rect(0.0, 0.0, 1000.0, 200.0)
    ensures game == Rect(0.0, 200.0, 1000.0, 600.0)
  {
    var layout := new WindowLayout(counter);
    ghost var a := counter.count;
    layout.SetWindowPosition(0.0, 0.0, 1000.0, 800.0, counter);
    ghost var w0, n0 := layout.tree, counter.count;
    var master := layout.tree.id;
    var controlWindow := layout.AddSubwindow(1.0, master, false, counter);
    ghost var w1, n1 := layout.tree, counter.count;
    var gameWindow := layout.AddSubwindow(3.0, master, false, counter);
    TestChain(w0, a, n0, master, w1, controlWindow, n1, layout.tree, gameWindow);
    var code;
    code, control := layout.GetWindowPosition(controlWindow, ZeroRect);
    code, game := layout.GetWindowPosition(gameWindow, ZeroRect);
  }

}
