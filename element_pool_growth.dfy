/**
 * The growth of the pool of layout elements as the source writes it.
 * `_assert_free_exists` grows the slot vectors with `std::vector::resize`,
 * which copies every old `_LayoutElement` into the new storage and then
 * destroys the old copies. `_LayoutElement`'s destructor fires the
 * element's deleted alert and erases every part it holds, so a growth
 * frees the parts of every element in use while the copies keep the
 * now-expired handles. The rest of the model (PoolAllocation.Pool and the
 * LayoutElementManager) keeps the copies whole, which is what the code
 * evidently means; this module records the difference.
 */
module ElementPoolGrowth {
  import opened Wrappers
  import opened Shapes
  import opened PoolAllocation
  import opened LayoutElements

  /** _PoolAllocator<_LayoutElement>: the four vectors, next_free, free_count and total_allocation_count. */
  datatype PoolState = PoolState(
    keys: seq<Key>,
    data: seq<Element>,
    nextFreeVec: seq<int>,
    nextFree: int,
    freeCount: int,
    total: nat)

  /** The key, data and link vectors have one entry per slot. */
  predicate Shaped(st: PoolState)
  {
    |st.keys| == |st.data| == |st.nextFreeVec|
  }

  /** No element in use holds a part handle that is still live. */
  predicate NoHeldLiveParts(keys: seq<Key>, data: seq<Element>, from: nat)
    requires |keys| == |data|
  {
    forall j, k :: from <= j < |data| && !keys[j].free && 0 <= k < |data[j].parts| ==> !Live(keys, data[j].parts[k])
  }

  /**
   * delete_all_parts on an old copy: pool_ptr::erase on each handle in
   * turn, which frees the slot when the handle is still live.
   */
  function EraseHandles(keys: seq<Key>, parts: seq<Ptr>): (r: seq<Key>)
    ensures OnlyFreed(keys, r, {})
    ensures forall k :: 0 <= k < |parts| ==> !Live(r, parts[k])
    ensures (forall k :: 0 <= k < |parts| ==> !Live(keys, parts[k])) ==> r == keys
    decreases |parts|
  {
    if parts == [] then keys
    else
      var p := parts[0];
      var keys1 := if Live(keys, p) then keys[p.index := Key(p.key.nr, true)] else keys;
      var r := EraseHandles(keys1, parts[1..]);
      assert OnlyFreed(keys, keys1, {});
      OnlyFreedTrans(keys, keys1, r, {}, {});
      assert forall k :: 1 <= k < |parts| ==> parts[k] == parts[1..][k - 1];
      OnlyFreedKeepsExpired(keys1, r, {}, p);
      r
  }

  /**
   * The destruction of the old copies, slot i onwards: each element that
   * was in use (keys0) fires its deleted alert and erases its parts. A slot
   * already free holds a destroyed or default element with no parts.
   */
  function DestroyCopies(keys0: seq<Key>, data: seq<Element>, i: nat, keys: seq<Key>, alerts: seq<Alert>): (r: (seq<Key>, seq<Alert>))
    requires |keys0| == |data| == |keys| && i <= |data|
    ensures OnlyFreed(keys, r.0, {}) && OnlyDeleted(alerts, r.1)
    ensures forall j, k :: i <= j < |data| && !keys0[j].free && 0 <= k < |data[j].parts| ==> !Live(r.0, data[j].parts[k])
    ensures forall j :: i <= j < |data| && !keys0[j].free ==> Deleted(Ptr(j, keys0[j])) in r.1[|alerts|..]
    ensures (forall j, k :: i <= j < |data| && !keys0[j].free && 0 <= k < |data[j].parts| ==> !Live(keys, data[j].parts[k]))
      ==> r.0 == keys
    decreases |data| - i
  {
    if i == |data| then (keys, alerts)
    else if keys0[i].free then DestroyCopies(keys0, data, i + 1, keys, alerts)
    else
      var keys1 := EraseHandles(keys, data[i].parts);
      var alerts1 := alerts + [Deleted(Ptr(i, keys0[i]))];
      var r := DestroyCopies(keys0, data, i + 1, keys1, alerts1);
      OnlyFreedTrans(keys, keys1, r.0, {}, {});
      OnlyDeletedTrans(alerts, alerts1, r.1);
      assert r.1[|alerts|..] == [Deleted(Ptr(i, keys0[i]))] + r.1[|alerts1|..];
      forall k | 0 <= k < |data[i].parts|
        ensures !Live(r.0, data[i].parts[k])
      {
        OnlyFreedKeepsExpired(keys1, r.0, {}, data[i].parts[k]);
      }
      r
  }

  /**
   * _assert_free_exists as written: the first slot for an empty pool;
   * when no slot is free, the old copies are destroyed and the capacity
   * doubles, the new slots are free, numbered 1 and linked in order, and
   * next_free and free_count are reset to the new half. The links the
   * destroying erasures write into _next_free_vec are left out: next_free
   * and free_count are overwritten right after, so those slots are lost.
   */
  function AssertFreeExistsAsWritten(st: PoolState, alerts: seq<Alert>): (r: (PoolState, seq<Alert>))
    requires Shaped(st)
    ensures Shaped(r.0) && r.0.total == st.total && OnlyDeleted(alerts, r.1)
    ensures |st.keys| == 0 || st.freeCount == 0 ==>
      r.0.freeCount > 0 && r.0.nextFree == |st.keys| && |r.0.keys| == Capacity(|st.keys|, 0)
      && (forall i :: |st.keys| <= i < |r.0.keys| ==> r.0.keys[i].free)
    ensures |st.keys| > 0 && st.freeCount != 0 ==> r == (st, alerts)
    ensures |r.0.keys| >= |st.keys| && r.0.data[..|st.data|] == st.data && OnlyFreed(st.keys, r.0.keys[..|st.keys|], {})
  {
    if |st.keys| == 0 then
      (PoolState([Key(0, true)], [NewElement], [0], 0, 1, st.total), alerts)
    else if st.freeCount == 0 then
      var n := |st.keys|;
      var destroyed := DestroyCopies(st.keys, st.data, 0, st.keys, alerts);
      var keys := destroyed.0 + seq(n, _ => Key(1, true));
      assert keys[..n] == destroyed.0;
      (PoolState(keys, st.data + seq(n, _ => NewElement), st.nextFreeVec + seq(n, j => n + j + 1), n, n, st.total), destroyed.1)
    else
      (st, alerts)
  }

  /**
   * A growth erases every part held by an element in use: the copies keep
   * their parts vectors, but no handle in them is live any more, and each
   * element in use has fired its deleted alert.
   */
  lemma GrowthErasesHeldParts(st: PoolState, alerts: seq<Alert>)
    requires Shaped(st) && |st.keys| > 0 && st.freeCount == 0
    ensures var (st1, alerts1) := AssertFreeExistsAsWritten(st, alerts);
      && (forall j :: 0 <= j < |st.data| ==> st1.data[j] == st.data[j])
      && (forall j, k :: 0 <= j < |st.data| && !st.keys[j].free && 0 <= k < |st.data[j].parts| ==> !Live(st1.keys, st.data[j].parts[k]))
      && (forall j :: 0 <= j < |st.data| && !st.keys[j].free ==> Deleted(Ptr(j, st.keys[j])) in alerts1[|alerts|..])
  {
    var n := |st.keys|;
    var destroyed := DestroyCopies(st.keys, st.data, 0, st.keys, alerts);
    var st1 := AssertFreeExistsAsWritten(st, alerts).0;
    assert st1.keys[..n] == destroyed.0;
    forall j, k | 0 <= j < n && !st.keys[j].free && 0 <= k < |st.data[j].parts|
      ensures !Live(st1.keys, st.data[j].parts[k])
    {
      var p := st.data[j].parts[k];
      if 0 <= p.index < n {
        assert st1.keys[p.index] == destroyed.0[p.index];
      }
    }
  }

  /**
   * Where no element in use holds a live part, the growth as written
   * agrees with the corrected one: the old keys stay as they were.
   */
  lemma GrowthWithoutHeldPartsKeepsKeys(st: PoolState, alerts: seq<Alert>)
    requires Shaped(st) && |st.keys| > 0 && st.freeCount == 0 && NoHeldLiveParts(st.keys, st.data, 0)
    ensures var st1 := AssertFreeExistsAsWritten(st, alerts).0;
      |st1.keys| == 2 * |st.keys| && st1.keys[..|st.keys|] == st.keys
      && forall i :: |st.keys| <= i < |st1.keys| ==> st1.keys[i] == Key(1, true)
  {
    var n := |st.keys|;
    var destroyed := DestroyCopies(st.keys, st.data, 0, st.keys, alerts);
    assert destroyed.0 == st.keys;
  }

  /**
   * pool_ptr::push as written: allocate_free_index (with its check that the
   * slot taken is free while others remain), then the value written into
   * the slot. A next_free outside the vectors, which the source does not
   * check, is a failure here.
   */
  function PushAsWritten(st: PoolState, alerts: seq<Alert>, value: Element): (r: Result<(PoolState, seq<Alert>, Ptr)>)
    requires Shaped(st)
    ensures r.Success? ==>
      var (st2, alerts2, q) := r.value;
      Shaped(st2) && st2.total == st.total + 1 && OnlyDeleted(alerts, alerts2)
      && q.key == Key(st2.total, false) && Live(st2.keys, q) && st2.data[q.index] == value
      && |st2.keys| >= |st.keys|
      && (forall i :: 0 <= i < |st.data| && i != q.index ==> st2.data[i] == st.data[i])
    ensures |st.keys| == 0 || st.freeCount == 0 ==> r.Success?
  {
    var (st1, alerts1) := AssertFreeExistsAsWritten(st, alerts);
    var index := st1.nextFree;
    if !(0 <= index < |st1.keys|) then Failure("next_free is outside the pool")
    else
      var freeCount := st1.freeCount - 1;
      var total := st1.total + 1;
      if freeCount != 0 && !st1.keys[index].free then Failure("Assert(is_free(free_index) == true)")
      else
        var key := Key(total, false);
        var st2 := PoolState(st1.keys[index := key], st1.data[index := value], st1.nextFreeVec, st1.nextFreeVec[index], freeCount, total);
        assert forall i :: 0 <= i < |st.data| ==> st1.data[i] == st1.data[..|st.data|][i];
        assert forall i :: 0 <= i < |st.keys| ==> st1.keys[i] == st1.keys[..|st.keys|][i];
        Success((st2, alerts1, Ptr(index, key)))
  }

  /**
   * The second loop of set_parts_count as written: while the element has
   * fewer than count parts, push a default element, append its handle,
   * and check that the new part and the first part are live. Reading the
   * element through an expired handle fails (operator* asserts).
   */
  function GrowPartsAsWritten(st: PoolState, alerts: seq<Alert>, elem: Ptr, count: nat): (r: Result<(PoolState, seq<Alert>)>)
    requires Shaped(st) && elem.key.nr <= st.total
    ensures r.Success? ==> Shaped(r.value.0) && Live(r.value.0.keys, elem) && |r.value.0.data[elem.index].parts| >= count
    ensures r.Success? && 0 <= elem.index < |st.data| && |st.data[elem.index].parts| < count ==>
      Live(r.value.0.keys, r.value.0.data[elem.index].parts[0])
    decreases if 0 <= elem.index < |st.data| then count - |st.data[elem.index].parts| else 0
  {
    if !Live(st.keys, elem) then Failure("operator*: the element has expired")
    else if |st.data[elem.index].parts| >= count then Success((st, alerts))
    else
      match PushAsWritten(st, alerts, NewElement)
      case Failure(e) => Failure(e)
      case Success((st1, alerts1, q)) =>
        if !Live(st1.keys, elem) then Failure("operator*: the element has expired")
        else
          var parts := st1.data[elem.index].parts + [q];
          var st2 := st1.(data := st1.data[elem.index := st1.data[elem.index].(parts := parts)]);
          if !Live(st2.keys, parts[|parts| - 1]) then Failure("Assert(!parts.back().expired())")
          else if !Live(st2.keys, parts[0]) then Failure("Assert(!parts[0].expired())")
          else GrowPartsAsWritten(st2, alerts1, elem, count)
  }

  /** The pool a new _LayoutElementManager holds: the window element in slot 0, moved to (0, 0, 1000, 1000). */
  const WindowHandle := Ptr(0, Key(1, false))
  const NewManagerPool := PoolState([Key(1, false)], [NewElement.(position := Rect(0, 0, 1000, 1000))], [0], 0, 0, 1)

  /** The constructor's push into the empty pool gives that pool, before the move. */
  lemma NewManagerPush()
    ensures PushAsWritten(PoolState([], [], [], -1, 0, 0), [], NewElement)
      == Success((NewManagerPool.(data := [NewElement]), [], WindowHandle))
  {
    assert [Key(0, true)][0 := Key(1, false)] == [Key(1, false)];
    assert [NewElement][0 := NewElement] == [NewElement];
  }

  /** The trace of set_parts_count(window, 2) on a new manager: part 1 and the pool after each push. */
  const FirstPart := Ptr(1, Key(2, false))
  const WindowElement := NewManagerPool.data[0]
  const AfterFirstPush := PoolState([Key(1, false), Key(2, false)], [WindowElement, NewElement], [0, 2], 2, 0, 2)
  const WithFirstPart := AfterFirstPush.(data := AfterFirstPush.data[0 := WindowElement.(parts := [FirstPart])])
  const AlertsAfterFirstPush := [Moved(WindowHandle), Deleted(WindowHandle)]

  /** The first push doubles the pool from 1 slot to 2; destroying the window's old copy only fires its deleted alert. */
  lemma FirstPushAsWritten()
    ensures PushAsWritten(NewManagerPool, [Moved(WindowHandle)], NewElement)
      == Success((AfterFirstPush, AlertsAfterFirstPush, FirstPart))
  {
    var w := WindowElement;
    var m := [Moved(WindowHandle)];
    var a1 := AlertsAfterFirstPush;
    assert w.parts == [] && EraseHandles([Key(1, false)], []) == [Key(1, false)];
    assert m + [Deleted(Ptr(0, Key(1, false)))] == a1;
    assert DestroyCopies([Key(1, false)], [w], 1, [Key(1, false)], a1) == ([Key(1, false)], a1);
    assert DestroyCopies([Key(1, false)], [w], 0, [Key(1, false)], m) == ([Key(1, false)], a1);
    assert seq(1, _ => Key(1, true)) == [Key(1, true)];
    assert seq(1, j => 1 + j + 1) == [2];
    assert seq(1, _ => NewElement) == [NewElement];
    assert [Key(1, false)] + [Key(1, true)] == [Key(1, false), Key(1, true)];
    assert [w] + [NewElement] == [w, NewElement];
    assert [0] + [2] == [0, 2];
    var g1 := PoolState([Key(1, false), Key(1, true)], [w, NewElement], [0, 2], 1, 1, 1);
    assert AssertFreeExistsAsWritten(NewManagerPool, m) == (g1, a1);
    assert g1.keys[1 := Key(2, false)] == AfterFirstPush.keys && g1.data[1 := NewElement] == AfterFirstPush.data;
  }

  /** Destroying the two old copies: the window's erases part 1, and part 1's has no parts. */
  lemma SecondGrowthDestroys()
    ensures DestroyCopies(AfterFirstPush.keys, WithFirstPart.data, 0, AfterFirstPush.keys, AlertsAfterFirstPush)
      == ([Key(1, false), Key(2, true)], AlertsAfterFirstPush + [Deleted(WindowHandle), Deleted(FirstPart)])
  {
    var keys0 := AfterFirstPush.keys;
    var data := WithFirstPart.data;
    var a1 := AlertsAfterFirstPush;
    var keys2 := [Key(1, false), Key(2, true)];
    var a2 := a1 + [Deleted(WindowHandle), Deleted(FirstPart)];
    assert EraseHandles(keys2, []) == keys2;
    assert EraseHandles(keys0, [FirstPart]) == keys2;
    assert a1 + [Deleted(WindowHandle)] + [Deleted(Ptr(1, keys0[1]))] == a2;
    assert data[1].parts == [];
    assert DestroyCopies(keys0, data, 2, keys2, a2) == (keys2, a2);
    assert DestroyCopies(keys0, data, 1, keys2, a1 + [Deleted(WindowHandle)]) == (keys2, a2);
  }

  /** The state of the second push's _assert_free_exists: 4 slots, the new half free and linked, part 1 lost. */
  const SecondGrowth := PoolState([Key(1, false), Key(2, true)] + seq(2, _ => Key(1, true)),
                                  WithFirstPart.data + seq(2, _ => NewElement), [0, 2] + seq(2, j => 2 + j + 1), 2, 2, 2)

  /** The second push's growth doubles the pool from 2 slots to 4 and leaves slot 1 free but off the free list. */
  lemma SecondGrowthAsWritten()
    ensures AssertFreeExistsAsWritten(WithFirstPart, AlertsAfterFirstPush)
      == (SecondGrowth, AlertsAfterFirstPush + [Deleted(WindowHandle), Deleted(FirstPart)])
  {
    SecondGrowthDestroys();
  }

  /** After that growth slot 1 is marked free, but the free list runs 2, 3 and stops at 4: slot 1 is lost. */
  lemma SecondGrowthLosesSlotOne()
    ensures SecondGrowth.keys == [Key(1, false), Key(2, true), Key(1, true), Key(1, true)]
    ensures SecondGrowth.nextFreeVec == [0, 2, 3, 4] && SecondGrowth.nextFree == 2 && SecondGrowth.freeCount == 2
  {
    assert seq(2, _ => Key(1, true)) == [Key(1, true), Key(1, true)];
    assert seq(2, j => 2 + j + 1) == [3, 4];
  }

  /** The second push then takes slot 2, the head of the new free list, for the new part. */
  lemma SecondPushAsWritten()
    ensures PushAsWritten(WithFirstPart, AlertsAfterFirstPush, NewElement)
      == Success((SecondGrowth.(keys := SecondGrowth.keys[2 := Key(3, false)], nextFree := 3, freeCount := 1, total := 3),
                  AlertsAfterFirstPush + [Deleted(WindowHandle), Deleted(FirstPart)], Ptr(2, Key(3, false))))
  {
    SecondGrowthAsWritten();
    assert SecondGrowth.data[2 := NewElement] == SecondGrowth.data;
  }

  /** The loop's first round: the window element gets part 1, which is live, and the loop goes on. */
  lemma FirstRoundAsWritten()
    ensures GrowPartsAsWritten(NewManagerPool, [Moved(WindowHandle)], WindowHandle, 2)
      == GrowPartsAsWritten(WithFirstPart, AlertsAfterFirstPush, WindowHandle, 2)
  {
    FirstPushAsWritten();
    assert WindowElement.parts + [FirstPart] == [FirstPart];
  }

  /**
   * One round of the growing loop that ends at the check on parts[0]: the
   * push succeeds, the element survives it, but its first part does not.
   */
  lemma FirstPartLostInRound(st: PoolState, alerts: seq<Alert>, elem: Ptr, count: nat, st1: PoolState, alerts1: seq<Alert>, q: Ptr)
    requires Shaped(st) && elem.key.nr <= st.total && Live(st.keys, elem)
    requires |st.data[elem.index].parts| < count
    requires PushAsWritten(st, alerts, NewElement) == Success((st1, alerts1, q))
    requires Live(st1.keys, elem) && |st1.data[elem.index].parts| > 0 && !Live(st1.keys, st1.data[elem.index].parts[0])
    ensures GrowPartsAsWritten(st, alerts, elem, count) == Failure("Assert(!parts[0].expired())")
  {
    var parts := st1.data[elem.index].parts + [q];
    assert parts[0] == st1.data[elem.index].parts[0] && parts[|parts| - 1] == q;
  }

  /**
   * set_parts_count(window, 2) on a new manager, as written: in the second
   * round the window's first part has expired, so the check on parts[0]
   * inside the loop fails.
   */
  lemma TwoPartsFailAsWritten()
    ensures GrowPartsAsWritten(NewManagerPool, [Moved(WindowHandle)], WindowHandle, 2) == Failure("Assert(!parts[0].expired())")
  {
    FirstRoundAsWritten();
    SecondPushAsWritten();
    var st1 := SecondGrowth.(keys := SecondGrowth.keys[2 := Key(3, false)], nextFree := 3, freeCount := 1, total := 3);
    assert WithFirstPart.data[0].parts == [FirstPart] && st1.data[0] == WithFirstPart.data[0];
    assert st1.keys[0] == Key(1, false) && st1.keys[1] == Key(2, true);
    FirstPartLostInRound(WithFirstPart, AlertsAfterFirstPush, WindowHandle, 2, st1,
                         AlertsAfterFirstPush + [Deleted(WindowHandle), Deleted(FirstPart)], Ptr(2, Key(3, false)));
  }
}
