// The user-facing LayoutElement: a handle to an element of the layout pool,
// with the calls that give it parts, movers, a position and widget flags.
// Every call dereferences the handle first; on an expired handle that
// dereference asserts, and the call fails without changing anything.

module LayoutApi {
  import opened Wrappers
  import opened BasicMath
  import opened Shapes
  import opened Vectors
  import opened PoolAllocation
  import opened LayoutElements
  import opened LayoutMovers

  // ------------------------------------------------------------- reading

  /** operator* on a handle: the element behind it, or a failure when it has expired. */
  function ElementAt(m: LayoutElementManager, p: Ptr): (r: Result<Element>)
    reads m, m.pool
    requires m.Valid()
    ensures r.Success? <==> Live(m.pool.keys, p)
    ensures r.Success? ==> r.value == m.pool.data[p.index]
  {
    if Live(m.pool.keys, p) then Success(m.pool.data[p.index]) else Failure("the element has expired")
  }

  /** is_deleted: whether the handle has expired. */
  function IsDeleted(m: LayoutElementManager, p: Ptr): (r: bool)
    reads m, m.pool
    requires m.Valid()
    ensures r <==> ElementAt(m, p).Failure?
  {
    !Live(m.pool.keys, p)
  }

  /** part_count: the number of parts of the element. */
  function PartCount(m: LayoutElementManager, p: Ptr): (r: Result<nat>)
    reads m, m.pool
    requires m.Valid()
    ensures r.Success? <==> !IsDeleted(m, p)
    ensures r.Success? ==> r.value == |ElementAt(m, p).value.parts|
  {
    var e := ElementAt(m, p);
    if e.Failure? then Failure(e.error) else Success(|e.value.parts|)
  }

  /**
   * get_part: the part at index, which must exist and must not have been
   * deleted; the element itself must not be deleted either.
   */
  function GetPart(m: LayoutElementManager, p: Ptr, index: nat): (r: Result<Ptr>)
    reads m, m.pool
    requires m.Valid()
    ensures r.Success? <==> PartCount(m, p).Success? && index < PartCount(m, p).value
                            && !IsDeleted(m, ElementAt(m, p).value.parts[index])
    ensures r.Success? ==> r.value == ElementAt(m, p).value.parts[index] && !IsDeleted(m, r.value)
  {
    if !Live(m.pool.keys, p) then Failure("the element has expired")
    else
      var parts := m.pool.data[p.index].parts;
      if index >= |parts| then Failure("there is no part at that index")
      else if !Live(m.pool.keys, parts[index]) then Failure("the part has been deleted")
      else Success(parts[index])
  }

  /** get_position. */
  function GetPosition(m: LayoutElementManager, p: Ptr): (r: Result<Rect>)
    reads m, m.pool
    requires m.Valid()
    ensures r.Success? <==> !IsDeleted(m, p)
    ensures r.Success? ==> r.value == ElementAt(m, p).value.position
  {
    var e := ElementAt(m, p);
    if e.Failure? then Failure(e.error) else Success(e.value.position)
  }

  /** get_info. */
  function GetInfo(m: LayoutElementManager, p: Ptr): (r: Result<string>)
    reads m, m.pool
    requires m.Valid()
    ensures r.Success? <==> !IsDeleted(m, p)
    ensures r.Success? ==> r.value == ElementAt(m, p).value.info
  {
    var e := ElementAt(m, p);
    if e.Failure? then Failure(e.error) else Success(e.value.info)
  }

  /** widget_selected, widget_is_clicked and widget_is_last_clicked, in that order. */
  function WidgetFlags(m: LayoutElementManager, p: Ptr): (r: Result<(bool, bool, bool)>)
    reads m, m.pool
    requires m.Valid()
    ensures r.Success? <==> !IsDeleted(m, p)
    ensures r.Success? ==>
      var e := ElementAt(m, p).value;
      r.value == (e.isSelected, e.isClicked, e.isLastClicked)
  {
    var e := ElementAt(m, p);
    if e.Failure? then Failure(e.error) else Success((e.value.isSelected, e.value.isClicked, e.value.isLastClicked))
  }

  // ------------------------------------------------------------- setters

  /** set_position: a plain write, with no moved alert (unlike the element's own set_position). */
  method SetPosition(m: LayoutElementManager, p: Ptr, pos: Rect) returns (r: Result<()>)
    requires m.Valid()
    modifies m.pool
    ensures m.Valid() && m.pool.keys == old(m.pool.keys) && m.pool.totalAllocationCount == old(m.pool.totalAllocationCount)
    ensures r.Success? <==> old(!IsDeleted(m, p))
    ensures r.Success? ==>
      && GetPosition(m, p) == Success(pos)
      && m.pool.data == old(m.pool.data)[p.index := old(m.pool.data)[p.index].(position := pos)]
    ensures r.Failure? ==> m.pool.data == old(m.pool.data)
  {
    if !Live(m.pool.keys, p) {
      return Failure("the element has expired");
    }
    m.WriteElement(p.index, m.pool.data[p.index].(position := pos));
    r := Success(());
  }

  /** set_info. */
  method SetInfo(m: LayoutElementManager, p: Ptr, info: string) returns (r: Result<()>)
    requires m.Valid()
    modifies m.pool
    ensures m.Valid() && m.pool.keys == old(m.pool.keys) && m.pool.totalAllocationCount == old(m.pool.totalAllocationCount)
    ensures r.Success? <==> old(!IsDeleted(m, p))
    ensures r.Success? ==>
      && GetInfo(m, p) == Success(info)
      && m.pool.data == old(m.pool.data)[p.index := old(m.pool.data)[p.index].(info := info)]
    ensures r.Failure? ==> m.pool.data == old(m.pool.data)
  {
    if !Live(m.pool.keys, p) {
      return Failure("the element has expired");
    }
    m.WriteElement(p.index, m.pool.data[p.index].(info := info));
    r := Success(());
  }

  /** enable_widget(enable, depth): the element takes part in the manager's mouse scan at that depth, or stops. */
  method EnableWidget(m: LayoutElementManager, p: Ptr, enable: bool, depth: real) returns (r: Result<()>)
    requires m.Valid()
    modifies m.pool
    ensures m.Valid() && m.pool.keys == old(m.pool.keys) && m.pool.totalAllocationCount == old(m.pool.totalAllocationCount)
    ensures r.Success? <==> old(!IsDeleted(m, p))
    ensures r.Success? ==>
      m.pool.data == old(m.pool.data)[p.index := old(m.pool.data)[p.index].(widgetEnabled := enable, widgetDepth := depth)]
    ensures r.Failure? ==> m.pool.data == old(m.pool.data)
  {
    if !Live(m.pool.keys, p) {
      return Failure("the element has expired");
    }
    m.WriteElement(p.index, m.pool.data[p.index].(widgetEnabled := enable, widgetDepth := depth));
    r := Success(());
  }

  // ------------------------------------------------------------- parts

  /** vec_insert(vec, pos, x): x goes in before the element at pos. */
  function VecInsert<T>(vec: seq<T>, pos: nat, x: T): (r: seq<T>)
    requires pos <= |vec|
    ensures |r| == |vec| + 1 && r[pos] == x
    ensures forall i :: 0 <= i < pos ==> r[i] == vec[i]
    ensures forall i :: pos < i < |r| ==> r[i] == vec[i - 1]
  {
    vec[..pos] + [x] + vec[pos..]
  }

  /** Removing what was inserted gives the vector back. */
  lemma RemoveAfterInsert<T>(vec: seq<T>, pos: nat, x: T)
    requires pos <= |vec|
    ensures VecRemove(VecInsert(vec, pos, x), pos) == vec
  {
    var r := VecRemove(VecInsert(vec, pos, x), pos);
    assert forall i :: 0 <= i < |vec| ==> r[i] == vec[i];
  }

  /** Putting back what was removed, where it was, gives the vector back. */
  lemma InsertAfterRemove<T>(vec: seq<T>, pos: nat)
    requires pos < |vec|
    ensures VecInsert(VecRemove(vec, pos), pos, vec[pos]) == vec
  {
    VecRemoveInverse(vec, pos);
  }

  /**
   * extract_part(index): takes the part at index out of the element's parts
   * and marks it an orphan. The source indexes the parts vector unchecked,
   * so on a live element index must be in range; a deleted part makes the
   * orphan write assert.
   */
  method ExtractPart(m: LayoutElementManager, p: Ptr, index: nat) returns (r: Result<Ptr>)
    requires m.Valid()
    requires Live(m.pool.keys, p) ==> index < |m.pool.data[p.index].parts|
    modifies m.pool
    ensures m.Valid() && m.pool.keys == old(m.pool.keys) && m.pool.totalAllocationCount == old(m.pool.totalAllocationCount)
    ensures r == old(GetPart(m, p, index))
    ensures r.Failure? ==> m.pool.data == old(m.pool.data)
    ensures r.Success? ==>
      var parts := old(m.pool.data)[p.index].parts;
      var d1 := old(m.pool.data)[r.value.index := old(m.pool.data)[r.value.index].(orphan := true)];
      m.pool.data == d1[p.index := d1[p.index].(parts := VecRemove(parts, index))]
      && ElementAt(m, r.value).value.orphan
  {
    if !Live(m.pool.keys, p) {
      return Failure("the element has expired");
    }
    var parts := m.pool.data[p.index].parts;
    var part := parts[index];
    if !Live(m.pool.keys, part) {
      return Failure("the part has been deleted");
    }
    m.WriteElement(part.index, m.pool.data[part.index].(orphan := true));
    m.WriteElement(p.index, m.pool.data[p.index].(parts := VecRemove(parts, index)));
    r := Success(part);
  }

  /**
   * insert_part(index, part): the part must be live and an orphan; it goes
   * into the element's parts before index and stops being an orphan.
   * vec_insert is not part of this model: it is taken to insert before
   * index, which must be at most the number of parts.
   */
  method InsertPart(m: LayoutElementManager, p: Ptr, index: nat, part: Ptr) returns (r: Result<()>)
    requires m.Valid()
    requires Live(m.pool.keys, p) ==> index <= |m.pool.data[p.index].parts|
    modifies m.pool
    ensures m.Valid() && m.pool.keys == old(m.pool.keys) && m.pool.totalAllocationCount == old(m.pool.totalAllocationCount)
    ensures r.Success? <==> old(!IsDeleted(m, part) && ElementAt(m, part).value.orphan && !IsDeleted(m, p))
    ensures r.Failure? ==> m.pool.data == old(m.pool.data)
    ensures r.Success? ==>
      var parts := old(m.pool.data)[p.index].parts;
      var d1 := old(m.pool.data)[p.index := old(m.pool.data)[p.index].(parts := VecInsert(parts, index, part))];
      m.pool.data == d1[part.index := d1[part.index].(orphan := false)]
      && GetPart(m, p, index) == Success(part) && !ElementAt(m, part).value.orphan
  {
    if !Live(m.pool.keys, part) {
      return Failure("the part has been deleted");
    }
    if !m.pool.data[part.index].orphan {
      return Failure("the part already belongs to an element");
    }
    if !Live(m.pool.keys, p) {
      return Failure("the element has expired");
    }
    var parts := m.pool.data[p.index].parts;
    assert PartsIssued(parts, m.pool.totalAllocationCount);
    assert m.pool.keys[part.index].nr <= m.pool.totalAllocationCount;
    m.WriteElement(p.index, m.pool.data[p.index].(parts := VecInsert(parts, index, part)));
    m.WriteElement(part.index, m.pool.data[part.index].(orphan := false));
    r := Success(());
  }

  /**
   * parts_delete_all: erases every part of the element in turn (each with
   * its own parts), then empties its parts vector.
   */
  method PartsDeleteAll(m: LayoutElementManager, p: Ptr) returns (r: Result<()>)
    requires m.Valid()
    modifies m.pool, m`alerts
    ensures m.Valid() && m.pool.totalAllocationCount == old(m.pool.totalAllocationCount)
    ensures OnlyFreed(old(m.pool.keys), m.pool.keys, {}) && OnlyDeleted(old(m.alerts), m.alerts)
    ensures r.Success? <==> old(!IsDeleted(m, p))
    ensures r.Failure? ==> m.pool.keys == old(m.pool.keys) && m.pool.data == old(m.pool.data) && m.alerts == old(m.alerts)
    ensures r.Success? ==>
      var parts := old(m.pool.data)[p.index].parts;
      && (forall k :: 0 <= k < |parts| ==> IsDeleted(m, parts[k]))
      && m.pool.data == old(m.pool.data)[p.index := old(m.pool.data)[p.index].(parts := [])]
  {
    if !Live(m.pool.keys, p) {
      return Failure("the element has expired");
    }
    var parts := m.pool.data[p.index].parts;
    m.EraseParts(parts, {});
    m.WriteElement(p.index, m.pool.data[p.index].(parts := []));
    r := Success(());
  }

  // ------------------------------------------------------------- movers

  /**
   * The element after set_parts_count(count) and the installation of a new
   * mover, from the element before: the same element with count parts, the
   * first ones kept, and the mover replaced.
   */
  ghost predicate Arranged(keys: seq<Key>, before: Element, after: Element, count: nat, mover: Mover)
  {
    var kept := Min(count, |before.parts|);
    && after == before.(parts := after.parts, mover := mover)
    && |after.parts| == count && after.parts[..kept] == before.parts[..kept]
    && (count > 0 ==> Live(keys, after.parts[0]))
  }

  /**
   * parts_align(alignment, width, height): the three vectors must have the
   * same length and the element must be live; then the element gets one part
   * per alignment, an aligner with these settings, and one run of it.
   * `counted` tells whether set_parts_count went through, and `mid` is the
   * scene the aligner ran on.
   */
  method PartsAlign(m: LayoutElementManager, p: Ptr, alignment: seq<RectAlignment>, width: seq<int>, height: seq<int>)
    returns (r: Result<()>, ghost counted: bool, ghost mid: Scene)
    requires m.Valid() && m.pool.totalAllocationCount + |alignment| <= MaxAllocationNr
    modifies m.pool, m`alerts
    ensures m.Valid()
    ensures |alignment| != |width| || |alignment| != |height| || old(IsDeleted(m, p)) ==>
      r.Failure? && !counted && m.pool.keys == old(m.pool.keys) && m.pool.data == old(m.pool.data) && m.alerts == old(m.alerts)
    ensures r.Success? ==> counted
    ensures counted ==>
      && |alignment| == |width| == |height| && !IsDeleted(m, p)
      && |mid.data| == |m.pool.keys| && OnlyDeleted(old(m.alerts), mid.alerts)
      && Arranged(m.pool.keys, old(m.pool.data)[p.index], mid.data[p.index], |alignment|, Aligner(alignment, width, height))
      && (forall q: Ptr :: old(!IsDeleted(m, q)) && !IsDeleted(m, q) && q.index != p.index ==>
            mid.data[q.index] == old(m.pool.data)[q.index])
      && var o := AlignFrom(m.pool.keys, mid, p.index, mid.data[p.index].parts, alignment, width, height, 0);
         Scene(m.pool.data, m.alerts) == o.scene && (r.Failure? <==> o.failed)
  {
    counted, mid := false, Scene(m.pool.data, m.alerts);
    if |alignment| != |width| || |alignment| != |height| {
      return Failure("alignment, width and height differ in length"), counted, mid;
    }
    if !Live(m.pool.keys, p) {
      return Failure("the element has expired"), counted, mid;
    }
    r := m.SetPartsCount(p, |alignment|);
    if r.Failure? {
      return;
    }
    counted := true;
    m.WriteElement(p.index, m.pool.data[p.index].(mover := Aligner(alignment, width, height)));
    mid := Scene(m.pool.data, m.alerts);
    r := RunPartsAlign(m, p, alignment, width, height);
  }

  /**
   * parts_divide_by_size(width, height, vertical, reversed): width and
   * height must have the same length and the element must be live; then the
   * element gets one part per width, a size divider with these settings,
   * and one run of it.
   */
  method PartsDivideBySize(m: LayoutElementManager, p: Ptr, width: seq<int>, height: seq<int>, vertical: bool, reversed: bool)
    returns (r: Result<()>, ghost counted: bool, ghost mid: Scene)
    requires m.Valid() && m.pool.totalAllocationCount + |width| <= MaxAllocationNr
    modifies m.pool, m`alerts
    ensures m.Valid()
    ensures |width| != |height| || old(IsDeleted(m, p)) ==>
      r.Failure? && !counted && m.pool.keys == old(m.pool.keys) && m.pool.data == old(m.pool.data) && m.alerts == old(m.alerts)
    ensures r.Success? ==> counted
    ensures counted ==>
      && |width| == |height| && !IsDeleted(m, p)
      && |mid.data| == |m.pool.keys| && OnlyDeleted(old(m.alerts), mid.alerts)
      && Arranged(m.pool.keys, old(m.pool.data)[p.index], mid.data[p.index], |width|, SizeDivider(width, height, vertical, reversed))
      && (forall q: Ptr :: old(!IsDeleted(m, q)) && !IsDeleted(m, q) && q.index != p.index ==>
            mid.data[q.index] == old(m.pool.data)[q.index])
      && var e := mid.data[p.index];
         var o := DivideFrom(m.pool.keys, mid, p.index, e.parts, width, height, vertical, reversed, |width|, 0, e.position);
         Scene(m.pool.data, m.alerts) == o.scene && (r.Failure? <==> o.failed)
  {
    counted, mid := false, Scene(m.pool.data, m.alerts);
    if |width| != |height| {
      return Failure("width and height differ in length"), counted, mid;
    }
    if !Live(m.pool.keys, p) {
      return Failure("the element has expired"), counted, mid;
    }
    r := m.SetPartsCount(p, |width|);
    if r.Failure? {
      return;
    }
    counted := true;
    m.WriteElement(p.index, m.pool.data[p.index].(mover := SizeDivider(width, height, vertical, reversed)));
    mid := Scene(m.pool.data, m.alerts);
    r := RunPartsDivideBySize(m, p, width, height, vertical, reversed);
  }
}
