/**
 * The layout element tree of the user interface: elements live in a pool,
 * hold handles to their parts, are positioned by movers, and the manager
 * picks the element under the mouse as the selected (and clicked) widget.
 * Alerts (clicked, selected, moved, ...) are recorded in a log instead of
 * calling the user's callback objects.
 */
module LayoutElements {
  import opened Wrappers
  import opened BasicMath
  import opened Shapes
  import opened PoolAllocation

  /** A call on an element's LayoutElementAlert, with the handle of the element it concerns. */
  datatype Alert =
    | Clicked(p: Ptr)
    | NotLastClicked(p: Ptr)
    | Selected(p: Ptr)
    | Deselected(p: Ptr)
    | Deleted(p: Ptr)
    | Moved(p: Ptr)

  /** The element_mover an element carries, with the settings it was built with. */
  datatype Mover =
    | NoMover
    | Aligner(alignment: seq<RectAlignment>, width: seq<int>, height: seq<int>)
    | SizeDivider(width: seq<int>, height: seq<int>, vertical: bool, reversed: bool)

  /** _LayoutElement: widget depth is a real number here, a double in the source. */
  datatype Element = Element(
    info: string,
    parts: seq<Ptr>,
    position: Rect,
    orphan: bool,
    widgetEnabled: bool,
    widgetDepth: real,
    isLastClicked: bool,
    isClicked: bool,
    isSelected: bool,
    mover: Mover)

  /** A default-constructed _LayoutElement. */
  const NewElement := Element("", [], Rect(0, 0, 0, 0), false, false, 0.5, false, false, false, NoMover)

  /** The element slots of the pool together with the alert log: what movers and setters change. */
  datatype Scene = Scene(data: seq<Element>, alerts: seq<Alert>)

  /** A second write to a slot overrides the first. */
  lemma UpdateTwice(s: seq<Element>, i: nat, a: Element, b: Element)
    requires i < |s|
    ensures s[i := a][i := b] == s[i := b]
  {
  }

  /** Handles as the pool hands them out: a clear free bit and an allocation number already used. */
  ghost predicate PartsIssued(parts: seq<Ptr>, total: nat)
  {
    forall k :: 0 <= k < |parts| ==> !parts[k].key.free && parts[k].key.nr <= total
  }

  lemma PartsIssuedAppend(parts: seq<Ptr>, q: Ptr, before: nat, total: nat)
    requires PartsIssued(parts, before) && before <= total && !q.key.free && q.key.nr <= total
    ensures PartsIssued(parts + [q], total)
  {
  }

  /** Every element in use holds issued part handles. */
  ghost predicate AllPartsIssued(keys: seq<Key>, data: seq<Element>, total: nat)
  {
    |keys| == |data| && forall i :: 0 <= i < |keys| && !keys[i].free ==> PartsIssued(data[i].parts, total)
  }

  /** The key vector after some erasures: each slot is unchanged, or was in use, not dying, and is now freed. */
  ghost predicate OnlyFreed(before: seq<Key>, after: seq<Key>, dying: set<nat>)
  {
    |before| == |after|
    && forall i :: 0 <= i < |before| ==> after[i] == before[i] || (i !in dying && !before[i].free && after[i] == Key(before[i].nr, true))
  }

  lemma OnlyFreedTrans(a: seq<Key>, b: seq<Key>, c: seq<Key>, dying: set<nat>, more: set<nat>)
    requires OnlyFreed(a, b, dying) && OnlyFreed(b, c, dying + more)
    ensures OnlyFreed(a, c, dying)
  {
    forall i | 0 <= i < |a|
      ensures c[i] == a[i] || (i !in dying && !a[i].free && c[i] == Key(a[i].nr, true))
    {
      if c[i] != b[i] {
        assert !b[i].free;
      }
    }
  }

  /** Erasures end handles and never revive one. */
  lemma OnlyFreedKeepsExpired(a: seq<Key>, b: seq<Key>, dying: set<nat>, q: Ptr)
    requires OnlyFreed(a, b, dying) && !Live(a, q)
    ensures !Live(b, q)
  {
  }

  lemma OnlyFreedKeepsExpiredFrom(a: seq<Key>, b: seq<Key>, dying: set<nat>, ps: seq<Ptr>, from: nat)
    requires OnlyFreed(a, b, dying) && forall k :: from <= k < |ps| ==> !Live(a, ps[k])
    ensures forall k :: from <= k < |ps| ==> !Live(b, ps[k])
  {
    forall k | from <= k < |ps|
      ensures !Live(b, ps[k])
    {
      OnlyFreedKeepsExpired(a, b, dying, ps[k]);
    }
  }

  /** Erasures keep the handles held by the slots not yet freed issued. */
  lemma OnlyFreedKeepsIssued(a: seq<Key>, b: seq<Key>, dying: set<nat>, data: seq<Element>, total: nat)
    requires OnlyFreed(a, b, dying) && AllPartsIssued(a, data, total)
    ensures AllPartsIssued(b, data, total)
  {
    forall i | 0 <= i < |b| && !b[i].free
      ensures PartsIssued(data[i].parts, total)
    {
      assert b[i] == a[i];
    }
  }

  /** Freeing one more element shrinks the set of slots an erasure can still reach: the recursion's measure. */
  lemma OnlyFreedShrinks(a: seq<Key>, b: seq<Key>, dying: set<nat>, index: nat)
    requires OnlyFreed(a, b, dying + {index}) && index < |a| && !a[index].free && index !in dying
    ensures LiveSlotsOf(b) - (dying + {index}) < LiveSlotsOf(a) - dying
  {
    assert index in LiveSlotsOf(a) - dying;
    forall i | i in LiveSlotsOf(b) - (dying + {index})
      ensures i in LiveSlotsOf(a) - dying
    {
      assert b[i] == a[i];
    }
  }

  /** Erasing never shrinks the set of slots in use by adding to it. */
  lemma OnlyFreedLiveShrinks(a: seq<Key>, b: seq<Key>, dying: set<nat>)
    requires OnlyFreed(a, b, dying)
    ensures LiveSlotsOf(b) - dying <= LiveSlotsOf(a) - dying
  {
    forall i | i in LiveSlotsOf(b) - dying
      ensures i in LiveSlotsOf(a) - dying
    {
      assert b[i] == a[i];
    }
  }

  /** Every handle has expired, or reaches a slot whose erasure is under way further up. */
  ghost predicate ErasedOrDying(keys: seq<Key>, parts: seq<Ptr>, dying: set<nat>)
  {
    forall k :: 0 <= k < |parts| ==> !Live(keys, parts[k]) || parts[k].index in dying
  }

  lemma ErasedOrDyingStep(a: seq<Key>, b: seq<Key>, parts: seq<Ptr>, i: nat, dying: set<nat>)
    requires i < |parts| && OnlyFreed(a, b, dying)
    requires ErasedOrDying(a, parts[..i], dying)
    requires !Live(b, parts[i]) || parts[i].index in dying
    ensures ErasedOrDying(b, parts[..i + 1], dying)
  {
    forall k | 0 <= k < i && parts[k].index !in dying
      ensures !Live(b, parts[k])
    {
      assert parts[..i][k] == parts[k];
      OnlyFreedKeepsExpired(a, b, dying, parts[k]);
    }
  }

  /** The alert log grew by deleted alerts only. */
  ghost predicate OnlyDeleted(before: seq<Alert>, after: seq<Alert>)
  {
    |before| <= |after| && after[..|before|] == before
    && forall k :: |before| <= k < |after| ==> after[k].Deleted?
  }

  lemma OnlyDeletedTrans(a: seq<Alert>, b: seq<Alert>, c: seq<Alert>)
    requires OnlyDeleted(a, b) && OnlyDeleted(b, c)
    ensures OnlyDeleted(a, c)
  {
    assert c[..|a|] == c[..|b|][..|a|];
  }

  /** The parts from index `from` on are live, hold new elements, and were allocated in order after `total`. */
  ghost predicate FreshParts(keys: seq<Key>, data: seq<Element>, parts: seq<Ptr>, from: nat, total: nat)
    requires |keys| == |data|
  {
    forall k :: from <= k < |parts| ==>
      Live(keys, parts[k]) && parts[k].key.nr == total + k - from + 1 && data[parts[k].index] == NewElement
  }

  /** One more pushed part (and a write to the element that holds it) keeps the earlier new parts as they were. */
  lemma FreshPartsStep(keys: seq<Key>, data: seq<Element>, keys2: seq<Key>, data2: seq<Element>,
                       parts: seq<Ptr>, from: nat, total: nat, owner: nat)
    requires |keys| == |data| && |keys2| == |data2| && |keys| <= |keys2| && from < |parts|
    requires owner < |keys| && !keys[owner].free && keys[owner].nr <= total
    requires FreshParts(keys, data, parts[..|parts| - 1], from, total)
    requires var q := parts[|parts| - 1];
      Live(keys2, q) && q.key.nr == total + |parts| - 1 - from + 1 && data2[q.index] == NewElement
      && (q.index < |keys| ==> keys[q.index].free)
    requires forall i :: 0 <= i < |keys| && i != parts[|parts| - 1].index ==> keys2[i] == keys[i]
    requires forall i :: 0 <= i < |keys| && i != parts[|parts| - 1].index && i != owner ==> data2[i] == data[i]
    ensures FreshParts(keys2, data2, parts, from, total)
  {
    forall k | from <= k < |parts| - 1
      ensures Live(keys2, parts[k]) && parts[k].key.nr == total + k - from + 1 && data2[parts[k].index] == NewElement
    {
      assert parts[..|parts| - 1][k] == parts[k];
      assert parts[k].index != owner;
    }
  }

  /**
   * A push (slot q stamped after total0, every other old slot kept) and a
   * write to the owner keep the handles stamped up to total0 as they were,
   * and the slots still holding their old keys as they were.
   */
  lemma PushFrame(keys0: seq<Key>, data0: seq<Element>, total0: nat, keys1: seq<Key>, data1: seq<Element>,
                  keys2: seq<Key>, data2: seq<Element>, q: Ptr, owner: nat)
    requires |keys0| == |data0| <= |keys1| == |data1| <= |keys2| == |data2|
    requires forall i :: 0 <= i < |keys0| ==> keys0[i].nr <= total0
    requires q.key.nr > total0 && Live(keys2, q) && (q.index < |keys1| ==> keys1[q.index].free)
    requires forall i :: 0 <= i < |keys1| && i != q.index ==> keys2[i] == keys1[i]
    requires forall i :: |keys1| <= i < |keys2| && i != q.index ==> keys2[i].free
    requires forall i :: 0 <= i < |keys1| && i != q.index && i != owner ==> data2[i] == data1[i]
    requires forall p: Ptr :: p.key.nr <= total0 ==> (Live(keys0, p) <==> Live(keys1, p))
    requires forall i :: 0 <= i < |keys0| && i != owner && keys1[i] == keys0[i] ==> data1[i] == data0[i]
    ensures forall p: Ptr :: p.key.nr <= total0 ==> (Live(keys0, p) <==> Live(keys2, p))
    ensures forall i :: 0 <= i < |keys0| && i != owner && keys2[i] == keys0[i] ==> data2[i] == data0[i]
  {
    forall p: Ptr | p.key.nr <= total0
      ensures Live(keys1, p) <==> Live(keys2, p)
    {
      if p.index == q.index {
        assert Live(keys2, p) ==> p.key == q.key;
        assert 0 <= p.index < |keys1| ==> !Live(keys1, p);
      }
    }
    forall i | 0 <= i < |keys0| && i != owner && keys2[i] == keys0[i]
      ensures data2[i] == data0[i]
    {
      assert i != q.index;
    }
  }

  /**
   * The state of the second loop of set_parts_count against the state it
   * started from: the parts vector grew from e0.parts by new elements, one
   * allocation each; handles stamped before the loop are live exactly as
   * before, and the slots still under their old keys hold their old elements.
   */
  ghost predicate Grown(keys0: seq<Key>, data0: seq<Element>, total0: nat, owner: nat, e0: Element,
                        keys: seq<Key>, data: seq<Element>, total: nat, parts: seq<Ptr>)
  {
    |keys0| == |data0| <= |keys| == |data| && owner < |keys|
    && |e0.parts| <= |parts| && parts[..|e0.parts|] == e0.parts
    && total == total0 + |parts| - |e0.parts| && data[owner] == e0.(parts := parts)
    && (forall p: Ptr :: p.key.nr <= total0 ==> (Live(keys0, p) <==> Live(keys, p)))
    && (forall i :: 0 <= i < |keys0| && i != owner && keys[i] == keys0[i] ==> data[i] == data0[i])
    && FreshParts(keys, data, parts, |e0.parts|, total0)
  }

  /** A push (keysP, dataP) followed by the write that appends the new handle keeps the loop state. */
  lemma GrownStep(keys0: seq<Key>, data0: seq<Element>, total0: nat, owner: nat, e0: Element,
                  keys1: seq<Key>, data1: seq<Element>, total1: nat, parts: seq<Ptr>,
                  keysP: seq<Key>, dataP: seq<Element>, data2: seq<Element>, q: Ptr)
    requires Grown(keys0, data0, total0, owner, e0, keys1, data1, total1, parts)
    requires forall i :: 0 <= i < |keys0| ==> keys0[i].nr <= total0
    requires !keys1[owner].free && keys1[owner].nr <= total0
    requires |keys1| <= |keysP| == |dataP|
    requires Live(keysP, q) && q.key.nr == total1 + 1 && dataP[q.index] == NewElement
    requires q.index < |keys1| ==> keys1[q.index].free
    requires forall i :: 0 <= i < |keys1| && i != q.index ==> keysP[i] == keys1[i] && dataP[i] == data1[i]
    requires forall i :: |keys1| <= i < |keysP| && i != q.index ==> keysP[i].free
    requires data2 == dataP[owner := dataP[owner].(parts := parts + [q])]
    ensures Grown(keys0, data0, total0, owner, e0, keysP, data2, total1 + 1, parts + [q])
    ensures keysP[owner] == keys1[owner]
  {
    assert q.index != owner;
    assert (parts + [q])[..|parts + [q]| - 1] == parts;
    assert (parts + [q])[..|e0.parts|] == parts[..|e0.parts|];
    FreshPartsStep(keys1, data1, keysP, data2, parts + [q], |e0.parts|, total0, owner);
    PushFrame(keys0, data0, total0, keys1, data1, keysP, data2, q, owner);
  }

  /** What the loop state says about the handles held before the loop: all still live, and the first part live as before. */
  lemma GrownOutcome(keys0: seq<Key>, data0: seq<Element>, total0: nat, owner: nat, e0: Element,
                     keys: seq<Key>, data: seq<Element>, total: nat, parts: seq<Ptr>)
    requires Grown(keys0, data0, total0, owner, e0, keys, data, total, parts)
    requires forall i :: 0 <= i < |keys0| ==> keys0[i].nr <= total0
    requires PartsIssued(e0.parts, total0)
    ensures 0 < |e0.parts| ==> parts[0] == e0.parts[0] && (Live(keys, parts[0]) <==> Live(keys0, parts[0]))
    ensures |e0.parts| == 0 < |parts| ==> Live(keys, parts[0])
  {
    if 0 < |e0.parts| {
      assert parts[0] == parts[..|e0.parts|][0] == e0.parts[0];
    }
  }

  /**
   * Erasures (keys0 to keys1) followed by pushes that keep the older handles
   * live exactly as they were (keys1 to keys2): no handle is revived, and an
   * element that lives through both and is not the owner is left as it was.
   */
  lemma SetPartsCountFrame(keys0: seq<Key>, data0: seq<Element>, total0: nat,
                           keys1: seq<Key>, data1: seq<Element>, keys2: seq<Key>, data2: seq<Element>, owner: nat)
    requires OnlyFreed(keys0, keys1, {}) && |keys0| == |data0| == |data1| <= |keys2| == |data2|
    requires forall i :: 0 <= i < |keys0| ==> keys0[i].nr <= total0
    requires forall i :: 0 <= i < |keys1| && i != owner ==> data1[i] == data0[i]
    requires forall q: Ptr :: q.key.nr <= total0 ==> (Live(keys1, q) <==> Live(keys2, q))
    requires forall i :: 0 <= i < |keys1| && i != owner && keys2[i] == keys1[i] ==> data2[i] == data1[i]
    ensures forall q: Ptr :: q.key.nr <= total0 && Live(keys2, q) ==> Live(keys0, q)
    ensures forall q: Ptr :: Live(keys0, q) && Live(keys2, q) && q.index != owner ==> data2[q.index] == data0[q.index]
  {
    forall q: Ptr | Live(keys0, q) && Live(keys2, q) && q.index != owner
      ensures data2[q.index] == data0[q.index]
    {
      if q.key.nr <= total0 {
        assert keys1[q.index] == keys0[q.index];
      }
    }
  }

  /**
   * The last check of set_parts_count as written: it reads the first part
   * whatever the count, so after trimming to count 0 it reads an empty
   * vector (None here). SetPartsCount makes the check only when count > 0.
   */
  function FirstPartCheckAsWritten(keys: seq<Key>, parts: seq<Ptr>): (r: Option<bool>)
    ensures r.None? <==> |parts| == 0
    ensures r.Some? ==> (r.value <==> Live(keys, parts[0]))
  {
    if |parts| == 0 then None else Some(Live(keys, parts[0]))
  }

  /** With count 0 the parts left for the last check are none, whatever the element had. */
  lemma ZeroCountReadsEmptyParts(keys: seq<Key>, parts0: seq<Ptr>, count: nat)
    requires count == 0
    ensures var parts := parts0[..Min(count, |parts0|)];
      parts == [] && FirstPartCheckAsWritten(keys, parts).None?
  {
  }

  // ---------------------------------------------------------------- update

  /** An element the update scan acts on: in use and with the mouse inside its rectangle. */
  predicate UnderMouse(keys: seq<Key>, data: seq<Element>, i: nat, x: int, y: int)
    requires |keys| == |data|
  {
    i < |keys| && !keys[i].free && IsInsideRect(data[i].position, x, y)
  }

  /** Whether a candidate takes over from the current pick: lower depth, or equal depth and allocated later. */
  predicate TakesOver(topDepth: real, topNr: nat, depth: real, nr: nat)
  {
    topDepth > depth || (topDepth == depth && topNr < nr)
  }

  /** The top element among the first n slots, as the scan in update leaves it. */
  function TopElement(keys: seq<Key>, data: seq<Element>, x: int, y: int, n: nat): (r: Option<nat>)
    requires |keys| == |data| && n <= |keys|
    ensures r.Some? ==> r.value < n && UnderMouse(keys, data, r.value, x, y)
  {
    if n == 0 then None
    else
      var t := TopElement(keys, data, x, y, n - 1);
      if !UnderMouse(keys, data, n - 1, x, y) then t
      else if t.None? || TakesOver(data[t.value].widgetDepth, keys[t.value].nr, data[n - 1].widgetDepth, keys[n - 1].nr) then Some(n - 1)
      else t
  }

  /**
   * The scan finds an element exactly when one in use is under the mouse,
   * and the one it finds has the least depth, the latest allocation winning
   * among equal depths.
   */
  lemma {:induction false} TopElementIsLowestLatest(keys: seq<Key>, data: seq<Element>, x: int, y: int, n: nat)
    requires |keys| == |data| && n <= |keys|
    ensures TopElement(keys, data, x, y, n).None? <==> forall i :: 0 <= i < n ==> !UnderMouse(keys, data, i, x, y)
    ensures TopElement(keys, data, x, y, n).Some? ==>
      forall i :: 0 <= i < n && UnderMouse(keys, data, i, x, y) ==>
        data[TopElement(keys, data, x, y, n).value].widgetDepth < data[i].widgetDepth
        || (data[TopElement(keys, data, x, y, n).value].widgetDepth == data[i].widgetDepth
            && keys[i].nr <= keys[TopElement(keys, data, x, y, n).value].nr)
  {
    if n > 0 {
      TopElementIsLowestLatest(keys, data, x, y, n - 1);
    }
  }

  /** The flags an element under the mouse is reset to during the scan. */
  function ScanReset(e: Element, mouseClicked: bool): Element
  {
    e.(isClicked := false, isSelected := false, isLastClicked := if mouseClicked then false else e.isLastClicked)
  }

  /** The flags the top element is given at the end of update. */
  function MarkTop(e: Element, mouseClicked: bool): Element
  {
    if mouseClicked then e.(isSelected := true, isClicked := true, isLastClicked := true)
    else e.(isSelected := true)
  }

  /** One element once the scan has passed it. */
  function ScanOne(keys: seq<Key>, data: seq<Element>, i: nat, x: int, y: int, mouseClicked: bool): Element
    requires |keys| == |data| && i < |data|
  {
    if UnderMouse(keys, data, i, x, y) then ScanReset(data[i], mouseClicked) else data[i]
  }

  /** The elements once the scan has passed all of them. */
  function Scanned(keys: seq<Key>, data: seq<Element>, x: int, y: int, mouseClicked: bool): (r: seq<Element>)
    requires |keys| == |data|
    ensures |r| == |data|
  {
    seq(|data|, i requires 0 <= i < |data| => ScanOne(keys, data, i, x, y, mouseClicked))
  }

  /** The elements when the scan has passed the slots below i and not yet the others. */
  function PartlyScanned(keys: seq<Key>, data: seq<Element>, i: nat, x: int, y: int, mouseClicked: bool): (r: seq<Element>)
    requires |keys| == |data| && i <= |data|
    ensures |r| == |data|
  {
    Scanned(keys, data, x, y, mouseClicked)[..i] + data[i..]
  }

  /** Before the scan has passed any slot, the elements are as they were. */
  lemma NotYetScanned(keys: seq<Key>, data: seq<Element>, x: int, y: int, mouseClicked: bool)
    requires |keys| == |data|
    ensures PartlyScanned(keys, data, 0, x, y, mouseClicked) == data
  {
    assert data[0..] == data;
  }

  /** Passing slot i turns it into what the scan makes of it. */
  lemma PartlyScannedStep(keys: seq<Key>, data: seq<Element>, i: nat, x: int, y: int, mouseClicked: bool)
    requires |keys| == |data| && i < |data|
    ensures PartlyScanned(keys, data, i, x, y, mouseClicked)[i] == data[i]
    ensures PartlyScanned(keys, data, i, x, y, mouseClicked)[i := ScanOne(keys, data, i, x, y, mouseClicked)]
         == PartlyScanned(keys, data, i + 1, x, y, mouseClicked)
  {
    var before := PartlyScanned(keys, data, i, x, y, mouseClicked);
    var after := PartlyScanned(keys, data, i + 1, x, y, mouseClicked);
    assert before[i := ScanOne(keys, data, i, x, y, mouseClicked)] == after by {
      forall j | 0 <= j < |data|
        ensures before[i := ScanOne(keys, data, i, x, y, mouseClicked)][j] == after[j]
      {
        if j < i {
          assert before[j] == Scanned(keys, data, x, y, mouseClicked)[j] == after[j];
        } else if i < j {
          assert before[j] == data[j] == after[j];
        }
      }
    }
  }

  /** Once the scan has passed every slot, the elements are the scanned ones. */
  lemma FullyScanned(keys: seq<Key>, data: seq<Element>, x: int, y: int, mouseClicked: bool)
    requires |keys| == |data|
    ensures PartlyScanned(keys, data, |data|, x, y, mouseClicked) == Scanned(keys, data, x, y, mouseClicked)
  {
    assert data[|data|..] == [];
  }

  /** The elements after update. */
  function UpdatedElements(keys: seq<Key>, data: seq<Element>, x: int, y: int, mouseClicked: bool): (r: seq<Element>)
    requires |keys| == |data|
    ensures |r| == |data|
  {
    var scanned := Scanned(keys, data, x, y, mouseClicked);
    match TopElement(keys, data, x, y, |keys|)
    case None => scanned
    case Some(t) => scanned[t := MarkTop(scanned[t], mouseClicked)]
  }

  /** The handle update builds for the top element, or a null handle. */
  function TopHandle(keys: seq<Key>, top: Option<nat>): (p: Ptr)
    requires top.Some? ==> top.value < |keys|
    ensures top.Some? && !keys[top.value].free ==> Live(keys, p)
    ensures top.None? ==> p == NullPtr
  {
    match top
    case None => NullPtr
    case Some(t) => Ptr(t, Key(keys[t].nr, false))
  }

  /** The alerts update sends, in the order it sends them. */
  function UpdateAlerts(keys: seq<Key>, lastSelected: Ptr, lastClicked: Ptr, top: Ptr, found: bool, mouseClicked: bool): seq<Alert>
  {
    (if lastSelected != top && Live(keys, lastSelected) then [Deselected(lastSelected)] else [])
    + (if mouseClicked && lastClicked != top && Live(keys, lastClicked) then [NotLastClicked(lastClicked)] else [])
    + (if found then [Selected(top)] + (if mouseClicked then [Clicked(top)] else []) else [])
  }

  /** Two elements that differ at most in their three widget flags. */
  predicate SameButFlags(a: Element, b: Element)
  {
    a.(isLastClicked := b.isLastClicked, isClicked := b.isClicked, isSelected := b.isSelected) == b
  }

  /** One element after update, from its old value. */
  lemma UpdatedAt(keys: seq<Key>, data: seq<Element>, x: int, y: int, mouseClicked: bool, i: nat)
    requires |keys| == |data| && i < |data|
    ensures var r := UpdatedElements(keys, data, x, y, mouseClicked);
      var top := TopElement(keys, data, x, y, |keys|);
      r[i] == if top == Some(i) then MarkTop(ScanReset(data[i], mouseClicked), mouseClicked)
              else if UnderMouse(keys, data, i, x, y) then ScanReset(data[i], mouseClicked)
              else data[i]
  {
    TopElementIsLowestLatest(keys, data, x, y, |keys|);
  }

  /**
   * After update the top element alone among those under the mouse is
   * selected, and clicked exactly when the mouse was; the others under the
   * mouse are cleared; elements away from the mouse keep their flags; and
   * nothing but the flags changes.
   */
  lemma UpdatedFlags(keys: seq<Key>, data: seq<Element>, x: int, y: int, mouseClicked: bool)
    requires |keys| == |data|
    ensures var r := UpdatedElements(keys, data, x, y, mouseClicked);
      var top := TopElement(keys, data, x, y, |keys|);
      forall i :: 0 <= i < |data| ==>
        SameButFlags(r[i], data[i])
        && (top == Some(i) ==>
              r[i].isSelected && r[i].isClicked == mouseClicked && r[i].isLastClicked == (mouseClicked || data[i].isLastClicked))
        && (top != Some(i) && UnderMouse(keys, data, i, x, y) ==>
              !r[i].isSelected && !r[i].isClicked && r[i].isLastClicked == (!mouseClicked && data[i].isLastClicked))
        && (!UnderMouse(keys, data, i, x, y) ==> r[i] == data[i])
  {
    forall i | 0 <= i < |data|
      ensures var r := UpdatedElements(keys, data, x, y, mouseClicked);
        var top := TopElement(keys, data, x, y, |keys|);
        SameButFlags(r[i], data[i])
        && (top == Some(i) ==>
              r[i].isSelected && r[i].isClicked == mouseClicked && r[i].isLastClicked == (mouseClicked || data[i].isLastClicked))
        && (top != Some(i) && UnderMouse(keys, data, i, x, y) ==>
              !r[i].isSelected && !r[i].isClicked && r[i].isLastClicked == (!mouseClicked && data[i].isLastClicked))
        && (!UnderMouse(keys, data, i, x, y) ==> r[i] == data[i])
    {
      UpdatedAt(keys, data, x, y, mouseClicked, i);
    }
  }

  /** At most one element under the mouse is selected after update, and one is whenever any element is under it. */
  lemma UpdatedSelectsTopOnly(keys: seq<Key>, data: seq<Element>, x: int, y: int, mouseClicked: bool)
    requires |keys| == |data|
    ensures var r := UpdatedElements(keys, data, x, y, mouseClicked);
      (exists i :: 0 <= i < |data| && UnderMouse(keys, data, i, x, y))
        <==> (exists i :: 0 <= i < |data| && UnderMouse(keys, data, i, x, y) && r[i].isSelected)
    ensures var r := UpdatedElements(keys, data, x, y, mouseClicked);
      forall i, j ::
        (0 <= i < |data| && 0 <= j < |data| && UnderMouse(keys, data, i, x, y) && UnderMouse(keys, data, j, x, y)
         && r[i].isSelected && r[j].isSelected) ==> i == j
  {
    UpdatedFlags(keys, data, x, y, mouseClicked);
    TopElementIsLowestLatest(keys, data, x, y, |keys|);
    var top := TopElement(keys, data, x, y, |keys|);
    if top.Some? {
      assert UnderMouse(keys, data, top.value, x, y) && UpdatedElements(keys, data, x, y, mouseClicked)[top.value].isSelected;
    }
  }

  // --------------------------------------------------------- element moves

  /** _LayoutElement::set_position through handle p: a moved alert only when the position changes. */
  function SetElementPosition(s: Scene, p: Ptr, pos: Rect): (r: Scene)
    requires 0 <= p.index < |s.data|
    ensures |r.data| == |s.data| && r.data[p.index].position == pos
    ensures r.data[p.index].(position := s.data[p.index].position) == s.data[p.index]
    ensures forall i :: 0 <= i < |s.data| && i != p.index ==> r.data[i] == s.data[i]
    ensures r.alerts == s.alerts + (if s.data[p.index].position == pos then [] else [Moved(p)])
  {
    if s.data[p.index].position == pos then s
    else Scene(s.data[p.index := s.data[p.index].(position := pos)], s.alerts + [Moved(p)])
  }

  /** Setting the position it already has changes nothing. */
  lemma SetElementPositionIdempotent(s: Scene, p: Ptr, pos: Rect)
    requires 0 <= p.index < |s.data|
    ensures SetElementPosition(SetElementPosition(s, p, pos), p, pos) == SetElementPosition(s, p, pos)
  {
  }

  // ---------------------------------------------------------------- manager

  /** _LayoutElementManager with the pool of elements it owns. */
  class LayoutElementManager {
    const pool: Pool<Element>
    var windowElement: Ptr
    var lastSelected: Ptr
    var lastClicked: Ptr
    var alerts: seq<Alert>

    ghost predicate Valid()
      reads this, pool
    {
      pool.Valid() && AllPartsIssued(pool.keys, pool.data, pool.totalAllocationCount)
      && !windowElement.key.free && !lastSelected.key.free && !lastClicked.key.free
    }

    /** Writes one slot through a handle; the element written keeps clear part handles. */
    method WriteElement(index: nat, e: Element)
      requires Valid() && index < |pool.keys|
      requires PartsIssued(e.parts, pool.totalAllocationCount)
      modifies pool
      ensures Valid() && pool.data == old(pool.data)[index := e]
      ensures pool.keys == old(pool.keys) && pool.totalAllocationCount == old(pool.totalAllocationCount)
    {
      pool.SetData(index, e);
    }

    /** set_position on the element behind a live handle. */
    method MoveElement(p: Ptr, pos: Rect)
      requires Valid() && Live(pool.keys, p)
      modifies pool, this`alerts
      ensures Valid() && Scene(pool.data, alerts) == SetElementPosition(old(Scene(pool.data, alerts)), p, pos)
      ensures pool.keys == old(pool.keys) && pool.totalAllocationCount == old(pool.totalAllocationCount)
    {
      var e := pool.data[p.index];
      if e.position != pos {
        WriteElement(p.index, e.(position := pos));
        alerts := alerts + [Moved(p)];
      }
    }

    /** The manager's constructor: a window element at (0, 0, 1000, 1000), with its moved alert. */
    constructor ()
      ensures Valid() && fresh(pool)
      ensures |pool.keys| == 1 && Live(pool.keys, windowElement)
      ensures pool.data[windowElement.index] == NewElement.(position := Rect(0, 0, 1000, 1000))
      ensures lastSelected == NullPtr && lastClicked == NullPtr
      ensures alerts == [Moved(windowElement)]
    {
      pool := new Pool<Element>(NewElement);
      windowElement, lastSelected, lastClicked := NullPtr, NullPtr, NullPtr;
      alerts := [];
      new;
      windowElement := pool.Push(NewElement);
      MoveElement(windowElement, Rect(0, 0, 1000, 1000));
    }

    /** set_position: moves the window element; fails when that handle has expired. */
    method SetPosition(pos: Rect) returns (r: Result<()>)
      requires Valid()
      modifies pool, this`alerts
      ensures Valid() && pool.keys == old(pool.keys)
      ensures r.Success? <==> Live(pool.keys, windowElement)
      ensures r.Success? ==> Scene(pool.data, alerts) == SetElementPosition(old(Scene(pool.data, alerts)), windowElement, pos)
      ensures r.Failure? ==> pool.data == old(pool.data) && alerts == old(alerts)
    {
      if !Live(pool.keys, windowElement) {
        return Failure("the window element has expired");
      }
      MoveElement(windowElement, pos);
      r := Success(());
    }

    /** The scan of update: resets the flags of every element under the mouse and finds the top one. */
    method ScanElements(mouseClicked: bool, x: int, y: int) returns (top: Option<nat>)
      requires Valid()
      modifies pool
      ensures Valid() && pool.keys == old(pool.keys) && pool.totalAllocationCount == old(pool.totalAllocationCount)
      ensures pool.data == Scanned(pool.keys, old(pool.data), x, y, mouseClicked)
      ensures top == TopElement(pool.keys, old(pool.data), x, y, |pool.keys|)
    {
      ghost var data0 := pool.data;
      top := ScanLoop(data0, mouseClicked, x, y);
      FullyScanned(pool.keys, data0, x, y, mouseClicked);
    }

    /** The loop of the scan, from the first slot to the last. */
    method ScanLoop(ghost data0: seq<Element>, mouseClicked: bool, x: int, y: int) returns (top: Option<nat>)
      requires Valid() && data0 == pool.data
      modifies pool
      ensures Valid() && pool.keys == old(pool.keys) && pool.totalAllocationCount == old(pool.totalAllocationCount)
      ensures pool.data == PartlyScanned(pool.keys, data0, |pool.keys|, x, y, mouseClicked)
      ensures top == TopElement(pool.keys, data0, x, y, |pool.keys|)
    {
      ghost var total0 := pool.totalAllocationCount;
      var keys := pool.keys;
      top := None;
      var topDepth: real := 0.0;
      var i := 0;
      NotYetScanned(keys, data0, x, y, mouseClicked);
      while i < |keys|
        invariant i <= |keys| == |data0| && Valid() && pool.keys == keys && pool.totalAllocationCount == total0
        invariant pool.data == PartlyScanned(keys, data0, i, x, y, mouseClicked)
        invariant top == TopElement(keys, data0, x, y, i)
        invariant top.Some? ==> topDepth == data0[top.value].widgetDepth
      {
        top, topDepth := ScanStep(data0, i, top, topDepth, mouseClicked, x, y);
        i := i + 1;
      }
    }

    /** One turn of the scan: element i is reset when it is under the mouse, and taken as the top one when it lies above. */
    method ScanStep(ghost data0: seq<Element>, i: nat, top: Option<nat>, topDepth: real, mouseClicked: bool, x: int, y: int)
      returns (top': Option<nat>, topDepth': real)
      requires Valid() && i < |pool.keys|
      requires |data0| == |pool.keys| && pool.data == PartlyScanned(pool.keys, data0, i, x, y, mouseClicked)
      requires top == TopElement(pool.keys, data0, x, y, i)
      requires top.Some? ==> topDepth == data0[top.value].widgetDepth
      modifies pool
      ensures Valid() && pool.keys == old(pool.keys) && pool.totalAllocationCount == old(pool.totalAllocationCount)
      ensures pool.data == PartlyScanned(pool.keys, data0, i + 1, x, y, mouseClicked)
      ensures top' == TopElement(pool.keys, data0, x, y, i + 1)
      ensures top'.Some? ==> topDepth' == data0[top'.value].widgetDepth
    {
      top', topDepth' := top, topDepth;
      PartlyScannedStep(pool.keys, data0, i, x, y, mouseClicked);
      var e := pool.data[i];
      if !pool.keys[i].free && IsInsideRect(e.position, x, y) {
        if top.None? || TakesOver(topDepth, pool.keys[top.value].nr, e.widgetDepth, pool.keys[i].nr) {
          top' := Some(i);
          topDepth' := e.widgetDepth;
        }
        WriteElement(i, ScanReset(e, mouseClicked));
      }
    }

    /**
     * update: resets the flags of every element under the mouse, picks the
     * top one, tells the previous selection and click about the change and
     * marks the new top as selected (and clicked).
     */
    method Update(mouseClicked: bool, x: int, y: int)
      requires Valid()
      modifies this, pool
      ensures Valid() && pool.keys == old(pool.keys) && pool.totalAllocationCount == old(pool.totalAllocationCount)
      ensures pool.data == UpdatedElements(old(pool.keys), old(pool.data), x, y, mouseClicked)
      ensures windowElement == old(windowElement)
      ensures var top := TopElement(old(pool.keys), old(pool.data), x, y, |old(pool.keys)|);
        && lastSelected == (if top.Some? then TopHandle(old(pool.keys), top) else old(lastSelected))
        && lastClicked == (if top.Some? && mouseClicked then TopHandle(old(pool.keys), top) else old(lastClicked))
        && alerts == old(alerts) + UpdateAlerts(old(pool.keys), old(lastSelected), old(lastClicked),
                                                TopHandle(old(pool.keys), top), top.Some?, mouseClicked)
    {
      var top := ScanElements(mouseClicked, x, y);
      var topPtr := TopHandle(pool.keys, top);
      alerts := alerts + UpdateAlerts(pool.keys, lastSelected, lastClicked, topPtr, top.Some?, mouseClicked);
      if top.Some? {
        lastSelected := topPtr;
        if mouseClicked {
          lastClicked := topPtr;
        }
        WriteElement(top.value, MarkTop(pool.data[top.value], mouseClicked));
      }
    }

    /** push on the pool of elements: a fresh slot (a free one, or a new one after growth) holds e. */
    method PushElement(e: Element) returns (p: Ptr)
      requires Valid() && pool.totalAllocationCount < MaxAllocationNr
      requires PartsIssued(e.parts, pool.totalAllocationCount)
      modifies pool
      ensures Valid() && Live(pool.keys, p) && pool.data[p.index] == e
      ensures p.key == Key(pool.totalAllocationCount, false) && pool.totalAllocationCount == old(pool.totalAllocationCount) + 1
      ensures |pool.keys| >= old(|pool.keys|) && (p.index < old(|pool.keys|) ==> old(pool.keys)[p.index].free)
      ensures forall i :: 0 <= i < old(|pool.keys|) && i != p.index ==> pool.keys[i] == old(pool.keys)[i] && pool.data[i] == old(pool.data)[i]
      ensures forall i :: old(|pool.keys|) <= i < |pool.keys| && i != p.index ==> pool.keys[i].free
      ensures forall q :: Live(old(pool.keys), q) ==> Live(pool.keys, q)
      ensures forall q: Ptr :: q.key.nr <= old(pool.totalAllocationCount) && Live(pool.keys, q) ==> Live(old(pool.keys), q)
    {
      ghost var keys0, data0, total0 := pool.keys, pool.data, pool.totalAllocationCount;
      p := pool.Push(e);
      AllocationKeepsHandles(keys0, pool.keys, p.index, total0);
      forall i | 0 <= i < |pool.keys| && !pool.keys[i].free
        ensures PartsIssued(pool.data[i].parts, pool.totalAllocationCount)
      {
        if i != p.index {
          assert i < |keys0| && pool.keys[i] == keys0[i] && pool.data[i] == data0[i];
          assert PartsIssued(data0[i].parts, total0);
        }
      }
    }

    /**
     * One round of the first loop of set_parts_count: erase the last part,
     * then pop it unless the element went with it. `full` is the parts
     * vector the loop started from, `keys0` and `alerts0` the state then.
     */
    method DropLastPart(elem: Ptr, parts: seq<Ptr>, ghost e0: Element, ghost data0: seq<Element>, ghost keys0: seq<Key>, ghost alerts0: seq<Alert>)
      returns (kept: bool)
      requires Valid() && Live(pool.keys, elem) && 0 < |parts| <= |e0.parts| && parts == e0.parts[..|parts|]
      requires elem.index < |data0| && pool.data == data0[elem.index := e0.(parts := parts)]
      requires OnlyFreed(keys0, pool.keys, {}) && OnlyDeleted(alerts0, alerts)
      requires forall k :: |parts| <= k < |e0.parts| ==> !Live(pool.keys, e0.parts[k])
      modifies pool, this`alerts
      ensures Valid() && pool.totalAllocationCount == old(pool.totalAllocationCount)
      ensures OnlyFreed(keys0, pool.keys, {}) && OnlyDeleted(alerts0, alerts)
      ensures forall k :: |parts| - 1 <= k < |e0.parts| ==> !Live(pool.keys, e0.parts[k])
      ensures parts[..|parts| - 1] == e0.parts[..|parts| - 1]
      ensures kept <==> Live(pool.keys, elem)
      ensures pool.data == if kept then data0[elem.index := e0.(parts := parts[..|parts| - 1])] else old(pool.data)
    {
      assert parts[..|parts| - 1] == e0.parts[..|parts| - 1];
      ghost var keys1 := pool.keys;
      ghost var alerts1 := alerts;
      EraseElement(parts[|parts| - 1], {});
      OnlyFreedTrans(keys0, keys1, pool.keys, {}, {});
      OnlyDeletedTrans(alerts0, alerts1, alerts);
      OnlyFreedKeepsExpiredFrom(keys1, pool.keys, {}, e0.parts, |parts|);
      kept := Live(pool.keys, elem);
      if kept {
        WriteElement(elem.index, pool.data[elem.index].(parts := parts[..|parts| - 1]));
        UpdateTwice(data0, elem.index, e0.(parts := parts), e0.(parts := parts[..|parts| - 1]));
      }
    }

    /** The first loop of set_parts_count: erase and drop the last part while there are more than count. */
    method TrimParts(elem: Ptr, count: nat) returns (r: Result<()>)
      requires Valid() && Live(pool.keys, elem)
      modifies pool, this`alerts
      ensures Valid() && pool.totalAllocationCount == old(pool.totalAllocationCount)
      ensures OnlyFreed(old(pool.keys), pool.keys, {}) && OnlyDeleted(old(alerts), alerts)
      ensures forall i :: 0 <= i < |pool.keys| && i != elem.index ==> pool.data[i] == old(pool.data)[i]
      ensures r.Success? <==> Live(pool.keys, elem)
      ensures r.Success? ==>
        var parts0 := old(pool.data)[elem.index].parts;
        && pool.data[elem.index] == old(pool.data)[elem.index].(parts := parts0[..Min(count, |parts0|)])
        && forall k :: count <= k < |parts0| ==> !Live(pool.keys, parts0[k])
    {
      ghost var keys0 := pool.keys;
      ghost var e0 := pool.data[elem.index];
      var parts := pool.data[elem.index].parts;
      assert parts == e0.parts[..|parts|];
      var kept := true;
      while kept && |parts| > count
        invariant Valid() && pool.totalAllocationCount == old(pool.totalAllocationCount)
        invariant kept <==> Live(pool.keys, elem)
        invariant OnlyFreed(keys0, pool.keys, {}) && OnlyDeleted(old(alerts), alerts)
        invariant pool.data == old(pool.data)[elem.index := e0.(parts := parts)]
        invariant Min(count, |e0.parts|) <= |parts| <= |e0.parts| && parts == e0.parts[..|parts|]
        invariant forall k :: |parts| <= k < |e0.parts| ==> !Live(pool.keys, e0.parts[k])
        decreases |parts| + if kept then 1 else 0
      {
        kept := DropLastPart(elem, parts, e0, old(pool.data), keys0, old(alerts));
        if kept {
          parts := parts[..|parts| - 1];
        }
      }
      r := if kept then Success(()) else Failure("the element was erased together with its own part");
    }

    /**
     * One round of the second loop of set_parts_count: push a new element and
     * append it as a part. `keys0`, `data0`, `total0` and `e0` are the pool
     * and the element when the loop started.
     */
    method AddPart(elem: Ptr, parts: seq<Ptr>, ghost e0: Element, ghost keys0: seq<Key>, ghost data0: seq<Element>, ghost total0: nat)
      returns (q: Ptr)
      requires Valid() && Live(pool.keys, elem) && elem.key.nr <= total0 && pool.totalAllocationCount < MaxAllocationNr
      requires forall i :: 0 <= i < |keys0| ==> keys0[i].nr <= total0
      requires Grown(keys0, data0, total0, elem.index, e0, pool.keys, pool.data, pool.totalAllocationCount, parts)
      modifies pool
      ensures Valid() && Live(pool.keys, elem)
      ensures Grown(keys0, data0, total0, elem.index, e0, pool.keys, pool.data, pool.totalAllocationCount, parts + [q])
    {
      ghost var keys1, data1, total1 := pool.keys, pool.data, pool.totalAllocationCount;
      assert PartsIssued(parts, total1);
      q := PushElement(NewElement);
      ghost var dataP := pool.data;
      PartsIssuedAppend(parts, q, total1, pool.totalAllocationCount);
      WriteElement(elem.index, pool.data[elem.index].(parts := parts + [q]));
      GrownStep(keys0, data0, total0, elem.index, e0, keys1, data1, total1, parts, pool.keys, dataP, pool.data, q);
    }

    /** The second loop of set_parts_count: push new elements as parts while there are fewer than count. */
    method GrowParts(elem: Ptr, count: nat) returns (r: Result<()>)
      requires Valid() && Live(pool.keys, elem)
      requires pool.totalAllocationCount + count <= MaxAllocationNr
      modifies pool
      ensures Valid() && Live(pool.keys, elem)
      ensures Grown(old(pool.keys), old(pool.data), old(pool.totalAllocationCount), elem.index, old(pool.data)[elem.index],
                    pool.keys, pool.data, pool.totalAllocationCount, pool.data[elem.index].parts)
      ensures var parts0 := old(pool.data)[elem.index].parts;
        r.Failure? <==> 0 < |parts0| < count && !Live(old(pool.keys), parts0[0])
      ensures r.Success? ==> |pool.data[elem.index].parts| == Max(count, |old(pool.data)[elem.index].parts|)
    {
      ghost var keys0, data0, total0 := pool.keys, pool.data, pool.totalAllocationCount;
      ghost var e0 := pool.data[elem.index];
      ghost var m0 := |e0.parts|;
      assert forall i :: 0 <= i < |keys0| ==> keys0[i].nr <= total0;
      assert PartsIssued(e0.parts, total0);
      var parts := pool.data[elem.index].parts;
      assert parts[..m0] == e0.parts && e0.(parts := parts) == e0;
      var firstLive := true;
      while firstLive && |parts| < count
        invariant Valid() && Live(pool.keys, elem)
        invariant Grown(keys0, data0, total0, elem.index, e0, pool.keys, pool.data, pool.totalAllocationCount, parts)
        invariant |parts| <= Max(count, m0)
        invariant firstLive && m0 < |parts| ==> Live(pool.keys, parts[0])
        invariant !firstLive ==> m0 < |parts| && !Live(pool.keys, parts[0])
        decreases count - |parts|
      {
        var q := AddPart(elem, parts, e0, keys0, data0, total0);
        parts := parts + [q];
        firstLive := Live(pool.keys, parts[0]);
      }
      GrownOutcome(keys0, data0, total0, elem.index, e0, pool.keys, pool.data, pool.totalAllocationCount, parts);
      r := if firstLive then Success(()) else Failure("the first part has expired");
    }

    /**
     * set_parts_count: on a live element, erase and drop the parts past
     * count, then push new elements as parts up to count. It fails when the
     * element is erased together with one of its own parts, and when the
     * first part has expired; the last check is made only when there is a
     * first part (see the findings).
     */
    method SetPartsCount(elem: Ptr, count: nat) returns (r: Result<()>)
      requires Valid() && pool.totalAllocationCount + count <= MaxAllocationNr
      modifies pool, this`alerts
      ensures Valid() && OnlyDeleted(old(alerts), alerts) && |pool.keys| >= old(|pool.keys|)
      ensures !Live(old(pool.keys), elem) ==>
        r.Success? && pool.keys == old(pool.keys) && pool.data == old(pool.data) && alerts == old(alerts)
      ensures forall q: Ptr :: q.key.nr <= old(pool.totalAllocationCount) && Live(pool.keys, q) ==> Live(old(pool.keys), q)
      ensures forall q: Ptr :: Live(old(pool.keys), q) && Live(pool.keys, q) && q.index != elem.index ==>
        pool.data[q.index] == old(pool.data)[q.index]
      ensures Live(old(pool.keys), elem) ==>
        var parts := pool.data[elem.index].parts;
        r.Success? <==> Live(pool.keys, elem) && (count > 0 ==> 0 < |parts| && Live(pool.keys, parts[0]))
      ensures r.Success? && Live(old(pool.keys), elem) ==>
        var parts0 := old(pool.data)[elem.index].parts;
        var parts := pool.data[elem.index].parts;
        var kept := Min(count, |parts0|);
        && pool.data[elem.index] == old(pool.data)[elem.index].(parts := parts)
        && |parts| == count && parts[..kept] == parts0[..kept]
        && (forall k :: count <= k < |parts0| ==> !Live(pool.keys, parts0[k]))
        && pool.totalAllocationCount == old(pool.totalAllocationCount) + count - kept
        && FreshParts(pool.keys, pool.data, parts, kept, old(pool.totalAllocationCount))
    {
      if !Live(pool.keys, elem) {
        return Success(());
      }
      ghost var keys0, data0, total0 := pool.keys, pool.data, pool.totalAllocationCount;
      ghost var parts0 := data0[elem.index].parts;
      assert PartsIssued(parts0, total0);
      r := TrimParts(elem, count);
      if r.Failure? {
        SetPartsCountFrame(keys0, data0, total0, pool.keys, pool.data, pool.keys, pool.data, elem.index);
        return;
      }
      ghost var keys1, data1 := pool.keys, pool.data;
      ghost var parts1 := data1[elem.index].parts;
      assert PartsIssued(parts1, total0);
      r := GrowParts(elem, count);
      SetPartsCountFrame(keys0, data0, total0, keys1, data1, pool.keys, pool.data, elem.index);
      var parts := pool.data[elem.index].parts;
      if r.Failure? {
        assert parts[0] == parts[..|parts1|][0] == parts1[0];
        return;
      }
      if count > 0 && !Live(pool.keys, parts[0]) {
        return Failure("the first part has expired");
      }
    }

    /**
     * pool_ptr::erase on an element, with the destructor it runs: the slot is
     * marked free, the element's deleted alert fires, every part is erased in
     * turn, and only then the slot joins the free list. Slots in `dying` are
     * already marked free by an erasure further up and count as expired.
     */
    method EraseElement(p: Ptr, dying: set<nat>)
      requires Valid() && !p.key.free
      modifies pool, this`alerts
      ensures Valid() && pool.data == old(pool.data) && pool.totalAllocationCount == old(pool.totalAllocationCount)
      ensures OnlyFreed(old(pool.keys), pool.keys, dying) && OnlyDeleted(old(alerts), alerts)
      ensures !Live(old(pool.keys), p) || p.index in dying ==> pool.keys == old(pool.keys) && alerts == old(alerts)
      ensures Live(old(pool.keys), p) && p.index !in dying ==>
        !Live(pool.keys, p) && |alerts| > |old(alerts)| && alerts[|old(alerts)|] == Deleted(p)
        && ErasedOrDying(pool.keys, old(pool.data)[p.index].parts, dying)
      decreases LiveSlotsOf(pool.keys) - dying, 0
    {
      if !Live(pool.keys, p) || p.index in dying {
        return;
      }
      ghost var keys0 := pool.keys;
      var parts := pool.data[p.index].parts;
      alerts := alerts + [Deleted(p)];
      ghost var alerts1 := alerts;
      OnlyFreedShrinks(keys0, keys0, dying, p.index);
      EraseParts(parts, dying + {p.index});
      assert alerts[..|alerts1|] == alerts1;
      ghost var keys2 := pool.keys;
      assert keys2[p.index] == keys0[p.index];
      OnlyFreedTrans(keys0, keys0, keys2, dying, {p.index});
      pool.Erase(p);
      FreeingEndsOnlyItsHandles(keys2, p.index);
      OnlyFreedKeepsIssued(keys2, pool.keys, {}, pool.data, pool.totalAllocationCount);
      forall k | 0 <= k < |parts| && parts[k].index !in dying
        ensures !Live(pool.keys, parts[k])
      {
      }
    }

    /** The loop of delete_all_parts: erases every part in turn (the parts vector itself is left to the caller). */
    method EraseParts(parts: seq<Ptr>, dying: set<nat>)
      requires Valid() && PartsIssued(parts, pool.totalAllocationCount)
      modifies pool, this`alerts
      ensures Valid() && pool.data == old(pool.data) && pool.totalAllocationCount == old(pool.totalAllocationCount)
      ensures OnlyFreed(old(pool.keys), pool.keys, dying) && OnlyDeleted(old(alerts), alerts)
      ensures ErasedOrDying(pool.keys, parts, dying)
      decreases LiveSlotsOf(pool.keys) - dying, 1
    {
      ghost var keys0 := pool.keys;
      var i := 0;
      while i < |parts|
        invariant 0 <= i <= |parts| && Valid()
        invariant pool.data == old(pool.data) && pool.totalAllocationCount == old(pool.totalAllocationCount)
        invariant OnlyFreed(keys0, pool.keys, dying) && OnlyDeleted(old(alerts), alerts)
        invariant ErasedOrDying(pool.keys, parts[..i], dying)
      {
        ghost var keys1 := pool.keys;
        ghost var alerts1 := alerts;
        OnlyFreedLiveShrinks(keys0, keys1, dying);
        EraseElement(parts[i], dying);
        OnlyFreedTrans(keys0, keys1, pool.keys, dying, {});
        OnlyDeletedTrans(old(alerts), alerts1, alerts);
        ErasedOrDyingStep(keys1, pool.keys, parts, i, dying);
        i := i + 1;
      }
      assert parts[..i] == parts;
    }
  }
}
