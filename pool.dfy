/**
 * The generational-key pool allocator: a slab of slots, each with a key
 * holding the number of the allocation that last filled it and a free
 * flag, a singly linked free list threaded through the slots, and a
 * capacity that grows from 0 to 1 and then doubles whenever no slot is
 * free. A handle (pool_ptr) is an index and the key it was given; it is
 * honoured only while the slot still carries that exact key.
 */
module PoolAllocation {

  /** The top bit of a 32-bit key: the free flag. */
  const FreeFlag: nat := 0x8000_0000

  /** The largest value the signed total_allocation_count can reach. */
  const MaxAllocationNr: nat := 0x7FFF_FFFF

  /** A slot key: the allocation number (the low 31 bits) and the free flag (the top bit). */
  datatype Key = Key(nr: nat, free: bool)

  /** The 32-bit pattern of a key. */
  function KeyBits(k: Key): (bits: nat)
    requires k.nr < FreeFlag
    ensures bits < 2 * FreeFlag
    ensures bits % FreeFlag == k.nr && (bits >= FreeFlag <==> k.free)
  {
    k.nr + if k.free then FreeFlag else 0
  }

  /** Reading a 32-bit pattern as a key: get_allocation_nr masks the low 31 bits, is_free tests the top bit. */
  function KeyOfBits(bits: nat): Key
    requires bits < 2 * FreeFlag
  {
    Key(bits % FreeFlag, bits >= FreeFlag)
  }

  /** set_free on a 32-bit pattern: keep the allocation number, set or clear the top bit. */
  function SetFreeBits(bits: nat, free: bool): (r: nat)
    requires bits < 2 * FreeFlag
    ensures r < 2 * FreeFlag
  {
    bits % FreeFlag + if free then FreeFlag else 0
  }

  /** Keys and their bit patterns correspond one to one. */
  lemma KeyBitsRoundTrip(k: Key, bits: nat)
    requires k.nr < FreeFlag && bits < 2 * FreeFlag
    ensures KeyOfBits(KeyBits(k)) == k
    ensures KeyBits(KeyOfBits(bits)) == bits
  {
  }

  /** set_free changes the flag and leaves the allocation number alone. */
  lemma SetFreeKeepsAllocationNr(bits: nat, free: bool)
    requires bits < 2 * FreeFlag
    ensures KeyOfBits(SetFreeBits(bits, free)) == Key(KeyOfBits(bits).nr, free)
  {
  }

  /** A handle: pool_ptr's index and key (the default handle has index -1 and key 0). */
  datatype Ptr = Ptr(index: int, key: Key)

  const NullPtr := Ptr(-1, Key(0, false))

  /** The numbers 0 <= j < n in increasing order. */
  function Range(lo: nat, hi: nat): (r: seq<nat>)
    requires lo <= hi
    ensures |r| == hi - lo && forall j :: 0 <= j < |r| ==> r[j] == lo + j
    decreases hi - lo
  {
    if lo == hi then [] else [lo] + Range(lo + 1, hi)
  }

  predicate Distinct(s: seq<nat>)
  {
    forall a, b :: 0 <= a < b < |s| ==> s[a] != s[b]
  }

  /** The elements of a sequence. */
  function Elems(s: seq<nat>): (r: set<nat>)
    ensures forall x :: x in r <==> x in s
  {
    set x | x in s
  }

  /** A sequence without repeats has as many elements as its set. */
  lemma {:induction false} DistinctCard(s: seq<nat>)
    requires Distinct(s)
    ensures |Elems(s)| == |s|
  {
    if |s| > 0 {
      var tail := s[1..];
      assert Distinct(tail) by {
        forall a, b | 0 <= a < b < |tail| ensures tail[a] != tail[b] {
          assert tail[a] == s[a + 1] && tail[b] == s[b + 1];
        }
      }
      DistinctCard(tail);
      var rest := Elems(tail);
      assert Elems(s) == rest + {s[0]} by {
        assert forall x :: x in s <==> x == s[0] || x in tail;
      }
      assert s[0] !in rest by {
        forall b | 0 <= b < |tail| ensures tail[b] != s[0] {
          assert tail[b] == s[b + 1];
        }
      }
      assert |rest + {s[0]}| == |rest| + 1;
    } else {
      assert Elems(s) == {};
    }
  }

  /** The free slots of a key vector. */
  ghost function FreeSlotsOf(ks: seq<Key>): set<nat>
  {
    set i | 0 <= i < |ks| && ks[i].free
  }

  /** The slots in use of a key vector. */
  ghost function LiveSlotsOf(ks: seq<Key>): set<nat>
  {
    set i | 0 <= i < |ks| && !ks[i].free
  }

  /** Every slot is either free or in use. */
  lemma {:induction false} SlotsPartition(ks: seq<Key>)
    ensures |FreeSlotsOf(ks)| + |LiveSlotsOf(ks)| == |ks|
  {
    if |ks| > 0 {
      var init := ks[..|ks| - 1];
      var last := |ks| - 1;
      SlotsPartition(init);
      if ks[last].free {
        assert FreeSlotsOf(ks) == FreeSlotsOf(init) + {last};
        assert LiveSlotsOf(ks) == LiveSlotsOf(init);
      } else {
        assert FreeSlotsOf(ks) == FreeSlotsOf(init);
        assert LiveSlotsOf(ks) == LiveSlotsOf(init) + {last};
      }
    }
  }

  /** After a doubling the old slots are kept and every new one is free with allocation number 1. */
  lemma GrownKeys(oldKeys: seq<Key>, keys: seq<Key>, total: nat)
    requires |keys| == 2 * |oldKeys| && total >= 1
    requires forall i :: 0 <= i < |oldKeys| ==> keys[i] == oldKeys[i] && !oldKeys[i].free && 1 <= oldKeys[i].nr <= total
    requires forall j :: |oldKeys| <= j < |keys| ==> keys[j] == Key(1, true)
    ensures keys == oldKeys + seq(|oldKeys|, _ => Key(1, true))
    ensures forall i :: 0 <= i < |keys| ==> keys[i].nr <= total && (!keys[i].free ==> keys[i].nr >= 1)
  {
    var n := |oldKeys|;
    var grown := oldKeys + seq(n, _ => Key(1, true));
    forall i | 0 <= i < |keys|
      ensures keys[i] == grown[i]
    {
      if i < n {
        assert grown[i] == oldKeys[i];
      } else {
        assert grown[i] == Key(1, true);
      }
    }
  }

  /**
   * The free list threaded through next_free_vec, written out as the
   * sequence of slots it visits from next_free: no slot twice, exactly
   * the slots whose free flag is set, each linked to the next.
   */
  ghost predicate FreeListOk(keys: seq<Key>, nextFreeVec: seq<int>, nextFree: int, freeList: seq<nat>)
  {
    |keys| == |nextFreeVec|
    && Distinct(freeList)
    && (forall j :: 0 <= j < |freeList| ==> freeList[j] < |keys| && keys[freeList[j]].free)
    && (forall i :: 0 <= i < |keys| && keys[i].free ==> i in freeList)
    && (|freeList| > 0 ==> nextFree == freeList[0])
    && (forall j :: 0 <= j < |freeList| - 1 ==> nextFreeVec[freeList[j]] == freeList[j + 1])
  }

  /** After a doubling the free list is the new slots in increasing order, each linked to the next. */
  lemma GrownFreeList(oldSize: nat, keys: seq<Key>, nextFreeVec: seq<int>, freeList: seq<nat>)
    requires |keys| == |nextFreeVec| == 2 * oldSize
    requires forall i :: 0 <= i < oldSize ==> !keys[i].free
    requires forall j :: oldSize <= j < |keys| ==> keys[j].free && nextFreeVec[j] == j + 1
    requires freeList == Range(oldSize, |keys|)
    ensures FreeListOk(keys, nextFreeVec, oldSize, freeList)
  {
    forall i | 0 <= i < |keys| && keys[i].free
      ensures i in freeList
    {
      assert freeList[i - oldSize] == i;
    }
  }

  /**
   * Taking the head of the free list and marking it in use leaves a free
   * list that starts at the head's successor.
   */
  lemma PopFreeList(keys: seq<Key>, nextFreeVec: seq<int>, nextFree: int, freeList: seq<nat>, nr: nat)
    requires FreeListOk(keys, nextFreeVec, nextFree, freeList) && |freeList| > 0
    ensures 0 <= nextFree < |keys| && keys[nextFree].free
    ensures FreeListOk(keys[nextFree := Key(nr, false)], nextFreeVec, nextFreeVec[nextFree], freeList[1..])
  {
    var head, rest := freeList[0], freeList[1..];
    var ks := keys[head := Key(nr, false)];
    assert forall j :: 0 <= j < |rest| ==> rest[j] == freeList[j + 1] && rest[j] != head;
    forall i | 0 <= i < |ks| && ks[i].free
      ensures i in rest
    {
      assert i != head && keys[i].free;
      var j :| 0 <= j < |freeList| && freeList[j] == i;
      assert j > 0 && rest[j - 1] == i;
    }
  }

  /** Stamping a slot with the next allocation number keeps every number within the count. */
  lemma StampKeepsBounds(keys: seq<Key>, index: nat, total: nat)
    requires index < |keys|
    requires forall i :: 0 <= i < |keys| ==> keys[i].nr <= total && (!keys[i].free ==> keys[i].nr >= 1)
    ensures var ks := keys[index := Key(total + 1, false)];
      forall i :: 0 <= i < |ks| ==> ks[i].nr <= total + 1 && (!ks[i].free ==> ks[i].nr >= 1)
  {
  }

  /** Growing the key vector (old slots kept, new ones free) and then stamping one slot changes nothing else. */
  lemma StampFrame(oldKeys: seq<Key>, grownKeys: seq<Key>, index: nat, stamp: Key)
    requires |oldKeys| <= |grownKeys| && index < |grownKeys|
    requires forall i :: 0 <= i < |oldKeys| ==> grownKeys[i] == oldKeys[i]
    requires forall i :: |oldKeys| <= i < |grownKeys| ==> grownKeys[i].free
    ensures var keys := grownKeys[index := stamp];
      && (forall i :: 0 <= i < |oldKeys| && i != index ==> keys[i] == oldKeys[i])
      && (forall i :: |oldKeys| <= i < |keys| && i != index ==> keys[i].free)
  {
  }

  /** Marking an in-use slot free and linking it in front makes it the new head of the free list. */
  lemma PushFreeList(keys: seq<Key>, nextFreeVec: seq<int>, nextFree: int, freeList: seq<nat>, index: nat)
    requires FreeListOk(keys, nextFreeVec, nextFree, freeList)
    requires index < |keys| && !keys[index].free
    ensures FreeListOk(keys[index := Key(keys[index].nr, true)], nextFreeVec[index := nextFree], index, [index] + freeList)
  {
    PushedDistinct(keys, freeList, index);
    PushedFree(keys, freeList, index);
    PushedLinks(nextFreeVec, nextFree, freeList, index);
  }

  /** The pushed slot was not free, so it is not already listed. */
  lemma PushedDistinct(keys: seq<Key>, freeList: seq<nat>, index: nat)
    requires Distinct(freeList)
    requires forall j :: 0 <= j < |freeList| ==> freeList[j] < |keys| && keys[freeList[j]].free
    requires index < |keys| && !keys[index].free
    ensures Distinct([index] + freeList)
  {
    var fl := [index] + freeList;
    forall a, b | 0 <= a < b < |fl|
      ensures fl[a] != fl[b]
    {
      assert fl[b] == freeList[b - 1];
      if a > 0 {
        assert fl[a] == freeList[a - 1];
      }
    }
  }

  /** Marking the pushed slot free keeps the listed slots and the free slots the same set. */
  lemma PushedFree(keys: seq<Key>, freeList: seq<nat>, index: nat)
    requires forall j :: 0 <= j < |freeList| ==> freeList[j] < |keys| && keys[freeList[j]].free
    requires forall i :: 0 <= i < |keys| && keys[i].free ==> i in freeList
    requires index < |keys|
    ensures forall j :: 0 <= j < |[index] + freeList| ==> ([index] + freeList)[j] < |keys| && keys[index := Key(keys[index].nr, true)][([index] + freeList)[j]].free
    ensures forall i :: 0 <= i < |keys| && keys[index := Key(keys[index].nr, true)][i].free ==> i in [index] + freeList
  {
    var ks, fl := keys[index := Key(keys[index].nr, true)], [index] + freeList;
    forall j | 0 <= j < |fl|
      ensures fl[j] < |ks| && ks[fl[j]].free
    {
      if j > 0 {
        assert fl[j] == freeList[j - 1];
      }
    }
    forall i | 0 <= i < |ks| && ks[i].free
      ensures i in fl
    {
      if i != index {
        assert keys[i].free && i in freeList;
      }
    }
  }

  /** The pushed slot links to the old head, and the old links are untouched. */
  lemma PushedLinks(nextFreeVec: seq<int>, nextFree: int, freeList: seq<nat>, index: nat)
    requires index < |nextFreeVec| && index !in freeList
    requires forall j :: 0 <= j < |freeList| ==> freeList[j] < |nextFreeVec|
    requires |freeList| > 0 ==> nextFree == freeList[0]
    requires forall j :: 0 <= j < |freeList| - 1 ==> nextFreeVec[freeList[j]] == freeList[j + 1]
    ensures forall j :: 0 <= j < |[index] + freeList| - 1 ==> nextFreeVec[index := nextFree][([index] + freeList)[j]] == ([index] + freeList)[j + 1]
  {
    var nf, fl := nextFreeVec[index := nextFree], [index] + freeList;
    forall j | 0 <= j < |fl| - 1
      ensures nf[fl[j]] == fl[j + 1]
    {
      assert fl[j + 1] == freeList[j];
      if j > 0 {
        assert fl[j] == freeList[j - 1] != index;
      }
    }
  }

  /** A handle that reaches a slot in use under the slot's current key. */
  predicate Live(ks: seq<Key>, q: Ptr)
  {
    0 <= q.index < |ks| && ks[q.index] == q.key && !q.key.free
  }

  /**
   * An allocation (a free or new slot stamped with a fresh allocation
   * number, all other slots kept, the added ones free) keeps every live
   * handle live, and revives no handle stamped before it.
   */
  lemma AllocationKeepsHandles(oldKeys: seq<Key>, keys: seq<Key>, index: nat, total: nat)
    requires |oldKeys| <= |keys| && index < |keys|
    requires forall i :: 0 <= i < |oldKeys| && i != index ==> keys[i] == oldKeys[i]
    requires forall i :: |oldKeys| <= i < |keys| && i != index ==> keys[i].free
    requires index < |oldKeys| ==> oldKeys[index].free
    requires keys[index] == Key(total + 1, false)
    ensures forall q: Ptr :: Live(oldKeys, q) ==> Live(keys, q)
    ensures forall q: Ptr :: q.key.nr <= total && Live(keys, q) ==> Live(oldKeys, q)
  {
  }

  /** Freeing a slot ends the handles to it and no other. */
  lemma FreeingEndsOnlyItsHandles(oldKeys: seq<Key>, index: nat)
    requires index < |oldKeys|
    ensures var keys := oldKeys[index := Key(oldKeys[index].nr, true)];
      forall q: Ptr :: Live(keys, q) <==> Live(oldKeys, q) && q.index != index
  {
  }

  /** The number of slots once _assert_free_exists has run: one for an empty pool, double for a full one. */
  function Capacity(size: nat, freeCount: int): (r: nat)
    ensures r >= size && (r > size <==> size == 0 || freeCount == 0)
  {
    if size == 0 then 1 else if freeCount == 0 then 2 * size else size
  }

  /** _PoolAllocator together with its PoolAllocator front end. */
  /**
   * The loop of the doubling branch of _assert_free_exists: the new half
   * of the keys starts at allocation number 1, each new slot is marked
   * free and linked to the slot after it.
   */
  method PopulateNewSlots(oldKeys: seq<Key>, oldLinks: seq<int>) returns (keys: seq<Key>, links: seq<int>)
    requires |oldKeys| == |oldLinks|
    ensures |keys| == |links| == 2 * |oldKeys|
    ensures forall j :: 0 <= j < |oldKeys| ==> keys[j] == oldKeys[j] && links[j] == oldLinks[j]
    ensures forall j :: |oldKeys| <= j < |keys| ==> keys[j] == Key(1, true) && links[j] == j + 1
  {
    var currentSize := |oldKeys|;
    keys := oldKeys + seq(currentSize, _ => Key(1, false));
    links := oldLinks + seq(currentSize, _ => 0);
    var i := currentSize;
    while i < currentSize * 2
      invariant currentSize <= i <= currentSize * 2
      invariant |keys| == |links| == currentSize * 2
      invariant forall j :: 0 <= j < currentSize ==> keys[j] == oldKeys[j] && links[j] == oldLinks[j]
      invariant forall j :: currentSize <= j < i ==> keys[j] == Key(1, true) && links[j] == j + 1
      invariant forall j :: i <= j < |keys| ==> keys[j] == Key(1, false)
    {
      keys := keys[i := Key(keys[i].nr, true)];
      links := links[i := i + 1];
      i := i + 1;
    }
  }

  /**
   * The slots an iteration has visited before bound: increasing, in use,
   * and every slot in use below bound among them.
   */
  ghost predicate LiveBefore(keys: seq<Key>, visited: seq<nat>, bound: nat)
  {
    (forall a, b :: 0 <= a < b < |visited| ==> visited[a] < visited[b])
    && (forall a :: 0 <= a < |visited| ==> visited[a] < bound && visited[a] < |keys| && !keys[visited[a]].free)
    && (forall j :: 0 <= j < bound && j < |keys| && !keys[j].free ==> j in visited)
  }

  /** One step of the iteration: visiting a slot in use and skipping the free slots after it. */
  lemma LiveStep(keys: seq<Key>, visited: seq<nat>, index: nat, next: int)
    requires index < |keys| && !keys[index].free && LiveBefore(keys, visited, index)
    requires next == -1 || (index + 1 <= next < |keys| && !keys[next].free)
    requires forall j :: index + 1 <= j < |keys| && (next == -1 || j < next) ==> keys[j].free
    ensures LiveBefore(keys, visited + [index], if next == -1 then |keys| else next)
  {
    var v := visited + [index];
    var bound := if next == -1 then |keys| else next;
    forall j | 0 <= j < bound && j < |keys| && !keys[j].free
      ensures j in v
    {
      if j < index {
        assert j in visited;
      } else {
        assert j == index && v[|visited|] == j;
      }
    }
  }

  class Pool<T> {
    var keys: seq<Key>
    var data: seq<T>
    var nextFreeVec: seq<int>
    var nextFree: int
    var freeCount: int
    var totalAllocationCount: nat
    /** The free slots in free-list order, from nextFree along nextFreeVec. */
    ghost var freeList: seq<nat>
    /** The value a resize fills new data slots with (T's default value). */
    const blank: T

    ghost predicate Valid()
      reads this
    {
      |keys| == |data| == |nextFreeVec|
      && totalAllocationCount <= MaxAllocationNr
      && (forall i :: 0 <= i < |keys| ==> keys[i].nr <= totalAllocationCount && (!keys[i].free ==> keys[i].nr >= 1))
      && freeCount == |freeList|
      && FreeListOk(keys, nextFreeVec, nextFree, freeList)
    }

    constructor (blank: T)
      ensures Valid() && this.blank == blank
      ensures keys == [] && data == [] && freeCount == 0 && totalAllocationCount == 0
    {
      keys, data, nextFreeVec := [], [], [];
      nextFree, freeCount, totalAllocationCount := -1, 0, 0;
      freeList := [];
      this.blank := blank;
    }

    /** size(). */
    function Size(): (n: nat)
      reads this
    {
      |keys|
    }

    /** alloc_count(): size minus free_count. */
    function AllocCount(): int
      reads this
    {
      |keys| - freeCount
    }

    /** free_count is the number of slots marked free, and alloc_count the number in use. */
    lemma CountsMatchFlags()
      requires Valid()
      ensures freeCount == |FreeSlotsOf(keys)|
      ensures AllocCount() == |LiveSlotsOf(keys)|
    {
      DistinctCard(freeList);
      assert FreeSlotsOf(keys) == Elems(freeList);
      SlotsPartition(keys);
    }

    /** get_allocation_nr. */
    function GetAllocationNr(index: nat): nat
      requires index < |keys|
      reads this
    {
      keys[index].nr
    }

    /** is_free. */
    function IsFree(index: nat): bool
      requires index < |keys|
      reads this
    {
      keys[index].free
    }

    /** is_valid_key: the index (read as unsigned) is in range and the slot carries exactly this key. */
    function IsValidKey(index: int, key: Key): (r: bool)
      reads this
      ensures r ==> 0 <= index < |keys|
    {
      0 <= index < |keys| && keys[index] == key
    }

    /** pool_ptr::expired (the allocator itself always outlives its handles here). */
    function Expired(p: Ptr): bool
      reads this
    {
      !IsValidKey(p.index, p.key)
    }

    /** get_data: the value of a live slot, reached with its current key. */
    function GetData(index: int, key: Key): T
      requires Valid() && IsValidKey(index, key) && !keys[index].free
      reads this
    {
      data[index]
    }

    /** set_free: rewrites the flag of one key. */
    method SetFree(index: nat, free: bool)
      requires index < |keys|
      modifies this
      ensures keys == old(keys)[index := Key(old(keys[index].nr), free)]
      ensures data == old(data) && nextFreeVec == old(nextFreeVec) && nextFree == old(nextFree)
      ensures freeCount == old(freeCount) && totalAllocationCount == old(totalAllocationCount)
      ensures freeList == old(freeList)
    {
      keys := keys[index := Key(GetAllocationNr(index), free)];
    }

    /**
     * _assert_free_exists: an empty pool gets one free slot; a full pool
     * doubles, the new slots all free with allocation number 1 and linked
     * in increasing order; otherwise nothing changes.
     */
    method AssertFreeExists()
      requires Valid()
      modifies this
      ensures Valid() && freeCount > 0
      ensures totalAllocationCount == old(totalAllocationCount)
      ensures |keys| == Capacity(old(|keys|), old(freeCount))
      ensures forall i :: 0 <= i < old(|keys|) ==> keys[i] == old(keys[i])
      ensures forall i :: old(|keys|) <= i < |keys| ==> keys[i] == Key(if old(|keys|) == 0 then 0 else 1, true)
      ensures freeList == if old(freeCount) > 0 then old(freeList) else Range(old(|keys|), |keys|)
      ensures nextFree == if old(freeCount) > 0 then old(nextFree) else old(|keys|)
      ensures data[..old(|data|)] == old(data)
    {
      if |keys| == 0 {
        keys, data, nextFreeVec := [Key(0, false)], [blank], [0];
        nextFree := 0;
        freeCount := 1;
        freeList := [0];
        SetFree(0, true);
        assert data[..0] == [];
        assert freeList == Range(0, 1);
      } else if freeCount == 0 {
        assert !keys[0].free;
        Grow();
      }
    }

    /** The doubling branch of _assert_free_exists. */
    method Grow()
      requires Valid() && |keys| > 0 && freeCount == 0 && totalAllocationCount >= 1
      modifies this
      ensures Valid() && freeCount == old(|keys|)
      ensures totalAllocationCount == old(totalAllocationCount)
      ensures keys == old(keys) + seq(old(|keys|), _ => Key(1, true))
      ensures freeList == Range(old(|keys|), 2 * old(|keys|)) && nextFree == old(|keys|)
      ensures data[..old(|data|)] == old(data)
    {
      var currentSize := |keys|;
      ghost var oldKeys := keys;
      assert freeList == [];
      assert forall j :: 0 <= j < currentSize ==> !oldKeys[j].free && 1 <= oldKeys[j].nr <= totalAllocationCount;
      var ks, links := PopulateNewSlots(keys, nextFreeVec);
      keys, nextFreeVec := ks, links;
      ghost var oldData := data;
      data := data + seq(currentSize, _ => blank);
      assert data[..|oldData|] == oldData;
      nextFree := currentSize;
      freeCount := currentSize;
      freeList := Range(currentSize, currentSize * 2);
      GrownKeys(oldKeys, keys, totalAllocationCount);
      GrownFreeList(currentSize, keys, nextFreeVec, freeList);
      assert |keys| == |data| == |nextFreeVec|;
    }

    /**
     * allocate_free_index: makes sure a slot is free, pops the head of the
     * free list, counts the allocation and stamps the slot's key with the
     * new count, not free.
     */
    method AllocateFreeIndex() returns (index: nat)
      requires Valid() && totalAllocationCount < MaxAllocationNr
      modifies this
      ensures Valid()
      ensures |keys| == Capacity(old(|keys|), old(freeCount))
      ensures index == if old(freeCount) > 0 then old(nextFree) else old(|keys|)
      ensures index < old(|keys|) ==> old(keys[index].free)
      ensures index < |keys| && keys[index] == Key(totalAllocationCount, false)
      ensures totalAllocationCount == old(totalAllocationCount) + 1
      ensures freeCount == old(freeCount) + (|keys| - old(|keys|)) - 1
      ensures forall i :: 0 <= i < old(|keys|) && i != index ==> keys[i] == old(keys[i])
      ensures forall i :: old(|keys|) <= i < |keys| && i != index ==> keys[i].free
      ensures freeList == (if old(freeCount) > 0 then old(freeList) else Range(old(|keys|), |keys|))[1..]
      ensures data[..old(|data|)] == old(data)
    {
      AssertFreeExists();
      ghost var grownKeys := keys;
      index := PopFreeSlot();
      StampFrame(old(keys), grownKeys, index, Key(totalAllocationCount, false));
    }

    /** The second half of allocate_free_index: pops the free-list head and stamps it in use. */
    method PopFreeSlot() returns (index: nat)
      requires Valid() && freeCount > 0 && totalAllocationCount < MaxAllocationNr
      modifies this
      ensures Valid()
      ensures index == old(nextFree) && index < |keys| && old(keys[index].free)
      ensures keys == old(keys)[index := Key(totalAllocationCount, false)]
      ensures totalAllocationCount == old(totalAllocationCount) + 1
      ensures freeCount == old(freeCount) - 1 && freeList == old(freeList)[1..]
      ensures data == old(data)
    {
      PopFreeList(keys, nextFreeVec, nextFree, freeList, totalAllocationCount + 1);
      StampKeepsBounds(keys, nextFree, totalAllocationCount);
      var freeIndex := nextFree;
      nextFree := nextFreeVec[freeIndex];
      freeCount := freeCount - 1;
      totalAllocationCount := totalAllocationCount + 1;
      if freeCount != 0 {
        assert IsFree(freeIndex);
      }
      freeList := freeList[1..];
      keys := keys[freeIndex := Key(totalAllocationCount, false)];
      SetFree(freeIndex, false);
      index := freeIndex;
    }

    /**
     * free_index: with the slot's current key, marks it free and pushes it
     * on the front of the free list; with any other key, does nothing.
     */
    method FreeIndex(index: nat, key: Key)
      requires Valid() && index < |keys|
      requires keys[index] == key ==> !key.free
      modifies this
      ensures Valid()
      ensures old(keys[index]) == key ==>
        keys == old(keys)[index := Key(key.nr, true)] && freeCount == old(freeCount) + 1
        && nextFree == index && freeList == [index] + old(freeList)
        && nextFreeVec == old(nextFreeVec)[index := old(nextFree)]
      ensures old(keys[index]) != key ==>
        keys == old(keys) && freeCount == old(freeCount) && nextFree == old(nextFree)
        && freeList == old(freeList) && nextFreeVec == old(nextFreeVec)
      ensures data == old(data) && totalAllocationCount == old(totalAllocationCount)
    {
      if keys[index] == key {
        assert !IsFree(index);
        PushFreeList(keys, nextFreeVec, nextFree, freeList, index);
        SetFree(index, true);
        nextFreeVec := nextFreeVec[index := nextFree];
        nextFree := index;
        freeCount := freeCount + 1;
        freeList := [index] + freeList;
      }
    }

    /**
     * pool_ptr::push on the allocator: allocates a slot, stores the value
     * and returns a handle with the slot's new key. Live handles stay live
     * with their values; expired ones stay expired.
     */
    method Push(value: T) returns (p: Ptr)
      requires Valid() && totalAllocationCount < MaxAllocationNr
      modifies this
      ensures Valid()
      ensures |keys| == Capacity(old(|keys|), old(freeCount))
      ensures p.index == if old(freeCount) > 0 then old(nextFree) else old(|keys|)
      ensures p.key == Key(totalAllocationCount, false) && totalAllocationCount == old(totalAllocationCount) + 1
      ensures !Expired(p) && !keys[p.index].free && GetData(p.index, p.key) == value
      ensures p.index < old(|keys|) ==> old(keys[p.index].free)
      ensures forall i :: 0 <= i < old(|keys|) && i != p.index ==> keys[i] == old(keys[i]) && data[i] == old(data[i])
      ensures forall i :: old(|keys|) <= i < |keys| && i != p.index ==> keys[i].free
      ensures freeCount == old(freeCount) + (|keys| - old(|keys|)) - 1
      ensures freeList == (if old(freeCount) > 0 then old(freeList) else Range(old(|keys|), |keys|))[1..]
    {
      var index := AllocateFreeIndex();
      data := data[index := value];
      p := Ptr(index, keys[index]);
    }

    /** pool_ptr::erase: frees the slot if the handle is still live; expired handles are left alone. */
    method Erase(p: Ptr)
      requires Valid() && !p.key.free
      modifies this
      ensures Valid() && Expired(p)
      ensures old(!Expired(p)) ==> (freeCount == old(freeCount) + 1 && nextFree == p.index && freeList == [p.index] + old(freeList)
        && keys == old(keys)[p.index := Key(p.key.nr, true)])
      ensures old(Expired(p)) ==> keys == old(keys) && freeCount == old(freeCount) && freeList == old(freeList) && nextFree == old(nextFree)
      ensures data == old(data) && totalAllocationCount == old(totalAllocationCount)
    {
      if !Expired(p) {
        FreeIndex(p.index, p.key);
      }
    }

    /** Writing through a handle (operator* as an lvalue): one slot's value changes and nothing else. */
    method SetData(index: nat, value: T)
      requires Valid() && index < |keys|
      modifies this
      ensures Valid() && data == old(data)[index := value]
      ensures keys == old(keys) && nextFreeVec == old(nextFreeVec) && nextFree == old(nextFree)
      ensures freeCount == old(freeCount) && totalAllocationCount == old(totalAllocationCount) && freeList == old(freeList)
    {
      data := data[index := value];
    }

    /** pool_ptr::push through an existing handle: a null handle when that one has expired. */
    method PushVia(p: Ptr, value: T) returns (q: Ptr)
      requires Valid() && totalAllocationCount < MaxAllocationNr
      modifies this
      ensures Valid()
      ensures old(Expired(p)) ==> (q == NullPtr && keys == old(keys) && data == old(data) && freeCount == old(freeCount)
        && totalAllocationCount == old(totalAllocationCount) && freeList == old(freeList) && nextFree == old(nextFree))
      ensures old(!Expired(p)) ==> !Expired(q) && !keys[q.index].free && GetData(q.index, q.key) == value
      ensures old(!Expired(p)) ==> q.key == Key(totalAllocationCount, false) && totalAllocationCount == old(totalAllocationCount) + 1
      ensures old(!Expired(p)) ==> (|keys| == Capacity(old(|keys|), old(freeCount))
        && q.index == (if old(freeCount) > 0 then old(nextFree) else old(|keys|))
        && (q.index < old(|keys|) ==> old(keys[q.index].free)))
      ensures old(!Expired(p)) ==> forall i :: 0 <= i < old(|keys|) && i != q.index ==> keys[i] == old(keys[i]) && data[i] == old(data[i])
      ensures old(!Expired(p)) ==> forall i :: old(|keys|) <= i < |keys| && i != q.index ==> keys[i].free
      ensures old(!Expired(p)) ==> (freeCount == old(freeCount) + (|keys| - old(|keys|)) - 1
        && freeList == (if old(freeCount) > 0 then old(freeList) else Range(old(|keys|), |keys|))[1..])
    {
      if Expired(p) {
        return NullPtr;
      }
      q := Push(value);
    }

    // ---- iteration ----

    /** The first slot at or after i that is in use, or -1. */
    ghost function NextLive(i: nat): (r: int)
      reads this
      ensures r == -1 || (i <= r < |keys| && !keys[r].free)
      decreases |keys| - i
    {
      if i >= |keys| then -1 else if !keys[i].free then i else NextLive(i + 1)
    }

    /** Every slot NextLive skips over is free. */
    lemma {:induction false} NextLiveSkipsFree(i: nat)
      ensures forall j :: i <= j < |keys| && (NextLive(i) == -1 || j < NextLive(i)) ==> keys[j].free
      decreases |keys| - i
    {
      if i < |keys| && keys[i].free {
        NextLiveSkipsFree(i + 1);
      }
    }

    /** iterator::find_next_data: moves a non-end index to the next slot in use, or to -1. */
    method FindNextData(index: int) returns (r: int)
      requires index >= -1
      ensures r == if index == -1 then -1 else NextLive(index)
    {
      r := index;
      if r != -1 {
        while r < |keys|
          invariant index <= r && (r <= |keys| || r == index)
          invariant NextLive(index) == NextLive(r)
          decreases |keys| - r
        {
          if !IsFree(r) {
            return;
          }
          r := r + 1;
        }
        r := -1;
      }
    }

    /**
     * Walking the pool from begin() to end(): the indices the iterator
     * stops at are exactly the slots in use, in increasing order.
     */
    method LiveIndices() returns (visited: seq<nat>)
      ensures forall a, b :: 0 <= a < b < |visited| ==> visited[a] < visited[b]
      ensures forall i :: i in visited <==> 0 <= i < |keys| && !keys[i].free
    {
      visited := [];
      var index := FindNextData(0);
      NextLiveSkipsFree(0);
      while index != -1
        invariant index == -1 || (0 <= index < |keys| && !keys[index].free)
        invariant LiveBefore(keys, visited, if index == -1 then |keys| else index)
        decreases if index == -1 then 0 else |keys| + 1 - index
      {
        NextLiveSkipsFree(index + 1);
        var next := FindNextData(index + 1);
        LiveStep(keys, visited, index, next);
        visited := visited + [index];
        index := next;
      }
    }
  }

  /** The first part of TEST_PoolAllocator: four pushes into an empty pool take indices 0 to 3. */
  method PushFour(pool: Pool<int>) returns (p1: Ptr, p2: Ptr, p3: Ptr, p4: Ptr, first: int)
    requires pool.Valid() && pool.keys == [] && pool.totalAllocationCount == 0
    modifies pool
    ensures pool.Valid() && pool.totalAllocationCount == 4 && pool.freeList == []
    ensures pool.keys == [Key(1, false), Key(2, false), Key(3, false), Key(4, false)]
    ensures p1 == Ptr(0, Key(1, false)) && p2 == Ptr(1, Key(2, false))
    ensures p3 == Ptr(2, Key(3, false)) && p4 == Ptr(3, Key(4, false))
    ensures first == 5
  {
    p1, p2, first := PushFirstTwo(pool);
    p3, p4 := PushNextTwo(pool);
  }

  /** The first two pushes into an empty pool grow it to two slots and fill both; the first value reads back. */
  method PushFirstTwo(pool: Pool<int>) returns (p1: Ptr, p2: Ptr, first: int)
    requires pool.Valid() && pool.keys == [] && pool.totalAllocationCount == 0
    modifies pool
    ensures pool.Valid() && pool.totalAllocationCount == 2 && pool.freeList == []
    ensures pool.keys == [Key(1, false), Key(2, false)]
    ensures p1 == Ptr(0, Key(1, false)) && p2 == Ptr(1, Key(2, false))
    ensures first == 5
  {
    p1 := pool.Push(5);
    assert pool.keys == [Key(1, false)] && pool.freeList == [];
    p2 := pool.Push(3);
    first := pool.GetData(p1.index, p1.key);
  }

  /** The next two pushes into a full pool of two grow it to four slots and fill the new ones in order. */
  method PushNextTwo(pool: Pool<int>) returns (p3: Ptr, p4: Ptr)
    requires pool.Valid() && pool.totalAllocationCount == 2 && pool.freeList == []
    requires pool.keys == [Key(1, false), Key(2, false)]
    modifies pool
    ensures pool.Valid() && pool.totalAllocationCount == 4 && pool.freeList == []
    ensures pool.keys == [Key(1, false), Key(2, false), Key(3, false), Key(4, false)]
    ensures p3 == Ptr(2, Key(3, false)) && p4 == Ptr(3, Key(4, false))
  {
    p3 := pool.Push(6);
    assert pool.freeList == [3] && pool.nextFree == 3;
    p4 := pool.Push(7);
  }

  /** The middle part, first half: erasing the first handle lets the next push reuse index 0. */
  method EraseAndReuse(pool: Pool<int>, p1: Ptr) returns (p5: Ptr)
    requires pool.Valid() && pool.totalAllocationCount == 4 && pool.freeList == []
    requires pool.keys == [Key(1, false), Key(2, false), Key(3, false), Key(4, false)]
    requires p1 == Ptr(0, Key(1, false))
    modifies pool
    ensures pool.Valid() && pool.totalAllocationCount == 5 && pool.freeList == []
    ensures pool.keys == [Key(5, false), Key(2, false), Key(3, false), Key(4, false)]
    ensures p5 == Ptr(0, Key(5, false))
  {
    pool.Erase(p1);
    assert pool.freeList == [0] && pool.freeCount == 1;
    p5 := pool.Push(6);
  }

  /** The middle part, second half: erasing every handle, one of them twice, frees all four slots. */
  method EraseRest(pool: Pool<int>, p1: Ptr, p2: Ptr, p3: Ptr, p4: Ptr, p5: Ptr)
    requires pool.Valid() && pool.totalAllocationCount == 5
    requires pool.keys == [Key(5, false), Key(2, false), Key(3, false), Key(4, false)]
    requires p1 == Ptr(0, Key(1, false)) && p2 == Ptr(1, Key(2, false))
    requires p3 == Ptr(2, Key(3, false)) && p4 == Ptr(3, Key(4, false)) && p5 == Ptr(0, Key(5, false))
    modifies pool
    ensures pool.Valid() && pool.totalAllocationCount == 5
    ensures pool.keys == [Key(5, true), Key(2, true), Key(3, true), Key(4, true)]
  {
    pool.Erase(p3);
    assert pool.keys == [Key(5, false), Key(2, false), Key(3, true), Key(4, false)];
    pool.Erase(p2);
    assert pool.keys == [Key(5, false), Key(2, true), Key(3, true), Key(4, false)];
    pool.Erase(p1);
    pool.Erase(p5);
    assert pool.keys == [Key(5, true), Key(2, true), Key(3, true), Key(4, false)];
    pool.Erase(p4);
  }

  /** The last part: four pushes into a pool of four free slots fill it again without growing it. */
  method RefillFour(pool: Pool<int>) returns (values: seq<int>)
    requires pool.Valid() && pool.totalAllocationCount == 5 && pool.freeCount == 4
    requires |pool.keys| == 4
    modifies pool
    ensures values == [1, 2, 3, 4] && pool.Size() == 4 && pool.freeCount == 0
  {
    var q1 := pool.Push(1);
    assert |pool.keys| == 4 && pool.freeCount == 3;
    var q2 := pool.Push(2);
    assert |pool.keys| == 4 && pool.freeCount == 2;
    assert q1.index != q2.index && pool.GetData(q1.index, q1.key) == 1;
    var q3 := pool.Push(3);
    assert |pool.keys| == 4 && pool.freeCount == 1;
    assert q1.index != q3.index && pool.GetData(q1.index, q1.key) == 1;
    assert q2.index != q3.index && pool.GetData(q2.index, q2.key) == 2;
    var q4 := pool.Push(4);
    assert q1.index != q4.index && q2.index != q4.index && q3.index != q4.index;
    values := [pool.GetData(q1.index, q1.key), pool.GetData(q2.index, q2.key),
               pool.GetData(q3.index, q3.key), pool.GetData(q4.index, q4.key)];
  }

  /**
   * TEST_PoolAllocator: four pushes fill indices 0..3, erasing the first
   * handle lets the next push reuse index 0, erasing everything leaves
   * four free slots, and four more pushes fill them again.
   */
  method PoolAllocatorScenario() returns (i1: int, i2: int, i5: int, first: int, sizeAfterErase: nat, freeAfterErase: int,
                                          expired3: bool, values: seq<int>, sizeAtEnd: nat, freeAtEnd: int)
    ensures i1 == 0 && i2 == 1 && i5 == 0 && first == 5
    ensures sizeAfterErase == 4 && freeAfterErase == 4 && expired3
    ensures values == [1, 2, 3, 4] && sizeAtEnd == 4 && freeAtEnd == 0
  {
    var pool := new Pool<int>(0);
    var p1, p2, p3, p4;
    p1, p2, p3, p4, first := PushFour(pool);
    var p5 := EraseAndReuse(pool, p1);
    EraseRest(pool, p1, p2, p3, p4, p5);
    i1, i2, i5 := p1.index, p2.index, p5.index;
    pool.CountsMatchFlags();
    assert FreeSlotsOf(pool.keys) == {0, 1, 2, 3};
    sizeAfterErase, freeAfterErase := pool.Size(), pool.freeCount;
    expired3 := pool.Expired(p3);
    values := RefillFour(pool);
    sizeAtEnd, freeAtEnd := pool.Size(), pool.freeCount;
  }
}
