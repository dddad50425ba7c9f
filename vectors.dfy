/**
 * Vector helpers: membership, summation, pairing values with their indices,
 * sorting (std::sort with a comparator, here an insertion sort proved
 * against "sorted permutation"), removal and concatenation.
 */
module Vectors {

  /** in_vector: linear scan for an equal element. */
  function InVector<T(==)>(val: T, vec: seq<T>): (r: bool)
    ensures r <==> exists i :: 0 <= i < |vec| && vec[i] == val
  {
    if |vec| == 0 then false
    else if vec[0] == val then true
    else
      var rest := InVector(val, vec[1..]);
      assert forall i :: 1 <= i < |vec| ==> vec[i] == vec[1..][i - 1];
      rest
  }

  /** Plain recursive sum, the reference for VecSum. */
  function Sum(vec: seq<int>): int
  {
    if |vec| == 0 then 0 else vec[0] + Sum(vec[1..])
  }

  /** vec_sum(vec, zero): accumulates from the left, starting at zero. */
  function VecSum(vec: seq<int>, zero: int): int
  {
    if |vec| == 0 then zero else VecSum(vec[..|vec| - 1], zero) + vec[|vec| - 1]
  }

  lemma {:induction false} SumAppend(a: seq<int>, b: seq<int>)
    ensures Sum(a + b) == Sum(a) + Sum(b)
  {
    if |a| > 0 {
      SumAppend(a[1..], b);
      assert (a + b)[1..] == a[1..] + b;
    } else {
      assert a + b == b;
    }
  }

  /** The left fold from zero is zero plus the sum of the elements. */
  lemma {:induction false} VecSumIsSum(vec: seq<int>, zero: int)
    ensures VecSum(vec, zero) == zero + Sum(vec)
  {
    if |vec| > 0 {
      var init := vec[..|vec| - 1];
      VecSumIsSum(init, zero);
      SumAppend(init, [vec[|vec| - 1]]);
      assert init + [vec[|vec| - 1]] == vec;
    }
  }

  /** vec_sum(vec) starts from 0. */
  function VecSumDefault(vec: seq<int>): (r: int)
    ensures r == Sum(vec)
  {
    VecSumIsSum(vec, 0);
    VecSum(vec, 0)
  }

  /** vec_to_pair_with_indecies: pushes (vec[i], i) for i = 0, 1, ... */
  function VecToPairWithIndices<T>(vec: seq<T>): (r: seq<(T, int)>)
    ensures |r| == |vec|
    ensures forall i :: 0 <= i < |vec| ==> r[i] == (vec[i], i)
  {
    if |vec| == 0 then []
    else VecToPairWithIndices(vec[..|vec| - 1]) + [(vec[|vec| - 1], |vec| - 1)]
  }

  /**
   * A comparator usable by std::sort: a strict weak order (irreflexive,
   * transitive, and with transitive incomparability).
   */
  ghost predicate StrictWeakOrder<T(!new)>(less: (T, T) -> bool)
  {
    (forall x :: !less(x, x)) &&
    (forall x, y, z :: less(x, y) && less(y, z) ==> less(x, z)) &&
    (forall x, y, z :: !less(x, y) && !less(y, z) ==> !less(x, z))
  }

  /** No later element is strictly less than an earlier one. */
  ghost predicate SortedBy<T>(s: seq<T>, less: (T, T) -> bool)
  {
    forall i, j :: 0 <= i < j < |s| ==> !less(s[j], s[i])
  }

  /**
   * std::sort with comparator `less`, as an insertion sort that swaps the
   * new element down until it is in place.
   */
  method SortBy<T(!new)>(a: array<T>, less: (T, T) -> bool)
    requires StrictWeakOrder(less)
    modifies a
    ensures SortedBy(a[..], less)
    ensures multiset(a[..]) == multiset(old(a[..]))
  {
    var n := 0;
    while n < a.Length
      invariant 0 <= n <= a.Length
      invariant SortedBy(a[..n], less)
      invariant multiset(a[..]) == multiset(old(a[..]))
    {
      InsertDown(a, n, less);
      n := n + 1;
    }
    assert a[..a.Length] == a[..];
  }

  /** One step of the insertion sort: a[n] is swapped down into the sorted a[..n]. */
  method InsertDown<T(!new)>(a: array<T>, n: nat, less: (T, T) -> bool)
    requires StrictWeakOrder(less)
    requires n < a.Length && SortedBy(a[..n], less)
    modifies a
    ensures SortedBy(a[..n + 1], less)
    ensures multiset(a[..]) == multiset(old(a[..]))
  {
    var k := n;
    while k > 0 && less(a[k], a[k - 1])
      invariant 0 <= k <= n
      invariant multiset(a[..]) == multiset(old(a[..]))
      invariant InsertionInvariant(a[..], k, n, less)
    {
      ghost var before := a[..];
      InsertionSwapStep(before, k, n, less);
      a[k], a[k - 1] := a[k - 1], a[k];
      assert a[..] == before[k - 1 := before[k]][k := before[k - 1]];
      k := k - 1;
    }
    InsertionDone(a[..], k, n, less);
  }

  /**
   * While a[n]'s value sits at k: every pair not involving k is in order,
   * and the value is strictly less than all values after it.
   */
  ghost predicate InsertionInvariant<T>(s: seq<T>, k: nat, n: nat, less: (T, T) -> bool)
    requires k <= n < |s|
  {
    (forall i, j :: 0 <= i < j <= n && j != k ==> !less(s[j], s[i])) &&
    (forall j :: k < j <= n ==> less(s[k], s[j]))
  }

  lemma InsertionSwapStep<T(!new)>(s: seq<T>, k: nat, n: nat, less: (T, T) -> bool)
    requires StrictWeakOrder(less)
    requires 0 < k <= n < |s| && InsertionInvariant(s, k, n, less) && less(s[k], s[k - 1])
    ensures InsertionInvariant(s[k - 1 := s[k]][k := s[k - 1]], k - 1, n, less)
    ensures multiset(s[k - 1 := s[k]][k := s[k - 1]]) == multiset(s)
  {
    var t := s[k - 1 := s[k]][k := s[k - 1]];
    forall i, j | 0 <= i < j <= n && j != k - 1
      ensures !less(t[j], t[i])
    {
      if i == k - 1 {
        assert less(t[i], t[j]);
      }
    }
    forall j | k - 1 < j <= n
      ensures less(t[k - 1], t[j])
    {
    }
    assert t == s[..k - 1] + [s[k], s[k - 1]] + s[k + 1..];
    assert s == s[..k - 1] + [s[k - 1], s[k]] + s[k + 1..];
  }

  lemma InsertionDone<T(!new)>(s: seq<T>, k: nat, n: nat, less: (T, T) -> bool)
    requires StrictWeakOrder(less)
    requires k <= n < |s| && InsertionInvariant(s, k, n, less)
    requires k == 0 || !less(s[k], s[k - 1])
    ensures SortedBy(s[..n + 1], less)
  {
    forall i, j | 0 <= i < j <= n
      ensures !less(s[j], s[i])
    {
      if j == k {
        assert !less(s[k], s[k - 1]);
        if i < k - 1 {
          assert !less(s[k - 1], s[i]);
        }
      } else if i == k {
        assert less(s[i], s[j]);
      }
    }
  }

  /** vec_sort_ascend: sorted by <, so every element is <= the later ones. */
  method VecSortAscend(a: array<int>)
    modifies a
    ensures forall i, j :: 0 <= i < j < a.Length ==> a[i] <= a[j]
    ensures multiset(a[..]) == multiset(old(a[..]))
  {
    SortBy(a, (x: int, y: int) => x < y);
  }

  /** vec_sort_descend: sorted by >, so every element is >= the later ones. */
  method VecSortDescend(a: array<int>)
    modifies a
    ensures forall i, j :: 0 <= i < j < a.Length ==> a[i] >= a[j]
    ensures multiset(a[..]) == multiset(old(a[..]))
  {
    SortBy(a, (x: int, y: int) => x > y);
  }

  /**
   * Two sorted permutations of the same elements are equal when the
   * elements present are pairwise comparable.
   */
  lemma {:induction false} SortedPermutationUnique<T(!new)>(s: seq<T>, t: seq<T>, less: (T, T) -> bool)
    requires StrictWeakOrder(less)
    requires SortedBy(s, less) && SortedBy(t, less)
    requires multiset(s) == multiset(t)
    requires forall x, y :: x in s && y in s ==> x == y || less(x, y) || less(y, x)
    ensures s == t
  {
    assert |s| == |multiset(s)| == |t|;
    if |s| > 0 {
      SortedHeadsEqual(s, t, less);
      TailMultiset(s, t);
      forall x, y | x in s[1..] && y in s[1..]
        ensures x == y || less(x, y) || less(y, x)
      {
        assert x in s && y in s;
      }
      SortedPermutationUnique(s[1..], t[1..], less);
      assert s == [s[0]] + s[1..] && t == [t[0]] + t[1..];
    }
  }

  lemma SortedHeadsEqual<T(!new)>(s: seq<T>, t: seq<T>, less: (T, T) -> bool)
    requires StrictWeakOrder(less)
    requires SortedBy(s, less) && SortedBy(t, less)
    requires multiset(s) == multiset(t) && |s| > 0
    requires forall x, y :: x in s && y in s ==> x == y || less(x, y) || less(y, x)
    ensures s[0] == t[0]
  {
    assert s[0] in multiset(t) && t[0] in multiset(s);
  }

  lemma TailMultiset<T>(s: seq<T>, t: seq<T>)
    requires |s| > 0 && |t| > 0 && s[0] == t[0] && multiset(s) == multiset(t)
    ensures multiset(s[1..]) == multiset(t[1..])
  {
    assert s == [s[0]] + s[1..] && t == [t[0]] + t[1..];
    assert multiset(s[1..]) == multiset(s) - multiset{s[0]};
    assert multiset(t[1..]) == multiset(t) - multiset{t[0]};
  }

  /** The test of vec_sort_descend: {2, 1, 3} becomes {3, 2, 1}. */
  method VecSortDescendExample() returns (r: seq<int>)
    ensures r == [3, 2, 1]
  {
    var a := new int[3] [2, 1, 3];
    ghost var before := a[..];
    assert before == [2, 1, 3];
    VecSortDescend(a);
    r := a[..];
    assert multiset(r) == multiset(before);
    assert multiset(before) == multiset([3, 2, 1]);
    DescendingUnique(r, [3, 2, 1]);
  }

  /** Integers have only one descending order: two descending permutations of each other are equal. */
  lemma DescendingUnique(s: seq<int>, t: seq<int>)
    requires forall i, j :: 0 <= i < j < |s| ==> s[i] >= s[j]
    requires forall i, j :: 0 <= i < j < |t| ==> t[i] >= t[j]
    requires multiset(s) == multiset(t)
    ensures s == t
  {
    var greater := (x: int, y: int) => x > y;
    assert SortedBy(s, greater) && SortedBy(t, greater);
    SortedPermutationUnique(s, t, greater);
  }

  /**
   * vec_sort_ascend_and_get_indecies: the (value, index) pairs, compared on
   * the value only.
   */
  method VecSortAscendAndGetIndices(vec: seq<int>) returns (r: seq<(int, int)>)
    ensures multiset(r) == multiset(VecToPairWithIndices(vec))
    ensures forall i, j :: 0 <= i < j < |r| ==> r[i].0 <= r[j].0
  {
    var a := new (int, int)[|vec|];
    var pairs := VecToPairWithIndices(vec);
    forall i | 0 <= i < |vec| {
      a[i] := pairs[i];
    }
    assert a[..] == pairs;
    SortBy(a, (p: (int, int), q: (int, int)) => p.0 < q.0);
    r := a[..];
  }

  /** vec_sort_descend_and_get_indecies: the pairs sorted by value, largest first. */
  method VecSortDescendAndGetIndices(vec: seq<int>) returns (r: seq<(int, int)>)
    ensures multiset(r) == multiset(VecToPairWithIndices(vec))
    ensures forall i, j :: 0 <= i < j < |r| ==> r[i].0 >= r[j].0
  {
    var a := new (int, int)[|vec|];
    var pairs := VecToPairWithIndices(vec);
    forall i | 0 <= i < |vec| {
      a[i] := pairs[i];
    }
    assert a[..] == pairs;
    SortBy(a, (p: (int, int), q: (int, int)) => p.0 > q.0);
    r := a[..];
  }

  /** The test: {2, 1, 3} gives {(3, 2), (2, 0), (1, 1)}. */
  method VecSortDescendAndGetIndicesExample() returns (r: seq<(int, int)>)
    ensures r == [(3, 2), (2, 0), (1, 1)]
  {
    r := VecSortDescendAndGetIndices([2, 1, 3]);
    assert VecToPairWithIndices([2, 1, 3]) == [(2, 0), (1, 1), (3, 2)];
    ExampleOrderByValue(r);
  }

  /** Any order of (2, 0), (1, 1), (3, 2) by value, largest first, is (3, 2), (2, 0), (1, 1). */
  lemma ExampleOrderByValue(r: seq<(int, int)>)
    requires multiset(r) == multiset([(2, 0), (1, 1), (3, 2)])
    requires forall i, j :: 0 <= i < j < |r| ==> r[i].0 >= r[j].0
    ensures r == [(3, 2), (2, 0), (1, 1)]
  {
    var t := [(3, 2), (2, 0), (1, 1)];
    assert multiset([(2, 0), (1, 1), (3, 2)]) == multiset(t);
    assert |t| == 3 && t[0].0 == 3 && t[1].0 == 2 && t[2].0 == 1;
    PairsDescendingUnique(r, t);
  }

  /**
   * When one order of some pairs has strictly decreasing values, it is the
   * only order of those pairs by value, largest first.
   */
  lemma PairsDescendingUnique(s: seq<(int, int)>, t: seq<(int, int)>)
    requires forall i, j :: 0 <= i < j < |s| ==> s[i].0 >= s[j].0
    requires forall i, j :: 0 <= i < j < |t| ==> t[i].0 > t[j].0
    requires multiset(s) == multiset(t)
    ensures s == t
  {
    var greater := (p: (int, int), q: (int, int)) => p.0 > q.0;
    forall x, y | x in s && y in s
      ensures x == y || greater(x, y) || greater(y, x)
    {
      assert x in multiset(t) && y in multiset(t);
      var i :| 0 <= i < |t| && t[i] == x;
      var j :| 0 <= j < |t| && t[j] == y;
      assert i < j || i == j || j < i;
    }
    assert SortedBy(s, greater) && SortedBy(t, greater);
    SortedPermutationUnique(s, t, greater);
  }

  /** vec_remove(vec, pos): erases the element at pos. */
  function VecRemove<T>(vec: seq<T>, pos: nat): (r: seq<T>)
    requires pos < |vec|
    ensures |r| == |vec| - 1
    ensures forall i :: 0 <= i < pos ==> r[i] == vec[i]
    ensures forall i :: pos <= i < |r| ==> r[i] == vec[i + 1]
  {
    vec[..pos] + vec[pos + 1..]
  }

  /** Putting the removed element back at pos restores the vector. */
  lemma VecRemoveInverse<T>(vec: seq<T>, pos: nat)
    requires pos < |vec|
    ensures VecRemove(vec, pos)[..pos] + [vec[pos]] + VecRemove(vec, pos)[pos..] == vec
  {
    var r := VecRemove(vec, pos);
    assert r[..pos] == vec[..pos];
    assert r[pos..] == vec[pos + 1..];
    assert vec == vec[..pos] + [vec[pos]] + vec[pos + 1..];
  }

  /** Removal takes exactly one occurrence of vec[pos] out of the multiset. */
  lemma VecRemoveMultiset<T>(vec: seq<T>, pos: nat)
    requires pos < |vec|
    ensures multiset(VecRemove(vec, pos)) == multiset(vec) - multiset{vec[pos]}
  {
    assert vec == vec[..pos] + [vec[pos]] + vec[pos + 1..];
  }

  /** vec_extend(vec, add): appends add at the end of vec. */
  function VecExtend<T>(vec: seq<T>, add: seq<T>): (r: seq<T>)
    ensures |r| == |vec| + |add|
    ensures r[..|vec|] == vec && r[|vec|..] == add
  {
    vec + add
  }

  /** Summing an extended vector continues the left fold over the added part. */
  lemma VecSumExtend(vec: seq<int>, add: seq<int>, zero: int)
    ensures VecSum(VecExtend(vec, add), zero) == VecSum(add, VecSum(vec, zero))
  {
    VecSumIsSum(vec + add, zero);
    VecSumIsSum(vec, zero);
    VecSumIsSum(add, VecSum(vec, zero));
    SumAppend(vec, add);
  }
}
