/**
 * The two size rules of the window layout (namespace __layout__ of
 * L9_user_interface.h): sharing a parent's extent among its children by
 * weight, within their minimum and maximum sizes (_get_element_sizes), and
 * hiding the lowest-priority children when their minimum sizes do not fit
 * (_hide_elements_if_all_doesnt_fit). Weights are doubles in the source and
 * exact reals here.
 */
module LayoutSizes {
  import opened Vectors

  // ---- arithmetic of the weighted share ----

  /** The C++ conversion of a double to int: truncation toward zero. */
  function Trunc(x: real): (r: int)
    ensures x >= 0.0 ==> 0 <= r && r as real <= x < r as real + 1.0
    ensures x < 0.0 ==> r <= 0 && r as real - 1.0 < x <= r as real
  {
    if x >= 0.0 then x.Floor else -((-x).Floor)
  }

  /**
   * `current_total_size * weight[i] / current_total_weight` stored in an int.
   * A zero total weight gives 0; the source divides by it.
   */
  function Share(size: int, w: real, totalWeight: real): int
  {
    if totalWeight == 0.0 then 0 else Trunc(size as real * w / totalWeight)
  }

  /** A share of a non-negative extent by a non-negative weight is at most the exact share. */
  lemma ShareBound(size: int, w: real, totalWeight: real)
    requires size >= 0 && w >= 0.0 && totalWeight > 0.0
    ensures 0 <= Share(size, w, totalWeight)
    ensures WithinExact(Share(size, w, totalWeight), w, size, totalWeight)
  {
    var x := size as real * w / totalWeight;
    assert x >= 0.0;
    assert x * totalWeight == size as real * w;
  }

  /** vec_sum over the weights. */
  function RealSum(s: seq<real>): real
  {
    if |s| == 0 then 0.0 else s[0] + RealSum(s[1..])
  }

  // ---- the state of _get_element_sizes ----

  /**
   * The result vector, -1 where no size is fixed yet, with the extent and
   * weight not yet handed out.
   */
  datatype Split = Split(ret: seq<int>, size: int, weight: real)

  /** The variables of one pass over the children: return_vec, size_left, weight_left, stop. */
  datatype PassState = PassState(ret: seq<int>, sizeLeft: int, weightLeft: real, stop: bool)

  /** In the minimum phase a share below the bound breaks it; in the maximum phase one above it. */
  predicate Breaks(share: int, bound: int, minPhase: bool)
  {
    if minPhase then share < bound else share > bound
  }

  /**
   * What the loops need to end: weights are not negative and, in the maximum
   * phase, neither are the bounds (_update replaces a negative maximum by the
   * parent's extent before calling).
   */
  predicate Admissible(bound: seq<int>, weight: seq<real>, minPhase: bool)
  {
    (forall i :: 0 <= i < |weight| ==> weight[i] >= 0.0) &&
    (!minPhase ==> forall i :: 0 <= i < |bound| ==> bound[i] >= 0)
  }

  /** Number of children whose size is not fixed yet. */
  function Open(ret: seq<int>): nat
  {
    if |ret| == 0 then 0 else (if ret[0] == -1 then 1 else 0) + Open(ret[1..])
  }

  /**
   * The share of every child in one pass. A pass computes each share from
   * current_total_size and current_total_weight, which change only after
   * the pass.
   */
  function Shares(cur: int, weight: seq<real>, curW: real): (r: seq<int>)
    ensures |r| == |weight|
  {
    seq(|weight|, i requires 0 <= i < |weight| => Share(cur, weight[i], curW))
  }

  /** Shares of a positive extent are not negative and at most the exact shares. */
  predicate WithinShares(shares: seq<int>, cur: int, curW: real, weight: seq<real>)
    requires |shares| == |weight|
  {
    forall i :: 0 <= i < |shares| ==> 0 <= shares[i] && WithinExact(shares[i], weight[i], cur, curW)
  }

  lemma SharesWithin(cur: int, weight: seq<real>, curW: real)
    requires cur > 0 && curW > 0.0 && forall i :: 0 <= i < |weight| ==> weight[i] >= 0.0
    ensures WithinShares(Shares(cur, weight, curW), cur, curW, weight)
  {
    forall i | 0 <= i < |weight| {
      ShareBound(cur, weight[i], curW);
    }
  }

  /**
   * The for-loop of one phase, from child i on: a child not fixed yet whose
   * share breaks its bound gets the bound, and its size and weight leave
   * the pool.
   */
  function Pass(bound: seq<int>, weight: seq<real>, minPhase: bool, shares: seq<int>, st: PassState, i: nat): (r: PassState)
    requires |bound| == |weight| == |shares| == |st.ret| && i <= |st.ret|
    ensures |r.ret| == |st.ret|
    decreases |st.ret| - i
  {
    if i == |st.ret| then st
    else if st.ret[i] != -1 then Pass(bound, weight, minPhase, shares, st, i + 1)
    else if Breaks(shares[i], bound[i], minPhase) then
      var next := PassState(st.ret[i := bound[i]], st.sizeLeft - bound[i], st.weightLeft - weight[i], false);
      Pass(bound, weight, minPhase, shares, next, i + 1)
    else Pass(bound, weight, minPhase, shares, st, i + 1)
  }

  /** A pass that fixes some child fixes it to a value other than -1, so fewer stay open. */
  lemma {:induction false} PassProgress(bound: seq<int>, weight: seq<real>, minPhase: bool, shares: seq<int>, st: PassState, i: nat)
    requires |bound| == |weight| == |shares| == |st.ret| && i <= |st.ret|
    requires Admissible(bound, weight, minPhase) && forall j :: 0 <= j < |shares| ==> shares[j] >= 0
    ensures Open(Pass(bound, weight, minPhase, shares, st, i).ret) <= Open(st.ret)
    ensures var r := Pass(bound, weight, minPhase, shares, st, i);
      r.stop || !st.stop || Open(r.ret) < Open(st.ret)
    decreases |st.ret| - i
  {
    var r := Pass(bound, weight, minPhase, shares, st, i);
    if i < |st.ret| {
      if st.ret[i] != -1 {
        assert r == Pass(bound, weight, minPhase, shares, st, i + 1);
        PassProgress(bound, weight, minPhase, shares, st, i + 1);
      } else if Breaks(shares[i], bound[i], minPhase) {
        BrokenBoundIsSize(bound, weight, minPhase, shares, i);
        var next := PassState(st.ret[i := bound[i]], st.sizeLeft - bound[i], st.weightLeft - weight[i], false);
        assert r == Pass(bound, weight, minPhase, shares, next, i + 1);
        FixLowersOpen(st.ret, i, bound[i]);
        PassProgress(bound, weight, minPhase, shares, next, i + 1);
      } else {
        assert r == Pass(bound, weight, minPhase, shares, st, i + 1);
        PassProgress(bound, weight, minPhase, shares, st, i + 1);
      }
    } else {
      assert r == st;
    }
  }

  /** A bound that a share breaks is a size, never the marker -1. */
  lemma BrokenBoundIsSize(bound: seq<int>, weight: seq<real>, minPhase: bool, shares: seq<int>, i: nat)
    requires |bound| == |weight| == |shares| && i < |bound|
    requires Admissible(bound, weight, minPhase) && shares[i] >= 0
    requires Breaks(shares[i], bound[i], minPhase)
    ensures bound[i] != -1
  {
  }

  /** Fixing an open child leaves one fewer open. */
  lemma {:induction false} FixLowersOpen(ret: seq<int>, i: nat, v: int)
    requires i < |ret| && ret[i] == -1 && v != -1
    ensures Open(ret[i := v]) == Open(ret) - 1
  {
    if i > 0 {
      FixLowersOpen(ret[1..], i - 1, v);
      assert ret[i := v][1..] == ret[1..][i - 1 := v];
    }
  }

  /**
   * One while-loop of _get_element_sizes: passes repeat until a pass fixes
   * nothing or the extent or weight left runs out.
   */
  function Phase(bound: seq<int>, weight: seq<real>, minPhase: bool, s: Split, stop: bool): (r: Split)
    requires |bound| == |weight| == |s.ret|
    requires Admissible(bound, weight, minPhase)
    ensures |r.ret| == |s.ret|
    decreases Open(s.ret), !stop
  {
    if stop || s.size <= 0 || s.weight <= 0.0 then s
    else
      var st := PassState(s.ret, s.size, s.weight, true);
      var shares := Shares(s.size, weight, s.weight);
      SharesWithin(s.size, weight, s.weight);
      var p := Pass(bound, weight, minPhase, shares, st, 0);
      PassProgress(bound, weight, minPhase, shares, st, 0);
      Phase(bound, weight, minPhase, Split(p.ret, p.sizeLeft, p.weightLeft), p.stop)
  }

  /** The last for-loop: every child still open gets its share of what is left. */
  function Assigned(s: Split, weight: seq<real>): (r: seq<int>)
    requires |s.ret| == |weight|
    ensures |r| == |s.ret|
  {
    seq(|s.ret|, i requires 0 <= i < |s.ret| => if s.ret[i] != -1 then s.ret[i] else Share(s.size, weight[i], s.weight))
  }

  /** The two phases: first the minimums, then the maximums. */
  function AfterPhases(sizeMin: seq<int>, sizeMax: seq<int>, weight: seq<real>, totalSize: int): (r: Split)
    requires |sizeMin| == |sizeMax| == |weight|
    requires Admissible(sizeMax, weight, false)
    ensures |r.ret| == |weight|
  {
    var start := Split(seq(|weight|, _ => -1), totalSize, RealSum(weight));
    var afterMin := Phase(sizeMin, weight, true, start, false);
    Phase(sizeMax, weight, false, afterMin, false)
  }

  /** _get_element_sizes: one size per child. */
  function ElementSizesOf(sizeMin: seq<int>, sizeMax: seq<int>, weight: seq<real>, totalSize: int): (r: seq<int>)
    requires |sizeMin| == |sizeMax| == |weight|
    requires Admissible(sizeMax, weight, false)
    ensures |r| == |weight|
  {
    Assigned(AfterPhases(sizeMin, sizeMax, weight, totalSize), weight)
  }

  /**
   * _get_element_sizes as the source runs it: two while-loops of passes,
   * then the final assignment, all over the local vector return_vec.
   */
  method GetElementSizes(sizeMin: seq<int>, sizeMax: seq<int>, weight: seq<real>, totalSize: int) returns (sizes: seq<int>)
    requires |sizeMin| == |sizeMax| == |weight|
    requires Admissible(sizeMax, weight, false)
    requires totalSize >= Sum(sizeMin)
    ensures sizes == ElementSizesOf(sizeMin, sizeMax, weight, totalSize)
  {
    var n := |weight|;
    var ret: seq<int> := seq(n, _ => -1);
    var cur := totalSize;
    var curW := RealSum(weight);
    var start := Split(ret, cur, curW);
    var afterMin := MinMaxPhase(sizeMin, weight, true, start);
    var afterMax := MinMaxPhase(sizeMax, weight, false, afterMin);
    ret, cur, curW := afterMax.ret, afterMax.size, afterMax.weight;
    for i := 0 to n
      invariant |ret| == n
      invariant forall j :: 0 <= j < n ==> ret[j] == (if j < i then Assigned(afterMax, weight)[j] else afterMax.ret[j])
    {
      if ret[i] != -1 {
        continue;
      }
      var size := Share(cur, weight[i], curW);
      ret := ret[i := size];
    }
    sizes := ret;
  }

  /** One while-loop of passes, the minimum phase or the maximum phase. */
  method MinMaxPhase(bound: seq<int>, weight: seq<real>, minPhase: bool, s: Split) returns (r: Split)
    requires |bound| == |weight| == |s.ret|
    requires Admissible(bound, weight, minPhase)
    ensures r == Phase(bound, weight, minPhase, s, false)
  {
    var n := |weight|;
    var ret, cur, curW := s.ret, s.size, s.weight;
    var stop := false;
    while !stop && cur > 0 && curW > 0.0
      invariant |ret| == n
      invariant Phase(bound, weight, minPhase, Split(ret, cur, curW), stop) == Phase(bound, weight, minPhase, s, false)
      decreases Open(ret), !stop
    {
      ghost var st := PassState(ret, cur, curW, true);
      ghost var shares := Shares(cur, weight, curW);
      SharesWithin(cur, weight, curW);
      stop := true;
      var sizeLeft, weightLeft := cur, curW;
      for i := 0 to n
        invariant |ret| == n
        invariant Pass(bound, weight, minPhase, shares, PassState(ret, sizeLeft, weightLeft, stop), i)
               == Pass(bound, weight, minPhase, shares, st, 0)
      {
        if ret[i] != -1 {
          continue;
        }
        var size := Share(cur, weight[i], curW);
        assert size == shares[i];
        if Breaks(size, bound[i], minPhase) {
          ret := ret[i := bound[i]];
          sizeLeft := sizeLeft - bound[i];
          weightLeft := weightLeft - weight[i];
          stop := false;
        }
      }
      PassProgress(bound, weight, minPhase, shares, st, 0);
      cur, curW := sizeLeft, weightLeft;
    }
    r := Split(ret, cur, curW);
  }

  // ---- what the sizes satisfy ----

  /** Every entry is still open (-1) or one of the two bounds. */
  predicate FromBounds(ret: seq<int>, a: seq<int>, b: seq<int>)
    requires |ret| == |a| == |b|
  {
    forall i :: 0 <= i < |ret| ==> ret[i] == -1 || ret[i] == a[i] || ret[i] == b[i]
  }

  lemma {:induction false} PassFromBounds(bound: seq<int>, weight: seq<real>, minPhase: bool, shares: seq<int>, st: PassState, i: nat, a: seq<int>, b: seq<int>)
    requires |bound| == |weight| == |shares| == |st.ret| == |a| == |b| && i <= |st.ret|
    requires bound == a || bound == b
    requires FromBounds(st.ret, a, b)
    ensures FromBounds(Pass(bound, weight, minPhase, shares, st, i).ret, a, b)
    decreases |st.ret| - i
  {
    if i < |st.ret| {
      if st.ret[i] == -1 && Breaks(shares[i], bound[i], minPhase) {
        var next := PassState(st.ret[i := bound[i]], st.sizeLeft - bound[i], st.weightLeft - weight[i], false);
        PassFromBounds(bound, weight, minPhase, shares, next, i + 1, a, b);
      } else {
        PassFromBounds(bound, weight, minPhase, shares, st, i + 1, a, b);
      }
    }
  }

  lemma {:induction false} PhaseFromBounds(bound: seq<int>, weight: seq<real>, minPhase: bool, s: Split, stop: bool, a: seq<int>, b: seq<int>)
    requires |bound| == |weight| == |s.ret| == |a| == |b|
    requires Admissible(bound, weight, minPhase)
    requires bound == a || bound == b
    requires FromBounds(s.ret, a, b)
    ensures FromBounds(Phase(bound, weight, minPhase, s, stop).ret, a, b)
    decreases Open(s.ret), !stop
  {
    if !(stop || s.size <= 0 || s.weight <= 0.0) {
      var st := PassState(s.ret, s.size, s.weight, true);
      var shares := Shares(s.size, weight, s.weight);
      SharesWithin(s.size, weight, s.weight);
      var p := Pass(bound, weight, minPhase, shares, st, 0);
      PassProgress(bound, weight, minPhase, shares, st, 0);
      PassFromBounds(bound, weight, minPhase, shares, st, 0, a, b);
      PhaseFromBounds(bound, weight, minPhase, Split(p.ret, p.sizeLeft, p.weightLeft), p.stop, a, b);
    }
  }

  /**
   * Each child gets its minimum, its maximum, or its truncated share of the
   * extent and weight left after both phases.
   */
  lemma ElementSizesClassified(sizeMin: seq<int>, sizeMax: seq<int>, weight: seq<real>, totalSize: int)
    requires |sizeMin| == |sizeMax| == |weight|
    requires Admissible(sizeMax, weight, false)
    ensures var f := AfterPhases(sizeMin, sizeMax, weight, totalSize);
      var r := ElementSizesOf(sizeMin, sizeMax, weight, totalSize);
      forall i :: 0 <= i < |r| ==> r[i] == sizeMin[i] || r[i] == sizeMax[i] || r[i] == Share(f.size, weight[i], f.weight)
  {
    var start := Split(seq(|weight|, _ => -1), totalSize, RealSum(weight));
    var afterMin := Phase(sizeMin, weight, true, start, false);
    PhaseFromBounds(sizeMin, weight, true, start, false, sizeMin, sizeMax);
    PhaseFromBounds(sizeMax, weight, false, afterMin, false, sizeMin, sizeMax);
  }

  /** Sum of the fixed entries. */
  function FixedSum(ret: seq<int>): int
  {
    if |ret| == 0 then 0 else (if ret[0] != -1 then ret[0] else 0) + FixedSum(ret[1..])
  }

  /** Sum of the bounds of the open entries. */
  function OpenSum(ret: seq<int>, bound: seq<int>): int
    requires |ret| == |bound|
  {
    if |ret| == 0 then 0 else (if ret[0] == -1 then bound[0] else 0) + OpenSum(ret[1..], bound[1..])
  }

  /** Weight of the open entries. */
  function OpenWeight(ret: seq<int>, weight: seq<real>): real
    requires |ret| == |weight|
  {
    if |ret| == 0 then 0.0 else (if ret[0] == -1 then weight[0] else 0.0) + OpenWeight(ret[1..], weight[1..])
  }

  /** Sum of the shares the open entries get in the final loop. */
  function OpenShares(ret: seq<int>, weight: seq<real>, size: int, totalWeight: real): int
    requires |ret| == |weight|
  {
    if |ret| == 0 then 0
    else (if ret[0] == -1 then Share(size, weight[0], totalWeight) else 0) + OpenShares(ret[1..], weight[1..], size, totalWeight)
  }

  lemma {:induction false} FixUpdates(ret: seq<int>, bound: seq<int>, weight: seq<real>, i: nat, v: int)
    requires |ret| == |bound| == |weight| && i < |ret| && ret[i] == -1 && v != -1
    ensures FixedSum(ret[i := v]) == FixedSum(ret) + v
    ensures OpenSum(ret[i := v], bound) == OpenSum(ret, bound) - bound[i]
    ensures OpenWeight(ret[i := v], weight) == OpenWeight(ret, weight) - weight[i]
  {
    if i > 0 {
      FixUpdates(ret[1..], bound[1..], weight[1..], i - 1, v);
      assert ret[i := v][1..] == ret[1..][i - 1 := v];
    }
  }

  lemma {:induction false} OpenWeightNonNegative(ret: seq<int>, weight: seq<real>)
    requires |ret| == |weight| && forall i :: 0 <= i < |weight| ==> weight[i] >= 0.0
    ensures OpenWeight(ret, weight) >= 0.0
  {
    if |ret| > 0 {
      OpenWeightNonNegative(ret[1..], weight[1..]);
    }
  }

  /** The extent and weight in the pool are what the fixed entries have not taken. */
  predicate Conserves(ret: seq<int>, size: int, w: real, weight: seq<real>, totalSize: int)
    requires |ret| == |weight|
  {
    size + FixedSum(ret) == totalSize && w == OpenWeight(ret, weight)
  }

  lemma {:induction false} PassConserves(bound: seq<int>, weight: seq<real>, minPhase: bool, shares: seq<int>, st: PassState, i: nat, totalSize: int)
    requires |bound| == |weight| == |shares| == |st.ret| && i <= |st.ret|
    requires Admissible(bound, weight, minPhase) && forall j :: 0 <= j < |shares| ==> shares[j] >= 0
    requires Conserves(st.ret, st.sizeLeft, st.weightLeft, weight, totalSize)
    ensures var r := Pass(bound, weight, minPhase, shares, st, i);
      Conserves(r.ret, r.sizeLeft, r.weightLeft, weight, totalSize)
    ensures var r := Pass(bound, weight, minPhase, shares, st, i);
      r.sizeLeft - OpenSum(r.ret, bound) == st.sizeLeft - OpenSum(st.ret, bound)
    decreases |st.ret| - i
  {
    if i < |st.ret| {
      if st.ret[i] == -1 && Breaks(shares[i], bound[i], minPhase) {
        BrokenBoundIsSize(bound, weight, minPhase, shares, i);
        FixUpdates(st.ret, bound, weight, i, bound[i]);
        var next := PassState(st.ret[i := bound[i]], st.sizeLeft - bound[i], st.weightLeft - weight[i], false);
        PassConserves(bound, weight, minPhase, shares, next, i + 1, totalSize);
      } else {
        PassConserves(bound, weight, minPhase, shares, st, i + 1, totalSize);
      }
    }
  }

  /**
   * In the maximum phase a pass hands out no more than the exact shares of
   * the children it fixes: size_left stays at least cur * weight_left / curW.
   */
  lemma {:induction false} PassKeepsRoom(bound: seq<int>, weight: seq<real>, cur: int, curW: real, shares: seq<int>, st: PassState, i: nat)
    requires |bound| == |weight| == |shares| == |st.ret| && i <= |st.ret|
    requires Admissible(bound, weight, false) && curW > 0.0 && WithinShares(shares, cur, curW, weight)
    requires HasRoom(st.sizeLeft, cur, st.weightLeft, curW)
    ensures var r := Pass(bound, weight, false, shares, st, i);
      HasRoom(r.sizeLeft, cur, r.weightLeft, curW)
    decreases |st.ret| - i
  {
    if i < |st.ret| {
      if st.ret[i] == -1 && Breaks(shares[i], bound[i], false) {
        RoomStep(st.sizeLeft, bound[i], shares[i], cur, st.weightLeft, weight[i], curW);
        var next := PassState(st.ret[i := bound[i]], st.sizeLeft - bound[i], st.weightLeft - weight[i], false);
        PassKeepsRoom(bound, weight, cur, curW, shares, next, i + 1);
      } else {
        PassKeepsRoom(bound, weight, cur, curW, shares, st, i + 1);
      }
    }
  }

  /** sizeLeft covers the exact share of cur by weightLeft out of curW. */
  predicate HasRoom(sizeLeft: int, cur: int, weightLeft: real, curW: real)
  {
    sizeLeft as real * curW >= cur as real * weightLeft
  }

  /** Taking a bound below the exact share out of the pool keeps the room the pool had. */
  lemma RoomStep(sizeLeft: int, b: int, s: int, cur: int, weightLeft: real, w: real, curW: real)
    requires curW > 0.0 && b < s
    requires HasRoom(sizeLeft, cur, weightLeft, curW)
    requires WithinExact(s, w, cur, curW)
    ensures HasRoom(sizeLeft - b, cur, weightLeft - w, curW)
  {
    assert b as real * curW <= s as real * curW;
    assert (sizeLeft - b) as real * curW == sizeLeft as real * curW - b as real * curW;
    assert cur as real * (weightLeft - w) == cur as real * weightLeft - cur as real * w;
  }

  /** Room for a non-negative weight is a non-negative extent. */
  lemma RoomLeft(sizeLeft: int, cur: int, weightLeft: real, curW: real)
    requires curW > 0.0 && cur >= 0 && weightLeft >= 0.0
    requires HasRoom(sizeLeft, cur, weightLeft, curW)
    ensures sizeLeft >= 0
  {
    assert cur as real * weightLeft >= 0.0;
  }

  /** The minimum phase keeps the pool in balance and its open minimums within the extent left. */
  lemma {:induction false} MinPhaseFacts(bound: seq<int>, weight: seq<real>, s: Split, stop: bool, totalSize: int)
    requires |bound| == |weight| == |s.ret|
    requires Admissible(bound, weight, true)
    requires Conserves(s.ret, s.size, s.weight, weight, totalSize)
    requires s.size >= OpenSum(s.ret, bound)
    ensures var r := Phase(bound, weight, true, s, stop);
      Conserves(r.ret, r.size, r.weight, weight, totalSize) && r.size >= OpenSum(r.ret, bound)
    decreases Open(s.ret), !stop
  {
    if !(stop || s.size <= 0 || s.weight <= 0.0) {
      var st := PassState(s.ret, s.size, s.weight, true);
      var shares := Shares(s.size, weight, s.weight);
      SharesWithin(s.size, weight, s.weight);
      var p := Pass(bound, weight, true, shares, st, 0);
      PassProgress(bound, weight, true, shares, st, 0);
      PassConserves(bound, weight, true, shares, st, 0, totalSize);
      MinPhaseFacts(bound, weight, Split(p.ret, p.sizeLeft, p.weightLeft), p.stop, totalSize);
    }
  }

  /** The maximum phase keeps the pool in balance and the extent left non-negative. */
  lemma {:induction false} MaxPhaseFacts(bound: seq<int>, weight: seq<real>, s: Split, stop: bool, totalSize: int)
    requires |bound| == |weight| == |s.ret|
    requires Admissible(bound, weight, false)
    requires Conserves(s.ret, s.size, s.weight, weight, totalSize) && s.size >= 0
    ensures var r := Phase(bound, weight, false, s, stop);
      Conserves(r.ret, r.size, r.weight, weight, totalSize) && r.size >= 0
    decreases Open(s.ret), !stop
  {
    if !(stop || s.size <= 0 || s.weight <= 0.0) {
      var st := PassState(s.ret, s.size, s.weight, true);
      var shares := Shares(s.size, weight, s.weight);
      SharesWithin(s.size, weight, s.weight);
      var p := Pass(bound, weight, false, shares, st, 0);
      PassProgress(bound, weight, false, shares, st, 0);
      PassConserves(bound, weight, false, shares, st, 0, totalSize);
      PassKeepsRoom(bound, weight, s.size, s.weight, shares, st, 0);
      OpenWeightNonNegative(p.ret, weight);
      RoomLeft(p.sizeLeft, s.size, p.weightLeft, s.weight);
      MaxPhaseFacts(bound, weight, Split(p.ret, p.sizeLeft, p.weightLeft), p.stop, totalSize);
    }
  }

  /** With every entry open or at its minimum, fixed plus open minimums is the sum of the minimums. */
  lemma {:induction false} FixedPlusOpen(ret: seq<int>, bound: seq<int>)
    requires |ret| == |bound| && forall i :: 0 <= i < |ret| ==> ret[i] == -1 || ret[i] == bound[i]
    ensures FixedSum(ret) + OpenSum(ret, bound) == Sum(bound)
  {
    if |ret| > 0 {
      FixedPlusOpen(ret[1..], bound[1..]);
    }
  }

  lemma {:induction false} OpenSumNonNegative(ret: seq<int>, bound: seq<int>)
    requires |ret| == |bound| && forall i :: 0 <= i < |bound| ==> bound[i] >= 0
    ensures OpenSum(ret, bound) >= 0
  {
    if |ret| > 0 {
      OpenSumNonNegative(ret[1..], bound[1..]);
    }
  }

  lemma {:induction false} SumAssigned(s: Split, weight: seq<real>)
    requires |s.ret| == |weight|
    ensures Sum(Assigned(s, weight)) == FixedSum(s.ret) + OpenShares(s.ret, weight, s.size, s.weight)
    decreases |s.ret|
  {
    if |s.ret| > 0 {
      var t := Split(s.ret[1..], s.size, s.weight);
      SumAssigned(t, weight[1..]);
      assert Assigned(s, weight)[1..] == Assigned(t, weight[1..]);
    }
  }

  /** The final shares of the open entries add up to at most the exact shares. */
  lemma {:induction false} OpenSharesBound(ret: seq<int>, weight: seq<real>, size: int, totalWeight: real)
    requires |ret| == |weight| && size >= 0 && totalWeight > 0.0
    requires forall i :: 0 <= i < |weight| ==> weight[i] >= 0.0
    ensures WithinExact(OpenShares(ret, weight, size, totalWeight), OpenWeight(ret, weight), size, totalWeight)
  {
    if |ret| > 0 {
      OpenSharesBound(ret[1..], weight[1..], size, totalWeight);
      var h := if ret[0] == -1 then Share(size, weight[0], totalWeight) else 0;
      var hw := if ret[0] == -1 then weight[0] else 0.0;
      assert WithinExact(h, hw, size, totalWeight) by {
        if ret[0] == -1 {
          ShareBound(size, weight[0], totalWeight);
        }
      }
      var a, aw := OpenShares(ret[1..], weight[1..], size, totalWeight), OpenWeight(ret[1..], weight[1..]);
      assert OpenShares(ret, weight, size, totalWeight) == h + a;
      assert OpenWeight(ret, weight) == hw + aw;
      BoundsAdd(h, a, hw, aw, size, totalWeight);
    } else {
      assert WithinExact(0, 0.0, size, totalWeight);
    }
  }

  /** n * totalWeight is at most size * w: n is at most the exact share of size by w. */
  predicate WithinExact(n: int, w: real, size: int, totalWeight: real)
  {
    n as real * totalWeight <= size as real * w
  }

  /** Two shares each within their exact share add up to within the exact share of the sum. */
  lemma BoundsAdd(h: int, a: int, hw: real, aw: real, size: int, totalWeight: real)
    requires WithinExact(h, hw, size, totalWeight)
    requires WithinExact(a, aw, size, totalWeight)
    ensures WithinExact(h + a, hw + aw, size, totalWeight)
  {
    assert (h + a) as real * totalWeight == h as real * totalWeight + a as real * totalWeight;
    assert size as real * (hw + aw) == size as real * hw + size as real * aw;
  }

  lemma {:induction false} OpenSharesZeroWeight(ret: seq<int>, weight: seq<real>, size: int)
    requires |ret| == |weight|
    ensures OpenShares(ret, weight, size, 0.0) == 0
  {
    if |ret| > 0 {
      OpenSharesZeroWeight(ret[1..], weight[1..], size);
    }
  }

  /**
   * After both phases the pool is in balance, the extent left is not
   * negative, and every fixed entry is a minimum or a maximum.
   */
  lemma AfterPhasesFacts(sizeMin: seq<int>, sizeMax: seq<int>, weight: seq<real>, totalSize: int)
    requires |sizeMin| == |sizeMax| == |weight|
    requires Admissible(sizeMax, weight, false)
    requires totalSize >= Sum(sizeMin)
    requires forall i :: 0 <= i < |sizeMin| ==> sizeMin[i] >= 0
    ensures var f := AfterPhases(sizeMin, sizeMax, weight, totalSize);
      Conserves(f.ret, f.size, f.weight, weight, totalSize) && f.size >= 0 && FromBounds(f.ret, sizeMin, sizeMax)
  {
    var n := |weight|;
    var start := Split(seq(n, _ => -1), totalSize, RealSum(weight));
    OpenStart(n, weight);
    FixedPlusOpen(start.ret, sizeMin);
    var afterMin := Phase(sizeMin, weight, true, start, false);
    MinPhaseFacts(sizeMin, weight, start, false, totalSize);
    PhaseFromBounds(sizeMin, weight, true, start, false, sizeMin, sizeMin);
    FixedPlusOpen(afterMin.ret, sizeMin);
    OpenSumNonNegative(afterMin.ret, sizeMin);
    MaxPhaseFacts(sizeMax, weight, afterMin, false, totalSize);
    PhaseFromBounds(sizeMin, weight, true, start, false, sizeMin, sizeMax);
    PhaseFromBounds(sizeMax, weight, false, afterMin, false, sizeMin, sizeMax);
  }

  /** The final loop hands out at most the extent left, and no negative share. */
  lemma AssignedFits(f: Split, weight: seq<real>, totalSize: int)
    requires |f.ret| == |weight|
    requires forall i :: 0 <= i < |weight| ==> weight[i] >= 0.0
    requires Conserves(f.ret, f.size, f.weight, weight, totalSize) && f.size >= 0
    ensures Sum(Assigned(f, weight)) <= totalSize
    ensures forall i :: 0 <= i < |f.ret| && f.ret[i] == -1 ==> Assigned(f, weight)[i] >= 0
  {
    SumAssigned(f, weight);
    OpenWeightNonNegative(f.ret, weight);
    if f.weight > 0.0 {
      OpenSharesBound(f.ret, weight, f.size, f.weight);
      CancelWeight(OpenShares(f.ret, weight, f.size, f.weight), f.size, f.weight);
    } else {
      OpenSharesZeroWeight(f.ret, weight, f.size);
    }
    forall i | 0 <= i < |f.ret| && f.ret[i] == -1
      ensures Assigned(f, weight)[i] >= 0
    {
      if f.weight > 0.0 {
        ShareBound(f.size, weight[i], f.weight);
      }
    }
  }

  /** A positive factor cancels on both sides of an inequality. */
  lemma CancelWeight(o: int, size: int, w: real)
    requires w > 0.0 && o as real * w <= size as real * w
    ensures o <= size
  {
    var d := (size - o) as real;
    assert d * w == size as real * w - o as real * w;
    assert d == (d * w) / w;
  }

  /**
   * With non-negative minimums the children fit in the parent: no size is
   * negative and together they take at most the total extent.
   */
  lemma ElementSizesFit(sizeMin: seq<int>, sizeMax: seq<int>, weight: seq<real>, totalSize: int)
    requires |sizeMin| == |sizeMax| == |weight|
    requires Admissible(sizeMax, weight, false)
    requires totalSize >= Sum(sizeMin)
    requires forall i :: 0 <= i < |sizeMin| ==> sizeMin[i] >= 0
    ensures var r := ElementSizesOf(sizeMin, sizeMax, weight, totalSize);
      Sum(r) <= totalSize && forall i :: 0 <= i < |r| ==> r[i] >= 0
  {
    var f := AfterPhases(sizeMin, sizeMax, weight, totalSize);
    AfterPhasesFacts(sizeMin, sizeMax, weight, totalSize);
    AssignedFits(f, weight, totalSize);
  }

  /** At the start nothing is fixed and the open weight is all the weight. */
  lemma {:induction false} OpenStart(n: nat, weight: seq<real>)
    requires |weight| == n
    ensures FixedSum(seq(n, _ => -1)) == 0 && OpenWeight(seq(n, _ => -1), weight) == RealSum(weight)
  {
    if n > 0 {
      OpenStart(n - 1, weight[1..]);
      assert seq(n, _ => -1)[1..] == seq(n - 1, _ => -1);
    }
  }

  // ---- hiding the children that do not fit ----

  /**
   * The order the hiding walks, from the front: higher priority first and,
   * between equal priorities, the lower index first. vec_sort_descend_and_get_indecies
   * compares priorities only and std::sort leaves equal ones in no promised
   * order; libstdc++ sorts short vectors by insertion, which keeps them in
   * index order, and the tests rely on that.
   */
  predicate Before(p: (int, int), q: (int, int))
  {
    p.0 > q.0 || (p.0 == q.0 && p.1 < q.1)
  }

  /** Every element comes strictly before the later ones. */
  predicate StrictlyOrdered(s: seq<(int, int)>)
  {
    forall i, j :: 0 <= i < j < |s| ==> Before(s[i], s[j])
  }

  function InsertByPriority(x: (int, int), s: seq<(int, int)>): (r: seq<(int, int)>)
    ensures multiset(r) == multiset(s) + multiset{x}
    ensures |r| == |s| + 1
    ensures r[0] == x || (|s| > 0 && r[0] == s[0])
  {
    if |s| == 0 then [x]
    else if Before(s[0], x) then
      assert s == [s[0]] + s[1..];
      [s[0]] + InsertByPriority(x, s[1..])
    else [x] + s
  }

  function SortByPriority(s: seq<(int, int)>): (r: seq<(int, int)>)
    ensures multiset(r) == multiset(s)
    ensures |r| == |s|
  {
    if |s| == 0 then []
    else
      assert s == [s[0]] + s[1..];
      InsertByPriority(s[0], SortByPriority(s[1..]))
  }

  /** The (priority, index) pairs in hiding order. */
  function PriorityOrder(priorities: seq<int>): (r: seq<(int, int)>)
    ensures |r| == |priorities|
  {
    SortByPriority(VecToPairWithIndices(priorities))
  }

  lemma {:induction false} InsertOrdered(x: (int, int), s: seq<(int, int)>)
    requires StrictlyOrdered(s) && x !in s
    ensures StrictlyOrdered(InsertByPriority(x, s))
  {
    var r := InsertByPriority(x, s);
    if |s| > 0 && Before(s[0], x) {
      assert x !in s[1..];
      InsertOrdered(x, s[1..]);
      var t := InsertByPriority(x, s[1..]);
      assert Before(s[0], t[0]);
      forall j | 0 < j < |r|
        ensures Before(r[0], r[j])
      {
        BeforeTransitive(s[0], t[0], t[j - 1]);
      }
    } else if |s| > 0 {
      assert Before(x, s[0]);
      forall j | 0 < j < |r|
        ensures Before(r[0], r[j])
      {
        BeforeTransitive(x, s[0], s[j - 1]);
      }
    }
  }

  /** Before is transitive, allowing the second pair to equal the third. */
  lemma BeforeTransitive(p: (int, int), q: (int, int), u: (int, int))
    requires Before(p, q) && (q == u || Before(q, u))
    ensures Before(p, u)
  {
  }

  lemma {:induction false} SortOrdered(s: seq<(int, int)>)
    requires forall i, j :: 0 <= i < j < |s| ==> s[i] != s[j]
    ensures StrictlyOrdered(SortByPriority(s))
  {
    if |s| > 0 {
      SortOrdered(s[1..]);
      var t := SortByPriority(s[1..]);
      assert s[0] !in multiset(s[1..]);
      assert s[0] !in t by {
        assert s[0] !in multiset(t);
      }
      InsertOrdered(s[0], t);
    }
  }

  /** Each position of the hiding order holds a child's (priority, index). */
  lemma PriorityOrderPairs(priorities: seq<int>)
    ensures var order := PriorityOrder(priorities);
      forall k :: 0 <= k < |order| ==> 0 <= order[k].1 < |priorities| && order[k].0 == priorities[order[k].1]
  {
    var pairs := VecToPairWithIndices(priorities);
    var order := PriorityOrder(priorities);
    forall k | 0 <= k < |order|
      ensures 0 <= order[k].1 < |priorities| && order[k].0 == priorities[order[k].1]
    {
      assert order[k] in multiset(pairs);
    }
  }

  /** Every child is in the hiding order. */
  lemma PriorityOrderCovers(priorities: seq<int>)
    ensures Covers(PriorityOrder(priorities), priorities)
  {
    var pairs := VecToPairWithIndices(priorities);
    var order := PriorityOrder(priorities);
    forall j | 0 <= j < |priorities|
      ensures (priorities[j], j) in order
    {
      assert pairs[j] in multiset(order);
    }
  }

  /**
   * The hiding order holds each child once, as (its priority, its index),
   * higher priorities first.
   */
  lemma PriorityOrderFacts(priorities: seq<int>)
    ensures var order := PriorityOrder(priorities);
      StrictlyOrdered(order) &&
      (forall k :: 0 <= k < |order| ==> 0 <= order[k].1 < |priorities| && order[k].0 == priorities[order[k].1]) &&
      Covers(order, priorities)
  {
    SortOrdered(VecToPairWithIndices(priorities));
    PriorityOrderPairs(priorities);
    PriorityOrderCovers(priorities);
  }

  /**
   * The hiding order is one of the orders vec_sort_descend_and_get_indecies
   * may return: a permutation of the pairs with priorities non-increasing.
   */
  lemma PriorityOrderIsDescending(priorities: seq<int>)
    ensures var order := PriorityOrder(priorities);
      multiset(order) == multiset(VecToPairWithIndices(priorities)) &&
      forall i, j :: 0 <= i < j < |order| ==> order[i].0 >= order[j].0
  {
    SortOrdered(VecToPairWithIndices(priorities));
  }

  /** Minimums and maximums after hiding, and the last position of the order that was kept. */
  datatype Hidden = Hidden(mins: seq<int>, maxs: seq<int>, kept: int)

  /** Every position of the order names a child. */
  predicate IndexOrder(order: seq<(int, int)>, n: nat)
  {
    forall k :: 0 <= k < |order| ==> 0 <= order[k].1 < n
  }

  /**
   * The while-loop: from the back of the order, zero the minimum and maximum
   * of one child at a time until the minimums fit.
   */
  function HideFrom(mins: seq<int>, maxs: seq<int>, order: seq<(int, int)>, i: int, sum: int, totalSize: int): (r: Hidden)
    requires |mins| == |maxs| && -1 <= i < |order| && IndexOrder(order, |mins|)
    ensures |r.mins| == |mins| && |r.maxs| == |maxs| && r.kept <= i
    decreases i + 1
  {
    if sum <= totalSize || i < 0 then Hidden(mins, maxs, i)
    else
      var index := order[i].1;
      HideFrom(mins[index := 0], maxs[index := 0], order, i - 1, sum - mins[index], totalSize)
  }

  /** _hide_elements_if_all_doesnt_fit. */
  function HideOn(sizeMin: seq<int>, sizeMax: seq<int>, priorities: seq<int>, totalSize: int): (r: Hidden)
    requires |sizeMin| == |sizeMax| == |priorities|
    ensures |r.mins| == |sizeMin| && |r.maxs| == |sizeMax|
  {
    var sum := Sum(sizeMin);
    if sum <= totalSize then Hidden(sizeMin, sizeMax, |priorities| - 1)
    else
      var order := PriorityOrder(priorities);
      PriorityOrderPairs(priorities);
      HideFrom(sizeMin, sizeMax, order, |order| - 1, sum, totalSize)
  }

  /**
   * _hide_elements_if_all_doesnt_fit as the source runs it, on copies of the
   * two vectors it takes by reference.
   */
  method HideElementsIfAllDoesntFit(sizeMin: seq<int>, sizeMax: seq<int>, priorities: seq<int>, totalSize: int)
    returns (newMin: seq<int>, newMax: seq<int>)
    requires |sizeMin| == |sizeMax| == |priorities|
    requires Sum(sizeMin) > totalSize ==> totalSize >= 0
    ensures newMin == HideOn(sizeMin, sizeMax, priorities, totalSize).mins
    ensures newMax == HideOn(sizeMin, sizeMax, priorities, totalSize).maxs
  {
    var minSizeSum := VecSumDefault(sizeMin);
    if minSizeSum <= totalSize {
      assert HideOn(sizeMin, sizeMax, priorities, totalSize) == Hidden(sizeMin, sizeMax, |priorities| - 1);
      return sizeMin, sizeMax;
    }
    var order := PriorityOrder(priorities);
    PriorityOrderPairs(priorities);
    PriorityOrderCovers(priorities);
    assert HideOn(sizeMin, sizeMax, priorities, totalSize) == HideFrom(sizeMin, sizeMax, order, |order| - 1, minSizeSum, totalSize);
    newMin, newMax := HideWalk(sizeMin, sizeMax, priorities, order, minSizeSum, totalSize);
  }

  /** Each child appears in the order as (its priority, its index). */
  predicate Covers(order: seq<(int, int)>, priorities: seq<int>)
  {
    forall j :: 0 <= j < |priorities| ==> (priorities[j], j) in order
  }

  /** The while-loop of _hide_elements_if_all_doesnt_fit, walking the order from the back. */
  method HideWalk(sizeMin: seq<int>, sizeMax: seq<int>, priorities: seq<int>, order: seq<(int, int)>, sum: int, totalSize: int)
    returns (newMin: seq<int>, newMax: seq<int>)
    requires |sizeMin| == |sizeMax| == |priorities| == |order|
    requires IndexOrder(order, |sizeMin|) && Covers(order, priorities)
    requires sum == Sum(sizeMin) && totalSize >= 0
    ensures newMin == HideFrom(sizeMin, sizeMax, order, |order| - 1, sum, totalSize).mins
    ensures newMax == HideFrom(sizeMin, sizeMax, order, |order| - 1, sum, totalSize).maxs
  {
    newMin, newMax := sizeMin, sizeMax;
    var minSizeSum := sum;
    var i := |order| - 1;
    while minSizeSum > totalSize
      invariant -1 <= i < |order| && |newMin| == |newMax| == |sizeMin|
      invariant HideFrom(newMin, newMax, order, i, minSizeSum, totalSize)
             == HideFrom(sizeMin, sizeMax, order, |order| - 1, sum, totalSize)
      invariant minSizeSum == Sum(newMin)
      invariant forall k :: i < k < |order| ==> newMin[order[k].1] == 0
      decreases i + 1
    {
      AllHiddenSumZero(newMin, priorities, order, i);
      var index := order[i].1;
      SumUpdate(newMin, index, 0);
      minSizeSum := minSizeSum - newMin[index];
      newMin := newMin[index := 0];
      newMax := newMax[index := 0];
      i := i - 1;
    }
  }

  /** Sum after overwriting one entry. */
  lemma {:induction false} SumUpdate(s: seq<int>, i: nat, v: int)
    requires i < |s|
    ensures Sum(s[i := v]) == Sum(s) - s[i] + v
  {
    if i > 0 {
      SumUpdate(s[1..], i - 1, v);
      assert s[i := v][1..] == s[1..][i - 1 := v];
    }
  }

  lemma {:induction false} ZeroSum(s: seq<int>)
    requires forall j :: 0 <= j < |s| ==> s[j] == 0
    ensures Sum(s) == 0
  {
    if |s| > 0 {
      ZeroSum(s[1..]);
    }
  }

  /** Once the walk has passed the front, every child is hidden and the minimums sum to 0. */
  lemma AllHiddenSumZero(mins: seq<int>, priorities: seq<int>, order: seq<(int, int)>, i: int)
    requires |priorities| == |mins| && Covers(order, priorities)
    requires -1 <= i && forall k :: i < k < |order| ==> 0 <= order[k].1 < |mins| && mins[order[k].1] == 0
    ensures i < 0 ==> Sum(mins) == 0
  {
    if i < 0 {
      forall j | 0 <= j < |mins|
        ensures mins[j] == 0
      {
        var k :| 0 <= k < |order| && order[k] == (priorities[j], j);
      }
      ZeroSum(mins);
    }
  }

  /** The order names each child at most once. */
  predicate DistinctIndices(order: seq<(int, int)>)
  {
    forall k1, k2 :: 0 <= k1 < |order| && 0 <= k2 < |order| && k1 != k2 ==> order[k1].1 != order[k2].1
  }

  /** Positions up to `kept` are untouched, the later ones hidden (minimum and maximum 0). */
  predicate HiddenAfter(sizeMin: seq<int>, sizeMax: seq<int>, order: seq<(int, int)>, mins: seq<int>, maxs: seq<int>, kept: int)
    requires |mins| == |maxs| == |sizeMin| == |sizeMax| && IndexOrder(order, |sizeMin|)
  {
    forall k :: 0 <= k < |order| ==>
      if k <= kept then mins[order[k].1] == sizeMin[order[k].1] && maxs[order[k].1] == sizeMax[order[k].1]
      else mins[order[k].1] == 0 && maxs[order[k].1] == 0
  }

  lemma {:induction false} HideFromFacts(sizeMin: seq<int>, sizeMax: seq<int>, priorities: seq<int>, order: seq<(int, int)>,
                                         mins: seq<int>, maxs: seq<int>, i: int, sum: int, totalSize: int)
    requires |mins| == |maxs| == |sizeMin| == |sizeMax| == |priorities|
    requires -1 <= i < |order| && IndexOrder(order, |sizeMin|) && DistinctIndices(order) && Covers(order, priorities)
    requires HiddenAfter(sizeMin, sizeMax, order, mins, maxs, i)
    requires sum == Sum(mins) && totalSize >= 0
    ensures var r := HideFrom(mins, maxs, order, i, sum, totalSize);
      -1 <= r.kept <= i && HiddenAfter(sizeMin, sizeMax, order, r.mins, r.maxs, r.kept) && Sum(r.mins) <= totalSize
    ensures var r := HideFrom(mins, maxs, order, i, sum, totalSize);
      r.kept < i ==> Sum(r.mins) + sizeMin[order[r.kept + 1].1] > totalSize
    decreases i + 1
  {
    var r := HideFrom(mins, maxs, order, i, sum, totalSize);
    if sum > totalSize && i >= 0 {
      var index := order[i].1;
      var mins', maxs' := mins[index := 0], maxs[index := 0];
      assert r == HideFrom(mins', maxs', order, i - 1, sum - mins[index], totalSize);
      SumUpdate(mins, index, 0);
      HiddenAfterStep(sizeMin, sizeMax, order, mins, maxs, i);
      HideFromFacts(sizeMin, sizeMax, priorities, order, mins', maxs', i - 1, sum - mins[index], totalSize);
      if r.kept == i - 1 {
        assert r.mins == mins';
        assert mins[index] == sizeMin[order[r.kept + 1].1];
      }
    } else {
      assert r == Hidden(mins, maxs, i);
      AllHiddenSumZero(mins, priorities, order, i);
    }
  }

  /** Hiding the child at position i of the order moves the boundary one position down. */
  lemma HiddenAfterStep(sizeMin: seq<int>, sizeMax: seq<int>, order: seq<(int, int)>, mins: seq<int>, maxs: seq<int>, i: int)
    requires |mins| == |maxs| == |sizeMin| == |sizeMax|
    requires 0 <= i < |order| && IndexOrder(order, |sizeMin|) && DistinctIndices(order)
    requires HiddenAfter(sizeMin, sizeMax, order, mins, maxs, i)
    ensures HiddenAfter(sizeMin, sizeMax, order, mins[order[i].1 := 0], maxs[order[i].1 := 0], i - 1)
    ensures mins[order[i].1] == sizeMin[order[i].1]
  {
    var index := order[i].1;
    var mins', maxs' := mins[index := 0], maxs[index := 0];
    forall k | 0 <= k < |order|
      ensures if k <= i - 1 then mins'[order[k].1] == sizeMin[order[k].1] && maxs'[order[k].1] == sizeMax[order[k].1]
              else mins'[order[k].1] == 0 && maxs'[order[k].1] == 0
    {
      if k != i {
        assert order[k].1 != index;
      }
    }
  }

  /** The hiding order names each child once. */
  lemma PriorityOrderDistinct(priorities: seq<int>)
    ensures DistinctIndices(PriorityOrder(priorities))
  {
    var order := PriorityOrder(priorities);
    PriorityOrderFacts(priorities);
    forall k1, k2 | 0 <= k1 < |order| && 0 <= k2 < |order| && k1 != k2
      ensures order[k1].1 != order[k2].1
    {
      if k1 < k2 {
        assert Before(order[k1], order[k2]);
      } else {
        assert Before(order[k2], order[k1]);
      }
    }
  }

  /**
   * _hide_elements_if_all_doesnt_fit: when the minimums fit nothing changes;
   * otherwise the minimums fit afterwards, the children hidden are the tail
   * of the hiding order after position `kept`, and hiding stopped as soon as
   * they fit.
   */
  lemma HideFacts(sizeMin: seq<int>, sizeMax: seq<int>, priorities: seq<int>, totalSize: int)
    requires |sizeMin| == |sizeMax| == |priorities|
    requires Sum(sizeMin) > totalSize ==> totalSize >= 0
    ensures var r := HideOn(sizeMin, sizeMax, priorities, totalSize);
      Sum(sizeMin) <= totalSize ==> r.mins == sizeMin && r.maxs == sizeMax
    ensures Sum(HideOn(sizeMin, sizeMax, priorities, totalSize).mins) <= totalSize
    ensures var r := HideOn(sizeMin, sizeMax, priorities, totalSize);
      var order := PriorityOrder(priorities);
      IndexOrder(order, |sizeMin|) && HiddenAfter(sizeMin, sizeMax, order, r.mins, r.maxs, r.kept)
    ensures var r := HideOn(sizeMin, sizeMax, priorities, totalSize);
      var order := PriorityOrder(priorities);
      0 <= r.kept + 1 < |order| ==> Sum(r.mins) + sizeMin[order[r.kept + 1].1] > totalSize
  {
    var order := PriorityOrder(priorities);
    var r := HideOn(sizeMin, sizeMax, priorities, totalSize);
    PriorityOrderPairs(priorities);
    assert HiddenAfter(sizeMin, sizeMax, order, sizeMin, sizeMax, |order| - 1);
    if Sum(sizeMin) > totalSize {
      PriorityOrderCovers(priorities);
      PriorityOrderDistinct(priorities);
      HideOnHides(sizeMin, sizeMax, priorities, totalSize);
      HideFromFacts(sizeMin, sizeMax, priorities, order, sizeMin, sizeMax, |order| - 1, Sum(sizeMin), totalSize);
      assert HiddenAfter(sizeMin, sizeMax, order, r.mins, r.maxs, r.kept);
    } else {
      assert r == Hidden(sizeMin, sizeMax, |order| - 1);
    }
  }

  /** When the minimums do not fit, the hiding runs from the back of the priority order. */
  lemma HideOnHides(sizeMin: seq<int>, sizeMax: seq<int>, priorities: seq<int>, totalSize: int)
    requires |sizeMin| == |sizeMax| == |priorities| && Sum(sizeMin) > totalSize
    ensures var order := PriorityOrder(priorities);
      IndexOrder(order, |sizeMin|) && |order| == |priorities| &&
      HideOn(sizeMin, sizeMax, priorities, totalSize) == HideFrom(sizeMin, sizeMax, order, |order| - 1, Sum(sizeMin), totalSize)
  {
    PriorityOrderPairs(priorities);
  }

  /**
   * Every child hidden has a lower priority than every child kept, or the
   * same priority and a higher index.
   */
  lemma HidePriorityRule(sizeMin: seq<int>, sizeMax: seq<int>, priorities: seq<int>, totalSize: int)
    requires |sizeMin| == |sizeMax| == |priorities|
    ensures var r := HideOn(sizeMin, sizeMax, priorities, totalSize);
      var order := PriorityOrder(priorities);
      forall k1, k2 :: 0 <= k1 <= r.kept < k2 < |order| ==>
        0 <= order[k1].1 < |priorities| && 0 <= order[k2].1 < |priorities| &&
        (priorities[order[k2].1] < priorities[order[k1].1] ||
         (priorities[order[k2].1] == priorities[order[k1].1] && order[k1].1 < order[k2].1))
  {
    PriorityOrderFacts(priorities);
  }

  /** Each minimum and maximum is either as given or 0. */
  predicate KeptOrZeroed(sizeMin: seq<int>, sizeMax: seq<int>, mins: seq<int>, maxs: seq<int>)
    requires |mins| == |maxs| == |sizeMin| == |sizeMax|
  {
    forall j :: 0 <= j < |mins| ==>
      (mins[j] == sizeMin[j] || mins[j] == 0) && (maxs[j] == sizeMax[j] || maxs[j] == 0)
  }

  lemma {:induction false} HideFromKeptOrZeroed(sizeMin: seq<int>, sizeMax: seq<int>, mins: seq<int>, maxs: seq<int>,
                                                order: seq<(int, int)>, i: int, sum: int, totalSize: int)
    requires |mins| == |maxs| == |sizeMin| == |sizeMax| && -1 <= i < |order| && IndexOrder(order, |mins|)
    requires KeptOrZeroed(sizeMin, sizeMax, mins, maxs)
    ensures var r := HideFrom(mins, maxs, order, i, sum, totalSize);
      KeptOrZeroed(sizeMin, sizeMax, r.mins, r.maxs)
    decreases i + 1
  {
    if sum <= totalSize || i < 0 {
    } else {
      var index := order[i].1;
      HideFromKeptOrZeroed(sizeMin, sizeMax, mins[index := 0], maxs[index := 0], order, i - 1, sum - mins[index], totalSize);
    }
  }

  /** Hiding only ever sets a child's minimum and maximum to 0. */
  lemma HideKeptOrZeroed(sizeMin: seq<int>, sizeMax: seq<int>, priorities: seq<int>, totalSize: int)
    requires |sizeMin| == |sizeMax| == |priorities|
    ensures var r := HideOn(sizeMin, sizeMax, priorities, totalSize);
      KeptOrZeroed(sizeMin, sizeMax, r.mins, r.maxs)
  {
    if Sum(sizeMin) > totalSize {
      var order := PriorityOrder(priorities);
      PriorityOrderPairs(priorities);
      assert HideOn(sizeMin, sizeMax, priorities, totalSize) == HideFrom(sizeMin, sizeMax, order, |order| - 1, Sum(sizeMin), totalSize);
      HideFromKeptOrZeroed(sizeMin, sizeMax, sizeMin, sizeMax, order, |order| - 1, Sum(sizeMin), totalSize);
    } else {
      assert HideOn(sizeMin, sizeMax, priorities, totalSize) == Hidden(sizeMin, sizeMax, |priorities| - 1);
    }
  }
}
