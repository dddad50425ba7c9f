/**
 * The state-vector simulator: 2^n amplitudes indexed by basis state, bit i
 * of the index being the value of qubit i. The gates only move or combine
 * entries whose indices differ in one bit; the amplitude arithmetic itself
 * (complex numbers, square roots, probabilities) is passed in as functions
 * on an opaque amplitude type.
 */
module QuantumSim {
  import opened BasicMath

  /** The most qubits a system may be built with. */
  const MaxQubits: nat := 24

  /** is_qubit_enabled_in_state: the mask 1 << i ANDed with the state index. */
  function IsQubitEnabledInState(n: nat, i: nat): (r: bool)
    ensures r <==> Bit(n, i)
  {
    MaskAndBit(n, i);
    BitAnd(Pow2(i), n) != 0
  }

  // ---- single-bit arithmetic ----

  /** Adding 2^t to an index whose bit t is clear sets that bit and no other. */
  lemma {:induction false} BitAddPow2(n: nat, t: nat, i: nat)
    requires !Bit(n, t)
    ensures Bit(n + Pow2(t), i) == (i == t || Bit(n, i))
    decreases t
  {
    if t == 0 {
      if i > 0 {
        assert (n + 1) / 2 == n / 2;
      }
    } else {
      assert (n + Pow2(t)) / 2 == n / 2 + Pow2(t - 1) && (n + Pow2(t)) % 2 == n % 2;
      if i > 0 {
        BitAddPow2(n / 2, t - 1, i - 1);
      }
    }
  }

  /** An index whose bit t is set is at least 2^t, and subtracting 2^t clears that bit and no other. */
  lemma {:induction false} BitSubPow2(n: nat, t: nat, i: nat)
    requires Bit(n, t)
    ensures n >= Pow2(t)
    ensures Bit(n - Pow2(t), i) == (i != t && Bit(n, i))
    decreases t
  {
    if t == 0 {
      if i > 0 {
        assert (n - 1) / 2 == n / 2;
      }
    } else {
      BitSubPow2(n / 2, t - 1, if i > 0 then i - 1 else 0);
      assert (n - Pow2(t)) / 2 == n / 2 - Pow2(t - 1) && (n - Pow2(t)) % 2 == n % 2;
    }
  }

  /** Below 2^k, setting a clear bit t < k stays below 2^k. */
  lemma {:induction false} SetBitStaysBelow(n: nat, t: nat, k: nat)
    requires n < Pow2(k) && t < k && !Bit(n, t)
    ensures n + Pow2(t) < Pow2(k)
    decreases t
  {
    var half := Pow2(k - 1);
    assert Pow2(k) == 2 * half;
    assert n == 2 * (n / 2) + n % 2;
    assert n / 2 < half;
    if t > 0 {
      assert !Bit(n / 2, t - 1);
      SetBitStaysBelow(n / 2, t - 1, k - 1);
      assert Pow2(t) == 2 * Pow2(t - 1);
    } else {
      assert n % 2 == 0;
    }
  }

  /** Bits at or above k of an index below 2^k are clear. */
  lemma {:induction false} HighBitClear(n: nat, k: nat, i: nat)
    requires n < Pow2(k) && i >= k
    ensures !Bit(n, i)
    decreases k
  {
    if k > 0 {
      HighBitClear(n / 2, k - 1, i - 1);
    } else {
      assert n == 0;
      ZeroHasNoBits(i);
    }
  }

  lemma {:induction false} ZeroHasNoBits(i: nat)
    ensures !Bit(0, i)
  {
    if i > 0 {
      ZeroHasNoBits(i - 1);
    }
  }

  /** The index that differs from n exactly in bit t. */
  function Flip(n: nat, t: nat): (m: nat)
    ensures Bit(m, t) == !Bit(n, t)
    ensures Bit(n, t) ==> m == n - Pow2(t)
    ensures !Bit(n, t) ==> m == n + Pow2(t)
  {
    if Bit(n, t) then
      BitSubPow2(n, t, t);
      n - Pow2(t)
    else
      BitAddPow2(n, t, t);
      n + Pow2(t)
  }

  /** Flipping keeps every other bit. */
  lemma FlipKeepsOtherBits(n: nat, t: nat, i: nat)
    requires i != t
    ensures Bit(Flip(n, t), i) == Bit(n, i)
  {
    if Bit(n, t) {
      BitSubPow2(n, t, i);
    } else {
      BitAddPow2(n, t, i);
    }
  }

  /** Flipping twice gives the index back. */
  lemma FlipInvolution(n: nat, t: nat)
    ensures Flip(Flip(n, t), t) == n
  {
  }

  /** Flipping a bit below k keeps an index below 2^k. */
  lemma FlipStaysBelow(n: nat, t: nat, k: nat)
    requires n < Pow2(k) && t < k
    ensures Flip(n, t) < Pow2(k)
  {
    if !Bit(n, t) {
      SetBitStaysBelow(n, t, k);
    }
  }

  // ---- cnot ----

  /** What cnot may touch without leaving the vector: a target inside it, or a control outside it. */
  predicate CnotInRange(qubitCount: nat, c: nat, t: nat)
  {
    t < qubitCount || c >= qubitCount
  }

  /**
   * The index cnot moves entry n to and from: n with bit t flipped when
   * control bit c is set (and c is not t), n itself otherwise.
   */
  function CnotIndex(qubitCount: nat, c: nat, t: nat, n: nat): (m: nat)
    requires n < Pow2(qubitCount) && CnotInRange(qubitCount, c, t)
    ensures m < Pow2(qubitCount)
    ensures Bit(m, c) == Bit(n, c)
  {
    if c != t && Bit(n, c) then
      if c >= qubitCount then
        HighBitClear(n, qubitCount, c);
        n
      else
        FlipStaysBelow(n, t, qubitCount);
        FlipKeepsOtherBits(n, t, c);
        Flip(n, t)
    else n
  }

  /** cnot's index map is its own inverse, so it is a bijection of the indices. */
  lemma CnotIndexInvolution(qubitCount: nat, c: nat, t: nat, n: nat)
    requires n < Pow2(qubitCount) && CnotInRange(qubitCount, c, t)
    ensures CnotIndex(qubitCount, c, t, CnotIndex(qubitCount, c, t, n)) == n
  {
    if c != t && Bit(n, c) && c < qubitCount {
      FlipInvolution(n, t);
    }
  }

  /** The state vector after cnot(c, t). */
  function CnotImage<A>(s: seq<A>, qubitCount: nat, c: nat, t: nat): (r: seq<A>)
    requires |s| == Pow2(qubitCount) && CnotInRange(qubitCount, c, t)
    ensures |r| == |s|
  {
    seq(|s|, n requires 0 <= n < |s| => s[CnotIndex(qubitCount, c, t, n)])
  }

  /**
   * cnot swaps the entries n and n + 2^t for every n with bit c set and
   * bit t clear, and leaves every entry with bit c clear where it is.
   */
  lemma CnotSwapsPairs<A>(s: seq<A>, qubitCount: nat, c: nat, t: nat, n: nat)
    requires |s| == Pow2(qubitCount) && CnotInRange(qubitCount, c, t) && n < |s|
    ensures c != t && Bit(n, c) && !Bit(n, t) ==>
      n + Pow2(t) < |s| && CnotImage(s, qubitCount, c, t)[n] == s[n + Pow2(t)]
        && CnotImage(s, qubitCount, c, t)[n + Pow2(t)] == s[n]
    ensures !Bit(n, c) || c == t ==> CnotImage(s, qubitCount, c, t)[n] == s[n]
  {
    if c != t && Bit(n, c) && !Bit(n, t) {
      if c >= qubitCount {
        HighBitClear(n, qubitCount, c);
      }
      SetBitStaysBelow(n, t, qubitCount);
      FlipKeepsOtherBits(n, t, c);
    }
  }

  /** Applying cnot twice restores the state vector. */
  lemma CnotTwice<A>(s: seq<A>, qubitCount: nat, c: nat, t: nat)
    requires |s| == Pow2(qubitCount) && CnotInRange(qubitCount, c, t)
    ensures CnotImage(CnotImage(s, qubitCount, c, t), qubitCount, c, t) == s
  {
    var r := CnotImage(s, qubitCount, c, t);
    forall n | 0 <= n < |s|
      ensures CnotImage(r, qubitCount, c, t)[n] == s[n]
    {
      CnotIndexInvolution(qubitCount, c, t, n);
    }
  }

  /** cnot with the same control and target changes nothing. */
  lemma CnotSameQubit<A>(s: seq<A>, qubitCount: nat, q: nat)
    requires |s| == Pow2(qubitCount) && CnotInRange(qubitCount, q, q)
    ensures CnotImage(s, qubitCount, q, q) == s
  {
  }

  /** Swapping two entries keeps the multiset of entries. */
  lemma SwapKeepsMultiset<A>(s: seq<A>, i: nat, j: nat)
    requires i < |s| && j < |s|
    ensures multiset(s[i := s[j]][j := s[i]]) == multiset(s)
  {
  }

  /** The lower index of the pair {n, n with bit t flipped}. */
  function PairLow(n: nat, t: nat): (m: nat)
    ensures !Bit(m, t) && (m == n || m == Flip(n, t))
  {
    if Bit(n, t) then Flip(n, t) else n
  }

  /** The loop of cnot has handled the pairs whose lower index is below k. */
  ghost predicate CnotProgress<A>(s: seq<A>, cur: seq<A>, qubitCount: nat, c: nat, t: nat, k: nat)
    requires |s| == Pow2(qubitCount) && CnotInRange(qubitCount, c, t)
  {
    |cur| == |s|
    && forall j :: 0 <= j < |s| ==>
      cur[j] == s[if PairLow(j, t) < k then CnotIndex(qubitCount, c, t, j) else j]
  }

  /** One iteration of cnot's loop, at index k. */
  lemma CnotStep<A>(s: seq<A>, cur: seq<A>, qubitCount: nat, c: nat, t: nat, k: nat)
    requires |s| == Pow2(qubitCount) && CnotInRange(qubitCount, c, t) && k < |s|
    requires CnotProgress(s, cur, qubitCount, c, t, k)
    ensures Bit(k, c) && !Bit(k, t) ==> k + Pow2(t) < |s|
    ensures Bit(k, c) && !Bit(k, t) ==> CnotProgress(s, cur[k := cur[k + Pow2(t)]][k + Pow2(t) := cur[k]], qubitCount, c, t, k + 1)
    ensures !(Bit(k, c) && !Bit(k, t)) ==> CnotProgress(s, cur, qubitCount, c, t, k + 1)
  {
    var swap := Bit(k, c) && !Bit(k, t);
    if swap {
      if c >= qubitCount {
        HighBitClear(k, qubitCount, c);
      }
      SetBitStaysBelow(k, t, qubitCount);
      FlipKeepsOtherBits(k, t, c);
    }
    var next := if swap then cur[k := cur[k + Pow2(t)]][k + Pow2(t) := cur[k]] else cur;
    forall j | 0 <= j < |s|
      ensures next[j] == s[if PairLow(j, t) < k + 1 then CnotIndex(qubitCount, c, t, j) else j]
    {
      if PairLow(j, t) == k {
        if j != k {
          FlipInvolution(j, t);
        }
        if c != t && Bit(j, c) && c < qubitCount {
          FlipKeepsOtherBits(j, t, c);
        }
        if c >= qubitCount {
          HighBitClear(j, qubitCount, c);
        }
      } else if swap {
        FlipInvolution(j, t);
      }
    }
  }

  /** After the loop every pair has been handled. */
  lemma CnotDone<A>(s: seq<A>, cur: seq<A>, qubitCount: nat, c: nat, t: nat)
    requires |s| == Pow2(qubitCount) && CnotInRange(qubitCount, c, t)
    requires CnotProgress(s, cur, qubitCount, c, t, |s|)
    ensures cur == CnotImage(s, qubitCount, c, t)
  {
    forall j | 0 <= j < |s|
      ensures cur[j] == CnotImage(s, qubitCount, c, t)[j]
    {
      if Bit(j, t) {
        assert PairLow(j, t) <= j;
      }
    }
  }

  // ---- hadamar and the phase shift ----

  /**
   * The state vector after hadamar(q): each pair (n, n + 2^q) with bit q of
   * n clear is replaced by (sum(a, b), diff(a, b)) of its two old entries.
   */
  function HadamarImage<A>(s: seq<A>, qubitCount: nat, q: nat, sum: (A, A) -> A, diff: (A, A) -> A): (r: seq<A>)
    requires |s| == Pow2(qubitCount) && q < qubitCount
    ensures |r| == |s|
  {
    seq(|s|, n requires 0 <= n < |s| =>
      FlipStaysBelow(n, q, qubitCount);
      if Bit(n, q) then diff(s[Flip(n, q)], s[n]) else sum(s[n], s[Flip(n, q)]))
  }

  /** Entry n after hadamar(q) depends only on the old entries n and n with bit q flipped. */
  lemma HadamarPairLocal<A>(s1: seq<A>, s2: seq<A>, qubitCount: nat, q: nat, sum: (A, A) -> A, diff: (A, A) -> A, n: nat)
    requires |s1| == |s2| == Pow2(qubitCount) && q < qubitCount && n < |s1|
    requires Flip(n, q) < |s1| && s1[n] == s2[n] && s1[Flip(n, q)] == s2[Flip(n, q)]
    ensures HadamarImage(s1, qubitCount, q, sum, diff)[n] == HadamarImage(s2, qubitCount, q, sum, diff)[n]
  {
  }

  /** The loop of hadamar has handled the pairs whose lower index is below k. */
  ghost predicate HadamarProgress<A>(s: seq<A>, cur: seq<A>, qubitCount: nat, q: nat, sum: (A, A) -> A, diff: (A, A) -> A, k: nat)
    requires |s| == Pow2(qubitCount) && q < qubitCount
  {
    |cur| == |s|
    && forall j :: 0 <= j < |s| ==>
      cur[j] == if PairLow(j, q) < k then HadamarImage(s, qubitCount, q, sum, diff)[j] else s[j]
  }

  /** One iteration of hadamar's loop, at index k. */
  lemma HadamarStep<A>(s: seq<A>, cur: seq<A>, qubitCount: nat, q: nat, sum: (A, A) -> A, diff: (A, A) -> A, k: nat)
    requires |s| == Pow2(qubitCount) && q < qubitCount && k < |s|
    requires HadamarProgress(s, cur, qubitCount, q, sum, diff, k)
    ensures !Bit(k, q) ==> k + Pow2(q) < |s|
    ensures var next := if !Bit(k, q) then
        cur[k := sum(cur[k], cur[k + Pow2(q)])][k + Pow2(q) := diff(cur[k], cur[k + Pow2(q)])]
      else cur;
      HadamarProgress(s, next, qubitCount, q, sum, diff, k + 1)
  {
    var image := HadamarImage(s, qubitCount, q, sum, diff);
    if !Bit(k, q) {
      SetBitStaysBelow(k, q, qubitCount);
      var k2 := k + Pow2(q);
      FlipInvolution(k, q);
      var next := cur[k := sum(cur[k], cur[k2])][k2 := diff(cur[k], cur[k2])];
      forall j | 0 <= j < |s|
        ensures next[j] == if PairLow(j, q) < k + 1 then image[j] else s[j]
      {
        FlipInvolution(j, q);
      }
    } else {
      forall j | 0 <= j < |s|
        ensures cur[j] == if PairLow(j, q) < k + 1 then image[j] else s[j]
      {
        FlipInvolution(j, q);
      }
    }
  }

  /** After hadamar's loop every pair has been handled. */
  lemma HadamarDone<A>(s: seq<A>, cur: seq<A>, qubitCount: nat, q: nat, sum: (A, A) -> A, diff: (A, A) -> A)
    requires |s| == Pow2(qubitCount) && q < qubitCount
    requires HadamarProgress(s, cur, qubitCount, q, sum, diff, |s|)
    ensures cur == HadamarImage(s, qubitCount, q, sum, diff)
  {
    forall j | 0 <= j < |s|
      ensures cur[j] == HadamarImage(s, qubitCount, q, sum, diff)[j]
    {
      assert PairLow(j, q) <= j;
    }
  }

  /** The state vector after phase_shift_pi_over_4(q): only entries with bit q set are multiplied. */
  function PhaseShiftImage<A>(s: seq<A>, q: nat, shift: A -> A): (r: seq<A>)
    ensures |r| == |s|
    ensures forall n :: 0 <= n < |s| && !Bit(n, q) ==> r[n] == s[n]
    ensures forall n :: 0 <= n < |s| && Bit(n, q) ==> r[n] == shift(s[n])
  {
    seq(|s|, n requires 0 <= n < |s| => if IsQubitEnabledInState(n, q) then shift(s[n]) else s[n])
  }

  // ---- measurement ----

  /** The collapse step of measure: entries whose bit q disagrees with the outcome become zero. */
  function Collapse<A>(s: seq<A>, q: nat, outcome: bool, zero: A): (r: seq<A>)
    ensures |r| == |s|
    ensures forall n :: 0 <= n < |s| ==> r[n] == if Bit(n, q) == outcome then s[n] else zero
  {
    seq(|s|, n requires 0 <= n < |s| => if outcome != IsQubitEnabledInState(n, q) then zero else s[n])
  }

  /** normalize: every entry rescaled against the whole vector it belongs to. */
  function Normalized<A>(s: seq<A>, rescale: (seq<A>, A) -> A): (r: seq<A>)
    ensures |r| == |s|
  {
    seq(|s|, n requires 0 <= n < |s| => rescale(s, s[n]))
  }

  /** The outcome of measuring qubit q when the cumulative scan stopped at state hit (-1: never). */
  function Outcome(hit: int, q: nat): (v: bool)
    ensures v ==> hit >= 0
    ensures hit >= 0 ==> (v <==> Bit(hit, q))
  {
    if hit < 0 then false else IsQubitEnabledInState(hit, q)
  }

  /**
   * The amplitudes after measuring qubits 0 to n - 1 in order, qubit j with
   * the scan stopped at hits[j]: each step collapses and renormalises.
   */
  function MeasuredStates<A>(s: seq<A>, hits: seq<int>, n: nat, zero: A, rescale: (seq<A>, A) -> A): (r: seq<A>)
    requires n <= |hits|
    ensures |r| == |s|
  {
    if n == 0 then s
    else
      var before := MeasuredStates(s, hits, n - 1, zero, rescale);
      Normalized(Collapse(before, n - 1, Outcome(hits[n - 1], n - 1), zero), rescale)
  }

  /** QubitSystem: the qubit count and the 2^n amplitudes. */
  class QubitSystem<A> {
    var qubitCount: nat
    var states: seq<A>

    ghost predicate Valid()
      reads this
    {
      qubitCount < MaxQubits && |states| == Pow2(qubitCount)
    }

    /** The basis state 0 gets amplitude one, every other state zero. */
    constructor (qubitCount: nat, zero: A, one: A)
      requires qubitCount < MaxQubits
      ensures Valid() && this.qubitCount == qubitCount
      ensures states[0] == one && forall n :: 0 < n < |states| ==> states[n] == zero
    {
      this.qubitCount := qubitCount;
      states := [one] + seq(Pow2(qubitCount) - 1, _ => zero);
    }

    /** cnot: swaps pairs in place, in one pass over the indices. */
    method Cnot(c: nat, t: nat)
      requires Valid() && CnotInRange(qubitCount, c, t)
      modifies this
      ensures Valid() && qubitCount == old(qubitCount)
      ensures states == CnotImage(old(states), qubitCount, c, t)
      ensures multiset(states) == multiset(old(states))
    {
      ghost var s := states;
      var n := 0;
      while n < |states|
        invariant Valid() && qubitCount == old(qubitCount) && 0 <= n <= |states| == |s|
        invariant CnotProgress(s, states, qubitCount, c, t, n)
        invariant multiset(states) == multiset(s)
      {
        CnotAt(s, c, t, n);
        n := n + 1;
      }
      CnotDone(s, states, qubitCount, c, t);
    }

    /** The body of cnot's loop at index n: swaps n with its partner when the control is set and the target clear. */
    method CnotAt(ghost s: seq<A>, c: nat, t: nat, n: nat)
      requires Valid() && CnotInRange(qubitCount, c, t) && |states| == |s| && n < |s|
      requires CnotProgress(s, states, qubitCount, c, t, n)
      modifies this
      ensures Valid() && qubitCount == old(qubitCount) && |states| == |s|
      ensures CnotProgress(s, states, qubitCount, c, t, n + 1)
      ensures multiset(states) == multiset(old(states))
    {
      ghost var before := states;
      CnotStep(s, before, qubitCount, c, t, n);
      if IsQubitEnabledInState(n, c) {
        if !IsQubitEnabledInState(n, t) {
          var n2 := n + Pow2(t);
          var tmp := states[n];
          states := states[n := states[n2]];
          states := states[n2 := tmp];
          assert states == before[n := before[n + Pow2(t)]][n + Pow2(t) := before[n]];
          SwapKeepsMultiset(before, n, n2);
        }
      }
    }

    /** hadamar: rewrites each pair from its two old entries, in one pass over the indices. */
    method Hadamar(q: nat, sum: (A, A) -> A, diff: (A, A) -> A)
      requires Valid() && q < qubitCount
      modifies this
      ensures Valid() && qubitCount == old(qubitCount)
      ensures states == HadamarImage(old(states), qubitCount, q, sum, diff)
    {
      ghost var s := states;
      var n := 0;
      while n < |states|
        invariant Valid() && qubitCount == old(qubitCount) && 0 <= n <= |states| == |s|
        invariant HadamarProgress(s, states, qubitCount, q, sum, diff, n)
      {
        HadamarStep(s, states, qubitCount, q, sum, diff, n);
        if !IsQubitEnabledInState(n, q) {
          var n2 := n + Pow2(q);
          var tmpN, tmpN2 := states[n], states[n2];
          states := states[n := sum(tmpN, tmpN2)];
          states := states[n2 := diff(tmpN, tmpN2)];
        }
        n := n + 1;
      }
      HadamarDone(s, states, qubitCount, q, sum, diff);
    }

    /** phase_shift_pi_over_4: multiplies the entries with bit q set by the phase. */
    method PhaseShift(q: nat, shift: A -> A)
      requires Valid()
      modifies this
      ensures Valid() && qubitCount == old(qubitCount)
      ensures states == PhaseShiftImage(old(states), q, shift)
    {
      ghost var s := states;
      var n := 0;
      while n < |states|
        invariant Valid() && qubitCount == old(qubitCount) && 0 <= n <= |states| == |s|
        invariant forall j :: 0 <= j < n ==> states[j] == PhaseShiftImage(s, q, shift)[j]
        invariant forall j :: n <= j < |s| ==> states[j] == s[j]
      {
        if IsQubitEnabledInState(n, q) {
          states := states[n := shift(states[n])];
        }
        n := n + 1;
      }
    }

    /**
     * measure(q): the cumulative-probability scan (random and floating
     * point) is the parameter hit, the state it stopped at or -1; the
     * outcome is bit q of that state; the other half collapses to zero and
     * the vector is renormalised.
     */
    method Measure(q: nat, hit: int, zero: A, rescale: (seq<A>, A) -> A) returns (v: bool)
      requires Valid() && -1 <= hit < |states|
      modifies this
      ensures Valid() && qubitCount == old(qubitCount)
      ensures v == Outcome(hit, q)
      ensures states == Normalized(Collapse(old(states), q, v, zero), rescale)
    {
      v := hit >= 0 && IsQubitEnabledInState(hit, q);
      ghost var s := states;
      var n := 0;
      while n < |states|
        invariant Valid() && qubitCount == old(qubitCount) && 0 <= n <= |states| == |s|
        invariant forall j :: 0 <= j < n ==> states[j] == Collapse(s, q, v, zero)[j]
        invariant forall j :: n <= j < |s| ==> states[j] == s[j]
      {
        if v != IsQubitEnabledInState(n, q) {
          states := states[n := zero];
        }
        n := n + 1;
      }
      assert states == Collapse(s, q, v, zero);
      Normalize(rescale);
    }

    /** normalize: every entry rescaled against the vector as it stood before the pass. */
    method Normalize(rescale: (seq<A>, A) -> A)
      requires Valid()
      modifies this
      ensures Valid() && qubitCount == old(qubitCount)
      ensures states == Normalized(old(states), rescale)
    {
      ghost var s := states;
      var total := states;
      var n := 0;
      while n < |states|
        invariant Valid() && qubitCount == old(qubitCount) && 0 <= n <= |states| == |s| && total == s
        invariant forall j :: 0 <= j < n ==> states[j] == rescale(s, s[j])
        invariant forall j :: n <= j < |s| ==> states[j] == s[j]
      {
        states := states[n := rescale(total, states[n])];
        n := n + 1;
      }
    }

    /** measure_all: measures qubits 0, 1, ... in order, one result each. */
    method MeasureAll(hits: seq<int>, zero: A, rescale: (seq<A>, A) -> A) returns (measurements: seq<bool>)
      requires Valid() && |hits| == qubitCount
      requires forall n :: 0 <= n < |hits| ==> -1 <= hits[n] < |states|
      modifies this
      ensures Valid() && qubitCount == old(qubitCount)
      ensures |measurements| == qubitCount
      ensures forall n :: 0 <= n < qubitCount ==> measurements[n] == Outcome(hits[n], n)
      ensures states == MeasuredStates(old(states), hits, qubitCount, zero, rescale)
    {
      measurements := [];
      var n := 0;
      while n < qubitCount
        invariant Valid() && qubitCount == old(qubitCount) && 0 <= n <= qubitCount
        invariant states == MeasuredStates(old(states), hits, n, zero, rescale)
        invariant |measurements| == n
        invariant forall j :: 0 <= j < n ==> measurements[j] == Outcome(hits[j], j)
      {
        var measurement := Measure(n, hits[n], zero, rescale);
        measurements := measurements + [measurement];
        n := n + 1;
      }
    }
  }
}
