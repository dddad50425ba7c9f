/**
 * Integer helpers of the standard library layer: the inclusive range test,
 * the power-of-two test written with a bitwise AND, and the doubling loop
 * that rounds up to a power of two.
 *
 * Unsigned bitwise AND is modelled on natural numbers by `BitAnd`, bit by bit.
 */
module BasicMath {

  /** in_range(v, min_v, max_v): inclusive on both ends. */
  function InRange(v: int, minV: int, maxV: int): (r: bool)
    ensures r <==> minV <= v && v <= maxV
  {
    if v < minV then false
    else if v > maxV then false
    else true
  }

  function Min(a: int, b: int): int { if a <= b then a else b }
  function Max(a: int, b: int): int { if a >= b then a else b }

  function Pow2(k: nat): (r: nat)
    ensures r >= 1
  {
    if k == 0 then 1 else 2 * Pow2(k - 1)
  }

  /** x is 1, 2, 4, 8, ... (defined by halving, so that it can be computed). */
  predicate IsPow2(x: nat)
    decreases x
  {
    x == 1 || (x > 1 && x % 2 == 0 && IsPow2(x / 2))
  }

  lemma {:induction false} Pow2IsPow2(k: nat)
    ensures IsPow2(Pow2(k))
  {
    if k > 0 {
      Pow2IsPow2(k - 1);
      assert Pow2(k) / 2 == Pow2(k - 1);
    }
  }

  /** Every power of two is Pow2 of its exponent. */
  lemma {:induction false} IsPow2HasLog(x: nat) returns (k: nat)
    requires IsPow2(x)
    ensures Pow2(k) == x
    decreases x
  {
    if x == 1 {
      k := 0;
    } else {
      var j := IsPow2HasLog(x / 2);
      k := j + 1;
    }
  }

  /** Unsigned bitwise AND of two non-negative integers, bit by bit. */
  function BitAnd(a: nat, b: nat): nat
    decreases a
  {
    if a == 0 || b == 0 then 0 else 2 * BitAnd(a / 2, b / 2) + (a % 2) * (b % 2)
  }

  /** Bit i of n (bit 0 is the least significant). */
  predicate Bit(n: nat, i: nat)
    decreases i
  {
    if i == 0 then n % 2 == 1 else Bit(n / 2, i - 1)
  }

  lemma {:induction false} BitAndSelf(a: nat)
    ensures BitAnd(a, a) == a
    decreases a
  {
    if a != 0 {
      BitAndSelf(a / 2);
    }
  }

  /** is_power_of_two(x) on an unsigned value: !(x == 0) && !(x & (x - 1)). */
  predicate IsPowerOfTwo(x: nat)
  {
    x != 0 && BitAnd(x, x - 1) == 0
  }

  /** The bit trick holds exactly of the powers of two. */
  lemma {:induction false} IsPowerOfTwoCorrect(x: nat)
    ensures IsPowerOfTwo(x) <==> IsPow2(x)
    decreases x
  {
    if x > 1 {
      if x % 2 == 1 {
        OddMask(x);
      } else {
        EvenMask(x);
        IsPowerOfTwoCorrect(x / 2);
      }
    }
  }

  /** For odd x > 1, x - 1 only clears the lowest bit, so x & (x - 1) == x - 1. */
  lemma OddMask(x: nat)
    requires x > 1 && x % 2 == 1
    ensures BitAnd(x, x - 1) == x - 1
  {
    var h := x / 2;
    assert (x - 1) / 2 == h && (x - 1) % 2 == 0;
    BitAndSelf(h);
    assert (x % 2) * ((x - 1) % 2) == 0;
  }

  /** For even x > 1, the lowest bit of x & (x - 1) is clear and the rest is (x / 2) & (x / 2 - 1). */
  lemma EvenMask(x: nat)
    requires x > 1 && x % 2 == 0
    ensures BitAnd(x, x - 1) == 2 * BitAnd(x / 2, x / 2 - 1)
  {
    assert (x - 1) / 2 == x / 2 - 1;
    assert (x % 2) * ((x - 1) % 2) == 0;
  }

  /** The mask 1 << i ANDed with n is non-zero exactly when bit i of n is set. */
  lemma {:induction false} MaskAndBit(n: nat, i: nat)
    ensures BitAnd(Pow2(i), n) != 0 <==> Bit(n, i)
    decreases i
  {
    if i > 0 {
      MaskAndBit(n / 2, i - 1);
      assert Pow2(i) / 2 == Pow2(i - 1) && Pow2(i) % 2 == 0;
    }
  }

  lemma {:induction false} Pow2Monotone(j: nat, k: nat)
    requires j <= k
    ensures Pow2(j) <= Pow2(k)
    decreases k
  {
    if j < k {
      Pow2Monotone(j, k - 1);
    }
  }

  lemma DoubleIsPow2(p: nat)
    requires IsPow2(p)
    ensures IsPow2(2 * p)
  {
    assert (2 * p) / 2 == p;
  }

  /** Of two powers of two, the smaller one fits twice into the larger. */
  lemma {:induction false} Pow2DoubleLe(p: nat, q: nat)
    requires IsPow2(p) && IsPow2(q) && p < q
    ensures 2 * p <= q
    decreases q
  {
    if p > 1 {
      Pow2DoubleLe(p / 2, q / 2);
    }
  }

  /**
   * The smallest power of two that is >= x (1 for x <= 1): the value the
   * doubling loop of upper_power_of_two stops at.
   */
  function UpperPow2(x: nat): (r: nat)
    ensures IsPow2(r) && r >= x
    ensures x <= 1 ==> r == 1
    ensures x >= 1 ==> r < 2 * x
    decreases x
  {
    if x <= 1 then 1 else 2 * UpperPow2((x + 1) / 2)
  }

  /** UpperPow2(x) is the least power of two that is at least x. */
  lemma {:induction false} UpperPow2Least(x: nat, p: nat)
    requires IsPow2(p) && p >= x
    ensures p >= UpperPow2(x)
    decreases x
  {
    if x > 1 {
      assert p > 1 && p % 2 == 0 && IsPow2(p / 2);
      UpperPow2Least((x + 1) / 2, p / 2);
    }
  }

  /** A power of two is its own upper power of two. */
  lemma UpperPow2OfPow2(x: nat)
    requires IsPow2(x)
    ensures UpperPow2(x) == x
  {
    UpperPow2Least(x, x);
  }

  /** Rounding up twice is rounding up once. */
  lemma UpperPow2Idempotent(x: nat)
    ensures UpperPow2(UpperPow2(x)) == UpperPow2(x)
  {
    UpperPow2OfPow2(UpperPow2(x));
  }

  /** 2^30, the largest power of two a signed 32-bit int holds. */
  const MaxUpperPowerInput: nat := 0x4000_0000
  const MaxInt32: nat := 0x7FFF_FFFF

  /**
   * upper_power_of_two: doubles a signed int from 1 until it reaches x. The
   * doubling stays within a signed 32-bit int only while x <= 2^30.
   */
  method UpperPowerOfTwo(x: nat) returns (power: nat)
    requires x <= MaxUpperPowerInput
    ensures power == UpperPow2(x)
  {
    power := 1;
    while power < x
      invariant IsPow2(power) && power <= UpperPow2(x)
      decreases x - power
    {
      var bound := UpperPow2(x);
      assert power < bound;
      Pow2DoubleLe(power, bound);
      assert power * 2 <= bound < 2 * x;
      DoubleIsPow2(power);
      power := power * 2;
    }
    UpperPow2Least(x, power);
  }
}
