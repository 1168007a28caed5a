/** The power-of-two arithmetic that internal/merkle/merkle.go takes from Go's
    shift operators and from the package math/bits.  Sizes are unbounded here;
    the source keeps them below 2^63. */
module BitArith {

  /** 1 << e */
  function Pow2(e: nat): (p: nat)
    ensures p >= 1
  {
    if e == 0 then 1 else 2 * Pow2(e - 1)
  }

  /** bits.Len(x): the number of bits needed to write x. */
  function BitLen(x: nat): nat {
    if x == 0 then 0 else 1 + BitLen(x / 2)
  }

  /** bits.TrailingZeros64(n), for n > 0. */
  function TrailingZeros(n: nat): nat
    requires n > 0
  {
    if n % 2 == 1 then 0 else 1 + TrailingZeros(n / 2)
  }

  /** a & b on non-negative integers, bit by bit. */
  function BitAnd(a: nat, b: nat): nat {
    if a == 0 || b == 0 then 0
    else 2 * BitAnd(a / 2, b / 2) + (if a % 2 == 1 && b % 2 == 1 then 1 else 0)
  }

  /** x >> s */
  function ShiftRight(x: nat, s: nat): nat {
    DivIsNat(x, Pow2(s));
    x / Pow2(s)
  }

  lemma DivIsNat(x: nat, d: nat)
    requires d > 0
    ensures x / d >= 0
  {
    var q := x / d;
    assert q <= -1 ==> q * d + d <= 0;
  }

  ghost predicate IsPow2(n: nat) {
    exists e: nat :: n == Pow2(e)
  }

  lemma Pow2Zero()
    ensures Pow2(0) == 1
  {
  }

  lemma Pow2Succ(e: nat)
    ensures Pow2(e + 1) == 2 * Pow2(e)
  {
  }

  lemma Pow2Times256(e: nat)
    ensures Pow2(e + 8) == 256 * Pow2(e)
  {
    assert Pow2(e + 4) == 2 * Pow2(e + 3) == 4 * Pow2(e + 2) == 8 * Pow2(e + 1) == 16 * Pow2(e);
    assert Pow2(e + 8) == 2 * Pow2(e + 7) == 4 * Pow2(e + 6) == 8 * Pow2(e + 5) == 16 * Pow2(e + 4);
  }

  lemma {:induction false} Pow2Monotone(a: nat, b: nat)
    requires a <= b
    ensures Pow2(a) <= Pow2(b)
    decreases b
  {
    if a < b {
      Pow2Monotone(a, b - 1);
    }
  }

  lemma Pow2StrictlyMonotone(a: nat, b: nat)
    requires a < b
    ensures 2 * Pow2(a) <= Pow2(b)
  {
    Pow2Monotone(a + 1, b);
  }

  lemma {:induction false} BitLenBounds(x: nat)
    requires x > 0
    ensures BitLen(x) >= 1
    ensures Pow2(BitLen(x) - 1) <= x < Pow2(BitLen(x))
  {
    if x == 1 {
      assert BitLen(1) == 1;
    } else {
      BitLenBounds(x / 2);
      var b := BitLen(x / 2);
      assert Pow2(b + 1) == 2 * Pow2(b);
      assert Pow2(b) == 2 * Pow2(b - 1);
    }
  }

  /** The bit length is the only exponent that brackets x. */
  lemma BitLenUnique(x: nat, e: nat)
    requires Pow2(e) <= x < Pow2(e + 1)
    ensures BitLen(x) == e + 1
  {
    BitLenBounds(x);
    var b := BitLen(x) - 1;
    if b < e {
      Pow2Monotone(b + 1, e);
    } else if e < b {
      Pow2Monotone(e + 1, b);
    }
  }

  /** splitPoint: the largest power of two smaller than n. */
  function SplitPoint(n: nat): (k: nat)
    requires n >= 2
    ensures 1 <= k < n <= 2 * k
  {
    BitLenBounds(n - 1);
    Pow2(BitLen(n - 1) - 1)
  }

  lemma SplitPointIsPow2(n: nat) returns (e: nat)
    requires n >= 2
    ensures SplitPoint(n) == Pow2(e) && e == BitLen(n - 1) - 1
  {
    BitLenBounds(n - 1);
    e := BitLen(n - 1) - 1;
  }

  /** Any power of two with k < n <= 2k is the split point. */
  lemma SplitPointUnique(n: nat, e: nat)
    requires Pow2(e) < n <= 2 * Pow2(e)
    ensures n >= 2 && SplitPoint(n) == Pow2(e)
  {
    BitLenUnique(n - 1, e);
  }

  /** A larger tree whose split point is passed has the same split point. */
  lemma SplitPointShared(m: nat, n: nat)
    requires n >= 2 && SplitPoint(n) < m <= n
    ensures m >= 2 && SplitPoint(m) == SplitPoint(n)
  {
    var e := SplitPointIsPow2(n);
    SplitPointUnique(m, e);
  }

  /** BitCeil: the smallest power of two that is at least n. */
  function BitCeil(n: nat): (c: nat)
    ensures n <= c && c >= 1
    ensures n >= 2 ==> c < 2 * n
  {
    if n <= 1 then 1
    else
      BitLenBounds(n - 1);
      Pow2(BitLen(n - 1))
  }

  /** ceil(log2 n), the height of a tree with n leaves. */
  function Log2Ceil(n: nat): (d: nat)
    requires n >= 1
  {
    BitLen(n - 1)
  }

  lemma Log2CeilIsLeast(n: nat, e: nat)
    requires n >= 1
    ensures n <= Pow2(Log2Ceil(n))
    ensures n <= Pow2(e) <==> Log2Ceil(n) <= e
  {
    if n > 1 {
      BitLenBounds(n - 1);
      var d := Log2Ceil(n);
      if d <= e {
        Pow2Monotone(d, e);
      } else {
        Pow2Monotone(e, d - 1);
      }
    }
  }

  /** BitCeil of an exact power of two, and of anything wider than half of it. */
  lemma BitCeilUnique(n: nat, e: nat)
    requires n >= 1 && n <= Pow2(e) && (e > 0 ==> Pow2(e - 1) < n)
    ensures BitCeil(n) == Pow2(e)
  {
    if n > 1 {
      BitLenUnique(n - 1, e - 1);
    }
  }

  lemma BitAndSelf(a: nat)
    ensures BitAnd(a, a) == a
  {
  }

  /** n & (n-1) == 0 is the power-of-two test of subtreeHashFromNodes. */
  lemma {:induction false} PowerOfTwoTest(n: nat)
    requires n >= 1
    ensures BitAnd(n, n - 1) == 0 <==> n == Pow2(TrailingZeros(n))
  {
    if n == 1 {
    } else if n % 2 == 1 {
      assert (n - 1) / 2 == n / 2;
      BitAndSelf(n / 2);
    } else {
      assert (n - 1) / 2 == n / 2 - 1;
      PowerOfTwoTest(n / 2);
    }
  }

  lemma {:induction false} TrailingZerosOfPow2(e: nat)
    ensures TrailingZeros(Pow2(e)) == e
  {
    if e > 0 {
      TrailingZerosOfPow2(e - 1);
    }
  }

  /** Powers of two divide each other: the larger as a multiple of the smaller. */
  lemma {:induction false} Pow2Divides(a: nat, b: nat) returns (q: nat)
    requires a <= b
    ensures Pow2(b) == q * Pow2(a)
    decreases b
  {
    if a == b {
      q := 1;
    } else {
      var q' := Pow2Divides(a, b - 1);
      q := 2 * q';
    }
  }

  lemma MultipleModZero(q: nat, d: nat)
    requires d > 0
    ensures (q * d) % d == 0 && (q * d) / d == q
  {
    DivModUnique(q * d, d, q, 0);
  }

  lemma DivModUnique(x: int, d: int, q: int, r: int)
    requires d > 0 && x == q * d + r && 0 <= r < d
    ensures x / d == q && x % d == r
  {
    var delta := q - x / d;
    assert delta * d == x % d - r;
    assert delta >= 1 ==> delta * d >= d;
    assert delta <= -1 ==> delta * d <= -d;
  }

  /** Alignment to a power of two is alignment to every smaller one. */
  lemma AlignedToSmaller(x: nat, a: nat, b: nat)
    requires a <= b && x % Pow2(b) == 0
    ensures x % Pow2(a) == 0
  {
    var q := Pow2Divides(a, b);
    var t := x / Pow2(b);
    assert x == t * Pow2(b);
    assert x == (t * q) * Pow2(a);
    MultipleModZero(t * q, Pow2(a));
  }

  lemma AlignedSum(x: nat, y: nat, d: nat)
    requires d > 0 && x % d == 0 && y % d == 0
    ensures (x + y) % d == 0
  {
    var p, q := x / d, y / d;
    assert x + y == (p + q) * d;
    MultipleModZero(p + q, d);
  }
}
