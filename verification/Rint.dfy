/**
  rint: rounding a double to the nearest integer, ties to even.

  A finite double is a dyadic value with a significand below 2^53; its exponent range, the
  sign of zero and the non-finite values play no part here.  Every operation that the method
  performs on such values is exact (see RoundedIsDouble).
 */
module Rint {
  import opened Bits

  const MAX_EXACT_INTEGER: int := 0x1F_FFFF_FFFF_FFFF

  /** It is 2^53 - 1. */
  lemma MaxExactIs()
    ensures MAX_EXACT_INTEGER == 9007199254740991 && MAX_EXACT_INTEGER == Pow2(53) - 1
  {
    assert Pow2(8) == 256 && Pow2(16) == 256 * Pow2(8) && Pow2(24) == 256 * Pow2(16) && Pow2(32) == 256 * Pow2(24);
    assert Pow2(40) == 256 * Pow2(32) && Pow2(48) == 256 * Pow2(40) && Pow2(53) == 32 * Pow2(48);
  }

  /** modf's integral part. */
  function Trunc(x: real): int {
    if x >= 0.0 then x.Floor else -((-x).Floor)
  }

  /** Rounding to nearest with ties to even, from the floor: sections 4.3.1 and 5.9 of IEEE 754-2008. */
  function RoundHalfEven(x: real): int {
    var n := x.Floor;
    var d := x - n as real;
    if d < 0.5 || (d == 0.5 && n % 2 == 0) then n else n + 1
  }

  /** A tie beyond MAX_EXACT_INTEGER whose lower neighbour is odd: the guard would round it wrongly. */
  predicate GuardBites(x: real) {
    var i := Trunc(x);
    (x - i as real == 0.5 || x - i as real == -0.5) && i % 2 != 0 && (i > MAX_EXACT_INTEGER || i < -MAX_EXACT_INTEGER)
  }

  function BoolAsReal(b: bool): real {
    if b then 1.0 else 0.0
  }

  lemma FloorOfNegated(x: real)
    ensures (-x).Floor == if x.Floor as real == x then -x.Floor else -x.Floor - 1
  {
  }

  method Rint(x: real) returns (i: real)
    ensures i == RoundHalfEven(x) as real <==> !GuardBites(x)
  {
    i := Trunc(x) as real;
    var f := x - i;
    if x > 0.0 {
      i := i + BoolAsReal(f > 0.5 || (f == 0.5 && i <= MAX_EXACT_INTEGER as real && i.Floor % 2 != 0));
    } else {
      FloorOfNegated(x);
      i := i - BoolAsReal(f < -0.5 || (f == -0.5 && i >= -MAX_EXACT_INTEGER as real && i.Floor % 2 != 0));
    }
  }

  /** x is m divided or multiplied by 2^k. */
  ghost predicate IsScaled(x: real, m: int, k: nat) {
    x * Pow2(k) as real == m as real || x == (m * Pow2(k)) as real
  }

  /** A value with a 53-bit significand. */
  ghost predicate IsDouble(x: real) {
    exists m: int, k: nat :: IsScaled(x, m, k) && -9007199254740991 <= m <= 9007199254740991
  }

  lemma MagnitudeOfMultiple(n: int, p: nat)
    requires p > 0
    ensures n >= 0 ==> n * p >= n
    ensures n <= 0 ==> n * p <= n
  {
  }

  /** If 2x is odd and x is m over 2^k, then m is that odd number times a power of two. */
  lemma OddDividesSignificand(x: real, m: int, k: nat, n: int)
    requires x * 2.0 == n as real && n % 2 != 0
    requires x * Pow2(k) as real == m as real
    ensures k > 0 && m == n * Pow2(k - 1)
  {
    assert k == 0 ==> n == 2 * m;
    var p := Pow2(k - 1) as real;
    assert Pow2(k) as real == 2.0 * p;
    assert x * (2.0 * p) == (x * 2.0) * p;
    assert (n * Pow2(k - 1)) as real == n as real * p;
  }

  lemma TieIsNoInteger(x: real, n: int, y: int)
    requires x * 2.0 == n as real && n % 2 != 0
    ensures x != y as real
  {
    assert x == y as real ==> n == 2 * y;
  }

  lemma ScaledTieIsSmall(x: real, m: int, k: nat, n: int)
    requires IsScaled(x, m, k) && -MAX_EXACT_INTEGER <= m <= MAX_EXACT_INTEGER
    requires x * 2.0 == n as real && n % 2 != 0
    ensures -MAX_EXACT_INTEGER <= n <= MAX_EXACT_INTEGER
  {
    TieIsNoInteger(x, n, m * Pow2(k));
    OddDividesSignificand(x, m, k, n);
    MagnitudeOfMultiple(n, Pow2(k - 1));
  }

  /** A double that is a tie is small: its double is an odd integer below 2^53. */
  lemma TiesAreSmall(x: real, n: int)
    requires IsDouble(x) && x * 2.0 == n as real && n % 2 != 0
    ensures -MAX_EXACT_INTEGER <= n <= MAX_EXACT_INTEGER
  {
    var m: int, k: nat :| IsScaled(x, m, k) && -MAX_EXACT_INTEGER <= m <= MAX_EXACT_INTEGER;
    ScaledTieIsSmall(x, m, k, n);
  }

  /** On doubles the guard changes nothing, so rint always rounds half to even. */
  lemma GuardNeverBites(x: real)
    requires IsDouble(x)
    ensures !GuardBites(x)
  {
    if GuardBites(x) {
      var i := Trunc(x);
      var n := if x - i as real == 0.5 then 2 * i + 1 else 2 * i - 1;
      TiesAreSmall(x, n);
    }
  }

  /** Halving and doubling keep a significand of at most 53 bits. */
  lemma ScaledIsDouble(m: int, k: nat)
    requires -9007199254740991 <= m <= 9007199254740991
    ensures IsDouble((m * Pow2(k)) as real) && IsDouble(m as real / Pow2(k) as real)
  {
    assert IsScaled((m * Pow2(k)) as real, m, k);
    assert IsScaled(m as real / Pow2(k) as real, m, k);
  }

  /** Among all reals there are such ties: a half above any odd integer beyond the bound. */
  lemma GuardBitesBeyond(i: int)
    requires i > 9007199254740991 && i % 2 != 0
    ensures GuardBites(i as real + 0.5) && !IsDouble(i as real + 0.5)
  {
    var x := i as real + 0.5;
    assert Trunc(x) == i;
    if IsDouble(x) { GuardNeverBites(x); }
  }

  ghost predicate OddTieBeyond(x: real, i: int) {
    i > 9007199254740991 && i % 2 != 0 && (x == i as real + 0.5 || x == -(i as real + 0.5))
  }

  /** They are all of them, with their negatives. */
  lemma GuardBitesIff(x: real)
    ensures GuardBites(x) <==> exists i: int :: OddTieBeyond(x, i)
  {
    var t := Trunc(x);
    if GuardBites(x) {
      assert OddTieBeyond(x, if t > 0 then t else -t);
    }
    if i: int :| OddTieBeyond(x, i) {
      assert t == if x > 0.0 then i else -i;
    }
  }

  /** The result is the one integer within a half of x that is even when two are. */
  lemma RoundsToNearestEven(x: real, r: int)
    ensures r == RoundHalfEven(x) <==>
              (-0.5 <= r as real - x <= 0.5 && ((r as real - x == 0.5 || r as real - x == -0.5) ==> r % 2 == 0))
  {
    var n := x.Floor;
    if -0.5 <= r as real - x <= 0.5 { assert r == n || r == n + 1; }
  }

  lemma RoundIsOdd(x: real)
    ensures RoundHalfEven(-x) == -RoundHalfEven(x)
  {
    RoundsToNearestEven(-x, -RoundHalfEven(x));
    RoundsToNearestEven(x, RoundHalfEven(x));
  }

  lemma RoundIsMonotone(x: real, y: real)
    requires x <= y
    ensures RoundHalfEven(x) <= RoundHalfEven(y)
  {
    RoundsToNearestEven(x, RoundHalfEven(x));
    RoundsToNearestEven(y, RoundHalfEven(y));
    assert RoundHalfEven(x) > RoundHalfEven(y) ==> x == y;
  }

  lemma IntegersAreFixed(n: int)
    ensures RoundHalfEven(n as real) == n
  {
    RoundsToNearestEven(n as real, n);
  }

  lemma ProductSign(a: real, b: real)
    requires b >= 0.0
    ensures a >= 0.0 ==> a * b >= 0.0
  {
  }

  lemma HalvingBound(x: real, m: int, k: nat)
    requires x * Pow2(k) as real == m as real && k > 0
    ensures x >= 0.0 ==> 2.0 * x <= m as real
    ensures x <= 0.0 ==> m as real <= 2.0 * x
  {
    var p := Pow2(k) as real;
    assert p >= 2.0;
    ProductSign(x, p - 2.0);
    ProductSign(-x, p - 2.0);
    assert x * (p - 2.0) == m as real - 2.0 * x;
    assert (-x) * (p - 2.0) == 2.0 * x - m as real;
  }

  lemma SmallIntegerIsDouble(r: int)
    requires -MAX_EXACT_INTEGER <= r <= MAX_EXACT_INTEGER
    ensures IsDouble(r as real)
  {
    assert IsScaled(r as real, r, 0);
  }

  lemma RoundedSignificand(x: real, m: int, k: nat)
    requires x * Pow2(k) as real == m as real && -MAX_EXACT_INTEGER <= m <= MAX_EXACT_INTEGER
    ensures IsDouble(RoundHalfEven(x) as real)
  {
    var r := RoundHalfEven(x);
    if k == 0 {
      assert x == m as real;
      IntegersAreFixed(m);
    } else {
      HalvingBound(x, m, k);
      RoundsToNearestEven(x, r);
    }
    SmallIntegerIsDouble(r);
  }

  /** Rounding a double gives a double: the sums in rint are exact. */
  lemma RoundedIsDouble(x: real)
    requires IsDouble(x)
    ensures IsDouble(RoundHalfEven(x) as real)
  {
    var m: int, k: nat :| IsScaled(x, m, k) && -MAX_EXACT_INTEGER <= m <= MAX_EXACT_INTEGER;
    if x * Pow2(k) as real == m as real {
      RoundedSignificand(x, m, k);
    } else {
      IntegersAreFixed(m * Pow2(k));
    }
  }
}
