/** Integer division of C++ and the division helpers built on it. */
module Integers {

  const INT32_MIN: int := -0x8000_0000
  const INT32_MAX: int := 0x7FFF_FFFF

  predicate InInt32(x: int) {
    INT32_MIN <= x <= INT32_MAX
  }

  function Abs(x: int): int {
    if x < 0 then -x else x
  }

  /** `/` and `%` of C++: the quotient is rounded toward zero, which for a dividend that is not negative is
      the Euclidean quotient. */
  function TruncDiv(a: int, b: int): int
    requires b != 0
  {
    if a >= 0 then a / b else -(-a / b)
  }

  function TruncMod(a: int, b: int): int
    requires b != 0
  {
    a - TruncDiv(a, b) * b
  }

  /** `math_util::div`. */
  function Div(a: int, b: int): int
    requires b != 0
  {
    if a >= 0 then TruncDiv(a, b)
    else if b >= 0 then TruncDiv(a + 1, b) - 1
    else TruncDiv(a + 1, b) + 1
  }

  /** `math::floorDiv` and `math::floorMod`. */
  function FloorDiv(x: int, y: int): int
    requires y != 0
  {
    var r := TruncDiv(x, y);
    if (x < 0) != (y < 0) && r * y != x then r - 1 else r
  }

  function FloorMod(x: int, y: int): int
    requires y != 0
  {
    x - FloorDiv(x, y) * y
  }

  lemma ProductOfNaturals(a: int, b: int)
    requires a >= 0 && b >= 0
    ensures a * b >= 0
  {
  }

  lemma SmallMultipleIsZero(k: int, d: int)
    requires d > 0 && -d < k * d < d
    ensures k == 0
  {
  }

  /** Quotient and remainder are determined by the range of the remainder. */
  lemma EuclideanIsUnique(a: int, b: int, q: int, r: int)
    requires b != 0 && a == q * b + r && 0 <= r < Abs(b)
    ensures a / b == q && a % b == r
  {
    var q', r' := a / b, a % b;
    assert a == q' * b + r' && 0 <= r' < Abs(b);
    if b > 0 {
      assert (q - q') * b == q * b - q' * b;
      SmallMultipleIsZero(q - q', b);
    } else {
      assert (q' - q) * -b == q * b - q' * b;
      SmallMultipleIsZero(q' - q, -b);
    }
  }

  lemma CongruentIfQuotient(a: int, b: int, d: int, k: int)
    requires d > 0 && a == b + k * d
    ensures a % d == b % d
  {
    var q, r := b / d, b % d;
    assert b == q * d + r;
    assert (q + k) * d == q * d + k * d;
    EuclideanIsUnique(a, d, q + k, r);
  }

  /** Adding the same number on both sides neither makes nor breaks a congruence. */
  lemma CongruentSums(a: int, b: int, c: int, d: int)
    requires d > 0
    ensures (a + c) % d == (b + c) % d <==> a % d == b % d
  {
    assert a == a / d * d + a % d && b == b / d * d + b % d;
    assert a + c == (a + c) / d * d + (a + c) % d && b + c == (b + c) / d * d + (b + c) % d;
    if a % d == b % d {
      assert (a / d - b / d) * d == a / d * d - b / d * d;
      CongruentIfQuotient(a + c, b + c, d, a / d - b / d);
    }
    if (a + c) % d == (b + c) % d {
      assert ((a + c) / d - (b + c) / d) * d == (a + c) / d * d - (b + c) / d * d;
      CongruentIfQuotient(a, b, d, (a + c) / d - (b + c) / d);
    }
  }

  /** Passing from n - 1 to n, the quotient goes up by one exactly at the multiples. */
  lemma QuotientSteps(n: int, d: int)
    requires d > 0
    ensures n / d - (n - 1) / d == if n % d == 0 then 1 else 0
  {
    var q, r := n / d, n % d;
    assert n == q * d + r;
    if r == 0 {
      assert (q - 1) * d == q * d - d;
      EuclideanIsUnique(n - 1, d, q - 1, d - 1);
    } else {
      EuclideanIsUnique(n - 1, d, q, r - 1);
    }
  }

  /** The number-theoretic quotient, whose remainder is never negative, for every combination of signs. */
  lemma DivIsEuclidean(a: int, b: int)
    requires b != 0
    ensures Div(a, b) == a / b
  {
    if a < 0 {
      var n := -(a + 1);
      var q, r := n / b, n % b;
      assert n == q * b + r;
      if n == 0 { EuclideanIsUnique(0, b, 0, 0); }
      if b > 0 {
        assert (-q - 1) * b == -(q * b) - b;
        EuclideanIsUnique(a, b, -q - 1, b - 1 - r);
      } else {
        assert (-q + 1) * b == -(q * b) + b;
        EuclideanIsUnique(a, b, -q + 1, -b - 1 - r);
      }
    }
  }

  /** The floor pair: it rebuilds the dividend, and the remainder has the sign of the divisor. */
  lemma FloorPair(x: int, y: int)
    requires y != 0
    ensures x == FloorDiv(x, y) * y + FloorMod(x, y)
    ensures if y > 0 then 0 <= FloorMod(x, y) < y else y < FloorMod(x, y) <= 0
  {
    TruncRemainder(x, y);
    var t := TruncDiv(x, y);
    assert (t - 1) * y == t * y - y;
  }

  /** What truncation leaves over is smaller than the divisor and has the sign of the dividend. */
  lemma TruncRemainder(x: int, y: int)
    requires y != 0
    ensures var m := x - TruncDiv(x, y) * y;
            -Abs(y) < m < Abs(y) && (x >= 0 ==> m >= 0) && (x < 0 ==> m <= 0)
  {
  }

  /** For a positive divisor the floor quotient is the Euclidean one. */
  lemma FloorDivByPositive(x: int, y: int)
    requires y > 0
    ensures FloorDiv(x, y) == x / y && FloorMod(x, y) == x % y
  {
    FloorPair(x, y);
    EuclideanIsUnique(x, y, FloorDiv(x, y), FloorMod(x, y));
  }

  // ---------------------------------------------------------------- splitting times

  const NANOS_IN_MILLIS: int := 1_000_000
  const SECOND: int := 1000

  function NanosFromMillisAndNanoPart(millis: int, nanoPart: int): int {
    millis * NANOS_IN_MILLIS + nanoPart
  }

  function MillisFromNanos(nanos: int): int {
    FloorDiv(nanos, NANOS_IN_MILLIS)
  }

  function NanoPartFromNanos(nanos: int): int {
    FloorMod(nanos, NANOS_IN_MILLIS)
  }

  /** Splitting a timestamp, before or after the epoch, and putting it together are inverse to each other. */
  lemma NanosSplitAndJoin(nanos: int, millis: int, nanoPart: int)
    ensures 0 <= NanoPartFromNanos(nanos) <= 999_999
    ensures NanosFromMillisAndNanoPart(MillisFromNanos(nanos), NanoPartFromNanos(nanos)) == nanos
    ensures 0 <= nanoPart <= 999_999 ==>
              var joined := NanosFromMillisAndNanoPart(millis, nanoPart);
              MillisFromNanos(joined) == millis && NanoPartFromNanos(joined) == nanoPart
  {
  }

  /** `getSecondsFromTime`. */
  function SecondsFromTime(millis: int): int {
    if millis >= 0 then
      var q := TruncDiv(millis, SECOND);
      if q < INT32_MAX then q else INT32_MAX
    else
      var q := TruncDiv(millis + 1, SECOND) - 1;
      if q > INT32_MIN then q else INT32_MIN
  }

  /** The seconds are the floor of the time, clamped to 32 bits. */
  lemma SecondsAreClampedFloor(millis: int)
    ensures -2_147_483_648 <= millis / 1000 <= 2_147_483_647 ==> SecondsFromTime(millis) == millis / 1000
    ensures millis / 1000 > 2_147_483_647 ==> SecondsFromTime(millis) == 2_147_483_647
    ensures millis / 1000 < -2_147_483_648 ==> SecondsFromTime(millis) == -2_147_483_648
  {
  }
}
