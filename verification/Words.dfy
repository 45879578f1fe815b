/** Machine words: bits, least significant first, and the numbers they stand for. */
module Words {
  import opened Integers

  type Word = seq<bool>

  // ---------------------------------------------------------------- bitwise operations

  function Zeros(width: nat): Word {
    seq(width, _ => false)
  }

  function And(a: Word, b: Word): Word
    requires |a| == |b|
  {
    seq(|a|, i requires 0 <= i < |a| => a[i] && b[i])
  }

  function Or(a: Word, b: Word): Word
    requires |a| == |b|
  {
    seq(|a|, i requires 0 <= i < |a| => a[i] || b[i])
  }

  function Xor(a: Word, b: Word): Word
    requires |a| == |b|
  {
    seq(|a|, i requires 0 <= i < |a| => a[i] != b[i])
  }

  function Not(a: Word): Word {
    seq(|a|, i requires 0 <= i < |a| => !a[i])
  }

  function ShiftLeft(a: Word, n: nat): Word {
    seq(|a|, i requires 0 <= i < |a| => i >= n && a[i - n])
  }

  function ShiftRight(a: Word, n: nat): Word {
    seq(|a|, i requires 0 <= i < |a| => i + n < |a| && a[i + n])
  }

  /** Conversion to a wider or narrower unsigned type. */
  function Resize(a: Word, width: nat): Word {
    seq(width, i requires 0 <= i < width => i < |a| && a[i])
  }

  // ---------------------------------------------------------------- numbers

  function Pow2(n: nat): (p: int)
    ensures p > 0
  {
    if n == 0 then 1 else 2 * Pow2(n - 1)
  }

  lemma {:induction false} Pow2Adds(m: nat, n: nat)
    ensures Pow2(m + n) == Pow2(m) * Pow2(n)
    decreases m
  {
    if m > 0 {
      Pow2Adds(m - 1, n);
      assert Pow2(m + n) == 2 * Pow2(m - 1 + n);
      assert 2 * (Pow2(m - 1) * Pow2(n)) == 2 * Pow2(m - 1) * Pow2(n);
    }
  }

  function ToNat(a: Word): nat {
    if a == [] then 0 else (if a[0] then 1 else 0) + 2 * ToNat(a[1..])
  }

  function FromNat(x: nat, width: nat): Word {
    if width == 0 then [] else [x % 2 == 1] + FromNat(x / 2, width - 1)
  }

  /** Words of a width and the numbers below its power of two are in bijection. */
  lemma {:induction false} WordIsNumber(a: Word)
    ensures ToNat(a) < Pow2(|a|)
    ensures FromNat(ToNat(a), |a|) == a
  {
    if a != [] {
      WordIsNumber(a[1..]);
      assert ToNat(a) / 2 == ToNat(a[1..]);
      assert a == [a[0]] + a[1..];
    }
  }

  lemma {:induction false} NumberIsWord(x: nat, width: nat)
    requires x < Pow2(width)
    ensures |FromNat(x, width)| == width
    ensures ToNat(FromNat(x, width)) == x
    decreases width
  {
    if width > 0 {
      NumberIsWord(x / 2, width - 1);
      assert FromNat(x, width)[1..] == FromNat(x / 2, width - 1);
    }
  }

  // ---------------------------------------------------------------- shifts in numbers

  lemma {:induction false} HighZeroCountsNothing(a: Word)
    ensures ToNat(a + [false]) == ToNat(a)
  {
    if a == [] {
      assert [false][1..] == [];
    } else {
      assert (a + [false])[1..] == a[1..] + [false];
      HighZeroCountsNothing(a[1..]);
    }
  }

  lemma {:induction false} HighBitCounts(a: Word)
    requires a != []
    ensures var n := |a| - 1;
            ToNat(a) == ToNat(a[..n]) + if a[n] then Pow2(n) else 0
  {
    var n := |a| - 1;
    if n == 0 {
      assert a[..0] == [] && a[1..] == [];
    } else {
      assert a[..n][1..] == a[1..][..n - 1];
      HighBitCounts(a[1..]);
    }
  }

  lemma HalfOfQuotient(x: nat, p: nat)
    requires p > 0
    ensures x / 2 / p == x / (2 * p)
  {
    var h, q := x / 2, x / 2 / p;
    assert h == q * p + h % p;
    assert x == 2 * h + x % 2;
    assert q * (2 * p) == 2 * (q * p);
    EuclideanIsUnique(x, 2 * p, q, 2 * (h % p) + x % 2);
  }

  /** A right shift divides by the power of two. */
  lemma {:induction false} ShiftRightDivides(a: Word, n: nat)
    ensures ToNat(ShiftRight(a, n)) == ToNat(a) / Pow2(n)
    decreases n
  {
    if n == 0 {
      assert ShiftRight(a, 0) == a;
    } else if a == [] {
      assert ShiftRight(a, n) == [];
      EuclideanIsUnique(0, Pow2(n), 0, 0);
    } else {
      assert ShiftRight(a, n) == ShiftRight(a[1..], n - 1) + [false];
      HighZeroCountsNothing(ShiftRight(a[1..], n - 1));
      ShiftRightDivides(a[1..], n - 1);
      assert ToNat(a) / 2 == ToNat(a[1..]);
      HalfOfQuotient(ToNat(a), Pow2(n - 1));
    }
  }

  lemma DoubledRemainder(y: nat, p: nat, k: nat)
    requires p > 0
    ensures (2 * y + k * (2 * p)) % (2 * p) == 2 * (y % p)
  {
    var q := y / p;
    assert y == q * p + y % p;
    assert (q + k) * (2 * p) == 2 * (q * p) + k * (2 * p);
    EuclideanIsUnique(2 * y + k * (2 * p), 2 * p, q + k, 2 * (y % p));
  }

  lemma ShiftedRemainder(low: nat, bit: bool, p: nat, size: nat)
    requires size > 0
    ensures (low + if bit then size else 0) * (2 * p) % (2 * size) == 2 * (low * p % size)
  {
    assert low * (2 * p) == 2 * (low * p);
    assert (low + size) * (2 * p) == low * (2 * p) + size * (2 * p);
    assert size * (2 * p) == p * (2 * size);
    DoubledRemainder(low * p, size, if bit then p else 0);
  }

  /** Shifting left puts a zero below all but the highest bits. */
  lemma ShiftLeftUnfolds(a: Word, n: nat)
    requires n > 0 && a != []
    ensures ToNat(ShiftLeft(a, n)) == 2 * ToNat(ShiftLeft(a[..|a| - 1], n - 1))
  {
    var rest := ShiftLeft(a[..|a| - 1], n - 1);
    assert ShiftLeft(a, n) == [false] + rest;
    assert ([false] + rest)[1..] == rest;
  }

  /** A left shift multiplies by the power of two and keeps the bits that the width has room for. */
  lemma {:induction false} ShiftLeftMultiplies(a: Word, n: nat)
    ensures ToNat(ShiftLeft(a, n)) == ToNat(a) * Pow2(n) % Pow2(|a|)
    decreases n
  {
    if n == 0 {
      WordIsNumber(a);
      assert ShiftLeft(a, 0) == a;
      EuclideanIsUnique(ToNat(a), Pow2(|a|), 0, ToNat(a));
    } else if a == [] {
      assert ShiftLeft(a, n) == [];
    } else {
      var w := |a| - 1;
      var low, p, size := ToNat(a[..w]), Pow2(n - 1), Pow2(w);
      ShiftLeftUnfolds(a, n);
      ShiftLeftMultiplies(a[..w], n - 1);
      HighBitCounts(a);
      ShiftedRemainder(low, a[w], p, size);
      assert ToNat(a) == low + if a[w] then size else 0;
      assert Pow2(n) == 2 * p && Pow2(|a|) == 2 * size;
    }
  }
}
