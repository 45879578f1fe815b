/** Shifts of machine integers by any distance in either direction. */
module Shifts {
  import opened Integers
  import opened Words

  /** An integer type of at least one bit. */
  datatype IntType = IntType(width: nat, signed: bool) {
    predicate Contains(v: int) {
      if signed then width > 0 && -Pow2(width - 1) <= v < Pow2(width - 1) else 0 <= v < Pow2(width)
    }

    /** Conversion to this type. */
    function Wrap(x: int): int {
      var r := x % Pow2(width);
      if signed && width > 0 && r >= Pow2(width - 1) then r - Pow2(width) else r
    }

    function Unsigned(v: int): int {
      v % Pow2(width)
    }
  }

  // ---------------------------------------------------------------- the four shifts

  function Sal(t: IntType, value: int, shift: int): int
    decreases shift < 0
  {
    if shift < 0 then Sar(t, value, -shift)
    else if shift == 0 || value == 0 then value
    else if shift >= t.width then 0
    else t.Wrap(value * Pow2(shift))
  }

  function Sar(t: IntType, value: int, shift: int): int
    decreases shift < 0
  {
    if shift < 0 then Sal(t, value, -shift)
    else if shift == 0 || value == 0 then value
    else if shift >= t.width then if value < 0 then -1 else 0
    else value / Pow2(shift)
  }

  function Shl(t: IntType, value: int, shift: int): int
    decreases shift < 0
  {
    if shift < 0 then Shr(t, value, -shift)
    else if shift == 0 || value == 0 then value
    else if shift >= t.width then 0
    else t.Wrap(value * Pow2(shift))
  }

  function Shr(t: IntType, value: int, shift: int): int
    decreases shift < 0
  {
    if shift < 0 then Shl(t, value, -shift)
    else if shift == 0 || value == 0 then value
    else if shift >= t.width then 0
    else t.Wrap(t.Unsigned(value) / Pow2(shift))
  }

  // ---------------------------------------------------------------- what they compute

  lemma {:induction false} Pow2Grows(m: nat, n: nat)
    requires m <= n
    ensures Pow2(m) <= Pow2(n)
    decreases n - m
  {
    if m < n { Pow2Grows(m, n - 1); }
  }

  lemma SmallQuotient(v: int, d: int)
    requires d > 0 && -d <= v < d
    ensures v / d == if v < 0 then -1 else 0
  {
  }

  lemma WrapIsIdentity(t: IntType, v: int)
    requires t.Contains(v)
    ensures t.Wrap(v) == v
  {
    var size := Pow2(t.width);
    EuclideanIsUnique(v, size, if v < 0 then -1 else 0, if v < 0 then v + size else v);
  }

  /** Conversion yields the one value of the type that is congruent to the number modulo 2 to the width. */
  lemma WrapIsTheCongruentValue(t: IntType, x: int)
    requires t.width > 0
    ensures t.Contains(t.Wrap(x)) && t.Wrap(x) % Pow2(t.width) == x % Pow2(t.width)
    ensures 0 <= t.Unsigned(x) < Pow2(t.width) && t.Unsigned(x) % Pow2(t.width) == x % Pow2(t.width)
  {
    var size := Pow2(t.width);
    EuclideanIsUnique(x % size, size, 0, x % size);
    CongruentIfQuotient(x % size - size, x % size, size, -1);
  }

  lemma WrapOfMultiple(t: IntType, k: int)
    ensures t.Wrap(k * Pow2(t.width)) == 0
  {
    EuclideanIsUnique(k * Pow2(t.width), Pow2(t.width), k, 0);
  }

  /** Shifting right, by the width and more as well, is floor division by the power of two. */
  lemma SarIsFloorDivision(t: IntType, value: int, shift: nat)
    requires t.Contains(value)
    ensures Sar(t, value, shift) == value / Pow2(shift)
  {
    if value == 0 || shift >= t.width {
      Pow2Grows(t.width, if shift >= t.width then shift else t.width);
      SmallQuotient(value, if shift >= t.width then Pow2(shift) else 1);
      EuclideanIsUnique(0, Pow2(shift), 0, 0);
    }
  }

  /** Shifting left is multiplication by the power of two, converted to the type. */
  lemma LeftShiftsMultiply(t: IntType, value: int, shift: nat)
    requires t.Contains(value)
    ensures Sal(t, value, shift) == t.Wrap(value * Pow2(shift)) == Shl(t, value, shift)
  {
    if value == 0 {
      WrapOfMultiple(t, 0);
    } else if shift == 0 {
      WrapIsIdentity(t, value);
    } else if shift >= t.width {
      Pow2Adds(shift - t.width, t.width);
      Regroup(value, Pow2(shift - t.width), Pow2(t.width));
      WrapOfMultiple(t, value * Pow2(shift - t.width));
    }
  }

  /** The logical right shift is division of the unsigned value by the power of two. */
  lemma ShrIsUnsignedDivision(t: IntType, value: int, shift: nat)
    requires t.Contains(value)
    ensures Shr(t, value, shift) == t.Wrap(t.Unsigned(value) / Pow2(shift))
  {
    var u := t.Unsigned(value);
    if shift == 0 {
      UnsignedAndBack(t, value);
    } else if value == 0 || shift >= t.width {
      if shift >= t.width { Pow2Grows(t.width, shift); }
      EuclideanIsUnique(0, Pow2(t.width), 0, 0);
      SmallQuotient(if value == 0 then 0 else u, Pow2(shift));
      WrapOfMultiple(t, 0);
    }
  }

  /** Every shift by every distance in either direction: a negative distance is the opposite shift. */
  lemma AnyShift(t: IntType, value: int, shift: int)
    requires t.Contains(value)
    ensures Sal(t, value, shift) == if shift >= 0 then t.Wrap(value * Pow2(shift)) else value / Pow2(-shift)
    ensures Sar(t, value, shift) == if shift >= 0 then value / Pow2(shift) else t.Wrap(value * Pow2(-shift))
    ensures Shl(t, value, shift) ==
            if shift >= 0 then t.Wrap(value * Pow2(shift)) else t.Wrap(t.Unsigned(value) / Pow2(-shift))
    ensures Shr(t, value, shift) ==
            if shift >= 0 then t.Wrap(t.Unsigned(value) / Pow2(shift)) else t.Wrap(value * Pow2(-shift))
  {
    var s := if shift >= 0 then shift else -shift;
    SarIsFloorDivision(t, value, s);
    LeftShiftsMultiply(t, value, s);
    ShrIsUnsignedDivision(t, value, s);
  }

  lemma UnsignedAndBack(t: IntType, value: int)
    requires t.Contains(value)
    ensures t.Wrap(t.Unsigned(value)) == value
  {
    var size := Pow2(t.width);
    WrapIsIdentity(t, value);
    EuclideanIsUnique(value % size, size, 0, value % size);
  }

  lemma Regroup(a: int, b: int, c: int)
    ensures a * (b * c) == a * b * c
  {
  }

  /** Shifting left and back gives the value exactly when it fits into the bits that are left. */
  lemma SarUndoesShlIff(t: IntType, value: int, shift: nat)
    requires t.Contains(value) && shift < t.width
    ensures Sar(t, Shl(t, value, shift), shift) == value <==> IntType(t.width - shift, t.signed).Contains(value)
  {
    var p, q := Pow2(shift), Pow2(t.width - shift);
    var k := Overflow(t, value * p);
    Pow2Adds(shift, t.width - shift);
    LeftShiftsMultiply(t, value, shift);
    WrapTakesMultiples(t, value * p);
    Shortened(value, p, q, k);
    SarOfMultiple(t, value - k * q, shift);
    if k != 0 { NonzeroProduct(k, q); }
    FitsIffNoOverflow(t, value, shift);
  }

  lemma Shortened(value: int, p: int, q: int, k: int)
    ensures value * p - k * (p * q) == (value - k * q) * p
  {
  }

  lemma SarOfMultiple(t: IntType, n: int, shift: nat)
    requires shift < t.width
    ensures Sar(t, n * Pow2(shift), shift) == n
  {
    var p := Pow2(shift);
    EuclideanIsUnique(n * p, p, n, 0);
    if n * p == 0 { SmallMultipleIsZero(n, p); }
  }

  /** How many multiples of the size a conversion takes off. */
  function Overflow(t: IntType, x: int): int {
    x / Pow2(t.width) + if t.signed && t.width > 0 && x % Pow2(t.width) >= Pow2(t.width - 1) then 1 else 0
  }

  lemma WrapTakesMultiples(t: IntType, x: int)
    ensures t.Wrap(x) == x - Overflow(t, x) * Pow2(t.width)
    ensures t.width > 0 ==> (Overflow(t, x) == 0 <==> t.Contains(x))
  {
    var size := Pow2(t.width);
    assert x == x / size * size + x % size;
    assert (x / size + 1) * size == x / size * size + size;
    if t.Contains(x) { WrapIsIdentity(t, x); SmallQuotient(x, size); }
  }

  lemma NonzeroProduct(k: int, q: int)
    requires k != 0 && q > 0
    ensures k * q != 0
  {
  }

  lemma FitsIffNoOverflow(t: IntType, value: int, shift: nat)
    requires shift < t.width
    ensures t.Contains(value * Pow2(shift)) <==> IntType(t.width - shift, t.signed).Contains(value)
  {
    var e := if t.signed then t.width - 1 - shift else t.width - shift;
    var (p, h, size) := (Pow2(shift), Pow2(e), Pow2(shift + e));
    Pow2Adds(shift, e);
    ScaledRange(value, t.signed, h, p, size);
    ContainsIff(t, value * p);
    ContainsIff(IntType(t.width - shift, t.signed), value);
  }

  lemma ContainsIff(t: IntType, v: int)
    requires t.width > 0
    ensures var size := Pow2(if t.signed then t.width - 1 else t.width);
            t.Contains(v) <==> (if t.signed then -size else 0) <= v < size
  {
  }

  lemma ScaledRange(v: int, signed: bool, h: int, p: int, size: int)
    requires p > 0 && size == p * h
    ensures (if signed then -size else 0) <= v * p < size <==> (if signed then -h else 0) <= v < h
  {
  }
}
