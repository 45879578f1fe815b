/** Bit fields of a word, and two half-words packed into one word. */
module BitFields {
  import opened Words

  /** `getBits` and `setBits` at the unsigned type in which they compute. Reading shifts by any distance; writing shifts
      with the built-in operator, which has no meaning from the width of the type on. */
  function GetBits(flags: Word, mask: Word, shift: nat): Word
    requires |flags| == |mask|
  {
    And(ShiftRight(flags, shift), mask)
  }

  function SetBits(flags: Word, mask: Word, shift: nat, bits: Word): Word
    requires |flags| == |mask| == |bits| && shift < |mask|
  {
    Or(And(flags, Not(ShiftLeft(mask, shift))), ShiftLeft(And(bits, mask), shift))
  }

  /** The field does not stick out of the word. */
  predicate Fits(mask: Word, shift: nat) {
    forall i :: 0 <= i < |mask| && mask[i] ==> i + shift < |mask|
  }

  /** A field reads back what was written, whatever that is, exactly when it fits into the word. */
  lemma ReadsBackIff(flags: Word, mask: Word, shift: nat)
    requires |flags| == |mask| && shift < |mask|
    ensures (forall bits: Word :: |bits| == |mask| ==>
               GetBits(SetBits(flags, mask, shift, bits), mask, shift) == And(bits, mask))
            <==> Fits(mask, shift)
  {
    if Fits(mask, shift) {
      forall bits: Word | |bits| == |mask|
        ensures GetBits(SetBits(flags, mask, shift, bits), mask, shift) == And(bits, mask)
      {
        var read := GetBits(SetBits(flags, mask, shift, bits), mask, shift);
        forall i | 0 <= i < |mask| ensures read[i] == (bits[i] && mask[i]) {
        }
      }
    } else {
      var i :| 0 <= i < |mask| && mask[i] && i + shift >= |mask|;
      assert !GetBits(SetBits(flags, mask, shift, mask), mask, shift)[i];
      assert And(mask, mask)[i];
    }
  }

  /** The bit of a word after a write: of the written bits inside the field, of the old word outside. */
  lemma WrittenBit(flags: Word, mask: Word, shift: nat, bits: Word, i: nat)
    requires |flags| == |mask| == |bits| && i < |flags| && shift < |mask|
    ensures SetBits(flags, mask, shift, bits)[i] ==
            if i >= shift && mask[i - shift] then bits[i - shift] else flags[i]
  {
  }

  /** Writing back what was read changes nothing. */
  lemma WriteBackIsIdentity(flags: Word, mask: Word, shift: nat)
    requires |flags| == |mask| && shift < |mask|
    ensures SetBits(flags, mask, shift, GetBits(flags, mask, shift)) == flags
  {
  }

  predicate Disjoint(mask: Word, shift: nat, mask': Word, shift': nat)
    requires |mask| == |mask'|
  {
    forall i :: 0 <= i < |mask| ==> !(ShiftLeft(mask, shift)[i] && ShiftLeft(mask', shift')[i])
  }

  lemma OtherFieldStays(flags: Word, mask: Word, shift: nat, mask': Word, shift': nat, bits': Word)
    requires |flags| == |mask| == |mask'| == |bits'| && shift < |mask| && shift' < |mask|
    requires Disjoint(mask, shift, mask', shift')
    ensures GetBits(SetBits(flags, mask', shift', bits'), mask, shift) == GetBits(flags, mask, shift)
  {
    var two := SetBits(flags, mask', shift', bits');
    forall i | 0 <= i < |flags| ensures GetBits(two, mask, shift)[i] == GetBits(flags, mask, shift)[i] {
      if i + shift < |flags| {
        assert !(ShiftLeft(mask, shift)[i + shift] && ShiftLeft(mask', shift')[i + shift]);
        WrittenBit(flags, mask', shift', bits', i + shift);
      }
    }
  }

  /** Writes to fields that share no bit commute, and neither disturbs the other field. */
  lemma DisjointWritesCommute(
      flags: Word, mask: Word, shift: nat, bits: Word, mask': Word, shift': nat, bits': Word)
    requires |flags| == |mask| == |bits| == |mask'| == |bits'| && shift < |mask| && shift' < |mask|
    requires Disjoint(mask, shift, mask', shift')
    ensures SetBits(SetBits(flags, mask, shift, bits), mask', shift', bits') ==
            SetBits(SetBits(flags, mask', shift', bits'), mask, shift, bits)
    ensures GetBits(SetBits(flags, mask', shift', bits'), mask, shift) == GetBits(flags, mask, shift)
  {
    OtherFieldStays(flags, mask, shift, mask', shift', bits');
    var one, two := SetBits(flags, mask, shift, bits), SetBits(flags, mask', shift', bits');
    forall i | 0 <= i < |flags|
      ensures SetBits(one, mask', shift', bits')[i] == SetBits(two, mask, shift, bits)[i]
    {
      assert !(ShiftLeft(mask, shift)[i] && ShiftLeft(mask', shift')[i]);
      WrittenBit(flags, mask, shift, bits, i);
      WrittenBit(flags, mask', shift', bits', i);
      WrittenBit(one, mask', shift', bits', i);
      WrittenBit(two, mask, shift, bits, i);
    }
  }

  // ---------------------------------------------------------------- packing

  /** `pack` of unsigned values into a word of the given width. The left shift is made at the width of t, and
      the result passes through that width as well. */
  function Pack(t: Word, u: Word, width: nat): Word
    requires |t| <= width && |u| <= width
  {
    Resize(Resize(Or(Resize(ShiftLeft(t, width / 2), width), Resize(u, width)), |t|), width)
  }

  function Unpack(v: Word): (Word, Word) {
    (ShiftRight(v, |v| / 2), And(v, ShiftRight(Not(Zeros(|v|)), |v| / 2)))
  }

  /** Unpacking gives the packed pair back exactly when t stays within its own type when shifted by half a
      word, and u fits both half a word and the type of t. For a t as wide as the word that means: exactly
      when both are half-words; for a t of half a word or less: only when t is 0. */
  lemma UnpackOfPackIff(t: Word, u: Word, width: nat)
    requires |t| <= width && |u| <= width && width % 2 == 0
    ensures Unpack(Pack(t, u, width)) == (Resize(t, width), Resize(u, width)) <==>
            BitsBelow(t, |t| - width / 2) && BitsBelow(u, width / 2) && BitsBelow(u, |t|)
  {
    var h := width / 2;
    var (high, low) := Unpack(Pack(t, u, width));
    forall i | 0 <= i < width ensures high[i] == PackedHigh(t, u, h, i) && low[i] == PackedLow(t, u, h, i) {
    }
    if high == Resize(t, width) && low == Resize(u, width) {
      forall i | 0 <= i < |t| && t[i] ensures i + h < |t| {
        assert high[i] == Resize(t, width)[i];
      }
      forall i | 0 <= i < |u| && u[i] ensures i < h && i < |t| {
        assert low[i] == Resize(u, width)[i];
      }
    }
    if BitsBelow(t, |t| - h) && BitsBelow(u, h) && BitsBelow(u, |t|) {
      forall i | 0 <= i < width ensures PackedHigh(t, u, h, i) == Resize(t, width)[i] {
      }
      forall i | 0 <= i < width ensures PackedLow(t, u, h, i) == Resize(u, width)[i] {
      }
    }
  }

  /** Only bits below h are set. */
  predicate BitsBelow(w: Word, h: int) {
    forall i :: 0 <= i < |w| && w[i] ==> i < h
  }

  predicate PackedHigh(t: Word, u: Word, h: nat, i: nat) {
    i < h && i + h < |t| && (t[i] || (i + h < |u| && u[i + h]))
  }

  predicate PackedLow(t: Word, u: Word, h: nat, i: nat) {
    i < h && i < |t| && i < |u| && u[i]
  }

  /** Of two half-words packed at full width the first one is the upper half and the second one the lower. */
  lemma HalvesOfPacked(t: Word, u: Word, width: nat, i: nat)
    requires |t| == |u| == width && width % 2 == 0 && i < width
    requires forall k :: width / 2 <= k < width ==> !t[k] && !u[k]
    ensures |Pack(t, u, width)| == width
    ensures Pack(t, u, width)[i] == if i < width / 2 then u[i] else t[i - width / 2]
  {
  }

  /** Packing the halves of a word at full width gives the word back. */
  lemma PackOfUnpack(v: Word)
    requires |v| % 2 == 0
    ensures Pack(Unpack(v).0, Unpack(v).1, |v|) == v
  {
  }
}
