/** The hash mixer as a permutation of the machine words. */
module Hashing {
  import opened Integers
  import opened Words

  // ---------------------------------------------------------------- the two reversible steps

  /** `x ^= x >> n`. */
  function Fold(x: Word, n: nat): Word {
    Xor(x, ShiftRight(x, n))
  }

  function Unfold(y: Word, n: nat): Word {
    Xor(Xor(y, ShiftRight(y, n)), ShiftRight(y, 2 * n))
  }

  /** `x *= m`. */
  function Times(x: Word, m: nat): (r: Word)
    ensures |r| == |x|
  {
    NumberIsWord(ToNat(x) * m % Pow2(|x|), |x|);
    FromNat(ToNat(x) * m % Pow2(|x|), |x|)
  }

  /** The product keeps the bits that the width has room for. */
  lemma TimesIsProduct(x: Word, m: nat)
    ensures ToNat(Times(x, m)) == ToNat(x) * m % Pow2(|x|)
  {
    NumberIsWord(ToNat(x) * m % Pow2(|x|), |x|);
  }

  /** Folding by at least a third of the width is undone by two shifts, and undoes them. */
  lemma FoldIsReversible(x: Word, n: nat)
    requires 3 * n >= |x| && n > 0
    ensures Unfold(Fold(x, n), n) == x && Fold(Unfold(x, n), n) == x
  {
  }

  lemma InverseModulo(x: nat, m: nat, m': nat, size: nat)
    requires x < size && m * m' % size == 1
    ensures x * m % size * m' % size == x
  {
    var (q, r) := (x * m / size, x * m % size);
    var k := m * m' / size;
    assert x * m == q * size + r;
    assert m * m' == k * size + 1;
    assert r * m' == x * (m * m') - q * size * m' by {
      assert r * m' == (x * m - q * size) * m';
      assert x * m * m' == x * (m * m');
    }
    assert x * (m * m') == x * k * size + x by {
      assert x * (k * size + 1) == x * (k * size) + x;
      assert x * (k * size) == x * k * size;
    }
    assert r * m' == (x * k - q * m') * size + x by {
      assert q * size * m' == q * m' * size;
      assert (x * k - q * m') * size == x * k * size - q * m' * size;
    }
    EuclideanIsUnique(r * m', size, x * k - q * m', x);
  }

  /** Multiplying by a factor is undone by multiplying by its inverse modulo the size of the word. */
  lemma TimesIsReversible(x: Word, m: nat, m': nat)
    requires m * m' % Pow2(|x|) == 1
    ensures Times(Times(x, m), m') == x
  {
    WordIsNumber(x);
    NumberIsWord(ToNat(x) * m % Pow2(|x|), |x|);
    InverseModulo(ToNat(x), m, m', Pow2(|x|));
  }

  // ---------------------------------------------------------------- the mixers

  /** Three folds with two multiplications between them. */
  function Mix(x: Word, n1: nat, m1: nat, n2: nat, m2: nat, n3: nat): Word {
    Fold(Times(Fold(Times(Fold(x, n1), m1), n2), m2), n3)
  }

  function Unmix(y: Word, n1: nat, m1': nat, n2: nat, m2': nat, n3: nat): Word {
    Unfold(Times(Unfold(Times(Unfold(y, n3), m2'), n2), m1'), n1)
  }

  lemma MixIsReversible(x: Word, n1: nat, m1: nat, m1': nat, n2: nat, m2: nat, m2': nat, n3: nat)
    requires n1 > 0 && n2 > 0 && n3 > 0 && 3 * n1 >= |x| && 3 * n2 >= |x| && 3 * n3 >= |x|
    requires m1 * m1' % Pow2(|x|) == 1 && m2 * m2' % Pow2(|x|) == 1
    ensures Unmix(Mix(x, n1, m1, n2, m2, n3), n1, m1', n2, m2', n3) == x
    ensures Mix(Unmix(x, n1, m1', n2, m2', n3), n1, m1, n2, m2, n3) == x
  {
    var a := Fold(x, n1);
    var b := Fold(Times(a, m1), n2);
    FoldIsReversible(Times(b, m2), n3);
    TimesIsReversible(b, m2, m2');
    FoldIsReversible(Times(a, m1), n2);
    TimesIsReversible(a, m1, m1');
    FoldIsReversible(x, n1);
    FoldIsReversible(x, n3);
    var c := Unfold(x, n3);
    var d := Unfold(Times(c, m2'), n2);
    FoldIsReversible(Times(d, m1'), n1);
    assert m1' * m1 == m1 * m1' && m2' * m2 == m2 * m2';
    TimesIsReversible(d, m1', m1);
    FoldIsReversible(Times(c, m2'), n2);
    TimesIsReversible(c, m2', m2);
  }

  const MULTIPLIER: nat := 0x0e98_46af_9b1a_615d

  function Mix64(x: Word): Word {
    Mix(x, 32, MULTIPLIER, 32, MULTIPLIER, 28)
  }

  function Mix32(x: Word): Word {
    Mix(x, 16, 0x21f0_aaad, 15, 0x735a_2d97, 15)
  }

  /** `hashMixImpl<64>::fn`, statement by statement. */
  method HashMix64(v: Word) returns (x: Word)
    requires |v| == 64
    ensures x == Mix64(v)
  {
    var m := 0x0e98_46af * 0x1_0000_0000 + 0x9b1a_615d;
    x := v;
    x := Xor(x, ShiftRight(x, 32));
    x := Times(x, m);
    x := Xor(x, ShiftRight(x, 32));
    x := Times(x, m);
    x := Xor(x, ShiftRight(x, 28));
  }

  /** `hashMixImpl<32>::fn`, statement by statement. */
  method HashMix32(v: Word) returns (x: Word)
    requires |v| == 32
    ensures x == Mix32(v)
  {
    x := v;
    x := Xor(x, ShiftRight(x, 16));
    x := Times(x, 0x21f0_aaad);
    x := Xor(x, ShiftRight(x, 15));
    x := Times(x, 0x735a_2d97);
    x := Xor(x, ShiftRight(x, 15));
  }

  lemma Sizes()
    ensures Pow2(32) == 0x1_0000_0000 && Pow2(64) == 0x1_0000_0000_0000_0000
  {
    assert Pow2(8) == 256;
    Pow2Adds(8, 8);
    Pow2Adds(16, 16);
    Pow2Adds(32, 32);
  }

  /** The 64-bit mixer is a permutation: it has a two-sided inverse. */
  lemma Mix64IsPermutation(x: Word)
    requires |x| == 64
    ensures Unmix(Mix64(x), 32, 0x153e_d04b_d89c_faf5, 32, 0x153e_d04b_d89c_faf5, 28) == x
    ensures Mix64(Unmix(x, 32, 0x153e_d04b_d89c_faf5, 32, 0x153e_d04b_d89c_faf5, 28)) == x
  {
    Sizes();
    MixIsReversible(x, 32, MULTIPLIER, 0x153e_d04b_d89c_faf5, 32, MULTIPLIER, 0x153e_d04b_d89c_faf5, 28);
  }

  /** So is the 32-bit mixer. */
  lemma Mix32IsPermutation(x: Word)
    requires |x| == 32
    ensures Unmix(Mix32(x), 16, 0x333c_4925, 15, 0x9713_2227, 15) == x
    ensures Mix32(Unmix(x, 16, 0x333c_4925, 15, 0x9713_2227, 15)) == x
  {
    Sizes();
    MixIsReversible(x, 16, 0x21f0_aaad, 0x333c_4925, 15, 0x735a_2d97, 0x9713_2227, 15);
  }

  /** The word that `hashCombine` mixes on a 64-bit platform, and the new seed. */
  function SumWord(seed: nat, hash: nat): Word {
    FromNat((seed + 0x9e37_79b9 + hash) % Pow2(64), 64)
  }

  function Combine(seed: nat, hash: nat): Word {
    Mix64(SumWord(seed, hash))
  }

  /** Undoing the mixer on a combination gives the sum of seed, hash and the golden-ratio constant, in 64 bits. */
  lemma CombinationIsSum(seed: nat, hash: nat)
    ensures ToNat(Unmix(Combine(seed, hash), 32, 0x153e_d04b_d89c_faf5, 32, 0x153e_d04b_d89c_faf5, 28)) ==
            (seed + 0x9e37_79b9 + hash) % 0x1_0000_0000_0000_0000
  {
    Sizes();
    NumberIsWord((seed + 0x9e37_79b9 + hash) % Pow2(64), 64);
    Mix64IsPermutation(SumWord(seed, hash));
  }

  lemma MixKeepsApart(x: Word, y: Word)
    requires |x| == 64 && |y| == 64
    ensures Mix64(x) == Mix64(y) <==> x == y
  {
    Mix64IsPermutation(x);
    Mix64IsPermutation(y);
  }

  lemma SumWords(seed: nat, hash: nat, seed': nat, hash': nat)
    ensures |SumWord(seed, hash)| == 64
    ensures SumWord(seed, hash) == SumWord(seed', hash') <==>
            (seed + hash) % Pow2(64) == (seed' + hash') % Pow2(64)
  {
    NumberIsWord((seed + 0x9e37_79b9 + hash) % Pow2(64), 64);
    NumberIsWord((seed' + 0x9e37_79b9 + hash') % Pow2(64), 64);
    CongruentSums(seed + hash, seed' + hash', 0x9e37_79b9, Pow2(64));
  }

  /** Two combinations collide exactly when seed and hash have the same sum modulo 2^64. */
  lemma CombineCollidesIff(seed: nat, hash: nat, seed': nat, hash': nat)
    ensures Combine(seed, hash) == Combine(seed', hash') <==>
            (seed + hash) % Pow2(64) == (seed' + hash') % Pow2(64)
  {
    SumWords(seed, hash, seed', hash');
    SumWords(seed', hash', seed, hash);
    MixKeepsApart(SumWord(seed, hash), SumWord(seed', hash'));
  }

  /** So no two seeds are merged by one hash, and no two hashes by one seed. */
  lemma CombineKeepsApart(seed: nat, seed': nat, hash: nat, hash': nat)
    requires seed < Pow2(64) && seed' < Pow2(64) && hash < Pow2(64) && hash' < Pow2(64)
    ensures Combine(seed, hash) == Combine(seed', hash) <==> seed == seed'
    ensures Combine(seed, hash) == Combine(seed, hash') <==> hash == hash'
  {
    CombineCollidesIff(seed, hash, seed', hash);
    CombineCollidesIff(seed, hash, seed, hash');
    CongruentSums(seed, seed', hash, Pow2(64));
    CongruentSums(hash, hash', seed, Pow2(64));
    SmallRemainder(seed, Pow2(64));
    SmallRemainder(seed', Pow2(64));
    SmallRemainder(hash, Pow2(64));
    SmallRemainder(hash', Pow2(64));
  }

  lemma SmallRemainder(x: nat, size: nat)
    requires x < size
    ensures x % size == x
  {
  }
}
