/**
 * The perceptual hash of web-app/src/utils/phash-utils.ts, from the DCT
 * coefficient matrix on: selection of the 63 low-frequency coefficients, the
 * threshold at the middle of their sorted order, the packing of the bits into
 * hex digits, the MD5 fallback, and the nibble-wise Hamming distance that
 * compares two hashes.
 *
 * Image decoding, the resize to 32x32, grayscale and the DCT itself are not
 * modelled: the coefficient matrix is an input (`None` when decoding or the
 * transform failed). The MD5 digest of the image bytes is an input too.
 */
module PHash {
  import opened Wrappers
  import Sorting

  type Hash = string

  // ---------------------------------------------------------------- hex digits

  predicate IsHexChar(c: char) {
    '0' <= c <= '9' || 'a' <= c <= 'f' || 'A' <= c <= 'F'
  }

  predicate IsLowerHex(s: string) {
    forall k :: 0 <= k < |s| ==> '0' <= s[k] <= '9' || 'a' <= s[k] <= 'f'
  }

  /**
   * `parseInt(c, 16)` for one character, as `^` sees it: a hex digit gives
   * its value; anything else gives NaN, which the bitwise XOR converts to 0.
   */
  function NibbleValue(c: char): (v: nat)
    ensures v < 16
    ensures !IsHexChar(c) ==> v == 0
  {
    if '0' <= c <= '9' then (c as int - '0' as int)
    else if 'a' <= c <= 'f' then (c as int - 'a' as int) + 10
    else if 'A' <= c <= 'F' then (c as int - 'A' as int) + 10
    else 0
  }

  /** `v.toString(16)` for a value below 16: one lowercase hex digit. */
  function HexChar(v: nat): (c: char)
    requires v < 16
    ensures '0' <= c <= '9' || 'a' <= c <= 'f'
    ensures NibbleValue(c) == v
  {
    if v < 10 then ('0' as int + v) as char else ('a' as int + v - 10) as char
  }

  /** Bitwise XOR (`^`) of two non-negative integers. */
  function Xor(a: nat, b: nat): (x: nat)
    decreases a + b
  {
    if a == 0 && b == 0 then 0
    else 2 * Xor(a / 2, b / 2) + (if a % 2 != b % 2 then 1 else 0)
  }

  /** The number of set bits of `x`. */
  function BitCount(x: nat): nat {
    if x == 0 then 0 else x % 2 + BitCount(x / 2)
  }

  /** `x.toString(2)`: the binary digits of `x` without leading zeros ("0" for zero). */
  function Base2(x: nat): (s: string)
    ensures |s| > 0 && IsBinary(s)
  {
    (if x < 2 then "" else Base2(x / 2)) + [if x % 2 == 1 then '1' else '0']
  }

  lemma {:induction false} OnesAppend(s: string, c: char)
    ensures Ones(s + [c]) == Ones(s) + (if c == '1' then 1 else 0)
  {
    if s != [] {
      assert (s + [c])[1..] == s[1..] + [c];
      OnesAppend(s[1..], c);
    }
  }

  /** `x.toString(2).split('1').length - 1`, the '1' digits of the binary form, counts the set bits. */
  lemma {:induction false} Base2Ones(x: nat)
    ensures Ones(Base2(x)) == BitCount(x)
  {
    if x >= 2 {
      Base2Ones(x / 2);
      OnesAppend(Base2(x / 2), if x % 2 == 1 then '1' else '0');
    }
  }

  /** XOR is symmetric, is zero exactly on equal operands, and stays below 2^k with its operands. */
  lemma {:induction false} XorProperties(a: nat, b: nat, k: nat)
    decreases a + b
    ensures Xor(a, b) == Xor(b, a)
    ensures Xor(a, b) == 0 <==> a == b
    ensures a < Pow2(k) && b < Pow2(k) ==> Xor(a, b) < Pow2(k) && BitCount(Xor(a, b)) <= k
  {
    if a != 0 || b != 0 {
      XorProperties(a / 2, b / 2, if k == 0 then 0 else k - 1);
    }
  }

  /**
   * `xor.toString(2).split('1').length - 1` for the XOR of two digits' values:
   * the number of bits in which the nibbles differ.
   */
  function NibbleDistance(c1: char, c2: char): (d: nat)
    ensures d == BitCount(Xor(NibbleValue(c1), NibbleValue(c2)))
    ensures d <= 4
    ensures d == 0 <==> NibbleValue(c1) == NibbleValue(c2)
  {
    var x := Xor(NibbleValue(c1), NibbleValue(c2));
    NibbleXor(NibbleValue(c1), NibbleValue(c2));
    Base2Ones(x);
    Ones(Base2(x))
  }

  /** The XOR of two nibbles has at most four set bits, and none exactly when they are equal. */
  lemma NibbleXor(a: nat, b: nat)
    requires a < 16 && b < 16
    ensures BitCount(Xor(a, b)) <= 4
    ensures BitCount(Xor(a, b)) == 0 <==> a == b
  {
    assert Pow2(4) == 16 by {
      assert Pow2(2) == 4;
    }
    XorProperties(a, b, 4);
    var x := Xor(a, b);
    assert BitCount(x) == 0 <==> x == 0 by {
      if x != 0 {
        assert BitCount(x) == x % 2 + BitCount(x / 2);
        BitCountPositive(x);
      }
    }
  }

  lemma {:induction false} BitCountPositive(x: nat)
    requires x > 0
    ensures BitCount(x) > 0
  {
    if x % 2 == 0 {
      BitCountPositive(x / 2);
    }
  }

  // ---------------------------------------------------------- Hamming distance

  /** `hammingDistance`'s result: a bit count, or `Infinity` for hashes of different lengths. */
  datatype Distance = Finite(bits: nat) | Infinite

  /** The sum of the nibble distances over the first `n` positions. */
  function DistanceSum(h1: Hash, h2: Hash, n: nat): nat
    requires n <= |h1| && n <= |h2|
  {
    if n == 0 then 0 else DistanceSum(h1, h2, n - 1) + NibbleDistance(h1[n - 1], h2[n - 1])
  }

  function Hamming(h1: Hash, h2: Hash): Distance {
    if |h1| != |h2| then Infinite else Finite(DistanceSum(h1, h2, |h1|))
  }

  /** `hammingDistance`: the loop that accumulates the per-nibble popcounts. */
  method HammingDistance(hash1: Hash, hash2: Hash) returns (d: Distance)
    ensures d == Hamming(hash1, hash2)
    ensures d.Infinite? <==> |hash1| != |hash2|
  {
    if |hash1| != |hash2| {
      return Infinite;
    }
    var distance := 0;
    for i := 0 to |hash1|
      invariant distance == DistanceSum(hash1, hash2, i)
    {
      distance := distance + NibbleDistance(hash1[i], hash2[i]);
    }
    return Finite(distance);
  }

  lemma {:induction false} DistanceSumBounds(h1: Hash, h2: Hash, n: nat)
    requires n <= |h1| && n <= |h2|
    ensures DistanceSum(h1, h2, n) <= 4 * n
    ensures DistanceSum(h1, h2, n) == DistanceSum(h2, h1, n)
    ensures DistanceSum(h1, h2, n) == 0 <==>
              forall k :: 0 <= k < n ==> NibbleValue(h1[k]) == NibbleValue(h2[k])
  {
    if n > 0 {
      DistanceSumBounds(h1, h2, n - 1);
      XorProperties(NibbleValue(h1[n - 1]), NibbleValue(h2[n - 1]), 0);
    }
  }

  /**
   * Hashes of equal length have a finite distance of at most four bits per
   * digit; the distance is symmetric and is zero exactly when the digits
   * have equal values.
   */
  lemma HammingBounds(h1: Hash, h2: Hash)
    requires |h1| == |h2|
    ensures Hamming(h1, h2).Finite?
    ensures Hamming(h1, h2).bits <= 4 * |h1|
    ensures Hamming(h1, h2) == Hamming(h2, h1)
    ensures Hamming(h1, h2).bits == 0 <==>
              forall k :: 0 <= k < |h1| ==> NibbleValue(h1[k]) == NibbleValue(h2[k])
  {
    DistanceSumBounds(h1, h2, |h1|);
  }

  /** A hash is at distance zero from itself. */
  lemma HammingSelf(h: Hash)
    ensures Hamming(h, h) == Finite(0)
  {
    DistanceSumBounds(h, h, |h|);
  }

  /** The two hashes of frames captured six seconds apart differ in 12 bits. */
  lemma HammingRecordedPair()
    ensures Hamming("07f240f1cccfc585", "6fc240f148ce5d95") == Finite(12)
  {
    RecordedPairDistance("07f240f1cccfc585", "6fc240f148ce5d95");
  }

  /** Any two hashes with the digit values of the recorded pair are 12 bits apart. */
  lemma RecordedPairDistance(h1: Hash, h2: Hash)
    requires |h1| == 16 && |h2| == 16
    requires NibbleValue(h1[0]) == 0 && NibbleValue(h1[1]) == 7 && NibbleValue(h1[2]) == 15 && NibbleValue(h1[3]) == 2 && NibbleValue(h1[4]) == 4 && NibbleValue(h1[5]) == 0 && NibbleValue(h1[6]) == 15 && NibbleValue(h1[7]) == 1 && NibbleValue(h1[8]) == 12 && NibbleValue(h1[9]) == 12 && NibbleValue(h1[10]) == 12 && NibbleValue(h1[11]) == 15 && NibbleValue(h1[12]) == 12 && NibbleValue(h1[13]) == 5 && NibbleValue(h1[14]) == 8 && NibbleValue(h1[15]) == 5
    requires NibbleValue(h2[0]) == 6 && NibbleValue(h2[1]) == 15 && NibbleValue(h2[2]) == 12 && NibbleValue(h2[3]) == 2 && NibbleValue(h2[4]) == 4 && NibbleValue(h2[5]) == 0 && NibbleValue(h2[6]) == 15 && NibbleValue(h2[7]) == 1 && NibbleValue(h2[8]) == 4 && NibbleValue(h2[9]) == 8 && NibbleValue(h2[10]) == 12 && NibbleValue(h2[11]) == 14 && NibbleValue(h2[12]) == 5 && NibbleValue(h2[13]) == 13 && NibbleValue(h2[14]) == 9 && NibbleValue(h2[15]) == 5
    ensures Hamming(h1, h2) == Finite(12)
  {
    RecordedPairTo3(h1, h2);
    RecordedPairTo8(h1, h2);
    RecordedPairTo12(h1, h2);
    RecordedPairTo16(h1, h2);
  }

  lemma RecordedPairTo3(h1: Hash, h2: Hash)
    requires |h1| == 16 && |h2| == 16
    requires NibbleValue(h1[0]) == 0 && NibbleValue(h1[1]) == 7 && NibbleValue(h1[2]) == 15
    requires NibbleValue(h2[0]) == 6 && NibbleValue(h2[1]) == 15 && NibbleValue(h2[2]) == 12
    ensures DistanceSum(h1, h2, 3) == 5
  {
    XorBits0x6();
    DistanceStep(h1, h2, 0, 0, 6, 0, 2);
    XorBits7x15();
    DistanceStep(h1, h2, 1, 7, 15, 2, 1);
    XorBits15x12();
    DistanceStep(h1, h2, 2, 15, 12, 3, 2);
  }

  lemma RecordedPairTo8(h1: Hash, h2: Hash)
    requires |h1| == 16 && |h2| == 16
    requires NibbleValue(h1[3]) == 2 && NibbleValue(h1[4]) == 4 && NibbleValue(h1[5]) == 0 && NibbleValue(h1[6]) == 15 && NibbleValue(h1[7]) == 1
    requires NibbleValue(h2[3]) == 2 && NibbleValue(h2[4]) == 4 && NibbleValue(h2[5]) == 0 && NibbleValue(h2[6]) == 15 && NibbleValue(h2[7]) == 1
    ensures DistanceSum(h1, h2, 8) == DistanceSum(h1, h2, 3)
  {
    var s := DistanceSum(h1, h2, 3);
    DistanceStep(h1, h2, 3, 2, 2, s, 0);
    DistanceStep(h1, h2, 4, 4, 4, s, 0);
    DistanceStep(h1, h2, 5, 0, 0, s, 0);
    DistanceStep(h1, h2, 6, 15, 15, s, 0);
    DistanceStep(h1, h2, 7, 1, 1, s, 0);
  }

  lemma RecordedPairTo12(h1: Hash, h2: Hash)
    requires |h1| == 16 && |h2| == 16
    requires NibbleValue(h1[8]) == 12 && NibbleValue(h1[9]) == 12 && NibbleValue(h1[10]) == 12 && NibbleValue(h1[11]) == 15
    requires NibbleValue(h2[8]) == 4 && NibbleValue(h2[9]) == 8 && NibbleValue(h2[10]) == 12 && NibbleValue(h2[11]) == 14
    ensures DistanceSum(h1, h2, 12) == DistanceSum(h1, h2, 8) + 3
  {
    var s := DistanceSum(h1, h2, 8);
    XorBits12x4();
    DistanceStep(h1, h2, 8, 12, 4, s, 1);
    XorBits12x8();
    DistanceStep(h1, h2, 9, 12, 8, s + 1, 1);
    DistanceStep(h1, h2, 10, 12, 12, s + 2, 0);
    XorBits15x14();
    DistanceStep(h1, h2, 11, 15, 14, s + 2, 1);
  }

  lemma RecordedPairTo16(h1: Hash, h2: Hash)
    requires |h1| == 16 && |h2| == 16
    requires NibbleValue(h1[12]) == 12 && NibbleValue(h1[13]) == 5 && NibbleValue(h1[14]) == 8 && NibbleValue(h1[15]) == 5
    requires NibbleValue(h2[12]) == 5 && NibbleValue(h2[13]) == 13 && NibbleValue(h2[14]) == 9 && NibbleValue(h2[15]) == 5
    ensures DistanceSum(h1, h2, 16) == DistanceSum(h1, h2, 12) + 4
  {
    var s := DistanceSum(h1, h2, 12);
    XorBits12x5();
    DistanceStep(h1, h2, 12, 12, 5, s, 2);
    XorBits5x13();
    DistanceStep(h1, h2, 13, 5, 13, s + 2, 1);
    XorBits8x9();
    DistanceStep(h1, h2, 14, 8, 9, s + 3, 1);
    DistanceStep(h1, h2, 15, 5, 5, s + 4, 0);
  }

  lemma XorBits0x6()
    ensures BitCount(Xor(0, 6)) == 2
  {
    assert Xor(0, 1) == 1;
    assert Xor(0, 3) == 3;
    assert BitCount(1) == 1;
    assert BitCount(3) == 2;
  }

  lemma XorBits7x15()
    ensures BitCount(Xor(7, 15)) == 1
  {
    assert Xor(0, 1) == 1;
    assert Xor(1, 3) == 2;
    assert Xor(3, 7) == 4;
    assert BitCount(1) == 1;
    assert BitCount(2) == 1;
    assert BitCount(4) == 1;
  }

  lemma XorBits15x12()
    ensures BitCount(Xor(15, 12)) == 2
  {
    assert Xor(1, 1) == 0;
    assert Xor(3, 3) == 0;
    assert Xor(7, 6) == 1;
    assert BitCount(1) == 1;
  }

  lemma XorBits12x4()
    ensures BitCount(Xor(12, 4)) == 1
  {
    assert Xor(1, 0) == 1;
    assert Xor(3, 1) == 2;
    assert Xor(6, 2) == 4;
    assert BitCount(1) == 1;
    assert BitCount(2) == 1;
    assert BitCount(4) == 1;
  }

  lemma XorBits12x8()
    ensures BitCount(Xor(12, 8)) == 1
  {
    assert Xor(1, 1) == 0;
    assert Xor(3, 2) == 1;
    assert Xor(6, 4) == 2;
    assert BitCount(1) == 1;
    assert BitCount(2) == 1;
  }

  lemma XorBits15x14()
    ensures BitCount(Xor(15, 14)) == 1
  {
    assert Xor(1, 1) == 0;
    assert Xor(3, 3) == 0;
    assert Xor(7, 7) == 0;
  }

  lemma XorBits12x5()
    ensures BitCount(Xor(12, 5)) == 2
  {
    assert Xor(1, 0) == 1;
    assert Xor(3, 1) == 2;
    assert Xor(6, 2) == 4;
    assert BitCount(1) == 1;
    assert BitCount(2) == 1;
    assert BitCount(4) == 1;
  }

  lemma XorBits5x13()
    ensures BitCount(Xor(5, 13)) == 1
  {
    assert Xor(0, 1) == 1;
    assert Xor(1, 3) == 2;
    assert Xor(2, 6) == 4;
    assert BitCount(1) == 1;
    assert BitCount(2) == 1;
    assert BitCount(4) == 1;
  }

  lemma XorBits8x9()
    ensures BitCount(Xor(8, 9)) == 1
  {
    assert Xor(1, 1) == 0;
    assert Xor(2, 2) == 0;
    assert Xor(4, 4) == 0;
  }

  lemma DistanceStep(h1: Hash, h2: Hash, n: nat, a: nat, b: nat, sum: nat, d: nat)
    requires n < |h1| && n < |h2| && NibbleValue(h1[n]) == a && NibbleValue(h2[n]) == b
    requires DistanceSum(h1, h2, n) == sum && BitCount(Xor(a, b)) == d
    ensures DistanceSum(h1, h2, n + 1) == sum + d
  {
  }

  // ------------------------------------------------------------------ similarity

  const DefaultThreshold: real := 10.0

  /** `areImagesSimilar`: the distance is at most `threshold` (`Infinity <= t` is false). */
  function AreImagesSimilar(h1: Hash, h2: Hash, threshold: real): bool {
    match Hamming(h1, h2)
    case Finite(d) => d as real <= threshold
    case Infinite => false
  }

  /**
   * Similarity holds exactly when the lengths agree and the distance is within
   * the threshold; it is monotone in the threshold, and a hash is similar to
   * itself at every non-negative threshold.
   */
  lemma SimilarityProperties(h1: Hash, h2: Hash, t: real, t': real)
    ensures AreImagesSimilar(h1, h2, t) <==>
              |h1| == |h2| && DistanceSum(h1, h2, |h1|) as real <= t
    ensures |h1| != |h2| ==> !AreImagesSimilar(h1, h2, t)
    ensures AreImagesSimilar(h1, h2, t) == AreImagesSimilar(h2, h1, t)
    ensures t <= t' && AreImagesSimilar(h1, h2, t) ==> AreImagesSimilar(h1, h2, t')
    ensures 0.0 <= t ==> AreImagesSimilar(h1, h1, t)
  {
    HammingSelf(h1);
    if |h1| == |h2| {
      HammingBounds(h1, h2);
    }
  }

  /** The recorded pair is not similar at the default threshold. */
  lemma RecordedPairNotSimilar()
    ensures !AreImagesSimilar("07f240f1cccfc585", "6fc240f148ce5d95", DefaultThreshold)
  {
    HammingRecordedPair();
  }

  // ------------------------------------------------ low-frequency coefficients

  type Matrix = seq<seq<real>>

  /** The matrix has the 8x8 top-left block the hash reads (the DCT output is 32x32). */
  predicate CoversLowBlock(dct: Matrix) {
    |dct| >= 8 && forall i :: 0 <= i < 8 ==> |dct[i]| >= 8
  }

  /** The 8x8 block in row-major order without the DC coefficient at (0, 0). */
  function LowFrequency(dct: Matrix): (coeffs: seq<real>)
    requires CoversLowBlock(dct)
    ensures |coeffs| == 63
  {
    seq(63, k requires 0 <= k < 63 => dct[(k + 1) / 8][(k + 1) % 8])
  }

  /** Cell (i, j) of the block, other than (0, 0), is coefficient 8i + j - 1. */
  lemma LowFrequencyCell(dct: Matrix, i: nat, j: nat)
    requires CoversLowBlock(dct)
    requires i < 8 && j < 8 && (i, j) != (0, 0)
    ensures LowFrequency(dct)[8 * i + j - 1] == dct[i][j]
  {
    var k := 8 * i + j - 1;
    assert (k + 1) / 8 == i && (k + 1) % 8 == j;
  }

  /** The number of coefficients taken before cell (i, j) is visited. */
  function TakenBefore(i: nat, j: nat): nat {
    if i == 0 && j == 0 then 0 else 8 * i + j - 1
  }

  /** The nested loop that pushes the block's coefficients, skipping the DC one. */
  method SelectCoefficients(dct: Matrix) returns (hash: seq<real>)
    requires CoversLowBlock(dct)
    ensures hash == LowFrequency(dct)
  {
    hash := [];
    for i := 0 to 8
      invariant |hash| == TakenBefore(i, 0)
      invariant hash == LowFrequency(dct)[..|hash|]
    {
      for j := 0 to 8
        invariant |hash| == TakenBefore(i, j)
        invariant hash == LowFrequency(dct)[..|hash|]
      {
        if i == 0 && j == 0 {
          continue;
        }
        LowFrequencyCell(dct, i, j);
        hash := hash + [dct[i][j]];
      }
    }
  }

  // ------------------------------------------------------------------- median

  function Identity(x: real): real { x }

  /** `sorted[Math.floor(sorted.length / 2)]` of the numerically sorted values. */
  function Median(values: seq<real>): real
    requires |values| > 0
  {
    Sorting.SortBy(values, Identity)[|values| / 2]
  }

  /** The number of values strictly above `m`. */
  function CountAbove(s: seq<real>, m: real): nat {
    if s == [] then 0 else (if s[0] > m then 1 else 0) + CountAbove(s[1..], m)
  }

  lemma {:induction false} CountAboveConcat(a: seq<real>, b: seq<real>, m: real)
    ensures CountAbove(a + b, m) == CountAbove(a, m) + CountAbove(b, m)
  {
    if a == [] {
      assert a + b == b;
    } else {
      assert (a + b)[0] == a[0];
      assert (a + b)[1..] == a[1..] + b;
      CountAboveConcat(a[1..], b, m);
    }
  }

  lemma {:induction false} CountAbovePermutation(s: seq<real>, t: seq<real>, m: real)
    requires multiset(s) == multiset(t)
    ensures CountAbove(s, m) == CountAbove(t, m)
  {
    if s == [] {
      assert |t| == |multiset(t)| == 0;
    } else {
      var k := IndexOf(t, s[0]);
      var rest := t[..k] + t[k + 1..];
      Sorting.MultisetRemoveAt(t, k);
      assert s == [s[0]] + s[1..];
      assert multiset(s[1..]) == multiset(rest);
      CountAbovePermutation(s[1..], rest, m);
      CountAboveSplit(t, k, m);
      CountAboveConcat(t[..k], t[k + 1..], m);
    }
  }

  lemma IndexOf(t: seq<real>, x: real) returns (k: nat)
    requires x in multiset(t)
    ensures k < |t| && t[k] == x
  {
    k :| 0 <= k < |t| && t[k] == x;
  }

  lemma CountAboveSplit(t: seq<real>, k: nat, m: real)
    requires k < |t|
    ensures CountAbove(t, m) == CountAbove(t[..k], m) + (if t[k] > m then 1 else 0) + CountAbove(t[k + 1..], m)
  {
    assert t == t[..k] + ([t[k]] + t[k + 1..]);
    CountAboveConcat(t[..k], [t[k]] + t[k + 1..], m);
    assert ([t[k]] + t[k + 1..])[1..] == t[k + 1..];
  }

  lemma {:induction false} CountAboveAtMost(s: seq<real>, m: real)
    ensures CountAbove(s, m) <= |s|
  {
    if s != [] {
      CountAboveAtMost(s[1..], m);
    }
  }

  /**
   * At most `n - n/2 - 1` of `n` values lie strictly above the middle of
   * their sorted order: 31 of the 63 hash coefficients.
   */
  lemma MedianBound(values: seq<real>)
    requires |values| > 0
    ensures CountAbove(values, Median(values)) <= |values| - |values| / 2 - 1
  {
    var sorted := Sorting.SortBy(values, Identity);
    var h := |values| / 2;
    var m := sorted[h];
    CountAbovePermutation(values, sorted, m);
    CountAboveSplit(sorted, h, m);
    SortedPrefixAtMost(sorted, h);
    NoneAbove(sorted[..h], m);
    CountAboveAtMost(sorted[h + 1..], m);
  }

  lemma SortedPrefixAtMost(sorted: seq<real>, h: nat)
    requires h < |sorted| && Sorting.SortedBy(sorted, Identity)
    ensures forall k :: 0 <= k < |sorted[..h]| ==> sorted[..h][k] <= sorted[h]
  {
    forall k | 0 <= k < |sorted[..h]| ensures sorted[..h][k] <= sorted[h] {
      assert Identity(sorted[k]) <= Identity(sorted[h]);
    }
  }

  lemma {:induction false} NoneAbove(s: seq<real>, m: real)
    requires forall k :: 0 <= k < |s| ==> s[k] <= m
    ensures CountAbove(s, m) == 0
  {
    if s != [] {
      NoneAbove(s[1..], m);
    }
  }

  // --------------------------------------------------------------- bit string

  predicate IsBinary(s: string) {
    forall k :: 0 <= k < |s| ==> s[k] == '0' || s[k] == '1'
  }

  /** '1' for a value above the median, '0' otherwise, in coefficient order. */
  function BitString(values: seq<real>, median: real): (bits: string)
    ensures |bits| == |values| && IsBinary(bits)
  {
    seq(|values|, k requires 0 <= k < |values| => if values[k] > median then '1' else '0')
  }

  /** The loop that appends one character per coefficient to `binaryHash`. */
  method Binarize(hash: seq<real>, median: real) returns (binaryHash: string)
    ensures binaryHash == BitString(hash, median)
    ensures |binaryHash| == |hash|
    ensures forall k :: 0 <= k < |hash| ==> (binaryHash[k] == '1' <==> hash[k] > median)
  {
    binaryHash := "";
    for k := 0 to |hash|
      invariant binaryHash == BitString(hash[..k], median)
    {
      binaryHash := binaryHash + (if hash[k] > median then "1" else "0");
    }
    assert hash[..|hash|] == hash;
  }

  function Ones(s: string): nat {
    if s == [] then 0 else (if s[0] == '1' then 1 else 0) + Ones(s[1..])
  }

  lemma {:induction false} OnesCountAbove(values: seq<real>, m: real)
    ensures Ones(BitString(values, m)) == CountAbove(values, m)
  {
    if values != [] {
      assert BitString(values, m)[1..] == BitString(values[1..], m);
      OnesCountAbove(values[1..], m);
    }
  }

  // ------------------------------------------------------------- hex packing

  function Pow2(n: nat): nat {
    if n == 0 then 1 else 2 * Pow2(n - 1)
  }

  /** `parseInt(chunk, 2)` of a chunk of binary digits. */
  function BinaryValue(chunk: string): (v: nat)
    requires IsBinary(chunk)
    ensures v < Pow2(|chunk|)
  {
    if chunk == [] then 0
    else 2 * BinaryValue(chunk[..|chunk| - 1]) + (if chunk[|chunk| - 1] == '1' then 1 else 0)
  }

  function Min(a: nat, b: nat): nat { if a <= b then a else b }

  /** The chunk width of `binaryHash.substr(i, 4)` when `n` bits remain. */
  function ChunkWidth(n: nat): (w: nat)
    ensures w <= 4 && w <= n
    ensures n > 0 ==> w > 0
    ensures Pow2(w) <= 16
  {
    assert Pow2(4) == 16 && Pow2(3) == 8 && Pow2(2) == 4 && Pow2(1) == 2;
    Min(4, n)
  }

  /**
   * One hex digit per chunk of four bits; a last, shorter chunk is parsed as
   * it stands (so three bits give a digit below 8).
   */
  function HexPack(bits: string): (hex: string)
    requires IsBinary(bits)
  {
    if bits == [] then ""
    else
      var w := ChunkWidth(|bits|);
      [HexChar(BinaryValue(bits[..w]))] + HexPack(bits[w..])
  }

  /** The loop `for (i = 0; i < binaryHash.length; i += 4)` that builds `hexHash`. */
  method PackHex(binaryHash: string) returns (hexHash: string)
    requires IsBinary(binaryHash)
    ensures hexHash == HexPack(binaryHash)
  {
    hexHash := "";
    var i := 0;
    while i < |binaryHash|
      invariant i < |binaryHash| + 4
      invariant hexHash + HexPack(binaryHash[Min(i, |binaryHash|)..]) == HexPack(binaryHash)
    {
      var chunk := binaryHash[i..Min(i + 4, |binaryHash|)];
      PackHexStep(binaryHash, i, hexHash);
      hexHash := hexHash + [HexChar(BinaryValue(chunk))];
      i := i + 4;
    }
  }

  /** One turn of the loop of `PackHex` keeps its invariant. */
  lemma PackHexStep(bits: string, i: nat, acc: string)
    requires IsBinary(bits) && i < |bits|
    requires acc + HexPack(bits[i..]) == HexPack(bits)
    ensures IsBinary(bits[i..Min(i + 4, |bits|)])
    ensures BinaryValue(bits[i..Min(i + 4, |bits|)]) < 16
    ensures (acc + [HexChar(BinaryValue(bits[i..Min(i + 4, |bits|)]))]) + HexPack(bits[Min(i + 4, |bits|)..])
            == HexPack(bits)
  {
    HexPackStep(bits, i);
    AppendDigit(acc, HexChar(BinaryValue(bits[i..Min(i + 4, |bits|)])), HexPack(bits[Min(i + 4, |bits|)..]));
  }

  lemma AppendDigit(acc: string, digit: char, rest: string)
    ensures (acc + [digit]) + rest == acc + ([digit] + rest)
  {
  }

  /** Unfolds the packing of the bits from position `i` by one chunk. */
  lemma HexPackStep(bits: string, i: nat)
    requires IsBinary(bits) && i < |bits|
    ensures IsBinary(bits[i..Min(i + 4, |bits|)])
    ensures BinaryValue(bits[i..Min(i + 4, |bits|)]) < 16
    ensures HexPack(bits[i..]) ==
              [HexChar(BinaryValue(bits[i..Min(i + 4, |bits|)]))] + HexPack(bits[Min(i + 4, |bits|)..])
  {
    var w := ChunkWidth(|bits| - i);
    assert bits[i..][..w] == bits[i..Min(i + 4, |bits|)];
    assert bits[i..][w..] == bits[Min(i + 4, |bits|)..];
  }

  /** `width` binary digits of `v`, most significant first. */
  function BinaryDigits(v: nat, width: nat): (s: string)
    ensures |s| == width && IsBinary(s)
  {
    if width == 0 then "" else BinaryDigits(v / 2, width - 1) + [if v % 2 == 1 then '1' else '0']
  }

  lemma {:induction false} BinaryDigitsValue(chunk: string)
    requires IsBinary(chunk)
    ensures BinaryDigits(BinaryValue(chunk), |chunk|) == chunk
  {
    if chunk != [] {
      var init := chunk[..|chunk| - 1];
      BinaryDigitsValue(init);
      var v := BinaryValue(chunk);
      assert v / 2 == BinaryValue(init);
      assert chunk == init + [chunk[|chunk| - 1]];
    }
  }

  /** Reads `nbits` bits back out of a packed hash: four per digit, the rest from the last. */
  function Unpack(hex: string, nbits: nat): string
  {
    if hex == [] then ""
    else
      var w := ChunkWidth(nbits);
      BinaryDigits(NibbleValue(hex[0]), w) + Unpack(hex[1..], nbits - w)
  }

  /**
   * Packing is lossless: unpacking as many bits as were packed gives them
   * back. The packed form has one lowercase hex digit per started nibble.
   */
  lemma PackRoundTrip(bits: string)
    requires IsBinary(bits)
    ensures |HexPack(bits)| == (|bits| + 3) / 4
    ensures IsLowerHex(HexPack(bits))
    ensures Unpack(HexPack(bits), |bits|) == bits
  {
    PackLength(bits);
    PackLowerHex(bits);
    PackUnpack(bits);
  }

  lemma {:induction false} PackLength(bits: string)
    requires IsBinary(bits)
    ensures |HexPack(bits)| == (|bits| + 3) / 4
  {
    if bits != [] {
      PackLength(bits[ChunkWidth(|bits|)..]);
    }
  }

  lemma {:induction false} PackLowerHex(bits: string)
    requires IsBinary(bits)
    ensures IsLowerHex(HexPack(bits))
  {
    if bits != [] {
      var w := ChunkWidth(|bits|);
      var rest := HexPack(bits[w..]);
      PackLowerHex(bits[w..]);
      var hex := HexPack(bits);
      assert hex == [HexChar(BinaryValue(bits[..w]))] + rest;
      forall k | 0 <= k < |hex| ensures '0' <= hex[k] <= '9' || 'a' <= hex[k] <= 'f' {
        if k > 0 {
          assert hex[k] == rest[k - 1];
        }
      }
    }
  }

  lemma {:induction false} PackUnpack(bits: string)
    requires IsBinary(bits)
    ensures Unpack(HexPack(bits), |bits|) == bits
  {
    if bits != [] {
      var w := ChunkWidth(|bits|);
      var chunk, rest := bits[..w], bits[w..];
      var digit := HexChar(BinaryValue(chunk));
      var hex := HexPack(bits);
      PackUnpack(rest);
      assert hex[0] == digit && hex[1..] == HexPack(rest);
      BinaryDigitsValue(chunk);
      assert bits == chunk + rest;
    }
  }

  /** With 4k + 3 bits, the last digit holds three bits: its value is at most 7. */
  lemma {:induction false} PackLastDigit(bits: string)
    requires IsBinary(bits) && |bits| % 4 == 3
    ensures |HexPack(bits)| > 0
    ensures NibbleValue(HexPack(bits)[|HexPack(bits)| - 1]) <= 7
  {
    var w := ChunkWidth(|bits|);
    if |bits| == 3 {
      assert Pow2(3) == 8;
    } else {
      PackLastDigit(bits[w..]);
    }
  }

  // ----------------------------------------------------------- calculatePHash

  /** The hash computed from a coefficient matrix. */
  function DctHash(dct: Matrix): Hash
    requires CoversLowBlock(dct)
  {
    var coeffs := LowFrequency(dct);
    HexPack(BitString(coeffs, Median(coeffs)))
  }

  /** The fallback: the first 16 characters of the image's MD5 hex digest. */
  function Md5Prefix(md5Hex: string): Hash
    requires |md5Hex| == 32
  {
    md5Hex[..16]
  }

  /** `calculatePHash`: the DCT hash, or the MD5 prefix when decoding or the transform failed. */
  function PHashOf(dct: Option<Matrix>, md5Hex: string): Hash
    requires dct.Some? ==> CoversLowBlock(dct.value)
    requires |md5Hex| == 32
  {
    match dct
    case Some(m) => DctHash(m)
    case None => Md5Prefix(md5Hex)
  }

  /**
   * A DCT hash has 16 lowercase hex digits; its 63 bits, which unpack back
   * out of it, have at most 31 ones (the coefficients above the median) and
   * bit k is one exactly when coefficient k exceeds the median.
   */
  lemma DctHashShape(dct: Matrix)
    requires CoversLowBlock(dct)
    ensures |DctHash(dct)| == 16 && IsLowerHex(DctHash(dct))
    ensures NibbleValue(DctHash(dct)[15]) <= 7
    ensures var coeffs := LowFrequency(dct);
            var bits := Unpack(DctHash(dct), 63);
            && bits == BitString(coeffs, Median(coeffs))
            && Ones(bits) <= 31
            && forall k :: 0 <= k < 63 ==> (bits[k] == '1' <==> coeffs[k] > Median(coeffs))
  {
    var coeffs := LowFrequency(dct);
    var bits := BitString(coeffs, Median(coeffs));
    PackRoundTrip(bits);
    PackLastDigit(bits);
    MedianBound(coeffs);
    OnesCountAbove(coeffs, Median(coeffs));
  }

  /**
   * The fallback hash has the length of a DCT hash, so the two are compared
   * digit by digit rather than reported as incomparable.
   */
  lemma FallbackComparable(dct: Matrix, md5Hex: string)
    requires CoversLowBlock(dct) && |md5Hex| == 32
    ensures |Md5Prefix(md5Hex)| == |DctHash(dct)|
    ensures Hamming(Md5Prefix(md5Hex), DctHash(dct)).Finite?
    ensures Hamming(Md5Prefix(md5Hex), DctHash(dct)).bits <= 64
  {
    DctHashShape(dct);
    HammingBounds(Md5Prefix(md5Hex), DctHash(dct));
  }

  /** `calculatePHash` from the coefficient matrix on. */
  method CalculatePHash(dct: Option<Matrix>, md5Hex: string) returns (hexHash: Hash)
    requires dct.Some? ==> CoversLowBlock(dct.value)
    requires |md5Hex| == 32
    ensures hexHash == PHashOf(dct, md5Hex)
    ensures |hexHash| == 16
  {
    if dct.None? {
      return md5Hex[..16];
    }
    var hash := SelectCoefficients(dct.value);
    var sorted := Sorting.SortBy(hash, Identity);
    var median := sorted[|sorted| / 2];
    var binaryHash := Binarize(hash, median);
    hexHash := PackHex(binaryHash);
    DctHashShape(dct.value);
  }
}
