/**
 * The verdict of web-app/scripts/test-phash.ts. The script carries its own
 * copies of `calculatePHash`, `hammingDistance` and `areImagesSimilar`; they
 * are the same code as in web-app/src/utils/phash-utils.ts, so the members of
 * module `PHash` model both. The random images and the hashes the script
 * happens to compute for them are not modelled: the three hashes are inputs.
 */
module PHashTest {
  import opened Wrappers
  import opened PHash

  /** `dist <= 10` for a distance; `Infinity <= 10` is false. */
  predicate AtMost(d: Distance, bound: nat) {
    d.Finite? && d.bits <= bound
  }

  /** `dist > 10` for a distance; `Infinity > 10` is true. */
  predicate Above(d: Distance, bound: nat) {
    d.Infinite? || d.bits > bound
  }

  /** The test passes: the base image is similar to its noisy copy and not to the other image. */
  predicate TestPasses(hash1: Hash, hash2: Hash, hash3: Hash) {
    AreImagesSimilar(hash1, hash2, DefaultThreshold) && !AreImagesSimilar(hash1, hash3, DefaultThreshold)
  }

  /** `dist12 <= 10 && dist13 > 10`, the condition under which the script reports SUCCESS. */
  method Verdict(hash1: Hash, hash2: Hash, hash3: Hash) returns (success: bool)
    ensures success <==> TestPasses(hash1, hash2, hash3)
  {
    var dist12 := HammingDistance(hash1, hash2);
    var dist13 := HammingDistance(hash1, hash3);
    success := AtMost(dist12, 10) && Above(dist13, 10);
  }

  /**
   * A passing test needs three hashes where the base differs from the other
   * image's hash and from it the noisy copy's hash differs too; when the
   * base hash is compared with itself the test fails. For hashes of equal
   * length it passes exactly when the first distance is at most 10 and the
   * second above 10.
   */
  lemma TestPassesProperties(hash1: Hash, hash2: Hash, hash3: Hash)
    ensures TestPasses(hash1, hash2, hash3) ==> hash1 != hash3 && hash2 != hash3 && |hash1| == |hash2|
    ensures !TestPasses(hash1, hash2, hash1)
    ensures |hash1| == |hash2| == |hash3| ==>
              (TestPasses(hash1, hash2, hash3) <==>
                 Hamming(hash1, hash2).bits <= 10 < Hamming(hash1, hash3).bits)
  {
    HammingSelf(hash1);
    SimilarityProperties(hash1, hash2, DefaultThreshold, DefaultThreshold);
    SimilarityProperties(hash1, hash3, DefaultThreshold, DefaultThreshold);
  }

  /** Every hash `calculatePHash` returns has 16 characters. */
  lemma HashLength(dct: Option<Matrix>, md5Hex: string)
    requires dct.Some? ==> CoversLowBlock(dct.value)
    requires |md5Hex| == 32
    ensures |PHashOf(dct, md5Hex)| == 16
  {
    if dct.Some? {
      DctHashShape(dct.value);
    }
  }

  /**
   * Two hashes the script computes always have 16 characters, so the test
   * never fails for an `Infinity` distance: the verdict depends only on the
   * bit distances.
   */
  lemma ComputedHashesComparable(dct1: Option<Matrix>, dct2: Option<Matrix>, dct3: Option<Matrix>,
                                 md5a: string, md5b: string, md5c: string)
    requires dct1.Some? ==> CoversLowBlock(dct1.value)
    requires dct2.Some? ==> CoversLowBlock(dct2.value)
    requires dct3.Some? ==> CoversLowBlock(dct3.value)
    requires |md5a| == |md5b| == |md5c| == 32
    ensures var h1, h2, h3 := PHashOf(dct1, md5a), PHashOf(dct2, md5b), PHashOf(dct3, md5c);
            Hamming(h1, h2).Finite? && Hamming(h1, h3).Finite?
            && (TestPasses(h1, h2, h3) <==> Hamming(h1, h2).bits <= 10 < Hamming(h1, h3).bits)
  {
    var h1, h2, h3 := PHashOf(dct1, md5a), PHashOf(dct2, md5b), PHashOf(dct3, md5c);
    HashLength(dct1, md5a);
    HashLength(dct2, md5b);
    HashLength(dct3, md5c);
    TestPassesProperties(h1, h2, h3);
  }
}
