/**
 * Comparing face embeddings: `dotProduct` (defined identically in
 * web-app/src/app/api/identify/route.ts and
 * web-app/scripts/cleanup-unknown-faces.ts), the JavaScript `>` comparison
 * against a threshold, and the best-match scan of the identification route.
 *
 * Arithmetic is exact. `a.reduce((sum, val, i) => sum + val * b[i], 0)` reads
 * `b[i]` for every index of `a`; when `b` is shorter, `b[i]` is `undefined`
 * and the sum is NaN, which is modelled as `None`.
 */
module Similarity {
  import opened Wrappers

  type Embedding = seq<real>

  /** The sum of `a[i] * b[i]` over the first `n` indices. */
  function Dot(a: Embedding, b: Embedding, n: nat): real
    requires n <= |a| && n <= |b|
  {
    if n == 0 then 0.0 else Dot(a, b, n - 1) + a[n - 1] * b[n - 1]
  }

  /** `dotProduct(a, b)`: the sum over the indices of `a`; NaN (`None`) when `b` is shorter. */
  function DotProduct(a: Embedding, b: Embedding): (sim: Option<real>)
    ensures sim.None? <==> |b| < |a|
    ensures a == [] ==> sim == Some(0.0)
  {
    if |b| < |a| then None else Some(Dot(a, b, |a|))
  }

  /** `sim > t` in JavaScript: false when `sim` is NaN. */
  predicate Exceeds(sim: Option<real>, t: real) {
    sim.Some? && sim.value > t
  }

  lemma {:induction false} DotSymmetric(a: Embedding, b: Embedding, n: nat)
    requires n <= |a| && n <= |b|
    ensures Dot(a, b, n) == Dot(b, a, n)
  {
    if n > 0 {
      DotSymmetric(a, b, n - 1);
    }
  }

  lemma {:induction false} DotPrefix(a: Embedding, b: Embedding, b': Embedding, n: nat)
    requires n <= |a| && n <= |b| && n <= |b'|
    requires b[..n] == b'[..n]
    ensures Dot(a, b, n) == Dot(a, b', n)
  {
    if n > 0 {
      assert b[n - 1] == b[..n][n - 1] && b'[n - 1] == b'[..n][n - 1];
      assert b[..n - 1] == b[..n][..n - 1] && b'[..n - 1] == b'[..n][..n - 1];
      DotPrefix(a, b, b', n - 1);
    }
  }

  lemma {:induction false} DotSelfNonNegative(a: Embedding, n: nat)
    requires n <= |a|
    ensures Dot(a, a, n) >= 0.0
  {
    if n > 0 {
      DotSelfNonNegative(a, n - 1);
    }
  }

  /**
   * The dot product is symmetric for embeddings of equal length, ignores the
   * components of `b` past the length of `a`, and is never negative for an
   * embedding against itself.
   */
  lemma DotProductProperties(a: Embedding, b: Embedding)
    ensures |a| == |b| ==> DotProduct(a, b) == DotProduct(b, a)
    ensures |a| <= |b| ==> DotProduct(a, b) == DotProduct(a, b[..|a|])
    ensures DotProduct(a, a).Some? && DotProduct(a, a).value >= 0.0
  {
    if |a| == |b| {
      DotSymmetric(a, b, |a|);
    }
    if |a| <= |b| {
      DotPrefix(a, b, b[..|a|], |a|);
    }
    DotSelfNonNegative(a, |a|);
  }

  // ------------------------------------------------------------ best match

  /** The state of a best-match scan: the index of `bestMatch` (null: `None`) and `maxSim`. */
  datatype Best = Best(index: Option<nat>, score: real)

  /** The initial score of a scan: `let maxSim = -1`. */
  const Floor: real := -1.0

  /**
   * The scan over the first `n` candidates: a candidate replaces the current
   * best only when its similarity is strictly greater.
   */
  function Scan(q: Embedding, candidates: seq<Embedding>, n: nat): (b: Best)
    requires n <= |candidates|
    ensures b.index.None? ==> b.score == Floor
    ensures b.index.Some? ==> b.index.value < n && b.score > Floor
                              && DotProduct(q, candidates[b.index.value]) == Some(b.score)
  {
    if n == 0 then Best(None, Floor)
    else
      var prev := Scan(q, candidates, n - 1);
      var sim := DotProduct(q, candidates[n - 1]);
      if Exceeds(sim, prev.score) then Best(Some(n - 1), sim.value) else prev
  }

  /**
   * Candidate `k` attains `score`, no candidate exceeds it, and every
   * candidate before `k` is strictly below it.
   */
  predicate FirstMaximiser(q: Embedding, candidates: seq<Embedding>, k: nat, score: real) {
    && k < |candidates|
    && DotProduct(q, candidates[k]) == Some(score)
    && (forall m :: 0 <= m < |candidates| ==> !Exceeds(DotProduct(q, candidates[m]), score))
    && (forall m :: 0 <= m < k ==> !(DotProduct(q, candidates[m]).Some? && DotProduct(q, candidates[m]).value >= score))
  }

  /**
   * The scan finds the first candidate of maximal similarity: none exceeds
   * the score, and every one before the chosen index is strictly below it.
   */
  lemma {:induction false} ScanFirstMaximum(q: Embedding, candidates: seq<Embedding>, n: nat)
    requires n <= |candidates|
    ensures var b := Scan(q, candidates, n);
            forall m :: 0 <= m < n ==> !Exceeds(DotProduct(q, candidates[m]), b.score)
    ensures var b := Scan(q, candidates, n);
            b.index.Some? ==>
              forall m :: 0 <= m < b.index.value ==>
                !(DotProduct(q, candidates[m]).Some? && DotProduct(q, candidates[m]).value >= b.score)
  {
    if n > 0 {
      ScanFirstMaximum(q, candidates, n - 1);
    }
  }

  /** A scan over all candidates that chooses one chooses the first maximiser. */
  lemma ScanChoosesFirstMaximiser(q: Embedding, candidates: seq<Embedding>)
    ensures var b := Scan(q, candidates, |candidates|);
            b.index.Some? ==> FirstMaximiser(q, candidates, b.index.value, b.score)
  {
    ScanFirstMaximum(q, candidates, |candidates|);
  }

  /**
   * For a threshold `t >= -1`, `bestMatch && maxSim > t` holds exactly when
   * some candidate's similarity exceeds `t`. (Candidates at or below -1 are
   * never chosen, so below -1 the equivalence would fail.)
   */
  lemma ScanThreshold(q: Embedding, candidates: seq<Embedding>, t: real)
    requires t >= Floor
    ensures var b := Scan(q, candidates, |candidates|);
            (b.index.Some? && b.score > t) <==>
              exists m :: 0 <= m < |candidates| && Exceeds(DotProduct(q, candidates[m]), t)
  {
    var b := Scan(q, candidates, |candidates|);
    ScanFirstMaximum(q, candidates, |candidates|);
    if b.index.Some? && b.score > t {
      assert Exceeds(DotProduct(q, candidates[b.index.value]), t);
    }
  }

  /** The loop `for (const known of knownEmbeddings)` that updates `maxSim` and `bestMatch`. */
  method ScanBest(q: Embedding, candidates: seq<Embedding>) returns (bestMatch: Option<nat>, maxSim: real)
    ensures Best(bestMatch, maxSim) == Scan(q, candidates, |candidates|)
  {
    bestMatch, maxSim := None, Floor;
    for k := 0 to |candidates|
      invariant Best(bestMatch, maxSim) == Scan(q, candidates, k)
    {
      var sim := DotProduct(q, candidates[k]);
      if Exceeds(sim, maxSim) {
        maxSim := sim.value;
        bestMatch := Some(k);
      }
    }
  }
}
