/**
 * Perceptual-hash fingerprints and the similarity test `are_images_similar`.
 *
 * `imagehash.average_hash` with its default `hash_size = 8` yields an 8x8
 * boolean matrix; subtracting two such hashes counts the positions at which
 * they differ.  A fingerprint is therefore a bit string of length 64 and the
 * difference of two fingerprints is their Hamming distance.
 */
module Fingerprints {

  /** Bits in an average hash of the default size 8 x 8. */
  const HashBits: nat := 64

  type Fingerprint = h: seq<bool> | |h| == HashBits witness seq(HashBits, i => false)

  /** Number of positions at which two bit strings of equal length differ. */
  function BitDistance(a: seq<bool>, b: seq<bool>): (d: nat)
    requires |a| == |b|
    ensures d <= |a|
    ensures d == 0 <==> a == b
    decreases |a|
  {
    if |a| == 0 then 0
    else
      var n := |a| - 1;
      assert a == a[..n] + [a[n]] && b == b[..n] + [b[n]];
      BitDistance(a[..n], b[..n]) + (if a[n] != b[n] then 1 else 0)
  }

  /** The positions at which two bit strings differ: the textbook definition of Hamming distance. */
  ghost function DifferingPositions(a: seq<bool>, b: seq<bool>): (positions: set<int>)
    requires |a| == |b|
  {
    set i | 0 <= i < |a| && a[i] != b[i]
  }

  /** The recursive count is the number of differing positions. */
  lemma {:induction false} BitDistanceCountsDifferences(a: seq<bool>, b: seq<bool>)
    requires |a| == |b|
    ensures BitDistance(a, b) == |DifferingPositions(a, b)|
    decreases |a|
  {
    if |a| > 0 {
      var n := |a| - 1;
      BitDistanceCountsDifferences(a[..n], b[..n]);
      var prefix := DifferingPositions(a[..n], b[..n]);
      if a[n] != b[n] {
        assert DifferingPositions(a, b) == prefix + {n};
        assert n !in prefix;
      } else {
        assert DifferingPositions(a, b) == prefix;
      }
    }
  }

  lemma {:induction false} BitDistanceSymmetric(a: seq<bool>, b: seq<bool>)
    requires |a| == |b|
    ensures BitDistance(a, b) == BitDistance(b, a)
    decreases |a|
  {
    if |a| > 0 {
      BitDistanceSymmetric(a[..|a| - 1], b[..|b| - 1]);
    }
  }

  /** `hash1 - hash2` on two average hashes. */
  function Distance(h1: Fingerprint, h2: Fingerprint): (d: nat)
    ensures d <= HashBits
    ensures d == 0 <==> h1 == h2
  {
    BitDistance(h1, h2)
  }

  /**
   * `are_images_similar`: `abs(hash1 - hash2) < threshold`.  The difference
   * is never negative, so `abs` leaves it unchanged.
   */
  predicate AreSimilar(h1: Fingerprint, h2: Fingerprint, threshold: int)
    ensures threshold <= 0 ==> !AreSimilar(h1, h2, threshold)
    ensures threshold > HashBits ==> AreSimilar(h1, h2, threshold)
    ensures h1 == h2 ==> (AreSimilar(h1, h2, threshold) <==> threshold > 0)
  {
    Distance(h1, h2) < threshold
  }

  /** Similarity does not depend on the order of its arguments. */
  lemma SimilarSymmetric(h1: Fingerprint, h2: Fingerprint, threshold: int)
    ensures AreSimilar(h1, h2, threshold) == AreSimilar(h2, h1, threshold)
    ensures Distance(h1, h2) == Distance(h2, h1)
  {
    BitDistanceSymmetric(h1, h2);
  }

  /** A distance exactly equal to the threshold counts as distinct, one below it as similar. */
  lemma ThresholdBoundary(h1: Fingerprint, h2: Fingerprint)
    ensures !AreSimilar(h1, h2, Distance(h1, h2))
    ensures AreSimilar(h1, h2, Distance(h1, h2) + 1)
  {
  }
}
