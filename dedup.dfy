/**
 * `remove_duplicate_images`: one greedy pass over a directory listing that
 * copies an image only when its fingerprint is not similar to the
 * fingerprint of any image copied before it.
 */
module Dedup {
  import opened Fingerprints
  import opened Folders

  function FingerprintOf(d: Folder, name: string): (h: Fingerprint)
  {
    d.image(name).fingerprint
  }

  /** No kept image is similar to `h`. */
  predicate FarFromAll(d: Folder, h: Fingerprint, kept: seq<string>, threshold: int)
  {
    forall k :: 0 <= k < |kept| ==> !AreSimilar(h, FingerprintOf(d, kept[k]), threshold)
  }

  /**
   * The names the pass copies after it has walked the entries `ns`, in the
   * order it copies them: each step keeps the next image entry exactly when
   * it is far from everything kept so far.
   */
  function Selection(d: Folder, ns: seq<string>, threshold: int): (kept: seq<string>)
    ensures |kept| <= |ns|
    ensures forall k :: 0 <= k < |kept| ==> kept[k] in ns && IsImageEntry(d, kept[k])
    decreases |ns|
  {
    if ns == [] then []
    else
      var n := ns[|ns| - 1];
      var prev := Selection(d, ns[..|ns| - 1], threshold);
      if IsImageEntry(d, n) && FarFromAll(d, FingerprintOf(d, n), prev, threshold) then prev + [n] else prev
  }

  /** The image entries of `ns`, in order: what a pass that discards nothing would copy. */
  function ImageEntries(d: Folder, ns: seq<string>): (r: seq<string>)
    decreases |ns|
  {
    if ns == [] then []
    else
      var prev := ImageEntries(d, ns[..|ns| - 1]);
      if IsImageEntry(d, ns[|ns| - 1]) then prev + [ns[|ns| - 1]] else prev
  }

  /** `a` can be obtained from `b` by deleting elements. */
  predicate IsSubsequence(a: seq<string>, b: seq<string>)
    decreases |b|
  {
    if a == [] then true
    else if b == [] then false
    else (a[|a| - 1] == b[|b| - 1] && IsSubsequence(a[..|a| - 1], b[..|b| - 1]))
         || IsSubsequence(a, b[..|b| - 1])
  }

  /** `image_hashes`: each kept name mapped to its fingerprint. */
  function HashTable(d: Folder, kept: seq<string>): (table: map<string, Fingerprint>)
  {
    map k | k in kept :: FingerprintOf(d, k)
  }

  /** The `any(...)` over the table's values is the negation of FarFromAll on the kept names. */
  lemma AnySimilarIffNotFar(d: Folder, h: Fingerprint, kept: seq<string>, threshold: int)
    ensures (exists v :: v in HashTable(d, kept).Values && AreSimilar(h, v, threshold))
            <==> !FarFromAll(d, h, kept, threshold)
  {
    var m := HashTable(d, kept);
    if exists v :: v in m.Values && AreSimilar(h, v, threshold) {
      var v :| v in m.Values && AreSimilar(h, v, threshold);
      var name :| name in m && m[name] == v;
      var k :| 0 <= k < |kept| && kept[k] == name;
      assert !AreSimilar(h, FingerprintOf(d, kept[k]), threshold) == false;
    }
    if !FarFromAll(d, h, kept, threshold) {
      var k :| 0 <= k < |kept| && AreSimilar(h, FingerprintOf(d, kept[k]), threshold);
      assert kept[k] in m;
      assert m[kept[k]] in m.Values;
    }
  }

  /**
   * The pass itself.  `copied` lists the names handed to `copy2`, in order;
   * `imageHashes` is the final state of the `image_hashes` dictionary.
   */
  method RemoveDuplicateImages(d: Folder, threshold: int) returns (copied: seq<string>, imageHashes: map<string, Fingerprint>)
    ensures copied == Selection(d, d.names, threshold)
    ensures imageHashes == HashTable(d, copied)
  {
    copied := [];
    imageHashes := map[];
    for i := 0 to |d.names|
      invariant copied == Selection(d, d.names[..i], threshold)
      invariant imageHashes == HashTable(d, copied)
    {
      var name := d.names[i];
      assert d.names[..i + 1][..i] == d.names[..i];
      if IsImageEntry(d, name) {
        var current := d.image(name).fingerprint;
        var similar := exists h :: h in imageHashes.Values && AreSimilar(current, h, threshold);
        AnySimilarIffNotFar(d, current, copied, threshold);
        if !similar {
          imageHashes := imageHashes[name := current];
          copied := copied + [name];
          assert imageHashes == HashTable(d, copied);
        }
      }
    }
    assert d.names[..|d.names|] == d.names;
  }

  // ---------------------------------------------------------------- properties of the pass

  /** One step of the pass: the entry is kept exactly when it is an image far from every kept fingerprint. */
  lemma StepKeepsIff(d: Folder, ns: seq<string>, j: int, threshold: int)
    requires 0 <= j < |ns|
    ensures var prev := Selection(d, ns[..j], threshold);
            var n := ns[j];
            Selection(d, ns[..j + 1], threshold)
              == if IsImageEntry(d, n) && forall k :: 0 <= k < |prev| ==> Distance(FingerprintOf(d, n), FingerprintOf(d, prev[k])) >= threshold
                 then prev + [n] else prev
  {
    assert ns[..j + 1][..j] == ns[..j];
  }

  /** Any two distinct positions of `kept` hold fingerprints at least `threshold` apart. */
  predicate PairwiseFar(d: Folder, kept: seq<string>, threshold: int)
  {
    forall i, j :: 0 <= i < |kept| && 0 <= j < |kept| && i != j ==>
      Distance(FingerprintOf(d, kept[i]), FingerprintOf(d, kept[j])) >= threshold
  }

  /** Any two kept images are at least `threshold` apart. */
  lemma {:induction false} SelectionPairwiseFar(d: Folder, ns: seq<string>, threshold: int)
    ensures PairwiseFar(d, Selection(d, ns, threshold), threshold)
    decreases |ns|
  {
    if ns != [] {
      var n := ns[|ns| - 1];
      var prev := Selection(d, ns[..|ns| - 1], threshold);
      SelectionPairwiseFar(d, ns[..|ns| - 1], threshold);
      var kept := Selection(d, ns, threshold);
      if IsImageEntry(d, n) && FarFromAll(d, FingerprintOf(d, n), prev, threshold) {
        assert kept == prev + [n];
        var last := |prev|;
        forall i, j | 0 <= i < |kept| && 0 <= j < |kept| && i != j
          ensures Distance(FingerprintOf(d, kept[i]), FingerprintOf(d, kept[j])) >= threshold
        {
          SimilarSymmetric(FingerprintOf(d, kept[i]), FingerprintOf(d, kept[j]), threshold);
          if i == last {
            assert kept[j] == prev[j];
            assert !AreSimilar(FingerprintOf(d, n), FingerprintOf(d, prev[j]), threshold);
          } else if j == last {
            assert kept[i] == prev[i];
            assert !AreSimilar(FingerprintOf(d, n), FingerprintOf(d, prev[i]), threshold);
          } else {
            assert kept[i] == prev[i] && kept[j] == prev[j];
          }
        }
      } else {
        assert kept == prev;
      }
    }
  }

  /** With a positive threshold no two kept images have the same fingerprint. */
  lemma SelectionHasNoIdenticalPair(d: Folder, ns: seq<string>, threshold: int)
    requires threshold > 0
    ensures var kept := Selection(d, ns, threshold);
            forall i, j :: 0 <= i < |kept| && 0 <= j < |kept| && i != j ==>
              FingerprintOf(d, kept[i]) != FingerprintOf(d, kept[j])
  {
    SelectionPairwiseFar(d, ns, threshold);
    var kept := Selection(d, ns, threshold);
    assert PairwiseFar(d, kept, threshold);
  }

  /** The kept list only grows: what was kept after a prefix stays kept, at the same place. */
  lemma {:induction false} SelectionGrows(d: Folder, ns: seq<string>, m: int, threshold: int)
    requires 0 <= m <= |ns|
    ensures var before := Selection(d, ns[..m], threshold);
            var after := Selection(d, ns, threshold);
            |before| <= |after| && after[..|before|] == before
    decreases |ns| - m
  {
    if m == |ns| {
      assert ns[..m] == ns;
    } else {
      var n := |ns| - 1;
      SelectionGrows(d, ns[..n], m, threshold);
      assert ns[..n][..m] == ns[..m];
      var mid := Selection(d, ns[..n], threshold);
      var after := Selection(d, ns, threshold);
      assert after == mid || after == mid + [ns[n]];
    }
  }

  /** `image_hashes` never loses an entry: every name it held after a prefix it still holds, with the same fingerprint. */
  lemma HashTableGrows(d: Folder, ns: seq<string>, m: int, threshold: int)
    requires 0 <= m <= |ns|
    ensures var before := HashTable(d, Selection(d, ns[..m], threshold));
            var after := HashTable(d, Selection(d, ns, threshold));
            forall name :: name in before ==> name in after && after[name] == before[name]
  {
    SelectionGrows(d, ns, m, threshold);
    var kBefore := Selection(d, ns[..m], threshold);
    var kAfter := Selection(d, ns, threshold);
    forall name | name in kBefore ensures name in kAfter {
      var k :| 0 <= k < |kBefore| && kBefore[k] == name;
      assert kAfter[k] == name;
    }
  }

  /** The kept names are image entries of the listing, in listing order. */
  lemma {:induction false} SelectionIsSubsequence(d: Folder, ns: seq<string>, threshold: int)
    ensures IsSubsequence(Selection(d, ns, threshold), ImageEntries(d, ns))
    decreases |ns|
  {
    if ns != [] {
      var n := |ns| - 1;
      SelectionIsSubsequence(d, ns[..n], threshold);
      var prev := Selection(d, ns[..n], threshold);
      var entries := ImageEntries(d, ns[..n]);
      var kept := Selection(d, ns, threshold);
      if IsImageEntry(d, ns[n]) {
        var all := ImageEntries(d, ns);
        assert all[..|all| - 1] == entries;
        if kept != prev {
          assert kept[..|kept| - 1] == prev;
        }
      }
    }
  }

  /** A pass that meets no image entry copies nothing. */
  lemma {:induction false} NoImageEntryKeepsNothing(d: Folder, ns: seq<string>, threshold: int)
    requires forall j :: 0 <= j < |ns| ==> !IsImageEntry(d, ns[j])
    ensures Selection(d, ns, threshold) == []
    decreases |ns|
  {
    if ns != [] {
      NoImageEntryKeepsNothing(d, ns[..|ns| - 1], threshold);
    }
  }

  /** The first image entry of the listing is always kept, and is the first copy. */
  lemma FirstImageEntryKept(d: Folder, ns: seq<string>, k: int, threshold: int)
    requires 0 <= k < |ns| && IsImageEntry(d, ns[k])
    requires forall j :: 0 <= j < k ==> !IsImageEntry(d, ns[j])
    ensures |Selection(d, ns, threshold)| > 0 && Selection(d, ns, threshold)[0] == ns[k]
  {
    NoImageEntryKeepsNothing(d, ns[..k], threshold);
    StepKeepsIff(d, ns, k, threshold);
    SelectionGrows(d, ns, k + 1, threshold);
  }

  /** With a threshold of zero or below nothing is similar, so every image entry is kept. */
  lemma {:induction false} NonPositiveThresholdKeepsAll(d: Folder, ns: seq<string>, threshold: int)
    requires threshold <= 0
    ensures Selection(d, ns, threshold) == ImageEntries(d, ns)
    decreases |ns|
  {
    if ns != [] {
      NonPositiveThresholdKeepsAll(d, ns[..|ns| - 1], threshold);
    }
  }

  /**
   * With a positive threshold, an image whose fingerprint equals that of an
   * earlier kept image is discarded.
   */
  lemma DuplicateOfKeptDiscarded(d: Folder, ns: seq<string>, i: int, j: int, threshold: int)
    requires threshold > 0
    requires 0 <= i < j < |ns|
    requires Selection(d, ns[..i + 1], threshold) == Selection(d, ns[..i], threshold) + [ns[i]]
    requires FingerprintOf(d, ns[j]) == FingerprintOf(d, ns[i])
    ensures Selection(d, ns[..j + 1], threshold) == Selection(d, ns[..j], threshold)
  {
    var before := Selection(d, ns[..i + 1], threshold);
    SelectionGrows(d, ns[..j], i + 1, threshold);
    assert ns[..j][..i + 1] == ns[..i + 1];
    var prev := Selection(d, ns[..j], threshold);
    var k := |before| - 1;
    assert prev[k] == before[k] == ns[i];
    var h := FingerprintOf(d, ns[j]);
    assert AreSimilar(h, FingerprintOf(d, prev[k]), threshold);
    assert !FarFromAll(d, h, prev, threshold);
    StepKeepsIff(d, ns, j, threshold);
  }
}
