# video2ppt frame selection, modelled in Dafny

video2ppt turns a screen recording into a few slide images. It samples frames
with ffmpeg, then runs two passes over the frame directory:

- `remove_duplicate_images` walks the directory once. It copies a frame only
  when the frame's average hash is not similar to the hash of any frame it
  has already copied. Two hashes are similar when their Hamming distance is
  strictly below `similar_threshold`.
- `filter_ppt_images` walks the deduplicated directory once. It copies every
  frame that `is_ppt_slide` accepts. A frame is a slide when the share of
  white pixels in its central crop is above `white_area_threshold`, or when
  its OCR text has more than `text_threshold` characters after normalisation.

The model covers both passes, the similarity test, the extension check that
decides which entries either pass looks at, and the three parts of the slide
rule: white-pixel count, text normalisation and the decision.

Modules, one per component:

- `Wrappers` (wrappers.dfy): `Option` and `Result`.
- `Fingerprints` (fingerprints.dfy): 64-bit fingerprints, Hamming distance and
  `are_images_similar`.
- `Classifier` (classifier.dfy): white-pixel count, `replace`/`strip` text
  normalisation, the disjunctive decision, and `is_ppt_slide` as `Classify`.
- `Folders` (folders.dfy): a directory as a value, `os.path.join` and the
  `.png`/`.jpg`/`.jpeg` check.
- `Dedup` (dedup.dfy): `remove_duplicate_images` as a loop (`RemoveDuplicateImages`).
  It is proved equal to a recursive greedy selection (`Selection`) and to the
  dictionary `image_hashes` built from it (`HashTable`).
- `SlideFilter` (slidefilter.dfy): `filter_ppt_images` as a loop
  (`FilterPptImages`). It is proved equal to a recursive pass (`Outcome`).
  `Outcome` is in turn characterised by a plain filter (`AcceptedSlides`).

How the external parts become inputs:

- A directory is a `Folder`. It holds the names in the order `os.listdir`
  returns them (never sorted), which names are regular files, and, for each
  name, an `ImageData`.
- An `ImageData` holds what the libraries would compute from the file: the
  average hash, the pixels of the cropped centre region, and the OCR text of
  that region.
- A "copy" is an append to the output sequence.
- The data of a file is a function of its name. So the dictionary keyed by
  name can never hold two different hashes for one name.

Where the code and the system's design disagree, the model follows the
code:

- The design asks for sorting frames by their index before deduplication.
  The code processes `os.listdir` order as given, so the model does too.
- The design is inconsistent about the threshold. In one place it says a
  frame is kept when its distance "exceeds" the threshold. Its own edge-case
  rule says that a distance equal to the threshold counts as distinct, and so
  does the code, which keeps a frame when no distance is strictly below the
  threshold. The model follows the edge-case rule and the code.
- The design leaves OCR failure open. The only failure the model represents is
  the division by `n_total` on an empty region. The model makes it
  an explicit `Failure`, and `filter_ppt_images` stops at that entry.

## Model

| member | source | states |
|---|---|---|
| Fingerprints.BitDistance | main.py:69 | The distance of two equal-length bit strings is at most their length, and zero exactly when they are equal |
| Fingerprints.BitDistanceCountsDifferences | main.py:69 | The recursive distance equals the number of positions at which the two strings differ |
| Fingerprints.BitDistanceSymmetric | main.py:69 | The distance does not depend on argument order |
| Fingerprints.Distance | main.py:69 | `hash1 - hash2` on 64-bit average hashes lies in 0..64 and is 0 exactly for identical hashes |
| Fingerprints.AreSimilar | main.py:68-69 | Nothing is similar when the threshold is 0 or below; everything is when it exceeds 64; identical hashes are similar exactly when the threshold is positive |
| Fingerprints.SimilarSymmetric | main.py:68-69 | Similarity and distance are symmetric |
| Fingerprints.ThresholdBoundary | main.py:69 | A distance equal to the threshold is not similar; a threshold one above the distance is |
| Classifier.WhiteCount | main.py:33-34 | `n_white` never exceeds `n_total` |
| Classifier.WhiteCountExtremes | main.py:33 | The count equals the region size exactly when every pixel has all channels above the threshold, and is zero exactly when no pixel does |
| Classifier.WhiteCountAppend | main.py:33 | The count is additive over any split of the pixel sequence |
| Classifier.WhiteCountAntitone | main.py:33 | A higher brightness threshold never yields more white pixels |
| Classifier.RemoveChar | main.py:39 | After `replace(c, '')` the character is absent and the string is no longer |
| Classifier.RemoveCharAppend | main.py:39 | `replace(c, '')` works piecewise: deleting from `a + b` gives the deletion from `a` followed by the deletion from `b`, so the kept characters stay in input order |
| Classifier.RemoveCharAbsent | main.py:39 | A string without the character is returned unchanged |
| Classifier.RemoveCharCounts | main.py:39 | `replace(c, '')` keeps the number of occurrences of every other character |
| Classifier.RemoveCharMembership | main.py:39 | Every other character is present after the deletion exactly when it was before |
| Classifier.StripLeading | main.py:39 | The result is the suffix after the leading whitespace and does not start with whitespace |
| Classifier.StripTrailing | main.py:39 | The result is the prefix before the trailing whitespace and does not end with whitespace |
| Classifier.StripIsInfix | main.py:39 | `strip()` returns a contiguous piece of its input, starting after the leading whitespace |
| Classifier.StripTrailingSpace | main.py:39 | Only whitespace follows the stripped piece in the input |
| Classifier.StripShape | main.py:39 | Only whitespace lies outside the stripped piece, and a non-empty result has no whitespace at either end |
| Classifier.StripIdempotent | main.py:39 | Stripping twice is stripping once |
| Classifier.StripEmptyIff | main.py:39 | A string strips to empty exactly when all its characters are whitespace |
| Classifier.StripKeepsAbsence | main.py:39 | Stripping introduces no character |
| Classifier.NormalisedTextShape | main.py:39 | The normalised OCR text has no `\n` or `\r`, no surrounding whitespace, and `text_length` is at most the raw length |
| Classifier.TextLengthZeroIff | main.py:39 | `text_length` is 0 exactly when the OCR text is whitespace only |
| Classifier.WhiteRatioMatchesQuotient | main.py:35-42 | The integer test `n_white * den > num * n_total` agrees with `n_white / n_total > num / den` on exact rationals when `n_total > 0` |
| Classifier.WhiteAloneSuffices | main.py:42 | A white ratio above the threshold makes a slide whatever the text length |
| Classifier.TextAloneSuffices | main.py:42 | A text length above the threshold makes a slide whatever the white ratio |
| Classifier.NeitherSignalRejects | main.py:42 | When neither signal passes its threshold the frame is not a slide |
| Classifier.DecisionMonotone | main.py:42 | More white pixels or more text never turn a slide into a non-slide |
| Classifier.DefaultScenarios | main.py:24-42 | With the default thresholds: ratio 0.9 and no text is a slide; ratio 0.1 and 60 characters is a slide; ratio 0.1 and 10 characters is not; ratio 0.5 and 50 characters is not, because both tests are strict |
| Classifier.Classify | main.py:30-42 | `is_ppt_slide` fails exactly on an empty region; otherwise `n_total` is the region size, `n_white` is the white-pixel count of this region, `text_length` is the normalised length of this OCR text (so `n_white <= n_total` and `text_length` is at most the OCR text length), and the verdict is the disjunctive rule on those values |
| Classifier.AllWhiteIsSlide | main.py:24-42 | With the defaults a non-empty region of white pixels is a slide whatever the OCR text |
| Classifier.DarkRegionNeedsText | main.py:24-42 | With the defaults a non-empty region without white pixels is a slide exactly when more than 50 characters of text remain |
| Folders.Join | main.py:49 | `os.path.join(folder, name)` ends with `name` |
| Folders.ExtensionIgnoresCase | main.py:50 | The extension test gives the same answer on a lower-cased path |
| Folders.JoinedPathHasExtensionIffName | main.py:49-50 | For a non-empty entry name, testing the joined path is the same as testing the name |
| Folders.ExtensionExamples | main.py:50 | `img_00001.png` and `Slide.JPEG` pass the test; `slide.gif` does not |
| Dedup.Selection | main.py:58-65 | The kept names are no more than the entries, and each one is an image entry of the listing |
| Dedup.AnySimilarIffNotFar | main.py:63 | The `any(...)` over the dictionary's values is true exactly when some kept name's fingerprint is similar |
| Dedup.RemoveDuplicateImages | main.py:55-66 | The loop's copies equal the greedy selection over the listing, and its final `image_hashes` maps exactly the copied names to their fingerprints |
| Dedup.StepKeepsIff | main.py:61-65 | An entry is kept exactly when it is an image entry whose distance to every fingerprint kept so far is at least the threshold; otherwise nothing changes |
| Dedup.SelectionPairwiseFar | main.py:63-64 | Any two kept images are at distance at least the threshold |
| Dedup.SelectionHasNoIdenticalPair | main.py:63-64 | With a positive threshold no two kept images have equal fingerprints |
| Dedup.SelectionGrows | main.py:63-65 | What is kept after a prefix of the listing stays kept, in the same positions |
| Dedup.HashTableGrows | main.py:58-64 | `image_hashes` never loses an entry or changes a stored fingerprint |
| Dedup.SelectionIsSubsequence | main.py:59-65 | The kept names are a subsequence of the image entries, in listing order |
| Dedup.NoImageEntryKeepsNothing | main.py:59-65 | A listing without image entries copies nothing |
| Dedup.FirstImageEntryKept | main.py:58-65 | The first image entry is always kept and is the first copy |
| Dedup.NonPositiveThresholdKeepsAll | main.py:63-69 | With a threshold of 0 or below every image entry is kept |
| Dedup.DuplicateOfKeptDiscarded | main.py:62-65 | With a positive threshold a later image whose fingerprint equals a kept one is discarded |
| SlideFilter.FailsIffClassifyRaises | main.py:51 | An entry fails exactly when it is an image entry on which `is_ppt_slide` raises |
| SlideFilter.AcceptedSlides | main.py:50-53 | Every name in the reference filter is an image entry of the listing that the classifier accepts |
| SlideFilter.AcceptedSlideIncluded | main.py:50-53 | Every image entry of the listing that the classifier accepts is in the reference filter, the converse of `AcceptedSlides`'s contract |
| SlideFilter.StepOnImage | main.py:50-53 | On an image entry the pass records the failure, appends an accepted slide, or leaves a rejected frame out |
| SlideFilter.FailureIsFinal | main.py:48-53 | Once a classification has raised, later entries change nothing |
| SlideFilter.FilterPptImages | main.py:45-53 | The loop's copies and its stopping entry equal the recursive pass over the listing |
| SlideFilter.OutcomeWithoutFailure | main.py:48-53 | When no image entry makes the classifier raise, the pass completes and copies exactly the accepted slides, in listing order |
| SlideFilter.OutcomeWithFailure | main.py:48-53 | When the first raising image entry is at position k, the pass stops there, having copied exactly the accepted slides before k |
| SlideFilter.CompletesIff | main.py:48-53 | The pass completes exactly when no image entry makes the classifier raise |

## Left out

- `extract_images_from_video` (main.py:10-22): it runs ffmpeg as an external process and writes files.
- `pytesseract.image_to_string` (main.py:38): a foreign OCR engine. Its output string is an input (`ImageData.ocrText`).
- `imagehash.average_hash` and `Image.open` (main.py:25, 62): library image code. The 64-bit hash is an input (`ImageData.fingerprint`).
  Failures of `Image.open` on unreadable files are not modelled.
- The crop box `width*0.1 … height*0.9` and `Image.crop` (main.py:26-29): float geometry with PIL rounding. The pixels of the cropped region are an input (`ImageData.region`).
- Pixels of single-band images: `getdata` yields plain integers for them, and `all(... for x in pixel)` would raise. The model takes every pixel as a sequence of channels.
- Filesystem effects (`os.makedirs`, `os.path.exists`, `copy2`, `glob`, the per-video directory layout) and `print`: a copy is an append to the output sequence.
- `main`, `process_directory` and argument parsing (main.py:72-111): orchestration and command line. Running the filter on the dedup output directory is not modelled, because the order in which `os.listdir` lists the copied files is unspecified.
- `Classify` and the classifier functions: `white_ratio` is represented by its two counts. `white_area_threshold` is a fraction `num/den` rather than a float. For the default 0.5, the float comparison `n_white / n_total > 0.5` gives the same answer as the exact one whenever `n_total < 2^53`.
- `Folders.Lower`: models `str.lower` on ASCII letters only. No other character lowercases to one of the letters in `png`, `jpg` or `jpeg`, so the extension test is unaffected.
- The default `threshold=3` of `are_images_similar` (main.py:68) is never used: the only caller always passes `similar_threshold`. The threshold is always a parameter of the model.
