/**
 * The slide classification rule of `is_ppt_slide`, on the values it computes
 * from a frame: the pixels of the cropped central region and the text the
 * OCR engine returns for that region.
 */
module Classifier {
  import opened Wrappers

  /** One pixel: its channel values, as `Image.getdata` yields them. */
  type Pixel = seq<int>

  type Positive = n: int | n > 0 witness 1

  /**
   * The three keyword parameters of `is_ppt_slide`.  `white_area_threshold`
   * is the fraction whiteAreaNum / whiteAreaDen.
   */
  datatype Config = Config(whiteThreshold: int, whiteAreaNum: int, whiteAreaDen: Positive, textThreshold: int)

  /** white_threshold = 200, white_area_threshold = 0.5, text_threshold = 50. */
  const DefaultConfig: Config := Config(200, 1, 2, 50)

  // ---------------------------------------------------------------- white pixels

  /** A pixel is white when every one of its channels is strictly above the threshold. */
  predicate IsWhite(p: Pixel, whiteThreshold: int)
  {
    forall c :: 0 <= c < |p| ==> p[c] > whiteThreshold
  }

  /** `n_white`: the number of white pixels of the region. */
  function WhiteCount(region: seq<Pixel>, whiteThreshold: int): (n: nat)
    ensures n <= |region|
    decreases |region|
  {
    if region == [] then 0
    else
      var k := |region| - 1;
      WhiteCount(region[..k], whiteThreshold) + (if IsWhite(region[k], whiteThreshold) then 1 else 0)
  }

  /** Every pixel is white exactly when the count is the region size, and none is exactly when it is zero. */
  lemma {:induction false} WhiteCountExtremes(region: seq<Pixel>, whiteThreshold: int)
    ensures WhiteCount(region, whiteThreshold) == |region|
            <==> forall i :: 0 <= i < |region| ==> IsWhite(region[i], whiteThreshold)
    ensures WhiteCount(region, whiteThreshold) == 0
            <==> forall i :: 0 <= i < |region| ==> !IsWhite(region[i], whiteThreshold)
    decreases |region|
  {
    if region != [] {
      var k := |region| - 1;
      WhiteCountExtremes(region[..k], whiteThreshold);
      assert forall i :: 0 <= i < k ==> region[..k][i] == region[i];
    }
  }

  /** Counting is additive over a split of the region, so the pixel order does not matter. */
  lemma {:induction false} WhiteCountAppend(a: seq<Pixel>, b: seq<Pixel>, whiteThreshold: int)
    ensures WhiteCount(a + b, whiteThreshold) == WhiteCount(a, whiteThreshold) + WhiteCount(b, whiteThreshold)
    decreases |b|
  {
    if b == [] {
      assert a + b == a;
    } else {
      var k := |b| - 1;
      assert (a + b)[..|a + b| - 1] == a + b[..k];
      WhiteCountAppend(a, b[..k], whiteThreshold);
    }
  }

  /** Raising the brightness threshold never makes more pixels white. */
  lemma {:induction false} WhiteCountAntitone(region: seq<Pixel>, low: int, high: int)
    requires low <= high
    ensures WhiteCount(region, high) <= WhiteCount(region, low)
    decreases |region|
  {
    if region != [] {
      WhiteCountAntitone(region[..|region| - 1], low, high);
    }
  }

  // ---------------------------------------------------------------- OCR text

  /** Python's `str.isspace`: the characters that `str.strip()` removes. */
  predicate IsSpace(c: char)
  {
    || ('\t' <= c <= '\r')
    || ('\U{1C}' <= c <= ' ')
    || c == '\U{85}' || c == '\U{A0}' || c == '\U{1680}'
    || ('\U{2000}' <= c <= '\U{200A}')
    || c == '\U{2028}' || c == '\U{2029}' || c == '\U{202F}' || c == '\U{205F}' || c == '\U{3000}'
  }

  /** `s.replace(c, '')`: every occurrence of `c` deleted, everything else kept in order. */
  function RemoveChar(s: string, c: char): (r: string)
    ensures c !in r
    ensures |r| <= |s|
    decreases |s|
  {
    if s == [] then []
    else
      var k := |s| - 1;
      RemoveChar(s[..k], c) + (if s[k] == c then [] else [s[k]])
  }

  /** Deleting `c` leaves the number of occurrences of every other character unchanged. */
  lemma {:induction false} RemoveCharCounts(s: string, c: char, x: char)
    requires x != c
    ensures multiset(RemoveChar(s, c))[x] == multiset(s)[x]
    decreases |s|
  {
    if s != [] {
      var k := |s| - 1;
      assert s == s[..k] + [s[k]];
      RemoveCharCounts(s[..k], c, x);
    }
  }

  /** Deletion works piecewise: the kept characters of `a + b` are those of `a` followed by those of `b`, so their order is the input's. */
  lemma {:induction false} RemoveCharAppend(a: string, b: string, c: char)
    ensures RemoveChar(a + b, c) == RemoveChar(a, c) + RemoveChar(b, c)
    decreases |b|
  {
    if b == [] {
      assert a + b == a;
    } else {
      var k := |b| - 1;
      assert (a + b)[..|a + b| - 1] == a + b[..k];
      assert (a + b)[|a + b| - 1] == b[k];
      RemoveCharAppend(a, b[..k], c);
    }
  }

  /** A string without `c` is left exactly as it is. */
  lemma {:induction false} RemoveCharAbsent(s: string, c: char)
    requires c !in s
    ensures RemoveChar(s, c) == s
    decreases |s|
  {
    if s != [] {
      var k := |s| - 1;
      assert s == s[..k] + [s[k]];
      assert s[k] in s;
      RemoveCharAbsent(s[..k], c);
    }
  }

  /** `s.lstrip()`: the suffix of `s` that starts at its first non-whitespace character. */
  function StripLeading(s: string): (r: string)
    ensures |r| <= |s| && r == s[|s| - |r|..]
    ensures forall i :: 0 <= i < |s| - |r| ==> IsSpace(s[i])
    ensures r == [] || !IsSpace(r[0])
    decreases |s|
  {
    if s != [] && IsSpace(s[0]) then StripLeading(s[1..]) else s
  }

  /** `s.rstrip()`: the prefix of `s` that ends at its last non-whitespace character. */
  function StripTrailing(s: string): (r: string)
    ensures |r| <= |s| && r == s[..|r|]
    ensures forall i :: |r| <= i < |s| ==> IsSpace(s[i])
    ensures r == [] || !IsSpace(r[|r| - 1])
    decreases |s|
  {
    if s != [] && IsSpace(s[|s| - 1]) then StripTrailing(s[..|s| - 1]) else s
  }

  /** `s.strip()`. */
  function Strip(s: string): (r: string)
  {
    StripTrailing(StripLeading(s))
  }

  /** `text.replace('\n', '').replace('\r', '').strip()`. */
  function NormaliseText(text: string): (r: string)
  {
    Strip(RemoveChar(RemoveChar(text, '\n'), '\r'))
  }

  /** `text_length`. */
  function TextLength(text: string): (n: nat)
  {
    |NormaliseText(text)|
  }

  /** Where the stripped string sits in the input: it starts after the leading whitespace. */
  lemma StripIsInfix(s: string)
    ensures var i := |s| - |StripLeading(s)|;
            0 <= i <= i + |Strip(s)| <= |s| && Strip(s) == s[i..i + |Strip(s)|]
  {
    var l := StripLeading(s);
    var r := StripTrailing(l);
    var i := |s| - |l|;
    assert l == s[i..];
    assert r == l[..|r|];
  }

  /** Whitespace at the end of a suffix `s[i..]` is whitespace at the same place in `s`. */
  lemma SpaceInSuffix(s: string, i: nat, m: nat)
    requires i <= |s| && m <= |s| - i
    requires forall k :: m <= k < |s| - i ==> IsSpace(s[i..][k])
    ensures forall k :: i + m <= k < |s| ==> IsSpace(s[k])
  {
    forall k | i + m <= k < |s| ensures IsSpace(s[k]) {
      assert s[k] == s[i..][k - i];
    }
  }

  /** Only whitespace lies after the stripped string. */
  lemma StripTrailingSpace(s: string)
    ensures var j := |s| - |StripLeading(s)| + |Strip(s)|;
            forall k :: j <= k < |s| ==> IsSpace(s[k])
  {
    var l := StripLeading(s);
    var i := |s| - |l|;
    SpaceInSuffix(s, i, |StripTrailing(l)|);
  }

  /** The stripped string is a contiguous piece of the input with whitespace only around it, and no whitespace at either end. */
  lemma StripShape(s: string)
    ensures var i := |s| - |StripLeading(s)|;
            var j := i + |Strip(s)|;
            && 0 <= i <= j <= |s| && Strip(s) == s[i..j]
            && (forall k :: 0 <= k < i ==> IsSpace(s[k]))
            && (forall k :: j <= k < |s| ==> IsSpace(s[k]))
    ensures Strip(s) != [] ==> !IsSpace(Strip(s)[0]) && !IsSpace(Strip(s)[|Strip(s)| - 1])
  {
    StripIsInfix(s);
    StripTrailingSpace(s);
  }

  /** Stripping twice is stripping once. */
  lemma StripIdempotent(s: string)
    ensures Strip(Strip(s)) == Strip(s)
  {
    var r := Strip(s);
    StripShape(s);
    assert StripLeading(r) == r;
    assert StripTrailing(r) == r;
  }

  /** A string strips to nothing exactly when it is all whitespace. */
  lemma StripEmptyIff(s: string)
    ensures Strip(s) == [] <==> forall x :: x in s ==> IsSpace(x)
  {
    StripShape(s);
    var r := Strip(s);
    var i := |s| - |StripLeading(s)|;
    if r == [] {
      forall x | x in s ensures IsSpace(x) {
        var k :| 0 <= k < |s| && s[k] == x;
      }
    } else {
      assert s[i] == r[0] && s[i] in s;
    }
  }

  /** Deleting `c` keeps every other character present or absent as it was. */
  lemma RemoveCharMembership(s: string, c: char, x: char)
    requires x != c
    ensures x in RemoveChar(s, c) <==> x in s
  {
    var r := RemoveChar(s, c);
    RemoveCharCounts(s, c, x);
    assert x in r <==> x in multiset(r);
    assert x in s <==> x in multiset(s);
  }

  /** Stripping never introduces a character. */
  lemma StripKeepsAbsence(s: string, x: char)
    requires x !in s
    ensures x !in Strip(s)
  {
    StripIsInfix(s);
  }

  /** What normalisation leaves: no line breaks, no surrounding whitespace, no more characters than the input. */
  lemma NormalisedTextShape(text: string)
    ensures '\n' !in NormaliseText(text) && '\r' !in NormaliseText(text)
    ensures TextLength(text) <= |text|
    ensures NormaliseText(text) != [] ==>
              !IsSpace(NormaliseText(text)[0]) && !IsSpace(NormaliseText(text)[TextLength(text) - 1])
  {
    var s1 := RemoveChar(text, '\n');
    var s := RemoveChar(s1, '\r');
    RemoveCharMembership(s1, '\r', '\n');
    StripKeepsAbsence(s, '\n');
    StripKeepsAbsence(s, '\r');
    StripShape(s);
  }

  /** OCR output counts as no text exactly when it is whitespace only. */
  lemma TextLengthZeroIff(text: string)
    ensures TextLength(text) == 0 <==> forall x :: x in text ==> IsSpace(x)
  {
    var s1 := RemoveChar(text, '\n');
    var s := RemoveChar(s1, '\r');
    StripEmptyIff(s);
    RemoveCharMembership(s1, '\r', '\n');
    forall x | x != '\n' && x != '\r' ensures x in s <==> x in text {
      RemoveCharMembership(text, '\n', x);
      RemoveCharMembership(s1, '\r', x);
    }
    assert IsSpace('\n') && IsSpace('\r');
  }

  // ---------------------------------------------------------------- decision

  /** `n_white / n_total > white_area_threshold`, cross-multiplied. */
  predicate WhiteRatioExceeds(nWhite: int, nTotal: int, cfg: Config)
  {
    nWhite * cfg.whiteAreaDen > cfg.whiteAreaNum * nTotal
  }

  /** The cross-multiplied test agrees with the quotient test on exact rationals. */
  lemma WhiteRatioMatchesQuotient(nWhite: int, nTotal: int, cfg: Config)
    requires nTotal > 0
    ensures WhiteRatioExceeds(nWhite, nTotal, cfg)
            <==> (nWhite as real) / (nTotal as real) > (cfg.whiteAreaNum as real) / (cfg.whiteAreaDen as real)
  {
    var w, t, n, d := nWhite as real, nTotal as real, cfg.whiteAreaNum as real, cfg.whiteAreaDen as real;
    var x, y := w / t, n / d;
    assert x * t == w && y * d == n;
    assert t * d > 0.0;
    assert (x > y) <==> x * (t * d) > y * (t * d);
    assert x * (t * d) == w * d && y * (t * d) == n * t;
    assert (nWhite * cfg.whiteAreaDen) as real == w * d;
    assert (cfg.whiteAreaNum * nTotal) as real == n * t;
  }

  /** The disjunctive rule on the two signals. */
  predicate IsSlideDecision(nWhite: int, nTotal: int, textLength: int, cfg: Config)
  {
    WhiteRatioExceeds(nWhite, nTotal, cfg) || textLength > cfg.textThreshold
  }

  /** A mostly white region is a slide whatever its text. */
  lemma WhiteAloneSuffices(nWhite: int, nTotal: int, textLength: int, cfg: Config)
    requires WhiteRatioExceeds(nWhite, nTotal, cfg)
    ensures IsSlideDecision(nWhite, nTotal, textLength, cfg)
  {
  }

  /** Enough text makes a slide whatever its whiteness. */
  lemma TextAloneSuffices(nWhite: int, nTotal: int, textLength: int, cfg: Config)
    requires textLength > cfg.textThreshold
    ensures IsSlideDecision(nWhite, nTotal, textLength, cfg)
  {
  }

  /** A region that is both dark enough and short of text is rejected. */
  lemma NeitherSignalRejects(nWhite: int, nTotal: int, textLength: int, cfg: Config)
    requires !WhiteRatioExceeds(nWhite, nTotal, cfg) && textLength <= cfg.textThreshold
    ensures !IsSlideDecision(nWhite, nTotal, textLength, cfg)
  {
  }

  /** More white pixels or more text never turn a slide into a non-slide. */
  lemma {:induction false} DecisionMonotone(nWhite: int, nWhite': int, nTotal: int, textLength: int, textLength': int, cfg: Config)
    requires nWhite <= nWhite' && textLength <= textLength'
    requires IsSlideDecision(nWhite, nTotal, textLength, cfg)
    ensures IsSlideDecision(nWhite', nTotal, textLength', cfg)
  {
    if WhiteRatioExceeds(nWhite, nTotal, cfg) {
      assert nWhite * cfg.whiteAreaDen <= nWhite' * cfg.whiteAreaDen by {
        var d: int := cfg.whiteAreaDen;
        assert (nWhite' - nWhite) * d >= 0;
      }
    }
  }

  /**
   * The three decision scenarios under the default thresholds, on a region of
   * ten pixels: nine white pixels and no text, one white pixel and 60
   * characters, one white pixel and 10 characters.
   */
  lemma DefaultScenarios()
    ensures IsSlideDecision(9, 10, 0, DefaultConfig)
    ensures IsSlideDecision(1, 10, 60, DefaultConfig)
    ensures !IsSlideDecision(1, 10, 10, DefaultConfig)
    ensures !IsSlideDecision(5, 10, 50, DefaultConfig)
  {
  }

  /** What `is_ppt_slide` computes for one frame. */
  datatype Classification = Classification(whiteCount: nat, total: nat, textLength: nat, isSlide: bool)

  /** `n_white / n_total` with `n_total == 0` raises ZeroDivisionError. */
  datatype ClassifyError = EmptyRegion

  /** `is_ppt_slide` on the cropped region's pixels and the OCR text of that region. */
  function Classify(region: seq<Pixel>, ocrText: string, cfg: Config): (r: Result<Classification, ClassifyError>)
    ensures r.Failure? <==> region == []
    ensures r.Success? ==>
              && r.value.total == |region|
              && r.value.whiteCount == WhiteCount(region, cfg.whiteThreshold)
              && r.value.textLength == TextLength(ocrText)
              && r.value.whiteCount <= r.value.total
              && r.value.textLength <= |ocrText|
              && (r.value.isSlide <==> IsSlideDecision(r.value.whiteCount, r.value.total, r.value.textLength, cfg))
  {
    var nWhite := WhiteCount(region, cfg.whiteThreshold);
    var nTotal := |region|;
    if nTotal == 0 then Failure(EmptyRegion)
    else
      var textLength := TextLength(ocrText);
      NormalisedTextShape(ocrText);
      Success(Classification(nWhite, nTotal, textLength, IsSlideDecision(nWhite, nTotal, textLength, cfg)))
  }

  /** An all-white region is a slide under the default thresholds, whatever the OCR text. */
  lemma AllWhiteIsSlide(region: seq<Pixel>, ocrText: string)
    requires region != []
    requires forall i :: 0 <= i < |region| ==> IsWhite(region[i], DefaultConfig.whiteThreshold)
    ensures Classify(region, ocrText, DefaultConfig).Success?
    ensures Classify(region, ocrText, DefaultConfig).value.isSlide
  {
    WhiteCountExtremes(region, DefaultConfig.whiteThreshold);
  }

  /** A region without a single white pixel is a slide under the defaults exactly when more than 50 characters of text remain. */
  lemma DarkRegionNeedsText(region: seq<Pixel>, ocrText: string)
    requires region != []
    requires forall i :: 0 <= i < |region| ==> !IsWhite(region[i], DefaultConfig.whiteThreshold)
    ensures Classify(region, ocrText, DefaultConfig).Success?
    ensures Classify(region, ocrText, DefaultConfig).value.isSlide <==> TextLength(ocrText) > 50
  {
    WhiteCountExtremes(region, DefaultConfig.whiteThreshold);
  }
}
