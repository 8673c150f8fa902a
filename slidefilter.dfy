/**
 * `filter_ppt_images`: one pass over a directory listing that copies every
 * image the slide classifier accepts.  A classification that raises (an
 * empty crop region) ends the pass with the copies made so far.
 */
module SlideFilter {
  import opened Wrappers
  import opened Classifier
  import opened Folders

  /** The copies made, in order, and the entry whose classification raised, if any. */
  datatype FilterOutcome = FilterOutcome(copied: seq<string>, failedAt: Option<string>)

  function ClassifyEntry(d: Folder, name: string, cfg: Config): (r: Result<Classification, ClassifyError>)
  {
    Classify(d.image(name).region, d.image(name).ocrText, cfg)
  }

  /** An image entry on which `is_ppt_slide` raises: its crop region is empty. */
  predicate Fails(d: Folder, name: string)
  {
    IsImageEntry(d, name) && d.image(name).region == []
  }

  /** Failing is exactly the classifier raising, under any configuration. */
  lemma FailsIffClassifyRaises(d: Folder, name: string, cfg: Config)
    ensures Fails(d, name) <==> IsImageEntry(d, name) && ClassifyEntry(d, name, cfg).Failure?
  {
  }

  /** An image entry whose classification succeeds and says "slide". */
  predicate IsAcceptedSlide(d: Folder, name: string, cfg: Config)
  {
    IsImageEntry(d, name) && d.image(name).region != [] && ClassifyEntry(d, name, cfg).value.isSlide
  }

  /** One iteration of the loop, on entry `n`. */
  function Step(d: Folder, prev: FilterOutcome, n: string, cfg: Config): (next: FilterOutcome)
  {
    if prev.failedAt.Some? || !IsImageEntry(d, n) then prev
    else if Fails(d, n) then FilterOutcome(prev.copied, Some(n))
    else if IsAcceptedSlide(d, n, cfg) then FilterOutcome(prev.copied + [n], None)
    else prev
  }

  /** The state of the pass after it has walked the entries `ns`. */
  function Outcome(d: Folder, ns: seq<string>, cfg: Config): (o: FilterOutcome)
    decreases |ns|
  {
    if ns == [] then FilterOutcome([], None)
    else Step(d, Outcome(d, ns[..|ns| - 1], cfg), ns[|ns| - 1], cfg)
  }

  /** Reference definition: the accepted slides of `ns`, in order. */
  function AcceptedSlides(d: Folder, ns: seq<string>, cfg: Config): (r: seq<string>)
    ensures forall k :: 0 <= k < |r| ==> r[k] in ns && IsAcceptedSlide(d, r[k], cfg)
    decreases |ns|
  {
    if ns == [] then []
    else
      var prev := AcceptedSlides(d, ns[..|ns| - 1], cfg);
      if IsAcceptedSlide(d, ns[|ns| - 1], cfg) then prev + [ns[|ns| - 1]] else prev
  }

  /** Every accepted slide of the listing is in the reference filter. */
  lemma {:induction false} AcceptedSlideIncluded(d: Folder, ns: seq<string>, k: int, cfg: Config)
    requires 0 <= k < |ns| && IsAcceptedSlide(d, ns[k], cfg)
    ensures ns[k] in AcceptedSlides(d, ns, cfg)
    decreases |ns|
  {
    var prefix := ns[..|ns| - 1];
    if k < |ns| - 1 {
      assert prefix[k] == ns[k];
      AcceptedSlideIncluded(d, prefix, k, cfg);
    }
  }

  /** Once a classification has raised, later entries change nothing. */
  lemma {:induction false} FailureIsFinal(d: Folder, ns: seq<string>, m: int, cfg: Config)
    requires 0 <= m <= |ns|
    requires Outcome(d, ns[..m], cfg).failedAt.Some?
    ensures Outcome(d, ns, cfg) == Outcome(d, ns[..m], cfg)
    decreases |ns| - m
  {
    if m == |ns| {
      assert ns[..m] == ns;
    } else {
      var n := |ns| - 1;
      assert ns[..n][..m] == ns[..m];
      FailureIsFinal(d, ns[..n], m, cfg);
      assert Outcome(d, ns[..n], cfg).failedAt.Some?;
    }
  }

  /** One step on an image entry, by the classifier's answer. */
  lemma StepOnImage(d: Folder, prev: FilterOutcome, name: string, cfg: Config)
    requires prev.failedAt == None && IsImageEntry(d, name)
    ensures ClassifyEntry(d, name, cfg).Failure? ==> Step(d, prev, name, cfg) == FilterOutcome(prev.copied, Some(name))
    ensures ClassifyEntry(d, name, cfg).Success? ==>
              Step(d, prev, name, cfg)
                == if ClassifyEntry(d, name, cfg).value.isSlide then FilterOutcome(prev.copied + [name], None) else prev
  {
  }

  method FilterPptImages(d: Folder, cfg: Config) returns (copied: seq<string>, failedAt: Option<string>)
    ensures FilterOutcome(copied, failedAt) == Outcome(d, d.names, cfg)
  {
    copied := [];
    failedAt := None;
    for i := 0 to |d.names|
      invariant FilterOutcome(copied, failedAt) == Outcome(d, d.names[..i], cfg)
      invariant failedAt == None
    {
      var name := d.names[i];
      ghost var upTo := d.names[..i + 1];
      assert upTo[..i] == d.names[..i] && upTo[i] == name;
      ghost var next := Step(d, FilterOutcome(copied, failedAt), name, cfg);
      assert Outcome(d, upTo, cfg) == next;
      if IsImageEntry(d, name) {
        StepOnImage(d, FilterOutcome(copied, failedAt), name, cfg);
        var result := ClassifyEntry(d, name, cfg);
        if result.Failure? {
          failedAt := Some(name);
          FailureIsFinal(d, d.names, i + 1, cfg);
          return;
        }
        if result.value.isSlide {
          copied := copied + [name];
        }
      }
    }
    assert d.names[..|d.names|] == d.names;
  }

  // ---------------------------------------------------------------- properties of the pass

  /**
   * When no image entry makes the classifier raise, the pass completes and
   * copies exactly the accepted slides, in listing order.
   */
  lemma {:induction false} OutcomeWithoutFailure(d: Folder, ns: seq<string>, cfg: Config)
    requires forall k :: 0 <= k < |ns| ==> !Fails(d, ns[k])
    ensures Outcome(d, ns, cfg) == FilterOutcome(AcceptedSlides(d, ns, cfg), None)
    decreases |ns|
  {
    if ns != [] {
      OutcomeWithoutFailure(d, ns[..|ns| - 1], cfg);
      assert !Fails(d, ns[|ns| - 1]);
    }
  }

  /**
   * When the entry at `k` is the first image entry on which the classifier
   * raises, the pass stops there, having copied the accepted slides before it.
   */
  lemma OutcomeWithFailure(d: Folder, ns: seq<string>, k: int, cfg: Config)
    requires 0 <= k < |ns| && Fails(d, ns[k])
    requires forall j :: 0 <= j < k ==> !Fails(d, ns[j])
    ensures Outcome(d, ns, cfg) == FilterOutcome(AcceptedSlides(d, ns[..k], cfg), Some(ns[k]))
  {
    var pre := ns[..k];
    forall j | 0 <= j < |pre| ensures !Fails(d, pre[j]) {
      assert pre[j] == ns[j];
    }
    OutcomeWithoutFailure(d, pre, cfg);
    var upTo := ns[..k + 1];
    assert upTo[..k] == pre && upTo[k] == ns[k];
    assert Outcome(d, upTo, cfg) == Step(d, Outcome(d, pre, cfg), ns[k], cfg);
    assert Outcome(d, upTo, cfg) == FilterOutcome(AcceptedSlides(d, pre, cfg), Some(ns[k]));
    FailureIsFinal(d, ns, k + 1, cfg);
  }

  /** The pass completes exactly when no image entry makes the classifier raise. */
  lemma {:induction false} CompletesIff(d: Folder, ns: seq<string>, cfg: Config)
    ensures Outcome(d, ns, cfg).failedAt == None <==> forall k :: 0 <= k < |ns| ==> !Fails(d, ns[k])
    decreases |ns|
  {
    if ns != [] {
      var n := |ns| - 1;
      var pre := ns[..n];
      CompletesIff(d, pre, cfg);
      var prev := Outcome(d, pre, cfg);
      assert Outcome(d, ns, cfg) == Step(d, prev, ns[n], cfg);
      assert Step(d, prev, ns[n], cfg).failedAt == None <==> prev.failedAt == None && !Fails(d, ns[n]);
      assert (forall k :: 0 <= k < |ns| ==> !Fails(d, ns[k]))
             <==> (forall k :: 0 <= k < n ==> !Fails(d, pre[k])) && !Fails(d, ns[n]);
    }
  }

}
