/** The two-tier sanitizer-report extractor of the evaluation script: a
    bounded start/end match whose start marker admits only the ERROR form,
    then a window around the first sanitizer name found. There is no tier
    for a report without an end marker. */
module EvalReport {
  import opened Wrappers
  import opened Strings
  import opened Scan
  import opened ReportTiers

  /** The fallback indicators, in priority order. */
  const EvalIndicators: seq<string> := [
    "AddressSanitizer",
    "LeakSanitizer",
    "UndefinedBehaviorSanitizer",
    "ThreadSanitizer",
    "MemorySanitizer"
  ]

  /** The bounds of the extracted report: the bounded tier if it applies,
      else the indicator window. */
  function EvalReportSpan(s: string): (r: Option<Span>)
    ensures r.Some? ==> r.value.start < r.value.end <= |s|
  {
    var start := Search(ReportStart(false), s, 0);
    var end := Search(ReportEnd, s, 0);
    if start.Some? && end.Some? && end.value.end > start.value.start then
      BoundedSpan(s, false)
    else
      WindowNonEmpty(s);
      IndicatorWindow(s, EvalIndicators)
  }

  /** `extract_sanitizer_report` of the evaluation script. */
  function ExtractEvalReport(s: string): (r: Option<string>)
    ensures r.Some? ==> 0 < |r.value| <= |s|
  {
    SliceOf(s, EvalReportSpan(s))
  }

  lemma IndicatorsFit()
    ensures forall k :: 0 <= k < |EvalIndicators| ==> 0 < |EvalIndicators[k]| <= WindowRadius
  {
  }

  lemma WindowNonEmpty(s: string)
    ensures IndicatorWindow(s, EvalIndicators).Some? ==>
              IndicatorWindow(s, EvalIndicators).value.start < IndicatorWindow(s, EvalIndicators).value.end
  {
    if AnyIndicator(s, EvalIndicators) {
      var k := FirstIndicator(s, EvalIndicators, 0).value;
      var p := Find(s, EvalIndicators[k], 0).value;
      IndicatorsFit();
      IndicatorWindowShape(s, EvalIndicators, k, p);
    }
  }

  lemma ExtractFromSpan(s: string, sp: Span)
    requires EvalReportSpan(s) == Some(sp)
    ensures ExtractEvalReport(s) == Some(s[sp.start..sp.end])
  {
  }

  /** A report is always a piece of the input, and there is none exactly
      when neither tier applies. */
  lemma ExtractEvalReportShape(s: string)
    ensures ExtractEvalReport(s).Some? ==> IsSliceOf(ExtractEvalReport(s).value, s)
    ensures ExtractEvalReport(s).None? <==> !BoundedApplies(s, false) && !AnyIndicator(s, EvalIndicators)
  {
    var start := Search(ReportStart(false), s, 0);
    var end := Search(ReportEnd, s, 0);
    if !(start.Some? && end.Some? && end.value.end > start.value.start) {
      NotBoundedWhenSearchFails(s, false);
    }
  }

  /** Tier 1: the text from the leftmost ERROR start marker through the end
      of the leftmost end marker, when the end comes after the start. */
  lemma EvalBoundedTier(s: string, a: Span, b: Span)
    requires IsLeftmost(ReportStart(false), s, 0, a)
    requires IsLeftmost(ReportEnd, s, 0, b)
    requires b.end > a.start
    ensures ExtractEvalReport(s) == Some(s[a.start..b.end])
  {
    LeftmostUnique(ReportStart(false), s, 0, a);
    LeftmostUnique(ReportEnd, s, 0, b);
    BoundedSpanIs(s, false, a, b);
    ExtractFromSpan(s, Span(a.start, b.end));
  }

  /** Tier 2: without a bounded report, the window of at most 2000
      characters around the first occurrence `p` of the first listed
      sanitizer name present, which lies inside it. */
  lemma EvalWindowTier(s: string, k: nat, p: nat)
    requires !BoundedApplies(s, false)
    requires k < |EvalIndicators| && Contains(s, EvalIndicators[k])
    requires forall k' :: 0 <= k' < k ==> !Contains(s, EvalIndicators[k'])
    requires PrefixAt(EvalIndicators[k], s, p)
    requires forall q :: 0 <= q < p ==> !PrefixAt(EvalIndicators[k], s, q)
    ensures var lo := if p >= WindowRadius then p - WindowRadius else 0;
            var hi := if p + WindowRadius <= |s| then p + WindowRadius else |s|;
            && ExtractEvalReport(s) == Some(s[lo..hi])
            && hi - lo <= 2 * WindowRadius
            && PrefixAt(EvalIndicators[k], s[lo..hi], p - lo)
  {
    var lo := if p >= WindowRadius then p - WindowRadius else 0;
    var hi := if p + WindowRadius <= |s| then p + WindowRadius else |s|;
    var ind := EvalIndicators[k];
    assert 0 < |ind| <= WindowRadius by {
      IndicatorsFit();
    }
    assert EvalReportSpan(s) == Some(Span(lo, hi)) by {
      IndicatorWindowShape(s, EvalIndicators, k, p);
      assert BoundedSpan(s, false).None?;
    }
    ExtractFromSpan(s, Span(lo, hi));
    PrefixAtInSlice(ind, s, lo, hi, p);
  }

  /** A start marker without any end marker does not bound the report: the
      window decides, whatever stack frames follow. */
  lemma NoUnterminatedTier(s: string)
    requires !HasMatch(ReportEnd, s, 0)
    ensures ExtractEvalReport(s) == SliceOf(s, IndicatorWindow(s, EvalIndicators))
  {
  }

  /** Every ERROR start marker is also a start marker of the three-tier
      extractor, ending at the same place. */
  lemma ErrorStartIsStart(s: string, i: nat)
    requires i <= |s| && MatchAt(ReportStart(false), s, i).Some?
    ensures MatchAt(ReportStart(true), s, i) == MatchAt(ReportStart(false), s, i)
  {
  }

  /** The WARNING form is not a start marker here. */
  lemma WarningIsNotStart(s: string, i: nat, k: nat)
    requires i <= |s| && PidTag(s, i) == Some(k) && PrefixAt("WARNING: ", s, k)
    ensures MatchAt(ReportStart(false), s, i).None?
  {
    assert s[k] == "WARNING: "[0] by {
      assert s[k..k + 9][0] == s[k];
    }
    assert !PrefixAt("ERROR: ", s, k) by {
      if k + 7 <= |s| {
        assert s[k..k + 7][0] == s[k];
      }
    }
  }
}
