/** The three-tier sanitizer-report extractor of the batch-instance
    loader: a bounded start/end match, then a report cut after its last
    stack frame when no end marker exists, then a window around the first
    known error string. */
module SecbReport {
  import opened Wrappers
  import opened Strings
  import opened Scan
  import opened ReportTiers
  import Regex

  /** The indicator strings of the window tier, in priority order. */
  const SanitizerErrorPatterns: seq<string> := [
    "ERROR: AddressSanitizer:",
    "ERROR: MemorySanitizer:",
    "WARNING: MemorySanitizer:",
    "UndefinedBehaviorSanitizer:DEADLYSIGNAL",
    "ERROR: LeakSanitizer:",
    "SUMMARY: UndefinedBehaviorSanitizer: undefined-behavior"
  ]

  /** A start marker without an end marker, and a stack frame after the
      start: the unterminated tier applies. */
  ghost predicate UnterminatedApplies(s: string) {
    && !HasMatch(ReportEnd, s, 0)
    && exists a: Span :: IsLeftmost(ReportStart(true), s, 0, a)
         && HasMatch(StackFrame, s[a.start..], 0)
  }

  /** Just past the first newline at or after `e`, or `e` itself when no
      newline follows: `nl + 1 if nl != -1 else e` with `nl = s.find("\n", e)`. */
  function CutAfterNewline(s: string, e: nat): (r: nat)
    requires e <= |s|
    ensures e <= r <= |s|
    ensures r > e ==> s[r - 1] == '\n' && NoNewlineIn(s, e, r - 1)
    ensures r == e ==> NoNewlineIn(s, e, |s|)
  {
    NewlineSearch(s, e);
    match Find(s, "\n", e)
    case Some(nl) => Min(nl + 1, |s|)
    case None => e
  }

  /** Where tier 2 cuts, given the last stack frame `last` found in
      `s[a:]`: just past the first newline after it. */
  function CutAfterFrame(s: string, a: nat, last: Option<Span>): (r: Option<nat>)
    requires a <= |s| && (last.Some? ==> a < a + last.value.end <= |s|)
    ensures r.Some? <==> last.Some?
    ensures r.Some? ==> a < r.value <= |s|
  {
    match last
    case None => None
    case Some(m) => Some(CutAfterNewline(s, a + m.end))
  }

  /** Tier 2's end position for a report starting at `a`: just past the
      first newline after the last stack frame of `s[a:]`, or the end of
      that frame when no newline follows. */
  function UnterminatedEnd(s: string, a: nat): (r: Option<nat>)
    requires a <= |s|
    ensures r.Some? ==> a < r.value <= |s|
  {
    var last := LastMatch(StackFrame, s[a..], 0);
    assert last.Some? ==> a < a + last.value.end <= |s| by {
      if last.Some? {
        assert MatchAt(StackFrame, s[a..], last.value.start) == Some(last.value.end);
      }
    }
    CutAfterFrame(s, a, last)
  }

  /** Tier 2 has an end exactly when a stack frame follows the start. */
  lemma UnterminatedEndSome(s: string, a: nat)
    requires a <= |s|
    ensures UnterminatedEnd(s, a).Some? <==> HasMatch(StackFrame, s[a..], 0)
  {
  }

  /** The bounds of the extracted report, tier by tier. */
  function ReportSpan(s: string): (r: Option<Span>)
    ensures r.Some? ==> r.value.start <= r.value.end <= |s|
  {
    var start := Search(ReportStart(true), s, 0);
    var end := Search(ReportEnd, s, 0);
    if start.Some? && end.Some? && end.value.end > start.value.start then
      BoundedSpan(s, true)
    else if start.Some? && end.None? && UnterminatedEnd(s, start.value.start).Some? then
      Some(Span(start.value.start, UnterminatedEnd(s, start.value.start).value))
    else
      IndicatorWindow(s, SanitizerErrorPatterns)
  }

  /** `extract_sanitizer_report` of the batch-instance loader. */
  function ExtractSanitizerReport(s: string): (r: Option<string>)
    ensures r.Some? ==> 0 < |r.value| <= |s|
  {
    ReportSpanNonEmpty(s);
    SliceOf(s, ReportSpan(s))
  }

  /** A report is always a piece of the input, and there is none exactly
      when no tier applies. */
  lemma ExtractSanitizerReportShape(s: string)
    ensures ExtractSanitizerReport(s).Some? ==> IsSliceOf(ExtractSanitizerReport(s).value, s)
    ensures ExtractSanitizerReport(s).None? <==>
              !BoundedApplies(s, true) && !UnterminatedApplies(s) && !AnyIndicator(s, SanitizerErrorPatterns)
  {
    ReportSpanNone(s);
  }

  lemma PatternsFit()
    ensures forall k :: 0 <= k < |SanitizerErrorPatterns| ==>
              0 < |SanitizerErrorPatterns[k]| <= WindowRadius
  {
  }

  lemma ReportSpanNonEmpty(s: string)
    ensures ReportSpan(s).Some? ==> ReportSpan(s).value.start < ReportSpan(s).value.end
  {
    var start := Search(ReportStart(true), s, 0);
    var end := Search(ReportEnd, s, 0);
    if start.Some? && end.Some? && end.value.end > start.value.start {
    } else if start.Some? && end.None? && UnterminatedEnd(s, start.value.start).Some? {
    } else if AnyIndicator(s, SanitizerErrorPatterns) {
      var k := FirstIndicator(s, SanitizerErrorPatterns, 0).value;
      var p := Find(s, SanitizerErrorPatterns[k], 0).value;
      PatternsFit();
      IndicatorWindowShape(s, SanitizerErrorPatterns, k, p);
    }
  }

  lemma ReportSpanNone(s: string)
    ensures ReportSpan(s).None? <==>
              !BoundedApplies(s, true) && !UnterminatedApplies(s) && !AnyIndicator(s, SanitizerErrorPatterns)
  {
    var start := Search(ReportStart(true), s, 0);
    var end := Search(ReportEnd, s, 0);
    if start.Some? {
      LeftmostStartIsSearch(s, start.value);
    }
    if start.Some? && end.Some? && end.value.end > start.value.start {
    } else {
      NotBoundedWhenSearchFails(s, true);
    }
  }

  /** Every leftmost start marker is the one the search returns. */
  lemma LeftmostStartIsSearch(s: string, a: Span)
    requires Search(ReportStart(true), s, 0) == Some(a)
    ensures forall a' :: IsLeftmost(ReportStart(true), s, 0, a') ==> a' == a
  {
    forall a' | IsLeftmost(ReportStart(true), s, 0, a') ensures a' == a {
      LeftmostUnique(ReportStart(true), s, 0, a');
    }
  }

  /** Tier 1: with the leftmost start marker at `a` and the leftmost end
      marker ending after it, the report is exactly the text from the one
      to the other. */
  lemma BoundedTier(s: string, a: Span, b: Span)
    requires IsLeftmost(ReportStart(true), s, 0, a)
    requires IsLeftmost(ReportEnd, s, 0, b)
    requires b.end > a.start
    ensures ExtractSanitizerReport(s) == Some(s[a.start..b.end])
  {
    LeftmostUnique(ReportStart(true), s, 0, a);
    LeftmostUnique(ReportEnd, s, 0, b);
    BoundedSpanIs(s, true, a, b);
  }

  /** Tier 2, frame followed by a newline: with a start marker at `a`, no
      end marker anywhere, and a stack frame matched at `j` (counted in
      `s[a:]`) that reaches furthest, to `fe`, the report runs from the start
      marker through the first newline `nl` after that frame. */
  lemma UnterminatedTier(s: string, a: Span, j: nat, fe: nat, nl: nat)
    requires IsLeftmost(ReportStart(true), s, 0, a)
    requires !HasMatch(ReportEnd, s, 0)
    requires j <= |s| - a.start && MatchAt(StackFrame, s[a.start..], j) == Some(fe)
    requires forall j' :: 0 <= j' <= |s| - a.start && MatchAt(StackFrame, s[a.start..], j').Some? ==>
               MatchAt(StackFrame, s[a.start..], j').value <= fe
    requires FirstNewlineAt(s, a.start + fe, nl)
    ensures ExtractSanitizerReport(s) == Some(s[a.start..nl + 1])
  {
    LastFrameEnd(s[a.start..], j, fe);
    UnterminatedCutAtNewline(s, a, LastMatch(StackFrame, s[a.start..], 0).value.start, fe, nl);
  }

  /** Tier 2, no newline after the furthest frame: the report ends with
      that frame. */
  lemma UnterminatedTierAtEnd(s: string, a: Span, j: nat, fe: nat)
    requires IsLeftmost(ReportStart(true), s, 0, a)
    requires !HasMatch(ReportEnd, s, 0)
    requires j <= |s| - a.start && MatchAt(StackFrame, s[a.start..], j) == Some(fe)
    requires forall j' :: 0 <= j' <= |s| - a.start && MatchAt(StackFrame, s[a.start..], j').Some? ==>
               MatchAt(StackFrame, s[a.start..], j').value <= fe
    requires a.start + fe <= |s| && NoNewlineIn(s, a.start + fe, |s|)
    ensures ExtractSanitizerReport(s) == Some(s[a.start..a.start + fe])
  {
    LastFrameEnd(s[a.start..], j, fe);
    UnterminatedCutAtEnd(s, a, LastMatch(StackFrame, s[a.start..], 0).value.start, fe);
  }

  lemma UnterminatedCutAtNewline(s: string, a: Span, j: nat, fe: nat, nl: nat)
    requires IsLeftmost(ReportStart(true), s, 0, a)
    requires !HasMatch(ReportEnd, s, 0)
    requires LastMatch(StackFrame, s[a.start..], 0) == Some(Span(j, fe))
    requires FirstNewlineAt(s, a.start + fe, nl)
    ensures ExtractSanitizerReport(s) == Some(s[a.start..nl + 1])
  {
    var c := CutAfterNewline(s, a.start + fe);
    UnterminatedReport(s, a, Span(j, fe), c);
    CutReportAtNewline(s, ExtractSanitizerReport(s), a.start, a.start + fe, nl, c);
  }

  lemma UnterminatedCutAtEnd(s: string, a: Span, j: nat, fe: nat)
    requires IsLeftmost(ReportStart(true), s, 0, a)
    requires !HasMatch(ReportEnd, s, 0)
    requires LastMatch(StackFrame, s[a.start..], 0) == Some(Span(j, fe))
    requires a.start + fe <= |s| && NoNewlineIn(s, a.start + fe, |s|)
    ensures ExtractSanitizerReport(s) == Some(s[a.start..a.start + fe])
  {
    var c := CutAfterNewline(s, a.start + fe);
    UnterminatedReport(s, a, Span(j, fe), c);
    CutReportAtEnd(s, ExtractSanitizerReport(s), a.start, a.start + fe, c);
  }

  /** The cut lands just past the first newline at or after `f`. */
  lemma CutAtFirstNewline(s: string, f: nat, nl: nat)
    requires FirstNewlineAt(s, f, nl)
    ensures CutAfterNewline(s, f) == nl + 1
  {
  }

  /** Without a newline after `f`, the cut is at `f`. */
  lemma CutWithoutNewline(s: string, f: nat)
    requires f <= |s| && NoNewlineIn(s, f, |s|)
    ensures CutAfterNewline(s, f) == f
  {
  }

  lemma CutReportAtNewline(s: string, rep: Option<string>, lo: nat, f: nat, nl: nat, c: nat)
    requires lo <= f && FirstNewlineAt(s, f, nl) && c == CutAfterNewline(s, f)
    requires rep == Some(s[lo..c])
    ensures rep == Some(s[lo..nl + 1])
  {
    CutAtFirstNewline(s, f, nl);
  }

  lemma CutReportAtEnd(s: string, rep: Option<string>, lo: nat, f: nat, c: nat)
    requires lo <= f <= |s| && NoNewlineIn(s, f, |s|) && c == CutAfterNewline(s, f)
    requires rep == Some(s[lo..c])
    ensures rep == Some(s[lo..f])
  {
    CutWithoutNewline(s, f);
  }

  /** The unterminated tier's report, given the last frame match `m`. */
  lemma UnterminatedReport(s: string, a: Span, m: Span, c: nat)
    requires IsLeftmost(ReportStart(true), s, 0, a)
    requires !HasMatch(ReportEnd, s, 0)
    requires LastMatch(StackFrame, s[a.start..], 0) == Some(m)
    requires a.start + m.end <= |s| && c == CutAfterNewline(s, a.start + m.end)
    ensures a.start <= c <= |s|
    ensures ExtractSanitizerReport(s) == Some(s[a.start..c])
  {
    UnterminatedEndAfter(s, a.start, m);
    var sp := Span(a.start, c);
    assert ReportSpan(s) == Some(sp) by {
      UnterminatedSpanIs(s, a);
    }
    ExtractFromSpan(s, sp);
  }

  /** With a start marker, no end marker and a frame after the start, the
      unterminated tier decides. */
  lemma UnterminatedSpanIs(s: string, a: Span)
    requires IsLeftmost(ReportStart(true), s, 0, a)
    requires !HasMatch(ReportEnd, s, 0)
    requires HasMatch(StackFrame, s[a.start..], 0)
    ensures ReportSpan(s) == Some(Span(a.start, UnterminatedEnd(s, a.start).value))
  {
    LeftmostUnique(ReportStart(true), s, 0, a);
    UnterminatedEndSome(s, a.start);
  }

  /** The last frame `finditer` yields is the one that reaches furthest. */
  lemma LastFrameEnd(tail: string, j: nat, fe: nat)
    requires j <= |tail| && MatchAt(StackFrame, tail, j) == Some(fe)
    requires forall j' :: 0 <= j' <= |tail| && MatchAt(StackFrame, tail, j').Some? ==>
               MatchAt(StackFrame, tail, j').value <= fe
    ensures LastMatch(StackFrame, tail, 0).Some? && LastMatch(StackFrame, tail, 0).value.end == fe
  {
    Regex.LastFrameIsFurthest(tail, 0, j);
  }

  lemma UnterminatedEndAfter(s: string, a: nat, m: Span)
    requires a <= |s| && LastMatch(StackFrame, s[a..], 0) == Some(m)
    ensures a + m.end <= |s|
    ensures UnterminatedEnd(s, a) == Some(CutAfterNewline(s, a + m.end))
  {
    LastFrameInside(s, a, m);
    UnterminatedEndValue(s, a, m);
  }

  lemma LastFrameInside(s: string, a: nat, m: Span)
    requires a <= |s| && LastMatch(StackFrame, s[a..], 0) == Some(m)
    ensures a + m.end <= |s|
  {
  }

  lemma UnterminatedEndValue(s: string, a: nat, m: Span)
    requires a <= |s| && LastMatch(StackFrame, s[a..], 0) == Some(m) && a + m.end <= |s|
    ensures UnterminatedEnd(s, a) == Some(CutAfterNewline(s, a + m.end))
  {
    assert 0 < m.end by {
      assert MatchAt(StackFrame, s[a..], m.start) == Some(m.end);
    }
    UnterminatedEndIsCut(s, a, m);
    CutAfterFrameSome(s, a, m);
  }

  lemma UnterminatedEndIsCut(s: string, a: nat, m: Span)
    requires a <= |s| && LastMatch(StackFrame, s[a..], 0) == Some(m) && a < a + m.end <= |s|
    ensures UnterminatedEnd(s, a) == CutAfterFrame(s, a, Some(m))
  {
  }

  lemma CutAfterFrameSome(s: string, a: nat, m: Span)
    requires a < a + m.end <= |s|
    ensures CutAfterFrame(s, a, Some(m)) == Some(CutAfterNewline(s, a + m.end))
  {
  }

  /** What `s.find("\n", f)` reports about the newlines after `f`. */
  lemma NewlineSearch(s: string, f: nat)
    requires f <= |s|
    ensures Find(s, "\n", f).Some? ==>
              var nl := Find(s, "\n", f).value;
              f <= nl < |s| && s[nl] == '\n' && NoNewlineIn(s, f, nl)
    ensures Find(s, "\n", f).None? ==> NoNewlineIn(s, f, |s|)
  {
    forall q | f <= q < |s| && !PrefixAt("\n", s, q) ensures s[q] != '\n' {
      assert s[q..q + 1] == [s[q]];
    }
    match Find(s, "\n", f)
    case Some(nl) =>
      assert s[nl..nl + 1] == "\n";
    case None =>
  }

  /** Tier 3: when neither marker tier applies, the report is the window of
      at most 2000 characters around the first occurrence `p` of the first
      listed error string present, and that string lies inside it. */
  lemma WindowTier(s: string, k: nat, p: nat)
    requires !BoundedApplies(s, true) && !UnterminatedApplies(s)
    requires k < |SanitizerErrorPatterns| && Contains(s, SanitizerErrorPatterns[k])
    requires forall k' :: 0 <= k' < k ==> !Contains(s, SanitizerErrorPatterns[k'])
    requires PrefixAt(SanitizerErrorPatterns[k], s, p)
    requires forall q :: 0 <= q < p ==> !PrefixAt(SanitizerErrorPatterns[k], s, q)
    ensures var lo := if p >= WindowRadius then p - WindowRadius else 0;
            var hi := if p + WindowRadius <= |s| then p + WindowRadius else |s|;
            && ExtractSanitizerReport(s) == Some(s[lo..hi])
            && hi - lo <= 2 * WindowRadius
            && PrefixAt(SanitizerErrorPatterns[k], s[lo..hi], p - lo)
  {
    var lo := if p >= WindowRadius then p - WindowRadius else 0;
    var hi := if p + WindowRadius <= |s| then p + WindowRadius else |s|;
    var pat := SanitizerErrorPatterns[k];
    assert 0 < |pat| <= WindowRadius by {
      PatternsFit();
    }
    assert ReportSpan(s) == Some(Span(lo, hi)) by {
      IndicatorWindowShape(s, SanitizerErrorPatterns, k, p);
      NotTiers12(s);
    }
    ExtractFromSpan(s, Span(lo, hi));
    PrefixAtInSlice(pat, s, lo, hi, p);
  }

  lemma ExtractFromSpan(s: string, sp: Span)
    requires ReportSpan(s) == Some(sp)
    ensures ExtractSanitizerReport(s) == Some(s[sp.start..sp.end])
  {
  }

  /** When neither marker tier applies, the window tier decides. */
  lemma NotTiers12(s: string)
    requires !BoundedApplies(s, true) && !UnterminatedApplies(s)
    ensures ReportSpan(s) == IndicatorWindow(s, SanitizerErrorPatterns)
  {
    assert BoundedSpan(s, true).None?;
    UnterminatedWhenSearchSays(s);
  }

  lemma UnterminatedWhenSearchSays(s: string)
    ensures var start := Search(ReportStart(true), s, 0);
            start.Some? && Search(ReportEnd, s, 0).None? && UnterminatedEnd(s, start.value.start).Some?
            ==> UnterminatedApplies(s)
  {
  }

  /** A start marker whose end marker comes before it does not make the
      report unterminated: the window tier decides, even when stack frames
      follow the start. */
  lemma MisorderedMarkersUseWindow(s: string, a: Span, b: Span)
    requires IsLeftmost(ReportStart(true), s, 0, a)
    requires IsLeftmost(ReportEnd, s, 0, b)
    requires b.end <= a.start
    ensures ExtractSanitizerReport(s) == SliceOf(s, IndicatorWindow(s, SanitizerErrorPatterns))
  {
    LeftmostUnique(ReportStart(true), s, 0, a);
    LeftmostUnique(ReportEnd, s, 0, b);
  }
}
