/** The pieces the two sanitizer-report extractors share: the bounded
    match of a start and an end marker, and the fixed window around the
    first indicator string found. */
module ReportTiers {
  import opened Wrappers
  import opened Strings
  import opened Scan

  /** Characters kept on each side of an indicator by the window tier. */
  const WindowRadius: nat := 1000

  /** `r` is a contiguous piece of `s`. */
  ghost predicate IsSliceOf(r: string, s: string) {
    exists i: nat, j: nat {:trigger s[i..j]} :: i <= j <= |s| && r == s[i..j]
  }

  /** Some indicator of the list occurs in `s`: Python's
      `any(indicator in s for indicator in inds)`. */
  ghost predicate AnyIndicator(s: string, inds: seq<string>) {
    exists k :: 0 <= k < |inds| && Contains(s, inds[k])
  }

  /** The leftmost start marker at `a` and the leftmost end marker at `b`,
      with the end after the start: the bounded tier applies. */
  ghost predicate BoundedApplies(s: string, allowWarning: bool) {
    exists a: Span, b: Span :: IsLeftmost(ReportStart(allowWarning), s, 0, a)
      && IsLeftmost(ReportEnd, s, 0, b) && b.end > a.start
  }

  /** The list position of the first indicator, at or after position `k`
      of the list, that occurs in `s`: the `for` loop of the window tier. */
  function FirstIndicator(s: string, inds: seq<string>, k: nat): (r: Option<nat>)
    requires k <= |inds|
    ensures r.Some? ==> k <= r.value < |inds| && Contains(s, inds[r.value])
    ensures r.Some? ==> forall k' :: k <= k' < r.value ==> !Contains(s, inds[k'])
    ensures r.None? ==> forall k' :: k <= k' < |inds| ==> !Contains(s, inds[k'])
    decreases |inds| - k
  {
    if k == |inds| then None
    else if Contains(s, inds[k]) then Some(k)
    else FirstIndicator(s, inds, k + 1)
  }

  /** The slice bounds `[max(0, idx - 1000), min(len(s), idx + 1000)]`
      around the first occurrence `idx` of the first indicator present. */
  function IndicatorWindow(s: string, inds: seq<string>): (r: Option<Span>)
    ensures r.Some? <==> AnyIndicator(s, inds)
    ensures r.Some? ==> r.value.start <= r.value.end <= |s|
    ensures r.Some? ==> r.value.end - r.value.start <= 2 * WindowRadius
  {
    match FirstIndicator(s, inds, 0)
    case None => None
    case Some(k) =>
      var idx := Find(s, inds[k], 0).value;
      var lo := if idx >= WindowRadius then idx - WindowRadius else 0;
      var hi := if idx + WindowRadius <= |s| then idx + WindowRadius else |s|;
      Some(Span(lo, hi))
  }

  /** The window is centred on the first occurrence of the first indicator
      (in list order) present, and, for indicators no longer than the
      radius, holds that occurrence. */
  lemma IndicatorWindowShape(s: string, inds: seq<string>, k: nat, p: nat)
    requires k < |inds| && Contains(s, inds[k])
    requires forall k' :: 0 <= k' < k ==> !Contains(s, inds[k'])
    requires PrefixAt(inds[k], s, p) && forall q :: 0 <= q < p ==> !PrefixAt(inds[k], s, q)
    ensures IndicatorWindow(s, inds)
         == Some(Span(if p >= WindowRadius then p - WindowRadius else 0,
                      if p + WindowRadius <= |s| then p + WindowRadius else |s|))
    ensures 0 < |inds[k]| <= WindowRadius ==>
              var w := IndicatorWindow(s, inds).value;
              w.start <= p && p + |inds[k]| <= w.end
  {
    var r := FirstIndicator(s, inds, 0);
    assert r == Some(k);
    var idx := Find(s, inds[k], 0).value;
    assert idx == p;
  }

  /** Tier 1: the text from the leftmost start marker through the end of
      the leftmost end marker, when the end comes after the start. */
  function BoundedSpan(s: string, allowWarning: bool): (r: Option<Span>)
    ensures r.Some? <==> BoundedApplies(s, allowWarning)
    ensures r.Some? ==> r.value.start < r.value.end <= |s|
  {
    var start := Search(ReportStart(allowWarning), s, 0);
    var end := Search(ReportEnd, s, 0);
    if start.Some? && end.Some? && end.value.end > start.value.start then
      assert end.value.end <= |s| by {
        assert MatchAt(ReportEnd, s, end.value.start) == Some(end.value.end);
      }
      assert BoundedApplies(s, allowWarning) by {
        assert IsLeftmost(ReportStart(allowWarning), s, 0, start.value);
      }
      Some(Span(start.value.start, end.value.end))
    else
      NotBoundedWhenSearchFails(s, allowWarning);
      None
  }

  lemma NotBoundedWhenSearchFails(s: string, allowWarning: bool)
    requires var start := Search(ReportStart(allowWarning), s, 0);
             var end := Search(ReportEnd, s, 0);
             !(start.Some? && end.Some? && end.value.end > start.value.start)
    ensures !BoundedApplies(s, allowWarning)
  {
    if BoundedApplies(s, allowWarning) {
      var a: Span, b: Span :| IsLeftmost(ReportStart(allowWarning), s, 0, a)
        && IsLeftmost(ReportEnd, s, 0, b) && b.end > a.start;
      LeftmostUnique(ReportStart(allowWarning), s, 0, a);
      LeftmostUnique(ReportEnd, s, 0, b);
      assert false;
    }
  }

  /** When both leftmost markers are known, tier 1 spans exactly from the
      start of the one to the end of the other. */
  lemma BoundedSpanIs(s: string, allowWarning: bool, a: Span, b: Span)
    requires IsLeftmost(ReportStart(allowWarning), s, 0, a)
    requires IsLeftmost(ReportEnd, s, 0, b)
    requires b.end > a.start
    ensures BoundedSpan(s, allowWarning) == Some(Span(a.start, b.end))
  {
    LeftmostUnique(ReportStart(allowWarning), s, 0, a);
    LeftmostUnique(ReportEnd, s, 0, b);
  }

  /** The slice a span selects, as an optional report. */
  function SliceOf(s: string, sp: Option<Span>): (r: Option<string>)
    requires sp.Some? ==> sp.value.start <= sp.value.end <= |s|
    ensures r.Some? <==> sp.Some?
    ensures r.Some? ==> |r.value| == sp.value.end - sp.value.start && IsSliceOf(r.value, s)
  {
    match sp
    case None => None
    case Some(x) => Some(s[x.start..x.end])
  }
}
