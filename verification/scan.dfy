/** Hand-written scanners for the regular expressions of the report
    extractors, with Python's `re.search` (leftmost match), `re.finditer`
    (successive non-overlapping matches) and `str.find` semantics.

    The patterns, in Python syntax:
      ReportStart(true)   `==\d+==(?:ERROR|WARNING): (\w+)Sanitizer:`
      ReportStart(false)  `==\d+==ERROR: (\w+)Sanitizer:`
      ReportEnd           `==\d+==ABORTING`
      StackFrame          `\s+#\d+ 0x[0-9a-f]+`
      Literal(t)          the text `t` itself (`str.find`, `in`)
 */
module Scan {
  import opened Wrappers
  import opened Strings

  /** The regular-expression classes `\d`, `[0-9a-f]`, `\s`, `\w`. */
  datatype CharClass = Digit | LowerHex | Space | Word

  predicate InClass(c: char, k: CharClass) {
    match k
    case Digit => IsAsciiDigit(c)
    case LowerHex => IsAsciiDigit(c) || 'a' <= c <= 'f'
    case Space => IsPyWhitespace(c)
    case Word => IsAsciiDigit(c) || 'a' <= c <= 'z' || 'A' <= c <= 'Z' || c == '_'
  }

  /** Every character of `s[i..j]` is in class `k`. */
  predicate AllIn(s: string, i: nat, j: nat, k: CharClass)
    requires i <= j <= |s|
  {
    forall m :: i <= m < j ==> InClass(s[m], k)
  }

  /** End of the longest run of class-`k` characters starting at `i`: what a
      greedy `k+` (or `k*`) consumes. */
  function RunEnd(s: string, i: nat, k: CharClass): (e: nat)
    requires i <= |s|
    ensures i <= e <= |s|
    ensures AllIn(s, i, e, k)
    ensures e == |s| || !InClass(s[e], k)
    decreases |s| - i
  {
    if i < |s| && InClass(s[i], k) then RunEnd(s, i + 1, k) else i
  }

  /** A run of class-`k` characters that stops at a character outside the
      class, or at the end of the text, is the longest run. */
  lemma RunEndUnique(s: string, i: nat, e: nat, k: CharClass)
    requires i <= e <= |s|
    requires AllIn(s, i, e, k)
    requires e == |s| || !InClass(s[e], k)
    ensures RunEnd(s, i, k) == e
  {
  }

  datatype Pattern =
    | Literal(text: string)
    | ReportStart(allowWarning: bool)
    | ReportEnd
    | StackFrame

  /** A pattern whose matches are never empty, so `finditer` advances. */
  predicate Consumes(pat: Pattern) {
    !pat.Literal? || |pat.text| > 0
  }

  /** `==` digits `==`, the prefix shared by the start and end markers;
      yields the index just past it. */
  function PidTag(s: string, i: nat): (r: Option<nat>)
    requires i <= |s|
    ensures r.Some? ==> i + 5 <= r.value <= |s|
  {
    if !PrefixAt("==", s, i) then None
    else
      var d := RunEnd(s, i + 2, Digit);
      if d > i + 2 && PrefixAt("==", s, d) then Some(d + 2) else None
  }

  /** `(\w+)Sanitizer:` at `w`: the greedy word run must end exactly where
      "Sanitizer" ends, since ':' is not a word character. */
  function SanitizerName(s: string, w: nat): (r: Option<nat>)
    requires w <= |s|
    ensures r.Some? ==> w + 11 <= r.value <= |s|
  {
    var m := RunEnd(s, w, Word);
    if m >= w + 10 && PrefixAt("Sanitizer:", s, m - 9) then Some(m + 1) else None
  }

  /** The end of the match of `pat` that begins at index `i`, if any. For
      patterns with a choice, this is the match a backtracking engine
      returns: every quantifier is greedy. */
  function MatchAt(pat: Pattern, s: string, i: nat): (r: Option<nat>)
    requires i <= |s|
    ensures r.Some? ==> i <= r.value <= |s|
    ensures r.Some? && Consumes(pat) ==> i < r.value
  {
    match pat
    case Literal(t) =>
      if PrefixAt(t, s, i) then Some(i + |t|) else None
    case ReportStart(allowWarning) =>
      (match PidTag(s, i)
       case None => None
       case Some(k) =>
         if PrefixAt("ERROR: ", s, k) then SanitizerName(s, k + 7)
         else if allowWarning && PrefixAt("WARNING: ", s, k) then SanitizerName(s, k + 9)
         else None)
    case ReportEnd =>
      (match PidTag(s, i)
       case None => None
       case Some(k) => if PrefixAt("ABORTING", s, k) then Some(k + 8) else None)
    case StackFrame =>
      var a := RunEnd(s, i, Space);
      if a > i && a < |s| && s[a] == '#' then
        var b := RunEnd(s, a + 1, Digit);
        if b > a + 1 && PrefixAt(" 0x", s, b) then
          var e := RunEnd(s, b + 3, LowerHex);
          if e > b + 3 then Some(e) else None
        else None
      else None
  }

  datatype Span = Span(start: nat, end: nat)

  /** `sp` is the leftmost match of `pat` at or after `from`. */
  ghost predicate IsLeftmost(pat: Pattern, s: string, from: nat, sp: Span) {
    && from <= sp.start <= |s|
    && MatchAt(pat, s, sp.start) == Some(sp.end)
    && forall j :: from <= j < sp.start ==> MatchAt(pat, s, j).None?
  }

  /** Some match of `pat` begins at or after `from`. */
  ghost predicate HasMatch(pat: Pattern, s: string, from: nat) {
    exists j :: from <= j <= |s| && MatchAt(pat, s, j).Some?
  }

  /** `re.search(pat, s[from:])`, positions counted in `s`: the leftmost
      match, or `None` when no position matches. */
  function Search(pat: Pattern, s: string, from: nat): (r: Option<Span>)
    requires from <= |s|
    ensures r.Some? <==> HasMatch(pat, s, from)
    ensures r.Some? ==> IsLeftmost(pat, s, from, r.value)
    decreases |s| - from
  {
    match MatchAt(pat, s, from)
    case Some(e) => Some(Span(from, e))
    case None => if from == |s| then None else Search(pat, s, from + 1)
  }

  /** There is only one leftmost match. */
  lemma {:induction false} LeftmostUnique(pat: Pattern, s: string, from: nat, sp: Span)
    requires from <= |s|
    requires IsLeftmost(pat, s, from, sp)
    ensures Search(pat, s, from) == Some(sp)
    decreases |s| - from
  {
    if from < sp.start {
      assert MatchAt(pat, s, from).None?;
      LeftmostUnique(pat, s, from + 1, sp);
    }
  }

  /** The last match `re.finditer` yields when scanning from `from`:
      after each match the scan resumes where that match ended. */
  function LastMatch(pat: Pattern, s: string, from: nat): (r: Option<Span>)
    requires from <= |s|
    requires Consumes(pat)
    ensures r.Some? <==> HasMatch(pat, s, from)
    ensures r.Some? ==> from <= r.value.start <= |s| && MatchAt(pat, s, r.value.start) == Some(r.value.end)
    ensures r.Some? ==> !HasMatch(pat, s, r.value.end)
    decreases |s| - from
  {
    match Search(pat, s, from)
    case None => None
    case Some(m) =>
      match LastMatch(pat, s, m.end)
      case None => Some(m)
      case Some(later) => Some(later)
  }

  /** `s.find(t, from)` as an index, `None` standing for Python's -1. */
  function Find(s: string, t: string, from: nat): (r: Option<nat>)
    requires from <= |s|
    ensures r.Some? ==> from <= r.value && PrefixAt(t, s, r.value)
    ensures r.Some? ==> forall j :: from <= j < r.value ==> !PrefixAt(t, s, j)
    ensures r.None? ==> forall j :: from <= j <= |s| ==> !PrefixAt(t, s, j)
  {
    assert forall j :: from <= j <= |s| ==> (MatchAt(Literal(t), s, j).None? <==> !PrefixAt(t, s, j));
    match Search(Literal(t), s, from)
    case None => None
    case Some(sp) => Some(sp.start)
  }

  /** `t in s`. */
  function Contains(s: string, t: string): (b: bool)
    ensures b <==> exists j: nat :: PrefixAt(t, s, j)
  {
    var r := Find(s, t, 0);
    assert forall j: nat :: PrefixAt(t, s, j) ==> j <= |s|;
    r.Some?
  }
}
