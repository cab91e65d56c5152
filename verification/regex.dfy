/** The regular expressions of the report extractors read literally, as
    existential shapes over the text, and the proofs that the scanners of
    module Scan find exactly the matches a backtracking engine finds. */
module Regex {
  import opened Wrappers
  import opened Strings
  import opened Scan

  /** `==\d+==(?:ERROR|WARNING): (\w+)Sanitizer:` (WARNING only when
      `allowWarning`) spelled out: digits in `[i+2, d)`, the sanitizer
      name in `[w, k)`, "Sanitizer:" at `k`. */
  ghost predicate StartShape(s: string, i: nat, allowWarning: bool, d: nat, w: nat, k: nat) {
    && i + 2 < d && d + 2 <= |s|
    && PrefixAt("==", s, i) && AllIn(s, i + 2, d, Digit) && PrefixAt("==", s, d)
    && ((PrefixAt("ERROR: ", s, d + 2) && w == d + 9)
        || (allowWarning && PrefixAt("WARNING: ", s, d + 2) && w == d + 11))
    && w < k <= |s| && AllIn(s, w, k, Word) && PrefixAt("Sanitizer:", s, k)
  }

  /** `==\d+==ABORTING` spelled out: digits in `[i+2, d)`. */
  ghost predicate EndShape(s: string, i: nat, d: nat) {
    && i + 2 < d <= |s|
    && PrefixAt("==", s, i) && AllIn(s, i + 2, d, Digit) && PrefixAt("==ABORTING", s, d)
  }

  /** `\s+#\d+ 0x[0-9a-f]+` spelled out: whitespace in `[i, a)`, '#' at
      `a`, digits in `[a+1, b)`, " 0x" at `b`, hex digits in `[b+3, e)`. */
  ghost predicate FrameShape(s: string, i: nat, a: nat, b: nat, e: nat) {
    && i < a < |s| && AllIn(s, i, a, Space) && s[a] == '#'
    && a + 1 < b <= |s| && AllIn(s, a + 1, b, Digit) && PrefixAt(" 0x", s, b)
    && b + 3 < e <= |s| && AllIn(s, b + 3, e, LowerHex)
  }

  lemma SanitizerWordChars(s: string, k: nat)
    requires PrefixAt("Sanitizer:", s, k)
    ensures AllIn(s, k, k + 9, Word)
    ensures !InClass(s[k + 9], Word)
  {
    assert s[k..k + 10] == "Sanitizer:";
    forall m | k <= m < k + 9 ensures InClass(s[m], Word) {
      assert s[m] == "Sanitizer:"[m - k];
    }
    assert s[k + 9] == ':';
  }

  lemma AllInJoin(s: string, i: nat, j: nat, l: nat, k: CharClass)
    requires i <= j <= l <= |s|
    requires AllIn(s, i, j, k) && AllIn(s, j, l, k)
    ensures AllIn(s, i, l, k)
  {
  }

  lemma PidTagShape(s: string, i: nat, d: nat)
    requires i + 2 < d && d + 2 <= |s|
    requires PrefixAt("==", s, i) && AllIn(s, i + 2, d, Digit) && PrefixAt("==", s, d)
    ensures PidTag(s, i) == Some(d + 2)
  {
    assert s[d] == "=="[0];
    RunEndUnique(s, i + 2, d, Digit);
  }

  lemma SanitizerNameShape(s: string, w: nat, k: nat)
    requires w < k <= |s| && AllIn(s, w, k, Word) && PrefixAt("Sanitizer:", s, k)
    ensures SanitizerName(s, w) == Some(k + 10)
  {
    SanitizerWordChars(s, k);
    AllInJoin(s, w, k, k + 9, Word);
    RunEndUnique(s, w, k + 9, Word);
  }

  lemma PidTagFacts(s: string, i: nat)
    requires i <= |s| && PidTag(s, i).Some?
    ensures var d := PidTag(s, i).value - 2;
      && i + 2 < d && d + 2 <= |s|
      && PrefixAt("==", s, i) && AllIn(s, i + 2, d, Digit) && PrefixAt("==", s, d)
  {
  }

  lemma SanitizerNameFacts(s: string, w: nat)
    requires w <= |s| && SanitizerName(s, w).Some?
    ensures var k := SanitizerName(s, w).value - 10;
      && w < k <= |s| && AllIn(s, w, k, Word) && PrefixAt("Sanitizer:", s, k)
  {
    var m := RunEnd(s, w, Word);
    assert AllIn(s, w, m, Word);
  }

  /** The start marker's two spellings differ in their first letter. */
  lemma ErrorNotWarning(s: string, k: nat)
    requires PrefixAt("WARNING: ", s, k)
    ensures !PrefixAt("ERROR: ", s, k)
  {
    assert s[k] == "WARNING: "[0];
  }

  /** The pieces of a start marker, found by the scanner, make its shape. */
  lemma StartPiecesShape(s: string, i: nat, allowWarning: bool, d: nat, w: nat, e: nat)
    requires i + 2 < d && d + 2 <= |s|
    requires PrefixAt("==", s, i) && AllIn(s, i + 2, d, Digit) && PrefixAt("==", s, d)
    requires (PrefixAt("ERROR: ", s, d + 2) && w == d + 9)
          || (allowWarning && PrefixAt("WARNING: ", s, d + 2) && w == d + 11)
    requires w <= |s| && SanitizerName(s, w) == Some(e)
    ensures StartShape(s, i, allowWarning, d, w, e - 10)
  {
    SanitizerNameFacts(s, w);
  }

  lemma StartScannerHasShape(s: string, i: nat, allowWarning: bool)
    requires i <= |s|
    requires MatchAt(ReportStart(allowWarning), s, i).Some?
    ensures exists d: nat, w: nat, k: nat :: StartShape(s, i, allowWarning, d, w, k)
              && MatchAt(ReportStart(allowWarning), s, i).value == k + 10
  {
    PidTagFacts(s, i);
    var d := PidTag(s, i).value - 2;
    var e := MatchAt(ReportStart(allowWarning), s, i).value;
    if PrefixAt("ERROR: ", s, d + 2) {
      StartPiecesShape(s, i, allowWarning, d, d + 9, e);
      assert StartShape(s, i, allowWarning, d, d + 9, e - 10);
    } else {
      StartPiecesShape(s, i, allowWarning, d, d + 11, e);
      assert StartShape(s, i, allowWarning, d, d + 11, e - 10);
    }
  }

  lemma StartShapeMatches(s: string, i: nat, allowWarning: bool, d: nat, w: nat, k: nat)
    requires StartShape(s, i, allowWarning, d, w, k)
    ensures MatchAt(ReportStart(allowWarning), s, i) == Some(k + 10)
  {
    PidTagShape(s, i, d);
    SanitizerNameShape(s, w, k);
    if !(PrefixAt("ERROR: ", s, d + 2) && w == d + 9) {
      ErrorNotWarning(s, d + 2);
    }
  }

  /** The start-marker scanner matches at `i`, ending at `e`, exactly when
      the regular expression's shape is present there and ends at `e`. */
  lemma StartMatchesRegex(s: string, i: nat, allowWarning: bool, e: nat)
    requires i <= |s|
    ensures MatchAt(ReportStart(allowWarning), s, i) == Some(e)
        <==> exists d: nat, w: nat, k: nat :: StartShape(s, i, allowWarning, d, w, k) && e == k + 10
  {
    if MatchAt(ReportStart(allowWarning), s, i) == Some(e) {
      StartScannerHasShape(s, i, allowWarning);
    }
    if exists d: nat, w: nat, k: nat :: StartShape(s, i, allowWarning, d, w, k) && e == k + 10 {
      var d: nat, w: nat, k: nat :| StartShape(s, i, allowWarning, d, w, k) && e == k + 10;
      StartShapeMatches(s, i, allowWarning, d, w, k);
    }
  }

  lemma EndScannerHasShape(s: string, i: nat)
    requires i <= |s|
    requires MatchAt(ReportEnd, s, i).Some?
    ensures EndShape(s, i, RunEnd(s, i + 2, Digit))
    ensures MatchAt(ReportEnd, s, i).value == RunEnd(s, i + 2, Digit) + 10
  {
    var d := RunEnd(s, i + 2, Digit);
    assert s[d..d + 10] == s[d..d + 2] + s[d + 2..d + 10];
  }

  lemma EndShapeMatches(s: string, i: nat, d: nat)
    requires EndShape(s, i, d)
    ensures MatchAt(ReportEnd, s, i) == Some(d + 10)
  {
    assert s[d..d + 2] == "==" && s[d + 2..d + 10] == "ABORTING" by {
      assert s[d..d + 10] == "==ABORTING";
      assert s[d..d + 2] == s[d..d + 10][..2];
      assert s[d + 2..d + 10] == s[d..d + 10][2..];
    }
    PidTagShape(s, i, d);
  }

  /** The end-marker scanner matches at `i`, ending at `e`, exactly when
      the regular expression's shape is present there and ends at `e`. */
  lemma EndMatchesRegex(s: string, i: nat, e: nat)
    requires i <= |s|
    ensures MatchAt(ReportEnd, s, i) == Some(e) <==> exists d: nat :: EndShape(s, i, d) && e == d + 10
  {
    if MatchAt(ReportEnd, s, i) == Some(e) {
      EndScannerHasShape(s, i);
    }
    if exists d: nat :: EndShape(s, i, d) && e == d + 10 {
      var d: nat :| EndShape(s, i, d) && e == d + 10;
      EndShapeMatches(s, i, d);
    }
  }

  lemma NotSpace(c: char)
    requires c == '#' || c == '0' || c == 'x' || InClass(c, Digit) || InClass(c, LowerHex)
    ensures !InClass(c, Space)
  {
  }

  /** What the stack-frame scanner found, as the regular expression's
      shape with the scanner's own boundaries. */
  lemma FrameScannerHasShape(s: string, i: nat)
    requires i <= |s| && MatchAt(StackFrame, s, i).Some?
    ensures var a := RunEnd(s, i, Space);
            var b := RunEnd(s, a + 1, Digit);
            && FrameShape(s, i, a, b, RunEnd(s, b + 3, LowerHex))
            && MatchAt(StackFrame, s, i).value == RunEnd(s, b + 3, LowerHex)
  {
  }

  /** Every shape at `i` ends no further right than the scanner's match. */
  lemma FrameScannerIsLongest(s: string, i: nat)
    requires i <= |s| && MatchAt(StackFrame, s, i).Some?
    ensures forall a: nat, b: nat, e: nat :: FrameShape(s, i, a, b, e) ==> e <= MatchAt(StackFrame, s, i).value
  {
    forall a: nat, b: nat, e: nat | FrameShape(s, i, a, b, e) ensures e <= MatchAt(StackFrame, s, i).value {
      FrameShapeGreedy(s, i, a, b, e);
    }
  }

  /** The stack-frame scanner matches at `i` exactly when the regular
      expression's shape is present there; it returns the longest such
      match, as greedy quantifiers do. */
  lemma {:induction false} FrameMatchesRegex(s: string, i: nat)
    requires i <= |s|
    ensures MatchAt(StackFrame, s, i).Some? <==> exists a: nat, b: nat, e: nat :: FrameShape(s, i, a, b, e)
    ensures MatchAt(StackFrame, s, i).Some? ==>
              exists a: nat, b: nat :: FrameShape(s, i, a, b, MatchAt(StackFrame, s, i).value)
    ensures MatchAt(StackFrame, s, i).Some? ==>
              forall a: nat, b: nat, e: nat :: FrameShape(s, i, a, b, e) ==> e <= MatchAt(StackFrame, s, i).value
  {
    if MatchAt(StackFrame, s, i).Some? {
      FrameScannerHasShape(s, i);
      FrameScannerIsLongest(s, i);
    }
    if exists a': nat, b': nat, e': nat :: FrameShape(s, i, a', b', e') {
      var a': nat, b': nat, e': nat :| FrameShape(s, i, a', b', e');
      FrameShapeGreedy(s, i, a', b', e');
    }
  }

  /** Any shape found at `i` has the scanner's boundaries, except that its
      hex run may stop short of the longest one. */
  lemma FrameShapeGreedy(s: string, i: nat, a: nat, b: nat, e: nat)
    requires FrameShape(s, i, a, b, e)
    ensures RunEnd(s, i, Space) == a
    ensures RunEnd(s, a + 1, Digit) == b
    ensures e <= RunEnd(s, b + 3, LowerHex)
    ensures MatchAt(StackFrame, s, i) == Some(RunEnd(s, b + 3, LowerHex))
  {
    NotSpace(s[a]);
    RunEndUnique(s, i, a, Space);
    assert s[b] == " 0x"[0];
    RunEndUnique(s, a + 1, b, Digit);
  }

  /** A stack-frame match begins with whitespace, and the whitespace run is
      followed by '#'. */
  lemma FrameBegins(s: string, j: nat)
    requires j <= |s| && MatchAt(StackFrame, s, j).Some?
    ensures j < RunEnd(s, j, Space) < |s| && InClass(s[j], Space) && s[RunEnd(s, j, Space)] == '#'
  {
  }

  /** No stack-frame match begins inside the part of a match that follows
      its whitespace. */
  lemma FrameBody(s: string, a: nat, b: nat, e: nat, j: nat)
    requires a < b && b + 3 < e <= |s| && s[a] == '#' && AllIn(s, a + 1, b, Digit)
    requires PrefixAt(" 0x", s, b) && AllIn(s, b + 3, e, LowerHex)
    requires a <= j < e
    ensures MatchAt(StackFrame, s, j).None?
  {
    assert s[b + 1] == " 0x"[1];
    if j == b {
      NotSpace(s[b + 1]);
      RunEndUnique(s, b, b + 1, Space);
    } else {
      assert s[b + 2] == " 0x"[2];
      NotSpace(s[j]);
    }
  }

  /** Two stack-frame matches that overlap end at the same place: a match
      can only begin inside another one within its leading whitespace. */
  lemma FrameOverlap(s: string, i: nat, j: nat)
    requires i < j <= |s|
    requires MatchAt(StackFrame, s, i).Some? && MatchAt(StackFrame, s, j).Some?
    requires j < MatchAt(StackFrame, s, i).value
    ensures MatchAt(StackFrame, s, j) == MatchAt(StackFrame, s, i)
  {
    FrameScannerHasShape(s, i);
    var a := RunEnd(s, i, Space);
    var b := RunEnd(s, a + 1, Digit);
    var e := RunEnd(s, b + 3, LowerHex);
    if j < a {
      RunEndUnique(s, j, a, Space);
    } else {
      FrameBody(s, a, b, e, j);
    }
  }

  /** The last match `finditer` yields for the stack-frame pattern ends at
      least as far right as every stack-frame match after `from`. */
  lemma LastFrameIsFurthest(s: string, from: nat, j: nat)
    requires from <= j <= |s|
    requires MatchAt(StackFrame, s, j).Some?
    ensures LastMatch(StackFrame, s, from).Some?
    ensures MatchAt(StackFrame, s, j).value <= LastMatch(StackFrame, s, from).value.end
  {
    var m := LastMatch(StackFrame, s, from).value;
    var ej := MatchAt(StackFrame, s, j).value;
    if j > m.start && j < m.end {
      FrameOverlap(s, m.start, j);
    } else if j < m.start && ej > m.start {
      FrameOverlap(s, j, m.start);
    }
  }
}
