/** Python string primitives the pipeline relies on: prefix tests, the
    character classes of `str.isspace` and `str.splitlines`, `str.split`
    with an explicit separator, `str.splitlines()` and `str.strip()`. */
module Strings {

  /** `s[i:].startswith(t)`: `t` occurs in `s` at index `i`. */
  predicate PrefixAt(t: string, s: string, i: nat) {
    i + |t| <= |s| && s[i..i + |t|] == t
  }

  /** `s.startswith(t)`. */
  predicate StartsWith(s: string, t: string) {
    PrefixAt(t, s, 0)
  }

  predicate IsAsciiDigit(c: char) {
    '0' <= c <= '9'
  }

  /** The characters Python's `str.isspace()` accepts; `str.strip()` and the
      regular-expression class `\s` use the same set. */
  predicate IsPyWhitespace(c: char) {
    var n := c as int;
    || 0x09 <= n <= 0x0D
    || 0x1C <= n <= 0x20
    || n == 0x85 || n == 0xA0 || n == 0x1680
    || 0x2000 <= n <= 0x200A
    || n == 0x2028 || n == 0x2029 || n == 0x202F || n == 0x205F || n == 0x3000
  }

  /** The line boundaries of `str.splitlines()`; `\r\n` counts as one. */
  predicate IsLineBreak(c: char) {
    var n := c as int;
    || n == 0x0A || n == 0x0B || n == 0x0C || n == 0x0D
    || n == 0x1C || n == 0x1D || n == 0x1E
    || n == 0x85 || n == 0x2028 || n == 0x2029
  }

  predicate NoLineBreak(s: string) {
    forall k :: 0 <= k < |s| ==> !IsLineBreak(s[k])
  }

  /** `sep.join(parts)`. */
  function Join(parts: seq<string>, sep: char): string
    requires |parts| >= 1
  {
    if |parts| == 1 then parts[0] else parts[0] + [sep] + Join(parts[1..], sep)
  }

  /** `s.split(sep)` for a one-character separator: never empty, no part
      holds the separator, and joining the parts back gives `s`. */
  function Split(s: string, sep: char): (parts: seq<string>)
    ensures |parts| >= 1
    ensures forall k :: 0 <= k < |parts| ==> sep !in parts[k]
    ensures Join(parts, sep) == s
    decreases |s|
  {
    if |s| == 0 then [""]
    else
      var rest := Split(s[1..], sep);
      if s[0] == sep then
        [""] + rest
      else
        [[s[0]] + rest[0]] + rest[1..]
  }

  /** Splitting a join of separator-free parts gives the parts back, so
      `Split` and `Join` are mutually inverse. */
  lemma {:induction false} SplitJoin(parts: seq<string>, sep: char)
    requires |parts| >= 1
    requires forall k :: 0 <= k < |parts| ==> sep !in parts[k]
    ensures Split(Join(parts, sep), sep) == parts
    decreases |parts|, |parts[0]|
  {
    var p := parts[0];
    if |p| == 0 {
      if |parts| == 1 {
      } else {
        var tail := Join(parts[1..], sep);
        assert Join(parts, sep) == [sep] + tail;
        assert ([sep] + tail)[1..] == tail;
        SplitJoin(parts[1..], sep);
        assert parts == [""] + parts[1..];
      }
    } else {
      var parts' := [p[1..]] + parts[1..];
      assert parts'[1..] == parts[1..];
      assert forall k :: 0 <= k < |parts'| ==> sep !in parts'[k] by {
        forall k | 0 <= k < |parts'| ensures sep !in parts'[k] {
          if k == 0 {
            assert forall c :: c in p[1..] ==> c in p;
          } else {
            assert parts'[k] == parts[k];
          }
        }
      }
      SplitJoin(parts', sep);
      var whole := Join(parts, sep);
      if |parts| == 1 {
        assert whole == p;
        assert whole[1..] == Join(parts', sep);
      } else {
        assert whole == p + [sep] + Join(parts[1..], sep);
        assert whole[1..] == p[1..] + [sep] + Join(parts[1..], sep);
        assert whole[1..] == Join(parts', sep);
      }
      assert whole[0] == p[0] && p[0] != sep;
      assert [p[0]] + p[1..] == p;
      assert parts == [p] + parts[1..];
    }
  }

  /** Index of the first line boundary at or after `i`, or `|s|`. */
  function BreakIndex(s: string, i: nat): (j: nat)
    requires i <= |s|
    ensures i <= j <= |s|
    ensures forall k :: i <= k < j ==> !IsLineBreak(s[k])
    ensures j < |s| ==> IsLineBreak(s[j])
    decreases |s| - i
  {
    if i == |s| || IsLineBreak(s[i]) then i else BreakIndex(s, i + 1)
  }

  /** `s.splitlines()`: the text between line boundaries, a final line
      without a boundary kept, no empty line after a trailing boundary. */
  function SplitLines(s: string): (lines: seq<string>)
    ensures forall k :: 0 <= k < |lines| ==> NoLineBreak(lines[k])
    ensures |s| == 0 <==> |lines| == 0
    decreases |s|
  {
    if |s| == 0 then []
    else
      var j := BreakIndex(s, 0);
      if j == |s| then [s]
      else
        [s[..j]] + SplitLines(s[j + BreakWidth(s, j)..])
  }

  /** A line followed by a newline splits into that one line. */
  lemma SplitLinesOne(line: string)
    requires NoLineBreak(line)
    ensures SplitLines(line + "\n") == [line]
  {
    var s := line + "\n";
    assert s[|line|] == '\n';
    assert BreakIndex(s, 0) == |line|;
    assert s[..|line|] == line;
    assert s[|line| + 1..] == [];
  }

  /** The first boundary at or after `i` is the one at `j` when none lies
      in between. */
  lemma {:induction false} BreakIndexAt(s: string, i: nat, j: nat)
    requires i <= j < |s| && IsLineBreak(s[j])
    requires forall k :: i <= k < j ==> !IsLineBreak(s[k])
    ensures BreakIndex(s, i) == j
    decreases j - i
  {
    if i < j {
      BreakIndexAt(s, i + 1, j);
    }
  }

  /** A non-empty text without boundaries is a single line. */
  lemma {:induction false} SplitLinesNoBreak(line: string)
    requires line != [] && NoLineBreak(line)
    ensures SplitLines(line) == [line]
  {
  }

  /** A single-character boundary ends the line before it; the text after
      it splits on its own. A `\r` directly followed by `\n` is excluded:
      that pair is one boundary (see `SplitLinesCrlf`). */
  lemma {:induction false} SplitLinesBreak(line: string, c: char, rest: string)
    requires NoLineBreak(line) && IsLineBreak(c)
    requires !(c == '\r' && |rest| > 0 && rest[0] == '\n')
    ensures SplitLines(line + [c] + rest) == [line] + SplitLines(rest)
  {
    var s := line + [c] + rest;
    assert s[|line|] == c;
    assert forall k :: 0 <= k < |line| ==> s[k] == line[k];
    BreakIndexAt(s, 0, |line|);
    assert BreakWidth(s, |line|) == 1 by {
      if |line| + 1 < |s| {
        assert s[|line| + 1] == rest[0];
      }
    }
    assert s[..|line|] == line && s[|line| + 1..] == rest;
  }

  /** `\r\n` is one boundary: it ends one line, not two. */
  lemma {:induction false} SplitLinesCrlf(line: string, rest: string)
    requires NoLineBreak(line)
    ensures SplitLines(line + "\r\n" + rest) == [line] + SplitLines(rest)
  {
    var s := line + "\r\n" + rest;
    assert s[|line|] == '\r' && s[|line| + 1] == '\n';
    assert forall k :: 0 <= k < |line| ==> s[k] == line[k];
    BreakIndexAt(s, 0, |line|);
    assert s[..|line|] == line && s[|line| + 2..] == rest;
  }

  /** Width of the line boundary at index `j`: two for `\r\n`, else one. */
  function BreakWidth(s: string, j: nat): (w: nat)
    requires j < |s|
    ensures j + w <= |s|
  {
    if s[j] == '\r' && j + 1 < |s| && s[j + 1] == '\n' then 2 else 1
  }

  lemma SplitLinesStep(s: string)
    requires |s| > 0 && BreakIndex(s, 0) < |s|
    ensures SplitLines(s)
         == [s[..BreakIndex(s, 0)]] + SplitLines(s[BreakIndex(s, 0) + BreakWidth(s, BreakIndex(s, 0))..])
  {
    var j := BreakIndex(s, 0);
    var rest := s[j + BreakWidth(s, j)..];
    assert SplitLines(s) == [s[..j]] + SplitLines(rest);
  }

  /** Text that ends in a newline splits independently of what follows. */
  lemma {:induction false} SplitLinesAppend(a: string, b: string)
    requires |a| == 0 || a[|a| - 1] == '\n'
    ensures SplitLines(a + b) == SplitLines(a) + SplitLines(b)
    decreases |a|
  {
    if |a| == 0 {
      assert a + b == b;
    } else {
      var s := a + b;
      var j := BreakIndex(a, 0);
      var w := BreakWidth(a, j);
      var rest := a[j + w..];
      assert BreakIndex(s, 0) == j && BreakWidth(s, j) == w by {
        BreakIndexPrefix(a, b, 0);
        if j + 1 < |a| {
          assert s[j] == a[j] && s[j + 1] == a[j + 1];
        }
      }
      assert s[..j] == a[..j] && s[j + w..] == rest + b;
      assert |rest| == 0 || rest[|rest| - 1] == '\n' by {
        if |rest| > 0 {
          assert rest[|rest| - 1] == a[|a| - 1];
        }
      }
      assert SplitLines(a) == [a[..j]] + SplitLines(rest) by {
        SplitLinesStep(a);
      }
      assert SplitLines(s) == [a[..j]] + SplitLines(rest + b) by {
        SplitLinesStep(s);
      }
      SplitLinesAppend(rest, b);
      AppendAssoc([a[..j]], SplitLines(rest), SplitLines(b));
    }
  }

  lemma AppendAssoc<T>(x: seq<T>, y: seq<T>, z: seq<T>)
    ensures x + (y + z) == (x + y) + z
  {
  }

  lemma {:induction false} BreakIndexPrefix(a: string, b: string, i: nat)
    requires i <= |a|
    requires BreakIndex(a, i) < |a|
    ensures BreakIndex(a + b, i) == BreakIndex(a, i)
    decreases |a| - i
  {
    var s := a + b;
    if IsLineBreak(a[i]) {
      assert s[i] == a[i];
    } else {
      assert s[i] == a[i];
      BreakIndexPrefix(a, b, i + 1);
    }
  }

  /** Index of the first non-whitespace character at or after `i`. */
  function SkipWhitespace(s: string, i: nat): (j: nat)
    requires i <= |s|
    ensures i <= j <= |s|
    ensures forall k :: i <= k < j ==> IsPyWhitespace(s[k])
    ensures j < |s| ==> !IsPyWhitespace(s[j])
    decreases |s| - i
  {
    if i == |s| || !IsPyWhitespace(s[i]) then i else SkipWhitespace(s, i + 1)
  }

  /** Index just past the last non-whitespace character of `s[lo..hi]`,
      or `lo` when there is none. */
  function TrimEnd(s: string, lo: nat, hi: nat): (j: nat)
    requires lo <= hi <= |s|
    ensures lo <= j <= hi
    ensures forall k :: j <= k < hi ==> IsPyWhitespace(s[k])
    ensures j > lo ==> !IsPyWhitespace(s[j - 1])
    decreases hi - lo
  {
    if hi == lo || !IsPyWhitespace(s[hi - 1]) then hi else TrimEnd(s, lo, hi - 1)
  }

  /** `s.strip()`: the slice left after removing whitespace from both
      ends. */
  function Strip(s: string): (r: string)
    ensures exists lo: nat, hi: nat {:trigger s[lo..hi]} ::
              && lo <= hi <= |s| && r == s[lo..hi]
              && (forall k :: 0 <= k < lo ==> IsPyWhitespace(s[k]))
              && (forall k :: hi <= k < |s| ==> IsPyWhitespace(s[k]))
    ensures |r| > 0 ==> !IsPyWhitespace(r[0]) && !IsPyWhitespace(r[|r| - 1])
  {
    var lo := SkipWhitespace(s, 0);
    var hi := TrimEnd(s, lo, |s|);
    assert forall k :: hi <= k < |s| ==> IsPyWhitespace(s[k]) by {
      forall k | hi <= k < |s| ensures IsPyWhitespace(s[k]) {
        if hi == lo && k < lo {
        }
      }
    }
    s[lo..hi]
  }

  /** Text with non-whitespace at both ends is its own strip. */
  lemma StripFixed(s: string)
    requires |s| > 0 && !IsPyWhitespace(s[0]) && !IsPyWhitespace(s[|s| - 1])
    ensures Strip(s) == s
  {
    assert SkipWhitespace(s, 0) == 0;
    assert TrimEnd(s, 0, |s|) == |s|;
    assert s[0..|s|] == s;
  }

  /** Stripping twice is stripping once. */
  lemma StripIdempotent(s: string)
    ensures Strip(Strip(s)) == Strip(s)
  {
    var r := Strip(s);
    if |r| > 0 {
      StripFixed(r);
    }
  }

  /** An occurrence inside `s[lo..hi]` is an occurrence of that slice. */
  lemma PrefixAtInSlice(t: string, s: string, lo: nat, hi: nat, p: nat)
    requires lo <= p && p + |t| <= hi <= |s|
    requires PrefixAt(t, s, p)
    ensures PrefixAt(t, s[lo..hi], p - lo)
  {
    var w := s[lo..hi];
    forall m | 0 <= m < |t| ensures w[p - lo..p - lo + |t|][m] == t[m] {
      assert t[m] == s[p..p + |t|][m];
    }
  }

  /** Python's `min(a, b)`. */
  function Min(a: int, b: int): (r: int)
    ensures r <= a && r <= b && (r == a || r == b)
  {
    if a <= b then a else b
  }

  /** No newline character in `s[i..j]`. */
  predicate NoNewlineIn(s: string, i: nat, j: nat)
    requires i <= j <= |s|
  {
    forall q :: i <= q < j ==> s[q] != '\n'
  }

  /** `nl` is the first newline character at or after `f`. */
  predicate FirstNewlineAt(s: string, f: nat, nl: nat) {
    f <= nl < |s| && PrefixAt("\n", s, nl) && NoNewlineIn(s, f, nl)
  }

  /** Each piece of a concatenation sits where the pieces before it end. */
  lemma ConcatParts(a: string, b: string, c: string)
    ensures StartsWith(a + b + c, a)
    ensures PrefixAt(b, a + b + c, |a|)
    ensures PrefixAt(c, a + b + c, |a| + |b|)
  {
    var s := a + b + c;
    assert s[..|a|] == a;
    assert s[|a|..|a| + |b|] == b;
    assert s[|a| + |b|..|a| + |b| + |c|] == c;
  }
}
