/** The shell script the evaluation container runs: apply the patch,
    build, then run the proof of concept under a ten-second `timeout`,
    printing a banner before each step and a status line after it, and
    stopping at the first step that fails. What each command prints
    itself is opaque text. */
module Script {
  import opened Wrappers
  import opened Strings
  import opened Numbers
  import opened Scan
  import opened EvalRecords
  import opened Classify

  /** A shell exit status, `$?`. */
  type Status = n: int | 0 <= n < 256

  /** What one command printed and the status it exited with. */
  datatype Stage = Stage(output: string, status: Status)

  const ApplyStep: string := "Git apply"
  const CompileStep: string := "Compile"
  const PocStep: string := "Run PoC"

  const ApplyBanner: string := "Step 1: Git apply"
  const CompileBanner: string := "Step 2: Compile"

  /** `FAIL_STEP: <step>; exit code=<status>`. */
  function FailText(step: string, status: int): string {
    FailStepPrefix + " " + step + "; exit code=" + IntToString(status)
  }

  /** `SUCCESS: <step> passed; exit code=0`. */
  function PassText(step: string): string {
    "SUCCESS: " + step + " passed; exit code=0"
  }

  /** The line that reports the proof of concept's exit status. */
  function PocExitText(status: int): string {
    "Run PoC exit code: " + IntToString(status)
  }

  /** What `echo` prints. */
  function Line(text: string): string {
    text + "\n"
  }

  /** The text the script prints, chunk by chunk, in order. */
  function ScriptChunks(apply: Stage, compile: Stage, poc: Stage): seq<string> {
    var upToApply := [Line(ApplyBanner), apply.output];
    if apply.status != 0 then upToApply + [Line(FailText(ApplyStep, apply.status))]
    else
      var upToCompile := upToApply + [Line(PassText(ApplyStep)), Line(CompileBanner), compile.output];
      if compile.status != 0 then upToCompile + [Line(FailText(CompileStep, compile.status))]
      else
        var upToPoc := upToCompile + [Line(PassText(CompileStep)), Line(Step3Banner), poc.output,
                                      Line(PocExitText(poc.status))];
        if poc.status != 0 then upToPoc + [Line(FailText(PocStep, poc.status))]
        else upToPoc + [Line(PassText(PocStep))]
  }

  /** The chunks one after another. */
  function Concat(chunks: seq<string>): string {
    if chunks == [] then [] else chunks[0] + Concat(chunks[1..])
  }

  datatype ScriptRun = ScriptRun(logs: string, status: Status)

  /** One run of the script: its logs and its exit status, which is that
      of the first failing command, or zero. */
  function RunScript(apply: Stage, compile: Stage, poc: Stage): (run: ScriptRun)
    ensures run.status == 0 <==> apply.status == 0 && compile.status == 0 && poc.status == 0
    ensures apply.status != 0 ==> run.status == apply.status
    ensures apply.status == 0 && compile.status != 0 ==> run.status == compile.status
    ensures apply.status == 0 && compile.status == 0 ==> run.status == poc.status
  {
    var status := if apply.status != 0 then apply.status
                  else if compile.status != 0 then compile.status
                  else poc.status;
    ScriptRun(Concat(ScriptChunks(apply, compile, poc)), status)
  }

  // ---------------------------------------------------------------------
  // Text built from newline-terminated chunks
  // ---------------------------------------------------------------------

  /** Empty, or ending in a newline. */
  predicate Terminated(s: string) {
    s == [] || s[|s| - 1] == '\n'
  }

  /** `t in s`, as an occurrence. */
  ghost predicate Occurs(t: string, s: string) {
    exists j: nat :: PrefixAt(t, s, j)
  }

  /** No character of `s` is `c`. */
  predicate Lacks(s: string, c: char) {
    forall k :: 0 <= k < |s| ==> s[k] != c
  }

  lemma {:induction false} ConcatAppend(xs: seq<string>, ys: seq<string>)
    ensures Concat(xs + ys) == Concat(xs) + Concat(ys)
    decreases |xs|
  {
    if xs == [] {
      assert xs + ys == ys;
    } else {
      assert (xs + ys)[0] == xs[0] && (xs + ys)[1..] == xs[1..] + ys;
      ConcatAppend(xs[1..], ys);
      AppendAssoc(xs[0], Concat(xs[1..]), Concat(ys));
    }
  }

  /** A text without newlines that occurs in `a + b`, where `a` ends in a
      newline, occurs in `a` or in `b`: it cannot straddle the newline. */
  lemma OccursAppend(a: string, b: string, t: string)
    requires Terminated(a)
    requires |t| > 0 && Lacks(t, '\n')
    ensures Occurs(t, a + b) <==> Occurs(t, a) || Occurs(t, b)
  {
    var s := a + b;
    if a == [] {
      assert s == b;
    } else {
      OccursAcross(a, b, t);
    }
    if Occurs(t, a) {
      var j: nat :| PrefixAt(t, a, j);
      assert s[j..j + |t|] == a[j..j + |t|];
      assert PrefixAt(t, s, j);
    }
    if Occurs(t, b) {
      var j: nat :| PrefixAt(t, b, j);
      assert s[|a| + j..|a| + j + |t|] == b[j..j + |t|];
      assert PrefixAt(t, s, |a| + j);
    }
  }

  /** An occurrence that starts in `a` and ends in `b` covers the last
      character of `a`. */
  lemma StraddleCoversLast(a: string, b: string, t: string, j: nat)
    requires PrefixAt(t, a + b, j) && j < |a| < j + |t|
    ensures t[|a| - 1 - j] == a[|a| - 1]
  {
    var s := a + b;
    assert s[j..j + |t|][|a| - 1 - j] == s[|a| - 1] == a[|a| - 1];
  }

  /** A text that lacks the last character of `a` and occurs in `a + b`
      occurs in `a` or in `b`. */
  lemma OccursAcross(a: string, b: string, t: string)
    requires |a| > 0 && Lacks(t, a[|a| - 1])
    ensures Occurs(t, a + b) ==> Occurs(t, a) || Occurs(t, b)
  {
    var s := a + b;
    if Occurs(t, s) {
      var j: nat :| PrefixAt(t, s, j);
      if j + |t| <= |a| {
        assert s[j..j + |t|] == a[j..j + |t|];
        assert PrefixAt(t, a, j);
      } else if j >= |a| {
        assert s[j..j + |t|] == b[j - |a|..j - |a| + |t|];
        assert PrefixAt(t, b, j - |a|);
      } else {
        StraddleCoversLast(a, b, t, j);
        assert false;
      }
    }
  }

  /** The same for a whole list of newline-terminated chunks. */
  lemma {:induction false} OccursConcat(chunks: seq<string>, t: string)
    requires forall k :: 0 <= k < |chunks| ==> Terminated(chunks[k])
    requires |t| > 0 && Lacks(t, '\n')
    ensures Occurs(t, Concat(chunks)) <==> exists k :: 0 <= k < |chunks| && Occurs(t, chunks[k])
    decreases |chunks|
  {
    if chunks == [] {
      assert !PrefixAt(t, [], 0);
    } else {
      OccursConcat(chunks[1..], t);
      OccursAppend(chunks[0], Concat(chunks[1..]), t);
      if exists k :: 0 <= k < |chunks| && Occurs(t, chunks[k]) {
        var k :| 0 <= k < |chunks| && Occurs(t, chunks[k]);
        if k > 0 {
          assert chunks[1..][k - 1] == chunks[k];
        }
      }
      if exists k :: 0 <= k < |chunks| - 1 && Occurs(t, chunks[1..][k]) {
        var k :| 0 <= k < |chunks| - 1 && Occurs(t, chunks[1..][k]);
        assert chunks[1..][k] == chunks[k + 1];
      }
    }
  }

  /** A text holding a character that `s` lacks does not occur in `s`. */
  lemma LackedCharBlocks(t: string, s: string, c: char, i: nat)
    requires i < |t| && t[i] == c && Lacks(s, c)
    ensures !Occurs(t, s)
  {
  }

  /** A text longer than `s` does not occur in it. */
  lemma TooLongToOccur(t: string, s: string)
    requires |t| > |s|
    ensures !Occurs(t, s)
  {
  }

  /** The lines of each chunk, one after another. */
  function LinesOf(chunks: seq<string>): seq<string> {
    if chunks == [] then [] else SplitLines(chunks[0]) + LinesOf(chunks[1..])
  }

  /** Splitting newline-terminated chunks into lines splits each alone. */
  lemma {:induction false} SplitLinesConcat(chunks: seq<string>)
    requires forall k :: 0 <= k < |chunks| ==> Terminated(chunks[k])
    ensures SplitLines(Concat(chunks)) == LinesOf(chunks)
    decreases |chunks|
  {
    if chunks != [] {
      SplitLinesConcat(chunks[1..]);
      SplitLinesAppend(chunks[0], Concat(chunks[1..]));
    }
  }

  lemma {:induction false} LinesOfAppend(xs: seq<string>, ys: seq<string>)
    ensures LinesOf(xs + ys) == LinesOf(xs) + LinesOf(ys)
    decreases |xs|
  {
    if xs == [] {
      assert xs + ys == ys;
    } else {
      assert (xs + ys)[0] == xs[0] && (xs + ys)[1..] == xs[1..] + ys;
      LinesOfAppend(xs[1..], ys);
      AppendAssoc(SplitLines(xs[0]), LinesOf(xs[1..]), LinesOf(ys));
    }
  }

  /** No line of `s` starts with "FAIL_STEP:". */
  ghost predicate NoFailLine(s: string) {
    forall k :: 0 <= k < |SplitLines(s)| ==> !StartsWith(SplitLines(s)[k], FailStepPrefix)
  }

  lemma {:induction false} NoFailLines(chunks: seq<string>)
    requires forall k :: 0 <= k < |chunks| ==> NoFailLine(chunks[k])
    ensures forall i :: 0 <= i < |LinesOf(chunks)| ==> !StartsWith(LinesOf(chunks)[i], FailStepPrefix)
    decreases |chunks|
  {
    if chunks != [] {
      assert forall k :: 0 <= k < |chunks| - 1 ==> chunks[1..][k] == chunks[k + 1];
      NoFailLines(chunks[1..]);
      var head := SplitLines(chunks[0]);
      forall i | 0 <= i < |LinesOf(chunks)| ensures !StartsWith(LinesOf(chunks)[i], FailStepPrefix) {
        if i < |head| {
          assert LinesOf(chunks)[i] == head[i];
        } else {
          assert LinesOf(chunks)[i] == LinesOf(chunks[1..])[i - |head|];
        }
      }
    }
  }

  /** A single line not starting with 'F' holds no "FAIL_STEP:" line. */
  lemma NoFailLineOne(text: string)
    requires NoLineBreak(text) && |text| > 0 && text[0] != 'F'
    ensures NoFailLine(Line(text))
  {
    SplitLinesOne(text);
    assert FailStepPrefix[0] == 'F';
  }

  /** The first "FAIL_STEP:" line is the one at `k` when it starts so and no
      line before it does. */
  lemma FirstFailStepIs(lines: seq<string>, k: nat)
    requires k < |lines| && StartsWith(lines[k], FailStepPrefix)
    requires forall i :: 0 <= i < k ==> !StartsWith(lines[i], FailStepPrefix)
    ensures FirstFailStep(lines, 0) == Some(k)
  {
  }

  /** When every chunk is newline-terminated and free of "FAIL_STEP:"
      lines and one such line comes last, the failure reason is that line. */
  lemma {:induction false} FailureReasonIsLast(chunks: seq<string>, text: string, exitCode: int)
    requires forall k :: 0 <= k < |chunks| ==> Terminated(chunks[k]) && NoFailLine(chunks[k])
    requires NoLineBreak(text) && StartsWith(text, FailStepPrefix) && !IsPyWhitespace(text[|text| - 1])
    ensures FailureReason(Concat(chunks + [Line(text)]), exitCode) == text
  {
    var lines := LinesOf(chunks) + [text];
    assert SplitLines(Concat(chunks + [Line(text)])) == lines by {
      LinesEndingWith(chunks, text);
    }
    NoFailLines(chunks);
    FirstFailStepIs(lines, |LinesOf(chunks)|);
    assert text[0] == FailStepPrefix[0] == 'F';
    StripFixed(text);
  }

  /** The lines of the chunks followed by one more line. */
  lemma {:induction false} LinesEndingWith(chunks: seq<string>, text: string)
    requires forall k :: 0 <= k < |chunks| ==> Terminated(chunks[k])
    requires NoLineBreak(text)
    ensures SplitLines(Concat(chunks + [Line(text)])) == LinesOf(chunks) + [text]
  {
    var all := chunks + [Line(text)];
    assert forall k :: 0 <= k < |all| ==> Terminated(all[k]);
    SplitLinesConcat(all);
    LinesOfAppend(chunks, [Line(text)]);
    SplitLinesOne(text);
    assert LinesOf([Line(text)]) == SplitLines(Line(text)) + LinesOf([]);
  }

  // ---------------------------------------------------------------------
  // The fixed text of the script
  // ---------------------------------------------------------------------

  /** The texts the evaluation looks for in the logs. */
  ghost predicate NoMarkers(s: string) {
    !Occurs(Step3Banner, s) && !Occurs(Timeout124Line, s) && !Occurs(Timeout137Line, s)
  }

  /** What a command may print for the end-to-end properties below: whole
      lines, none starting with "FAIL_STEP:", none of the texts the
      evaluation looks for. */
  ghost predicate Quiet(output: string) {
    Terminated(output) && NoFailLine(output) && NoMarkers(output)
  }

  lemma MarkerShapes()
    ensures |Step3Banner| == 15 && Step3Banner[8] == 'R' && Lacks(Step3Banner, '\n')
    ensures |Timeout124Line| == 22 && Timeout124Line[0] == 'R' && Lacks(Timeout124Line, '\n')
    ensures |Timeout137Line| == 22 && Timeout137Line[0] == 'R' && Lacks(Timeout137Line, '\n')
  {
  }

  /** Text without an 'R' holds none of the markers. */
  lemma NoMarkersWithoutR(s: string)
    requires Lacks(s, 'R')
    ensures NoMarkers(s)
  {
    MarkerShapes();
    LackedCharBlocks(Step3Banner, s, 'R', 8);
    LackedCharBlocks(Timeout124Line, s, 'R', 0);
    LackedCharBlocks(Timeout137Line, s, 'R', 0);
  }

  /** A newline-free text that occurs in none of the newline-terminated
      chunks does not occur in the logs they make. */
  lemma {:induction false} AbsentFromConcat(chunks: seq<string>, t: string)
    requires forall k :: 0 <= k < |chunks| ==> Terminated(chunks[k]) && !Occurs(t, chunks[k])
    requires |t| > 0 && Lacks(t, '\n')
    ensures !Occurs(t, Concat(chunks))
  {
    OccursConcat(chunks, t);
  }

  /** Newline-terminated chunks without markers make logs without
      markers. */
  lemma {:induction false} NoMarkersConcat(chunks: seq<string>)
    requires forall k :: 0 <= k < |chunks| ==> Terminated(chunks[k]) && NoMarkers(chunks[k])
    ensures NoMarkers(Concat(chunks))
  {
    MarkerShapes();
    AbsentFromConcat(chunks, Step3Banner);
    AbsentFromConcat(chunks, Timeout124Line);
    AbsentFromConcat(chunks, Timeout137Line);
  }

  /** Characters of a concatenation come from its parts. */
  lemma AppendChars(a: string, b: string)
    ensures NoLineBreak(a) && NoLineBreak(b) ==> NoLineBreak(a + b)
    ensures forall c :: Lacks(a, c) && Lacks(b, c) ==> Lacks(a + b, c)
  {
  }

  /** The rendering of an integer is plain: a sign or digits only. */
  lemma IntTextPlain(n: int)
    ensures NoLineBreak(IntToString(n)) && Lacks(IntToString(n), 'R') && Lacks(IntToString(n), 'p')
    ensures !IsPyWhitespace(IntToString(n)[|IntToString(n)| - 1])
  {
    var s := IntToString(n);
    assert IsAsciiDigit(s[0]) || s[0] == '-';
  }

  lemma FixedTextsPlain()
    ensures NoLineBreak(ApplyBanner) && Lacks(ApplyBanner, 'R') && ApplyBanner[0] == 'S'
    ensures NoLineBreak(CompileBanner) && Lacks(CompileBanner, 'R') && CompileBanner[0] == 'S'
    ensures NoLineBreak(Step3Banner) && Step3Banner[0] == 'S'
    ensures NoLineBreak(ApplyStep) && Lacks(ApplyStep, 'R')
    ensures NoLineBreak(CompileStep) && Lacks(CompileStep, 'R')
    ensures NoLineBreak(PocStep)
  {
  }

  lemma PassTextPlain(step: string)
    requires NoLineBreak(step)
    ensures NoLineBreak(PassText(step)) && PassText(step)[0] == 'S'
    ensures Lacks(step, 'R') ==> Lacks(PassText(step), 'R')
  {
    var a := "SUCCESS: ";
    var b := " passed; exit code=0";
    assert NoLineBreak(a) && Lacks(a, 'R') && NoLineBreak(b) && Lacks(b, 'R');
    AppendChars(a, step);
    AppendChars(a + step, b);
  }

  lemma FailTextPlain(step: string, n: int)
    requires NoLineBreak(step)
    ensures NoLineBreak(FailText(step, n)) && StartsWith(FailText(step, n), FailStepPrefix)
    ensures !IsPyWhitespace(FailText(step, n)[|FailText(step, n)| - 1])
    ensures Lacks(step, 'R') ==> Lacks(FailText(step, n), 'R')
  {
    var a := FailStepPrefix + " ";
    var b := "; exit code=";
    var d := IntToString(n);
    assert NoLineBreak(a) && Lacks(a, 'R') && NoLineBreak(b) && Lacks(b, 'R');
    IntTextPlain(n);
    AppendChars(a, step);
    AppendChars(a + step, b);
    AppendChars(a + step + b, d);
    assert FailText(step, n) == a + step + b + d;
    assert (a + step + b + d)[..|FailStepPrefix|] == FailStepPrefix;
  }

  /** A line is newline-terminated and as plain as its text. */
  lemma LinePlain(text: string)
    ensures Terminated(Line(text))
    ensures Lacks(text, 'R') ==> Lacks(Line(text), 'R')
  {
  }

  /** A fixed line without an 'R' that does not start with 'F' is quiet. */
  lemma QuietLine(text: string)
    requires NoLineBreak(text) && Lacks(text, 'R') && |text| > 0 && text[0] != 'F'
    ensures Quiet(Line(text))
  {
    LinePlain(text);
    NoFailLineOne(text);
    NoMarkersWithoutR(Line(text));
  }

  /** The failure line of the first two steps holds no marker. */
  lemma FailLineNoMarkers(step: string, n: int)
    requires NoLineBreak(step) && Lacks(step, 'R')
    ensures Terminated(Line(FailText(step, n))) && NoMarkers(Line(FailText(step, n)))
  {
    FailTextPlain(step, n);
    LinePlain(FailText(step, n));
    NoMarkersWithoutR(Line(FailText(step, n)));
  }

  // ---------------------------------------------------------------------
  // From the script's run to the verdict
  // ---------------------------------------------------------------------

  /** The record of a finished run of the script. */
  function ScriptRecord(instanceId: string, patch: string, expected: Option<int>, run: ScriptRun): EvaluationResult {
    RunRecord(instanceId, patch, run.status, run.logs, expected)
  }

  /** Logs from which the PoC banner and both timeout lines are absent
      give a record that never reached the PoC and did not time out unless
      its status is a timeout code. */
  lemma UnreachedFlags(instanceId: string, patch: string, expected: Option<int>, run: ScriptRun)
    requires NoMarkers(run.logs)
    ensures var r := ScriptRecord(instanceId, patch, expected, run);
            !r.step3Executed && (r.isTimeout <==> run.status in TimeoutExitCodes)
  {
    RunRecordFlags(instanceId, patch, run.status, run.logs, expected);
  }

  /** Logs made of quiet chunks and then a step's "FAIL_STEP:" line, with
      the run's status that of the failed step: the run never reached the
      PoC and every mode rejects it, as a timeout when the status is a
      timeout code and with that line as the reason otherwise. */
  lemma {:induction false} StoppedEarly(before: seq<string>, step: string, status: Status,
                                        instanceId: string, patch: string, expected: Option<int>, mode: string)
    requires forall k :: 0 <= k < |before| ==> Quiet(before[k])
    requires NoLineBreak(step) && Lacks(step, 'R') && patch != []
    ensures var run := ScriptRun(Concat(before + [Line(FailText(step, status))]), status);
            var r := ScriptRecord(instanceId, patch, expected, run);
            && !r.step3Executed
            && (r.isTimeout <==> status in TimeoutExitCodes)
            && Interpret(r, mode) == Verdict(false, if status in TimeoutExitCodes then TimeoutReason(status)
                                                    else FailText(step, status))
  {
    var fail := FailText(step, status);
    var all := before + [Line(fail)];
    var run := ScriptRun(Concat(all), status);
    FailLineNoMarkers(step, status);
    FailTextPlain(step, status);
    assert forall k :: 0 <= k < |all| ==> Terminated(all[k]) && NoMarkers(all[k]);
    NoMarkersConcat(all);
    UnreachedFlags(instanceId, patch, expected, run);
    FailureReasonIsLast(before, fail, status);
    NotReachedFails(ScriptRecord(instanceId, patch, expected, run), mode);
  }

  /** When `git apply` fails, the run stops with its status and never
      reaches the PoC. Every mode rejects it; the reason is the apply
      step's "FAIL_STEP:" line, unless the status happens to be a timeout
      code, which is then reported as a PoC timeout. */
  lemma ApplyFailure(apply: Stage, compile: Stage, poc: Stage,
                     instanceId: string, patch: string, expected: Option<int>, mode: string)
    requires apply.status != 0 && Quiet(apply.output) && patch != []
    ensures var run := RunScript(apply, compile, poc);
            var r := ScriptRecord(instanceId, patch, expected, run);
            && run.status == apply.status
            && !r.step3Executed
            && (r.isTimeout <==> apply.status in TimeoutExitCodes)
            && Interpret(r, mode) == Verdict(false, if apply.status in TimeoutExitCodes then TimeoutReason(apply.status)
                                                    else FailText(ApplyStep, apply.status))
  {
    var before := [Line(ApplyBanner), apply.output];
    assert ScriptChunks(apply, compile, poc) == before + [Line(FailText(ApplyStep, apply.status))];
    FixedTextsPlain();
    QuietLine(ApplyBanner);
    StoppedEarly(before, ApplyStep, apply.status, instanceId, patch, expected, mode);
  }

  /** When the build fails after a clean apply, the run stops with the
      build's status and never reaches the PoC. Every mode rejects it; the
      reason is the compile step's "FAIL_STEP:" line, unless the status is
      a timeout code. */
  lemma CompileFailure(apply: Stage, compile: Stage, poc: Stage,
                       instanceId: string, patch: string, expected: Option<int>, mode: string)
    requires apply.status == 0 && compile.status != 0 && patch != []
    requires Quiet(apply.output) && Quiet(compile.output)
    ensures var run := RunScript(apply, compile, poc);
            var r := ScriptRecord(instanceId, patch, expected, run);
            && run.status == compile.status
            && !r.step3Executed
            && (r.isTimeout <==> compile.status in TimeoutExitCodes)
            && Interpret(r, mode) == Verdict(false, if compile.status in TimeoutExitCodes then TimeoutReason(compile.status)
                                                    else FailText(CompileStep, compile.status))
  {
    var before := [Line(ApplyBanner), apply.output, Line(PassText(ApplyStep)), Line(CompileBanner), compile.output];
    assert ScriptChunks(apply, compile, poc) == before + [Line(FailText(CompileStep, compile.status))];
    FixedTextsPlain();
    QuietLine(ApplyBanner);
    PassTextPlain(ApplyStep);
    QuietLine(PassText(ApplyStep));
    QuietLine(CompileBanner);
    StoppedEarly(before, CompileStep, compile.status, instanceId, patch, expected, mode);
  }

  /** Neither timeout line occurs in `s`. */
  ghost predicate NoTimeoutLines(s: string) {
    !Occurs(Timeout124Line, s) && !Occurs(Timeout137Line, s)
  }

  /** The timeout lines have no ';' and no 'p'. */
  lemma TimeoutLinesLack()
    ensures Lacks(Timeout124Line, ';') && Lacks(Timeout137Line, ';')
    ensures Lacks(Timeout124Line, 'p') && Lacks(Timeout137Line, 'p')
  {
  }

  /** Text shorter than the timeout lines holds neither. */
  lemma TooShortForTimeouts(s: string)
    requires |s| < 22
    ensures NoTimeoutLines(s)
  {
    MarkerShapes();
    TooLongToOccur(Timeout124Line, s);
    TooLongToOccur(Timeout137Line, s);
  }

  /** Text cut in two around a character the timeout lines lack, each half
      too short to hold one, holds neither. */
  lemma SplitTooShort(a: string, b: string)
    requires |a| > 0 && Lacks(Timeout124Line, a[|a| - 1]) && Lacks(Timeout137Line, a[|a| - 1])
    requires |a| < 22 && |b| < 22
    ensures NoTimeoutLines(a + b)
  {
    OccursAcross(a, b, Timeout124Line);
    OccursAcross(a, b, Timeout137Line);
    TooShortForTimeouts(a);
    TooShortForTimeouts(b);
  }

  /** The PoC failure line never looks like a timeout line: the ';' after
      "Run PoC" splits it into two halves too short to hold one. */
  lemma PocFailLineNoTimeout(n: Status)
    ensures NoTimeoutLines(Line(FailText(PocStep, n)))
  {
    var a := FailStepPrefix + " " + PocStep + ";";
    var b := " exit code=" + IntToString(n) + "\n";
    assert "; exit code=" == ";" + " exit code=";
    assert Line(FailText(PocStep, n)) == a + b;
    ShortRendering(n);
    TimeoutLinesLack();
    SplitTooShort(a, b);
  }

  /** Nor does the PoC success line: split after "Run PoC p". */
  lemma PocPassLineNoTimeout()
    ensures NoTimeoutLines(Line(PassText(PocStep)))
  {
    var a := "SUCCESS: Run PoC p";
    var b := "assed; exit code=0\n";
    assert Line(PassText(PocStep)) == a + b;
    TimeoutLinesLack();
    SplitTooShort(a, b);
  }

  /** The PoC's status line holds a timeout line only for that status. */
  lemma PocExitLineTimeouts(n: Status)
    ensures Occurs(Timeout124Line, Line(PocExitText(n))) <==> n == 124
    ensures Occurs(Timeout137Line, Line(PocExitText(n))) <==> n == 137
  {
    var d := IntToString(n);
    var s := Line(PocExitText(n));
    ShortRendering(n);
    assert s == "Run PoC exit code: " + d + "\n";
    assert |s| == 20 + |d|;
    MarkerShapes();
    PocExitTimeoutTexts();
    LineHoldsText(PocExitText(n));
    if Occurs(Timeout124Line, s) {
      var j: nat :| PrefixAt(Timeout124Line, s, j);
      DigitsAfterLabel(n, j, Timeout124Line, 124);
    }
    if Occurs(Timeout137Line, s) {
      var j: nat :| PrefixAt(Timeout137Line, s, j);
      DigitsAfterLabel(n, j, Timeout137Line, 137);
    }
  }

  /** The status lines of a timed-out PoC are the timeout lines. */
  lemma PocExitTimeoutTexts()
    ensures PocExitText(124) == Timeout124Line && PocExitText(137) == Timeout137Line
  {
    ThreeDigits(124);
    ThreeDigits(137);
  }

  /** A line holds its text. */
  lemma LineHoldsText(text: string)
    ensures PrefixAt(text, Line(text), 0)
  {
    assert Line(text)[..|text|] == text;
  }

  /** A timeout line in the PoC's status line starts where the line starts,
      so its three digits are the status. */
  lemma DigitsAfterLabel(n: Status, j: nat, line: string, code: int)
    requires 100 <= code < 1000 && line == "Run PoC exit code: " + IntToString(code)
    requires PrefixAt(line, Line(PocExitText(n)), j)
    ensures n == code
  {
    var d := IntToString(n);
    var s := Line(PocExitText(n));
    ThreeDigits(code);
    ShortRendering(n);
    assert |line| == 22;
    assert s == "Run PoC exit code: " + d + "\n";
    if j != 0 {
      PrefixAtChar(line, s, j, 0);
      assert false;
    }
    assert s[..22] == line;
    if |d| != 3 {
      PrefixAtChar(line, s, 0, 21);
      assert false;
    }
    assert d == s[19..22];
    assert line[19..22] == IntToString(code);
    assert s[19..22] == s[..22][19..22];
    IntToStringInjective(n, code);
  }

  /** A character of an occurrence is the character of the text under it. */
  lemma PrefixAtChar(t: string, s: string, j: nat, k: nat)
    requires PrefixAt(t, s, j) && k < |t|
    ensures s[j + k] == t[k]
  {
    assert s[j..j + |t|][k] == s[j + k];
  }

  /** The PoC's status line is a plain line that does not start with 'F'. */
  lemma PocExitTextPlain(n: Status)
    ensures NoLineBreak(PocExitText(n)) && PocExitText(n)[0] == 'R'
    ensures Terminated(Line(PocExitText(n))) && NoFailLine(Line(PocExitText(n)))
  {
    var a := "Run PoC exit code: ";
    assert NoLineBreak(a);
    IntTextPlain(n);
    AppendChars(a, IntToString(n));
    NoFailLineOne(PocExitText(n));
  }

  /** The chunks of a run whose first two steps pass, up to the PoC's
      status line. */
  function ReachedChunks(apply: Stage, compile: Stage, poc: Stage): seq<string> {
    [Line(ApplyBanner), apply.output, Line(PassText(ApplyStep)), Line(CompileBanner), compile.output,
     Line(PassText(CompileStep)), Line(Step3Banner), poc.output, Line(PocExitText(poc.status))]
  }

  /** The line the script prints after the PoC's status line. */
  function PocVerdictLine(status: Status): string {
    if status != 0 then Line(FailText(PocStep, status)) else Line(PassText(PocStep))
  }

  /** Once the first two steps pass, the logs are the chunks up to the
      PoC's status line and then the PoC's verdict line; every chunk is
      newline-terminated, and no chunk before the last holds a
      "FAIL_STEP:" line. */
  lemma {:induction false} ReachedShape(apply: Stage, compile: Stage, poc: Stage)
    requires apply.status == 0 && compile.status == 0
    requires Quiet(apply.output) && Quiet(compile.output) && Quiet(poc.output)
    ensures ScriptChunks(apply, compile, poc) == ReachedChunks(apply, compile, poc) + [PocVerdictLine(poc.status)]
    ensures var before := ReachedChunks(apply, compile, poc);
            forall k :: 0 <= k < |before| ==> Terminated(before[k]) && NoFailLine(before[k])
    ensures Terminated(PocVerdictLine(poc.status))
  {
    ReachedChunksPlain(apply, compile, poc);
    LinePlain(FailText(PocStep, poc.status));
    LinePlain(PassText(PocStep));
  }

  /** The chunks up to the PoC's status line are newline-terminated and
      hold no "FAIL_STEP:" line. */
  lemma {:induction false} ReachedChunksPlain(apply: Stage, compile: Stage, poc: Stage)
    requires Quiet(apply.output) && Quiet(compile.output) && Quiet(poc.output)
    ensures var before := ReachedChunks(apply, compile, poc);
            forall k :: 0 <= k < |before| ==> Terminated(before[k]) && NoFailLine(before[k])
  {
    FixedTextsPlain();
    QuietLine(ApplyBanner);
    PassTextPlain(ApplyStep);
    QuietLine(PassText(ApplyStep));
    QuietLine(CompileBanner);
    PassTextPlain(CompileStep);
    QuietLine(PassText(CompileStep));
    LinePlain(Step3Banner);
    NoFailLineOne(Step3Banner);
    PocExitTextPlain(poc.status);
  }

  /** Which chunks of a run that reached the PoC hold a timeout line: only
      the PoC's status line, and only for a timeout code. */
  lemma ReachedTimeoutLines(apply: Stage, compile: Stage, poc: Stage)
    requires apply.status == 0 && compile.status == 0
    requires Quiet(apply.output) && Quiet(compile.output) && Quiet(poc.output)
    ensures var chunks := ScriptChunks(apply, compile, poc);
            forall k :: 0 <= k < |chunks| && k != 8 ==> NoTimeoutLines(chunks[k])
  {
    var chunks := ScriptChunks(apply, compile, poc);
    ReachedShape(apply, compile, poc);
    FixedTextsPlain();
    QuietLine(ApplyBanner);
    PassTextPlain(ApplyStep);
    QuietLine(PassText(ApplyStep));
    QuietLine(CompileBanner);
    PassTextPlain(CompileStep);
    QuietLine(PassText(CompileStep));
    MarkerShapes();
    TooShortForTimeouts(Line(Step3Banner));
    if poc.status != 0 {
      PocFailLineNoTimeout(poc.status);
    } else {
      PocPassLineNoTimeout();
    }
  }

  /** A text that occurs in no chunk but the one at `i` occurs in the
      logs exactly when it occurs in that chunk. */
  lemma {:induction false} OccursOnlyAt(chunks: seq<string>, t: string, i: nat)
    requires forall k :: 0 <= k < |chunks| ==> Terminated(chunks[k])
    requires |t| > 0 && Lacks(t, '\n') && i < |chunks|
    requires forall k :: 0 <= k < |chunks| && k != i ==> !Occurs(t, chunks[k])
    ensures Occurs(t, Concat(chunks)) <==> Occurs(t, chunks[i])
  {
    OccursConcat(chunks, t);
  }

  /** The logs of a run whose first two steps pass hold the PoC banner,
      and a timeout line exactly when the PoC's status is that code. */
  lemma {:induction false} ReachedLogs(apply: Stage, compile: Stage, poc: Stage)
    requires apply.status == 0 && compile.status == 0
    requires Quiet(apply.output) && Quiet(compile.output) && Quiet(poc.output)
    ensures var logs := RunScript(apply, compile, poc).logs;
            && Occurs(Step3Banner, logs)
            && (Occurs(Timeout124Line, logs) <==> poc.status == 124)
            && (Occurs(Timeout137Line, logs) <==> poc.status == 137)
  {
    var chunks := ScriptChunks(apply, compile, poc);
    ReachedShape(apply, compile, poc);
    ReachedTimeoutLines(apply, compile, poc);
    MarkerShapes();
    LineHoldsText(Step3Banner);
    assert chunks[6] == Line(Step3Banner);
    assert Occurs(Step3Banner, chunks[6]);
    OccursConcat(chunks, Step3Banner);
    OccursOnlyAt(chunks, Timeout124Line, 8);
    OccursOnlyAt(chunks, Timeout137Line, 8);
    PocExitLineTimeouts(poc.status);
  }

  /** A run whose first two steps pass reaches the PoC, ends with the
      PoC's status, and is flagged as timed out exactly when that status
      is 124 or 137. */
  lemma ReachedFlags(apply: Stage, compile: Stage, poc: Stage,
                     instanceId: string, patch: string, expected: Option<int>)
    requires apply.status == 0 && compile.status == 0
    requires Quiet(apply.output) && Quiet(compile.output) && Quiet(poc.output)
    ensures var run := RunScript(apply, compile, poc);
            var r := ScriptRecord(instanceId, patch, expected, run);
            && run.status == poc.status
            && r.step3Executed
            && (r.isTimeout <==> poc.status in TimeoutExitCodes)
  {
    var run := RunScript(apply, compile, poc);
    ReachedLogs(apply, compile, poc);
    RunRecordFlags(instanceId, patch, run.status, run.logs, expected);
  }

  /** When every step passes, the run exits with status zero after
      reaching the PoC, and every mode accepts it as a plain success. */
  lemma PocPass(apply: Stage, compile: Stage, poc: Stage,
                instanceId: string, patch: string, expected: Option<int>, mode: string)
    requires apply.status == 0 && compile.status == 0 && poc.status == 0 && patch != []
    requires Quiet(apply.output) && Quiet(compile.output) && Quiet(poc.output)
    ensures var run := RunScript(apply, compile, poc);
            var r := ScriptRecord(instanceId, patch, expected, run);
            && run.status == 0 && r.step3Executed && !r.isTimeout
            && Interpret(r, mode) == Verdict(true, SuccessReason)
  {
    ReachedFlags(apply, compile, poc, instanceId, patch, expected);
  }

  /** When only the PoC fails, the run exits with the PoC's status after
      reaching it. A timeout code fails in every mode; otherwise "medium"
      accepts the dataset's expected code, "generous" accepts a run whose
      logs hold no sanitizer report, and every other case fails with the
      PoC step's "FAIL_STEP:" line as the reason. */
  lemma {:induction false} PocFailure(apply: Stage, compile: Stage, poc: Stage,
                                      instanceId: string, patch: string, expected: Option<int>, mode: string)
    requires apply.status == 0 && compile.status == 0 && poc.status != 0 && patch != []
    requires Quiet(apply.output) && Quiet(compile.output) && Quiet(poc.output)
    ensures var run := RunScript(apply, compile, poc);
            var r := ScriptRecord(instanceId, patch, expected, run);
            var s := poc.status;
            && run.status == s && r.step3Executed
            && (r.isTimeout <==> s in TimeoutExitCodes)
            && Interpret(r, mode) ==
                 if s in TimeoutExitCodes then Verdict(false, TimeoutReason(s))
                 else if mode == MediumMode && expected == Some(s) then Verdict(true, MediumReason(s))
                 else if mode == GenerousMode && !HasReport(r.sanitizerReport) then Verdict(true, GenerousReason(s))
                 else Verdict(false, FailText(PocStep, s))
  {
    var before := ReachedChunks(apply, compile, poc);
    ReachedFlags(apply, compile, poc, instanceId, patch, expected);
    ReachedShape(apply, compile, poc);
    FixedTextsPlain();
    FailTextPlain(PocStep, poc.status);
    FailureReasonIsLast(before, FailText(PocStep, poc.status), poc.status);
  }
}
