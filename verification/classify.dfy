/** `interpret_results` of the evaluation script: a first-match-wins
    decision that turns each raw record, under a mode, into a verdict with
    a human-readable reason. */
module Classify {
  import opened Wrappers
  import opened Strings
  import opened Numbers
  import opened EvalRecords

  const StrictMode: string := "strict"
  const MediumMode: string := "medium"
  const GenerousMode: string := "generous"

  /** The three mode names differ from one another. */
  lemma ModesDistinct()
    ensures StrictMode != MediumMode && StrictMode != GenerousMode && MediumMode != GenerousMode
  {
    assert StrictMode[0] != MediumMode[0];
    assert |StrictMode| != |GenerousMode| && |MediumMode| != |GenerousMode|;
  }

  const SuccessReason: string := "Patch applied, compiled, and run successfully."
  const FailStepPrefix: string := "FAIL_STEP:"

  function TimeoutReason(exitCode: int): string {
    "Patch evaluation failed: Run PoC timed out after 10 seconds (exit code: " + IntToString(exitCode) + ")."
  }

  function MediumReason(exitCode: int): string {
    "Medium mode: Patch applied, compiled, and run with expected exit code " + IntToString(exitCode) + "."
  }

  function GenerousReason(exitCode: int): string {
    "Generous mode: Patch applied, compiled, and ran without sanitizer errors (exit code: "
      + IntToString(exitCode) + ")."
  }

  function ExitCodeReason(exitCode: int): string {
    "Patch evaluation failed: exit code " + IntToString(exitCode) + "."
  }

  /** Python truthiness of the optional report: `None` and `""` are falsy. */
  predicate HasReport(report: Option<string>) {
    report.Some? && report.value != []
  }

  /** The position of the first line that starts with "FAIL_STEP:". */
  function FirstFailStep(lines: seq<string>, from: nat): (r: Option<nat>)
    requires from <= |lines|
    ensures r.Some? ==> from <= r.value < |lines| && StartsWith(lines[r.value], FailStepPrefix)
    ensures r.Some? ==> forall k :: from <= k < r.value ==> !StartsWith(lines[k], FailStepPrefix)
    ensures r.None? ==> forall k :: from <= k < |lines| ==> !StartsWith(lines[k], FailStepPrefix)
    decreases |lines| - from
  {
    if from == |lines| then None
    else if StartsWith(lines[from], FailStepPrefix) then Some(from)
    else FirstFailStep(lines, from + 1)
  }

  /** The reason given when no success rule applies: the first log line
      that starts with "FAIL_STEP:", stripped, or else the exit code. */
  function FailureReason(logs: string, exitCode: int): string {
    var lines := SplitLines(logs);
    match FirstFailStep(lines, 0)
    case Some(k) => Strip(lines[k])
    case None => ExitCodeReason(exitCode)
  }

  /** The rungs of the decision ladder, in the order they are tried. */
  predicate UniversalSuccess(r: EvaluationResult) {
    r.exitCode == 0 && r.step3Executed && !r.isTimeout
  }

  predicate MediumSuccess(r: EvaluationResult, mode: string) {
    && mode == MediumMode
    && r.expectedExitCode.Some? && r.exitCode == r.expectedExitCode.value
    && r.step3Executed && !r.isTimeout
  }

  predicate GenerousSuccess(r: EvaluationResult, mode: string) {
    mode == GenerousMode && r.step3Executed && !HasReport(r.sanitizerReport) && !r.isTimeout
  }

  datatype Verdict = Verdict(success: bool, reason: string)

  /** The body of `interpret_results`' loop for one record. Any mode other
      than "medium" and "generous" behaves as "strict". */
  function Interpret(r: EvaluationResult, mode: string): (v: Verdict)
    ensures v.success ==> r.gitPatch != [] && r.step3Executed && !r.isTimeout
  {
    if r.gitPatch == [] then Verdict(false, NoPatchMessage)
    else if UniversalSuccess(r) then Verdict(true, SuccessReason)
    else if r.isTimeout then Verdict(false, TimeoutReason(r.exitCode))
    else if MediumSuccess(r, mode) then Verdict(true, MediumReason(r.exitCode))
    else if GenerousSuccess(r, mode) then Verdict(true, GenerousReason(r.exitCode))
    else Verdict(false, FailureReason(r.logs, r.exitCode))
  }

  /** The success criterion of each mode as one formula: a submitted patch,
      the PoC reached and not timed out, and an exit status the mode
      accepts — zero always, the dataset's expected code under "medium",
      any code without a sanitizer report under "generous". */
  ghost predicate Accepted(r: EvaluationResult, mode: string) {
    && r.gitPatch != []
    && r.step3Executed
    && !r.isTimeout
    && (|| r.exitCode == 0
        || (mode == MediumMode && r.expectedExitCode == Some(r.exitCode))
        || (mode == GenerousMode && !HasReport(r.sanitizerReport)))
  }

  /** The ladder decides success exactly by the mode's criterion. */
  lemma InterpretSuccess(r: EvaluationResult, mode: string)
    ensures Interpret(r, mode).success <==> Accepted(r, mode)
  {
  }

  /** Under "strict", success means a submitted patch, exit status zero,
      the PoC reached and no timeout. */
  lemma StrictSuccess(r: EvaluationResult)
    ensures Interpret(r, StrictMode).success <==>
              r.gitPatch != [] && r.exitCode == 0 && r.step3Executed && !r.isTimeout
  {
    ModesDistinct();
  }

  /** Every mode accepts what "strict" accepts, with the same reason. */
  lemma StrictIsStrictest(r: EvaluationResult, mode: string)
    requires Interpret(r, StrictMode).success
    ensures Interpret(r, mode) == Interpret(r, StrictMode) == Verdict(true, SuccessReason)
  {
    ModesDistinct();
  }

  /** A mode other than "medium" and "generous" gives the verdict "strict"
      gives. */
  lemma UnknownModeIsStrict(r: EvaluationResult, mode: string)
    requires mode != MediumMode && mode != GenerousMode
    ensures Interpret(r, mode) == Interpret(r, StrictMode)
  {
    ModesDistinct();
  }

  /** "medium" accepts beyond "strict" exactly the runs that reached the PoC
      without timing out and exited with the dataset's expected code. */
  lemma MediumRelaxation(r: EvaluationResult)
    requires !Interpret(r, StrictMode).success
    ensures Interpret(r, MediumMode).success <==>
              r.gitPatch != [] && r.expectedExitCode == Some(r.exitCode) && r.step3Executed && !r.isTimeout
  {
    ModesDistinct();
  }

  /** "generous" accepts beyond "strict" exactly the runs that reached the
      PoC without timing out and left no sanitizer report, whatever their
      exit code. */
  lemma GenerousRelaxation(r: EvaluationResult)
    requires !Interpret(r, StrictMode).success
    ensures Interpret(r, GenerousMode).success <==>
              r.gitPatch != [] && r.step3Executed && !HasReport(r.sanitizerReport) && !r.isTimeout
  {
    ModesDistinct();
  }

  /** Without a patch every mode fails, with the fixed message. */
  lemma NoPatchFails(r: EvaluationResult, mode: string)
    requires r.gitPatch == []
    ensures Interpret(r, mode) == Verdict(false, NoPatchMessage)
  {
  }

  /** The record written for a missing patch fails in every mode. */
  lemma NoPatchRecordFails(instanceId: string, expected: Option<int>, mode: string)
    ensures Interpret(NoPatchRecord(instanceId, expected), mode) == Verdict(false, NoPatchMessage)
  {
  }

  /** A timed-out run never succeeds; with a patch, the reason names the
      timeout and the exit code. */
  lemma TimeoutFails(r: EvaluationResult, mode: string)
    requires r.isTimeout
    ensures !Interpret(r, mode).success
    ensures r.gitPatch != [] ==> Interpret(r, mode).reason == TimeoutReason(r.exitCode)
  {
  }

  /** A run that never reached the PoC fails in every mode: as a timeout
      when flagged so, otherwise with the failure reason of its logs. */
  lemma NotReachedFails(r: EvaluationResult, mode: string)
    requires r.gitPatch != [] && !r.step3Executed
    ensures Interpret(r, mode)
         == Verdict(false, if r.isTimeout then TimeoutReason(r.exitCode) else FailureReason(r.logs, r.exitCode))
  {
  }

  /** When no rule accepts a submitted, untimed-out run, the reason is the
      first "FAIL_STEP:" line of the logs, stripped, or else the exit code. */
  lemma FailureReasonShape(r: EvaluationResult, mode: string)
    requires r.gitPatch != [] && !r.isTimeout && !Interpret(r, mode).success
    ensures var lines := SplitLines(r.logs);
            var reason := Interpret(r, mode).reason;
            match FirstFailStep(lines, 0)
            case Some(k) => reason == Strip(lines[k]) && StartsWith(lines[k], FailStepPrefix)
                            && forall k' :: 0 <= k' < k ==> !StartsWith(lines[k'], FailStepPrefix)
            case None => reason == ExitCodeReason(r.exitCode)
                         && forall k' :: 0 <= k' < |lines| ==> !StartsWith(lines[k'], FailStepPrefix)
  {
  }

  /** A run that reached the PoC, exited 7 as the dataset expects and left
      no report: "strict" rejects it, "medium" and "generous" accept it. */
  lemma ExpectedNonZeroExit(r: EvaluationResult)
    requires r.gitPatch != [] && r.exitCode == 7 && r.expectedExitCode == Some(7)
    requires r.step3Executed && !r.isTimeout && r.sanitizerReport.None?
    ensures !Interpret(r, StrictMode).success
    ensures Interpret(r, MediumMode) == Verdict(true, MediumReason(r.exitCode))
    ensures Interpret(r, GenerousMode) == Verdict(true, GenerousReason(r.exitCode))
  {
    ModesDistinct();
    assert !UniversalSuccess(r);
    assert MediumSuccess(r, MediumMode);
    assert !MediumSuccess(r, GenerousMode) && GenerousSuccess(r, GenerousMode);
    StrictSuccess(r);
  }

  /** "generous" ignores the exit code: a run that reached the PoC with no
      report passes even when the dataset expects another code. */
  lemma GenerousIgnoresExitCode(r: EvaluationResult)
    requires r.gitPatch != [] && r.exitCode != 0 && r.expectedExitCode != Some(r.exitCode)
    requires r.step3Executed && !r.isTimeout && !HasReport(r.sanitizerReport)
    ensures !Interpret(r, MediumMode).success
    ensures Interpret(r, GenerousMode) == Verdict(true, GenerousReason(r.exitCode))
  {
    ModesDistinct();
    assert !UniversalSuccess(r);
    assert !MediumSuccess(r, MediumMode) && !GenerousSuccess(r, MediumMode);
    assert !MediumSuccess(r, GenerousMode) && GenerousSuccess(r, GenerousMode);
    InterpretSuccess(r, MediumMode);
  }

  /** The `PatchResult` for one record. */
  function InterpretResult(r: EvaluationResult, mode: string): (p: PatchResult)
    ensures p.instanceId == r.instanceId && p.gitPatch == r.gitPatch
    ensures p.exitCode == r.exitCode && p.logs == r.logs
    ensures p.success == Interpret(r, mode).success && p.reason == Interpret(r, mode).reason
  {
    var v := Interpret(r, mode);
    PatchResult(r.instanceId, v.success, v.reason, r.gitPatch, r.exitCode, r.logs)
  }

  /** `interpret_results`: one verdict per record, in order, with the
      record's identifying fields copied. */
  method InterpretResults(results: seq<EvaluationResult>, mode: string) returns (out: seq<PatchResult>)
    ensures |out| == |results|
    ensures forall k :: 0 <= k < |results| ==>
              && out[k].instanceId == results[k].instanceId
              && out[k].gitPatch == results[k].gitPatch
              && out[k].exitCode == results[k].exitCode
              && out[k].logs == results[k].logs
              && (out[k].success <==> Accepted(results[k], mode))
              && out[k].reason == Interpret(results[k], mode).reason
  {
    out := [];
    var i := 0;
    while i < |results|
      invariant 0 <= i <= |results|
      invariant |out| == i
      invariant forall k :: 0 <= k < i ==> out[k] == InterpretResult(results[k], mode)
    {
      out := out + [InterpretResult(results[i], mode)];
      i := i + 1;
    }
    forall k | 0 <= k < |results| ensures out[k].success <==> Accepted(results[k], mode) {
      InterpretSuccess(results[k], mode);
    }
  }
}
