/** The raw and the interpreted evaluation records of the evaluation
    script, and how `run_evaluation` derives one raw record per patch from
    the container run: the no-patch short-circuit, the container-error
    records and the flags read off the container logs. */
module EvalRecords {
  import opened Wrappers
  import opened Strings
  import opened Scan
  import opened ReportTiers
  import opened EvalReport

  const SecbImagePrefix: string := "hwiwonlee/secb.eval.x86_64"
  const SecbImageTag: string := "latest"

  /** Exit codes that mean the PoC run was killed by `timeout`. */
  const TimeoutExitCodes: seq<int> := [124, 137]

  /** The banner the script prints when it reaches the PoC run. */
  const Step3Banner: string := "Step 3: Run PoC"
  const Timeout124Line: string := "Run PoC exit code: 124"
  const Timeout137Line: string := "Run PoC exit code: 137"

  const NoPatchMessage: string :=
    "The model failed to submit a patch. Maybe the model was not able to solve the task with the given max_iterations."

  /** `EvaluationResult`: what one run produced, before any success
      criterion is applied. */
  datatype EvaluationResult = EvaluationResult(
    instanceId: string,
    gitPatch: string,
    exitCode: int,
    logs: string,
    step3Executed: bool,
    isTimeout: bool,
    sanitizerReport: Option<string>,
    expectedExitCode: Option<int>)

  /** `PatchResult`: the verdict on one run under one mode. */
  datatype PatchResult = PatchResult(
    instanceId: string,
    success: bool,
    reason: string,
    gitPatch: string,
    exitCode: int,
    logs: string)

  /** The record of an instance without a patch: nothing ran. */
  function NoPatchRecord(instanceId: string, expected: Option<int>): (r: EvaluationResult)
    ensures r.instanceId == instanceId && r.expectedExitCode == expected
    ensures r.gitPatch == [] && r.exitCode == -1 && r.logs == []
    ensures !r.step3Executed && !r.isTimeout && r.sanitizerReport.None?
  {
    EvaluationResult(instanceId, "", -1, "", false, false, None, expected)
  }

  /** The record of an instance whose container could not be created: the
      error message stands in for the logs. */
  function ContainerErrorRecord(instanceId: string, patch: string, message: string, expected: Option<int>)
    : (r: EvaluationResult)
    ensures r.instanceId == instanceId && r.gitPatch == patch && r.expectedExitCode == expected
    ensures r.exitCode == -1 && r.logs == message
    ensures !r.step3Executed && !r.isTimeout && r.sanitizerReport.None?
  {
    EvaluationResult(instanceId, patch, -1, message, false, false, None, expected)
  }

  /** `"Step 3: Run PoC" in logs`. */
  predicate Step3Executed(logs: string) {
    Contains(logs, Step3Banner)
  }

  /** `exit_code in TIMEOUT_EXIT_CODES` or a timed-out PoC exit line in the
      logs. */
  predicate IsTimeout(exitCode: int, logs: string) {
    exitCode in TimeoutExitCodes || Contains(logs, Timeout124Line) || Contains(logs, Timeout137Line)
  }

  /** The record of a container that ran to completion. */
  function RunRecord(instanceId: string, patch: string, exitCode: int, logs: string, expected: Option<int>)
    : (r: EvaluationResult)
    ensures r.instanceId == instanceId && r.gitPatch == patch && r.expectedExitCode == expected
    ensures r.exitCode == exitCode && r.logs == logs
    ensures r.step3Executed == Step3Executed(logs) && r.isTimeout == IsTimeout(exitCode, logs)
    ensures r.sanitizerReport == ExtractEvalReport(logs)
  {
    EvaluationResult(instanceId, patch, exitCode, logs, Step3Executed(logs), IsTimeout(exitCode, logs),
                     ExtractEvalReport(logs), expected)
  }

  /** A run is flagged as having reached the PoC exactly when the banner
      occurs in its logs, and as timed out exactly when its exit code is
      124 or 137 or its logs report one of those PoC exit codes; it has no
      sanitizer report exactly when neither extraction tier applies to its
      logs. */
  lemma RunRecordFlags(instanceId: string, patch: string, exitCode: int, logs: string, expected: Option<int>)
    ensures var r := RunRecord(instanceId, patch, exitCode, logs, expected);
            && (r.step3Executed <==> exists j: nat :: PrefixAt(Step3Banner, logs, j))
            && (r.isTimeout <==> exitCode == 124 || exitCode == 137
                                 || (exists j: nat :: PrefixAt(Timeout124Line, logs, j))
                                 || (exists j: nat :: PrefixAt(Timeout137Line, logs, j)))
            && (r.sanitizerReport.Some? ==> 0 < |r.sanitizerReport.value| <= |logs|)
            && r.sanitizerReport == ExtractEvalReport(logs)
            && (r.sanitizerReport.None? <==> !BoundedApplies(logs, false) && !AnyIndicator(logs, EvalIndicators))
  {
    ExtractEvalReportShape(logs);
  }

  /** The image the evaluation container runs:
      `{SECB_IMAGE_PREFIX}.{instance_id}:{SECB_IMAGE_TAG}`. */
  function EvalImageName(instanceId: string): (r: string)
    ensures |r| == |SecbImagePrefix| + |instanceId| + 8
    ensures StartsWith(r, SecbImagePrefix + ".")
    ensures r[|SecbImagePrefix| + 1..|SecbImagePrefix| + 1 + |instanceId|] == instanceId
  {
    SecbImagePrefix + "." + instanceId + ":" + SecbImageTag
  }

  /** Different instances run in different images. */
  lemma EvalImageNameInjective(a: string, b: string)
    requires EvalImageName(a) == EvalImageName(b)
    ensures a == b
  {
    var n := |SecbImagePrefix| + 1;
    assert |a| == |b|;
    assert a == EvalImageName(a)[n..n + |a|];
  }

  /** `model_patch.replace("\r\n", "\n")`: every CRLF pair, scanning left to
      right without overlap, becomes a single newline. */
  function ReplaceCrlf(s: string): (r: string)
    ensures |r| <= |s|
    ensures |r| == 0 <==> |s| == 0
    decreases |s|
  {
    if |s| >= 2 && s[0] == '\r' && s[1] == '\n' then "\n" + ReplaceCrlf(s[2..])
    else if |s| == 0 then ""
    else [s[0]] + ReplaceCrlf(s[1..])
  }

  /** Text without carriage returns is left alone. */
  lemma {:induction false} ReplaceCrlfNoCr(s: string)
    requires forall k :: 0 <= k < |s| ==> s[k] != '\r'
    ensures ReplaceCrlf(s) == s
    decreases |s|
  {
    if |s| > 0 {
      ReplaceCrlfNoCr(s[1..]);
      assert [s[0]] + s[1..] == s;
    }
  }

  /** One pass is not enough to remove every CRLF: a carriage return
      before a CRLF pair survives next to the newline. */
  lemma ReplaceCrlfLeavesCrlf()
    ensures ReplaceCrlf("\r\r\n") == "\r\n"
  {
    var s := "\r\r\n";
    assert s[1..] == "\r\n" && s[1..][2..] == "";
    assert ReplaceCrlf(s[1..]) == "\n";
  }

  /** How the container run of one instance ended. */
  datatype ContainerOutcome =
    /** The script ran; its exit status and decoded logs. */
    | Finished(statusCode: int, logs: string)
    /** The image was missing and pulling it (or creating the container
        after the pull) failed with the given error text. */
    | PullFailed(error: string)
    /** Creating the container failed for another reason. */
    | CreateFailed(error: string)

  /** The body of `run_evaluation`'s loop for one instance: the patch as
      submitted (`None` when absent), the dataset's expected exit code and
      the outcome of the container run. */
  function EvaluateInstance(instanceId: string, modelPatch: Option<string>, expected: Option<int>,
                            outcome: ContainerOutcome): (r: EvaluationResult)
    ensures r.instanceId == instanceId && r.expectedExitCode == expected
    ensures modelPatch.None? || modelPatch.value == [] ==> r == NoPatchRecord(instanceId, expected)
    ensures modelPatch.Some? && modelPatch.value != [] ==> r.gitPatch == ReplaceCrlf(modelPatch.value)
  {
    if modelPatch.None? || modelPatch.value == [] then NoPatchRecord(instanceId, expected)
    else
      var patch := ReplaceCrlf(modelPatch.value);
      var image := EvalImageName(instanceId);
      match outcome
      case Finished(code, logs) => RunRecord(instanceId, patch, code, logs, expected)
      case PullFailed(e) =>
        ContainerErrorRecord(instanceId, patch, "Failed to pull image " + image + ": " + e, expected)
      case CreateFailed(e) =>
        ContainerErrorRecord(instanceId, patch, "Failed to create container with image " + image + ": " + e, expected)
  }

  /** A submitted patch is never recorded as missing, and only a finished
      container can have reached the PoC. */
  lemma EvaluateInstanceShape(instanceId: string, modelPatch: Option<string>, expected: Option<int>,
                              outcome: ContainerOutcome)
    ensures var r := EvaluateInstance(instanceId, modelPatch, expected, outcome);
            && (r.gitPatch == [] <==> modelPatch.None? || modelPatch.value == [])
            && (r.step3Executed ==> outcome.Finished? && r.logs == outcome.logs && r.exitCode == outcome.statusCode)
            && (!outcome.Finished? ==> r.exitCode == -1 && !r.isTimeout)
  {
  }

  /** One entry of the patch file: the instance and its `model_patch`. */
  datatype PatchEntry = PatchEntry(instanceId: string, modelPatch: Option<string>)

  /** The dataset fields the evaluation reads. */
  datatype DatasetItem = DatasetItem(workDir: string, exitCode: Option<int>)

  /** The errors `run_evaluation` raises. */
  datatype EvalError =
    | NoEntries                        // "No valid JSON found in ..."
    | MissingInstanceId                // an empty instance id
    | UnknownInstance(id: string)      // `dataset_dict[instance_id]` raises KeyError

  /** The error the loop raises on reaching entry `e`, if any: an empty
      instance id, or one the dataset does not have. */
  function EntryError(e: PatchEntry, dataset: map<string, DatasetItem>): (r: Option<EvalError>)
    ensures r.None? <==> e.instanceId != [] && e.instanceId in dataset
  {
    if e.instanceId == [] then Some(MissingInstanceId)
    else if e.instanceId !in dataset then Some(UnknownInstance(e.instanceId))
    else None
  }

  /** The entries before `n` all have a usable instance id. */
  ghost predicate EntriesKnown(entries: seq<PatchEntry>, dataset: map<string, DatasetItem>, n: nat)
    requires n <= |entries|
  {
    forall k :: 0 <= k < n ==> EntryError(entries[k], dataset).None?
  }

  /** `run_evaluation` over the patch file's entries, in order; the
      container outcomes are supplied one per entry (entries without a
      patch never start a container and their outcome is not used). */
  method RunEvaluation(entries: seq<PatchEntry>, dataset: map<string, DatasetItem>, outcomes: seq<ContainerOutcome>)
    returns (r: Result<seq<EvaluationResult>, EvalError>)
    requires |outcomes| == |entries|
    ensures entries == [] ==> r == Err(NoEntries)
    ensures r.Ok? <==> entries != [] && EntriesKnown(entries, dataset, |entries|)
    ensures r.Ok? ==> |r.value| == |entries|
    ensures r.Ok? ==> forall k :: 0 <= k < |entries| ==>
              r.value[k] == EvaluateInstance(entries[k].instanceId, entries[k].modelPatch,
                                             dataset[entries[k].instanceId].exitCode, outcomes[k])
    ensures r.Err? && entries != [] ==>
              exists n :: 0 <= n < |entries| && EntriesKnown(entries, dataset, n)
                            && EntryError(entries[n], dataset) == Some(r.error)
  {
    if entries == [] {
      return Err(NoEntries);
    }
    var results: seq<EvaluationResult> := [];
    var i := 0;
    while i < |entries|
      invariant 0 <= i <= |entries|
      invariant |results| == i
      invariant EntriesKnown(entries, dataset, i)
      invariant forall k :: 0 <= k < i ==>
                  results[k] == EvaluateInstance(entries[k].instanceId, entries[k].modelPatch,
                                                 dataset[entries[k].instanceId].exitCode, outcomes[k])
    {
      var e := entries[i];
      var err := EntryError(e, dataset);
      if err.Some? {
        return Err(err.value);
      }
      results := results + [EvaluateInstance(e.instanceId, e.modelPatch, dataset[e.instanceId].exitCode, outcomes[i])];
      i := i + 1;
    }
    return Ok(results);
  }
}
