# SEC-bench patch evaluation: outcome classification and instance helpers

This project models in Dafny the deterministic core of the SEC-bench patch-evaluation pipeline, and proves properties about it. The core covers:

- **Report extraction.** The two sanitizer-report extractors:
  - the three-tier one of the batch-instance loader;
  - the two-tier one of the evaluation script.
- **Records.** The raw evaluation records the evaluation script derives from a container run:
  - the record for a missing patch;
  - the container-error records;
  - the `step3_executed` and `is_timeout` flags.
- **Verdicts.** `interpret_results`, which turns each record into a verdict under the modes "strict", "medium" and "generous".
- **The evaluation script.** The three-stage bash script that runs inside the container, as a function from the three commands' outputs and statuses to logs and exit status. End-to-end lemmas connect it to the verdicts.
- **Instance configuration.** The helpers of the batch runner:
  - the `--slice` specification parser;
  - the work-directory normalisation;
  - the SEC-bench instance builder;
  - the repository and deployment decision of `to_full_batch_instance`.

Modules, one per file:

| file | module | contents |
|---|---|---|
| wrappers.dfy | Wrappers | `Option`, `Result` |
| strings.dfy | Strings | prefix tests, `str.split(sep)`, `str.splitlines()`, `str.strip()` with Python's character sets |
| numbers.dfy | Numbers | `str(int)` and `int(str)` for base-10 integers |
| scan.dfy | Scan | hand-written scanners for the extractors' regular expressions; `re.search`, `re.finditer`'s last match, `str.find`, `in` |
| regex.dfy | Regex | the regular expressions read literally, and the proofs that the scanners find exactly their (greedy, leftmost) matches |
| report_tiers.dfy | ReportTiers | the bounded tier and the indicator window, shared by both extractors |
| secb_report.dfy | SecbReport | the three-tier extractor |
| eval_report.dfy | EvalReport | the two-tier extractor |
| eval_records.dfy | EvalRecords | `EvaluationResult`, `PatchResult`, record construction, `run_evaluation`'s loop |
| classify.dfy | Classify | `interpret_results` |
| script.dfy | Script | the three-stage script and the end-to-end scenarios |
| batch_config.dfy | BatchConfig | slice specifications, work directories, SEC-bench instances, full batch instances |

Behaviours of the code worth knowing:

- **Generous mode ignores the exit code.** A run that reached the PoC, did not time out and left no sanitizer report succeeds under "generous" whatever its exit code. So an exit-7 run expected to exit 7 succeeds under "medium" *and* "generous" (`Classify.ExpectedNonZeroExit`).
- **The "nothing ran" exit code is -1.** This applies both to a missing patch and to a container that could not be created.
- **Plain success needs a non-empty patch.** The patch is tested first, so a run with exit code 0 but an empty patch fails with the missing-patch message.
- **`is_timeout` does not ask which stage exited with 124 or 137.** When `git apply` or the build exits with 124 or 137, the run is reported as a PoC timeout although the PoC never ran (`Script.ApplyFailure`, `Script.CompileFailure`).

## Model

| member | source | states |
|---|---|---|
| Strings.Split | sweagent/run/batch_instances.py:131 | `s.split(sep)` gives at least one part, no part holds the separator, and joining the parts with the separator gives `s` back |
| Strings.SplitJoin | sweagent/run/batch_instances.py:178 | splitting a join of separator-free parts gives those parts: split and join are inverse |
| Strings.SplitLines | run_eval.py:355 | `splitlines()` yields lines without line boundaries, and none at all exactly for empty text |
| Strings.SplitLinesNoBreak | run_eval.py:355 | a non-empty text without boundaries is one line |
| Strings.SplitLinesBreak | run_eval.py:355 | a one-character boundary (any of Python's, a `\r` not followed by `\n` included) ends the line before it, and the rest splits on its own |
| Strings.SplitLinesCrlf | run_eval.py:355 | `\r\n` is one boundary: it ends the line before it, and the rest splits on its own |
| Strings.SplitLinesAppend | run_eval.py:355 | text ending in a newline splits into lines independently of what follows it |
| Strings.Strip | run_eval.py:357 | `strip()` is a slice that drops only whitespace on either side and neither starts nor ends with whitespace |
| Strings.StripIdempotent | run_eval.py:357 | stripping twice is stripping once |
| Numbers.IntToString | run_eval.py:336 | the decimal rendering is non-empty, starts with '-' exactly for negatives, and is otherwise digits |
| Numbers.ParseInt | sweagent/run/batch_instances.py:132 | `int(p)` succeeds only on text that holds a digit |
| Numbers.IntToStringRoundTrip | sweagent/run/batch_instances.py:132 | `int(str(n)) == n` for every integer |
| Numbers.IntToStringInjective | run_eval.py:207 | different integers render differently |
| Scan.Search | sweagent/run/batch_instances.py:63-64 | `re.search` finds a match exactly when one exists, and it is the leftmost |
| Scan.LeftmostUnique | run_eval.py:75-76 | the leftmost match is unique, so any leftmost match is the one `re.search` returns |
| Scan.LastMatch | sweagent/run/batch_instances.py:80-83 | the last match of `finditer` exists exactly when some match exists, and no match starts after it |
| Scan.Find | sweagent/run/batch_instances.py:89 | `s.find(t, i)` is the first occurrence at or after `i`, or absent (-1) when there is none |
| Scan.Contains | run_eval.py:284 | `t in s` holds exactly when `t` occurs at some index of `s` |
| Regex.StartMatchesRegex | sweagent/run/batch_instances.py:47 | the start-marker scanner matches at `i`, ending at `e`, exactly when `==\d+==(?:ERROR\|WARNING): (\w+)Sanitizer:` matches there and ends at `e` |
| Regex.EndMatchesRegex | sweagent/run/batch_instances.py:48 | the end-marker scanner matches exactly the `==\d+==ABORTING` occurrences |
| Regex.FrameMatchesRegex | sweagent/run/batch_instances.py:50 | the stack-frame scanner matches exactly where `\s+#\d+ 0x[0-9a-f]+` does, and returns the longest (greedy) match |
| Regex.FrameOverlap | sweagent/run/batch_instances.py:50 | two overlapping stack-frame matches end at the same place |
| Regex.LastFrameIsFurthest | sweagent/run/batch_instances.py:80-83 | the last frame `finditer` yields ends at least as far right as every frame match |
| ReportTiers.FirstIndicator | sweagent/run/batch_instances.py:98-99 | the chosen indicator is present, and none listed before it is |
| ReportTiers.IndicatorWindow | sweagent/run/batch_instances.py:96-104 | a window exists exactly when some indicator occurs; it lies within the text and spans at most 2000 characters |
| ReportTiers.IndicatorWindowShape | sweagent/run/batch_instances.py:100-104 | the window is `[max(0, idx-1000), min(len, idx+1000)]` around the first occurrence of the first present indicator, and holds that occurrence |
| ReportTiers.BoundedSpan | sweagent/run/batch_instances.py:63-74 | the bounded tier applies exactly when the leftmost end marker ends after the leftmost start marker starts |
| ReportTiers.BoundedSpanIs | sweagent/run/batch_instances.py:66-74 | the bounded tier spans from the start marker's start to the end marker's end |
| ReportTiers.SliceOf | sweagent/run/batch_instances.py:74 | the report is the contiguous piece the span selects |
| SecbReport.CutAfterNewline | sweagent/run/batch_instances.py:89-92 | the cut lands just past the first newline after the frame, or at the frame's end when no newline follows |
| SecbReport.UnterminatedEnd | sweagent/run/batch_instances.py:80-93 | the unterminated tier's end lies after the start marker and within the text |
| SecbReport.UnterminatedEndSome | sweagent/run/batch_instances.py:80-81 | the unterminated tier has an end exactly when a stack frame follows the start marker |
| SecbReport.ExtractSanitizerReport | sweagent/run/batch_instances.py:53-106 | a report is non-empty and no longer than the output |
| SecbReport.ExtractSanitizerReportShape | sweagent/run/batch_instances.py:53-106 | a report is a contiguous piece of the output; there is none exactly when no tier applies |
| SecbReport.BoundedTier | sweagent/run/batch_instances.py:63-74 | tier 1: the report is exactly `output[start.start:end.end]` |
| SecbReport.UnterminatedTier | sweagent/run/batch_instances.py:76-93 | tier 2: without an end marker, the report runs from the start marker through the first newline after the furthest frame |
| SecbReport.UnterminatedTierAtEnd | sweagent/run/batch_instances.py:76-93 | tier 2 with no newline after the furthest frame: the report ends with that frame |
| SecbReport.WindowTier | sweagent/run/batch_instances.py:95-104 | tier 3: the window of at most 2000 characters around the first present pattern, which lies inside it |
| SecbReport.MisorderedMarkersUseWindow | sweagent/run/batch_instances.py:66-77 | an end marker before the start marker does not lead to tier 2: the window decides |
| EvalReport.ExtractEvalReport | run_eval.py:65-99 | a report is non-empty and no longer than the logs |
| EvalReport.ExtractEvalReportShape | run_eval.py:65-99 | a report is a contiguous piece of the logs; there is none exactly when neither tier applies |
| EvalReport.EvalBoundedTier | run_eval.py:75-86 | tier 1 with the ERROR-only start marker: exactly `logs[start.start:end.end]` |
| EvalReport.EvalWindowTier | run_eval.py:89-97 | tier 2: the window of at most 2000 characters around the first listed sanitizer name present, which lies inside it |
| EvalReport.NoUnterminatedTier | run_eval.py:78-99 | without an end marker the window decides, whatever stack frames follow |
| EvalReport.ErrorStartIsStart | run_eval.py:21 | an ERROR start marker is also a start marker of the three-tier extractor, ending at the same place |
| EvalReport.WarningIsNotStart | run_eval.py:21 | the WARNING form is not a start marker here |
| EvalReport.IndicatorsFit | run_eval.py:25-31 | every indicator is non-empty and fits in the window radius |
| SecbReport.PatternsFit | sweagent/run/batch_instances.py:37-44 | every error pattern is non-empty and fits in the window radius |
| EvalRecords.NoPatchRecord | run_eval.py:144-162 | the missing-patch record: empty patch and logs, exit code -1, neither flag set, no report |
| EvalRecords.ContainerErrorRecord | run_eval.py:239-270 | a failed pull or create: the error text as logs, exit code -1, neither flag set, no report |
| EvalRecords.RunRecord | run_eval.py:277-304 | a finished run's record keeps the instance, patch, exit code, logs and expected code; its flags are read off the logs and exit code, and its sanitizer report is the two-tier extractor's result on the logs |
| EvalRecords.RunRecordFlags | run_eval.py:280-290 | `step3_executed` holds exactly when the banner occurs; `is_timeout` exactly when the code is 124 or 137 or a timed-out PoC exit line occurs; the report is the extractor's on the logs, absent exactly when neither tier applies to them |
| EvalRecords.EvalImageName | run_eval.py:169 | the image name starts with the SEC-bench prefix and a dot, then holds the instance id |
| EvalRecords.EvalImageNameInjective | run_eval.py:169 | different instances run in different images |
| EvalRecords.ReplaceCrlf | run_eval.py:164-166 | the CRLF replacement never lengthens the patch and keeps non-empty patches non-empty |
| EvalRecords.ReplaceCrlfNoCr | run_eval.py:166 | a patch without carriage returns is left unchanged |
| EvalRecords.ReplaceCrlfLeavesCrlf | run_eval.py:166 | one pass can leave a CRLF: "\r\r\n" becomes "\r\n" |
| EvalRecords.EvaluateInstance | run_eval.py:143-304 | a missing or empty patch gives the missing-patch record; otherwise the record carries the CRLF-normalised patch |
| EvalRecords.EvaluateInstanceShape | run_eval.py:143-304 | the recorded patch is empty exactly when none was submitted; only a finished container can have reached the PoC; container errors carry -1 and no timeout |
| EvalRecords.EntryError | run_eval.py:128-134 | an entry is usable exactly when its instance id is non-empty and in the dataset |
| EvalRecords.RunEvaluation | run_eval.py:102-306 | an empty patch file is an error; otherwise one record per entry, in order, unless an entry fails, in which case the error is that of the first failing entry |
| Classify.FirstFailStep | run_eval.py:355-358 | the found line starts with "FAIL_STEP:" and no earlier one does; when none is found, no line does |
| Classify.Interpret | run_eval.py:322-358 | a success always has a patch, reached the PoC and did not time out |
| Classify.InterpretSuccess | run_eval.py:326-351 | success holds exactly when the patch is non-empty, the PoC ran, there was no timeout and the mode accepts the exit status (0 always; the expected code under "medium"; any code without a report under "generous") |
| Classify.StrictSuccess | run_eval.py:326-332 | under "strict", success is exactly patch, exit code 0, PoC reached, no timeout |
| Classify.StrictIsStrictest | run_eval.py:329-332 | whatever "strict" accepts every mode accepts, with the same reason |
| Classify.UnknownModeIsStrict | run_eval.py:338-351 | any mode other than "medium" and "generous" behaves as "strict" |
| Classify.MediumRelaxation | run_eval.py:338-347 | beyond "strict", "medium" accepts exactly the runs that reached the PoC without timing out and exited with the expected code |
| Classify.GenerousRelaxation | run_eval.py:348-351 | beyond "strict", "generous" accepts exactly the runs that reached the PoC without timing out and left no report |
| Classify.NoPatchFails | run_eval.py:326-328 | without a patch every mode fails with the missing-patch message |
| Classify.NoPatchRecordFails | run_eval.py:144-162 | the missing-patch record fails in every mode with that message |
| Classify.TimeoutFails | run_eval.py:333-337 | a timed-out run never succeeds; with a patch, the reason names the timeout and the exit code |
| Classify.NotReachedFails | run_eval.py:326-358 | a run that never reached the PoC fails in every mode, as a timeout or with the reason from its logs |
| Classify.FailureReasonShape | run_eval.py:352-358 | a failed, untimed-out run's reason is the first "FAIL_STEP:" line, stripped, or else "Patch evaluation failed: exit code N." |
| Classify.ExpectedNonZeroExit | run_eval.py:338-351 | exit 7, expected 7, no report: fails "strict", succeeds under "medium" and "generous" with their reasons |
| Classify.GenerousIgnoresExitCode | run_eval.py:348-351 | a non-zero, unexpected exit without a report fails "medium" and succeeds under "generous" |
| Classify.InterpretResult | run_eval.py:360-369 | the `PatchResult` copies the instance, patch, exit code and logs, with the verdict's success and reason |
| Classify.InterpretResults | run_eval.py:309-371 | one result per record, in order, identifying fields copied, success exactly by the mode's criterion |
| Script.RunScript | run_eval.py:183-215 | the script's exit status is the first non-zero status of apply, build and PoC, or 0 when all pass |
| Script.StoppedEarly | run_eval.py:187-199 | a run that stops at a failed step never reaches the PoC and fails in every mode, with that step's "FAIL_STEP:" line unless the status is a timeout code |
| Script.ApplyFailure | run_eval.py:184-189 | a failed `git apply` ends with its status, never reaches the PoC, and fails with "FAIL_STEP: Git apply; exit code=N" (as a timeout for 124 or 137) |
| Script.CompileFailure | run_eval.py:194-199 | a failed build after a clean apply ends with its status and fails with "FAIL_STEP: Compile; exit code=N" (as a timeout for 124 or 137) |
| Script.PocExitLineTimeouts | run_eval.py:207 | the PoC's status line holds a timeout line exactly when the status is that code |
| Script.PocFailLineNoTimeout | run_eval.py:209 | the PoC's failure line never reads as a timeout line |
| Script.PocPassLineNoTimeout | run_eval.py:212 | the PoC's success line never reads as a timeout line |
| Script.ReachedLogs | run_eval.py:204-214 | once apply and build pass, the logs hold the PoC banner, and a timeout line exactly for status 124 or 137 |
| Script.ReachedFlags | run_eval.py:283-290 | once apply and build pass, the record has reached the PoC and is timed out exactly for status 124 or 137 |
| Script.PocPass | run_eval.py:204-213 | when all three steps pass, the run exits 0 and every mode accepts it as a plain success |
| Script.PocFailure | run_eval.py:204-210 | when only the PoC fails, a timeout code fails; otherwise "medium" accepts the expected code, "generous" accepts a run without a report, and else the reason is "FAIL_STEP: Run PoC; exit code=N" |
| Script.FailureReasonIsLast | run_eval.py:355-358 | when only the last line of the logs starts with "FAIL_STEP:", the failure reason is that line |
| BatchConfig.ParsePart | sweagent/run/batch_instances.py:132 | an empty part is `None`; any other part is `int(p)` or an error |
| BatchConfig.ParseParts | sweagent/run/batch_instances.py:132 | every part converted in order, or the error of the first part `int()` rejects |
| BatchConfig.SliceSpecToSlice | sweagent/run/batch_instances.py:128-144 | `""` selects everything; otherwise, when every part converts, one part is `stop`, two are `start:stop`, three are `start:stop:step` and more are an error naming the specification; a part `int()` rejects is an error exactly when one exists |
| BatchConfig.SliceRoundTrip | sweagent/run/batch_instances.py:128-138 | every slice written as `start:stop:step` parses back to itself |
| BatchConfig.StopOnly | sweagent/run/batch_instances.py:133-134 | a specification without a colon is the stop bound alone |
| BatchConfig.BadPartWins | sweagent/run/batch_instances.py:131-132 | a part `int()` rejects is reported even when there are too many parts |
| BatchConfig.TooManyPartsFail | sweagent/run/batch_instances.py:139-144 | four or more convertible parts are rejected |
| BatchConfig.NormalizeWorkDir | sweagent/run/batch_instances.py:171-181 | the result is the input, or "/src/" and the path's non-empty third component; the input comes back unchanged when it does not start with "/src", has fewer than three components, or has an empty third one |
| BatchConfig.ProjectDirIsNormal | sweagent/run/batch_instances.py:177-180 | a project directory directly under "/src" is already normal |
| BatchConfig.NormalizeIdempotent | sweagent/run/batch_instances.py:171-181 | normalising twice is normalising once |
| BatchConfig.NormalizeKeepsProject | sweagent/run/batch_instances.py:177-180 | a path below a project under "/src" is cut back to that project |
| BatchConfig.NormalizeSiblingOfSrc | sweagent/run/batch_instances.py:177 | "/srcX/sub", with anything below "sub", is rewritten to "/src/sub": the test is on the text "/src", not the directory |
| BatchConfig.ProblemStatement | sweagent/run/batch_instances.py:281 | the description sits right after the fixed head, and the closing tag right after it |
| BatchConfig.ProblemStatementOpens | sweagent/run/batch_instances.py:281 | the statement opens by naming the uploaded directory |
| BatchConfig.ProblemStatementInjective | sweagent/run/batch_instances.py:281 | different descriptions give different statements |
| BatchConfig.SecbImage | sweagent/run/batch_instances.py:274 | the image starts with the SEC-bench prefix and holds the instance id after the dot |
| BatchConfig.FromSecBench | sweagent/run/batch_instances.py:268-289 | succeeds exactly for "secb_patch" and "secb_poc"; keeps the id and base commit; the repository is the normalised work directory |
| BatchConfig.FromSecBenchKinds | sweagent/run/batch_instances.py:273-278 | "secb_patch" shows the bug report in the `patch` image; "secb_poc" shows the sanitizer report in the `poc` image |
| BatchConfig.AgentAndEvalImagesShareName | sweagent/run/batch_instances.py:274 | the agent's image and the evaluation image differ only in the tag |
| BatchConfig.RepoFor | sweagent/run/batch_instances.py:215-226 | no repository exactly for an empty name; otherwise the base commit is kept |
| BatchConfig.RepoKinds | sweagent/run/batch_instances.py:215-226 | GitHub exactly when the name mentions "github"; else pre-existing exactly under "/src/" or without a slash; else local; the URL, name or path is the name's text |
| BatchConfig.ToFullBatchInstance | sweagent/run/batch_instances.py:208-248 | fails exactly for a local deployment with an image, with the source's message; otherwise keeps the repository decision and the statement |
| BatchConfig.DeploymentMerge | sweagent/run/batch_instances.py:227-244 | local and dummy deployments are unchanged; a container deployment gets the image, and by its prefix either no standalone Python plus the seccomp override, or "/root" and no extra arguments |
| BatchConfig.SecbPatchOnDocker | sweagent/run/batch_instances.py:268-289 | a SEC-bench instance on a container deployment runs in its `patch` image with the seccomp override, and its project under "/src" becomes a pre-existing repository |

## Left out

- Docker: pulling images, creating, starting and removing containers, and reading their logs. A container run is a `ContainerOutcome` parameter: its status code and decoded logs, or the error text of a failed pull or create.
- Files and datasets: the temporary patch file, JSON loading, `save_results`, `main`, argument parsing and `load_dataset`. The patch file is a sequence of entries in the file's order.
- `run_evaluation`: a dataset entry without `work_dir` raises `KeyError`; the model's dataset items always have one. The work directory only sets the container's working directory, which the model does not use.
- `_filter_batch_items`: the seeded shuffle and the user-supplied `re.match` filter are not modelled. Only the slice specification it applies is.
- `from_swe_bench` and the `__` to `_1776_` name mangling are outside the modelled core.
- Pydantic objects (`EnvironmentConfig`, `TextProblemStatement`, `extra_fields`, `model_copy`) are reduced to the fields the decisions write. Container deployments other than Docker behave as `DockerDeployment` does.
- Logging calls and their messages.
- Regular-expression classes `\d` and `\w` are narrowed to ASCII digits, letters and `_`. Python's `re` on `str` also accepts other Unicode digits and letters. `\s` and `strip()` use Python's full whitespace set.
- `int()`: only ASCII digits are accepted (Python also accepts other Unicode decimal digits), and the integer is unbounded.
- Script: each command's output is a parameter. The end-to-end lemmas assume it is `Quiet`, meaning:
  - it consists of whole lines;
  - no line starts with "FAIL_STEP:";
  - it holds neither the PoC banner nor a timeout line.
  Output that breaks these assumptions can change the flags and the reason, which is exactly what `RunRecordFlags` and `FailureReasonShape` describe for arbitrary logs.
- Script: `timeout 10` itself is not modelled. A PoC that runs too long is a PoC stage whose status is 124.
- Script: exit statuses are taken in 0..255.
- Script: the output of `secb patch`, `secb build` and `secb repro` is taken as it is printed, without interleaving with the echo lines.
- EvalReport.ExtractEvalReport: its own contract gives only the length bound. The result tier by tier is stated by `EvalBoundedTier`, `EvalWindowTier`, `NoUnterminatedTier` and `ExtractEvalReportShape`.
- SecbReport.ExtractSanitizerReport: its own contract gives only the length bound. The result tier by tier is stated by `BoundedTier`, `UnterminatedTier`, `UnterminatedTierAtEnd`, `WindowTier` and `ExtractSanitizerReportShape`.
- Classify.Interpret: its own contract states only the direction "success implies patch, PoC reached, no timeout". The converse and the mode criteria are in `InterpretSuccess`.
- Numbers.ParseInt: its own contract states only that an accepted part holds a digit. What it accepts is stated by `ParseUnsigned`, `ParseNegative` and `IntToStringRoundTrip`.
- BatchConfig.RepoKinds: the local repository's path is the name's raw text. The source wraps it in `Path`, which also drops a trailing "/", repeated "/" and "." components; path normalisation is not modelled.
