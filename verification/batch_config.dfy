/** The instance-configuration helpers of the batch runner: the `--slice`
    option, the work-directory normalisation, the SEC-bench instance
    builder and the repository/deployment decision that turns a simple
    instance into a full one. */
module BatchConfig {
  import opened Wrappers
  import opened Strings
  import opened Numbers
  import opened Scan
  import opened EvalRecords

  // ---------------------------------------------------------------------
  // Slice specifications
  // ---------------------------------------------------------------------

  /** A Python `slice`: each bound absent (`None`) or an integer. */
  datatype Slice = Slice(start: Option<int>, stop: Option<int>, step: Option<int>)

  /** The `ValueError`s `_slice_spec_to_slice` raises. */
  datatype SliceError =
    | BadInteger(part: string)      // `int(p)` rejected a part
    | TooManyParts(spec: string)    // more than three colon-separated parts

  /** One part of a specification: the empty part is `None`, any other part
      goes through `int()`. The outer `None` is the `ValueError`. */
  function ParsePart(p: string): (r: Option<Option<int>>)
    ensures p == [] ==> r == Some(None)
    ensures p != [] ==> (r.Some? <==> ParseInt(p).Some?)
    ensures p != [] && r.Some? ==> r.value == ParseInt(p)
  {
    if p == [] then Some(None)
    else match ParseInt(p)
      case None => None
      case Some(v) => Some(Some(v))
  }

  /** The list comprehension over the parts: every part converted, in
      order, or the error of the first part `int()` rejects. */
  function ParseParts(parts: seq<string>): (r: Result<seq<Option<int>>, SliceError>)
    ensures r.Ok? ==> |r.value| == |parts|
    ensures r.Ok? ==> forall k :: 0 <= k < |parts| ==> ParsePart(parts[k]) == Some(r.value[k])
    ensures r.Err? <==> exists k :: 0 <= k < |parts| && ParsePart(parts[k]).None?
    ensures r.Err? ==> exists k :: 0 <= k < |parts| && ParsePart(parts[k]).None?
                          && r.error == BadInteger(parts[k])
                          && forall k' :: 0 <= k' < k ==> ParsePart(parts[k']).Some?
  {
    if parts == [] then Ok([])
    else match ParsePart(parts[0])
      case None => Err(BadInteger(parts[0]))
      case Some(v) =>
        match ParseParts(parts[1..])
        case Err(e) => Err(e)
        case Ok(vs) => Ok([v] + vs)
  }

  /** `_slice_spec_to_slice`: `""` selects everything; otherwise one, two or
      three colon-separated parts are `stop`, `start:stop` or
      `start:stop:step`. Every part is converted before the count is
      checked. */
  function SliceSpecToSlice(spec: string): (r: Result<Slice, SliceError>)
    ensures spec == [] ==> r == Ok(Slice(None, None, None))
    ensures r.Err? && r.error.TooManyParts? ==> r.error.spec == spec && |Split(spec, ':')| > 3
    ensures spec != [] && r.Ok? ==> |Split(spec, ':')| <= 3
    ensures spec != [] ==> (r.Err? && r.error.BadInteger? <==>
              exists k :: 0 <= k < |Split(spec, ':')| && ParsePart(Split(spec, ':')[k]).None?)
    ensures spec != [] && (forall k :: 0 <= k < |Split(spec, ':')| ==> ParsePart(Split(spec, ':')[k]).Some?) ==>
              var parts := Split(spec, ':');
              && (|parts| == 1 ==> r == Ok(Slice(None, ParsePart(parts[0]).value, None)))
              && (|parts| == 2 ==> r == Ok(Slice(ParsePart(parts[0]).value, ParsePart(parts[1]).value, None)))
              && (|parts| == 3 ==> r == Ok(Slice(ParsePart(parts[0]).value, ParsePart(parts[1]).value,
                                                 ParsePart(parts[2]).value)))
              && (|parts| > 3 ==> r == Err(TooManyParts(spec)))
  {
    if spec == [] then Ok(Slice(None, None, None))
    else
      var parts := Split(spec, ':');
      match ParseParts(parts)
      case Err(e) => Err(e)
      case Ok(v) =>
        if |parts| == 1 then Ok(Slice(None, v[0], None))
        else if |parts| == 2 then Ok(Slice(v[0], v[1], None))
        else if |parts| == 3 then Ok(Slice(v[0], v[1], v[2]))
        else Err(TooManyParts(spec))
  }

  /** A bound as the option text writes it: nothing for `None`. */
  function BoundText(b: Option<int>): string {
    match b
    case None => ""
    case Some(n) => IntToString(n)
  }

  /** The three-part specification `start:stop:step` of a slice. */
  function RenderSlice(sl: Slice): string {
    Join([BoundText(sl.start), BoundText(sl.stop), BoundText(sl.step)], ':')
  }

  /** The rendering of an integer has no colon. */
  lemma NoColonInInt(n: int)
    ensures ':' !in IntToString(n)
  {
  }

  /** Reading a bound's text back gives the bound. */
  lemma BoundTextParses(b: Option<int>)
    ensures ParsePart(BoundText(b)) == Some(b)
  {
    if b.Some? {
      IntToStringRoundTrip(b.value);
    }
  }

  /** Every slice survives being written as `start:stop:step` and parsed
      again. */
  lemma SliceRoundTrip(sl: Slice)
    ensures SliceSpecToSlice(RenderSlice(sl)) == Ok(sl)
  {
    var parts := [BoundText(sl.start), BoundText(sl.stop), BoundText(sl.step)];
    forall k | 0 <= k < 3 ensures ':' !in parts[k] {
      var b := if k == 0 then sl.start else if k == 1 then sl.stop else sl.step;
      assert parts[k] == BoundText(b);
      if b.Some? {
        NoColonInInt(b.value);
      }
    }
    SplitJoin(parts, ':');
    BoundTextParses(sl.start);
    BoundTextParses(sl.stop);
    BoundTextParses(sl.step);
    var spec := RenderSlice(sl);
    assert |spec| >= 2 by {
      assert spec == parts[0] + [':'] + Join(parts[1..], ':');
      assert Join(parts[1..], ':') == parts[1] + [':'] + Join(parts[2..], ':');
    }
    var v := ParseParts(parts);
    assert v.Ok? && v.value == [sl.start, sl.stop, sl.step];
  }

  /** A specification without a colon is the stop bound alone. */
  lemma StopOnly(spec: string, n: int)
    requires spec != [] && ':' !in spec && ParseInt(spec) == Some(n)
    ensures SliceSpecToSlice(spec) == Ok(Slice(None, Some(n), None))
  {
    SplitJoin([spec], ':');
    assert Join([spec], ':') == spec;
  }

  /** A part `int()` rejects is reported even when there are too many
      parts, because the parts are converted first. */
  lemma BadPartWins(spec: string, k: nat)
    requires k < |Split(spec, ':')| && Split(spec, ':')[k] != [] && ParseInt(Split(spec, ':')[k]).None?
    ensures SliceSpecToSlice(spec).Err? && SliceSpecToSlice(spec).error.BadInteger?
  {
    assert ParsePart(Split(spec, ':')[k]).None?;
  }

  /** Four or more parts whose conversions all succeed are rejected as a
      whole specification. */
  lemma TooManyPartsFail(spec: string)
    requires |Split(spec, ':')| > 3
    requires forall k :: 0 <= k < |Split(spec, ':')| ==> ParsePart(Split(spec, ':')[k]).Some?
    ensures SliceSpecToSlice(spec) == Err(TooManyParts(spec))
  {
  }

  // ---------------------------------------------------------------------
  // Work directories
  // ---------------------------------------------------------------------

  /** `_normalize_work_dir`: a path that starts with "/src" and has a
      non-empty third `/`-component is cut down to "/src/" and that
      component; anything else is returned unchanged. */
  function NormalizeWorkDir(workDir: string): (r: string)
    ensures r == workDir || exists name :: name != [] && '/' !in name && r == "/src/" + name
    ensures !StartsWith(workDir, "/src") ==> r == workDir
    ensures |Split(workDir, '/')| <= 2 || Split(workDir, '/')[2] == [] ==> r == workDir
    ensures r != workDir ==> r == "/src/" + Split(workDir, '/')[2]
  {
    if StartsWith(workDir, "/src") then
      var parts := Split(workDir, '/');
      if |parts| > 2 && parts[2] != [] then "/src/" + parts[2] else workDir
    else workDir
  }

  /** "/src/" followed by one path component is split back into the empty
      root component, "src" and that component. */
  lemma SplitProjectDir(name: string)
    requires '/' !in name
    ensures Split("/src/" + name, '/') == ["", "src", name]
  {
    var parts := ["", "src", name];
    assert Join(parts, '/') == "/src/" + name by {
      assert Join(parts[2..], '/') == name;
      assert Join(parts[1..], '/') == "src" + ['/'] + name;
    }
    assert forall k :: 0 <= k < 3 ==> '/' !in parts[k];
    SplitJoin(parts, '/');
  }

  /** A project directory directly under "/src" is already normal. */
  lemma ProjectDirIsNormal(name: string)
    requires name != [] && '/' !in name
    ensures NormalizeWorkDir("/src/" + name) == "/src/" + name
  {
    SplitProjectDir(name);
    assert PrefixAt("/src", "/src/" + name, 0);
  }

  /** Normalising twice is normalising once. */
  lemma NormalizeIdempotent(workDir: string)
    ensures NormalizeWorkDir(NormalizeWorkDir(workDir)) == NormalizeWorkDir(workDir)
  {
    var r := NormalizeWorkDir(workDir);
    if r != workDir {
      var name :| name != [] && '/' !in name && r == "/src/" + name;
      ProjectDirIsNormal(name);
    }
  }

  /** A path below a project directory under "/src" is cut back to that
      project directory. */
  lemma NormalizeKeepsProject(name: string, rest: string)
    requires name != [] && '/' !in name
    ensures NormalizeWorkDir("/src/" + name + "/" + rest) == "/src/" + name
  {
    var w := "/src/" + name + "/" + rest;
    var parts := Split(w, '/');
    var tail := Split(rest, '/');
    assert Join(["", "src", name] + tail, '/') == w by {
      JoinAppend(["", "src", name], tail);
      SplitProjectDir(name);
    }
    assert forall k :: 0 <= k < |["", "src", name] + tail| ==> '/' !in (["", "src", name] + tail)[k];
    SplitJoin(["", "src", name] + tail, '/');
    assert PrefixAt("/src", w, 0);
  }

  /** Joining two lists of parts is joining each and putting a separator
      between them. */
  lemma {:induction false} JoinAppend(xs: seq<string>, ys: seq<string>)
    requires |xs| >= 1 && |ys| >= 1
    ensures Join(xs + ys, '/') == Join(xs, '/') + "/" + Join(ys, '/')
    decreases |xs|
  {
    if |xs| == 1 {
      assert (xs + ys)[1..] == ys;
    } else {
      assert (xs + ys)[1..] == xs[1..] + ys;
      JoinAppend(xs[1..], ys);
    }
  }

  /** The test is on the text "/src", not the directory "/src/": a sibling
      directory whose name merely starts with "src" is rewritten into a
      different path under "/src", named after its first subdirectory,
      whatever lies below that subdirectory. */
  lemma {:induction false} NormalizeSiblingOfSrc(suffix: string, sub: string, tail: string)
    requires suffix != [] && '/' !in suffix && sub != [] && '/' !in sub
    requires tail == [] || tail[0] == '/'
    ensures NormalizeWorkDir("/src" + suffix + "/" + sub + tail) == "/src/" + sub
  {
    var head := ["", "src" + suffix, sub];
    assert '/' !in "src" + suffix by {
      assert forall k :: 3 <= k < |"src" + suffix| ==> ("src" + suffix)[k] == suffix[k - 3];
    }
    assert Join(head, '/') == "/src" + suffix + "/" + sub by {
      assert Join(head[2..], '/') == sub;
      assert Join(head[1..], '/') == "src" + suffix + ['/'] + sub;
    }
    SplitAfterJoin(head, tail);
    var w := "/src" + suffix + "/" + sub + tail;
    assert Split(w, '/')[2] == sub;
    assert PrefixAt("/src", w, 0);
  }

  /** Text appended after a join of separator-free parts, when it starts
      with the separator (or is empty), only adds parts after them. */
  lemma {:induction false} SplitAfterJoin(head: seq<string>, tail: string)
    requires |head| >= 1 && forall k :: 0 <= k < |head| ==> '/' !in head[k]
    requires tail == [] || tail[0] == '/'
    ensures |Split(Join(head, '/') + tail, '/')| >= |head|
    ensures Split(Join(head, '/') + tail, '/')[..|head|] == head
  {
    if tail == [] {
      assert Join(head, '/') + tail == Join(head, '/');
      SplitJoin(head, '/');
    } else {
      var more := Split(tail[1..], '/');
      var parts := head + more;
      assert Join(parts, '/') == Join(head, '/') + tail by {
        JoinAppend(head, more);
        assert tail == "/" + tail[1..];
      }
      assert forall k :: 0 <= k < |parts| ==> '/' !in parts[k] by {
        forall k | 0 <= k < |parts| ensures '/' !in parts[k] {
          if k >= |head| {
            assert parts[k] == more[k - |head|];
          }
        }
      }
      SplitJoin(parts, '/');
      assert parts[..|head|] == head;
    }
  }

  // ---------------------------------------------------------------------
  // SEC-bench instances
  // ---------------------------------------------------------------------

  /** The dataset fields `from_sec_bench` reads. */
  datatype SecbInstance = SecbInstance(
    instanceId: string,
    workDir: string,
    bugReport: string,
    sanitizerReport: string,
    baseCommit: string)

  /** `SimpleBatchInstance`: one instance before the deployment is merged
      in. */
  datatype SimpleBatchInstance = SimpleBatchInstance(
    imageName: string,
    problemStatement: string,
    id: string,
    repoName: string,
    baseCommit: string)

  const SecbPatchKind: string := "secb_patch"
  const SecbPocKind: string := "secb_poc"

  /** A kind other than the two listed leaves the image name unbound, so
      the builder fails (Python's `UnboundLocalError`). */
  datatype SecbError = UnknownKind(kind: string)

  /** The fixed text of the problem statement. */
  const UploadedOpen: string := "<uploaded_files>\n"
  const UploadedClose: string := "\n</uploaded_files>\n"
  const DirectoryIntro: string := "I've uploaded a code repository in the directory `"
  const IssueOpen: string := "`. Consider the following issue description:\n\n<issue_description>\n"
  const StatementTail: string := "\n</issue_description>\n\n"

  /** The opening block naming the uploaded directory. */
  function UploadedFiles(workDir: string): string {
    UploadedOpen + workDir + UploadedClose
  }

  /** The text before the issue description. */
  function StatementHead(workDir: string): string {
    UploadedFiles(workDir) + (DirectoryIntro + workDir + IssueOpen)
  }

  /** The problem statement given to the agent: the work directory, twice,
      and the issue description between its tags. */
  function ProblemStatement(workDir: string, description: string): (r: string)
    ensures PrefixAt(description, r, |StatementHead(workDir)|)
    ensures |r| == |StatementHead(workDir)| + |description| + |StatementTail|
    ensures PrefixAt(StatementTail, r, |StatementHead(workDir)| + |description|)
  {
    ConcatParts(StatementHead(workDir), description, StatementTail);
    StatementHead(workDir) + description + StatementTail
  }

  /** A prefix of a text is a prefix of anything that extends it. */
  lemma StartsWithExtend(x: string, y: string, u: string)
    requires StartsWith(x, u)
    ensures StartsWith(x + y, u)
  {
    assert (x + y)[..|u|] == x[..|u|];
  }

  /** The statement opens by naming the uploaded directory. */
  lemma ProblemStatementOpens(workDir: string, description: string)
    ensures StartsWith(ProblemStatement(workDir, description), UploadedFiles(workDir))
  {
    var u := UploadedFiles(workDir);
    var h := StatementHead(workDir);
    ConcatParts(u, DirectoryIntro + workDir + IssueOpen, []);
    assert u + (DirectoryIntro + workDir + IssueOpen) + [] == h;
    StartsWithExtend(h, description, u);
    StartsWithExtend(h + description, StatementTail, u);
  }

  /** The description can be read back out of the problem statement, so
      different descriptions give different statements. */
  lemma ProblemStatementInjective(workDir: string, d1: string, d2: string)
    requires ProblemStatement(workDir, d1) == ProblemStatement(workDir, d2)
    ensures d1 == d2
  {
    var n := |StatementHead(workDir)|;
    assert ProblemStatement(workDir, d1)[n..n + |d1|] == d1;
  }

  /** The image of an instance: the SEC-bench prefix, the instance id and
      the tag. */
  function SecbImage(instanceId: string, tag: string): (r: string)
    ensures StartsWith(r, SecbImagePrefix)
    ensures PrefixAt(instanceId, r, |SecbImagePrefix| + 1)
    ensures |r| == |SecbImagePrefix| + |instanceId| + |tag| + 2
  {
    var r := SecbImagePrefix + "." + instanceId + ":" + tag;
    assert r[..|SecbImagePrefix|] == SecbImagePrefix;
    r
  }

  /** `SimpleBatchInstance.from_sec_bench`: the "secb_patch" kind shows the
      bug report and uses the `patch` image, "secb_poc" shows the sanitizer
      report and uses the `poc` image; both use the normalised work
      directory as the repository. */
  function FromSecBench(inst: SecbInstance, kind: string): (r: Result<SimpleBatchInstance, SecbError>)
    ensures r.Ok? <==> kind == SecbPatchKind || kind == SecbPocKind
    ensures r.Ok? ==> && r.value.id == inst.instanceId
                      && r.value.repoName == NormalizeWorkDir(inst.workDir)
                      && r.value.baseCommit == inst.baseCommit
                      && StartsWith(r.value.imageName, SecbImagePrefix)
  {
    var workDir := NormalizeWorkDir(inst.workDir);
    if kind == SecbPatchKind then
      Ok(SimpleBatchInstance(SecbImage(inst.instanceId, "patch"), ProblemStatement(workDir, inst.bugReport),
                             inst.instanceId, workDir, inst.baseCommit))
    else if kind == SecbPocKind then
      Ok(SimpleBatchInstance(SecbImage(inst.instanceId, "poc"), ProblemStatement(workDir, inst.sanitizerReport),
                             inst.instanceId, workDir, inst.baseCommit))
    else Err(UnknownKind(kind))
  }

  /** Which report the agent is shown and which image it works in, for
      each kind. */
  lemma FromSecBenchKinds(inst: SecbInstance)
    ensures var r := FromSecBench(inst, SecbPatchKind);
            && r.Ok?
            && r.value.imageName == SecbImagePrefix + "." + inst.instanceId + ":patch"
            && PrefixAt(inst.bugReport, r.value.problemStatement, |StatementHead(NormalizeWorkDir(inst.workDir))|)
    ensures var r := FromSecBench(inst, SecbPocKind);
            && r.Ok?
            && r.value.imageName == SecbImagePrefix + "." + inst.instanceId + ":poc"
            && PrefixAt(inst.sanitizerReport, r.value.problemStatement, |StatementHead(NormalizeWorkDir(inst.workDir))|)
  {
    assert SecbPatchKind != SecbPocKind;
  }

  /** The agent's image and the evaluation image of an instance differ
      only in the tag after the instance id. */
  lemma AgentAndEvalImagesShareName(instanceId: string)
    ensures SecbImage(instanceId, "patch") == SecbImagePrefix + "." + instanceId + ":patch"
    ensures EvalImageName(instanceId) == SecbImage(instanceId, SecbImageTag)
    ensures SecbImage(instanceId, "patch") != EvalImageName(instanceId)
  {
    var n := |SecbImagePrefix| + |instanceId| + 2;
    assert |SecbImage(instanceId, "patch")| == n + 5;
    assert |EvalImageName(instanceId)| == n + 6;
  }

  // ---------------------------------------------------------------------
  // Full batch instances
  // ---------------------------------------------------------------------

  /** The repository configurations. */
  datatype RepoConfig =
    | NoRepo
    | GithubRepo(githubUrl: string, baseCommit: string)
    | PreExistingRepo(repoName: string, baseCommit: string)
    | LocalRepo(path: string, baseCommit: string)

  /** The repository rung of `to_full_batch_instance`: the first rule that
      applies wins. */
  function RepoFor(repoName: string, baseCommit: string): (r: RepoConfig)
    ensures r.NoRepo? <==> repoName == []
    ensures !r.NoRepo? ==> r.baseCommit == baseCommit
  {
    if repoName == [] then NoRepo
    else if Contains(repoName, "github") then GithubRepo(repoName, baseCommit)
    else if StartsWith(repoName, "/src/") then PreExistingRepo(repoName, baseCommit)
    else if '/' !in repoName then PreExistingRepo(repoName, baseCommit)
    else LocalRepo(repoName, baseCommit)
  }

  /** Each non-empty name gets exactly the kind its text calls for: GitHub
      when it mentions "github", otherwise pre-existing when it is a path
      under "/src/" or has no slash at all, otherwise a local path. The
      name's text is used as it is, without `Path` normalisation. */
  lemma RepoKinds(repoName: string, baseCommit: string)
    requires repoName != []
    ensures var r := RepoFor(repoName, baseCommit);
            && (r.GithubRepo? <==> exists j: nat :: PrefixAt("github", repoName, j))
            && (r.PreExistingRepo? <==> (!exists j: nat :: PrefixAt("github", repoName, j))
                                        && (StartsWith(repoName, "/src/") || '/' !in repoName))
            && (r.LocalRepo? <==> (!exists j: nat :: PrefixAt("github", repoName, j))
                                  && !StartsWith(repoName, "/src/") && '/' in repoName)
            && (r.GithubRepo? ==> r.githubUrl == repoName)
            && (r.PreExistingRepo? ==> r.repoName == repoName)
            && (r.LocalRepo? ==> r.path == repoName)
  {
  }

  /** The deployments, with the fields the merge writes; `rest` stands for
      every other setting, which is copied. */
  datatype Deployment =
    | LocalDeployment
    | DummyDeployment
    | DockerDeployment(image: string, pythonStandaloneDir: Option<string>, dockerArgs: seq<string>, rest: string)

  const SeccompArgs: seq<string> := ["--security-opt", "seccomp=unconfined"]

  datatype BatchInstance = BatchInstance(
    deployment: Deployment,
    repo: RepoConfig,
    statementText: string,
    statementId: string)

  /** `to_full_batch_instance`: a local deployment refuses an image, local
      and dummy deployments are kept as they are, any other deployment
      takes the instance's image; SEC-bench images bring their own Python
      and need the seccomp override. */
  function ToFullBatchInstance(sbi: SimpleBatchInstance, deployment: Deployment): (r: Result<BatchInstance, string>)
    ensures r.Err? <==> deployment.LocalDeployment? && sbi.imageName != []
    ensures r.Err? ==> r.error == "Local deployment does not support image_name"
    ensures r.Ok? ==> && r.value.repo == RepoFor(sbi.repoName, sbi.baseCommit)
                      && r.value.statementText == sbi.problemStatement
                      && r.value.statementId == sbi.id
  {
    var repo := RepoFor(sbi.repoName, sbi.baseCommit);
    match deployment
    case LocalDeployment =>
      if sbi.imageName != [] then Err("Local deployment does not support image_name")
      else Ok(BatchInstance(deployment, repo, sbi.problemStatement, sbi.id))
    case DummyDeployment =>
      Ok(BatchInstance(deployment, repo, sbi.problemStatement, sbi.id))
    case DockerDeployment(_, _, _, rest) =>
      var secb := StartsWith(sbi.imageName, SecbImagePrefix);
      var docker := DockerDeployment(sbi.imageName, if secb then None else Some("/root"),
                                     if secb then SeccompArgs else [], rest);
      Ok(BatchInstance(docker, repo, sbi.problemStatement, sbi.id))
  }

  /** How the deployment comes out of the merge: unchanged unless it is a
      container deployment, which gets the image and, by the image's
      prefix, either no standalone Python and the seccomp override, or
      "/root" and no extra arguments; its other settings are kept. */
  lemma DeploymentMerge(sbi: SimpleBatchInstance, deployment: Deployment)
    requires ToFullBatchInstance(sbi, deployment).Ok?
    ensures var d := ToFullBatchInstance(sbi, deployment).value.deployment;
            && (!deployment.DockerDeployment? ==> d == deployment)
            && (deployment.DockerDeployment? ==>
                  && d.DockerDeployment? && d.image == sbi.imageName && d.rest == deployment.rest
                  && (StartsWith(sbi.imageName, SecbImagePrefix) ==> d.pythonStandaloneDir.None? && d.dockerArgs == SeccompArgs)
                  && (!StartsWith(sbi.imageName, SecbImagePrefix) ==> d.pythonStandaloneDir == Some("/root") && d.dockerArgs == []))
  {
  }

  /** A SEC-bench instance on a container deployment, end to end: it runs
      in its own `patch` image with the seccomp override and no standalone
      Python, and a work directory under a project in "/src" becomes a
      pre-existing repository named after that project. */
  lemma SecbPatchOnDocker(inst: SecbInstance, image: string, py: Option<string>, args: seq<string>, rest: string,
                          name: string, sub: string)
    requires name != [] && '/' !in name && inst.workDir == "/src/" + name + "/" + sub
    requires !Contains("/src/" + name, "github")
    ensures var sbi := FromSecBench(inst, SecbPatchKind);
            && sbi.Ok?
            && var full := ToFullBatchInstance(sbi.value, DockerDeployment(image, py, args, rest));
            && full.Ok?
            && full.value.deployment == DockerDeployment(SecbImagePrefix + "." + inst.instanceId + ":patch",
                                                         None, SeccompArgs, rest)
            && full.value.repo == PreExistingRepo("/src/" + name, inst.baseCommit)
  {
    NormalizeKeepsProject(name, sub);
    FromSecBenchKinds(inst);
    var sbi := FromSecBench(inst, SecbPatchKind).value;
    assert StartsWith(sbi.imageName, SecbImagePrefix);
    assert StartsWith("/src/" + name, "/src/");
  }
}
