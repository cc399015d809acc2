/** The run orchestrator of `scripts/generate_docs.py`: `_get_or_create_repo_id`
    and `update_docs`. Every call to the service, the disk or git is an event
    in the run's trace, answered by the `World` oracle; the run ends with one
    of three outcomes: nothing changed (the bare `return`, which yields
    `None`), completed with the run's id, or failed with the raised error. */
module Orchestrator {
  import opened Results
  import opened Client
  import opened DiffPartition

  /** The file the explanation is written to. */
  const SummaryFile := "pr-body.txt"

  /** The run's inputs that the command-line driver reads from the
      environment and the arguments: `GITHUB_REPO_NAME`, the action URL, the
      mode and the OpenAPI spec path. */
  datatype Config = Config(
    repoName: Option<string>,
    actionUrl: string,
    mode: OutputMode,
    openapiSpec: Option<string>)

  /** One call the run makes, in the order it makes it. A call whose reply is
      an error is still in the trace. */
  datatype Event =
    | ListRepositories
    | CreateRepository(name: string)
    | CreateRun(repoId: int, actionUrl: string, paths: seq<string>)
    | ReadFile(path: string)
    | Generate(runId: int, request: GenerateRequest)
    | WriteFile(path: string, content: string)
    | AddToIndex(path: string)
    | Diff(args: GitDiffArgs)
    | Explain(runId: int, mode: OutputMode, changes: string)
    | WriteSummary(content: string)
    | MarkFailed(runId: int, message: string)

  /** How `update_docs` ends: returning `None` when git saw no change,
      returning the run id, or raising. */
  datatype Outcome = NoChange | Completed(runId: int) | Failed(error: Error)

  /** A whole run: its trace, the files on disk afterwards, the tokens it
      counted, the registration reply if it got one, and the outcome. */
  datatype RunResult = RunResult(
    trace: seq<Event>,
    files: map<string, string>,
    tokens: int,
    run: Option<RegisteredRun>,
    outcome: Outcome)

  /** `repos[i]` is the first repository named exactly `name`. */
  predicate IsFirstNamed(repos: seq<Repository>, name: string, i: nat)
  {
    i < |repos| && repos[i].name == name && forall j :: 0 <= j < i ==> repos[j].name != name
  }

  /** The index of the first repository named `name`, if there is one. */
  function FirstNamed(repos: seq<Repository>, name: string): (r: Option<nat>)
    ensures r.Some? ==> IsFirstNamed(repos, name, r.value)
    ensures r.None? <==> forall j :: 0 <= j < |repos| ==> repos[j].name != name
  {
    if |repos| == 0 then None
    else if repos[0].name == name then Some(0)
    else
      match FirstNamed(repos[1..], name)
      case None => None
      case Some(i) => Some(i + 1)
  }

  /** The calls made while resolving the repository, and the id or error. */
  datatype Resolution = Resolution(events: seq<Event>, repoId: Result<int, Error>)

  /** `_get_or_create_repo_id`: the id of the first listed repository whose
      name is exactly the configured one, or else of a newly created one. */
  function ResolveRepository(repoName: Option<string>, w: World): (r: Resolution)
    ensures repoName.None? ==> r == Resolution([], Err(AssertionFailed))
    ensures repoName.Some? && w.listRepositories.Err? ==>
              r == Resolution([ListRepositories], Err(w.listRepositories.error))
    ensures repoName.Some? && w.listRepositories.Ok? ==>
              var repos := w.listRepositories.value;
              var name := repoName.value;
              (forall j :: 0 <= j < |repos| ==> repos[j].name != name) ==>
                   r == Resolution([ListRepositories, CreateRepository(name)],
                                   match w.createRepository(name)
                                   case Ok(repo) => Ok(repo.id)
                                   case Err(e) => Err(e))
    ensures repoName.Some? && w.listRepositories.Ok? ==>
              forall i: nat :: IsFirstNamed(w.listRepositories.value, repoName.value, i) ==>
                r == Resolution([ListRepositories], Ok(w.listRepositories.value[i].id))
  {
    match repoName
    case None => Resolution([], Err(AssertionFailed))
    case Some(name) =>
      match w.listRepositories
      case Err(e) => Resolution([ListRepositories], Err(e))
      case Ok(repos) =>
        match FirstNamed(repos, name)
        case Some(i) => Resolution([ListRepositories], Ok(repos[i].id))
        case None =>
          var created :=
            match w.createRepository(name)
            case Ok(repo) => Ok(repo.id)
            case Err(e) => Err(e);
          Resolution([ListRepositories, CreateRepository(name)], created)
  }

  /** The calls made so far in one stretch of the run, the files as they now
      are, the tokens counted, and the error raised, if any. */
  datatype Progress = Progress(
    events: seq<Event>,
    files: map<string, string>,
    tokens: int,
    failure: Option<Error>)

  /** Whether `path` names a file on the disk `files`: `os.path.exists` and
      `open` find no file under the empty path. */
  predicate OnDisk(files: map<string, string>, path: string)
  {
    path != "" && path in files
  }

  /** Where a file's generated content is written: the file itself in inline
      mode, the spec file in OpenAPI mode, where `assert openapi_spec`
      rejects a missing or empty path. */
  function WriteTarget(cfg: Config, path: string): Option<string>
  {
    if cfg.mode.Inline? then Some(path)
    else if cfg.openapiSpec.Some? && cfg.openapiSpec.value != "" then cfg.openapiSpec
    else None
  }

  /** One iteration of the loop over the changed files. */
  function ProcessFile(cfg: Config, w: World, run: RegisteredRun, entry: FileDiff, files: map<string, string>): Progress
  {
    var path := entry.path;
    if path !in run.fileLanguages then Progress([], files, 0, None)
    else if !OnDisk(files, path) then Progress([ReadFile(path)], files, 0, Some(FileNotFound(path)))
    else
      var request := GenerateRequest(
        path, cfg.mode, files[path], run.fileLanguages[path],
        if cfg.mode.Inline? then Some(entry.diff) else None);
      var called := [ReadFile(path), Generate(run.runId, request)];
      match w.generate(run.runId, request)
      case Err(e) => Progress(called, files, 0, Some(e))
      case Ok(doc) =>
        match WriteTarget(cfg, path)
        case None => Progress(called, files, doc.tokensUsed, Some(AssertionFailed))
        case Some(target) =>
          var events := called + [WriteFile(target, doc.documentedContent)];
          if target in w.readOnly then
            Progress(events, files, doc.tokensUsed, Some(PermissionDenied(target)))
          else
            Progress(events, files[target := doc.documentedContent], doc.tokensUsed, None)
  }

  /** The loop over the changed files, in key order, stopping at the first error. */
  function ProcessFiles(cfg: Config, w: World, run: RegisteredRun, entries: seq<FileDiff>, files: map<string, string>): Progress
    decreases |entries|
  {
    if |entries| == 0 then Progress([], files, 0, None)
    else
      var first := ProcessFile(cfg, w, run, entries[0], files);
      if first.failure.Some? then first
      else
        var rest := ProcessFiles(cfg, w, run, entries[1..], first.files);
        Progress(first.events + rest.events, rest.files, first.tokens + rest.tokens, rest.failure)
  }

  /** The git calls made to see what changed, and the diff or error. */
  datatype Detection = Detection(events: seq<Event>, diff: Result<string, Error>)

  /** Change detection: a plain `git diff` in inline mode or when the spec
      file existed before the run; otherwise `git add` of the spec and then
      `git diff --cached` of it. */
  function DetectChanges(cfg: Config, w: World, specExisted: bool): Detection
    requires cfg.mode.OpenApi? ==> cfg.openapiSpec.Some?
  {
    if cfg.mode.Inline? || specExisted then
      var args := GitDiffArgs(false, None);
      Detection([Diff(args)], w.gitDiff(args))
    else
      var spec := cfg.openapiSpec.value;
      match w.gitAdd(spec)
      case Err(e) => Detection([AddToIndex(spec)], Err(e))
      case Ok(_) =>
        var args := GitDiffArgs(true, if spec == "" then None else Some(spec));
        Detection([AddToIndex(spec), Diff(args)], w.gitDiff(args))
  }

  /** How the part of the run inside the `try` block ends. */
  datatype BodyEnd = Unchanged | Summarized | Raised(error: Error)

  datatype Body = Body(events: seq<Event>, files: map<string, string>, tokens: int, end: BodyEnd)

  /** The explanation of a non-empty diff, written to the summary file. */
  function ExplainChanges(cfg: Config, w: World, run: RegisteredRun, diff: string, files: map<string, string>): Body
  {
    var ask := Explain(run.runId, cfg.mode, diff);
    match w.explain(run.runId, cfg.mode, diff)
    case Err(e) => Body([ask], files, 0, Raised(e))
    case Ok(resp) =>
      var written := [ask, WriteSummary(resp.explanation)];
      if SummaryFile in w.readOnly then
        Body(written, files, 0, Raised(PermissionDenied(SummaryFile)))
      else
        Body(written, files[SummaryFile := resp.explanation], resp.tokensUsed, Summarized)
  }

  /** The rest of the `try` block once every file is written: change
      detection and, when git saw a change, its explanation. The events and
      tokens here are only this stretch's. */
  function SummarizeChanges(cfg: Config, w: World, run: RegisteredRun, files: map<string, string>, specExisted: bool): Body
    requires cfg.mode.OpenApi? ==> cfg.openapiSpec.Some?
  {
    var detection := DetectChanges(cfg, w, specExisted);
    match detection.diff
    case Err(e) => Body(detection.events, files, 0, Raised(e))
    case Ok(diff) =>
      if |diff| == 0 then Body(detection.events, files, 0, Unchanged)
      else
        var explained := ExplainChanges(cfg, w, run, diff, files);
        Body(detection.events + explained.events, explained.files, explained.tokens, explained.end)
  }

  /** The `try` block of `update_docs`: the file loop, then the rest. */
  function RunBody(cfg: Config, w: World, run: RegisteredRun, diffs: seq<FileDiff>, specExisted: bool): Body
    requires cfg.mode.OpenApi? ==> cfg.openapiSpec.Some?
  {
    var loop := ProcessFiles(cfg, w, run, diffs, w.files);
    if loop.failure.Some? then Body(loop.events, loop.files, loop.tokens, Raised(loop.failure.value))
    else
      var rest := SummarizeChanges(cfg, w, run, loop.files, specExisted);
      Body(loop.events + rest.events, rest.files, loop.tokens + rest.tokens, rest.end)
  }

  /** The calls made up to the registration of the run, and the registered
      run or the error raised on the way. */
  datatype Registration = Registration(events: seq<Event>, run: Result<RegisteredRun, Error>)

  /** Resolving the repository, then registering the run with every changed
      path, in key order. */
  function Register(cfg: Config, diffs: seq<FileDiff>, w: World): Registration
  {
    var resolution := ResolveRepository(cfg.repoName, w);
    match resolution.repoId
    case Err(e) => Registration(resolution.events, Err(e))
    case Ok(repoId) =>
      var paths := Paths(diffs);
      Registration(resolution.events + [CreateRun(repoId, cfg.actionUrl, paths)],
                   w.createRun(repoId, cfg.actionUrl, paths))
  }

  /** The calls after the `try` block and the outcome: on an error, the run
      is marked failed with the error's message, and the error is raised
      again, or the report's own error if the report fails. */
  datatype Conclusion = Conclusion(events: seq<Event>, outcome: Outcome)

  function Conclude(w: World, run: RegisteredRun, end: BodyEnd): Conclusion
  {
    match end
    case Unchanged => Conclusion([], NoChange)
    case Summarized => Conclusion([], Completed(run.runId))
    case Raised(e) =>
      var message := Message(e);
      var outcome :=
        match w.markFailed(run.runId, message)
        case Ok(_) => Failed(e)
        case Err(reportError) => Failed(reportError);
      Conclusion([MarkFailed(run.runId, message)], outcome)
  }

  /** `update_docs`. */
  function UpdateDocs(cfg: Config, diffs: seq<FileDiff>, w: World): RunResult
  {
    if cfg.mode.OpenApi? && cfg.openapiSpec.None? then
      RunResult([], w.files, 0, None, Failed(SpecPathMissing))
    else
      var specExisted := cfg.mode.OpenApi? && OnDisk(w.files, cfg.openapiSpec.value);
      var registration := Register(cfg, diffs, w);
      match registration.run
      case Err(e) => RunResult(registration.events, w.files, 0, None, Failed(e))
      case Ok(run) =>
        var body := RunBody(cfg, w, run, diffs, specExisted);
        var conclusion := Conclude(w, run, body.end);
        RunResult(registration.events + body.events + conclusion.events,
                  body.files, body.tokens, Some(run), conclusion.outcome)
  }
}
