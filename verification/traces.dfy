/** The vocabulary for reading a run's trace event by event: the step each
    call belongs to, the requests made, the tokens reported, the failure
    reports, the disk the writes leave, and where each call must stand; with
    the facts about joining traces that the run lemmas are built from. */
module Traces {
  import opened Results
  import opened Client
  import opened DiffPartition
  import opened Orchestrator


  /** The step of the run an event belongs to: resolving the repository,
      registering the run, the file loop, change detection, the explanation,
      and the failure report. */
  function Phase(e: Event): nat
  {
    match e
    case ListRepositories => 0
    case CreateRepository(_) => 0
    case CreateRun(_, _, _) => 1
    case ReadFile(_) => 2
    case Generate(_, _) => 2
    case WriteFile(_, _) => 2
    case AddToIndex(_) => 3
    case Diff(_) => 3
    case Explain(_, _, _) => 4
    case WriteSummary(_) => 4
    case MarkFailed(_, _) => 5
  }

  /** The trace never goes back to an earlier step. */
  predicate PhasesOrdered(t: seq<Event>)
  {
    forall i, j :: 0 <= i < j < |t| ==> Phase(t[i]) <= Phase(t[j])
  }

  predicate PhasesWithin(t: seq<Event>, lo: nat, hi: nat)
  {
    forall i :: 0 <= i < |t| ==> lo <= Phase(t[i]) <= hi
  }

  /** The generation requests of a trace, in order. */
  function Requests(t: seq<Event>): seq<GenerateRequest>
  {
    if t == [] then []
    else (if t[0].Generate? then [t[0].request] else []) + Requests(t[1..])
  }

  /** How many times the run was reported as failed. */
  function CountMarkFailed(t: seq<Event>): nat
  {
    if t == [] then 0
    else (if t[0].MarkFailed? then 1 else 0) + CountMarkFailed(t[1..])
  }

  /** The tokens the service reported for one call, 0 for a failed call and
      for calls that report none. */
  function EventTokens(e: Event, w: World): int
  {
    match e
    case Generate(id, request) =>
      (match w.generate(id, request)
       case Ok(doc) => doc.tokensUsed
       case Err(_) => 0)
    case Explain(id, mode, changes) =>
      (match w.explain(id, mode, changes)
       case Ok(resp) => resp.tokensUsed
       case Err(_) => 0)
    case _ => 0
  }

  /** The tokens reported over a whole trace. */
  function TokensOf(t: seq<Event>, w: World): int
  {
    if t == [] then 0 else EventTokens(t[0], w) + TokensOf(t[1..], w)
  }

  /** The disk after one event: a write to a writable path replaces the
      path's content; nothing else touches the disk. */
  function ApplyEvent(files: map<string, string>, readOnly: set<string>, e: Event): map<string, string>
  {
    match e
    case WriteFile(path, content) => if path in readOnly then files else files[path := content]
    case WriteSummary(content) => if SummaryFile in readOnly then files else files[SummaryFile := content]
    case _ => files
  }

  /** The disk after all the writes of a trace, in order. */
  function Applied(files: map<string, string>, t: seq<Event>, readOnly: set<string>): map<string, string>
    decreases |t|
  {
    if t == [] then files else Applied(ApplyEvent(files, readOnly, t[0]), t[1..], readOnly)
  }

  /** The entries the service recognised, in key order. */
  function Recognized(entries: seq<FileDiff>, languages: map<string, string>): seq<FileDiff>
  {
    if entries == [] then []
    else (if entries[0].path in languages then [entries[0]] else []) + Recognized(entries[1..], languages)
  }

  /** `request` is the generation request for `entry`: same path and mode,
      the language the service gave the path, and the entry's diff exactly
      when the mode is inline. */
  predicate Fits(cfg: Config, languages: map<string, string>, entry: FileDiff, request: GenerateRequest)
  {
    && request.path == entry.path
    && request.mode == cfg.mode
    && entry.path in languages
    && request.language == languages[entry.path]
    && request.changes == (if cfg.mode.Inline? then Some(entry.diff) else None)
  }

  /** The requests made are, one for one, the requests for a prefix of the
      recognised entries. */
  predicate RequestsFollow(cfg: Config, languages: map<string, string>, entries: seq<FileDiff>, requests: seq<GenerateRequest>)
  {
    && |requests| <= |Recognized(entries, languages)|
    && forall k :: 0 <= k < |requests| ==> Fits(cfg, languages, Recognized(entries, languages)[k], requests[k])
  }

  /** Each generation call directly follows the read of its file, and each
      loop write directly follows the successful generation whose content it
      writes, to the file itself in inline mode or to the spec file. */
  predicate WellPlaced(cfg: Config, w: World, t: seq<Event>, i: nat)
    requires i < |t|
  {
    match t[i]
    case Generate(_, request) => i > 0 && t[i - 1] == ReadFile(request.path)
    case WriteFile(path, content) =>
      && i > 0
      && t[i - 1].Generate?
      && w.generate(t[i - 1].runId, t[i - 1].request).Ok?
      && content == w.generate(t[i - 1].runId, t[i - 1].request).value.documentedContent
      && (cfg.mode.Inline? ==> path == t[i - 1].request.path)
      && (cfg.mode.OpenApi? ==> Some(path) == cfg.openapiSpec)
    case _ => true
  }

  predicate Sequenced(cfg: Config, w: World, t: seq<Event>)
  {
    forall i :: 0 <= i < |t| ==> WellPlaced(cfg, w, t, i)
  }

  /** The git calls follow the mode: a plain diff in inline mode or when the
      spec file existed before the run; otherwise the spec file is added to
      the index, and only once that succeeded is the index diffed, limited to
      the spec path when the path is not empty. */
  predicate GitPlaced(cfg: Config, w: World, t: seq<Event>, i: nat)
    requires i < |t|
  {
    match t[i]
    case AddToIndex(path) => cfg.mode.OpenApi? && cfg.openapiSpec == Some(path) && !OnDisk(w.files, path)
    case Diff(args) =>
      if cfg.mode.Inline? || (cfg.openapiSpec.Some? && OnDisk(w.files, cfg.openapiSpec.value)) then
        args == GitDiffArgs(false, None)
      else
        && cfg.openapiSpec.Some?
        && args == GitDiffArgs(true, if cfg.openapiSpec.value == "" then None else cfg.openapiSpec)
        && i > 0 && t[i - 1] == AddToIndex(cfg.openapiSpec.value)
        && w.gitAdd(cfg.openapiSpec.value).Ok?
    case _ => true
  }

  predicate GitFollowsMode(cfg: Config, w: World, t: seq<Event>)
  {
    forall i :: 0 <= i < |t| ==> GitPlaced(cfg, w, t, i)
  }

  /** The run got as far as change detection. */
  predicate Detected(t: seq<Event>)
  {
    exists i :: 0 <= i < |t| && Phase(t[i]) == 3
  }

  /** Some diff call of the trace answered with `d`. */
  predicate DiffAnswered(w: World, t: seq<Event>, d: string)
  {
    exists i :: 0 <= i < |t| && t[i].Diff? && w.gitDiff(t[i].args) == Ok(d)
  }

  /** `t` ends with the explanation, asked for the run and the mode, of the
      non-empty diff the last git call answered, followed by the write of that
      explanation, which `files` holds. */
  predicate Summary(cfg: Config, w: World, runId: int, t: seq<Event>, files: map<string, string>)
  {
    && |t| >= 3
    && t[|t| - 3].Diff?
    && w.gitDiff(t[|t| - 3].args).Ok?
    && var diff := w.gitDiff(t[|t| - 3].args).value;
    && diff != ""
    && t[|t| - 2] == Explain(runId, cfg.mode, diff)
    && w.explain(runId, cfg.mode, diff).Ok?
    && t[|t| - 1] == WriteSummary(w.explain(runId, cfg.mode, diff).value.explanation)
    && SummaryFile !in w.readOnly
    && SummaryFile in files
    && files[SummaryFile] == w.explain(runId, cfg.mode, diff).value.explanation
  }

  /** Calls made only before the file loop: resolving the repository and
      registering the run. */
  predicate Preliminary(t: seq<Event>)
  {
    forall i :: 0 <= i < |t| ==> Phase(t[i]) <= 1
  }

  // Joining traces.

  lemma {:induction false} RequestsConcat(a: seq<Event>, b: seq<Event>)
    ensures Requests(a + b) == Requests(a) + Requests(b)
  {
    if a == [] {
      assert a + b == b;
    } else {
      var head := if a[0].Generate? then [a[0].request] else [];
      assert (a + b)[0] == a[0] && (a + b)[1..] == a[1..] + b;
      RequestsConcat(a[1..], b);
      assert Requests(a + b) == head + (Requests(a[1..]) + Requests(b));
    }
  }

  lemma {:induction false} CountMarkFailedConcat(a: seq<Event>, b: seq<Event>)
    ensures CountMarkFailed(a + b) == CountMarkFailed(a) + CountMarkFailed(b)
  {
    if a == [] {
      assert a + b == b;
    } else {
      assert (a + b)[1..] == a[1..] + b;
      CountMarkFailedConcat(a[1..], b);
    }
  }

  lemma {:induction false} TokensConcat(a: seq<Event>, b: seq<Event>, w: World)
    ensures TokensOf(a + b, w) == TokensOf(a, w) + TokensOf(b, w)
  {
    if a == [] {
      assert a + b == b;
    } else {
      assert (a + b)[1..] == a[1..] + b;
      TokensConcat(a[1..], b, w);
    }
  }

  lemma {:induction false} AppliedConcat(files: map<string, string>, a: seq<Event>, b: seq<Event>, readOnly: set<string>)
    ensures Applied(files, a + b, readOnly) == Applied(Applied(files, a, readOnly), b, readOnly)
    decreases |a|
  {
    if a == [] {
      assert a + b == b;
    } else {
      assert (a + b)[1..] == a[1..] + b;
      AppliedConcat(ApplyEvent(files, readOnly, a[0]), a[1..], b, readOnly);
    }
  }

  lemma SequencedConcat(cfg: Config, w: World, a: seq<Event>, b: seq<Event>)
    requires Sequenced(cfg, w, a) && Sequenced(cfg, w, b)
    requires |b| > 0 ==> !b[0].Generate? && !b[0].WriteFile?
    ensures Sequenced(cfg, w, a + b)
  {
    var t := a + b;
    forall i | 0 <= i < |t|
      ensures WellPlaced(cfg, w, t, i)
    {
      if i < |a| {
        assert t[i] == a[i];
        assert WellPlaced(cfg, w, a, i);
        if i > 0 {
          assert t[i - 1] == a[i - 1];
        }
      } else if i > |a| {
        assert t[i] == b[i - |a|] && t[i - 1] == b[i - |a| - 1];
        assert WellPlaced(cfg, w, b, i - |a|);
      }
    }
  }

  lemma PhasesConcat(a: seq<Event>, b: seq<Event>, lo: nat, k: nat, hi: nat)
    requires lo <= k <= hi
    requires PhasesOrdered(a) && PhasesWithin(a, lo, k)
    requires PhasesOrdered(b) && PhasesWithin(b, k, hi)
    ensures PhasesOrdered(a + b) && PhasesWithin(a + b, lo, hi)
  {
    var t := a + b;
    forall i, j | 0 <= i < j < |t|
      ensures Phase(t[i]) <= Phase(t[j])
    {
      if j < |a| {
        assert t[i] == a[i] && t[j] == a[j];
      } else if i >= |a| {
        assert t[i] == b[i - |a|] && t[j] == b[j - |a|];
      } else {
        assert t[i] == a[i] && t[j] == b[j - |a|];
      }
    }
    forall i | 0 <= i < |t|
      ensures lo <= Phase(t[i]) <= hi
    {
      if i < |a| {
        assert t[i] == a[i];
      } else {
        assert t[i] == b[i - |a|];
      }
    }
  }

  lemma PhasesWiden(t: seq<Event>, lo: nat, hi: nat, lo': nat, hi': nat)
    requires PhasesWithin(t, lo, hi) && lo' <= lo && hi <= hi'
    ensures PhasesWithin(t, lo', hi')
  {
  }

  lemma GitConcat(cfg: Config, w: World, a: seq<Event>, b: seq<Event>)
    requires GitFollowsMode(cfg, w, a) && GitFollowsMode(cfg, w, b)
    ensures GitFollowsMode(cfg, w, a + b)
  {
    var t := a + b;
    forall i | 0 <= i < |t|
      ensures GitPlaced(cfg, w, t, i)
    {
      if i < |a| {
        assert t[i] == a[i];
        assert GitPlaced(cfg, w, a, i);
        if i > 0 {
          assert t[i - 1] == a[i - 1];
        }
      } else {
        assert t[i] == b[i - |a|];
        assert GitPlaced(cfg, w, b, i - |a|);
        if i > |a| {
          assert t[i - 1] == b[i - |a| - 1];
        }
      }
    }
  }

  /** Calls without a diff among them answer no diff. */
  lemma DiffAnsweredConcat(w: World, a: seq<Event>, b: seq<Event>, d: string)
    requires forall i :: 0 <= i < |a| ==> !a[i].Diff?
    ensures DiffAnswered(w, a + b, d) <==> DiffAnswered(w, b, d)
    ensures !DiffAnswered(w, a, d)
  {
    var t := a + b;
    if DiffAnswered(w, t, d) {
      var i :| 0 <= i < |t| && t[i].Diff? && w.gitDiff(t[i].args) == Ok(d);
      assert b[i - |a|] == t[i];
    }
    if DiffAnswered(w, b, d) {
      var i :| 0 <= i < |b| && b[i].Diff? && w.gitDiff(b[i].args) == Ok(d);
      assert t[|a| + i] == b[i];
    }
  }

  /** A diff answered in a trace is answered in it with calls appended that
      are not diffs, and in it with calls prepended. */
  lemma DiffAnsweredSuffix(w: World, a: seq<Event>, b: seq<Event>, d: string)
    requires forall i :: 0 <= i < |b| ==> !b[i].Diff?
    ensures DiffAnswered(w, a + b, d) <==> DiffAnswered(w, a, d)
  {
    var t := a + b;
    if DiffAnswered(w, t, d) {
      var i :| 0 <= i < |t| && t[i].Diff? && w.gitDiff(t[i].args) == Ok(d);
      assert a[i] == t[i];
    }
    if DiffAnswered(w, a, d) {
      var i :| 0 <= i < |a| && a[i].Diff? && w.gitDiff(a[i].args) == Ok(d);
      assert t[i] == a[i];
    }
  }

  lemma SummaryAfter(cfg: Config, w: World, runId: int, a: seq<Event>, b: seq<Event>, files: map<string, string>)
    requires Summary(cfg, w, runId, b, files)
    ensures Summary(cfg, w, runId, a + b, files)
  {
    var t := a + b;
    assert t[|t| - 1] == b[|b| - 1];
    assert t[|t| - 2] == b[|b| - 2];
    assert t[|t| - 3] == b[|b| - 3];
  }

  // Traces of one kind of call.

  /** A trace of repository, registration and git calls makes no request,
      counts no tokens, reports nothing and writes nothing. */
  lemma QuietFacts(cfg: Config, w: World, t: seq<Event>, files: map<string, string>)
    requires forall i :: 0 <= i < |t| ==> Phase(t[i]) <= 1 || Phase(t[i]) == 3
    ensures Requests(t) == [] && TokensOf(t, w) == 0 && CountMarkFailed(t) == 0
    ensures Applied(files, t, w.readOnly) == files
    ensures Sequenced(cfg, w, t)
  {
    if t != [] {
      QuietFacts(cfg, w, t[1..], files);
    }
  }

  /** A trace of preliminary calls also makes no git call. */
  lemma PreliminaryFacts(cfg: Config, w: World, t: seq<Event>, files: map<string, string>)
    requires Preliminary(t)
    ensures Requests(t) == [] && TokensOf(t, w) == 0 && CountMarkFailed(t) == 0
    ensures Applied(files, t, w.readOnly) == files
    ensures Sequenced(cfg, w, t) && GitFollowsMode(cfg, w, t)
    ensures PhasesWithin(t, 0, 1)
  {
    QuietFacts(cfg, w, t, files);
  }

  /** The calls after the change detection: the explanation request and the
      write of the summary. */
  lemma SummaryCalls(cfg: Config, w: World, t: seq<Event>)
    requires forall i :: 0 <= i < |t| ==> Phase(t[i]) == 4
    ensures PhasesOrdered(t) && PhasesWithin(t, 4, 4)
    ensures Sequenced(cfg, w, t) && GitFollowsMode(cfg, w, t)
  {
    forall i | 0 <= i < |t|
      ensures WellPlaced(cfg, w, t, i) && GitPlaced(cfg, w, t, i)
    {
      assert Phase(t[i]) == 4;
    }
  }

  lemma SummaryQuiet(t: seq<Event>)
    requires forall i :: 0 <= i < |t| ==> Phase(t[i]) == 4
    ensures Requests(t) == [] && CountMarkFailed(t) == 0
  {
    if t != [] {
      SummaryQuiet(t[1..]);
    }
  }

  /** The file step makes no git call, so it cannot misplace one. */
  lemma LoopGit(cfg: Config, w: World, t: seq<Event>)
    requires PhasesWithin(t, 2, 2)
    ensures GitFollowsMode(cfg, w, t)
  {
    forall i | 0 <= i < |t|
      ensures GitPlaced(cfg, w, t, i)
    {
      assert Phase(t[i]) == 2;
    }
  }

  lemma LoopNoReport(t: seq<Event>)
    requires PhasesWithin(t, 2, 2)
    ensures CountMarkFailed(t) == 0
  {
    if t != [] {
      LoopNoReport(t[1..]);
    }
  }

  /** The registration calls of a trace with calls appended that are not
      registration calls are those of the trace. */
  lemma RegistrationsBefore(a: seq<Event>, b: seq<Event>)
    requires forall i :: 0 <= i < |b| ==> !b[i].CreateRun?
    ensures forall i :: 0 <= i < |a + b| && (a + b)[i].CreateRun? ==> i < |a| && (a + b)[i] == a[i]
  {
  }

  lemma DetectedJoin(a: seq<Event>, b: seq<Event>)
    ensures Detected(a + b) <==> Detected(a) || Detected(b)
  {
    var t := a + b;
    if Detected(t) {
      var i :| 0 <= i < |t| && Phase(t[i]) == 3;
      if i < |a| {
        assert a[i] == t[i];
      } else {
        assert b[i - |a|] == t[i];
      }
    }
    if Detected(a) {
      var i :| 0 <= i < |a| && Phase(a[i]) == 3;
      assert t[i] == a[i];
    }
    if Detected(b) {
      var i :| 0 <= i < |b| && Phase(b[i]) == 3;
      assert t[|a| + i] == b[i];
    }
  }
  // Errors and contents along a trace.

  /** The error of a reply, if it is one. */
  function ErrorOf<T>(r: Result<T, Error>): Option<Error>
  {
    if r.Err? then Some(r.error) else None
  }

  /** The error a `try` block that ended with `end` raised, if any. */
  function EndError(end: BodyEnd): Option<Error>
  {
    if end.Raised? then Some(end.error) else None
  }

  /** The error the call `e` raises when it is made with the disk holding
      `files`, read from the world alone: a service or git call raises the
      error of its reply, a read raises `FileNotFound` when there is no such
      file, and a write raises `PermissionDenied` on a read-only path. A
      successful generation in OpenAPI mode without a spec path to write to
      raises the failed `assert openapi_spec` that follows it. */
  function CallError(cfg: Config, w: World, files: map<string, string>, e: Event): Option<Error>
  {
    match e
    case ListRepositories => ErrorOf(w.listRepositories)
    case CreateRepository(name) => ErrorOf(w.createRepository(name))
    case CreateRun(repoId, actionUrl, paths) => ErrorOf(w.createRun(repoId, actionUrl, paths))
    case ReadFile(path) => if OnDisk(files, path) then None else Some(FileNotFound(path))
    case Generate(runId, request) =>
      (match w.generate(runId, request)
       case Err(x) => Some(x)
       case Ok(_) => if WriteTarget(cfg, request.path).None? then Some(AssertionFailed) else None)
    case WriteFile(path, _) => if path in w.readOnly then Some(PermissionDenied(path)) else None
    case AddToIndex(path) => ErrorOf(w.gitAdd(path))
    case Diff(args) => ErrorOf(w.gitDiff(args))
    case Explain(runId, mode, changes) => ErrorOf(w.explain(runId, mode, changes))
    case WriteSummary(_) => if SummaryFile in w.readOnly then Some(PermissionDenied(SummaryFile)) else None
    case MarkFailed(runId, message) => ErrorOf(w.markFailed(runId, message))
  }

  /** The calls of `t`, made one after another starting from the disk
      `files`, end with `failure`: they all succeed when it is None;
      otherwise every call but the last succeeds and the last one raises it. */
  predicate StopsAt(cfg: Config, w: World, files: map<string, string>, t: seq<Event>, failure: Option<Error>)
    decreases |t|
  {
    if t == [] then failure.None?
    else if |t| == 1 && failure.Some? then CallError(cfg, w, files, t[0]) == failure
    else
      && CallError(cfg, w, files, t[0]).None?
      && StopsAt(cfg, w, ApplyEvent(files, w.readOnly, t[0]), t[1..], failure)
  }

  /** The error of the first call of `t` that fails, made one after another
      starting from the disk `files`. */
  function FirstFailure(cfg: Config, w: World, files: map<string, string>, t: seq<Event>): Option<Error>
    decreases |t|
  {
    if t == [] then None
    else if CallError(cfg, w, files, t[0]).Some? then CallError(cfg, w, files, t[0])
    else FirstFailure(cfg, w, ApplyEvent(files, w.readOnly, t[0]), t[1..])
  }

  /** Every generation request of `t`, made one after another starting from
      the disk `files`, carries as the file's content what the disk holds
      under its path at that moment. */
  predicate SendsDiskContent(w: World, files: map<string, string>, t: seq<Event>)
    decreases |t|
  {
    t != [] ==>
      && (t[0].Generate? ==> t[0].request.path in files && t[0].request.content == files[t[0].request.path])
      && SendsDiskContent(w, ApplyEvent(files, w.readOnly, t[0]), t[1..])
  }

  /** A stretch of calls that all succeed, followed by one that ends with
      `failure`, ends with `failure`. */
  lemma {:induction false} StopsAtConcat(cfg: Config, w: World, files: map<string, string>, a: seq<Event>, b: seq<Event>, failure: Option<Error>)
    requires StopsAt(cfg, w, files, a, None) && StopsAt(cfg, w, Applied(files, a, w.readOnly), b, failure)
    ensures StopsAt(cfg, w, files, a + b, failure)
    decreases |a|
  {
    if a == [] {
      assert a + b == b;
    } else {
      assert (a + b)[0] == a[0] && (a + b)[1..] == a[1..] + b;
      StopsAtConcat(cfg, w, ApplyEvent(files, w.readOnly, a[0]), a[1..], b, failure);
    }
  }

  /** The failure a stretch of calls ends with is the first failure along
      it. */
  lemma {:induction false} StopsAtFirstFailure(cfg: Config, w: World, files: map<string, string>, t: seq<Event>, failure: Option<Error>)
    requires StopsAt(cfg, w, files, t, failure)
    ensures FirstFailure(cfg, w, files, t) == failure
    decreases |t|
  {
    if t != [] && !(|t| == 1 && failure.Some?) {
      StopsAtFirstFailure(cfg, w, ApplyEvent(files, w.readOnly, t[0]), t[1..], failure);
    }
  }

  /** Calls appended after a failure do not change the first failure. */
  lemma {:induction false} FirstFailureConcat(cfg: Config, w: World, files: map<string, string>, a: seq<Event>, b: seq<Event>)
    requires FirstFailure(cfg, w, files, a).Some?
    ensures FirstFailure(cfg, w, files, a + b) == FirstFailure(cfg, w, files, a)
    decreases |a|
  {
    assert (a + b)[0] == a[0] && (a + b)[1..] == a[1..] + b;
    if CallError(cfg, w, files, a[0]).None? {
      FirstFailureConcat(cfg, w, ApplyEvent(files, w.readOnly, a[0]), a[1..], b);
    }
  }

  lemma {:induction false} SendsDiskContentConcat(w: World, files: map<string, string>, a: seq<Event>, b: seq<Event>)
    requires SendsDiskContent(w, files, a) && SendsDiskContent(w, Applied(files, a, w.readOnly), b)
    ensures SendsDiskContent(w, files, a + b)
    decreases |a|
  {
    if a == [] {
      assert a + b == b;
    } else {
      assert (a + b)[0] == a[0] && (a + b)[1..] == a[1..] + b;
      SendsDiskContentConcat(w, ApplyEvent(files, w.readOnly, a[0]), a[1..], b);
    }
  }

  /** A trace without generation requests sends no content. */
  lemma {:induction false} NoRequestsSendNothing(w: World, files: map<string, string>, t: seq<Event>)
    requires forall i :: 0 <= i < |t| ==> Phase(t[i]) != 2
    ensures SendsDiskContent(w, files, t)
    decreases |t|
  {
    if t != [] {
      assert Phase(t[0]) != 2;
      NoRequestsSendNothing(w, ApplyEvent(files, w.readOnly, t[0]), t[1..]);
    }
  }
}
