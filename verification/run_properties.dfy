/** Properties of a whole run of `update_docs`, read from its trace: the
    order of its steps, what registration submits, which requests and writes
    the loop makes, how git is asked, when the run is reported as failed,
    what it leaves on disk and how it ends. */
module RunProperties {
  import opened Results
  import opened Client
  import opened DiffPartition
  import opened Orchestrator
  import opened Traces
  import opened BodyProperties

  // Registration and conclusion.

  /** Resolution and registration make only preliminary calls, in order. */
  lemma RegisterShape(cfg: Config, diffs: seq<FileDiff>, w: World)
    ensures var reg := Register(cfg, diffs, w);
      && Preliminary(reg.events) && PhasesOrdered(reg.events) && PhasesWithin(reg.events, 0, 1)
  {
    var reg := Register(cfg, diffs, w);
    var res := ResolveRepository(cfg.repoName, w);
    assert Preliminary(res.events) && PhasesWithin(res.events, 0, 0);
    if res.repoId.Ok? {
      var create := CreateRun(res.repoId.value, cfg.actionUrl, Paths(diffs));
      assert reg.events == res.events + [create];
      PhasesConcat(res.events, [create], 0, 1, 1);
    }
  }

  /** Resolution and registration make no request, count no tokens, report
      nothing, write nothing and ask git nothing. */
  lemma RegisterQuiet(cfg: Config, diffs: seq<FileDiff>, w: World, files: map<string, string>)
    ensures var reg := Register(cfg, diffs, w);
      && Requests(reg.events) == [] && TokensOf(reg.events, w) == 0 && CountMarkFailed(reg.events) == 0
      && Applied(files, reg.events, w.readOnly) == files
      && Sequenced(cfg, w, reg.events) && GitFollowsMode(cfg, w, reg.events)
      && (forall i :: 0 <= i < |reg.events| ==> !reg.events[i].Diff?)
      && !Detected(reg.events)
  {
    var reg := Register(cfg, diffs, w);
    RegisterShape(cfg, diffs, w);
    PreliminaryFacts(cfg, w, reg.events, files);
  }

  /** The one registration call submits every changed path for the resolved
      repository, and the registered run is the service's reply to it. */
  lemma RegisterCalls(cfg: Config, diffs: seq<FileDiff>, w: World)
    ensures var reg := Register(cfg, diffs, w);
      var res := ResolveRepository(cfg.repoName, w);
      && (forall i :: 0 <= i < |reg.events| && reg.events[i].CreateRun? ==>
            res.repoId.Ok? && reg.events[i] == CreateRun(res.repoId.value, cfg.actionUrl, Paths(diffs)))
      && (reg.run.Ok? ==>
            res.repoId.Ok? && w.createRun(res.repoId.value, cfg.actionUrl, Paths(diffs)) == reg.run)
  {
    var reg := Register(cfg, diffs, w);
    var res := ResolveRepository(cfg.repoName, w);
    assert forall i :: 0 <= i < |res.events| ==> !res.events[i].CreateRun?;
    if res.repoId.Ok? {
      var create := CreateRun(res.repoId.value, cfg.actionUrl, Paths(diffs));
      assert reg.events == res.events + [create];
    }
  }

  /** Registration ends with the error of the call that fails, if any; it
      fails before any call only without a repository name. */
  lemma RegisterStops(cfg: Config, diffs: seq<FileDiff>, w: World, files: map<string, string>)
    ensures var reg := Register(cfg, diffs, w);
      && (reg.events == [] ==> cfg.repoName.None? && reg.run == Err(AssertionFailed))
      && (reg.events != [] ==> StopsAt(cfg, w, files, reg.events, ErrorOf(reg.run)))
  {
    var reg := Register(cfg, diffs, w);
    var res := ResolveRepository(cfg.repoName, w);
    var t := reg.events;
    if cfg.repoName.Some? {
      if res.repoId.Ok? {
        assert t == res.events + [CreateRun(res.repoId.value, cfg.actionUrl, Paths(diffs))];
      }
      if |t| == 2 {
        assert t[1..] == [t[1]] && t[1..][1..] == [];
        assert StopsAt(cfg, w, files, t[1..], ErrorOf(reg.run));
      } else if |t| == 3 {
        assert t[1..] == [t[1], t[2]] && t[1..][1..] == [t[2]] && t[1..][1..][1..] == [];
        assert StopsAt(cfg, w, files, [t[2]], ErrorOf(reg.run));
        assert StopsAt(cfg, w, files, t[1..], ErrorOf(reg.run));
      } else {
        assert t[1..] == [];
      }
    }
  }

  /** The calls after the try block: none when it ended unchanged or
      summarized, otherwise the one failure report; none of them is a
      request, a write, a git call or a token count. */
  lemma ConcludeShape(cfg: Config, w: World, run: RegisteredRun, end: BodyEnd, files: map<string, string>)
    ensures var c := Conclude(w, run, end);
      && PhasesOrdered(c.events) && PhasesWithin(c.events, 5, 5)
      && Requests(c.events) == [] && TokensOf(c.events, w) == 0
      && CountMarkFailed(c.events) == (if end.Raised? then 1 else 0)
      && Applied(files, c.events, w.readOnly) == files
      && Sequenced(cfg, w, c.events) && GitFollowsMode(cfg, w, c.events)
      && (forall i :: 0 <= i < |c.events| ==> !c.events[i].Diff?)
      && !Detected(c.events)
  {
    var c := Conclude(w, run, end);
    if end.Raised? {
      assert c.events[1..] == [];
    }
  }

  /** How the run ends after the try block: nothing changed, completed with
      the run's id, or failed after the report that carries the message of
      the raised error, which is raised again unless the report fails, in
      which case the report's error is raised. */
  lemma ConcludeOutcome(w: World, run: RegisteredRun, end: BodyEnd)
    ensures var c := Conclude(w, run, end);
      && (end == Unchanged ==> c.events == [] && c.outcome == NoChange)
      && (end == Summarized ==> c.events == [] && c.outcome == Completed(run.runId))
      && (end.Raised? ==>
            && c.events == [MarkFailed(run.runId, Message(end.error))]
            && c.outcome.Failed?
            && (w.markFailed(run.runId, Message(end.error)).Ok? ==> c.outcome.error == end.error)
            && (w.markFailed(run.runId, Message(end.error)).Err? ==>
                  c.outcome.error == w.markFailed(run.runId, Message(end.error)).error))
  {
  }

  // The whole run.

  /** A run is reported as failed at most once, exactly when it fails after
      it was registered, and then as its very last call, for the registered
      run. The report carries the message of the raised error, which the run
      raises again; if the report itself fails, the run raises the report's
      error instead. A run that fails before registration is not reported. */
  lemma FailureReportedOnce(cfg: Config, diffs: seq<FileDiff>, w: World)
    ensures var r := UpdateDocs(cfg, diffs, w);
      && CountMarkFailed(r.trace) == (if r.run.Some? && r.outcome.Failed? then 1 else 0)
      && (r.run.None? ==> r.outcome.Failed?)
      && (r.run.Some? && r.outcome.Failed? ==>
            && |r.trace| > 0
            && var last := r.trace[|r.trace| - 1];
            && last.MarkFailed?
            && last.runId == r.run.value.runId
            && (w.markFailed(last.runId, last.message).Ok? ==> last.message == Message(r.outcome.error))
            && (w.markFailed(last.runId, last.message).Err? ==>
                  r.outcome.error == w.markFailed(last.runId, last.message).error))
  {
    var r := UpdateDocs(cfg, diffs, w);
    if !(cfg.mode.OpenApi? && cfg.openapiSpec.None?) {
      var specExisted := cfg.mode.OpenApi? && OnDisk(w.files, cfg.openapiSpec.value);
      var reg := Register(cfg, diffs, w);
      if reg.run.Ok? {
        var run := reg.run.value;
        var body := RunBody(cfg, w, run, diffs, specExisted);
        var c := Conclude(w, run, body.end);
        assert r.trace == reg.events + body.events + c.events && r.outcome == c.outcome;
        assert CountMarkFailed(r.trace) == CountMarkFailed(c.events) by {
          RegisterQuiet(cfg, diffs, w, w.files);
          assert CountMarkFailed(body.events) == 0 by {
            BodyShape(cfg, w, run, diffs, specExisted);
          }
          CountMarkFailedConcat(reg.events, body.events);
          CountMarkFailedConcat(reg.events + body.events, c.events);
        }
        assert CountMarkFailed(c.events) == (if body.end.Raised? then 1 else 0) by {
          ConcludeShape(cfg, w, run, body.end, w.files);
        }
        ConcludeOutcome(w, run, body.end);
        if body.end.Raised? {
          assert r.trace[|r.trace| - 1] == c.events[0];
        }
      } else {
        RegisterQuiet(cfg, diffs, w, w.files);
      }
    }
  }

  /** Without a repository name, or in OpenAPI mode without a spec path,
      the run fails before any call. A run that fails before it is
      registered made only the repository and registration calls, wrote
      nothing and counted no tokens, and raises the error of the repository
      resolution or, if that succeeded, of the registration. */
  lemma UnregisteredRunTouchesNothing(cfg: Config, diffs: seq<FileDiff>, w: World)
    ensures var r := UpdateDocs(cfg, diffs, w);
      && (cfg.repoName.None? ==> r.trace == [] && r.outcome.Failed?)
      && (cfg.mode.OpenApi? && cfg.openapiSpec.None? ==> r.trace == [] && r.outcome == Failed(SpecPathMissing))
      && (r.run.None? ==>
            && r.outcome.Failed?
            && Preliminary(r.trace)
            && r.files == w.files
            && r.tokens == 0)
      && (r.run.None? && !(cfg.mode.OpenApi? && cfg.openapiSpec.None?) ==>
            var res := ResolveRepository(cfg.repoName, w);
            r.outcome == Failed(
              if res.repoId.Err? then res.repoId.error
              else w.createRun(res.repoId.value, cfg.actionUrl, Paths(diffs)).error))
  {
    if !(cfg.mode.OpenApi? && cfg.openapiSpec.None?) {
      RegisterShape(cfg, diffs, w);
    }
  }

  /** Every registration call submits all the changed paths, in key order,
      with the action URL, for the repository resolution found; the run the
      rest of the trace belongs to is the service's reply to that call. */
  lemma RegistrationSubmitsChangedPaths(cfg: Config, diffs: seq<FileDiff>, w: World)
    ensures var r := UpdateDocs(cfg, diffs, w);
      var res := ResolveRepository(cfg.repoName, w);
      && (forall i :: 0 <= i < |r.trace| && r.trace[i].CreateRun? ==>
            res.repoId.Ok? && r.trace[i] == CreateRun(res.repoId.value, cfg.actionUrl, Paths(diffs)))
      && (r.run.Some? ==>
            res.repoId.Ok? && w.createRun(res.repoId.value, cfg.actionUrl, Paths(diffs)) == Ok(r.run.value))
  {
    var r := UpdateDocs(cfg, diffs, w);
    if !(cfg.mode.OpenApi? && cfg.openapiSpec.None?) {
      var specExisted := cfg.mode.OpenApi? && OnDisk(w.files, cfg.openapiSpec.value);
      var reg := Register(cfg, diffs, w);
      RegisterCalls(cfg, diffs, w);
      if reg.run.Ok? {
        var run := reg.run.value;
        var body := RunBody(cfg, w, run, diffs, specExisted);
        var c := Conclude(w, run, body.end);
        var after := body.events + c.events;
        assert r.trace == reg.events + after;
        assert forall i :: 0 <= i < |after| ==> Phase(after[i]) >= 2 by {
          BodyShape(cfg, w, run, diffs, specExisted);
          ConcludeShape(cfg, w, run, body.end, w.files);
          forall i | 0 <= i < |after|
            ensures Phase(after[i]) >= 2
          {
            if i >= |body.events| {
              assert after[i] == c.events[i - |body.events|];
            } else {
              assert after[i] == body.events[i];
            }
          }
        }
        RegistrationsBefore(reg.events, after);
      }
    }
  }

  /** The run never goes back to an earlier step: repository, registration,
      the files, git, the explanation, the failure report. */
  lemma PhasesInOrder(cfg: Config, diffs: seq<FileDiff>, w: World)
    ensures PhasesOrdered(UpdateDocs(cfg, diffs, w).trace)
  {
    var r := UpdateDocs(cfg, diffs, w);
    if !(cfg.mode.OpenApi? && cfg.openapiSpec.None?) {
      var specExisted := cfg.mode.OpenApi? && OnDisk(w.files, cfg.openapiSpec.value);
      var reg := Register(cfg, diffs, w);
      RegisterShape(cfg, diffs, w);
      assert PhasesWithin(reg.events, 0, 1);
      if reg.run.Ok? {
        var run := reg.run.value;
        var body := RunBody(cfg, w, run, diffs, specExisted);
        var c := Conclude(w, run, body.end);
        BodyShape(cfg, w, run, diffs, specExisted);
        ConcludeShape(cfg, w, run, body.end, w.files);
        assert r.trace == reg.events + body.events + c.events;
        PhasesConcat(reg.events, body.events, 0, 2, 4);
        PhasesConcat(reg.events + body.events, c.events, 0, 5, 5);
      }
    }
  }

  /** The generation requests are the requests for a prefix of the entries
      the service recognised, in key order, each with the entry's path, the
      mode, the language the service gave it, and its diff exactly in inline
      mode; each carries the file's content as it is on disk when the request
      is made. An unregistered run makes none. */
  lemma RequestsFollowRecognizedKeys(cfg: Config, diffs: seq<FileDiff>, w: World)
    ensures var r := UpdateDocs(cfg, diffs, w);
      && (r.run.None? ==> Requests(r.trace) == [])
      && (r.run.Some? ==> RequestsFollow(cfg, r.run.value.fileLanguages, diffs, Requests(r.trace)))
      && SendsDiskContent(w, w.files, r.trace)
  {
    var r := UpdateDocs(cfg, diffs, w);
    if !(cfg.mode.OpenApi? && cfg.openapiSpec.None?) {
      var specExisted := cfg.mode.OpenApi? && OnDisk(w.files, cfg.openapiSpec.value);
      var reg := Register(cfg, diffs, w);
      RegisterQuiet(cfg, diffs, w, w.files);
      if reg.run.Ok? {
        var run := reg.run.value;
        var body := RunBody(cfg, w, run, diffs, specExisted);
        var c := Conclude(w, run, body.end);
        assert Requests(r.trace) == Requests(body.events) by {
          ConcludeShape(cfg, w, run, body.end, w.files);
          assert r.trace == reg.events + body.events + c.events;
          RequestsConcat(reg.events, body.events);
          RequestsConcat(reg.events + body.events, c.events);
        }
        BodyRequests(cfg, w, run, diffs, specExisted);
      }
    }
    RunSends(cfg, diffs, w);
  }

  /** Each request of a run carries the file's content as it is on disk
      when the request is made: the original content unless an earlier
      write of the run replaced it. */
  lemma RunSends(cfg: Config, diffs: seq<FileDiff>, w: World)
    ensures SendsDiskContent(w, w.files, UpdateDocs(cfg, diffs, w).trace)
  {
    var r := UpdateDocs(cfg, diffs, w);
    if !(cfg.mode.OpenApi? && cfg.openapiSpec.None?) {
      var specExisted := cfg.mode.OpenApi? && OnDisk(w.files, cfg.openapiSpec.value);
      var reg := Register(cfg, diffs, w);
      RegisterShape(cfg, diffs, w);
      NoRequestsSendNothing(w, w.files, reg.events);
      if reg.run.Ok? {
        var run := reg.run.value;
        var body := RunBody(cfg, w, run, diffs, specExisted);
        var c := Conclude(w, run, body.end);
        assert r.trace == reg.events + body.events + c.events;
        RegisterQuiet(cfg, diffs, w, w.files);
        BodySends(cfg, w, run, diffs, specExisted);
        ConcludeShape(cfg, w, run, body.end, w.files);
        NoRequestsSendNothing(w, Applied(w.files, reg.events + body.events, w.readOnly), c.events);
        SendsDiskContentConcat(w, w.files, reg.events, body.events);
        SendsDiskContentConcat(w, w.files, reg.events + body.events, c.events);
      }
    }
  }

  /** Once a run reaches git, every recognised entry has had its generation
      request; and a run reaches git unless it fails. */
  lemma AllRequestsBeforeGit(cfg: Config, diffs: seq<FileDiff>, w: World)
    ensures var r := UpdateDocs(cfg, diffs, w);
      && (r.run.Some? && Detected(r.trace) ==>
            |Requests(r.trace)| == |Recognized(diffs, r.run.value.fileLanguages)|)
      && (!r.outcome.Failed? ==> Detected(r.trace))
  {
    var r := UpdateDocs(cfg, diffs, w);
    if !(cfg.mode.OpenApi? && cfg.openapiSpec.None?) {
      var specExisted := cfg.mode.OpenApi? && OnDisk(w.files, cfg.openapiSpec.value);
      var reg := Register(cfg, diffs, w);
      if reg.run.Ok? {
        var run := reg.run.value;
        var body := RunBody(cfg, w, run, diffs, specExisted);
        var c := Conclude(w, run, body.end);
        assert r.trace == reg.events + body.events + c.events;
        assert Requests(r.trace) == Requests(body.events) && (Detected(r.trace) <==> Detected(body.events)) by {
          RegisterQuiet(cfg, diffs, w, w.files);
          ConcludeShape(cfg, w, run, body.end, w.files);
          RequestsConcat(reg.events, body.events);
          RequestsConcat(reg.events + body.events, c.events);
          DetectedJoin(reg.events, body.events);
          DetectedJoin(reg.events + body.events, c.events);
        }
        ConcludeOutcome(w, run, body.end);
        BodyRequests(cfg, w, run, diffs, specExisted);
      }
    }
  }

  /** Every generation call directly follows the read of its file, and every
      write of generated content directly follows the successful generation
      whose content it writes, to the file itself in inline mode and to the
      spec file in OpenAPI mode. */
  lemma WritesFollowGeneration(cfg: Config, diffs: seq<FileDiff>, w: World)
    ensures Sequenced(cfg, w, UpdateDocs(cfg, diffs, w).trace)
  {
    var r := UpdateDocs(cfg, diffs, w);
    if !(cfg.mode.OpenApi? && cfg.openapiSpec.None?) {
      var specExisted := cfg.mode.OpenApi? && OnDisk(w.files, cfg.openapiSpec.value);
      var reg := Register(cfg, diffs, w);
      RegisterQuiet(cfg, diffs, w, w.files);
      if reg.run.Ok? {
        var run := reg.run.value;
        var body := RunBody(cfg, w, run, diffs, specExisted);
        var c := Conclude(w, run, body.end);
        BodyShape(cfg, w, run, diffs, specExisted);
        ConcludeShape(cfg, w, run, body.end, w.files);
        assert r.trace == reg.events + body.events + c.events;
        SequencedConcat(cfg, w, reg.events, body.events);
        SequencedConcat(cfg, w, reg.events + body.events, c.events);
      }
    }
  }

  /** The disk after a run is the disk before it with every write of the
      trace applied in order, except those to read-only paths: a failure
      undoes none of the writes made before it. */
  lemma DiskReflectsWrites(cfg: Config, diffs: seq<FileDiff>, w: World)
    ensures var r := UpdateDocs(cfg, diffs, w);
      r.files == Applied(w.files, r.trace, w.readOnly)
  {
    var r := UpdateDocs(cfg, diffs, w);
    if !(cfg.mode.OpenApi? && cfg.openapiSpec.None?) {
      var specExisted := cfg.mode.OpenApi? && OnDisk(w.files, cfg.openapiSpec.value);
      var reg := Register(cfg, diffs, w);
      RegisterQuiet(cfg, diffs, w, w.files);
      if reg.run.Ok? {
        var run := reg.run.value;
        var body := RunBody(cfg, w, run, diffs, specExisted);
        var c := Conclude(w, run, body.end);
        BodyEffects(cfg, w, run, diffs, specExisted);
        ConcludeShape(cfg, w, run, body.end, body.files);
        assert r.trace == reg.events + body.events + c.events;
        AppliedConcat(w.files, reg.events, body.events, w.readOnly);
        AppliedConcat(w.files, reg.events + body.events, c.events, w.readOnly);
      }
    }
  }

  /** Git is asked as the mode demands: a plain diff in inline mode or when
      the spec file existed before the run; otherwise the spec file, which
      did not exist, is added to the index, and only once that succeeded is
      the index diffed, limited to the spec path when it is not empty. */
  lemma GitCallsFollowMode(cfg: Config, diffs: seq<FileDiff>, w: World)
    ensures GitFollowsMode(cfg, w, UpdateDocs(cfg, diffs, w).trace)
  {
    var r := UpdateDocs(cfg, diffs, w);
    if !(cfg.mode.OpenApi? && cfg.openapiSpec.None?) {
      var specExisted := cfg.mode.OpenApi? && OnDisk(w.files, cfg.openapiSpec.value);
      var reg := Register(cfg, diffs, w);
      RegisterQuiet(cfg, diffs, w, w.files);
      if reg.run.Ok? {
        var run := reg.run.value;
        var body := RunBody(cfg, w, run, diffs, specExisted);
        var c := Conclude(w, run, body.end);
        BodyShape(cfg, w, run, diffs, specExisted);
        ConcludeShape(cfg, w, run, body.end, w.files);
        assert r.trace == reg.events + body.events + c.events;
        GitConcat(cfg, w, reg.events, body.events);
        GitConcat(cfg, w, reg.events + body.events, c.events);
      }
    }
  }

  /** A run ends with nothing changed exactly when a diff answered empty. */
  lemma NoChangeIffEmptyDiff(cfg: Config, diffs: seq<FileDiff>, w: World)
    ensures var r := UpdateDocs(cfg, diffs, w);
      r.outcome == NoChange <==> DiffAnswered(w, r.trace, "")
  {
    var r := UpdateDocs(cfg, diffs, w);
    if !(cfg.mode.OpenApi? && cfg.openapiSpec.None?) {
      var specExisted := cfg.mode.OpenApi? && OnDisk(w.files, cfg.openapiSpec.value);
      var reg := Register(cfg, diffs, w);
      assert forall i :: 0 <= i < |reg.events| ==> !reg.events[i].Diff? by {
        RegisterQuiet(cfg, diffs, w, w.files);
      }
      DiffAnsweredConcat(w, reg.events, [], "");
      if reg.run.Ok? {
        var run := reg.run.value;
        var body := RunBody(cfg, w, run, diffs, specExisted);
        var c := Conclude(w, run, body.end);
        BodyUnchanged(cfg, w, run, diffs, specExisted);
        ConcludeShape(cfg, w, run, body.end, w.files);
        ConcludeOutcome(w, run, body.end);
        assert r.trace == reg.events + body.events + c.events;
        DiffAnsweredConcat(w, reg.events, body.events, "");
        DiffAnsweredSuffix(w, reg.events + body.events, c.events, "");
      }
    }
  }

  /** A run that ends with nothing changed asks for no explanation, writes no
      summary and reports nothing. */
  lemma NoChangeStopsAtGit(cfg: Config, diffs: seq<FileDiff>, w: World)
    ensures var r := UpdateDocs(cfg, diffs, w);
      r.outcome == NoChange ==> PhasesWithin(r.trace, 0, 3)
  {
    var r := UpdateDocs(cfg, diffs, w);
    if !(cfg.mode.OpenApi? && cfg.openapiSpec.None?) {
      var specExisted := cfg.mode.OpenApi? && OnDisk(w.files, cfg.openapiSpec.value);
      var reg := Register(cfg, diffs, w);
      if reg.run.Ok? {
        var run := reg.run.value;
        var body := RunBody(cfg, w, run, diffs, specExisted);
        if body.end == Unchanged {
          assert PhasesOrdered(reg.events) && PhasesWithin(reg.events, 0, 2) by {
            RegisterShape(cfg, diffs, w);
          }
          BodyUnchanged(cfg, w, run, diffs, specExisted);
          BodyShape(cfg, w, run, diffs, specExisted);
          assert r.trace == reg.events + body.events;
          PhasesConcat(reg.events, body.events, 0, 2, 3);
        }
      }
    }
  }

  /** A completed run returns the registered run's id and ends with the
      explanation, asked for in the run's mode, of the non-empty diff git
      answered, followed by the write of that explanation to the summary
      file, which holds it afterwards. */
  lemma CompletedWritesSummary(cfg: Config, diffs: seq<FileDiff>, w: World)
    ensures var r := UpdateDocs(cfg, diffs, w);
      r.outcome.Completed? ==>
        && r.run.Some?
        && r.outcome.runId == r.run.value.runId
        && Summary(cfg, w, r.run.value.runId, r.trace, r.files)
  {
    var r := UpdateDocs(cfg, diffs, w);
    if !(cfg.mode.OpenApi? && cfg.openapiSpec.None?) {
      var specExisted := cfg.mode.OpenApi? && OnDisk(w.files, cfg.openapiSpec.value);
      var reg := Register(cfg, diffs, w);
      if reg.run.Ok? {
        var run := reg.run.value;
        var body := RunBody(cfg, w, run, diffs, specExisted);
        var c := Conclude(w, run, body.end);
        BodySummarized(cfg, w, run, diffs, specExisted);
        ConcludeOutcome(w, run, body.end);
        if r.outcome.Completed? {
          assert c.events == [];
          assert r.trace == reg.events + body.events;
          SummaryAfter(cfg, w, run.runId, reg.events, body.events, body.files);
        }
      }
    }
  }

  /** A run that does not fail counts exactly the tokens that its
      generation and explanation calls reported. */
  lemma TokensCounted(cfg: Config, diffs: seq<FileDiff>, w: World)
    ensures var r := UpdateDocs(cfg, diffs, w);
      !r.outcome.Failed? ==> r.tokens == TokensOf(r.trace, w)
  {
    var r := UpdateDocs(cfg, diffs, w);
    if !(cfg.mode.OpenApi? && cfg.openapiSpec.None?) {
      var specExisted := cfg.mode.OpenApi? && OnDisk(w.files, cfg.openapiSpec.value);
      var reg := Register(cfg, diffs, w);
      RegisterQuiet(cfg, diffs, w, w.files);
      if reg.run.Ok? {
        var run := reg.run.value;
        var body := RunBody(cfg, w, run, diffs, specExisted);
        var c := Conclude(w, run, body.end);
        BodyEffects(cfg, w, run, diffs, specExisted);
        ConcludeShape(cfg, w, run, body.end, w.files);
        ConcludeOutcome(w, run, body.end);
        assert r.trace == reg.events + body.events + c.events;
        TokensConcat(reg.events, body.events, w);
        TokensConcat(reg.events + body.events, c.events, w);
      }
    }
  }

  /** A run fails with the error of the first call that fails. A run that
      does not fail made only calls that succeed. A run that is not
      registered stops at its failing call, or fails before any call on its
      configuration. A registered run that fails makes calls that stop at
      the first failure, then reports the failure's message as its last
      call, and raises the failure again, or the report's error if the
      report fails. */
  lemma FailureIsFirstFailingCall(cfg: Config, diffs: seq<FileDiff>, w: World)
    ensures var r := UpdateDocs(cfg, diffs, w);
      && (!r.outcome.Failed? ==> StopsAt(cfg, w, w.files, r.trace, None))
      && (r.run.None? && r.trace == [] ==>
            r.outcome == Failed(if cfg.mode.OpenApi? && cfg.openapiSpec.None? then SpecPathMissing else AssertionFailed))
      && (r.run.None? && r.trace != [] ==>
            r.outcome.Failed? && StopsAt(cfg, w, w.files, r.trace, Some(r.outcome.error)))
      && (r.run.Some? && r.outcome.Failed? ==>
            && FirstFailure(cfg, w, w.files, r.trace).Some?
            && var e := FirstFailure(cfg, w, w.files, r.trace).value;
            && var report := Message(e);
            && |r.trace| >= 2
            && StopsAt(cfg, w, w.files, r.trace[..|r.trace| - 1], Some(e))
            && r.trace[|r.trace| - 1] == MarkFailed(r.run.value.runId, report)
            && r.outcome.error == (if w.markFailed(r.run.value.runId, report).Ok? then e
                                   else w.markFailed(r.run.value.runId, report).error))
  {
    var r := UpdateDocs(cfg, diffs, w);
    if !(cfg.mode.OpenApi? && cfg.openapiSpec.None?) {
      var specExisted := cfg.mode.OpenApi? && OnDisk(w.files, cfg.openapiSpec.value);
      var reg := Register(cfg, diffs, w);
      RegisterStops(cfg, diffs, w, w.files);
      if reg.run.Ok? {
        var run := reg.run.value;
        var body := RunBody(cfg, w, run, diffs, specExisted);
        var c := Conclude(w, run, body.end);
        var before := reg.events + body.events;
        assert r.trace == before + c.events;
        BodyStops(cfg, w, run, diffs, specExisted);
        RegisterQuiet(cfg, diffs, w, w.files);
        StopsAtConcat(cfg, w, w.files, reg.events, body.events, EndError(body.end));
        ConcludeOutcome(w, run, body.end);
        if body.end.Raised? {
          assert r.trace[..|r.trace| - 1] == before;
          StopsAtFirstFailure(cfg, w, w.files, before, Some(body.end.error));
          FirstFailureConcat(cfg, w, w.files, before, c.events);
        } else {
          assert r.trace == before;
        }
      }
    }
  }
}
