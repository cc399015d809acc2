/** The `try` block of `update_docs` read from its trace: the change
    detection, the explanation, and their composition with the file loop. */
module BodyProperties {
  import opened Results
  import opened Client
  import opened DiffPartition
  import opened Orchestrator
  import opened Traces
  import opened LoopProperties

  /** Change detection makes only git calls, as the mode demands; the diff it
      returns, if any, is the reply to its last call, and that call is its only
      diff. When `git add` fails, it is the only call and its error is what
      detection raises. */
  lemma DetectFacts(cfg: Config, w: World, specExisted: bool)
    requires cfg.mode.OpenApi? ==> cfg.openapiSpec.Some?
    requires specExisted == (cfg.mode.OpenApi? && OnDisk(w.files, cfg.openapiSpec.value))
    ensures var d := DetectChanges(cfg, w, specExisted);
      && 0 < |d.events| <= 2
      && PhasesOrdered(d.events) && PhasesWithin(d.events, 3, 3)
      && GitFollowsMode(cfg, w, d.events)
      && (forall i :: 0 <= i < |d.events| && d.events[i].Diff? ==>
            i == |d.events| - 1 && d.diff == w.gitDiff(d.events[i].args))
      && (d.diff.Ok? ==> d.events[|d.events| - 1].Diff?)
      && (d.events[0].AddToIndex? && w.gitAdd(d.events[0].path).Err? ==>
            d.events == [d.events[0]] && d.diff == Err(w.gitAdd(d.events[0].path).error))
  {
    var d := DetectChanges(cfg, w, specExisted);
    if cfg.mode.Inline? || specExisted {
      assert d.events == [Diff(GitDiffArgs(false, None))];
      assert GitPlaced(cfg, w, d.events, 0);
    } else {
      var spec := cfg.openapiSpec.value;
      assert GitPlaced(cfg, w, d.events, 0);
      if w.gitAdd(spec).Ok? {
        var args := GitDiffArgs(true, if spec == "" then None else Some(spec));
        assert d.events == [AddToIndex(spec), Diff(args)];
        assert GitPlaced(cfg, w, d.events, 1);
      } else {
        assert d.events == [AddToIndex(spec)];
      }
    }
  }

  /** Change detection ends with the error of the git call that fails, if
      any, whatever the disk holds. */
  lemma DetectStops(cfg: Config, w: World, specExisted: bool, files: map<string, string>)
    requires cfg.mode.OpenApi? ==> cfg.openapiSpec.Some?
    ensures var d := DetectChanges(cfg, w, specExisted);
      StopsAt(cfg, w, files, d.events, ErrorOf(d.diff))
  {
    var d := DetectChanges(cfg, w, specExisted);
    if !(cfg.mode.Inline? || specExisted) && w.gitAdd(cfg.openapiSpec.value).Ok? {
      assert d.events[1..] == [d.events[1]] && d.events[1..][1..] == [];
      assert StopsAt(cfg, w, files, d.events[1..], ErrorOf(d.diff));
    } else {
      assert d.events[1..] == [];
    }
  }

  // The explanation.

  /** The explanation step asks for the explanation of the diff and then, if
      it came, writes it to the summary file; it never ends unchanged. */
  lemma ExplainShape(cfg: Config, w: World, run: RegisteredRun, diff: string, files: map<string, string>)
    ensures var x := ExplainChanges(cfg, w, run, diff, files);
      && 0 < |x.events| <= 2
      && x.events[0] == Explain(run.runId, cfg.mode, diff)
      && PhasesOrdered(x.events) && PhasesWithin(x.events, 4, 4)
      && Sequenced(cfg, w, x.events) && GitFollowsMode(cfg, w, x.events)
      && Requests(x.events) == [] && CountMarkFailed(x.events) == 0
      && (forall i :: 0 <= i < |x.events| ==> !x.events[i].Diff?)
      && !x.end.Unchanged?
  {
    var x := ExplainChanges(cfg, w, run, diff, files);
    assert forall i :: 0 <= i < |x.events| ==> Phase(x.events[i]) == 4;
    SummaryCalls(cfg, w, x.events);
    SummaryQuiet(x.events);
  }

  /** The explanation step changes the disk only by its write, and when it
      succeeds it counts the tokens of the explanation, which is on disk. It
      raises the service's error when the explanation fails, and a denied
      permission when the summary file cannot be written. */
  lemma ExplainEffects(cfg: Config, w: World, run: RegisteredRun, diff: string, files: map<string, string>)
    ensures var x := ExplainChanges(cfg, w, run, diff, files);
      && x.files == Applied(files, x.events, w.readOnly)
      && (!x.end.Raised? ==> x.tokens == TokensOf(x.events, w))
      && (x.end == Summarized ==>
            && w.explain(run.runId, cfg.mode, diff).Ok?
            && var explanation := w.explain(run.runId, cfg.mode, diff).value.explanation;
            && x.events == [Explain(run.runId, cfg.mode, diff), WriteSummary(explanation)]
            && SummaryFile !in w.readOnly
            && x.files == files[SummaryFile := explanation])
      && (w.explain(run.runId, cfg.mode, diff).Err? ==>
            && x.events == [Explain(run.runId, cfg.mode, diff)]
            && x.end == Raised(w.explain(run.runId, cfg.mode, diff).error))
      && (w.explain(run.runId, cfg.mode, diff).Ok? && SummaryFile in w.readOnly ==>
            && x.events == [Explain(run.runId, cfg.mode, diff), WriteSummary(w.explain(run.runId, cfg.mode, diff).value.explanation)]
            && x.end == Raised(PermissionDenied(SummaryFile)))
  {
    var x := ExplainChanges(cfg, w, run, diff, files);
    var t := x.events;
    if |t| == 1 {
      assert t[1..] == [];
    } else {
      assert t[1..] == [t[1]] && t[1..][1..] == [];
      assert TokensOf(t, w) == EventTokens(t[0], w) + EventTokens(t[1], w) + TokensOf([], w);
      assert Applied(files, t, w.readOnly) == Applied(ApplyEvent(files, w.readOnly, t[1]), [], w.readOnly);
    }
  }

  /** The explanation step ends with the error of the call that fails, if
      any. */
  lemma ExplainStops(cfg: Config, w: World, run: RegisteredRun, diff: string, files: map<string, string>)
    ensures var x := ExplainChanges(cfg, w, run, diff, files);
      StopsAt(cfg, w, files, x.events, EndError(x.end))
  {
    var x := ExplainChanges(cfg, w, run, diff, files);
    if w.explain(run.runId, cfg.mode, diff).Ok? {
      assert x.events[1..] == [x.events[1]] && x.events[1..][1..] == [];
      assert StopsAt(cfg, w, files, x.events[1..], EndError(x.end));
    } else {
      assert x.events[1..] == [];
    }
  }

  // After the loop.

  /** After the loop the run detects changes and then, at most, explains
      them: git calls first, nothing ever reported. */
  lemma RestShape(cfg: Config, w: World, run: RegisteredRun, files: map<string, string>, specExisted: bool)
    requires cfg.mode.OpenApi? ==> cfg.openapiSpec.Some?
    requires specExisted == (cfg.mode.OpenApi? && OnDisk(w.files, cfg.openapiSpec.value))
    ensures var s := SummarizeChanges(cfg, w, run, files, specExisted);
      && PhasesOrdered(s.events) && PhasesWithin(s.events, 3, 4)
      && Sequenced(cfg, w, s.events) && GitFollowsMode(cfg, w, s.events)
      && 0 < |s.events| && Phase(s.events[0]) == 3
      && Requests(s.events) == [] && CountMarkFailed(s.events) == 0
  {
    var s := SummarizeChanges(cfg, w, run, files, specExisted);
    var detection := DetectChanges(cfg, w, specExisted);
    var d := detection.events;
    DetectFacts(cfg, w, specExisted);
    QuietFacts(cfg, w, d, files);
    if detection.diff.Ok? && |detection.diff.value| > 0 {
      var x := ExplainChanges(cfg, w, run, detection.diff.value, files).events;
      ExplainShape(cfg, w, run, detection.diff.value, files);
      assert s.events == d + x;
      assert PhasesOrdered(s.events) && PhasesWithin(s.events, 3, 4) by {
        PhasesConcat(d, x, 0, 4, 4);
      }
      assert Sequenced(cfg, w, s.events) && GitFollowsMode(cfg, w, s.events) by {
        SequencedConcat(cfg, w, d, x);
        GitConcat(cfg, w, d, x);
      }
      assert Requests(s.events) == [] && CountMarkFailed(s.events) == 0 by {
        RequestsConcat(d, x);
        CountMarkFailedConcat(d, x);
      }
      assert s.events[0] == d[0];
    } else {
      assert s.events == d;
    }
  }

  /** After the loop the disk changes only by the summary write, and a run
      that does not raise counts exactly the tokens its calls reported. */
  lemma RestEffects(cfg: Config, w: World, run: RegisteredRun, files: map<string, string>, specExisted: bool)
    requires cfg.mode.OpenApi? ==> cfg.openapiSpec.Some?
    requires specExisted == (cfg.mode.OpenApi? && OnDisk(w.files, cfg.openapiSpec.value))
    ensures var s := SummarizeChanges(cfg, w, run, files, specExisted);
      && s.files == Applied(files, s.events, w.readOnly)
      && (!s.end.Raised? ==> s.tokens == TokensOf(s.events, w))
  {
    var s := SummarizeChanges(cfg, w, run, files, specExisted);
    var detection := DetectChanges(cfg, w, specExisted);
    var d := detection.events;
    DetectFacts(cfg, w, specExisted);
    QuietFacts(cfg, w, d, files);
    if detection.diff.Ok? && |detection.diff.value| > 0 {
      var x := ExplainChanges(cfg, w, run, detection.diff.value, files).events;
      ExplainEffects(cfg, w, run, detection.diff.value, files);
      assert s.events == d + x;
      AppliedConcat(files, d, x, w.readOnly);
      TokensConcat(d, x, w);
    } else {
      assert s.events == d;
    }
  }

  /** After the loop nothing changed exactly when some diff answered empty,
      and then no explanation is asked for. */
  lemma RestUnchanged(cfg: Config, w: World, run: RegisteredRun, files: map<string, string>, specExisted: bool)
    requires cfg.mode.OpenApi? ==> cfg.openapiSpec.Some?
    requires specExisted == (cfg.mode.OpenApi? && OnDisk(w.files, cfg.openapiSpec.value))
    ensures var s := SummarizeChanges(cfg, w, run, files, specExisted);
      && (s.end == Unchanged <==> DiffAnswered(w, s.events, ""))
      && (s.end == Unchanged ==> PhasesWithin(s.events, 3, 3))
  {
    var s := SummarizeChanges(cfg, w, run, files, specExisted);
    var detection := DetectChanges(cfg, w, specExisted);
    var d := detection.events;
    var n := |d|;
    assert DiffAnswered(w, d, "") <==> detection.diff == Ok("") by {
      DetectFacts(cfg, w, specExisted);
      if DiffAnswered(w, d, "") {
        var i :| 0 <= i < n && d[i].Diff? && w.gitDiff(d[i].args) == Ok("");
      }
      if detection.diff == Ok("") {
        assert d[n - 1].Diff?;
      }
    }
    if detection.diff.Ok? && |detection.diff.value| > 0 {
      var x := ExplainChanges(cfg, w, run, detection.diff.value, files);
      assert !x.end.Unchanged? && forall i :: 0 <= i < |x.events| ==> !x.events[i].Diff? by {
        ExplainShape(cfg, w, run, detection.diff.value, files);
      }
      assert s.events == d + x.events;
      DiffAnsweredSuffix(w, d, x.events, "");
    } else {
      assert s.events == d;
      assert PhasesWithin(d, 3, 3) by {
        DetectFacts(cfg, w, specExisted);
      }
    }
  }

  /** A summarized run ends with the explanation of the non-empty diff and
      its write, which is on disk. */
  lemma RestSummarized(cfg: Config, w: World, run: RegisteredRun, files: map<string, string>, specExisted: bool)
    requires cfg.mode.OpenApi? ==> cfg.openapiSpec.Some?
    requires specExisted == (cfg.mode.OpenApi? && OnDisk(w.files, cfg.openapiSpec.value))
    ensures var s := SummarizeChanges(cfg, w, run, files, specExisted);
      s.end == Summarized ==> Summary(cfg, w, run.runId, s.events, s.files)
  {
    var s := SummarizeChanges(cfg, w, run, files, specExisted);
    var detection := DetectChanges(cfg, w, specExisted);
    var d := detection.events;
    if detection.diff.Ok? && |detection.diff.value| > 0 {
      var diff := detection.diff.value;
      var x := ExplainChanges(cfg, w, run, diff, files);
      if x.end == Summarized {
        ExplainEffects(cfg, w, run, diff, files);
        assert d[|d| - 1].Diff? && w.gitDiff(d[|d| - 1].args) == detection.diff by {
          DetectFacts(cfg, w, specExisted);
        }
        assert s.events == d + x.events;
        assert s.events[|s.events| - 3] == d[|d| - 1];
      }
    }
  }

  /** After the loop the run ends with the error of the first call that
      fails, if any. */
  lemma RestStops(cfg: Config, w: World, run: RegisteredRun, files: map<string, string>, specExisted: bool)
    requires cfg.mode.OpenApi? ==> cfg.openapiSpec.Some?
    requires specExisted == (cfg.mode.OpenApi? && OnDisk(w.files, cfg.openapiSpec.value))
    ensures var s := SummarizeChanges(cfg, w, run, files, specExisted);
      StopsAt(cfg, w, files, s.events, EndError(s.end))
  {
    var s := SummarizeChanges(cfg, w, run, files, specExisted);
    var detection := DetectChanges(cfg, w, specExisted);
    DetectStops(cfg, w, specExisted, files);
    if detection.diff.Ok? && |detection.diff.value| > 0 {
      var x := ExplainChanges(cfg, w, run, detection.diff.value, files);
      ExplainStops(cfg, w, run, detection.diff.value, files);
      DetectFacts(cfg, w, specExisted);
      QuietFacts(cfg, w, detection.events, files);
      StopsAtConcat(cfg, w, files, detection.events, x.events, EndError(x.end));
    }
  }

  // The try block.


  /** The try block runs the loop, then change detection, then the
      explanation, never going back, and reports nothing itself. */
  lemma BodyShape(cfg: Config, w: World, run: RegisteredRun, diffs: seq<FileDiff>, specExisted: bool)
    requires cfg.mode.OpenApi? ==> cfg.openapiSpec.Some?
    requires specExisted == (cfg.mode.OpenApi? && OnDisk(w.files, cfg.openapiSpec.value))
    ensures var b := RunBody(cfg, w, run, diffs, specExisted);
      && PhasesOrdered(b.events) && PhasesWithin(b.events, 2, 4)
      && Sequenced(cfg, w, b.events) && GitFollowsMode(cfg, w, b.events)
      && (|b.events| > 0 ==> !b.events[0].Generate? && !b.events[0].WriteFile?)
      && CountMarkFailed(b.events) == 0
  {
    var b := RunBody(cfg, w, run, diffs, specExisted);
    var loop := ProcessFiles(cfg, w, run, diffs, w.files);
    var t := loop.events;
    LoopShape(cfg, w, run, diffs, w.files);
    LoopNoReport(t);
    LoopGit(cfg, w, t);
    if loop.failure.None? {
      var rest := SummarizeChanges(cfg, w, run, loop.files, specExisted).events;
      RestShape(cfg, w, run, loop.files, specExisted);
      assert b.events == t + rest;
      PhasesWiden(t, 2, 2, 2, 3);
      PhasesConcat(t, rest, 2, 3, 4);
      SequencedConcat(cfg, w, t, rest);
      GitConcat(cfg, w, t, rest);
      CountMarkFailedConcat(t, rest);
      if |t| > 0 {
        assert b.events[0] == t[0];
      } else {
        assert b.events[0] == rest[0];
      }
    } else {
      PhasesWiden(t, 2, 2, 2, 4);
    }
  }

  /** The try block leaves the disk exactly as its writes say, and when it
      does not raise it counts exactly the tokens its calls reported. */
  lemma BodyEffects(cfg: Config, w: World, run: RegisteredRun, diffs: seq<FileDiff>, specExisted: bool)
    requires cfg.mode.OpenApi? ==> cfg.openapiSpec.Some?
    requires specExisted == (cfg.mode.OpenApi? && OnDisk(w.files, cfg.openapiSpec.value))
    ensures var b := RunBody(cfg, w, run, diffs, specExisted);
      && b.files == Applied(w.files, b.events, w.readOnly)
      && (!b.end.Raised? ==> b.tokens == TokensOf(b.events, w))
  {
    var b := RunBody(cfg, w, run, diffs, specExisted);
    var loop := ProcessFiles(cfg, w, run, diffs, w.files);
    LoopEffects(cfg, w, run, diffs, w.files);
    if loop.failure.None? {
      var rest := SummarizeChanges(cfg, w, run, loop.files, specExisted);
      RestEffects(cfg, w, run, loop.files, specExisted);
      AppliedConcat(w.files, loop.events, rest.events, w.readOnly);
      TokensConcat(loop.events, rest.events, w);
    }
  }

  /** The try block makes the requests for the recognised entries in key
      order, each fitting its entry; once it reaches change detection it has
      made all of them, and it reaches it unless it raises. */
  lemma BodyRequests(cfg: Config, w: World, run: RegisteredRun, diffs: seq<FileDiff>, specExisted: bool)
    requires cfg.mode.OpenApi? ==> cfg.openapiSpec.Some?
    requires specExisted == (cfg.mode.OpenApi? && OnDisk(w.files, cfg.openapiSpec.value))
    ensures var b := RunBody(cfg, w, run, diffs, specExisted);
      && RequestsFollow(cfg, run.fileLanguages, diffs, Requests(b.events))
      && (Detected(b.events) ==> |Requests(b.events)| == |Recognized(diffs, run.fileLanguages)|)
      && (!b.end.Raised? ==> Detected(b.events))
  {
    var b := RunBody(cfg, w, run, diffs, specExisted);
    var loop := ProcessFiles(cfg, w, run, diffs, w.files);
    LoopRequests(cfg, w, run, diffs, w.files);
    LoopShape(cfg, w, run, diffs, w.files);
    if loop.failure.None? {
      var rest := SummarizeChanges(cfg, w, run, loop.files, specExisted).events;
      RestShape(cfg, w, run, loop.files, specExisted);
      RequestsConcat(loop.events, rest);
      assert b.events == loop.events + rest;
      assert b.events[|loop.events|] == rest[0];
    }
  }

  /** Each request of the try block carries the file's content as it is on
      disk when the request is made. */
  lemma BodySends(cfg: Config, w: World, run: RegisteredRun, diffs: seq<FileDiff>, specExisted: bool)
    requires cfg.mode.OpenApi? ==> cfg.openapiSpec.Some?
    requires specExisted == (cfg.mode.OpenApi? && OnDisk(w.files, cfg.openapiSpec.value))
    ensures SendsDiskContent(w, w.files, RunBody(cfg, w, run, diffs, specExisted).events)
  {
    var loop := ProcessFiles(cfg, w, run, diffs, w.files);
    LoopSends(cfg, w, run, diffs, w.files);
    if loop.failure.None? {
      var rest := SummarizeChanges(cfg, w, run, loop.files, specExisted).events;
      RestShape(cfg, w, run, loop.files, specExisted);
      NoRequestsSendNothing(w, loop.files, rest);
      LoopEffects(cfg, w, run, diffs, w.files);
      SendsDiskContentConcat(w, w.files, loop.events, rest);
    }
  }

  /** The try block ends unchanged exactly when some diff answered empty,
      and then asks for no explanation. */
  lemma BodyUnchanged(cfg: Config, w: World, run: RegisteredRun, diffs: seq<FileDiff>, specExisted: bool)
    requires cfg.mode.OpenApi? ==> cfg.openapiSpec.Some?
    requires specExisted == (cfg.mode.OpenApi? && OnDisk(w.files, cfg.openapiSpec.value))
    ensures var b := RunBody(cfg, w, run, diffs, specExisted);
      && (b.end == Unchanged <==> DiffAnswered(w, b.events, ""))
      && (b.end == Unchanged ==> PhasesWithin(b.events, 2, 3))
  {
    var b := RunBody(cfg, w, run, diffs, specExisted);
    var loop := ProcessFiles(cfg, w, run, diffs, w.files);
    LoopShape(cfg, w, run, diffs, w.files);
    assert forall i :: 0 <= i < |loop.events| ==> Phase(loop.events[i]) == 2;
    if loop.failure.None? {
      var s := SummarizeChanges(cfg, w, run, loop.files, specExisted);
      RestUnchanged(cfg, w, run, loop.files, specExisted);
      assert b.events == loop.events + s.events;
      DiffAnsweredConcat(w, loop.events, s.events, "");
      if s.end == Unchanged {
        PhasesConcat(loop.events, s.events, 0, 2, 3);
      }
    } else {
      DiffAnsweredConcat(w, loop.events, [], "");
    }
  }

  /** When the try block summarizes, the trace ends with the explanation of
      the non-empty diff and its write, which is on disk afterwards. */
  lemma BodySummarized(cfg: Config, w: World, run: RegisteredRun, diffs: seq<FileDiff>, specExisted: bool)
    requires cfg.mode.OpenApi? ==> cfg.openapiSpec.Some?
    requires specExisted == (cfg.mode.OpenApi? && OnDisk(w.files, cfg.openapiSpec.value))
    ensures var b := RunBody(cfg, w, run, diffs, specExisted);
      b.end == Summarized ==> Summary(cfg, w, run.runId, b.events, b.files)
  {
    var b := RunBody(cfg, w, run, diffs, specExisted);
    var loop := ProcessFiles(cfg, w, run, diffs, w.files);
    if loop.failure.None? {
      var s := SummarizeChanges(cfg, w, run, loop.files, specExisted);
      var rest := s.events;
      RestSummarized(cfg, w, run, loop.files, specExisted);
      assert b.events == loop.events + rest;
      if s.end == Summarized {
        var m := |b.events|;
        assert b.events[m - 1] == rest[|rest| - 1];
        assert b.events[m - 2] == rest[|rest| - 2];
        assert b.events[m - 3] == rest[|rest| - 3];
      }
    }
  }

  /** The try block ends with the error of the first call that fails, if
      any, and makes no call after it. */
  lemma BodyStops(cfg: Config, w: World, run: RegisteredRun, diffs: seq<FileDiff>, specExisted: bool)
    requires cfg.mode.OpenApi? ==> cfg.openapiSpec.Some?
    requires specExisted == (cfg.mode.OpenApi? && OnDisk(w.files, cfg.openapiSpec.value))
    ensures var b := RunBody(cfg, w, run, diffs, specExisted);
      StopsAt(cfg, w, w.files, b.events, EndError(b.end))
  {
    var b := RunBody(cfg, w, run, diffs, specExisted);
    var loop := ProcessFiles(cfg, w, run, diffs, w.files);
    LoopStops(cfg, w, run, diffs, w.files);
    if loop.failure.None? {
      var rest := SummarizeChanges(cfg, w, run, loop.files, specExisted);
      RestStops(cfg, w, run, loop.files, specExisted);
      LoopEffects(cfg, w, run, diffs, w.files);
      StopsAtConcat(cfg, w, w.files, loop.events, rest.events, EndError(rest.end));
    }
  }
}
