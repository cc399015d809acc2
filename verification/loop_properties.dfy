/** The loop of `update_docs` over the changed files, read from its trace. */
module LoopProperties {
  import opened Results
  import opened Client
  import opened DiffPartition
  import opened Orchestrator
  import opened Traces

  /** The calls of one iteration of the loop: none for a path the service
      did not recognise; otherwise the read of the file, then, if it exists,
      the generation request, then, if that succeeded and there is a target,
      the write. */
  lemma FileCalls(cfg: Config, w: World, run: RegisteredRun, entry: FileDiff, files: map<string, string>)
    ensures var q := ProcessFile(cfg, w, run, entry, files);
      var path := entry.path;
      var request := GenerateRequest(
        path, cfg.mode, if OnDisk(files, path) then files[path] else "", if path in run.fileLanguages then run.fileLanguages[path] else "",
        if cfg.mode.Inline? then Some(entry.diff) else None);
      && (path !in run.fileLanguages ==> q.events == [] && q.failure.None? && q.files == files && q.tokens == 0)
      && (path in run.fileLanguages && !OnDisk(files, path) ==>
            q.events == [ReadFile(path)] && q.failure == Some(FileNotFound(path)) && q.files == files && q.tokens == 0)
      && (path in run.fileLanguages && OnDisk(files, path) && w.generate(run.runId, request).Err? ==>
            && q.events == [ReadFile(path), Generate(run.runId, request)]
            && q.failure == Some(w.generate(run.runId, request).error)
            && q.files == files && q.tokens == 0)
      && (path in run.fileLanguages && OnDisk(files, path) && w.generate(run.runId, request).Ok? ==>
            var doc := w.generate(run.runId, request).value;
            && q.tokens == doc.tokensUsed
            && (WriteTarget(cfg, path).None? ==>
                  q.events == [ReadFile(path), Generate(run.runId, request)] && q.failure == Some(AssertionFailed) && q.files == files)
            && (WriteTarget(cfg, path).Some? ==>
                  var write := WriteFile(WriteTarget(cfg, path).value, doc.documentedContent);
                  && q.events == [ReadFile(path), Generate(run.runId, request), write]
                  && q.files == ApplyEvent(files, w.readOnly, write)
                  && var target := WriteTarget(cfg, path).value;
                  && q.failure == (if target in w.readOnly then Some(PermissionDenied(target)) else None)))
  {
  }

  /** One iteration stays in the file step, starts with the read of the
      file, and each generation and write in it is where it belongs. */
  lemma FileShape(cfg: Config, w: World, run: RegisteredRun, entry: FileDiff, files: map<string, string>)
    ensures var q := ProcessFile(cfg, w, run, entry, files);
      && PhasesOrdered(q.events) && PhasesWithin(q.events, 2, 2)
      && Sequenced(cfg, w, q.events)
      && (|q.events| > 0 ==> q.events[0].ReadFile?)
  {
    var q := ProcessFile(cfg, w, run, entry, files);
    FileCalls(cfg, w, run, entry, files);
    if |q.events| >= 2 {
      assert WellPlaced(cfg, w, q.events, 1);
    }
    if |q.events| == 3 {
      assert WellPlaced(cfg, w, q.events, 2);
    }
  }

  /** One iteration leaves the disk and the token count as its calls say. */
  lemma FileEffects(cfg: Config, w: World, run: RegisteredRun, entry: FileDiff, files: map<string, string>)
    ensures var q := ProcessFile(cfg, w, run, entry, files);
      && q.files == Applied(files, q.events, w.readOnly)
      && q.tokens == TokensOf(q.events, w)
  {
    var q := ProcessFile(cfg, w, run, entry, files);
    FileCalls(cfg, w, run, entry, files);
    var t := q.events;
    if |t| == 1 {
      assert t[1..] == [];
    } else if |t| == 2 {
      assert t[1..] == [t[1]] && t[1..][1..] == [];
      assert TokensOf(t, w) == EventTokens(t[1], w) + TokensOf([], w);
      assert Applied(files, t, w.readOnly) == Applied(files, [], w.readOnly);
    } else if |t| == 3 {
      assert t[1..] == [t[1], t[2]] && t[1..][1..] == [t[2]] && t[1..][1..][1..] == [];
      assert TokensOf(t, w) == EventTokens(t[1], w) + TokensOf([t[2]], w);
      assert TokensOf([t[2]], w) == 0 + TokensOf([], w);
      assert Applied(files, t, w.readOnly) == Applied(files, [t[2]], w.readOnly);
      assert Applied(files, [t[2]], w.readOnly) == Applied(ApplyEvent(files, w.readOnly, t[2]), [], w.readOnly);
    }
  }

  /** A recognised path gets at most the one request that fits its entry,
      and gets it unless an error stops the iteration. */
  lemma FileRequests(cfg: Config, w: World, run: RegisteredRun, entry: FileDiff, files: map<string, string>)
    ensures var q := ProcessFile(cfg, w, run, entry, files);
      && (entry.path !in run.fileLanguages ==> q.events == [] && q.failure.None?)
      && (entry.path in run.fileLanguages ==>
            && |Requests(q.events)| <= 1
            && (|Requests(q.events)| == 1 ==> Fits(cfg, run.fileLanguages, entry, Requests(q.events)[0]))
            && (q.failure.None? ==> |Requests(q.events)| == 1))
      && SendsDiskContent(w, files, q.events)
  {
    var q := ProcessFile(cfg, w, run, entry, files);
    FileCalls(cfg, w, run, entry, files);
    var t := q.events;
    if |t| == 1 {
      assert t[1..] == [];
    } else if |t| == 2 {
      assert t[1..] == [t[1]] && t[1..][1..] == [];
      assert Requests(t) == [t[1].request] + Requests([]);
      assert SendsDiskContent(w, files, t[1..]);
    } else if |t| == 3 {
      assert t[1..] == [t[1], t[2]] && t[1..][1..] == [t[2]] && t[1..][1..][1..] == [];
      assert Requests(t) == [t[1].request] + Requests([t[2]]);
      assert Requests([t[2]]) == [] + Requests([]);
      assert SendsDiskContent(w, files, [t[2]]);
      assert SendsDiskContent(w, files, t[1..]);
    }
  }

  /** One iteration ends with the error of the call in it that fails, and
      every call before that one succeeds. */
  lemma FileStops(cfg: Config, w: World, run: RegisteredRun, entry: FileDiff, files: map<string, string>)
    ensures var q := ProcessFile(cfg, w, run, entry, files);
      StopsAt(cfg, w, files, q.events, q.failure)
  {
    var q := ProcessFile(cfg, w, run, entry, files);
    FileCalls(cfg, w, run, entry, files);
    var t := q.events;
    if |t| == 2 {
      assert t[1..] == [t[1]] && t[1..][1..] == [];
      assert StopsAt(cfg, w, files, t[1..], q.failure);
    } else if |t| == 3 {
      assert t[1..] == [t[1], t[2]] && t[1..][1..] == [t[2]] && t[1..][1..][1..] == [];
      assert StopsAt(cfg, w, files, [t[2]], q.failure);
      assert StopsAt(cfg, w, files, t[1..], q.failure);
    }
  }

  /** The loop over the changed files stays in the file step, and each
      generation and write in it is where it belongs. */
  lemma {:induction false} LoopShape(cfg: Config, w: World, run: RegisteredRun, entries: seq<FileDiff>, files: map<string, string>)
    decreases |entries|
    ensures var p := ProcessFiles(cfg, w, run, entries, files);
      && PhasesOrdered(p.events) && PhasesWithin(p.events, 2, 2)
      && Sequenced(cfg, w, p.events)
      && (|p.events| > 0 ==> p.events[0].ReadFile?)
  {
    if |entries| > 0 {
      var first := ProcessFile(cfg, w, run, entries[0], files);
      FileShape(cfg, w, run, entries[0], files);
      if first.failure.None? {
        var rest := ProcessFiles(cfg, w, run, entries[1..], first.files);
        LoopShape(cfg, w, run, entries[1..], first.files);
        SequencedConcat(cfg, w, first.events, rest.events);
        PhasesConcat(first.events, rest.events, 2, 2, 2);
        if |first.events| > 0 {
          assert (first.events + rest.events)[0] == first.events[0];
        }
      }
    }
  }

  /** The loop leaves the disk and the token count exactly as its calls say. */
  lemma {:induction false} LoopEffects(cfg: Config, w: World, run: RegisteredRun, entries: seq<FileDiff>, files: map<string, string>)
    decreases |entries|
    ensures var p := ProcessFiles(cfg, w, run, entries, files);
      && p.files == Applied(files, p.events, w.readOnly)
      && p.tokens == TokensOf(p.events, w)
  {
    if |entries| > 0 {
      var first := ProcessFile(cfg, w, run, entries[0], files);
      FileEffects(cfg, w, run, entries[0], files);
      if first.failure.None? {
        var rest := ProcessFiles(cfg, w, run, entries[1..], first.files);
        LoopEffects(cfg, w, run, entries[1..], first.files);
        TokensConcat(first.events, rest.events, w);
        AppliedConcat(files, first.events, rest.events, w.readOnly);
      }
    }
  }

  /** The requests of one iteration followed by those of the rest of the
      loop follow the whole list of entries. */
  lemma RequestsFollowCons(cfg: Config, langs: map<string, string>, entries: seq<FileDiff>,
                           head: seq<GenerateRequest>, tail: seq<GenerateRequest>)
    requires |entries| > 0
    requires entries[0].path !in langs ==> head == []
    requires entries[0].path in langs ==> |head| == 1 && Fits(cfg, langs, entries[0], head[0])
    requires RequestsFollow(cfg, langs, entries[1..], tail)
    ensures RequestsFollow(cfg, langs, entries, head + tail)
  {
    var rec := Recognized(entries, langs);
    var recRest := Recognized(entries[1..], langs);
    var reqs := head + tail;
    assert rec == (if entries[0].path in langs then [entries[0]] else []) + recRest;
    forall k | 0 <= k < |reqs|
      ensures Fits(cfg, langs, rec[k], reqs[k])
    {
      if k >= |head| {
        assert reqs[k] == tail[k - |head|] && rec[k] == recRest[k - |head|];
      }
    }
  }

  /** The loop makes the requests for the recognised entries in key order,
      each fitting its entry and carrying the file's content as it is on
      disk when the request is made, and all of them unless an error stops
      it. */
  lemma {:induction false} LoopRequests(cfg: Config, w: World, run: RegisteredRun, entries: seq<FileDiff>, files: map<string, string>)
    decreases |entries|
    ensures var p := ProcessFiles(cfg, w, run, entries, files);
      && RequestsFollow(cfg, run.fileLanguages, entries, Requests(p.events))
      && (p.failure.None? ==> |Requests(p.events)| == |Recognized(entries, run.fileLanguages)|)
      && SendsDiskContent(w, files, p.events)
  {
    LoopSends(cfg, w, run, entries, files);
    if |entries| > 0 {
      var langs := run.fileLanguages;
      var first := ProcessFile(cfg, w, run, entries[0], files);
      FileRequests(cfg, w, run, entries[0], files);
      assert Recognized(entries, langs)
             == (if entries[0].path in langs then [entries[0]] else []) + Recognized(entries[1..], langs);
      if first.failure.None? {
        var rest := ProcessFiles(cfg, w, run, entries[1..], first.files);
        LoopRequests(cfg, w, run, entries[1..], first.files);
        RequestsConcat(first.events, rest.events);
        RequestsFollowCons(cfg, langs, entries, Requests(first.events), Requests(rest.events));
      }
    }
  }

  /** The loop ends with the error of the first call in it that fails, and
      makes no call after it. */
  lemma {:induction false} LoopStops(cfg: Config, w: World, run: RegisteredRun, entries: seq<FileDiff>, files: map<string, string>)
    decreases |entries|
    ensures var p := ProcessFiles(cfg, w, run, entries, files);
      StopsAt(cfg, w, files, p.events, p.failure)
  {
    if |entries| > 0 {
      var first := ProcessFile(cfg, w, run, entries[0], files);
      FileStops(cfg, w, run, entries[0], files);
      if first.failure.None? {
        var rest := ProcessFiles(cfg, w, run, entries[1..], first.files);
        LoopStops(cfg, w, run, entries[1..], first.files);
        FileEffects(cfg, w, run, entries[0], files);
        StopsAtConcat(cfg, w, files, first.events, rest.events, rest.failure);
      }
    }
  }

  /** Each request of the loop carries the file's content as it is on disk
      when the request is made, after the writes of the earlier iterations. */
  lemma {:induction false} LoopSends(cfg: Config, w: World, run: RegisteredRun, entries: seq<FileDiff>, files: map<string, string>)
    decreases |entries|
    ensures SendsDiskContent(w, files, ProcessFiles(cfg, w, run, entries, files).events)
  {
    if |entries| > 0 {
      var first := ProcessFile(cfg, w, run, entries[0], files);
      FileRequests(cfg, w, run, entries[0], files);
      if first.failure.None? {
        var rest := ProcessFiles(cfg, w, run, entries[1..], first.files);
        LoopSends(cfg, w, run, entries[1..], first.files);
        FileEffects(cfg, w, run, entries[0], files);
        SendsDiskContentConcat(w, files, first.events, rest.events);
      }
    }
  }
}
