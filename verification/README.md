# generate-docs: diff partitioner and run orchestrator in Dafny

This project models the logic of `scripts/generate_docs.py` from RunLLM's
generate-docs GitHub action. That script splits a git diff into one text per
changed file. It then drives a documentation run against the RunLLM service:
- resolve the repository;
- register an Autodoc run;
- have every supported file documented and write the result back;
- ask git what changed;
- write the service's explanation of the change to `pr-body.txt`.

There are two parts.

**The partitioner** (`_partition_diff_by_file_name`) is the function
`DiffPartition.PartitionDiff`. It takes a sequence of lines and returns
either an ordered association list of `FileDiff(path, diff)` records or a
`DiffError`. The list stands in for the insertion-ordered `defaultdict(str)`.
- `Scan` runs the loop over a prefix of the lines.
- `PartitionLines` is the same loop written as a method.
- Python's `line.split(" b/")[1]` is modelled by a full `Text.Split`. Joining
  its pieces with the separator gives back the text, and no piece contains the
  separator.
- `PartitionProperties` gives reference descriptions of the result, stated
  line by line without the loop's cursor. The lemmas there tie the partitioner
  to them.
- `PartitionExamples` works the partitioner on the header lines git writes.

**The orchestrator** (`_get_or_create_repo_id` and `update_docs`) is the pure
function `Orchestrator.UpdateDocs`. Its outside world is a `Client.World`, a
scripted oracle that fixes the reply to every request. Any reply may be an
error. The oracle covers:
- the service's calls;
- the files on disk, and which paths cannot be written;
- `git add` and `git diff`;
- the `mark_failed` report.

A run yields a `RunResult` with five parts:
- the trace of `Event`s, meaning every call the run made, in order;
- the disk afterwards;
- the token total;
- the registered run, if there was one;
- a three-way `Outcome`.

The outcome is `NoChange` for the bare `return` at line 155, which yields
`None`. Otherwise it is `Completed(runId)` or `Failed(error)`.

The run is built from named stages:
- `Register`: the repository and the run registration;
- `ProcessFiles`: the loop over the files;
- `DetectChanges`: git;
- `ExplainChanges`;
- `Conclude`: what follows the `try` block.

The `Traces` module holds the vocabulary for reading a trace:
- `Phase`: which step of the run an event belongs to;
- `Requests`, `TokensOf` and `CountMarkFailed`;
- `Applied`: the disk the writes leave;
- `Sequenced` and `GitFollowsMode`: where each call may stand;
- `CallError`: the error a call raises, read from the oracle and the disk at
  the moment of the call. `StopsAt` says that every call of a stretch succeeds
  except possibly the last, which raises the stretch's error. `FirstFailure`
  is the error of the first call that fails;
- `SendsDiskContent`: each generation request carries the file's content as
  the disk holds it at that moment.

`LoopProperties`, `BodyProperties` and `RunProperties` prove what the run does,
stage by stage and then as a whole.

Four points where the model is more explicit than the Python:
- A failed `mark_failed` is raised from inside the `except` block. It replaces
  the error that was being reported: Python raises the report's own error. The
  model does the same (`Conclude`). This follows the code, not a reading under
  which the original error would take priority.
- In OpenAPI mode without a spec path, `os.path.exists(None)` raises before any
  call to the service. The model reports this as `SpecPathMissing`.
- `os.path.exists("")` is false, and `open("")` finds no file.
  `Orchestrator.OnDisk` therefore treats the empty path as naming no file. An
  empty spec path takes the `git add` branch, whatever the disk holds.
- Each `DiffError` carries the index of the offending line. The Python
  exceptions do not; the index only locates the error.

## Model

| member | source | states |
|---|---|---|
| Text.Find | scripts/generate_docs.py:38 | The result is the leftmost occurrence of the separator: it occurs there, nowhere before, and there is none exactly when the text does not contain it |
| Text.Split | scripts/generate_docs.py:38 | `split` gives at least one piece, and more than one exactly when the text contains the separator |
| Text.SplitJoin | scripts/generate_docs.py:38 | Joining the pieces of a split with the separator gives back the original text: split loses nothing |
| Text.SplitPiecesClean | scripts/generate_docs.py:38 | No piece of a split contains the separator, so the second piece ends before the next " b/" |
| DiffPartition.HeaderPath | scripts/generate_docs.py:37-38 | A header yields a path exactly when it contains " b/" (otherwise `[1]` raises IndexError), and that path holds no further " b/" |
| DiffPartition.HeaderPathLocation | scripts/generate_docs.py:37-38 | The path `split(" b/")[1]` is the text after the first " b/" up to the next " b/", or to the end of the line when there is none |
| DiffPartition.Append | scripts/generate_docs.py:41 | `+=` on the defaultdict keeps the existing keys in order and adds a new key only at the end; it extends only the named key's text, with the missing key reading as ""; the total size grows by the appended length |
| DiffPartition.AppendDistinct | scripts/generate_docs.py:28-41 | Appending keeps the keys distinct, so the association list stays a dictionary |
| DiffPartition.StepDistinct | scripts/generate_docs.py:33-41 | One loop iteration that does not raise keeps the keys distinct |
| DiffPartition.Scan | scripts/generate_docs.py:32-41 | The cursor is unset exactly for empty input; once set it is never the empty path; the keys are distinct; an error names a line of the input |
| DiffPartition.PartitionDiff | scripts/generate_docs.py:26-43 | Empty input gives an empty dictionary; a first line that is not a `diff --git` header raises the malformed-diff error; the keys are distinct; an error names a line of the input |
| DiffPartition.ScanErrorPersists | scripts/generate_docs.py:33-35 | Once the loop raises on a prefix, more lines do not change the error it raises |
| DiffPartition.FirstLineChecked | scripts/generate_docs.py:34-35 | A first line that is not a header raises the malformed-diff error for line 0, whatever follows |
| DiffPartition.PartitionLines | scripts/generate_docs.py:26-43 | The one-pass loop that returns at the first error computes the same result as the prefix-recursive definition |
| PartitionProperties.FirstAppearances | scripts/generate_docs.py:41 | The reference key list holds exactly the elements of its input, each once |
| PartitionProperties.FirstAppearancesOrdered | scripts/generate_docs.py:41 | The reference key list orders its elements by where they first occur |
| PartitionProperties.StepDefect | scripts/generate_docs.py:34-40 | After the earlier lines went through, the last line raises exactly when it is defective on its own, and raises that defect |
| PartitionProperties.PartitionFailsAtFirstDefect | scripts/generate_docs.py:33-40 | Partitioning succeeds if and only if no line is defective. A defective line is one of three: a first line that is not a header, a header without " b/", or a header naming an empty path. On failure the error is the defect of the first defective line |
| PartitionProperties.ScanCursor | scripts/generate_docs.py:32-38 | The cursor is the path of the last header seen, and that path is a key |
| PartitionProperties.PartitionPathsInFirstAppearanceOrder | scripts/generate_docs.py:28-41 | The keys are the paths named by the headers, without repetition, in order of first appearance |
| PartitionProperties.PartitionContents | scripts/generate_docs.py:33-41 | Each path's text is exactly the lines from a header naming it up to the next header, each followed by a newline, in input order; every other path reads as "" |
| PartitionProperties.PartitionSize | scripts/generate_docs.py:41 | The texts hold the sum of `len(line) + 1` over the input: nothing is lost or duplicated |
| PartitionProperties.AppendNewPath | scripts/generate_docs.py:41 | Appending under a path not yet present adds one entry at the end |
| PartitionProperties.AppendToLastEntry | scripts/generate_docs.py:41 | Appending under the last key extends the concatenation of the texts at its end |
| PartitionProperties.RevisitContinues | scripts/generate_docs.py:37-41 | When each file's lines are contiguous, a line whose path already has an entry continues the cursor's block |
| PartitionProperties.ScanLastEntry | scripts/generate_docs.py:37-41 | When each file's lines are contiguous, the cursor always names the last entry |
| PartitionProperties.ScanBlocks | scripts/generate_docs.py:33-41 | When each file's lines are contiguous, concatenating the loop's texts in key order gives back every line followed by a newline |
| PartitionProperties.PartitionReassembles | scripts/generate_docs.py:26-43 | A diff with no defective line, made of contiguous per-file blocks, is partitioned without error, and concatenating the values in key order reproduces the input joined with "\n", plus a final newline |
| PartitionExamples.GitHeaderMarker | scripts/generate_docs.py:38 | In a git header `diff --git a/p b/p`, the first " b/" is the one git put before the second copy of `p` |
| PartitionExamples.GitHeaderPath | scripts/generate_docs.py:37-38 | A path without " b/" in it is read back from its own git header |
| PartitionExamples.AppendTwice | scripts/generate_docs.py:41 | Two appends under one path equal one append of the joined text |
| PartitionExamples.ExtendBlock | scripts/generate_docs.py:37-41 | A line that is not a header extends the current path's text |
| PartitionExamples.ScanHeader | scripts/generate_docs.py:37-41 | A header naming `p` moves the cursor to `p` and starts or extends `p`'s entry with the header line |
| PartitionExamples.ScanBlock | scripts/generate_docs.py:33-41 | A header naming `p`, followed only by lines that are not headers, puts the whole block under `p` |
| PartitionExamples.SingleFile | scripts/generate_docs.py:26-43 | One file's block becomes a single entry holding the whole input |
| PartitionExamples.TwoFiles | scripts/generate_docs.py:26-43 | Two blocks for different paths become two entries, in input order, each holding its own block |
| PartitionExamples.RevisitMerges | scripts/generate_docs.py:26-43 | A path that returns after another file's block keeps its first position, and its later block is appended to its earlier one |
| PartitionExamples.OneFileScenario | scripts/generate_docs.py:26-43 | A concrete one-file diff gives one entry holding all four lines |
| PartitionExamples.TwoFileScenario | scripts/generate_docs.py:26-43 | A concrete two-file diff gives two entries, one two-line block each |
| Orchestrator.FirstNamed | scripts/generate_docs.py:55-57 | The index found is that of the first repository with exactly the name, and none is found exactly when no repository has the name |
| Orchestrator.ResolveRepository | scripts/generate_docs.py:46-60 | Covers every path of repository resolution. Without a name the assert fails before any call. A failed listing raises its error. If a repository has the name, the result is the id of the first one, with no creation call. Otherwise the repository is created under that name, and the result is its id or its error |
| LoopProperties.FileCalls | scripts/generate_docs.py:114-141 | Covers every path of one loop iteration. An unrecognised path makes no call. A missing file is read and raises `FileNotFound` for its path. A failed generation raises the service's error. A missing spec target raises the failed assert after tokens were counted. A write to a read-only target is attempted and raises `PermissionDenied` for that target. The write goes to the file itself in inline mode and to the spec in OpenAPI mode |
| LoopProperties.FileStops | scripts/generate_docs.py:114-141 | One iteration raises the error of the call in it that fails, and every call before that one succeeds |
| LoopProperties.FileShape | scripts/generate_docs.py:120-141 | One iteration stays in the file step, starts with the read, and each generation and write in it stands where it belongs |
| LoopProperties.FileEffects | scripts/generate_docs.py:129-141 | One iteration changes the disk only by its write, and counts exactly the tokens its generation reported |
| LoopProperties.FileRequests | scripts/generate_docs.py:114-127 | An unrecognised path gets no request. A recognised one gets at most one request, fitting its entry: same path and mode, the service's language, and the diff only in inline mode. It gets that request unless an error stops the iteration. The request carries the file's content as it is on disk |
| LoopProperties.LoopShape | scripts/generate_docs.py:114-141 | The loop stays in the file step, and every generation and write in it stands where it belongs |
| LoopProperties.LoopEffects | scripts/generate_docs.py:114-141 | The loop leaves the disk exactly as its writes say, and counts exactly the tokens its calls reported |
| LoopProperties.LoopRequests | scripts/generate_docs.py:114-127 | The requests are those for a prefix of the recognised entries, in key order, each fitting its entry and carrying the file's content as it is on disk at that moment; without an error, all of them |
| LoopProperties.LoopSends | scripts/generate_docs.py:114-127 | Each request of the loop carries the file's content as it is on disk when the request is made, after the writes of the earlier iterations |
| LoopProperties.LoopStops | scripts/generate_docs.py:114-141 | The loop raises the error of the first call that fails, makes no call after it, and every call before it succeeds |
| BodyProperties.DetectFacts | scripts/generate_docs.py:145-151 | Change detection makes one or two git calls, as the mode demands; the diff it returns is the reply to its last call, which is its only diff. When `git add` fails, it is the only call and detection raises its error |
| BodyProperties.DetectStops | scripts/generate_docs.py:145-151 | Change detection raises the error of the git call that fails, if any, and every call before it succeeds |
| BodyProperties.ExplainShape | scripts/generate_docs.py:157-160 | The explanation step first asks for the explanation of the diff in the run's mode, then at most writes the summary. It makes no request, git call or report, and never ends unchanged |
| BodyProperties.ExplainEffects | scripts/generate_docs.py:157-162 | The explanation step changes the disk only by its write and counts its tokens. When it succeeds, the summary file holds the explanation. A failed explanation is the only call and raises the service's error; a read-only summary file raises `PermissionDenied` for `pr-body.txt` after the write is attempted |
| BodyProperties.ExplainStops | scripts/generate_docs.py:157-160 | The explanation step raises the error of the call that fails, if any, and every call before it succeeds |
| BodyProperties.RestShape | scripts/generate_docs.py:143-162 | After the loop, git calls come first, then at most the explanation; nothing is requested or reported |
| BodyProperties.RestEffects | scripts/generate_docs.py:143-162 | After the loop the disk changes only by the summary write, and the tokens are those the calls reported |
| BodyProperties.RestUnchanged | scripts/generate_docs.py:153-155 | After the loop, nothing changed exactly when a diff answered empty, and then no explanation is asked for |
| BodyProperties.RestStops | scripts/generate_docs.py:143-162 | After the loop the run raises the error of the first call that fails, if any, and makes no call after it |
| BodyProperties.RestSummarized | scripts/generate_docs.py:157-160 | A summarized run ends with the explanation of the non-empty diff and its write, which is on disk |
| BodyProperties.BodyShape | scripts/generate_docs.py:112-162 | The try block runs the loop, then git, then the explanation, never going back, and reports nothing itself |
| BodyProperties.BodyEffects | scripts/generate_docs.py:112-162 | The try block leaves the disk exactly as its writes say, and a block that does not raise counts exactly the reported tokens |
| BodyProperties.BodyRequests | scripts/generate_docs.py:112-151 | The try block requests the recognised entries in key order. It reaches git only after requesting all of them, and it reaches git unless it raises |
| BodyProperties.BodySends | scripts/generate_docs.py:114-127 | Each request of the try block carries the file's content as it is on disk when the request is made |
| BodyProperties.BodyStops | scripts/generate_docs.py:112-162 | The try block raises the error of the first call that fails, if any, and makes no call after it |
| BodyProperties.BodyUnchanged | scripts/generate_docs.py:143-155 | The try block ends unchanged exactly when a diff answered empty, and then stops at git |
| BodyProperties.BodySummarized | scripts/generate_docs.py:143-162 | A summarizing try block ends with the explanation of the non-empty diff and its write |
| RunProperties.RegisterShape | scripts/generate_docs.py:105-108 | Resolution and registration make only repository and registration calls, in order |
| RunProperties.RegisterQuiet | scripts/generate_docs.py:105-108 | Resolution and registration request no generation, count no tokens, report nothing, write nothing and ask git nothing |
| RunProperties.RegisterCalls | scripts/generate_docs.py:105-108 | The registration call submits every changed path, in key order, for the resolved repository; the registered run is the service's reply |
| RunProperties.RegisterStops | scripts/generate_docs.py:105-108 | Registration raises the error of the call that fails, if any. It fails before any call only without a repository name, with the failed assert |
| RunProperties.ConcludeShape | scripts/generate_docs.py:165-170 | After the try block the run makes exactly one failure report if the block raised and none otherwise, and nothing else |
| RunProperties.ConcludeOutcome | scripts/generate_docs.py:153-170 | Covers every ending. A run with no change returns nothing. A summarized run returns its id. A raising run reports `str(e)` and re-raises `e`, unless the report fails, in which case the report's error is raised |
| RunProperties.FailureReportedOnce | scripts/generate_docs.py:105-167 | A run is reported failed exactly once when it fails after registration, and never otherwise. The report is its last call, for the registered run, with the message of the raised error. A run that fails before registration is not reported |
| RunProperties.UnregisteredRunTouchesNothing | scripts/generate_docs.py:101-108 | Without a repository name, or in OpenAPI mode without a spec path, the run fails before any call. A run that is never registered writes nothing and counts no tokens. It raises the error of the repository resolution or, if that succeeded, of the registration call |
| RunProperties.FailureIsFirstFailingCall | scripts/generate_docs.py:101-170 | A run that does not fail made only calls that succeed. An unregistered run stops at its failing call, or fails before any call on its configuration. A registered run that fails makes calls up to the first failing one, then reports that failure's `str(e)` as its last call. It raises that failure again, or the report's error if the report fails |
| RunProperties.RegistrationSubmitsChangedPaths | scripts/generate_docs.py:105-109 | Every registration call in the whole trace submits all changed paths, in key order, with the action URL, for the resolved repository; the run used afterwards is the reply |
| RunProperties.PhasesInOrder | scripts/generate_docs.py:101-170 | The run never returns to an earlier step: repository, registration, files, git, explanation, failure report |
| RunProperties.RequestsFollowRecognizedKeys | scripts/generate_docs.py:114-127 | The generation requests are those for a prefix of the recognised entries in key order, each fitting its entry and carrying the file's content as it is on disk at that moment; an unregistered run makes none |
| RunProperties.RunSends | scripts/generate_docs.py:114-127 | Each request of a run carries the file's content as it is on disk when the request is made: the original content unless an earlier write of the run replaced it |
| RunProperties.AllRequestsBeforeGit | scripts/generate_docs.py:114-146 | A run that reached git has requested every recognised entry |
| RunProperties.WritesFollowGeneration | scripts/generate_docs.py:120-141 | Each generation directly follows the read of its file. Each loop write directly follows the successful generation whose content it writes, to the file in inline mode and to the spec in OpenAPI mode |
| RunProperties.DiskReflectsWrites | scripts/generate_docs.py:135-167 | The disk after the run is the disk before it with every writable write applied in order; a failure undoes nothing |
| RunProperties.GitCallsFollowMode | scripts/generate_docs.py:101-151 | Inline mode, or a spec that existed before the run, gives a plain `git diff`. Otherwise the spec is added to the index, and only after that succeeds is the index diffed, limited to the spec path when it is not empty |
| RunProperties.NoChangeIffEmptyDiff | scripts/generate_docs.py:153-155 | The run returns nothing if and only if a git diff answered empty |
| RunProperties.NoChangeStopsAtGit | scripts/generate_docs.py:153-155 | A run that returns nothing asks for no explanation, writes no summary and reports nothing |
| RunProperties.CompletedWritesSummary | scripts/generate_docs.py:157-170 | A completed run returns the registered id. It ends with the explanation, in the run's mode, of the non-empty diff git answered, then the write of that explanation to `pr-body.txt`, which holds it afterwards |
| RunProperties.TokensCounted | scripts/generate_docs.py:111-162 | A run that does not fail counts exactly the tokens its generation and explanation calls reported |

## Left out

- HTTP plumbing of `scripts/client.py` (`requests`, `pydantic` parsing, `urlencode`, headers): every service call is an oracle reply that is either a response record or an error standing for `_check_for_error`'s exception.
- `_git_diff` and `_git_add` as subprocesses: their output and failures are oracle replies; only the arguments (`--cached`, the path appended when non-empty) are modelled.
- `calculate_cost` and `COST_PER_1K_TOKEN`: floating-point arithmetic that feeds only printed diagnostics; token totals are integers.
- All `print` diagnostics, including the skip message for unsupported files.
- The command-line driver (argparse, environment variables, reading the diff file, the `line.strip()` preprocessing, the narrowing to one file in OpenAPI mode, the "only openapi" guard, the `GITHUB_ENV` append): the run's inputs are the `Config` and the partitioned diff.
- `scripts/mark_run_completed.py` and `mark_completed`: never called by `update_docs`. The trace has no event for them, so no run can contain one.
- `language_extensions`: unused by the code.
- Repository timestamps (`created_at`, `updated_at`): never read.
- Client.Message: the texts reported for file and `os.path.exists` errors are those CPython prints for a plain path; the repr quoting of unusual paths is not modelled.
- Exceptions outside the modelled error set (a non-string reply body, a network timeout, a `read` error other than a missing file) are not distinguished: each would be one more oracle error.
