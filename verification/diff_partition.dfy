/** The diff partitioner of `scripts/generate_docs.py`
    (`_partition_diff_by_file_name`): it cuts the lines of a unified diff into
    one text per file, keyed by the path that follows the first " b/" of each
    `diff --git` header line. The Python dictionary is a `defaultdict(str)`
    whose keys keep first-insertion order; here it is an association list of
    `FileDiff` records with distinct paths. */
module DiffPartition {
  import opened Results
  import opened Text

  /** A line starting with this text opens a new file's block. */
  const HeaderPrefix := "diff --git"

  /** The path of a header line is the text after the first occurrence of this marker. */
  const PathMarker := " b/"

  /** One file's share of the diff: its path and the lines that belong to it,
      each followed by a newline, in their original order. */
  datatype FileDiff = FileDiff(path: string, diff: string)

  /** The three ways the Python function raises, with the 0-based index of the
      offending line: a line before the first header (the explicit
      "Malformed git diff file" exception), a header without " b/" (the
      IndexError of `split(" b/")[1]`), and a header naming an empty path
      (the failed `assert curr_file_path`). */
  datatype DiffError =
    | MalformedDiff(line: nat)
    | MissingPathMarker(line: nat)
    | EmptyPath(line: nat)

  predicate IsHeader(line: string) {
    StartsWith(line, HeaderPrefix)
  }

  /** `line.split(" b/")[1]`, or None where Python raises IndexError. */
  function HeaderPath(line: string): (r: Option<string>)
    ensures r.Some? <==> Contains(line, PathMarker)
    ensures r.Some? ==> !Contains(r.value, PathMarker)
  {
    var parts := Split(line, PathMarker);
    SplitPiecesClean(line, PathMarker);
    if |parts| < 2 then None else Some(parts[1])
  }

  /** Where the path sits in a header: it starts right after the first
      " b/" and runs up to the next " b/", or to the end of the line. */
  lemma HeaderPathLocation(line: string)
    requires Contains(line, PathMarker)
    ensures var i := Find(line, PathMarker).value;
            var rest := line[i + |PathMarker|..];
            HeaderPath(line) == Some(match Find(rest, PathMarker)
                                     case None => rest
                                     case Some(j) => rest[..j])
  {
    var i := Find(line, PathMarker).value;
    SplitUnfold(line, PathMarker);
    SplitUnfold(line[i + |PathMarker|..], PathMarker);
  }

  /** The keys of an association list, in order. */
  function Paths(p: seq<FileDiff>): (r: seq<string>)
    ensures |r| == |p|
    ensures forall i :: 0 <= i < |p| ==> r[i] == p[i].path
  {
    if p == [] then [] else [p[0].path] + Paths(p[1..])
  }

  /** No path occurs twice: the list is a dictionary. */
  predicate DistinctPaths(p: seq<FileDiff>) {
    forall i, j :: 0 <= i < j < |p| ==> p[i].path != p[j].path
  }

  /** Reading `diff_by_file[path]` of a `defaultdict(str)`: the entry's text,
      or "" when the path has none. */
  function DiffOf(p: seq<FileDiff>, path: string): string
  {
    if p == [] then ""
    else if p[0].path == path then p[0].diff
    else DiffOf(p[1..], path)
  }

  /** The number of characters held by all entries together. */
  function TotalSize(p: seq<FileDiff>): nat
  {
    if p == [] then 0 else |p[0].diff| + TotalSize(p[1..])
  }

  /** The entries' texts concatenated in key order. */
  function Concat(p: seq<FileDiff>): string
  {
    if p == [] then "" else p[0].diff + Concat(p[1..])
  }

  /** `diff_by_file[path] += text`: extends the path's entry in place, or adds
      a new entry at the end when the path has none yet. */
  function Append(p: seq<FileDiff>, path: string, text: string): (r: seq<FileDiff>)
    ensures Paths(r) == if path in Paths(p) then Paths(p) else Paths(p) + [path]
    ensures forall q :: DiffOf(r, q) == if q == path then DiffOf(p, q) + text else DiffOf(p, q)
    ensures TotalSize(r) == TotalSize(p) + |text|
  {
    if p == [] then [FileDiff(path, text)]
    else if p[0].path == path then
      var r := [FileDiff(path, p[0].diff + text)] + p[1..];
      assert r[1..] == p[1..];
      r
    else
      var tail := Append(p[1..], path, text);
      var r := [p[0]] + tail;
      assert r[1..] == tail;
      assert path in Paths(p) <==> path in Paths(p[1..]);
      r
  }

  /** Appending keeps the keys distinct: a dictionary stays a dictionary. */
  lemma AppendDistinct(p: seq<FileDiff>, path: string, text: string)
    requires DistinctPaths(p)
    ensures DistinctPaths(Append(p, path, text))
  {
    var r := Append(p, path, text);
    assert |Paths(r)| == |r|;
    forall i, j | 0 <= i < j < |r|
      ensures r[i].path != r[j].path
    {
      assert r[i].path == Paths(r)[i] && r[j].path == Paths(r)[j];
      if j < |p| {
        assert Paths(r)[i] == Paths(p)[i] && Paths(r)[j] == Paths(p)[j];
      } else {
        assert Paths(r) == Paths(p) + [path];
        assert Paths(r)[i] == Paths(p)[i];
      }
    }
  }

  /** The loop's state: the "current file" cursor (None only before the first
      line) and the dictionary built so far. */
  datatype ScanState = ScanState(current: Option<string>, entries: seq<FileDiff>)

  /** One iteration of the loop over the diff lines, for the line at `index`. */
  function Step(st: ScanState, line: string, index: nat): Result<ScanState, DiffError>
  {
    if st.current.None? && !IsHeader(line) then Err(MalformedDiff(index))
    else
      var current :=
        if IsHeader(line) then HeaderPath(line) else st.current;
      match current
      case None => Err(MissingPathMarker(index))
      case Some(path) =>
        if path == "" then Err(EmptyPath(index))
        else Ok(ScanState(Some(path), Append(st.entries, path, line + "\n")))
  }

  lemma StepDistinct(st: ScanState, line: string, index: nat)
    requires DistinctPaths(st.entries)
    ensures Step(st, line, index).Ok? ==> DistinctPaths(Step(st, line, index).value.entries)
  {
    var r := Step(st, line, index);
    if r.Ok? {
      AppendDistinct(st.entries, r.value.current.value, line + "\n");
    }
  }

  /** The loop run over all of `lines`, stopping at the first error. */
  function Scan(lines: seq<string>): (r: Result<ScanState, DiffError>)
    ensures r.Ok? ==> (r.value.current.Some? <==> |lines| > 0)
    ensures r.Ok? && r.value.current.Some? ==> r.value.current.value != ""
    ensures r.Ok? ==> DistinctPaths(r.value.entries)
    ensures r.Err? ==> r.error.line < |lines|
  {
    if |lines| == 0 then Ok(ScanState(None, []))
    else
      match Scan(lines[..|lines| - 1])
      case Err(e) => Err(e)
      case Ok(st) =>
        StepDistinct(st, lines[|lines| - 1], |lines| - 1);
        Step(st, lines[|lines| - 1], |lines| - 1)
  }

  /** `_partition_diff_by_file_name`: the per-file texts of a diff, or the
      error it raises. */
  function PartitionDiff(lines: seq<string>): (r: Result<seq<FileDiff>, DiffError>)
    ensures |lines| == 0 ==> r == Ok([])
    ensures |lines| > 0 && !IsHeader(lines[0]) ==> r == Err(MalformedDiff(0))
    ensures r.Ok? ==> DistinctPaths(r.value)
    ensures r.Err? ==> r.error.line < |lines|
  {
    FirstLineChecked(lines);
    match Scan(lines)
    case Err(e) => Err(e)
    case Ok(st) => Ok(st.entries)
  }

  /** Once the loop has raised on a prefix, it raises the same error on the
      whole input. */
  lemma {:induction false} ScanErrorPersists(lines: seq<string>, n: nat)
    requires n <= |lines|
    requires Scan(lines[..n]).Err?
    ensures Scan(lines) == Scan(lines[..n])
    decreases |lines| - n
  {
    if n < |lines| {
      assert lines[..n + 1][..n] == lines[..n];
      ScanErrorPersists(lines, n + 1);
    } else {
      assert lines[..n] == lines;
    }
  }

  /** A first line that is not a header is rejected before anything else. */
  lemma FirstLineChecked(lines: seq<string>)
    ensures |lines| > 0 && !IsHeader(lines[0]) ==> Scan(lines) == Err(MalformedDiff(0))
  {
    if |lines| > 0 && !IsHeader(lines[0]) {
      assert Scan(lines[..1]) == Err(MalformedDiff(0)) by {
        assert lines[..1][..0] == [];
      }
      ScanErrorPersists(lines, 1);
    }
  }

  /** The partitioner as the Python loop runs it: one pass over the lines,
      returning at the first error. */
  method PartitionLines(lines: seq<string>) returns (r: Result<seq<FileDiff>, DiffError>)
    ensures r == PartitionDiff(lines)
  {
    var state := ScanState(None, []);
    var i := 0;
    while i < |lines|
      invariant 0 <= i <= |lines|
      invariant Scan(lines[..i]) == Ok(state)
    {
      assert lines[..i + 1][..i] == lines[..i];
      match Step(state, lines[i], i)
      case Err(e) =>
        ScanErrorPersists(lines, i + 1);
        return Err(e);
      case Ok(next) =>
        state := next;
      i := i + 1;
    }
    assert lines[..i] == lines;
    r := Ok(state.entries);
  }
}
