/** Reference descriptions of what `_partition_diff_by_file_name` computes,
    each stated line by line without the loop's cursor or dictionary, and the
    lemmas that tie the partitioner to them. */
module PartitionProperties {
  import opened Results
  import opened Text
  import opened DiffPartition

  function Last(lines: seq<string>): string
    requires |lines| > 0
  {
    lines[|lines| - 1]
  }

  function Init(lines: seq<string>): seq<string>
    requires |lines| > 0
  {
    lines[..|lines| - 1]
  }

  lemma InitLast(lines: seq<string>)
    requires |lines| > 0
    ensures Init(lines) + [Last(lines)] == lines
  {
  }

  /** The path named by the last header line among `lines`, if any. */
  function LastPath(lines: seq<string>): Option<string>
  {
    if |lines| == 0 then None
    else if IsHeader(Last(lines)) then HeaderPath(Last(lines))
    else LastPath(Init(lines))
  }

  /** What is wrong with line `i` on its own, if anything: a first line that
      is not a header, a header without " b/", or a header naming "". */
  function LineDefect(lines: seq<string>, i: nat): Option<DiffError>
    requires i < |lines|
  {
    if i == 0 && !IsHeader(lines[0]) then Some(MalformedDiff(0))
    else if IsHeader(lines[i]) && HeaderPath(lines[i]).None? then Some(MissingPathMarker(i))
    else if IsHeader(lines[i]) && HeaderPath(lines[i]) == Some("") then Some(EmptyPath(i))
    else None
  }

  predicate WellFormed(lines: seq<string>) {
    forall i :: 0 <= i < |lines| ==> LineDefect(lines, i).None?
  }

  /** The paths named by the header lines, in order, repetitions included. */
  function HeaderPaths(lines: seq<string>): seq<string>
  {
    if |lines| == 0 then []
    else if IsHeader(Last(lines)) && HeaderPath(Last(lines)).Some? then
      HeaderPaths(Init(lines)) + [HeaderPath(Last(lines)).value]
    else HeaderPaths(Init(lines))
  }

  /** The index of the first occurrence of `x` in `s`. */
  function FirstIndex(s: seq<string>, x: string): (k: nat)
    requires x in s
    ensures k < |s| && s[k] == x && x !in s[..k]
  {
    if x in s[..|s| - 1] then
      var k := FirstIndex(s[..|s| - 1], x);
      assert s[..|s| - 1][..k] == s[..k];
      k
    else
      |s| - 1
  }

  /** The elements of `s` without repetitions, in order of first appearance. */
  function FirstAppearances(s: seq<string>): (r: seq<string>)
    ensures forall x :: x in r <==> x in s
    ensures forall i, j :: 0 <= i < j < |r| ==> r[i] != r[j]
  {
    if |s| == 0 then []
    else
      var d := FirstAppearances(s[..|s| - 1]);
      if s[|s| - 1] in d then d else d + [s[|s| - 1]]
  }

  /** The elements come in the order of their first occurrences in `s`. */
  lemma {:induction false} FirstAppearancesOrdered(s: seq<string>, i: nat, j: nat)
    requires i < j < |FirstAppearances(s)|
    ensures var r := FirstAppearances(s);
            FirstIndex(s, r[i]) < FirstIndex(s, r[j])
  {
    var init := s[..|s| - 1];
    var d := FirstAppearances(init);
    var r := FirstAppearances(s);
    assert r == if s[|s| - 1] in d then d else d + [s[|s| - 1]];
    assert r[i] == d[i] && r[i] in init;
    FirstIndexOfPrefix(s, |s| - 1, r[i]);
    if j < |d| {
      assert r[j] == d[j] && r[j] in init;
      FirstIndexOfPrefix(s, |s| - 1, r[j]);
      FirstAppearancesOrdered(init, i, j);
    } else {
      assert r[j] == s[|s| - 1] && r[j] !in init;
      assert forall m :: 0 <= m < |init| ==> init[m] == s[m];
    }
  }

  /** Extending a sequence does not move the first occurrence of an element it
      already had. */
  lemma FirstIndexOfPrefix(s: seq<string>, n: nat, x: string)
    requires n <= |s| && x in s[..n]
    ensures FirstIndex(s, x) == FirstIndex(s[..n], x)
  {
    var a := FirstIndex(s, x);
    var b := FirstIndex(s[..n], x);
    assert s[..n][..b] == s[..b];
  }

  /** Every line, each followed by a newline, that falls under `path`: the
      lines from a header naming `path` up to the next header. */
  function Collected(lines: seq<string>, path: string): string
  {
    if |lines| == 0 then ""
    else if LastPath(lines) == Some(path) then Collected(Init(lines), path) + Last(lines) + "\n"
    else Collected(Init(lines), path)
  }

  /** `"\n".join(lines) + "\n"` for a non-empty list: each line followed by a newline. */
  function Unlines(lines: seq<string>): string
  {
    if |lines| == 0 then "" else Unlines(Init(lines)) + Last(lines) + "\n"
  }

  /** The sum of `len(line) + 1` over the lines. */
  function LineLengths(lines: seq<string>): nat
  {
    if |lines| == 0 then 0 else LineLengths(Init(lines)) + |Last(lines)| + 1
  }

  /** Every file's lines form one contiguous block: a header may name a path
      seen before only when it continues the block of that same path. */
  predicate NoRevisit(lines: seq<string>)
  {
    if |lines| == 0 then true
    else
      && NoRevisit(Init(lines))
      && (IsHeader(Last(lines)) && HeaderPath(Last(lines)).Some?
          && HeaderPath(Last(lines)).value in HeaderPaths(Init(lines))
          ==> LastPath(Init(lines)) == HeaderPath(Last(lines)))
  }

  /** Defects of a line do not depend on later lines. */
  lemma LineDefectOfPrefix(lines: seq<string>, n: nat, i: nat)
    requires i < n <= |lines|
    ensures LineDefect(lines[..n], i) == LineDefect(lines, i)
  {
    assert lines[..n][i] == lines[i] && lines[..n][0] == lines[0];
  }

  /** After a successful loop over the earlier lines, the last line makes the
      loop fail exactly when it is defective, and then with its defect. */
  lemma StepDefect(lines: seq<string>)
    requires |lines| > 0 && Scan(Init(lines)).Ok?
    ensures Scan(lines).Err? <==> LineDefect(lines, |lines| - 1).Some?
    ensures Scan(lines).Err? ==> Scan(lines).error == LineDefect(lines, |lines| - 1).value
  {
    var st := Scan(Init(lines)).value;
    var n := |lines| - 1;
    var line := Last(lines);
    assert lines[n] == line;
    assert Scan(lines) == Step(st, line, n);
    assert st.current.None? <==> n == 0;
    var d := LineDefect(lines, n);
    if n == 0 && !IsHeader(line) {
      assert d == Some(MalformedDiff(0));
    } else if IsHeader(line) {
      var hp := HeaderPath(line);
      if hp.None? {
        assert d == Some(MissingPathMarker(n));
      } else if hp.value == "" {
        assert d == Some(EmptyPath(n));
      } else {
        assert d.None?;
        assert Step(st, line, n).Ok?;
      }
    } else {
      assert d.None?;
      assert Step(st, line, n).Ok?;
    }
  }

  /** The loop's cursor is the path of the last header seen, and that path
      always has an entry. */
  lemma {:induction false} ScanCursor(lines: seq<string>)
    requires Scan(lines).Ok?
    ensures Scan(lines).value.current == LastPath(lines)
    ensures LastPath(lines).Some? ==> LastPath(lines).value in Paths(Scan(lines).value.entries)
  {
    if |lines| > 0 {
      ScanCursor(Init(lines));
    }
  }

  /** The partitioner fails exactly when some line is defective, and then
      with the error of the first defective line. */
  lemma {:induction false} PartitionFailsAtFirstDefect(lines: seq<string>)
    ensures PartitionDiff(lines).Ok? <==> WellFormed(lines)
    ensures PartitionDiff(lines).Err? ==>
              var e := PartitionDiff(lines).error;
              && LineDefect(lines, e.line) == Some(e)
              && forall j :: 0 <= j < e.line ==> LineDefect(lines, j).None?
  {
    if |lines| > 0 {
      var init := Init(lines);
      var n := |lines| - 1;
      PartitionFailsAtFirstDefect(init);
      match Scan(init)
      case Err(e) =>
        assert Scan(lines) == Err(e);
        LineDefectOfPrefix(lines, n, e.line);
        forall j | 0 <= j < e.line
          ensures LineDefect(lines, j).None?
        {
          LineDefectOfPrefix(lines, n, j);
        }
        assert !WellFormed(lines) by {
          assert LineDefect(lines, e.line).Some?;
        }
      case Ok(st) =>
        StepDefect(lines);
        assert WellFormed(init);
        forall j | 0 <= j < n
          ensures LineDefect(lines, j).None?
        {
          LineDefectOfPrefix(lines, n, j);
          assert LineDefect(init, j).None?;
        }
        if LineDefect(lines, n).None? {
          assert WellFormed(lines) by {
            forall j | 0 <= j < |lines|
              ensures LineDefect(lines, j).None?
            {
              if j == n {
                assert LineDefect(lines, n).None?;
              } else {
                assert j < n;
              }
            }
          }
          assert PartitionDiff(lines).Ok?;
        } else {
          assert !WellFormed(lines) by {
            assert LineDefect(lines, n).Some?;
          }
          assert PartitionDiff(lines).Err?;
        }
    }
  }

  /** Keys are the paths named by the headers, without repetitions, in order
      of first appearance. */
  lemma {:induction false} PartitionPathsInFirstAppearanceOrder(lines: seq<string>)
    requires PartitionDiff(lines).Ok?
    ensures Paths(PartitionDiff(lines).value) == FirstAppearances(HeaderPaths(lines))
  {
    if |lines| > 0 {
      var init := Init(lines);
      PartitionPathsInFirstAppearanceOrder(init);
      ScanCursor(init);
      ScanCursor(lines);
    }
  }

  /** Each path's text is exactly the lines that fall under it, in order. */
  lemma {:induction false} PartitionContents(lines: seq<string>)
    requires PartitionDiff(lines).Ok?
    ensures forall q :: DiffOf(PartitionDiff(lines).value, q) == Collected(lines, q)
  {
    if |lines| > 0 {
      PartitionContents(Init(lines));
      ScanCursor(lines);
    }
  }

  /** No character is lost or duplicated: the entries hold `len(line) + 1`
      characters per input line. */
  lemma {:induction false} PartitionSize(lines: seq<string>)
    requires PartitionDiff(lines).Ok?
    ensures TotalSize(PartitionDiff(lines).value) == LineLengths(lines)
  {
    if |lines| > 0 {
      PartitionSize(Init(lines));
    }
  }

  lemma {:induction false} ConcatSnoc(p: seq<FileDiff>, e: FileDiff)
    ensures Concat(p + [e]) == Concat(p) + e.diff
  {
    if p != [] {
      assert (p + [e])[1..] == p[1..] + [e];
      ConcatSnoc(p[1..], e);
    }
  }

  /** Appending under a path not yet present adds one entry at the end. */
  lemma {:induction false} AppendNewPath(p: seq<FileDiff>, path: string, text: string)
    requires path !in Paths(p)
    ensures Append(p, path, text) == p + [FileDiff(path, text)]
  {
    if p != [] {
      assert path !in Paths(p[1..]) by {
        assert forall i :: 0 <= i < |p| - 1 ==> Paths(p[1..])[i] == Paths(p)[i + 1];
      }
      AppendNewPath(p[1..], path, text);
    }
  }

  /** Appending under the last entry's path extends the concatenation at its end. */
  lemma {:induction false} AppendToLastEntry(p: seq<FileDiff>, text: string)
    requires |p| > 0 && DistinctPaths(p)
    ensures Concat(Append(p, p[|p| - 1].path, text)) == Concat(p) + text
  {
    if |p| > 1 {
      assert p[1..][|p| - 2] == p[|p| - 1];
      AppendToLastEntry(p[1..], text);
    }
  }

  /** While every file's lines are contiguous, a line whose path already has
      an entry continues the block of the cursor. */
  lemma RevisitContinues(lines: seq<string>)
    requires |lines| > 0 && Scan(lines).Ok? && NoRevisit(lines)
    ensures var st := Scan(Init(lines)).value;
            var path := Scan(lines).value.current.value;
            path in Paths(st.entries) ==> st.current == Some(path)
  {
    var init := Init(lines);
    var st := Scan(init).value;
    ScanCursor(init);
    ScanCursor(lines);
    var path := Scan(lines).value.current.value;
    if path in Paths(st.entries) && IsHeader(Last(lines)) {
      PartitionPathsInFirstAppearanceOrder(init);
      assert path in HeaderPaths(init);
    }
  }

  /** The last iteration of a successful loop appends the last line under
      the new cursor. */
  lemma ScanLastStep(lines: seq<string>)
    requires |lines| > 0 && Scan(lines).Ok?
    ensures Scan(Init(lines)).Ok?
    ensures var st := Scan(lines).value;
            && st.current.Some?
            && st.entries == Append(Scan(Init(lines)).value.entries, st.current.value, Last(lines) + "\n")
  {
    assert Scan(lines) == Step(Scan(Init(lines)).value, Last(lines), |lines| - 1);
  }

  /** While every file's lines are contiguous, the cursor names the last entry. */
  lemma {:induction false} ScanLastEntry(lines: seq<string>)
    requires |lines| > 0 && Scan(lines).Ok? && NoRevisit(lines)
    ensures var st := Scan(lines).value;
            |st.entries| > 0 && st.entries[|st.entries| - 1].path == st.current.value
  {
    var init := Init(lines);
    ScanLastStep(lines);
    var prev := Scan(init).value.entries;
    var path := Scan(lines).value.current.value;
    var entries := Scan(lines).value.entries;
    RevisitContinues(lines);
    if path in Paths(prev) {
      ScanLastEntry(init);
      assert Paths(entries) == Paths(prev);
      assert entries[|entries| - 1].path == Paths(entries)[|entries| - 1];
    } else {
      AppendNewPath(prev, path, Last(lines) + "\n");
    }
  }

  /** While every file's lines are contiguous, the entries concatenated in
      key order give back the input. */
  lemma {:induction false} ScanBlocks(lines: seq<string>)
    requires Scan(lines).Ok? && NoRevisit(lines)
    ensures Concat(Scan(lines).value.entries) == Unlines(lines)
  {
    if |lines| > 0 {
      var init := Init(lines);
      var text := Last(lines) + "\n";
      ScanLastStep(lines);
      var prev := Scan(init).value.entries;
      var path := Scan(lines).value.current.value;
      ScanBlocks(init);
      RevisitContinues(lines);
      assert Unlines(lines) == Unlines(init) + text;
      if path in Paths(prev) {
        ScanLastEntry(init);
        AppendToLastEntry(prev, text);
      } else {
        AppendNewPath(prev, path, text);
        ConcatSnoc(prev, FileDiff(path, text));
      }
    }
  }

  /** A diff without defective lines, made of contiguous per-file blocks, is
      partitioned without error, and concatenating the values in key order
      reproduces the input, one newline after each line. */
  lemma PartitionReassembles(lines: seq<string>)
    requires WellFormed(lines) && NoRevisit(lines)
    ensures PartitionDiff(lines).Ok?
    ensures Concat(PartitionDiff(lines).value) == Unlines(lines)
  {
    PartitionFailsAtFirstDefect(lines);
    ScanBlocks(lines);
  }
}
