/** The partitioner on the diff shapes git produces: a header
    `diff --git a/<p> b/<p>` followed by body lines that are not headers. */
module PartitionExamples {
  import opened Results
  import opened Text
  import opened DiffPartition
  import opened PartitionProperties

  const GitPrefix := "diff --git a/"

  /** The header line git writes for a file that keeps its path. */
  function GitHeader(p: string): string
  {
    GitPrefix + p + PathMarker + p
  }

  /** No " b" pair occurs inside the fixed part of a git header. */
  lemma GitPrefixHasNoMarker()
    ensures forall j :: 0 <= j < |GitPrefix| - 1 ==> GitPrefix[j] != ' ' || GitPrefix[j + 1] != 'b'
  {
  }

  /** The first marker of a git header is the one git put before the second copy. */
  lemma GitHeaderMarker(p: string)
    requires !Contains(p, PathMarker)
    ensures Find(GitHeader(p), PathMarker) == Some(|GitPrefix| + |p|)
  {
    var line := GitHeader(p);
    var g := |GitPrefix|;
    var n := g + |p|;
    assert line[n] == ' ' && line[g - 1] == '/';
    GitPrefixHasNoMarker();
    forall j | 0 <= j < n
      ensures !OccursAt(line, PathMarker, j)
    {
      if j + 3 <= |line| {
        if j < g - 1 {
          assert line[j] == GitPrefix[j] && line[j + 1] == GitPrefix[j + 1];
          assert line[j..j + 3][0] == line[j] && line[j..j + 3][1] == line[j + 1];
        } else if j == g - 1 {
          assert line[j..j + 3][0] == '/';
        } else if j + 3 <= n {
          assert line[j..j + 3] == p[j - g..j - g + 3];
          assert !OccursAt(p, PathMarker, j - g);
        } else if j == n - 1 {
          assert line[j..j + 3][1] == line[n];
        } else {
          assert line[j..j + 3][2] == line[n];
        }
      }
    }
    assert OccursAt(line, PathMarker, n);
    assert Contains(line, PathMarker);
  }

  /** A path without " b/" in it is read back from its own git header. */
  lemma GitHeaderPath(p: string)
    requires !Contains(p, PathMarker)
    ensures IsHeader(GitHeader(p))
    ensures HeaderPath(GitHeader(p)) == Some(p)
  {
    var line := GitHeader(p);
    var n := |GitPrefix| + |p|;
    assert line[..|HeaderPrefix|] == HeaderPrefix;
    GitHeaderMarker(p);
    assert line[n + 3..] == p;
    SplitUnfold(line, PathMarker);
    SplitUnfold(p, PathMarker);
    assert Split(line, PathMarker) == [line[..n], p];
  }

  predicate NoHeaders(body: seq<string>) {
    forall i :: 0 <= i < |body| ==> !IsHeader(body[i])
  }

  lemma {:induction false} AppendTwice(p: seq<FileDiff>, path: string, t1: string, t2: string)
    ensures Append(Append(p, path, t1), path, t2) == Append(p, path, t1 + t2)
  {
    if p == [] || p[0].path == path {
      AppendTwiceAtHead(p, path, t1, t2);
    } else {
      var once := Append(p, path, t1);
      var tail := Append(p[1..], path, t1);
      assert once == [p[0]] + tail;
      assert once[0] == p[0] && once[1..] == tail;
      AppendTwice(p[1..], path, t1, t2);
      assert Append(once, path, t2) == [p[0]] + Append(tail, path, t2);
      assert Append(p, path, t1 + t2) == [p[0]] + Append(p[1..], path, t1 + t2);
    }
  }

  /** The base cases of `AppendTwice`: no entries, or the path's entry first. */
  lemma AppendTwiceAtHead(p: seq<FileDiff>, path: string, t1: string, t2: string)
    requires p == [] || p[0].path == path
    ensures Append(Append(p, path, t1), path, t2) == Append(p, path, t1 + t2)
  {
    if p != [] {
      var d := p[0].diff;
      var once := [FileDiff(path, d + t1)] + p[1..];
      assert once[1..] == p[1..];
      assert (d + t1) + t2 == d + (t1 + t2);
    }
  }

  /** The loop's last iteration on `prefix + [line]`. */
  lemma ScanSnoc(prefix: seq<string>, line: string)
    requires Scan(prefix).Ok?
    ensures Scan(prefix + [line]) == Step(Scan(prefix).value, line, |prefix|)
  {
    assert Init(prefix + [line]) == prefix;
  }

  lemma StepOnHeader(st: ScanState, line: string, p: string, index: nat)
    requires IsHeader(line) && HeaderPath(line) == Some(p) && p != ""
    ensures Step(st, line, index) == Ok(ScanState(Some(p), Append(st.entries, p, line + "\n")))
  {
  }

  lemma StepOnBodyLine(st: ScanState, line: string, index: nat)
    requires st.current.Some? && st.current.value != "" && !IsHeader(line)
    ensures Step(st, line, index)
            == Ok(ScanState(st.current, Append(st.entries, st.current.value, line + "\n")))
  {
  }

  lemma UnlinesSnoc(lines: seq<string>, line: string)
    ensures Unlines(lines + [line]) == Unlines(lines) + line + "\n"
  {
    assert Init(lines + [line]) == lines;
  }

  lemma SuffixOfSnoc(a: seq<string>, x: string, k: nat)
    requires k <= |a|
    ensures (a + [x])[k..] == a[k..] + [x]
  {
  }

  lemma UnlinesOne(line: string)
    ensures Unlines([line]) == line + "\n"
  {
    assert Init([line]) == [];
    assert Unlines([]) + line == line;
  }

  /** A body line extends the current path's text. */
  lemma ExtendBlock(lines: seq<string>, line: string, entries: seq<FileDiff>, p: string, text: string)
    requires p != "" && !IsHeader(line)
    requires Scan(lines) == Ok(ScanState(Some(p), Append(entries, p, text)))
    ensures Scan(lines + [line]) == Ok(ScanState(Some(p), Append(entries, p, text + line + "\n")))
  {
    ScanSnoc(lines, line);
    StepExtends(entries, p, text, line, |lines|);
    ConcatAssoc(text, line, "\n");
  }

  lemma ConcatAssoc(a: string, b: string, c: string)
    ensures a + (b + c) == a + b + c
  {
  }

  /** A body line under the current file extends that file's text. */
  lemma StepExtends(entries: seq<FileDiff>, p: string, text: string, line: string, index: nat)
    requires p != "" && !IsHeader(line)
    ensures Step(ScanState(Some(p), Append(entries, p, text)), line, index)
            == Ok(ScanState(Some(p), Append(entries, p, text + (line + "\n"))))
  {
    StepOnBodyLine(ScanState(Some(p), Append(entries, p, text)), line, index);
    AppendTwice(entries, p, text, line + "\n");
  }

  /** A header line naming `p` starts (or continues) `p`'s entry. */
  lemma ScanHeader(lines: seq<string>, p: string)
    requires |lines| > 0 && IsHeader(Last(lines)) && HeaderPath(Last(lines)) == Some(p) && p != ""
    requires Scan(Init(lines)).Ok?
    ensures Scan(lines) == Ok(ScanState(Some(p), Append(Scan(Init(lines)).value.entries, p, Unlines([Last(lines)]))))
  {
    StepOnHeader(Scan(Init(lines)).value, Last(lines), p, |lines| - 1);
    UnlinesOne(Last(lines));
  }

  /** A header at index `k` naming `p`, and the body lines after it, all go
      to `p`, after whatever the lines before `k` produced. */
  lemma {:induction false} ScanBlock(lines: seq<string>, k: nat, p: string)
    requires k < |lines| && IsHeader(lines[k]) && HeaderPath(lines[k]) == Some(p) && p != ""
    requires NoHeaders(lines[k + 1..])
    requires Scan(lines[..k]).Ok?
    ensures Scan(lines) == Ok(ScanState(Some(p), Append(Scan(lines[..k]).value.entries, p, Unlines(lines[k..]))))
  {
    var init := Init(lines);
    if |lines| == k + 1 {
      assert init == lines[..k];
      assert lines[k..] == [Last(lines)];
      ScanHeader(lines, p);
    } else {
      assert init[..k] == lines[..k] && init[k] == lines[k];
      assert init[k + 1..] == lines[k + 1..|lines| - 1];
      assert NoHeaders(init[k + 1..]) by {
        var body := lines[k + 1..];
        var shorter := init[k + 1..];
        forall j | 0 <= j < |shorter|
          ensures !IsHeader(shorter[j])
        {
          assert shorter[j] == body[j];
        }
      }
      ScanBlock(init, k, p);
      ScanBodyLine(lines, k, p);
    }
  }

  /** The inductive step of `ScanBlock`: one more body line. */
  lemma ScanBodyLine(lines: seq<string>, k: nat, p: string)
    requires k + 1 < |lines| && p != ""
    requires NoHeaders(lines[k + 1..])
    requires Scan(lines[..k]).Ok?
    requires var init := Init(lines);
             Scan(init) == Ok(ScanState(Some(p), Append(Scan(lines[..k]).value.entries, p, Unlines(init[k..]))))
    ensures Scan(lines) == Ok(ScanState(Some(p), Append(Scan(lines[..k]).value.entries, p, Unlines(lines[k..]))))
  {
    var init := Init(lines);
    var last := Last(lines);
    var entries := Scan(lines[..k]).value.entries;
    assert !IsHeader(last) by {
      assert last == lines[k + 1..][|lines| - k - 2];
    }
    InitLast(lines);
    assert Unlines(init[k..]) + last + "\n" == Unlines(lines[k..]) by {
      SuffixOfSnoc(init, last, k);
      UnlinesSnoc(init[k..], last);
      assert lines[k..] == init[k..] + [last];
    }
    ExtendBlock(init, last, entries, p, Unlines(init[k..]));
  }

  /** A file's block after lines the loop went through goes, whole, to that
      file, and leaves the cursor there. */
  lemma ScanNextBlock(prefix: seq<string>, p: string, body: seq<string>)
    requires Scan(prefix).Ok?
    requires p != "" && !Contains(p, PathMarker) && NoHeaders(body)
    ensures var block := [GitHeader(p)] + body;
            Scan(prefix + block) == Ok(ScanState(Some(p), Append(Scan(prefix).value.entries, p, Unlines(block))))
  {
    var lines := prefix + ([GitHeader(p)] + body);
    BlockAfter(prefix, p, body);
    ScanBlock(lines, |prefix|, p);
  }

  /** The header of a block placed after `prefix` is where `ScanBlock` needs
      it. */
  lemma BlockAfter(prefix: seq<string>, p: string, body: seq<string>)
    requires !Contains(p, PathMarker) && NoHeaders(body)
    ensures var block := [GitHeader(p)] + body;
            var lines := prefix + block;
            var k := |prefix|;
            && k < |lines| && IsHeader(lines[k]) && HeaderPath(lines[k]) == Some(p)
            && NoHeaders(lines[k + 1..])
            && lines[..k] == prefix && lines[k..] == block
  {
    var block := [GitHeader(p)] + body;
    var lines := prefix + block;
    var k := |prefix|;
    assert lines[..k] == prefix && lines[k..] == block && lines[k + 1..] == body;
    assert lines[k] == GitHeader(p);
    GitHeaderPath(p);
  }

  /** The loop over one file's block ends at that file with one entry
      holding the block. */
  lemma ScanOneBlock(p: string, body: seq<string>)
    requires p != "" && !Contains(p, PathMarker) && NoHeaders(body)
    ensures var lines := [GitHeader(p)] + body;
            Scan(lines) == Ok(ScanState(Some(p), [FileDiff(p, Unlines(lines))]))
  {
    var lines := [GitHeader(p)] + body;
    ScanNextBlock([], p, body);
    assert [] + lines == lines;
  }

  /** One file's block becomes a single entry holding the whole input. */
  lemma SingleFile(p: string, body: seq<string>)
    requires p != "" && !Contains(p, PathMarker) && NoHeaders(body)
    ensures PartitionDiff([GitHeader(p)] + body) == Ok([FileDiff(p, Unlines([GitHeader(p)] + body))])
  {
    ScanOneBlock(p, body);
  }

  /** A path other than the only entry's opens a second entry after it. */
  lemma SecondPath(first: FileDiff, path: string, text: string)
    requires first.path != path
    ensures Append([first], path, text) == [first, FileDiff(path, text)]
  {
    assert path !in Paths([first]);
    AppendNewPath([first], path, text);
  }

  /** A loop that ends without raising hands its entries to the caller. */
  lemma PartitionOfScan(lines: seq<string>, st: ScanState)
    requires Scan(lines) == Ok(st)
    ensures PartitionDiff(lines) == Ok(st.entries)
  {
    assert PartitionDiff(lines) == Ok(Scan(lines).value.entries);
  }

  /** Two blocks for different paths become two entries, in input order, each
      holding its own block. */
  lemma TwoFiles(a: string, bodyA: seq<string>, b: string, bodyB: seq<string>)
    requires a != "" && !Contains(a, PathMarker) && NoHeaders(bodyA)
    requires b != "" && !Contains(b, PathMarker) && NoHeaders(bodyB)
    requires a != b
    ensures var blockA := [GitHeader(a)] + bodyA;
            var blockB := [GitHeader(b)] + bodyB;
            PartitionDiff(blockA + blockB) == Ok([FileDiff(a, Unlines(blockA)), FileDiff(b, Unlines(blockB))])
  {
    var blockA := [GitHeader(a)] + bodyA;
    var blockB := [GitHeader(b)] + bodyB;
    var first := FileDiff(a, Unlines(blockA));
    var second := FileDiff(b, Unlines(blockB));
    ScanOneBlock(a, bodyA);
    assert Scan(blockA) == Ok(ScanState(Some(a), [first]));
    ScanNextBlock(blockA, b, bodyB);
    SecondPath(first, b, Unlines(blockB));
    PartitionOfScan(blockA + blockB, ScanState(Some(b), [first, second]));
  }

  /** The one-file scenario: a header and a three-line hunk. */
  lemma OneFileScenario(lines: seq<string>)
    requires lines == ["diff --git a/x.py b/x.py", "@@ -1,1 +1,1 @@", "-old", "+new"]
    ensures PartitionDiff(lines)
            == Ok([FileDiff("x.py", "diff --git a/x.py b/x.py" + "\n" + "@@ -1,1 +1,1 @@" + "\n" + "-old" + "\n" + "+new" + "\n")])
  {
    var p := "x.py";
    ShortPathHasNoMarker(p);
    var body := lines[1..];
    NoHeadersIn(body);
    assert GitHeader(p) == lines[0];
    assert lines == [GitHeader(p)] + body;
    SingleFile(p, body);
    UnlinesOne(lines[0]);
    UnlinesSnoc(lines[..1], lines[1]);
    assert lines[..2] == lines[..1] + [lines[1]];
    UnlinesSnoc(lines[..2], lines[2]);
    assert lines[..3] == lines[..2] + [lines[2]];
    UnlinesSnoc(lines[..3], lines[3]);
    assert lines == lines[..3] + [lines[3]];
    assert Unlines(lines) == lines[0] + "\n" + lines[1] + "\n" + lines[2] + "\n" + lines[3] + "\n";
  }

  /** Lines after the first header whose body lines are all ordinary hunk
      lines: nothing in them starts with "d". */
  lemma NoHeadersIn(body: seq<string>)
    requires forall i :: 0 <= i < |body| ==> |body[i]| > 0 && body[i][0] != 'd'
    ensures NoHeaders(body)
  {
    forall i | 0 <= i < |body|
      ensures !IsHeader(body[i])
    {
      if |HeaderPrefix| <= |body[i]| {
        assert body[i][..|HeaderPrefix|][0] == body[i][0];
      }
    }
  }

  /** A four-character path cannot hold the three-character marker unless its
      second or third character is 'b'. */
  lemma ShortPathHasNoMarker(p: string)
    requires |p| == 4 && p[1] != 'b' && p[2] != 'b'
    ensures !Contains(p, PathMarker)
  {
  }

  /** The two-file scenario: each file keeps its own two-line block. */
  lemma TwoFileScenario(lines: seq<string>)
    requires lines == ["diff --git a/a.py b/a.py", "+x", "diff --git a/b.py b/b.py", "+y"]
    ensures PartitionDiff(lines)
            == Ok([FileDiff("a.py", "diff --git a/a.py b/a.py" + "\n" + "+x" + "\n"),
                   FileDiff("b.py", "diff --git a/b.py b/b.py" + "\n" + "+y" + "\n")])
  {
    ShortPathHasNoMarker("a.py");
    ShortPathHasNoMarker("b.py");
    NoHeadersIn(["+x"]);
    NoHeadersIn(["+y"]);
    assert GitHeader("a.py") == lines[0];
    assert GitHeader("b.py") == lines[2];
    assert lines == ([GitHeader("a.py")] + ["+x"]) + ([GitHeader("b.py")] + ["+y"]);
    TwoFiles("a.py", ["+x"], "b.py", ["+y"]);
    UnlinesSnoc([lines[0]], "+x");
    UnlinesOne(lines[0]);
    UnlinesSnoc([lines[2]], "+y");
    UnlinesOne(lines[2]);
    assert [lines[0]] + ["+x"] == [GitHeader("a.py")] + ["+x"];
    assert [lines[2]] + ["+y"] == [GitHeader("b.py")] + ["+y"];
  }

  /** A path that comes back after another file's block keeps its first
      position, and its later lines are appended to its earlier ones. */
  lemma RevisitMerges(a: string, bodyA: seq<string>, b: string, bodyB: seq<string>, bodyA2: seq<string>)
    requires a != "" && !Contains(a, PathMarker) && NoHeaders(bodyA) && NoHeaders(bodyA2)
    requires b != "" && !Contains(b, PathMarker) && NoHeaders(bodyB)
    requires a != b
    ensures var blockA := [GitHeader(a)] + bodyA;
            var blockB := [GitHeader(b)] + bodyB;
            var blockA2 := [GitHeader(a)] + bodyA2;
            PartitionDiff(blockA + blockB + blockA2)
            == Ok([FileDiff(a, Unlines(blockA) + Unlines(blockA2)), FileDiff(b, Unlines(blockB))])
  {
    var blockA := [GitHeader(a)] + bodyA;
    var blockB := [GitHeader(b)] + bodyB;
    var blockA2 := [GitHeader(a)] + bodyA2;
    var lines := blockA + blockB + blockA2;
    var k := |blockA + blockB|;
    TwoFiles(a, bodyA, b, bodyB);
    assert lines[..k] == blockA + blockB;
    assert lines[k..] == blockA2;
    assert lines[k + 1..] == bodyA2;
    GitHeaderPath(a);
    ScanBlock(lines, k, a);
    var entries := Scan(lines[..k]).value.entries;
    assert entries == [FileDiff(a, Unlines(blockA)), FileDiff(b, Unlines(blockB))];
    var r := Append(entries, a, Unlines(blockA2));
    assert r == [FileDiff(a, Unlines(blockA) + Unlines(blockA2))] + entries[1..];
    assert r == [FileDiff(a, Unlines(blockA) + Unlines(blockA2)), FileDiff(b, Unlines(blockB))];
  }
}
