/** The handful of Python `str` operations the diff partitioner relies on:
    `startswith`, substring search, and `split` with an explicit separator. */
module Text {
  import opened Results

  /** Python's `s.startswith(prefix)`. */
  predicate StartsWith(s: string, prefix: string) {
    |prefix| <= |s| && s[..|prefix|] == prefix
  }

  /** `pat` occurs in `s` starting at index `i`. */
  predicate OccursAt(s: string, pat: string, i: int) {
    0 <= i && i + |pat| <= |s| && s[i..i + |pat|] == pat
  }

  /** Python's `pat in s`. */
  predicate Contains(s: string, pat: string) {
    exists i :: 0 <= i <= |s| && OccursAt(s, pat, i)
  }

  /** The leftmost occurrence of `pat` in `s` at or after index `from`. */
  function FindFrom(s: string, pat: string, from: nat): (r: Option<nat>)
    requires |pat| > 0
    ensures r.Some? ==> from <= r.value && OccursAt(s, pat, r.value)
    ensures r.Some? ==> forall j :: from <= j < r.value ==> !OccursAt(s, pat, j)
    ensures r.None? ==> forall j :: from <= j ==> !OccursAt(s, pat, j)
    decreases |s| - from
  {
    if from + |pat| > |s| then None
    else if OccursAt(s, pat, from) then Some(from)
    else FindFrom(s, pat, from + 1)
  }

  /** The leftmost occurrence of `pat` in `s` (Python's `s.find(pat)`, with
      None for -1). */
  function Find(s: string, pat: string): (r: Option<nat>)
    requires |pat| > 0
    ensures r.Some? ==> OccursAt(s, pat, r.value)
    ensures r.Some? ==> forall j :: 0 <= j < r.value ==> !OccursAt(s, pat, j)
    ensures r.None? <==> !Contains(s, pat)
  {
    FindFrom(s, pat, 0)
  }

  /** Python's `sep.join(parts)`. */
  function Join(parts: seq<string>, sep: string): string
  {
    if |parts| == 0 then ""
    else if |parts| == 1 then parts[0]
    else parts[0] + sep + Join(parts[1..], sep)
  }

  /** An occurrence inside a prefix of `s` is an occurrence in `s`. */
  lemma OccursInPrefix(s: string, n: nat, pat: string, j: int)
    requires n <= |s|
    requires OccursAt(s[..n], pat, j)
    ensures OccursAt(s, pat, j)
  {
    assert s[..n][j..j + |pat|] == s[j..j + |pat|];
  }

  /** The piece before the leftmost occurrence holds no occurrence. */
  lemma BeforeFirstOccurrence(s: string, sep: string, i: nat)
    requires |sep| > 0
    requires Find(s, sep) == Some(i)
    ensures !Contains(s[..i], sep)
  {
    forall j | 0 <= j <= i && OccursAt(s[..i], sep, j)
      ensures false
    {
      OccursInPrefix(s, i, sep, j);
    }
  }

  lemma JoinCons(first: string, rest: seq<string>, sep: string)
    requires |rest| >= 1
    ensures Join([first] + rest, sep) == first + sep + Join(rest, sep)
  {
    assert ([first] + rest)[1..] == rest;
  }

  /** Python's `s.split(sep)`: the pieces between the non-overlapping
      occurrences of `sep`, found left to right. There is more than one piece
      exactly when `s` contains the separator. */
  function Split(s: string, sep: string): (parts: seq<string>)
    requires |sep| > 0
    ensures |parts| >= 1
    ensures |parts| == 1 <==> !Contains(s, sep)
    decreases |s|
  {
    match Find(s, sep)
    case None => [s]
    case Some(i) => [s[..i]] + Split(s[i + |sep|..], sep)
  }

  /** One step of `Split`, keyed on the leftmost occurrence. */
  lemma SplitUnfold(s: string, sep: string)
    requires |sep| > 0
    ensures match Find(s, sep)
            case None => Split(s, sep) == [s]
            case Some(i) => Split(s, sep) == [s[..i]] + Split(s[i + |sep|..], sep)
  {
  }

  /** A text is the part before `i`, the part from `i` to `j`, and the rest. */
  lemma Around(s: string, i: nat, j: nat)
    requires i <= j <= |s|
    ensures s == s[..i] + s[i..j] + s[j..]
  {
    assert s[..j] == s[..i] + s[i..j];
  }

  /** Joining the pieces of a split with the separator gives back the text. */
  lemma {:induction false} SplitJoin(s: string, sep: string)
    requires |sep| > 0
    ensures Join(Split(s, sep), sep) == s
    decreases |s|
  {
    match Find(s, sep)
    case None =>
    case Some(i) =>
      var rest := Split(s[i + |sep|..], sep);
      SplitJoin(s[i + |sep|..], sep);
      JoinCons(s[..i], rest, sep);
      assert s[i..i + |sep|] == sep;
      Around(s, i, i + |sep|);
  }

  /** No piece of a split contains the separator. */
  lemma {:induction false} SplitPiecesClean(s: string, sep: string)
    requires |sep| > 0
    ensures forall k :: 0 <= k < |Split(s, sep)| ==> !Contains(Split(s, sep)[k], sep)
    decreases |s|
  {
    match Find(s, sep)
    case None =>
    case Some(i) =>
      var rest := Split(s[i + |sep|..], sep);
      SplitPiecesClean(s[i + |sep|..], sep);
      BeforeFirstOccurrence(s, sep, i);
      assert Split(s, sep) == [s[..i]] + rest;
      forall k | 0 < k < |Split(s, sep)|
        ensures Split(s, sep)[k] == rest[k - 1]
      {
      }
  }
}
