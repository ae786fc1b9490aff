/**
 * `LibraryCommand#extract_unique_field`: the column name recovered from the
 * message of a unique-index violation with `/unique.*index.*?_(\w+)$/i`.
 * The pattern matches inside one line (`.` stops at a newline and `$`
 * matches at the end of every line), and start positions are tried from
 * the left, so the first line that matches decides. Inside that line the
 * greedy `.*` settles on the last "index" after which the rest can still
 * match, and the lazy `.*?` on the first underscore after it behind which
 * only word characters remain; the capture is everything after that
 * underscore.
 */
module UniqueField {
  import opened Wrappers
  import opened Text

  /** `\w`: ASCII letters, digits and the underscore. */
  predicate IsWordChar(c: char) {
    'a' <= c <= 'z' || 'A' <= c <= 'Z' || IsDigit(c) || c == '_'
  }

  predicate AllWord(s: string) {
    forall i :: 0 <= i < |s| ==> IsWordChar(s[i])
  }

  /** The lower-case word `w` occurs at `i` in `line`, letters compared without case (`/i`). */
  predicate WordAt(line: string, i: nat, w: string) {
    i + |w| <= |line| && forall k :: 0 <= k < |w| ==> DowncaseChar(line[i + k]) == w[k]
  }

  /** `_(\w+)$` matches from `u`: an underscore, then one or more word characters up to the end of the line. */
  predicate CutAt(line: string, u: nat) {
    u + 1 < |line| && line[u] == '_' && AllWord(line[u + 1..])
  }

  /** The pattern matches `line` with "unique" at `i`, "index" at `j` and the underscore at `u`. */
  predicate MatchAt(line: string, i: nat, j: nat, u: nat) {
    WordAt(line, i, "unique") && i + 6 <= j && WordAt(line, j, "index") && j + 5 <= u && CutAt(line, u)
  }

  ghost predicate Matches(line: string) {
    exists i: nat, j: nat, u: nat :: MatchAt(line, i, j, u)
  }

  /**
   * The match the engine reports: "index" at `j` is the last one that can
   * start a match, and `u` the first underscore after it that can end one.
   */
  ghost predicate Preferred(line: string, j: nat, u: nat) {
    && (exists i: nat :: MatchAt(line, i, j, u))
    && (forall i': nat, j': nat, u': nat :: j < j' ==> !MatchAt(line, i', j', u'))
    && (forall u': nat :: j + 5 <= u' < u ==> !CutAt(line, u'))
  }

  /** The first position at or after `from` where `_(\w+)$` matches. */
  function FirstCut(line: string, from: nat): (u: Option<nat>)
    decreases |line| - from
    ensures u.Some? ==> from <= u.value && CutAt(line, u.value)
  {
    if from + 1 >= |line| then None
    else if CutAt(line, from) then Some(from)
    else FirstCut(line, from + 1)
  }

  /** No cut lies between `from` and the first one, nor after `from` when there is none. */
  lemma {:induction false} FirstCutIsFirst(line: string, from: nat, v: nat)
    requires from <= v
    requires FirstCut(line, from).Some? ==> v < FirstCut(line, from).value
    ensures !CutAt(line, v)
    decreases |line| - from
  {
    if from + 1 < |line| && !CutAt(line, from) && from < v {
      FirstCutIsFirst(line, from + 1, v);
    }
  }

  /** Some "unique" ends at or before position `j`. */
  function UniqueBefore(line: string, j: nat): (b: bool)
    ensures b <==> exists i: nat :: i + 6 <= j && WordAt(line, i, "unique")
  {
    if j < 6 then false
    else
      var b := WordAt(line, j - 6, "unique") || UniqueBefore(line, j - 1);
      assert (exists i: nat :: i + 6 <= j && WordAt(line, i, "unique")) ==> b by {
        if i: nat :| i + 6 <= j && WordAt(line, i, "unique") {
          if i != j - 6 {
            assert i + 6 <= j - 1;
          }
        }
      }
      b
  }

  /** "index" at `j` can start a match: a "unique" before it and a cut after it. */
  predicate Candidate(line: string, j: nat) {
    WordAt(line, j, "index") && UniqueBefore(line, j) && FirstCut(line, j + 5).Some?
  }

  /** The last candidate "index" that starts below `bound`. */
  function LastCandidate(line: string, bound: nat): (j: Option<nat>)
    ensures j.Some? ==> j.value < bound && Candidate(line, j.value)
  {
    if bound == 0 then None
    else if Candidate(line, bound - 1) then Some(bound - 1)
    else LastCandidate(line, bound - 1)
  }

  /** No candidate lies below `bound` after the last one, nor anywhere below it when there is none. */
  lemma {:induction false} LastCandidateIsLast(line: string, bound: nat, k: nat)
    requires k < bound
    requires LastCandidate(line, bound).Some? ==> LastCandidate(line, bound).value < k
    ensures !Candidate(line, k)
  {
    if !Candidate(line, bound - 1) && k < bound - 1 {
      LastCandidateIsLast(line, bound - 1, k);
    }
  }

  /** Every match starts its "index" at a candidate. */
  lemma MatchIsCandidate(line: string, i: nat, j: nat, u: nat)
    requires MatchAt(line, i, j, u)
    ensures Candidate(line, j) && j < |line|
  {
    assert UniqueBefore(line, j);
    if FirstCut(line, j + 5).None? {
      FirstCutIsFirst(line, j + 5, u);
    }
  }

  /** The word after the first cut that follows the last candidate "index", if there is one. */
  function CaptureOf(line: string): Option<string> {
    match LastCandidate(line, |line|)
    case None => None
    case Some(j) => Some(line[FirstCut(line, j + 5).value + 1..])
  }

  /** The capture of `(\w+)` in one line, None when the pattern does not match it. */
  function LineCapture(line: string): (r: Option<string>)
    ensures r.Some? <==> Matches(line)
    ensures r.Some? ==> r.value != [] && AllWord(r.value)
  {
    var r := CaptureOf(line);
    assert r.Some? <==> Matches(line) by {
      if LastCandidate(line, |line|).None? {
        if i: nat, j: nat, u: nat :| MatchAt(line, i, j, u) {
          MatchIsCandidate(line, i, j, u);
          LastCandidateIsLast(line, |line|, j);
        }
      } else {
        var j := LastCandidate(line, |line|).value;
        var u := FirstCut(line, j + 5).value;
        var i: nat :| i + 6 <= j && WordAt(line, i, "unique");
        assert MatchAt(line, i, j, u);
      }
    }
    r
  }

  /** No match starts its "index" after the last candidate. */
  lemma NoMatchAfter(line: string, j: nat)
    requires LastCandidate(line, |line|) == Some(j)
    ensures forall i': nat, j': nat, u': nat :: j < j' ==> !MatchAt(line, i', j', u')
  {
    forall i': nat, j': nat, u': nat | j < j' && MatchAt(line, i', j', u')
      ensures false
    {
      MatchIsCandidate(line, i', j', u');
      LastCandidateIsLast(line, |line|, j');
    }
  }

  /**
   * The capture is the one the engine reports: the word after the first
   * cut following the last "index" that can start a match.
   */
  lemma LineCapturePreferred(line: string)
    requires Matches(line)
    ensures exists j: nat, u: nat :: Preferred(line, j, u) && LineCapture(line) == Some(line[u + 1..])
  {
    var i0: nat, j0: nat, u0: nat :| MatchAt(line, i0, j0, u0);
    MatchIsCandidate(line, i0, j0, u0);
    if LastCandidate(line, |line|).None? {
      LastCandidateIsLast(line, |line|, j0);
    }
    var j := LastCandidate(line, |line|).value;
    var u := FirstCut(line, j + 5).value;
    NoMatchAfter(line, j);
    forall u': nat | j + 5 <= u' < u
      ensures !CutAt(line, u')
    {
      FirstCutIsFirst(line, j + 5, u');
    }
    var i: nat :| i + 6 <= j && WordAt(line, i, "unique");
    assert MatchAt(line, i, j, u);
    assert Preferred(line, j, u);
    CaptureAfterCut(line, j, u);
    assert LineCapture(line) == CaptureOf(line);
  }

  /** The capture is what follows the first cut after the last candidate. */
  lemma CaptureAfterCut(line: string, j: nat, u: nat)
    requires LastCandidate(line, |line|) == Some(j) && FirstCut(line, j + 5) == Some(u)
    ensures CaptureOf(line) == Some(line[u + 1..])
  {
  }

  /** The position of the first newline at or after `i`, or the length when there is none. */
  function NewlineFrom(m: string, i: nat): (n: nat)
    requires i <= |m|
    decreases |m| - i
    ensures i <= n <= |m| && (n < |m| ==> m[n] == '\n')
  {
    if i == |m| || m[i] == '\n' then i else NewlineFrom(m, i + 1)
  }

  /** No newline lies between `i` and the first one after it. */
  lemma {:induction false} NewlineFromIsFirst(m: string, i: nat, k: nat)
    requires i <= k < |m| && k < NewlineFrom(m, i)
    ensures m[k] != '\n'
    decreases |m| - i
  {
    if i < k {
      NewlineFromIsFirst(m, i + 1, k);
    }
  }

  /** The position of the first newline, or the length when there is none. */
  function LineEnd(m: string): (n: nat)
    ensures n <= |m| && (n < |m| ==> m[n] == '\n')
  {
    NewlineFrom(m, 0)
  }

  /** No newline comes before `LineEnd(m)`. */
  lemma LineEndIsFirst(m: string, k: nat)
    requires k < LineEnd(m)
    ensures m[k] != '\n'
  {
    NewlineFromIsFirst(m, 0, k);
  }

  /** The lines of a message: the pieces between newlines. */
  function Lines(m: string): (ls: seq<string>)
    decreases |m|
    ensures |ls| >= 1
  {
    var n := LineEnd(m);
    if n < |m| then [m[..n]] + Lines(m[n + 1..]) else [m]
  }

  /** `lines` put back together with a newline between each two. */
  function Join(lines: seq<string>): string
    requires |lines| >= 1
  {
    if |lines| == 1 then lines[0] else lines[0] + "\n" + Join(lines[1..])
  }

  /** Splitting loses nothing: the lines joined again give the message. */
  lemma {:induction false} JoinLines(m: string)
    ensures Join(Lines(m)) == m
    decreases |m|
  {
    var n := LineEnd(m);
    if n < |m| {
      var rest := m[n + 1..];
      JoinLines(rest);
      LinesAtNewline(m, n);
      JoinCons(m[..n], Lines(rest));
      SplitAtNewline(m, n);
    } else {
      assert m[..n] == m;
    }
  }

  /** A message with a newline is its first line followed by the lines after that newline. */
  lemma LinesAtNewline(m: string, n: nat)
    requires n == LineEnd(m) && n < |m|
    ensures Lines(m) == [m[..n]] + Lines(m[n + 1..])
  {
  }

  lemma JoinCons(line: string, lines: seq<string>)
    requires |lines| >= 1
    ensures Join([line] + lines) == line + "\n" + Join(lines)
  {
    assert ([line] + lines)[1..] == lines;
  }

  lemma SplitAtNewline(m: string, n: nat)
    requires n < |m| && m[n] == '\n'
    ensures m[..n] + "\n" + m[n + 1..] == m
  {
    assert m == m[..n] + m[n..];
    assert m[n..] == "\n" + m[n + 1..];
  }

  /** No line holds a newline. */
  lemma {:induction false} LinesHaveNoNewline(m: string, k: nat, c: nat)
    requires k < |Lines(m)| && c < |Lines(m)[k]|
    ensures Lines(m)[k][c] != '\n'
    decreases |m|
  {
    var n := LineEnd(m);
    if k > 0 {
      LinesHaveNoNewline(m[n + 1..], k - 1, c);
    } else {
      LineEndIsFirst(m, c);
    }
  }

  /** The pattern matches none of `lines`. */
  ghost predicate NoLineMatches(lines: seq<string>) {
    forall k :: 0 <= k < |lines| ==> !Matches(lines[k])
  }

  /** The capture in the first of `lines` that the pattern matches. */
  function FirstCapture(lines: seq<string>): (r: Option<string>)
    ensures r.None? <==> NoLineMatches(lines)
    ensures r.Some? ==> exists k :: 0 <= k < |lines| && r == LineCapture(lines[k])
                          && forall k' :: 0 <= k' < k ==> !Matches(lines[k'])
  {
    if lines == [] then None
    else
      var c := LineCapture(lines[0]);
      if c.Some? then c
      else
        var rest := lines[1..];
        var r := FirstCapture(rest);
        assert forall k :: 0 <= k < |rest| ==> rest[k] == lines[k + 1];
        assert r.Some? ==> exists k :: 0 <= k < |lines| && r == LineCapture(lines[k])
                             && forall k' :: 0 <= k' < k ==> !Matches(lines[k']) by {
          if r.Some? {
            var k :| 0 <= k < |rest| && r == LineCapture(rest[k]) && forall k' :: 0 <= k' < k ==> !Matches(rest[k']);
            assert forall k' :: 1 <= k' < k + 1 ==> !Matches(lines[k']) by {
              forall k' | 1 <= k' < k + 1 ensures !Matches(lines[k']) {
                assert lines[k'] == rest[k' - 1];
              }
            }
          }
        }
        r
  }

  /**
   * `extract_unique_field`: the capture in the first line of the message
   * that the pattern matches, None when it matches no line.
   */
  function ExtractUniqueField(m: string): (r: Option<string>)
    ensures r.None? <==> NoLineMatches(Lines(m))
    ensures r.Some? ==> exists k :: 0 <= k < |Lines(m)| && r == LineCapture(Lines(m)[k])
                          && forall k' :: 0 <= k' < k ==> !Matches(Lines(m)[k'])
    ensures r.Some? ==> r.value != [] && AllWord(r.value)
  {
    var lines := Lines(m);
    FirstCapture(lines)
  }

  /** A message without a newline is one line. */
  lemma SingleLine(m: string)
    requires forall k :: 0 <= k < |m| ==> m[k] != '\n'
    ensures Lines(m) == [m]
  {
    assert LineEnd(m) == |m|;
    assert m[..|m|] == m;
  }

  /** In `p + "index_" + w`, no "index" starts after the one that follows `p` when `w` holds none. */
  lemma NoLaterIndex(p: string, w: string, j: nat)
    requires forall j': nat :: !WordAt(w, j', "index")
    requires |p| < j
    ensures !WordAt(p + "index_" + w, j, "index")
  {
    var line := p + "index_" + w;
    if WordAt(line, j, "index") {
      assert DowncaseChar(line[j + 0]) == "index"[0];
      if j >= |p| + 6 {
        var j' := j - |p| - 6;
        assert WordAt(w, j', "index") by {
          forall k | 0 <= k < 5
            ensures DowncaseChar(w[j' + k]) == "index"[k]
          {
            assert line[j + k] == w[j' + k];
          }
        }
      }
    }
  }

  /** The line `p + "index_" + w` matches with the "index" right after `p`, and nothing later. */
  lemma IndexNameLine(p: string, w: string)
    requires exists i: nat :: WordAt(p, i, "unique")
    requires w != [] && AllWord(w)
    requires forall j: nat :: !WordAt(w, j, "index")
    ensures LineCapture(p + "index_" + w) == Some(w)
  {
    var line := p + "index_" + w;
    var j := |p|;
    var i: nat :| WordAt(p, i, "unique");
    assert WordAt(line, i, "unique") by {
      forall k | 0 <= k < 6
        ensures DowncaseChar(line[i + k]) == "unique"[k]
      {
        assert line[i + k] == p[i + k];
      }
    }
    assert WordAt(line, j, "index") by {
      forall k | 0 <= k < 5
        ensures DowncaseChar(line[j + k]) == "index"[k]
      {
        assert line[j + k] == "index_"[k];
      }
    }
    assert line[j + 6..] == w;
    assert CutAt(line, j + 5);
    MatchIsCandidate(line, i, j, j + 5);
    if LastCandidate(line, |line|).None? {
      LastCandidateIsLast(line, |line|, j);
    }
    var c := LastCandidate(line, |line|).value;
    if c > j {
      NoLaterIndex(p, w, c);
    } else if c < j {
      LastCandidateIsLast(line, |line|, j);
    }
    assert FirstCut(line, j + 5) == Some(j + 5);
    CaptureAfterCut(line, j, j + 5);
    assert LineCapture(line) == CaptureOf(line);
  }

  /**
   * A message that is one line ending in an index name: when `p` holds a
   * "unique" and the word after "index_" holds no "index" of its own, the
   * field is that whole word. So for Rails' index names
   * `index_<table>_on_<column>` it is `<table>_on_<column>`, not the
   * column alone.
   */
  lemma IndexNameCapture(p: string, w: string)
    requires exists i: nat :: WordAt(p, i, "unique")
    requires forall k :: 0 <= k < |p| ==> p[k] != '\n'
    requires w != [] && AllWord(w)
    requires forall j: nat :: !WordAt(w, j, "index")
    ensures ExtractUniqueField(p + "index_" + w) == Some(w)
  {
    IndexNameLine(p, w);
    IndexNameOneLine(p, w);
    SingleLineCapture(p + "index_" + w);
  }

  /** `p + "index_" + w` holds no newline when `p` holds none and `w` is all word characters. */
  lemma IndexNameOneLine(p: string, w: string)
    requires forall k :: 0 <= k < |p| ==> p[k] != '\n'
    requires AllWord(w)
    ensures forall k :: 0 <= k < |p + "index_" + w| ==> (p + "index_" + w)[k] != '\n'
  {
    var line := p + "index_" + w;
    forall k | 0 <= k < |line|
      ensures line[k] != '\n'
    {
      if k < |p| {
        assert line[k] == p[k];
      } else if k >= |p| + 6 {
        assert line[k] == w[k - |p| - 6];
      } else {
        assert line[k] == "index_"[k - |p|];
      }
    }
  }

  /** A message of one line yields that line's capture. */
  lemma SingleLineCapture(m: string)
    requires forall k :: 0 <= k < |m| ==> m[k] != '\n'
    ensures ExtractUniqueField(m) == LineCapture(m)
  {
    SingleLine(m);
    assert [m][1..] == [];
  }

  /** A line whose last character is no word character (a closing quote, a full stop) never matches. */
  lemma NoCaptureAfterNonWord(line: string)
    requires |line| > 0 && !IsWordChar(line[|line| - 1])
    ensures !Matches(line)
  {
  }

  /** Every line of `m` is empty or ends in a character outside `\w`. */
  ghost predicate LinesEndOutsideWord(m: string) {
    forall k :: 0 <= k < |Lines(m)| ==> LineEndsOutsideWord(Lines(m)[k])
  }

  predicate LineEndsOutsideWord(line: string) {
    line == [] || !IsWordChar(line[|line| - 1])
  }

  /**
   * A message whose lines all end in punctuation, as a quoted constraint
   * name followed by a sentence does, names no field.
   */
  lemma {:induction false} NoFieldAfterPunctuation(m: string)
    requires LinesEndOutsideWord(m)
    ensures ExtractUniqueField(m).None?
  {
    var lines := Lines(m);
    forall k | 0 <= k < |lines|
      ensures !Matches(lines[k])
    {
      assert LineEndsOutsideWord(lines[k]);
      if lines[k] != [] {
        NoCaptureAfterNonWord(lines[k]);
      }
    }
    assert NoLineMatches(lines);
  }
}
