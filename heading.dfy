/**
  The regular expression `^#\s+(.+)$` under MULTILINE, as `re.search` and
  `re.sub(..., count=1)` run it: `^` holds at index 0 and after every LF,
  `\s` is the whitespace class (LF included), `.` is any character but LF,
  and `$` holds at the end of the text and before every LF.

  `IsMatch` says which spans the pattern can match at all; `FindHeading`
  picks the one the backtracking engine reports: the leftmost start, and at
  that start the longest `\s+` (the greedy choice that is tried first).
 */
module Heading {
  import opened Wrappers
  import opened Casing

  /** `^` under MULTILINE. */
  predicate LineStart(s: string, p: nat) {
    p <= |s| && (p == 0 || s[p - 1] == '\n')
  }

  /** A match: `#` at `start`, `\s+` up to `text`, group 1 is `s[text..end]`. */
  datatype Match = Match(start: nat, text: nat, end: nat)

  predicate IsMatch(s: string, m: Match) {
    && LineStart(s, m.start)
    && m.start + 2 <= m.text < m.end <= |s|
    && s[m.start] == '#'
    && (forall j :: m.start < j < m.text ==> IsSpace(s[j]))
    && (forall j :: m.text <= j < m.end ==> s[j] != '\n')
    && (m.end == |s| || s[m.end] == '\n')
  }

  /** Index just after the run of whitespace that starts at `i`. */
  function SpaceRunEnd(s: string, i: nat): (j: nat)
    requires i <= |s|
    decreases |s| - i
    ensures i <= j <= |s| && (j == |s| || !IsSpace(s[j]))
    ensures forall k :: i <= k < j ==> IsSpace(s[k])
  {
    if i < |s| && IsSpace(s[i]) then SpaceRunEnd(s, i + 1) else i
  }

  /** Index of the first LF at or after `i`, or the end of the text. */
  function LineEnd(s: string, i: nat): (j: nat)
    requires i <= |s|
    decreases |s| - i
    ensures i <= j <= |s| && (j == |s| || s[j] == '\n')
    ensures forall k :: i <= k < j ==> s[k] != '\n'
  {
    if i < |s| && s[i] != '\n' then LineEnd(s, i + 1) else i
  }

  /**
    Backtracking of `\s+` before `(.+)$`: the largest `k` in `[lo, hi]` at
    which `.+` can take at least one character.
   */
  function LastTextStart(s: string, lo: nat, hi: nat): (r: Option<nat>)
    decreases hi
    ensures r.Some? ==> lo <= r.value <= hi && r.value < |s| && s[r.value] != '\n'
    ensures r.Some? ==> forall k :: r.value < k <= hi && k < |s| ==> s[k] == '\n'
    ensures r.None? ==> forall k :: lo <= k <= hi && k < |s| ==> s[k] == '\n'
  {
    if hi < lo then None
    else if hi < |s| && s[hi] != '\n' then Some(hi)
    else if hi == 0 then None
    else LastTextStart(s, lo, hi - 1)
  }

  /** The match the engine reports for an attempt at index `p`, if any. */
  function HeadingAt(s: string, p: nat): (r: Option<Match>)
    requires p <= |s|
    ensures r.Some? ==> r.value.start == p && IsMatch(s, r.value)
    ensures r.Some? ==>
      forall m :: IsMatch(s, m) && m.start == p ==> m.text <= r.value.text
    ensures r.None? ==> forall m :: IsMatch(s, m) ==> m.start != p
  {
    MatchesAt(s, p);
    if !(LineStart(s, p) && p + 1 < |s| && s[p] == '#' && IsSpace(s[p + 1])) then None
    else
      var q := SpaceRunEnd(s, p + 1);
      match LastTextStart(s, p + 2, q)
      case None => None
      case Some(k) => Some(Match(p, k, LineEnd(s, k)))
  }

  /** What any match starting at `p` implies about the text there. */
  lemma MatchesAt(s: string, p: nat)
    requires p <= |s|
    ensures forall m :: IsMatch(s, m) && m.start == p ==>
      && p + 1 < |s| && s[p] == '#' && IsSpace(s[p + 1])
      && p + 2 <= m.text <= SpaceRunEnd(s, p + 1)
      && m.text < |s| && s[m.text] != '\n'
  {
    forall m | IsMatch(s, m) && m.start == p
      ensures p + 1 < |s| && IsSpace(s[p + 1]) && m.text <= SpaceRunEnd(s, p + 1)
      ensures s[m.text] != '\n'
    {
      var q := SpaceRunEnd(s, p + 1);
      assert IsSpace(s[p + 1]);
      assert s[m.text] != '\n';
    }
  }

  /** `re.search` from index `p` on: the leftmost attempt that succeeds. */
  function FindHeadingFrom(s: string, p: nat): (r: Option<Match>)
    requires p <= |s|
    decreases |s| - p
    ensures r.Some? ==> IsMatch(s, r.value) && p <= r.value.start
    ensures r.Some? ==> forall m :: IsMatch(s, m) && p <= m.start ==>
      r.value.start <= m.start && (m.start == r.value.start ==> m.text <= r.value.text)
    ensures r.None? ==> forall m :: IsMatch(s, m) ==> m.start < p
  {
    match HeadingAt(s, p)
    case Some(m) => Some(m)
    case None => if p == |s| then None else FindHeadingFrom(s, p + 1)
  }

  /**
    `re.search(r'^#\s+(.+)$', s, re.MULTILINE)`: a match of the pattern such
    that no match starts earlier and none at the same start has a longer
    `\s+`; `None` exactly when the pattern matches nowhere. `re.sub` with
    `count=1` replaces this same match.
   */
  function FindHeading(s: string): (r: Option<Match>)
    ensures r.Some? ==> IsMatch(s, r.value)
    ensures r.Some? ==> forall m :: IsMatch(s, m) ==>
      r.value.start <= m.start && (m.start == r.value.start ==> m.text <= r.value.text)
    ensures r.None? <==> forall m :: !IsMatch(s, m)
  {
    FindHeadingFrom(s, 0)
  }

  /**
    A heading never starts with `##`, and its title is non-empty, holds no
    LF, and runs to the end of its line.
   */
  lemma MatchShape(s: string, m: Match)
    requires IsMatch(s, m)
    ensures s[m.start + 1] != '#'
    ensures |s[m.text..m.end]| > 0 && '\n' !in s[m.text..m.end]
    ensures m.end == LineEnd(s, m.text)
  {
    assert IsSpace(s[m.start + 1]);
    var e := LineEnd(s, m.text);
  }

  /**
    When the `#` line itself has text after its whitespace, the title is
    that line with the `#` and the leading whitespace removed; trailing
    whitespace stays in the title.
   */
  lemma TitleOfOrdinaryHeading(s: string, p: nat)
    requires LineStart(s, p) && p + 1 < |s| && s[p] == '#' && IsSpace(s[p + 1])
    requires SpaceRunEnd(s, p + 1) < LineEnd(s, p + 1)
    ensures HeadingAt(s, p).Some?
    ensures s[HeadingAt(s, p).value.text..HeadingAt(s, p).value.end] == LStrip(s[p + 1..LineEnd(s, p + 1)])
  {
    var q := SpaceRunEnd(s, p + 1);
    var e := LineEnd(s, p + 1);
    assert s[q] != '\n';
    assert LastTextStart(s, p + 2, q) == Some(q);
    LineEndFrom(s, p + 1, q);
    assert HeadingAt(s, p) == Some(Match(p, q, e));
    var line := s[p + 1..e];
    LStripAfterSpaces(line, q - (p + 1));
    assert line[q - (p + 1)..] == s[q..e];
  }

  /**
    `\s+` keeps at least the character right after `#`: when no character
    that is not an LF comes after it, up to the end of the text and through
    whitespace only, no match starts at the `#`.
   */
  lemma NoTextAfterMarker(s: string, p: nat)
    requires p + 1 < |s| && SpaceRunEnd(s, p + 1) == |s|
    requires forall k :: p + 2 <= k < |s| ==> s[k] == '\n'
    ensures forall m :: IsMatch(s, m) ==> m.start != p
  {
    MatchesAt(s, p);
  }

  /** Examples: `"# "`, `"#\t\n"` and `"# \n\n"` hold no heading. */
  lemma BareMarkersAreNoHeadings()
    ensures FindHeading("# ").None?
    ensures FindHeading("#\t\n").None?
    ensures FindHeading("# \n\n").None?
  {
    BareMarkerAlone("# ");
    BareMarkerAlone("#\t\n");
    BareMarkerAlone("# \n\n");
  }

  lemma BareMarkerAlone(s: string)
    requires 2 <= |s| && s[0] == '#' && IsSpace(s[1])
    requires forall k :: 2 <= k < |s| ==> s[k] == '\n'
    ensures FindHeading(s).None?
  {
    assert SpaceRunEnd(s, 1) == |s| by {
      SpaceRunToEnd(s, 1);
    }
    NoTextAfterMarker(s, 0);
    forall m | IsMatch(s, m) ensures m.start == 0 {
    }
  }

  lemma {:induction false} SpaceRunToEnd(s: string, i: nat)
    requires i <= |s| && forall k :: i <= k < |s| ==> IsSpace(s[k])
    ensures SpaceRunEnd(s, i) == |s|
    decreases |s| - i
  {
    if i < |s| {
      SpaceRunToEnd(s, i + 1);
    }
  }

  /** The line end seen from any point of the same line is the same. */
  lemma {:induction false} LineEndFrom(s: string, i: nat, j: nat)
    requires i <= |s| && i <= j <= LineEnd(s, i)
    ensures LineEnd(s, j) == LineEnd(s, i)
    decreases j - i
  {
    if i < j {
      LineEndFrom(s, i + 1, j);
    }
  }

  /** Stripping a text whose first `n` characters are exactly its leading whitespace. */
  lemma {:induction false} LStripAfterSpaces(t: string, n: nat)
    requires n <= |t| && (n == |t| || !IsSpace(t[n]))
    requires forall i :: 0 <= i < n ==> IsSpace(t[i])
    ensures LStrip(t) == t[n..]
  {
    if n > 0 {
      assert t[1..][n - 1..] == t[n..];
      LStripAfterSpaces(t[1..], n - 1);
    }
  }
}
