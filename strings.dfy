/**
  The Python `str` operations the generator relies on, on `seq<char>`:
  `find`, `rfind`, `endswith` and `replace`. `Replace` is the one that
  matters: every template substitution and the separator mapping of the
  fallback title go through it.
 */
module Strings {
  import opened Wrappers

  /** `t` occurs in `s` starting at index `i`. */
  predicate OccursAt(s: string, t: string, i: nat) {
    i + |t| <= |s| && s[i..i + |t|] == t
  }

  /** `t` is a substring of `s` (Python's `t in s`). */
  predicate Occurs(s: string, t: string) {
    exists i: nat :: i <= |s| && OccursAt(s, t, i)
  }

  /** `s.endswith(suffix)`. */
  predicate EndsWith(s: string, suffix: string) {
    |suffix| <= |s| && s[|s| - |suffix|..] == suffix
  }

  /** An occurrence in a suffix of `s` is an occurrence in `s`, shifted by `d`. */
  lemma OccursAtShift(s: string, t: string, d: nat, i: nat)
    requires d <= |s|
    ensures OccursAt(s[d..], t, i) <==> OccursAt(s, t, i + d)
  {
    if i + |t| <= |s| - d {
      assert s[d..][i..i + |t|] == s[i + d..i + d + |t|];
    }
  }

  /** Leftmost occurrence of `t` in `s` at or after index `from`. */
  function FindFrom(s: string, t: string, from: nat): (r: Option<nat>)
    requires from <= |s|
    decreases |s| - from
    ensures r.Some? ==> from <= r.value && OccursAt(s, t, r.value)
    ensures r.Some? ==> forall j: nat :: from <= j < r.value ==> !OccursAt(s, t, j)
    ensures r.None? ==> forall j: nat :: from <= j ==> !OccursAt(s, t, j)
  {
    if OccursAt(s, t, from) then Some(from)
    else if from == |s| then None
    else FindFrom(s, t, from + 1)
  }

  /** `s.find(t)`: the leftmost index at which `t` occurs, if any. */
  function Find(s: string, t: string): (r: Option<nat>)
    ensures r.Some? ==> OccursAt(s, t, r.value)
    ensures r.Some? ==> forall j: nat :: j < r.value ==> !OccursAt(s, t, j)
    ensures r.None? <==> !Occurs(s, t)
  {
    FindFrom(s, t, 0)
  }

  /** `s.rfind(c)` for a single character: the rightmost index holding `c`. */
  function RFind(s: string, c: char): (r: Option<nat>)
    ensures r.Some? ==> r.value < |s| && s[r.value] == c
    ensures r.Some? ==> forall j :: r.value < j < |s| ==> s[j] != c
    ensures r.None? <==> c !in s
  {
    if s == [] then None
    else if s[|s| - 1] == c then Some(|s| - 1)
    else
      var r := RFind(s[..|s| - 1], c);
      assert s == s[..|s| - 1] + [s[|s| - 1]];
      r
  }

  /**
    `s.replace(t, v)` for a non-empty `t`: scanning left to right, each
    occurrence of `t` that starts at the scan position is replaced by `v` and
    the scan resumes after it; otherwise one character is copied. The
    replacement text is never rescanned.
   */
  function Replace(s: string, t: string, v: string): string
    requires |t| > 0
    decreases |s|
  {
    if s == [] then []
    else if OccursAt(s, t, 0) then v + Replace(s[|t|..], t, v)
    else [s[0]] + Replace(s[1..], t, v)
  }

  /** When `t` does not occur, `Replace` returns the text unchanged. */
  lemma {:induction false} ReplaceNoOccurrence(s: string, t: string, v: string)
    requires |t| > 0
    requires !Occurs(s, t)
    ensures Replace(s, t, v) == s
  {
    if s != [] {
      assert !OccursAt(s, t, 0);
      forall i: nat ensures !OccursAt(s[1..], t, i) {
        OccursAtShift(s, t, 1, i);
      }
      ReplaceNoOccurrence(s[1..], t, v);
    }
  }

  /**
    `Replace` cuts at the leftmost occurrence: the text before it is kept
    verbatim, the occurrence becomes `v`, and replacing continues on the
    text after the occurrence. With ReplaceNoOccurrence this determines
    `Replace` completely: every non-overlapping occurrence, left to right.
   */
  lemma ReplaceAtFirstOccurrence(s: string, t: string, v: string, i: nat)
    requires |t| > 0
    requires Find(s, t) == Some(i)
    ensures i + |t| <= |s|
    ensures Replace(s, t, v) == s[..i] + v + Replace(s[i + |t|..], t, v)
  {
    ReplaceAtLeftmost(s, t, v, i);
  }

  /** `Replace` up to an occurrence at `i` with none before it. */
  lemma {:induction false} ReplaceAtLeftmost(s: string, t: string, v: string, i: nat)
    requires |t| > 0
    requires OccursAt(s, t, i) && forall j: nat :: j < i ==> !OccursAt(s, t, j)
    ensures Replace(s, t, v) == s[..i] + v + Replace(s[i + |t|..], t, v)
  {
    if i > 0 {
      LeftmostInTail(s, t, i);
      ReplaceAtLeftmost(s[1..], t, v, i - 1);
      var tail := Replace(s[i + |t|..], t, v);
      assert s[1..][i - 1 + |t|..] == s[i + |t|..];
      assert Replace(s, t, v) == [s[0]] + (s[1..][..i - 1] + v + tail);
      assert [s[0]] + s[1..][..i - 1] == s[..i];
    }
  }

  /** Dropping the first character moves the leftmost occurrence one place left. */
  lemma LeftmostInTail(s: string, t: string, i: nat)
    requires 0 < i && OccursAt(s, t, i) && forall j: nat :: j < i ==> !OccursAt(s, t, j)
    ensures !OccursAt(s, t, 0)
    ensures OccursAt(s[1..], t, i - 1) && forall j: nat :: j < i - 1 ==> !OccursAt(s[1..], t, j)
  {
    OccursAtShift(s, t, 1, i - 1);
    forall j: nat | j < i - 1 ensures !OccursAt(s[1..], t, j) {
      OccursAtShift(s, t, 1, j);
    }
  }

  /** Replacing a token in the token itself gives exactly the replacement. */
  lemma ReplaceWholeToken(t: string, v: string)
    requires |t| > 0
    ensures Replace(t, t, v) == v
  {
    assert Find(t, t) == Some(0) by {
      assert OccursAt(t, t, 0);
    }
    ReplaceAtFirstOccurrence(t, t, v, 0);
    assert t[|t|..] == [];
  }

  /** No occurrence of `t` in `a + b` starts inside `a` and ends inside `b`. */
  predicate NoStraddle(a: string, b: string, t: string) {
    forall i: nat :: i < |a| < i + |t| ==> !OccursAt(a + b, t, i)
  }

  /** Without an occurrence across the seam, `Replace` works piecewise. */
  lemma {:induction false} ReplaceConcat(a: string, b: string, t: string, v: string)
    requires |t| > 0
    requires NoStraddle(a, b, t)
    ensures Replace(a + b, t, v) == Replace(a, t, v) + Replace(b, t, v)
    decreases |a|
  {
    if a == [] {
      assert a + b == b;
    } else if OccursAt(a + b, t, 0) {
      assert |t| <= |a|;
      assert (a + b)[..|t|] == a[..|t|];
      assert (a + b)[|t|..] == a[|t|..] + b;
      forall i: nat | i < |a[|t|..]| < i + |t|
        ensures !OccursAt(a[|t|..] + b, t, i)
      {
        OccursAtShift(a + b, t, |t|, i);
      }
      ReplaceConcat(a[|t|..], b, t, v);
    } else {
      assert !OccursAt(a, t, 0) by {
        if |t| <= |a| { assert (a + b)[..|t|] == a[..|t|]; }
      }
      assert (a + b)[1..] == a[1..] + b;
      forall i: nat | i < |a[1..]| < i + |t|
        ensures !OccursAt(a[1..] + b, t, i)
      {
        OccursAtShift(a + b, t, 1, i);
      }
      ReplaceConcat(a[1..], b, t, v);
    }
  }

  /**
    Text that cannot begin an occurrence on the left (it lacks the token's
    first character) and text that cannot end one on the right (it lacks the
    token's last character) pass through `Replace` untouched, whatever lies
    between them.
   */
  lemma ReplaceFrame(a: string, x: string, b: string, t: string, v: string)
    requires |t| > 0
    requires t[0] !in a && t[|t| - 1] !in b
    ensures Replace(a + x + b, t, v) == a + Replace(x, t, v) + b
  {
    assert a + x + b == a + (x + b);
    forall i: nat | i < |a| < i + |t|
      ensures !OccursAt(a + (x + b), t, i)
    {
      assert (a + (x + b))[i] == a[i] != t[0];
    }
    forall i: nat | i < |x| < i + |t| <= |x + b|
      ensures !OccursAt(x + b, t, i)
    {
      var k := i + |t| - 1;
      assert (x + b)[k] == b[k - |x|] != t[|t| - 1];
      assert (x + b)[i..i + |t|][|t| - 1] == (x + b)[k];
    }
    forall i: nat | i < |a| ensures !OccursAt(a, t, i) {
      assert a[i] != t[0];
    }
    forall i: nat | i + |t| <= |b| ensures !OccursAt(b, t, i) {
      assert b[i + |t| - 1] != t[|t| - 1];
      assert b[i..i + |t|][|t| - 1] == b[i + |t| - 1];
    }
    ReplaceConcat(a, x + b, t, v);
    ReplaceConcat(x, b, t, v);
    ReplaceNoOccurrence(a, t, v);
    ReplaceNoOccurrence(b, t, v);
  }

  /**
    Replacing one character by another is a pointwise map that keeps the
    length (`s.replace('-', ' ')`).
   */
  lemma {:induction false} ReplaceCharAt(s: string, a: char, b: char, i: nat)
    requires i < |s|
    ensures |Replace(s, [a], [b])| == |s|
    ensures Replace(s, [a], [b])[i] == if s[i] == a then b else s[i]
  {
    assert OccursAt(s, [a], 0) <==> s[0] == a by {
      assert s[..1] == [s[0]];
    }
    if i > 0 {
      ReplaceCharAt(s[1..], a, b, i - 1);
    } else if |s| > 1 {
      ReplaceCharAt(s[1..], a, b, 0);
    }
  }

  /** A text stands where it was put. */
  lemma OccursInMiddle(a: string, t: string, b: string)
    ensures OccursAt(a + t + b, t, |a|) && Occurs(a + t + b, t)
  {
    var s := a + t + b;
    assert s[|a|..|a| + |t|] == t;
    assert OccursAt(s, t, |a|);
  }
}
