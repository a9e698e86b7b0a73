/**
  Whitespace and letter case as Python's `str` sees them: the whitespace
  set shared by the regular expression class `\s` and `str.lstrip()`, the
  `lstrip()` operation itself, and `str.title()` restricted to ASCII.
 */
module Casing {

  /**
    A whitespace character for `str.isspace`, `str.lstrip()` and the `\s`
    class of a `str` pattern: the ASCII controls TAB, LF, VT, FF, CR and the
    file/group/record/unit separators, the space, and the Unicode spaces and
    line/paragraph separators.
   */
  predicate IsSpace(c: char) {
    c == ' ' || '\t' <= c <= '\r' || '\U{1C}' <= c <= '\U{1F}'
    || c == '\U{85}' || c == '\U{A0}' || c == '\U{1680}'
    || '\U{2000}' <= c <= '\U{200A}' || c == '\U{2028}' || c == '\U{2029}'
    || c == '\U{202F}' || c == '\U{205F}' || c == '\U{3000}'
  }

  /** Length of the run of whitespace at the start of `s`. */
  function LeadingSpaces(s: string): (n: nat)
    ensures n <= |s| && (n == |s| || !IsSpace(s[n]))
    ensures forall i :: 0 <= i < n ==> IsSpace(s[i])
  {
    if s != [] && IsSpace(s[0]) then 1 + LeadingSpaces(s[1..]) else 0
  }

  /** `s.lstrip()`: `s` without its leading whitespace. */
  function LStrip(s: string): string {
    s[LeadingSpaces(s)..]
  }

  /** A cased character; only ASCII letters are modelled as cased. */
  predicate IsCased(c: char) {
    'a' <= c <= 'z' || 'A' <= c <= 'Z'
  }

  function Upper(c: char): (r: char)
    ensures IsCased(r) == IsCased(c) && !('a' <= r <= 'z')
    ensures !IsCased(c) ==> r == c
  {
    if 'a' <= c <= 'z' then (c as int - 32) as char else c
  }

  function Lower(c: char): (r: char)
    ensures IsCased(r) == IsCased(c) && !('A' <= r <= 'Z')
    ensures !IsCased(c) ==> r == c
  {
    if 'A' <= c <= 'Z' then (c as int + 32) as char else c
  }

  /**
    The loop of `str.title()`: a character is title-cased when the previous
    input character was not cased, and lower-cased when it was.
   */
  function TitleCaseAfter(s: string, previousIsCased: bool): string
  {
    if s == [] then []
    else [if previousIsCased then Lower(s[0]) else Upper(s[0])]
         + TitleCaseAfter(s[1..], IsCased(s[0]))
  }

  /** `s.title()`. */
  function TitleCase(s: string): string {
    TitleCaseAfter(s, false)
  }

  /** A letter starts a word when it is first or follows an uncased character. */
  predicate StartsWord(s: string, i: nat)
    requires i < |s|
  {
    i == 0 || !IsCased(s[i - 1])
  }

  lemma {:induction false} TitleCaseAfterAt(s: string, previousIsCased: bool, i: nat)
    requires i < |s|
    ensures |TitleCaseAfter(s, previousIsCased)| == |s|
    ensures TitleCaseAfter(s, previousIsCased)[i]
         == if (if i == 0 then previousIsCased else IsCased(s[i - 1]))
            then Lower(s[i]) else Upper(s[i])
  {
    if i > 0 {
      TitleCaseAfterAt(s[1..], IsCased(s[0]), i - 1);
    } else if |s| > 1 {
      TitleCaseAfterAt(s[1..], IsCased(s[0]), 0);
    }
  }

  /**
    `title()` keeps the length, upper-cases every letter that starts a word,
    lower-cases every other letter and leaves every other character alone.
   */
  lemma TitleCaseAt(s: string, i: nat)
    requires i < |s|
    ensures |TitleCase(s)| == |s|
    ensures TitleCase(s)[i] == if StartsWord(s, i) then Upper(s[i]) else Lower(s[i])
  {
    TitleCaseAfterAt(s, false, i);
  }

  /** Title-casing a title-cased string changes nothing. */
  lemma TitleCaseIdempotent(s: string)
    ensures TitleCase(TitleCase(s)) == TitleCase(s)
  {
    var t := TitleCase(s);
    if s != [] {
      TitleCaseAt(s, 0);
      TitleCaseAt(t, 0);
    }
    forall i | 0 <= i < |s|
      ensures TitleCase(t)[i] == t[i]
    {
      TitleCaseAt(s, i);
      TitleCaseAt(t, i);
      if i > 0 {
        TitleCaseAt(s, i - 1);
      }
    }
  }
}
