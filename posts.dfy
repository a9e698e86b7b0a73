/**
  `parse_markdown_file` without its I/O: the file's text and its
  modification date arrive as a `SourceFile`, and the Markdown converter is
  the parameter `md`. What is modelled exactly is the title rule (first
  level-1 heading, else a title made from the file name) and the removal of
  that heading from the body.
 */
module Posts {
  import opened Wrappers
  import opened Strings
  import opened Casing
  import opened Heading

  const NotesDir := "notes"

  /** The record `parse_markdown_file` returns. */
  datatype Post = Post(title: string, date: string, content: string, filename: string, filepath: string)

  /**
    What the generator reads about one file: its text as stored, before any
    newline translation, and its `YYYY-MM-DD` date.
   */
  datatype SourceFile = SourceFile(text: string, date: string)

  /**
    `f.read()` on a file opened in text mode with the default newline
    handling: CR LF and a lone CR both become LF.
   */
  function ReadText(raw: string): (r: string)
    ensures '\r' !in r
    ensures |r| <= |raw|
  {
    if raw == [] then []
    else if raw[0] == '\r' then
      "\n" + ReadText(if |raw| > 1 && raw[1] == '\n' then raw[2..] else raw[1..])
    else [raw[0]] + ReadText(raw[1..])
  }

  /** A text without CR is read as stored. */
  lemma {:induction false} ReadTextWithoutCR(raw: string)
    requires '\r' !in raw
    ensures ReadText(raw) == raw
  {
    if raw != [] {
      assert raw[0] != '\r';
      ReadTextWithoutCR(raw[1..]);
    }
  }

  /** A CR LF line break is read as one LF; the text around it is read on its own. */
  lemma CrLfRead(a: string, b: string)
    requires '\r' !in a
    ensures ReadText(a + "\r\n" + b) == a + "\n" + ReadText(b)
  {
    var x := "\r\n" + b;
    assert a + "\r\n" + b == a + x;
    ReadPrefixWithoutCR(a, x);
    assert x[0] == '\r' && x[1] == '\n' && x[2..] == b;
  }

  /** A CR not followed by LF is read as one LF as well. */
  lemma LoneCrRead(a: string, b: string)
    requires '\r' !in a && (b == [] || b[0] != '\n')
    ensures ReadText(a + "\r" + b) == a + "\n" + ReadText(b)
  {
    var x := "\r" + b;
    assert a + "\r" + b == a + x;
    ReadPrefixWithoutCR(a, x);
    assert x[0] == '\r' && x[1..] == b;
  }

  lemma {:induction false} ReadPrefixWithoutCR(a: string, b: string)
    requires '\r' !in a
    ensures ReadText(a + b) == a + ReadText(b)
  {
    if a == [] {
      assert a + b == b;
    } else {
      assert (a + b)[0] == a[0] != '\r';
      assert (a + b)[1..] == a[1..] + b;
      ReadPrefixWithoutCR(a[1..], b);
    }
  }

  /** Title and remaining Markdown of one file. */
  datatype Extracted = Extracted(title: string, body: string)

  /**
    `Path(name).stem` by the rule of `pathlib` up to Python 3.13: the suffix
    starts at the last `.`, provided that `.` is neither the first nor the
    last character, and the stem is what comes before it.
   */
  function Stem(name: string): string {
    match RFind(name, '.')
    case Some(i) => if 0 < i < |name| - 1 then name[..i] else name
    case None => name
  }

  /**
    The stem of `x.md` is `x`; a file named just `.md` is a hidden file
    without suffix, and is its own stem.
   */
  lemma StemOfMarkdownName(x: string)
    ensures Stem(x + ".md") == if x == [] then ".md" else x
  {
    var name := x + ".md";
    assert RFind(name, '.') == Some(|x|) by {
      assert name[|x|] == '.' && name[|x| + 1] == 'm' && name[|x| + 2] == 'd';
      assert name[..|name| - 1] == x + ".m";
      assert (x + ".m")[..|x| + 1] == x + ".";
    }
    assert name[..|x|] == x;
  }

  /**
    The one exception: `.md` is a hidden file without suffix and its own
    stem, and so is the stem of `.md.md`; both notes get the same page.
   */
  lemma HiddenNoteStems()
    ensures Stem(".md") == ".md"
    ensures Stem(".md.md") == ".md"
  {
    var a, b := ".md", ".md.md";
    assert a == [] + ".md";
    StemOfMarkdownName([]);
    assert b == a + ".md";
    StemOfMarkdownName(a);
  }

  /** The title used when the file has no heading: `stem.replace('-', ' ').replace('_', ' ').title()`. */
  function FallbackTitle(stem: string): string {
    TitleCase(Replace(Replace(stem, "-", " "), "_", " "))
  }

  /**
    The fallback title, character by character: separators become spaces,
    a letter at the start of a word is upper-cased and any other letter
    lower-cased. Both separators are uncased, like the space replacing them,
    so word starts are those of the stem.
   */
  lemma FallbackTitleAt(stem: string, i: nat)
    requires i < |stem|
    ensures |FallbackTitle(stem)| == |stem|
    ensures FallbackTitle(stem)[i]
         == if stem[i] == '-' || stem[i] == '_' then ' '
            else if StartsWord(stem, i) then Upper(stem[i])
            else Lower(stem[i])
  {
    var dashes := Replace(stem, "-", " ");
    var spaced := Replace(dashes, "_", " ");
    ReplaceCharAt(stem, '-', ' ', i);
    ReplaceCharAt(dashes, '_', ' ', i);
    TitleCaseAt(spaced, i);
    if i > 0 {
      ReplaceCharAt(stem, '-', ' ', i - 1);
      ReplaceCharAt(dashes, '_', ' ', i - 1);
    }
  }

  /**
    The fallback title has the stem's length, no `-` or `_`, an upper-case
    letter wherever a word of the stem starts with a letter and lower-case
    letters elsewhere.
   */
  lemma FallbackTitleShape(stem: string)
    ensures |FallbackTitle(stem)| == |stem|
    ensures forall i :: 0 <= i < |stem| ==>
      FallbackTitle(stem)[i] != '-' && FallbackTitle(stem)[i] != '_'
    ensures forall i :: 0 <= i < |stem| && IsCased(stem[i]) && StartsWord(stem, i) ==>
      'A' <= FallbackTitle(stem)[i] <= 'Z'
    ensures forall i :: 0 <= i < |stem| && IsCased(stem[i]) && !StartsWord(stem, i) ==>
      'a' <= FallbackTitle(stem)[i] <= 'z'
  {
    FallbackTitleShapeUpTo(stem, |stem|);
  }

  lemma {:induction false} FallbackTitleShapeUpTo(stem: string, n: nat)
    requires n <= |stem|
    ensures |FallbackTitle(stem)| == |stem|
    ensures forall i :: 0 <= i < n ==>
      FallbackTitle(stem)[i] != '-' && FallbackTitle(stem)[i] != '_'
    ensures forall i :: 0 <= i < n && IsCased(stem[i]) && StartsWord(stem, i) ==>
      'A' <= FallbackTitle(stem)[i] <= 'Z'
    ensures forall i :: 0 <= i < n && IsCased(stem[i]) && !StartsWord(stem, i) ==>
      'a' <= FallbackTitle(stem)[i] <= 'z'
  {
    if n == 0 {
      var dashes := Replace(stem, "-", " ");
      if |stem| > 0 {
        FallbackTitleAt(stem, 0);
      } else {
        assert dashes == [] && Replace(dashes, "_", " ") == [];
      }
    } else {
      FallbackTitleShapeUpTo(stem, n - 1);
      FallbackTitleAt(stem, n - 1);
    }
  }

  /**
    The `if title_match` branch of `parse_markdown_file`: title from the
    first heading and the heading's text removed from the content, or the
    fallback title and the content untouched.
   */
  function ExtractTitle(text: string, stem: string): Extracted {
    match FindHeading(text)
    case Some(m) => Extracted(text[m.text..m.end], LStrip(text[..m.start] + text[m.end..]))
    case None => Extracted(FallbackTitle(stem), text)
  }

  function ParsePost(name: string, src: SourceFile, md: string -> string): Post {
    var stem := Stem(name);
    var e := ExtractTitle(ReadText(src.text), stem);
    Post(e.title, src.date, md(e.body), stem, NotesDir + "/" + name)
  }

  /**
    With a heading, the title is one non-empty line of the file, the body
    starts with no whitespace, and the body keeps, verbatim, everything
    after the removed match apart from leading whitespace.
   */
  lemma HeadingTitleAndBody(text: string, stem: string)
    requires FindHeading(text).Some?
    ensures var e := ExtractTitle(text, stem);
      && |e.title| > 0 && '\n' !in e.title
      && (e.body == [] || !IsSpace(e.body[0]))
      && EndsWith(e.body, LStrip(text[FindHeading(text).value.end..]))
  {
    var m := FindHeading(text).value;
    MatchShape(text, m);
    LStripKeepsSuffix(text[..m.start], text[m.end..]);
  }

  /**
    A title taken from a heading holds neither LF nor CR: the heading is
    searched in the text after newline translation.
   */
  lemma HeadingTitleWithoutBreaks(name: string, src: SourceFile, md: string -> string)
    requires FindHeading(ReadText(src.text)).Some?
    ensures var title := ParsePost(name, src, md).title;
      |title| > 0 && '\n' !in title && '\r' !in title
  {
    var text := ReadText(src.text);
    var m := FindHeading(text).value;
    MatchShape(text, m);
    assert forall k :: m.text <= k < m.end ==> text[k] != '\r';
  }

  /** Stripping `x + y` leaves at least the stripped `y` at its end. */
  lemma {:induction false} LStripKeepsSuffix(x: string, y: string)
    ensures EndsWith(LStrip(x + y), LStrip(y))
  {
    if x == [] {
      assert x + y == y;
    } else if IsSpace(x[0]) {
      assert (x + y)[1..] == x[1..] + y;
      LStripKeepsSuffix(x[1..], y);
    } else {
      var ly := LStrip(y);
      assert (x + y)[|x + y| - |ly|..] == y[|y| - |ly|..];
    }
  }

  /**
    Only the first match is removed: any later level-1 heading of the file
    is still in the body, with the same text, and still matches there.
   */
  lemma LaterHeadingKept(text: string, stem: string, later: Match)
    requires FindHeading(text).Some? && IsMatch(text, later)
    requires later.start >= FindHeading(text).value.end
    ensures var body := ExtractTitle(text, stem).body;
      var d := |text| - |body|;
      && d <= later.start
      && IsMatch(body, Match(later.start - d, later.text - d, later.end - d))
  {
    var m := FindHeading(text).value;
    HeadingCut(text, stem);
    CutStripKeepsMatch(text, m.start, m.end, later);
  }

  /** A later heading keeps its title text in the body, character for character. */
  lemma LaterHeadingText(text: string, stem: string, later: Match)
    requires FindHeading(text).Some? && IsMatch(text, later)
    requires later.start >= FindHeading(text).value.end
    ensures var body := ExtractTitle(text, stem).body;
      var d := |text| - |body|;
      && d <= later.start
      && body[later.text - d..later.end - d] == text[later.text..later.end]
  {
    var m := FindHeading(text).value;
    HeadingCut(text, stem);
    CutStripTail(text, m.start, m.end, later.start);
  }

  /** Where the removed heading ends: at the end of the text or at an LF. */
  lemma HeadingCut(text: string, stem: string)
    requires FindHeading(text).Some?
    ensures var m := FindHeading(text).value;
      && m.start <= m.end <= |text| && (m.end < |text| ==> text[m.end] == '\n')
      && ExtractTitle(text, stem).body == LStrip(text[..m.start] + text[m.end..])
  {
  }

  /** A match after the cut `s[a..b]` survives the cut and the stripping. */
  lemma CutStripKeepsMatch(s: string, a: nat, b: nat, later: Match)
    requires a <= b < later.start && IsMatch(s, later)
    ensures var body := LStrip(s[..a] + s[b..]);
      var d := |s| - |body|;
      && d <= later.start
      && IsMatch(body, Match(later.start - d, later.text - d, later.end - d))
  {
    var body := LStrip(s[..a] + s[b..]);
    CutStripTail(s, a, b, later.start);
    ShiftKeepsMatch(s, body, |s| - |body|, later);
  }

  /**
    Cutting `s[a..b]` out and stripping leading whitespace keeps, shifted
    left, everything from a later line that starts with a non-space.
   */
  lemma CutStripTail(s: string, a: nat, b: nat, c: nat)
    requires a <= b < c < |s| && s[c - 1] == '\n' && !IsSpace(s[c])
    ensures var body := LStrip(s[..a] + s[b..]);
      var d := |s| - |body|;
      && d <= c && LineStart(body, c - d)
      && forall k :: c - d <= k < |body| ==> body[k] == s[k + d]
  {
    var u := s[..a] + s[b..];
    var e := b - a;
    var n := LeadingSpaces(u);
    assert u[c - e] == s[c];
    forall k | c - e - n <= k < |u| - n ensures u[n..][k] == s[k + n + e] {
      assert u[n..][k] == u[k + n];
    }
    assert c - e - n > 0 ==> u[n..][c - e - n - 1] == s[c - 1];
  }

  /**
    A match depends only on the text from its start on, and on `^` holding
    there: a text `t` that agrees with `s` from the match on, shifted by `d`,
    has the shifted match.
   */
  lemma ShiftKeepsMatch(s: string, t: string, d: nat, m: Match)
    requires IsMatch(s, m) && d <= m.start && |t| == |s| - d
    requires forall k :: m.start - d <= k < |t| ==> t[k] == s[k + d]
    requires LineStart(t, m.start - d)
    ensures IsMatch(t, Match(m.start - d, m.text - d, m.end - d))
  {
    assert t[m.start - d] == s[m.start];
    assert m.end - d < |t| ==> t[m.end - d] == s[m.end];
  }
}
