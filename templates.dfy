/**
  `{{NAME}}` placeholders and `generate_post_page`: three `str.replace`
  calls in a fixed order, TITLE, then DATE, then CONTENT. What one step
  inserts is seen by the steps after it, never by the steps before.
 */
module Templates {
  import opened Strings
  import opened Posts

  /** A text without braces: every placeholder name, and the plain text around a placeholder. */
  predicate BraceFree(s: string) {
    '{' !in s && '}' !in s
  }

  function Placeholder(n: string): string {
    "{{" + n + "}}"
  }

  const TitleName := "TITLE"
  const DateName := "DATE"
  const ContentName := "CONTENT"
  const PostListName := "POST_LIST"

  const TitleToken := Placeholder(TitleName)
  const DateToken := Placeholder(DateName)
  const ContentToken := Placeholder(ContentName)
  const PostListToken := Placeholder(PostListName)

  /** The page of one post: the three substitutions of `generate_post_page`, in order. */
  function PostPage(p: Post, template: string): string {
    Replace(Replace(Replace(template, TitleToken, p.title), DateToken, p.date), ContentToken, p.content)
  }

  /** Where the braces of a placeholder are: the two opening ones first, the two closing ones last. */
  lemma PlaceholderBraces(n: string)
    requires BraceFree(n)
    ensures |Placeholder(n)| == |n| + 4
    ensures forall k :: 0 <= k < |Placeholder(n)| ==>
      (Placeholder(n)[k] == '{' <==> k < 2) && (Placeholder(n)[k] == '}' <==> |n| + 2 <= k)
  {
    var p := Placeholder(n);
    forall k | 2 <= k < |n| + 2 ensures p[k] == n[k - 2] {
    }
  }

  /** A placeholder does not occur inside a placeholder with another name. */
  lemma PlaceholderNotInOther(n1: string, n2: string)
    requires BraceFree(n1) && BraceFree(n2) && n1 != n2
    ensures !Occurs(Placeholder(n1), Placeholder(n2))
  {
    var s, t := Placeholder(n1), Placeholder(n2);
    PlaceholderBraces(n1);
    PlaceholderBraces(n2);
    forall i: nat | i + |t| <= |s| ensures !OccursAt(s, t, i) {
      if i > 0 {
        assert s[i..i + |t|][1] == s[i + 1] != t[1];
      } else if |t| == |s| {
        assert s[..|t|] == s;
        assert n1 == s[2..|s| - 2] && n2 == t[2..|t| - 2];
      } else {
        assert s[..|t|][|t| - 2] == s[|t| - 2] != t[|t| - 2];
      }
    }
  }

  /**
    Replacing `{{N1}}` in a text holding the placeholder `{{N}}` works on the
    two sides separately: `{{N}}` itself becomes `v` when the names agree
    and is kept verbatim otherwise, and no occurrence can straddle it.
   */
  lemma ReplaceAroundPlaceholder(a: string, n: string, b: string, n1: string, v: string)
    requires BraceFree(n) && BraceFree(n1)
    ensures Replace(a + Placeholder(n) + b, Placeholder(n1), v)
         == Replace(a, Placeholder(n1), v)
            + (if n == n1 then v else Placeholder(n))
            + Replace(b, Placeholder(n1), v)
  {
    var p, t := Placeholder(n), Placeholder(n1);
    PlaceholderBraces(n);
    PlaceholderBraces(n1);
    var q := p + b;
    assert a + p + b == a + q;
    OpeningBracesNoStraddle(a, n, b, n1);
    ClosingBracesNoStraddle(n, b, n1);
    ReplaceConcat(a, q, t, v);
    ReplaceConcat(p, b, t, v);
    if n == n1 {
      ReplaceWholeToken(t, v);
    } else {
      PlaceholderNotInOther(n, n1);
      ReplaceNoOccurrence(p, t, v);
    }
  }

  /** No `{{N1}}` starts before a placeholder and ends inside it: its `{{` would have to overlap. */
  lemma OpeningBracesNoStraddle(a: string, n: string, b: string, n1: string)
    requires BraceFree(n) && BraceFree(n1)
    ensures NoStraddle(a, Placeholder(n) + b, Placeholder(n1))
  {
    var p, t := Placeholder(n), Placeholder(n1);
    PlaceholderBraces(n);
    PlaceholderBraces(n1);
    var w := a + (p + b);
    forall i: nat | i < |a| < i + |t| ensures !OccursAt(w, t, i) {
      var j := |a| - i;
      if i + |t| <= |w| {
        var x := w[i..i + |t|];
        if j == 1 {
          assert x[2] == p[1] == '{' && t[2] != '{';
        } else {
          assert x[j] == p[0] == '{' && t[j] != '{';
        }
      }
    }
  }

  /** No `{{N1}}` starts inside a placeholder and ends after it: its `}}` would have to overlap. */
  lemma ClosingBracesNoStraddle(n: string, b: string, n1: string)
    requires BraceFree(n) && BraceFree(n1)
    ensures NoStraddle(Placeholder(n), b, Placeholder(n1))
  {
    var p, t := Placeholder(n), Placeholder(n1);
    PlaceholderBraces(n);
    PlaceholderBraces(n1);
    var q := p + b;
    forall i: nat | i < |p| < i + |t| ensures !OccursAt(q, t, i) {
      var k := |p| - 1 - i;
      if i + |t| <= |q| {
        var x := q[i..i + |t|];
        if k < |t| - 2 {
          assert x[k] == p[|p| - 1] == '}' && t[k] != '}';
        } else {
          assert x[k - 1] == p[|p| - 2] == '}' && t[k - 1] != '}';
        }
      }
    }
  }

  /** A template without any of the three placeholders is the page itself. */
  lemma PostPageWithoutPlaceholders(p: Post, template: string)
    requires !Occurs(template, TitleToken) && !Occurs(template, DateToken)
    requires !Occurs(template, ContentToken)
    ensures PostPage(p, template) == template
  {
    ReplaceNoOccurrence(template, TitleToken, p.title);
    ReplaceNoOccurrence(template, DateToken, p.date);
    ReplaceNoOccurrence(template, ContentToken, p.content);
  }

  /**
    The content is inserted last and never rescanned, and the text on either
    side of `{{CONTENT}}` is filled in as if it stood alone.
   */
  lemma PostPageContentVerbatim(p: Post, a: string, b: string)
    ensures PostPage(p, a + ContentToken + b) == PostPage(p, a) + p.content + PostPage(p, b)
  {
    ReplaceAroundPlaceholder(a, ContentName, b, TitleName, p.title);
    var a1, b1 := Replace(a, TitleToken, p.title), Replace(b, TitleToken, p.title);
    ReplaceAroundPlaceholder(a1, ContentName, b1, DateName, p.date);
    var a2, b2 := Replace(a1, DateToken, p.date), Replace(b1, DateToken, p.date);
    ReplaceAroundPlaceholder(a2, ContentName, b2, ContentName, p.content);
  }

  /**
    The title is inserted first, so a `{{DATE}}` or `{{CONTENT}}` inside it
    is filled in by the later steps, when the template around `{{TITLE}}`
    holds no braces.
   */
  lemma PostPageTitleRescanned(p: Post, a: string, b: string)
    requires BraceFree(a) && BraceFree(b)
    ensures PostPage(p, a + TitleToken + b)
         == a + Replace(Replace(p.title, DateToken, p.date), ContentToken, p.content) + b
  {
    ReplaceFrame(a, TitleToken, b, TitleToken, p.title);
    ReplaceWholeToken(TitleToken, p.title);
    ReplaceFrame(a, p.title, b, DateToken, p.date);
    ReplaceFrame(a, Replace(p.title, DateToken, p.date), b, ContentToken, p.content);
  }

  /** The date is inserted second: only a `{{CONTENT}}` inside it is filled in afterwards. */
  lemma PostPageDateRescanned(p: Post, a: string, b: string)
    requires BraceFree(a) && BraceFree(b)
    ensures PostPage(p, a + DateToken + b) == a + Replace(p.date, ContentToken, p.content) + b
  {
    ReplaceFrame(a, DateToken, b, TitleToken, p.title);
    assert !Occurs(DateToken, TitleToken) by {
      PlaceholderNotInOther(DateName, TitleName);
    }
    ReplaceNoOccurrence(DateToken, TitleToken, p.title);
    ReplaceFrame(a, DateToken, b, DateToken, p.date);
    ReplaceWholeToken(DateToken, p.date);
    ReplaceFrame(a, p.date, b, ContentToken, p.content);
  }
}
