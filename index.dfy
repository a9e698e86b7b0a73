/**
  `generate_index_page`: the posts sorted newest first by their date
  string, one `post-item` block per post appended in that order, then the
  substitution of `{{POST_LIST}}` and of `{{TITLE}}` with the site title.
 */
module Index {
  import opened Strings
  import opened Ordering
  import opened Posts
  import opened Templates

  const SiteTitle := "Vibe Reversing - Reverse Engineering Notes"

  /** Dates never increase along the list. */
  predicate NewestFirst(ps: seq<Post>) {
    forall i, j :: 0 <= i < j < |ps| ==> Leq(ps[j].date, ps[i].date)
  }

  /** Every post of the list is dated at most `d`. */
  predicate AllAtMost(ps: seq<Post>, d: string) {
    forall i :: 0 <= i < |ps| ==> Leq(ps[i].date, d)
  }

  /** The posts dated `d`, in list order. */
  function WithDate(ps: seq<Post>, d: string): seq<Post> {
    if ps == [] then []
    else (if ps[0].date == d then [ps[0]] else []) + WithDate(ps[1..], d)
  }

  /**
    One step of a stable sort, newest first: `p` goes before the first
    strictly older post, hence after every post of its own date.
   */
  function InsertByDate(p: Post, ps: seq<Post>): seq<Post> {
    if ps == [] then [p]
    else if Less(ps[0].date, p.date) then [p] + ps
    else [ps[0]] + InsertByDate(p, ps[1..])
  }

  /** `sorted(posts, key=lambda x: x['date'], reverse=True)`. */
  function SortByDate(ps: seq<Post>): seq<Post> {
    if ps == [] then [] else InsertByDate(ps[|ps| - 1], SortByDate(ps[..|ps| - 1]))
  }

  lemma {:induction false} WithDateAppend(a: seq<Post>, b: seq<Post>, d: string)
    ensures WithDate(a + b, d) == WithDate(a, d) + WithDate(b, d)
  {
    if a == [] {
      assert a + b == b;
    } else {
      assert (a + b)[1..] == a[1..] + b;
      WithDateAppend(a[1..], b, d);
    }
  }

  lemma {:induction false} WithDateNone(ps: seq<Post>, d: string)
    requires forall i :: 0 <= i < |ps| ==> ps[i].date != d
    ensures WithDate(ps, d) == []
  {
    if ps != [] {
      WithDateNone(ps[1..], d);
    }
  }

  lemma {:induction false} InsertByDatePermutes(p: Post, ps: seq<Post>)
    ensures multiset(InsertByDate(p, ps)) == multiset(ps) + multiset{p}
  {
    if ps != [] && !Less(ps[0].date, p.date) {
      InsertByDatePermutes(p, ps[1..]);
      assert ps == [ps[0]] + ps[1..];
    }
  }

  lemma {:induction false} InsertByDateAtMost(p: Post, ps: seq<Post>, d: string)
    requires AllAtMost(ps, d) && Leq(p.date, d)
    ensures AllAtMost(InsertByDate(p, ps), d)
  {
    if ps != [] && !Less(ps[0].date, p.date) {
      InsertByDateAtMost(p, ps[1..], d);
    }
  }

  lemma {:induction false} InsertByDateNewestFirst(p: Post, ps: seq<Post>)
    requires NewestFirst(ps)
    ensures NewestFirst(InsertByDate(p, ps))
  {
    if ps == [] {
    } else if Less(ps[0].date, p.date) {
      var r := [p] + ps;
      forall j | 0 < j < |r| ensures Leq(r[j].date, p.date) {
        assert Leq(ps[j - 1].date, ps[0].date);
        LeqTransitive(ps[j - 1].date, ps[0].date, p.date);
      }
    } else {
      var rest := InsertByDate(p, ps[1..]);
      InsertByDateNewestFirst(p, ps[1..]);
      LeqIffNotLess(p.date, ps[0].date);
      InsertByDateAtMost(p, ps[1..], ps[0].date);
      assert InsertByDate(p, ps) == [ps[0]] + rest;
    }
  }

  /** Inserting `p` puts it after every post of the same date and leaves their order alone. */
  lemma {:induction false} InsertByDateWithDate(p: Post, ps: seq<Post>, d: string)
    requires NewestFirst(ps)
    ensures WithDate(InsertByDate(p, ps), d) == WithDate(ps, d) + (if p.date == d then [p] else [])
  {
    if ps == [] {
    } else if Less(ps[0].date, p.date) {
      assert ([p] + ps)[1..] == ps;
      if p.date == d {
        OlderWithoutDate(ps, d);
      }
    } else {
      var rest := InsertByDate(p, ps[1..]);
      NewestFirstTail(ps);
      InsertByDateWithDate(p, ps[1..], d);
      assert InsertByDate(p, ps) == [ps[0]] + rest;
      assert ([ps[0]] + rest)[1..] == rest;
    }
  }

  lemma NewestFirstTail(ps: seq<Post>)
    requires NewestFirst(ps) && ps != []
    ensures NewestFirst(ps[1..])
  {
    forall i, j | 0 <= i < j < |ps| - 1 ensures Leq(ps[1..][j].date, ps[1..][i].date) {
      assert Leq(ps[j + 1].date, ps[i + 1].date);
    }
  }

  /** A newest-first list that starts older than `d` has no post dated `d`. */
  lemma OlderWithoutDate(ps: seq<Post>, d: string)
    requires NewestFirst(ps) && ps != [] && Less(ps[0].date, d)
    ensures WithDate(ps, d) == []
  {
    forall i | 0 <= i < |ps| ensures ps[i].date != d {
      assert Leq(ps[i].date, ps[0].date);
      LeqLessTransitive(ps[i].date, ps[0].date, d);
      LessIrreflexive(d);
    }
    WithDateNone(ps, d);
  }

  /** The sorted list holds exactly the posts given, as many times as given. */
  lemma {:induction false} SortByDatePermutes(ps: seq<Post>)
    ensures multiset(SortByDate(ps)) == multiset(ps)
  {
    if ps != [] {
      var init, last := ps[..|ps| - 1], ps[|ps| - 1];
      SortByDatePermutes(init);
      InsertByDatePermutes(last, SortByDate(init));
      assert ps == init + [last];
      assert multiset(init + [last]) == multiset(init) + multiset{last};
    }
  }

  /** The sorted list is newest first. */
  lemma {:induction false} SortByDateNewestFirst(ps: seq<Post>)
    ensures NewestFirst(SortByDate(ps))
  {
    if ps != [] {
      SortByDateNewestFirst(ps[..|ps| - 1]);
      InsertByDateNewestFirst(ps[|ps| - 1], SortByDate(ps[..|ps| - 1]));
    }
  }

  /** The sort is stable: posts of equal date keep their input order. */
  lemma {:induction false} SortByDateStable(ps: seq<Post>, d: string)
    ensures WithDate(SortByDate(ps), d) == WithDate(ps, d)
  {
    if ps != [] {
      var init, last := ps[..|ps| - 1], ps[|ps| - 1];
      SortByDateStable(init, d);
      SortByDateNewestFirst(init);
      InsertByDateWithDate(last, SortByDate(init), d);
      assert ps == init + [last];
      WithDateAppend(init, [last], d);
    }
  }

  /** The fixed text of a `post-item` block, from the f-string of the loop. */
  const BlockOpen := "\n        <div class=\"post-item\">\n            <h2><a "
  const LinkClose := ">"
  const TitleClose := "</a></h2>\n            <p class=\"date\">"
  const BlockClose := "</p>\n        </div>\n        "

  /** `href="<filename>.html"`. */
  function Href(p: Post): string {
    "href=\"" + p.filename + ".html\""
  }

  /** The `post-item` block of one post. */
  function Block(p: Post): string {
    BlockOpen + Href(p) + LinkClose + p.title + TitleClose + p.date + BlockClose
  }

  /** A block links to `<filename>.html`, shows the title and shows the date. */
  lemma BlockFields(p: Post)
    ensures Occurs(Block(p), Href(p))
    ensures Occurs(Block(p), p.title)
    ensures Occurs(Block(p), p.date)
  {
    PiecesOccur(BlockOpen, Href(p), LinkClose, p.title, TitleClose, p.date, BlockClose);
  }

  /** The second, fourth and sixth of seven concatenated pieces occur in the result. */
  lemma PiecesOccur(a: string, b: string, c: string, d: string, e: string, f: string, g: string)
    ensures Occurs(a + b + c + d + e + f + g, b)
    ensures Occurs(a + b + c + d + e + f + g, d)
    ensures Occurs(a + b + c + d + e + f + g, f)
  {
    var s := a + b + c + d + e + f + g;
    assert s == a + b + (c + d + e + f + g);
    OccursInMiddle(a, b, c + d + e + f + g);
    assert s == (a + b + c) + d + (e + f + g);
    OccursInMiddle(a + b + c, d, e + f + g);
    assert s == (a + b + c + d + e) + f + g;
    OccursInMiddle(a + b + c + d + e, f, g);
  }

  /** The rendering of each post of the list, concatenated in list order. */
  function Join(ps: seq<Post>, render: Post -> string): string {
    if ps == [] then "" else Join(ps[..|ps| - 1], render) + render(ps[|ps| - 1])
  }

  lemma {:induction false} JoinAppend(a: seq<Post>, b: seq<Post>, render: Post -> string)
    ensures Join(a + b, render) == Join(a, render) + Join(b, render)
    decreases |b|
  {
    if b == [] {
      assert a + b == a;
    } else {
      var init := b[..|b| - 1];
      assert (a + b)[..|a + b| - 1] == a + init;
      JoinAppend(a, init, render);
    }
  }

  /** The fragment the loop builds: the blocks of the posts, in list order. */
  function PostList(ps: seq<Post>): string {
    Join(ps, Block)
  }

  /**
    One block per post: the fragment is the blocks before post `i`, the
    block of post `i`, and the blocks after it.
   */
  lemma PostListAt(ps: seq<Post>, i: nat)
    requires i < |ps|
    ensures PostList(ps) == PostList(ps[..i]) + Block(ps[i]) + PostList(ps[i + 1..])
    ensures Occurs(PostList(ps), Block(ps[i]))
  {
    assert ps == ps[..i] + [ps[i]] + ps[i + 1..];
    JoinAppend(ps[..i] + [ps[i]], ps[i + 1..], Block);
    JoinAppend(ps[..i], [ps[i]], Block);
    assert Join([ps[i]], Block) == Block(ps[i]) by {
      assert [ps[i]][..0] == [];
    }
    OccursInMiddle(PostList(ps[..i]), Block(ps[i]), PostList(ps[i + 1..]));
  }

  /** The index page: `{{POST_LIST}}` first, then `{{TITLE}}`, which also rescans the fragment. */
  function IndexPage(posts: seq<Post>, template: string): string {
    Replace(Replace(template, PostListToken, PostList(SortByDate(posts))), TitleToken, SiteTitle)
  }

  /** `generate_index_page`: sort, then accumulate the fragment block by block. */
  method GenerateIndexPage(posts: seq<Post>, template: string) returns (html: string)
    ensures html == IndexPage(posts, template)
  {
    var sorted := SortByDate(posts);
    var list := "";
    for i := 0 to |sorted|
      invariant list == PostList(sorted[..i])
    {
      assert sorted[..i + 1][..i] == sorted[..i];
      list := list + Block(sorted[i]);
    }
    assert sorted[..|sorted|] == sorted;
    html := Replace(template, PostListToken, list);
    html := Replace(html, TitleToken, SiteTitle);
  }

  /** Every `{{TITLE}}` of the template becomes the site title. */
  lemma IndexPageTitle(posts: seq<Post>, a: string, b: string)
    ensures IndexPage(posts, a + TitleToken + b)
         == IndexPage(posts, a) + SiteTitle + IndexPage(posts, b)
  {
    var list := PostList(SortByDate(posts));
    ReplaceAroundPlaceholder(a, TitleName, b, PostListName, list);
    var a1, b1 := Replace(a, PostListToken, list), Replace(b, PostListToken, list);
    ReplaceAroundPlaceholder(a1, TitleName, b1, TitleName, SiteTitle);
  }

  /** A placeholder the index page does not fill, `{{DATE}}` say, is kept verbatim. */
  lemma IndexPageOtherPlaceholder(posts: seq<Post>, a: string, n: string, b: string)
    requires BraceFree(n) && n != PostListName && n != TitleName
    ensures IndexPage(posts, a + Placeholder(n) + b)
         == IndexPage(posts, a) + Placeholder(n) + IndexPage(posts, b)
  {
    var list := PostList(SortByDate(posts));
    ReplaceAroundPlaceholder(a, n, b, PostListName, list);
    var a1, b1 := Replace(a, PostListToken, list), Replace(b, PostListToken, list);
    ReplaceAroundPlaceholder(a1, n, b1, TitleName, SiteTitle);
  }

  /**
    The fragment goes where `{{POST_LIST}}` stands, and a `{{TITLE}}` inside
    it (from a post's title) becomes the site title, when the template
    around `{{POST_LIST}}` holds no braces.
   */
  lemma IndexPagePostList(posts: seq<Post>, a: string, b: string)
    requires BraceFree(a) && BraceFree(b)
    ensures IndexPage(posts, a + PostListToken + b)
         == a + Replace(PostList(SortByDate(posts)), TitleToken, SiteTitle) + b
  {
    var list := PostList(SortByDate(posts));
    ReplaceFrame(a, PostListToken, b, PostListToken, list);
    ReplaceWholeToken(PostListToken, list);
    ReplaceFrame(a, list, b, TitleToken, SiteTitle);
  }

  /** Without posts the fragment is empty and `{{POST_LIST}}` simply disappears. */
  lemma IndexPageNoPosts(a: string, b: string)
    requires BraceFree(a) && BraceFree(b)
    ensures IndexPage([], a + PostListToken + b) == a + b
  {
    IndexPagePostList([], a, b);
  }
}
