/**
  `main` and `copy_static_files` with the file system made explicit: a
  directory listing is a sequence of names (`None` when the directory does
  not exist), the readable notes are a map from path to `SourceFile`, and
  what the program does to the output directory is returned as a sequence
  of effects, in the order it performs them.
 */
module Generator {
  import opened Wrappers
  import opened Strings
  import opened Posts
  import opened Templates
  import opened Index

  const OutputDir := "docs"
  const CssDir := "css"
  const CssOutputDir := OutputDir + "/css"
  const IndexPath := OutputDir + "/index.html"

  /** A change to the file system. */
  datatype Effect =
    | MakeDirs(path: string)
    | WriteFile(path: string, text: string)
    | CopyFile(source: string, target: string)

  /** Reading a listed note failed; the program stops there. */
  datatype Error = FileReadError(path: string)

  /** The names of a listing; a missing directory lists nothing. */
  function Listing(dir: Option<seq<string>>): seq<string> {
    match dir
    case None => []
    case Some(names) => names
  }

  /** `os.path.join(NOTES_DIR, filename)`. */
  function NotePath(name: string): string {
    NotesDir + "/" + name
  }

  /** `os.path.join(OUTPUT_DIR, f"{filename}.html")`. */
  function PagePath(p: Post): string {
    OutputDir + "/" + p.filename + ".html"
  }

  /** The names of the listing that end with `suffix`, in listing order. */
  function KeepSuffix(names: seq<string>, suffix: string): (r: seq<string>)
    ensures |r| <= |names|
  {
    if names == [] then []
    else
      var last := names[|names| - 1];
      var init := KeepSuffix(names[..|names| - 1], suffix);
      assert names == names[..|names| - 1] + [last];
      init + (if EndsWith(last, suffix) then [last] else [])
  }

  /** Filtering a listing piece by piece is filtering it whole: the order is kept. */
  lemma {:induction false} KeepSuffixAppend(a: seq<string>, b: seq<string>, suffix: string)
    ensures KeepSuffix(a + b, suffix) == KeepSuffix(a, suffix) + KeepSuffix(b, suffix)
    decreases |b|
  {
    if b == [] {
      assert a + b == a;
    } else {
      var init := b[..|b| - 1];
      assert (a + b)[..|a + b| - 1] == a + init;
      KeepSuffixAppend(a, init, suffix);
    }
  }

  /** A name is kept exactly when it is listed and ends with `suffix`. */
  lemma {:induction false} KeepSuffixMembers(names: seq<string>, suffix: string, x: string)
    ensures x in KeepSuffix(names, suffix) <==> x in names && EndsWith(x, suffix)
  {
    if names != [] {
      var init := names[..|names| - 1];
      KeepSuffixMembers(init, suffix, x);
      assert names == init + [names[|names| - 1]];
    }
  }

  /** Filtering one more name of the listing. */
  lemma KeepSuffixStep(names: seq<string>, i: nat, suffix: string)
    requires i < |names|
    ensures KeepSuffix(names[..i + 1], suffix)
         == KeepSuffix(names[..i], suffix) + (if EndsWith(names[i], suffix) then [names[i]] else [])
  {
    assert names[..i + 1][..i] == names[..i];
  }

  /** Position of the first name whose note cannot be read, or the number of names. */
  function FirstMissing(names: seq<string>, files: map<string, SourceFile>): (k: nat)
    ensures k <= |names|
    ensures forall j :: 0 <= j < k ==> NotePath(names[j]) in files
    ensures k < |names| ==> NotePath(names[k]) !in files
  {
    if names == [] || NotePath(names[0]) !in files then 0
    else 1 + FirstMissing(names[1..], files)
  }

  /** The first missing note is the only position with those properties. */
  lemma {:induction false} FirstMissingIs(names: seq<string>, files: map<string, SourceFile>, k: nat)
    requires k <= |names|
    requires forall j :: 0 <= j < k ==> NotePath(names[j]) in files
    requires k < |names| ==> NotePath(names[k]) !in files
    ensures FirstMissing(names, files) == k
  {
    if k > 0 {
      FirstMissingIs(names[1..], files, k - 1);
    }
  }

  /** `parse_markdown_file` as the loop of `main` calls it, with the converter fixed. */
  function NoteParser(md: string -> string): (string, SourceFile) -> Post {
    (name, src) => ParsePost(name, src, md)
  }

  /** The posts read from the given names, one per name, in order. */
  function ParseAll(names: seq<string>, files: map<string, SourceFile>, parse: (string, SourceFile) -> Post): (r: seq<Post>)
    requires forall j :: 0 <= j < |names| ==> NotePath(names[j]) in files
    ensures |r| == |names|
  {
    if names == [] then []
    else
      var n := names[|names| - 1];
      ParseAll(names[..|names| - 1], files, parse) + [parse(n, files[NotePath(n)])]
  }

  /** Post `j` is the note of name `j`. */
  lemma {:induction false} ParseAllAt(names: seq<string>, files: map<string, SourceFile>, md: string -> string, j: nat)
    requires forall j :: 0 <= j < |names| ==> NotePath(names[j]) in files
    requires j < |names|
    ensures ParseAll(names, files, NoteParser(md))[j] == ParsePost(names[j], files[NotePath(names[j])], md)
  {
    if j < |names| - 1 {
      ParseAllAt(names[..|names| - 1], files, md, j);
    }
  }

  /** One page write per post, in order: `<filename>.html` holding the filled post template. */
  function PageWrites(posts: seq<Post>, template: string): (r: seq<Effect>)
    ensures |r| == |posts|
  {
    if posts == [] then []
    else
      var p := posts[|posts| - 1];
      PageWrites(posts[..|posts| - 1], template) + [WriteFile(PagePath(p), PostPage(p, template))]
  }

  /** Write `j` is the page of post `j`. */
  lemma {:induction false} PageWritesAt(posts: seq<Post>, template: string, j: nat)
    requires j < |posts|
    ensures PageWrites(posts, template)[j] == WriteFile(PagePath(posts[j]), PostPage(posts[j], template))
  {
    if j < |posts| - 1 {
      PageWritesAt(posts[..|posts| - 1], template, j);
    }
  }

  /** One copy per stylesheet name, from `css/` to `docs/css/`, in order. */
  function Copies(names: seq<string>): (r: seq<Effect>)
    ensures |r| == |names|
    ensures forall j :: 0 <= j < |names| ==>
      r[j] == CopyFile(CssDir + "/" + names[j], CssOutputDir + "/" + names[j])
  {
    if names == [] then []
    else
      var n := names[|names| - 1];
      Copies(names[..|names| - 1]) + [CopyFile(CssDir + "/" + n, CssOutputDir + "/" + n)]
  }

  lemma CopiesSnoc(names: seq<string>, n: string)
    ensures Copies(names + [n]) == Copies(names) + [CopyFile(CssDir + "/" + n, CssOutputDir + "/" + n)]
  {
    assert (names + [n])[..|names|] == names;
  }

  /** What `copy_static_files` does, given the listing of `css/`. */
  function StaticCopies(css: Option<seq<string>>): seq<Effect> {
    match css
    case None => []
    case Some(names) => [MakeDirs(CssOutputDir)] + Copies(KeepSuffix(names, ".css"))
  }

  /** A file of `css/` is copied exactly when it is listed and named `*.css`. */
  lemma StaticCopiesExactlyCss(names: seq<string>, n: string)
    ensures CopyFile(CssDir + "/" + n, CssOutputDir + "/" + n) in StaticCopies(Some(names))
        <==> n in names && EndsWith(n, ".css")
  {
    var kept := KeepSuffix(names, ".css");
    KeepSuffixMembers(names, ".css", n);
    var effects := StaticCopies(Some(names));
    var c := CopyFile(CssDir + "/" + n, CssOutputDir + "/" + n);
    if c in effects {
      var j :| 0 <= j < |effects| && effects[j] == c;
      assert effects[j] == Copies(kept)[j - 1];
      assert (CssOutputDir + "/" + kept[j - 1])[|CssOutputDir + "/"|..] == kept[j - 1];
      assert (CssOutputDir + "/" + n)[|CssOutputDir + "/"|..] == n;
      assert kept[j - 1] in kept;
    }
    if n in names && EndsWith(n, ".css") {
      var j :| 0 <= j < |kept| && kept[j] == n;
      assert effects[j + 1] == Copies(kept)[j];
    }
  }

  /** `copy_static_files`: make `docs/css`, then copy the `.css` files one by one. */
  method CopyStaticFiles(css: Option<seq<string>>) returns (effects: seq<Effect>)
    ensures effects == StaticCopies(css)
  {
    match css
    case None =>
      effects := [];
    case Some(names) =>
      var copies := [];
      for i := 0 to |names|
        invariant copies == Copies(KeepSuffix(names[..i], ".css"))
      {
        var name := names[i];
        KeepSuffixStep(names, i, ".css");
        if EndsWith(name, ".css") {
          CopiesSnoc(KeepSuffix(names[..i], ".css"), name);
          copies := copies + [CopyFile(CssDir + "/" + name, CssOutputDir + "/" + name)];
        }
      }
      assert names[..|names|] == names;
      effects := [MakeDirs(CssOutputDir)] + copies;
  }

  /**
    The loop of `main`: for every `.md` name, in listing order, read and
    parse the note and render its page; the first note that cannot be read
    ends the loop with the posts and pages made so far.
   */
  method ReadNotes(names: seq<string>, files: map<string, SourceFile>,
                   postTemplate: string, parse: (string, SourceFile) -> Post)
    returns (posts: seq<Post>, writes: seq<Effect>, err: Option<Error>)
    ensures (posts, err) == ReadAll(names, files, parse)
    ensures writes == PageWrites(posts, postTemplate)
  {
    writes := [];
    posts := [];
    err := None;
    var kept := [];
    for i := 0 to |names|
      invariant kept == KeepSuffix(names[..i], ".md")
      invariant forall j :: 0 <= j < |kept| ==> NotePath(kept[j]) in files
      invariant posts == ParseAll(kept, files, parse)
      invariant writes == PageWrites(posts, postTemplate)
    {
      var name := names[i];
      KeepSuffixStep(names, i, ".md");
      if EndsWith(name, ".md") {
        var path := NotePath(name);
        if path !in files {
          err := Some(FileReadError(path));
          MissingNoteStops(names, i, files, parse);
          return;
        }
        var post := parse(name, files[path]);
        ParseAllSnoc(kept, name, files, parse);
        PageWritesSnoc(posts, post, postTemplate);
        kept := kept + [name];
        posts := posts + [post];
        writes := writes + [WriteFile(PagePath(post), PostPage(post, postTemplate))];
      }
    }
    AllNotesRead(names, files, parse);
  }

  /**
    What the loop of `main` reads: the posts of the `.md` names up to the
    first note that cannot be read, and the error for that note if any.
   */
  function ReadAll(names: seq<string>, files: map<string, SourceFile>, parse: (string, SourceFile) -> Post)
    : (seq<Post>, Option<Error>)
  {
    var mds := KeepSuffix(names, ".md");
    var k := FirstMissing(mds, files);
    (ParseAll(mds[..k], files, parse), if k < |mds| then Some(FileReadError(NotePath(mds[k]))) else None)
  }

  lemma AllNotesRead(names: seq<string>, files: map<string, SourceFile>, parse: (string, SourceFile) -> Post)
    requires forall j :: 0 <= j < |KeepSuffix(names[..|names|], ".md")| ==>
      NotePath(KeepSuffix(names[..|names|], ".md")[j]) in files
    ensures ReadAll(names, files, parse) == (ParseAll(KeepSuffix(names[..|names|], ".md"), files, parse), None)
  {
    assert names[..|names|] == names;
    var mds := KeepSuffix(names, ".md");
    FirstMissingIs(mds, files, |mds|);
    assert mds[..|mds|] == mds;
  }

  /**
    `main`: make `docs`, write the page of every note; a note that cannot be
    read stops the program with the pages written so far. Otherwise the
    index page is written and the stylesheets are copied.
   */
  method Generate(notes: Option<seq<string>>, files: map<string, SourceFile>,
                  postTemplate: string, indexTemplate: string,
                  css: Option<seq<string>>, md: string -> string)
    returns (effects: seq<Effect>, posts: seq<Post>, err: Option<Error>)
    ensures (posts, err) == ReadAll(Listing(notes), files, NoteParser(md))
    ensures effects
         == [MakeDirs(OutputDir)] + PageWrites(posts, postTemplate)
            + (if err.Some? then []
               else [WriteFile(IndexPath, IndexPage(posts, indexTemplate))] + StaticCopies(css))
  {
    var writes;
    posts, writes, err := ReadNotes(Listing(notes), files, postTemplate, NoteParser(md));
    if err.Some? {
      effects := [MakeDirs(OutputDir)] + writes;
      return;
    }
    var index := GenerateIndexPage(posts, indexTemplate);
    var copies := CopyStaticFiles(css);
    effects := [MakeDirs(OutputDir)] + writes + ([WriteFile(IndexPath, index)] + copies);
  }

  lemma ParseAllSnoc(names: seq<string>, n: string, files: map<string, SourceFile>, parse: (string, SourceFile) -> Post)
    requires forall j :: 0 <= j < |names| ==> NotePath(names[j]) in files
    requires NotePath(n) in files
    ensures ParseAll(names + [n], files, parse)
         == ParseAll(names, files, parse) + [parse(n, files[NotePath(n)])]
  {
    assert (names + [n])[..|names|] == names;
  }

  lemma PageWritesSnoc(posts: seq<Post>, p: Post, template: string)
    ensures PageWrites(posts + [p], template)
         == PageWrites(posts, template) + [WriteFile(PagePath(p), PostPage(p, template))]
  {
    assert (posts + [p])[..|posts|] == posts;
  }

  /**
    When the `i`-th name is the first `.md` name whose note cannot be read,
    the notes read are exactly the `.md` names before it.
   */
  lemma MissingNoteStops(names: seq<string>, i: nat, files: map<string, SourceFile>, parse: (string, SourceFile) -> Post)
    requires i < |names| && EndsWith(names[i], ".md") && NotePath(names[i]) !in files
    requires forall j :: 0 <= j < |KeepSuffix(names[..i], ".md")| ==>
      NotePath(KeepSuffix(names[..i], ".md")[j]) in files
    ensures ReadAll(names, files, parse)
         == (ParseAll(KeepSuffix(names[..i], ".md"), files, parse), Some(FileReadError(NotePath(names[i]))))
  {
    var kept := KeepSuffix(names[..i], ".md");
    KeepSuffixStep(names, i, ".md");
    assert names == names[..i + 1] + names[i + 1..];
    KeepSuffixAppend(names[..i + 1], names[i + 1..], ".md");
    var mds := KeepSuffix(names, ".md");
    assert mds[..|kept| + 1] == kept + [names[i]];
    assert mds[|kept|] == (kept + [names[i]])[|kept|];
    assert mds[..|kept|] == (kept + [names[i]])[..|kept|] == kept;
    FirstMissingIs(mds, files, |kept|);
  }

  /** The page of the note `x.md` is `docs/x.html`. */
  lemma PagePathOfNote(x: string, src: SourceFile, md: string -> string)
    requires x != []
    ensures PagePath(ParsePost(x + ".md", src, md)) == OutputDir + "/" + x + ".html"
  {
    StemOfMarkdownName(x);
  }

  /** Two notes `x.md` and `y.md` with different, non-empty `x` and `y` get different pages. */
  lemma PagePathsDistinct(x: string, y: string, sx: SourceFile, sy: SourceFile, md: string -> string)
    requires x != [] && y != [] && x != y
    ensures PagePath(ParsePost(x + ".md", sx, md)) != PagePath(ParsePost(y + ".md", sy, md))
  {
    PagePathOfNote(x, sx, md);
    PagePathOfNote(y, sy, md);
    var px, py := OutputDir + "/" + x + ".html", OutputDir + "/" + y + ".html";
    assert px[|OutputDir + "/"|..|px| - 5] == x;
    assert py[|OutputDir + "/"|..|py| - 5] == y;
  }
}
