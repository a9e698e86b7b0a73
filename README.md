# A verified model of the vibe-reversing blog generator

`generate.py` turns the Markdown notes in `notes/` into a static site in
`docs/`. Each note becomes one page, filled in from a post template. The
site also gets an index page listing every post newest first, and the
stylesheets in `css/` are copied into `docs/css/`. This project models the
string and list logic of that script in Dafny and proves what it does:

- **Post page (`generate_post_page`, modelled by `Templates.PostPage`).**
  Three `str.replace` calls in a fixed order: `{{TITLE}}`, then `{{DATE}}`,
  then `{{CONTENT}}`. `Strings.Replace` is Python's `str.replace` written
  out. It scans left to right, takes non-overlapping occurrences and never
  rescans the replacement text.
- **Title and body of a note (`parse_markdown_file`, modelled by
  `Posts.ParsePost`, with the title rule in `Posts.ExtractTitle`).**
  - The title comes from the regular expression `^#\s+(.+)$` under MULTILINE.
    `Heading.IsMatch` gives the spans the pattern can match at all.
    `Heading.FindHeading` gives the one `re.search` reports: the leftmost
    start, and at that start the longest `\s+`.
  - The first match is cut out and the rest is `lstrip()`ped.
  - Without a heading, the title comes from the file name's stem:
    separators `-` and `_` become spaces, then `str.title()` is applied.
  - The page name is the stem, by the suffix rule of `pathlib` up to
    Python 3.13: the suffix starts at the last `.`, provided that `.` is
    neither the first nor the last character.
- **Index page (`generate_index_page`, modelled by `Index.IndexPage` and
  the method `Index.GenerateIndexPage`).**
  - The posts are stably sorted by their date string, newest first
    (`Index.SortByDate`). This uses Python's order on strings, which is
    defined by hand in `Ordering`.
  - One `post-item` block is then appended per post, in a loop.
  - Finally `{{POST_LIST}}` is filled in, then `{{TITLE}}` with the site title.
- **Orchestration (`main`, `copy_static_files`, modelled by the methods
  `Generator.Generate`, `Generator.ReadNotes` and
  `Generator.CopyStaticFiles`).** Methods over an explicit file system:
  - A directory listing is a sequence of names, or `None` when the
    directory does not exist.
  - The readable notes are a map from path to the stored text and the date.
  - The writes, copies and directory creations are returned as a list of
    effects, in the order the script performs them.

Modules follow the script: `Strings`, `Ordering`, `Casing` and `Heading`
hold the Python and `re` semantics the script relies on. `Posts`,
`Templates`, `Index` and `Generator` model the script's own functions.

The title is not trimmed: generate.py:34 keeps group 1 as matched, so
trailing spaces and tabs stay in it (`Heading.TitleOfOrdinaryHeading`).
A CR never reaches it. The note is opened in text mode with the default
newline handling (generate.py:28), so `f.read()` turns CR LF and a lone CR
into LF before the regular expression runs (`Posts.ReadText`).

`\s` includes LF, so after a `#` line holding only whitespace the title is
taken from the next non-blank line. The backtracking corner is modelled
too, not excluded: when only whitespace follows the `#` up to the end of
the text, `\s+` gives characters back but keeps the first one. The title
is then the last non-LF whitespace character after the one right after
`#`. When there is none, as in `"# "` or `"# \n"`, the line is not a
heading and the file-name title is used (`Heading.LastTextStart`,
`Heading.NoTextAfterMarker`).

## Model

| member | source | states |
|---|---|---|
| `Strings.ReplaceAtFirstOccurrence` | generate.py:58-60 | `str.replace` keeps the text before the leftmost occurrence verbatim, puts the value in place of that occurrence, and carries on after it. No occurrence is looked for inside the value. |
| `Strings.ReplaceNoOccurrence` | generate.py:58-60 | A text without the token is returned unchanged. |
| `Strings.ReplaceConcat` | generate.py:58-60 | When no occurrence straddles the seam, replacing in `a + b` is replacing in `a` and in `b` separately. |
| `Strings.ReplaceFrame` | generate.py:58-60 | Text that cannot start or end an occurrence passes through `replace` untouched, whatever lies between. |
| `Strings.ReplaceCharAt` | generate.py:38 | Replacing one character by another is a pointwise map that keeps the length. |
| `Strings.RFind` | generate.py:52 | The rightmost index holding a character, and `None` exactly when it does not occur. |
| `Templates.PlaceholderNotInOther` | generate.py:58-60 | A `{{NAME}}` placeholder never occurs inside a placeholder with another brace-free name. |
| `Templates.ReplaceAroundPlaceholder` | generate.py:58-60 | Replacing `{{N1}}` in a text holding `{{N}}` works on either side of it. `{{N}}` itself becomes the value when the names agree and is kept verbatim otherwise. |
| `Templates.PostPageWithoutPlaceholders` | generate.py:56-61 | A post template with none of the three placeholders is the page itself. |
| `Templates.PostPageContentVerbatim` | generate.py:60 | The content goes where `{{CONTENT}}` stands and is never rescanned. The text on either side is filled in as if it stood alone. |
| `Templates.PostPageTitleRescanned` | generate.py:58-60 | The title is inserted first, so a `{{DATE}}` or `{{CONTENT}}` in it is filled in by the later steps, when the template text around `{{TITLE}}` holds no braces. |
| `Templates.PostPageDateRescanned` | generate.py:59-60 | The date is inserted second: only a `{{CONTENT}}` in it is filled in afterwards, when the template text around `{{DATE}}` holds no braces. |
| `Casing.LeadingSpaces` | generate.py:36 | `lstrip()` removes exactly the maximal run of leading whitespace. |
| `Casing.TitleCaseAt` | generate.py:38 | `str.title()` keeps the length. It upper-cases a letter that is first or follows a non-letter, and lower-cases every other letter. |
| `Casing.TitleCaseIdempotent` | generate.py:38 | Title-casing twice is title-casing once. |
| `Heading.HeadingAt` | generate.py:32 | The match attempted at one index has `\s+` as long as any match there. The attempt fails exactly when no match starts there. |
| `Heading.FindHeadingFrom` | generate.py:32 | Searching from an index finds the leftmost match at or after it, or none. |
| `Heading.FindHeading` | generate.py:32-36 | The match `re.search` reports, which is also the one `re.sub(count=1)` removes. No match starts earlier, no match at its start has a longer `\s+`, and `None` means the pattern matches nowhere. |
| `Heading.MatchShape` | generate.py:32-34 | A match never starts with `##`. Its title is non-empty, holds no LF and runs to the end of its line. |
| `Heading.NoTextAfterMarker` | generate.py:32 | `\s+` keeps the character right after `#`: with only LFs after it, through whitespace to the end of the text, no match starts at that `#`. |
| `Heading.BareMarkersAreNoHeadings` | generate.py:32 | `"# "`, `"#\t\n"` and `"# \n\n"` hold no heading, so the file-name title is used for them. |
| `Heading.TitleOfOrdinaryHeading` | generate.py:32-34 | When the `#` line has text after its whitespace, the title is that line without the `#` and without leading whitespace. Trailing whitespace is kept. |
| `Posts.StemOfMarkdownName` | generate.py:52 | The stem of `x.md` is `x`, except that `.md` is its own stem. |
| `Posts.HiddenNoteStems` | generate.py:52 | `.md` and `.md.md` both have the stem `.md`. |
| `Posts.FallbackTitleAt` | generate.py:38 | Character by character, the fallback title turns separators into spaces, upper-cases letters that start a word of the stem and lower-cases the other letters. |
| `Posts.FallbackTitleShape` | generate.py:38 | The fallback title has the stem's length and no `-` or `_`. A letter starting a word is upper-case and any other letter is lower-case. |
| `Posts.ReadText` | generate.py:28-29 | The text read back holds no CR and is never longer than the stored text. |
| `Posts.ReadTextWithoutCR` | generate.py:28-29 | A stored text without CR is read unchanged. |
| `Posts.CrLfRead` | generate.py:28-29 | A CR LF line break is read as one LF, and the text after it is read on its own. |
| `Posts.LoneCrRead` | generate.py:28-29 | A CR not followed by LF is read as one LF, and the text after it is read on its own. |
| `Posts.HeadingTitleWithoutBreaks` | generate.py:28-34 | A title taken from a heading is non-empty and holds neither LF nor CR. |
| `Posts.HeadingTitleAndBody` | generate.py:33-36 | With a heading, the title is a non-empty single line and the body starts with no whitespace. The body ends with everything after the removed match, left-stripped. |
| `Posts.LaterHeadingKept` | generate.py:36 | Only the first match is removed: every later level-1 heading still matches in the body, shifted left by what was removed. |
| `Posts.LaterHeadingText` | generate.py:36 | Every later level-1 heading keeps its title text in the body, character for character. |
| `Posts.LStripKeepsSuffix` | generate.py:36 | Stripping `x + y` leaves at least the stripped `y` at its end. |
| `Ordering.LessIrreflexive` | generate.py:66 | No date string is before itself. |
| `Ordering.LessTransitive` | generate.py:66 | The order on date strings is transitive. |
| `Ordering.LessTotal` | generate.py:66 | Any two different date strings are ordered one way or the other. |
| `Ordering.LeqIffNotLess` | generate.py:66 | `a <= b` exactly when not `b < a`. |
| `Index.InsertByDatePermutes` | generate.py:66 | One insertion step adds the post to the multiset of posts. |
| `Index.InsertByDateNewestFirst` | generate.py:66 | Inserting into a newest-first list keeps it newest first. |
| `Index.InsertByDateWithDate` | generate.py:66 | Among posts of equal date, the inserted post goes last and the others keep their order. |
| `Index.SortByDatePermutes` | generate.py:66 | The sorted list holds exactly the given posts, each as many times as given. |
| `Index.SortByDateNewestFirst` | generate.py:66 | Dates never increase along the sorted list. |
| `Index.SortByDateStable` | generate.py:66 | For every date, the posts of that date come in input order. |
| `Index.BlockFields` | generate.py:71-76 | A post's block holds `href="<filename>.html"`, the title and the date. |
| `Index.JoinAppend` | generate.py:69-76 | The fragment of two lists is the two fragments, concatenated. |
| `Index.PostListAt` | generate.py:69-76 | The fragment is the blocks of the posts before post `i`, then post `i`'s block, then the blocks after it. |
| `Index.GenerateIndexPage` | generate.py:63-80 | The loop builds the fragment of the sorted posts, which goes into the template, followed by the site title. |
| `Index.IndexPageTitle` | generate.py:78-79 | Every `{{TITLE}}` of the index template becomes `Vibe Reversing - Reverse Engineering Notes`, and the text on each side is filled in separately. |
| `Index.IndexPageOtherPlaceholder` | generate.py:78-79 | A placeholder the index page does not fill, such as `{{DATE}}`, is kept verbatim. |
| `Index.IndexPagePostList` | generate.py:78-79 | The fragment goes where `{{POST_LIST}}` stands and is filled in before `{{TITLE}}`, so a `{{TITLE}}` in a post's title becomes the site title, when the template text around `{{POST_LIST}}` holds no braces. |
| `Index.IndexPageNoPosts` | generate.py:69-79 | Without posts the fragment is empty and `{{POST_LIST}}` disappears, when the template text around it holds no braces. |
| `Generator.KeepSuffixMembers` | generate.py:107-108 | A name is kept exactly when it is listed and ends with the suffix. |
| `Generator.KeepSuffixAppend` | generate.py:88-89 | Filtering keeps listing order: filtering two pieces is filtering the whole. |
| `Generator.FirstMissing` | generate.py:109-110 | The position of the first `.md` note that cannot be read: all earlier ones can be. |
| `Generator.FirstMissingIs` | generate.py:109-110 | That position is the only one with this property. |
| `Generator.ParseAllAt` | generate.py:110 | Post `j` is the parsed note of the `j`-th `.md` name. |
| `Generator.PageWritesAt` | generate.py:114-117 | Write `j` puts the filled post template of post `j` at `docs/<filename>.html`. |
| `Generator.StaticCopiesExactlyCss` | generate.py:85-93 | A stylesheet is copied from `css/` to `docs/css/` exactly when it is listed and ends with `.css`. |
| `Generator.CopyStaticFiles` | generate.py:82-93 | Without `css/` nothing happens. Otherwise `docs/css` is made and every `.css` name is copied, in listing order. |
| `Generator.ReadNotes` | generate.py:106-118 | The loop reads and parses every `.md` name in listing order and writes each page as it goes. It stops at the first note that cannot be read, reporting that path. |
| `Generator.MissingNoteStops` | generate.py:107-110 | When the `i`-th name is the first unreadable `.md` note, the posts are those of the `.md` names before it. |
| `Generator.Generate` | generate.py:95-128 | `main` makes `docs`, then writes the pages. With every note read, it then writes the index page of those posts and copies the stylesheets. A missing `notes/` gives no posts. |
| `Generator.PagePathOfNote` | generate.py:115 | The page of the note `x.md` is `docs/x.html`. |
| `Generator.PagePathsDistinct` | generate.py:115 | Notes `x.md` and `y.md` with different non-empty `x` and `y` get different pages. |

## Left out

- Markdown to HTML conversion (generate.py:44-46) belongs to the `markdown` library, not to this script. It is the function parameter `md`. `Generator.ReadNotes` takes the whole note parser as a parameter, and `Generator.Generate` passes it `ParsePost` with that `md`.
- The modification date (generate.py:41-42) depends on the clock and the local time zone. Each note's `YYYY-MM-DD` date is an input, next to its text.
- Reading the two templates (generate.py:20-24, 101-102) is I/O. Their texts are parameters.
- Console output (generate.py:118, 125, 130-132) is not modelled, because it changes no file.
- UTF-8 decoding (generate.py:28) is not modelled: the stored text of a note is already a sequence of code points. Newline translation is modelled (`Posts.ReadText`).
- Failure is modelled only for a listed note that cannot be read, and that read stops the program. Decoding errors, directories named `*.md`, failed writes and failed copies are not modelled.
- The order of `os.listdir` is unspecified by Python, so the listing is an input sequence. Everything is proved for every order.
- `str.title()`, `str.isspace()` and the `\s` class are modelled on the characters listed in `Casing`. Only ASCII letters count as cased. Other scripts' letters and Unicode case mappings are left out, because that needs Python's full Unicode tables.
- The notes `.md` and `.md.md` both get the page `docs/.md.html` (`Posts.HiddenNoteStems`). The second write replaces the first, and the model records both writes in order.
- `Generator.KeepSuffix` states only a length bound in its own contract. Its meaning is in `Generator.KeepSuffixMembers` and `Generator.KeepSuffixAppend`.
