# animethemes scraper: extraction and string layer in Dafny

The scraper reads the AnimeThemes wiki. For each year it produces a list of
**Anime** records: an id taken from the series' catalogue link, a title, the
year, and the **Themes** (openings and endings) listed in the table under the
series heading. This project models the deterministic part of that pipeline
and proves properties of it:

- `Text` (Text.dfy): `replaceAll` as a literal, left-to-right, non-overlapping
  scan. It is proved equal to splitting on the find string and joining with
  the replacement. Also here: `getHTML` (`&lt;` to `<`, then `&gt;` to `>`),
  the `split('/')` used to take path segments, and what replacing can and
  cannot create.
- `Markup` (Markup.dfy): the parsed page as values. A page is the list of
  sibling elements that holds its `<h3>` headings, in document order (the
  list `.next()` walks): headings with their
  `<a>` children, `<p>`, `<table>` with `<thead>`/`<tbody>` sections of rows
  of cells, and any other element. Text and attributes are fields.
- `ThemeParser` (ThemeParser.dfy): `parseTable` (a forward search for a table,
  then one Theme per body row), `parseAnime` (the title and id of a heading,
  and a dispatch on the next sibling), and the per-heading loop of `year`.
  `ThemeParserExamples` holds worked cases.

`parseTable`, `parseAnime` and `year` update local arrays and records step by
step. They are modelled as methods (`ParseTable`, `ParseAnime`, `Year`).
Each method is proved equal to a specification function (`TableThemes`,
`AnimeOf`), or to a statement over `Headings`. Records that the source
mutates (`theme.themes = …`, `parsed.year = n`) are datatype values updated
inside those methods.

Two kinds of failure in the source throw an exception instead of returning a
value. Both are modelled as a `ParseError`:

- `MissingTitleLink`: the heading has no `<a>` child, or its first `<a>`
  has no `href`, so `.split` is called on `undefined` (a TypeError).
- `NoTableFound`: no `<table>` exists at or after the candidate, and
  `parseTable` then recurses on `.next()` without end, or throws a
  TypeError, depending on the cheerio version. Either way an exception
  leaves `parseTable`.

The exception escapes the `.each` loop, so one failing heading makes the whole
year fail. `Year` returns the first such error.

Where the code's behaviour is easy to misread, the model keeps what the code
does:

- When no `<table>` follows, `parseTable` recurses on `.next()` without end,
  or throws a TypeError, depending on the cheerio version (main.js:123-124).
  The model returns `NoTableFound`, and the year fails.
- When the sibling after a heading is neither `<p>` nor `<table>`,
  `parseAnime` runs no search and never assigns `themes` (main.js:113-117).
  The model leaves `themes` unset (`None`), not empty.
- When the heading has no `<a>` child, or its first `<a>` has no `href`,
  `.split` is called on `undefined` and throws (main.js:103-105). The model
  returns `MissingTitleLink`; no partial record is produced.
- When the title link has fewer than four `/`, `split('/')[4]` is
  `undefined` (main.js:105). The model's id is `None`, not an empty string.
- Only the rows of `<tbody>` become themes (main.js:129); header rows in
  `<thead>` are never read. The model takes `BodyRows`.

JavaScript's `type` field is called `kind` here, because `type` is a Dafny
keyword.

## Model

| member | source | states |
|---|---|---|
| `Text.ReplaceAll` | main.js:190-192 | body: a literal, left-to-right, non-overlapping scan for a non-empty `find`. Ensures: the output is as long as the input when the replacement has the length of `find`, and no longer when it is shorter (as for `&lt;`, `&gt;` and `&quot;`). The scan's meaning is stated by `ReplaceAllIsSplitJoin` |
| `Text.ReplaceAllIsSplitJoin` | main.js:190-192 | replace-all equals splitting the string on `find` and joining the parts with the replacement |
| `Text.ReplaceAllOccurrences` | main.js:190-192 | if `pat` shares no character with the replacement and appears in the output, then it is not `find` and it already appeared in the input. So no `find` is left behind and no new pattern is created |
| `Text.ReplaceAllNoMatch` | main.js:190-192 | a string with no occurrence of `find` is returned unchanged |
| `Text.PrefixSurvives` | main.js:190-192 | a prefix of the output that shares no character with the replacement was already a prefix of the input |
| `Text.PrefixKept` | main.js:190-192 | a prefix of the input without the first character of `find` stays a prefix of the output |
| `Text.ReplaceAllConcat` | main.js:190-192 | replace-all distributes over a concatenation whose boundary no occurrence of `find` straddles |
| `Text.ReplaceAllKeepsEntity` | main.js:190-192 | an entity other than `find`, whose only `&` is its first character, passes through replace-all unchanged, in place |
| `Text.GetHtml` | main.js:177-181 | the output contains neither `&lt;` nor `&gt;`; input containing neither is returned unchanged |
| `Text.GetHtmlKeepsEntity` | main.js:177-181 | any other entity, such as `&quot;` or `&amp;`, is left in place: `GetHtml(a + e + b) == GetHtml(a) + e + GetHtml(b)` |
| `Text.GetHtmlKeepsQuot` | main.js:177-181 | `&quot;` in particular survives `getHTML` unchanged |
| `Text.Split` | main.js:105 | JavaScript's `split` on a non-empty literal separator: always at least one part |
| `Text.SplitJoinRoundTrip` | main.js:105 | joining the parts of `split(sep)` with `sep` gives back the original string |
| `Text.SplitPartsAvoidSep` | main.js:105 | no part of a split contains the separator |
| `Text.SplitCount` | main.js:105 | splitting on one character gives one more part than that character occurs |
| `Text.SplitAt` | main.js:105 | part `n` exists exactly when the character occurs at least `n` times, and it is the text between the `n`-th occurrence and the next one |
| `ThemeParser.HrefSegment4` | main.js:105 | `href.split('/')[4]`, also the year rule of main.js:86: defined exactly when the href has at least four `/`; it is the text after the fourth `/` up to the next one, and holds no `/` |
| `ThemeParser.DecodeName` | main.js:132 | every `&quot;` becomes `"` (split on `&quot;`, join with `"`); no `&quot;` remains; the name starts with `OP` exactly when the raw cell text does |
| `ThemeParser.ThemeOf` | main.js:129-144 | name is cell 0 decoded and free of `&quot;`; kind is Opening exactly when the name starts with `OP` (equivalently the raw text does), otherwise Ending; link is the `href` of the first child of cell 1; episodes and notes are the texts of cells 2 and 3, empty when missing |
| `ThemeParser.ThemesOf` | main.js:127-147 | one Theme per row, in row order |
| `ThemeParser.FindTable` | main.js:122-125 | the first `<table>` among the candidate and its following siblings; None exactly when there is none |
| `ThemeParser.TableThemes` | main.js:122-148 | fails with NoTableFound exactly when no table follows; otherwise gives the themes of the first table found, one per `<tbody>` row |
| `ThemeParser.ParseTable` | main.js:122-148 | the search followed by the row loop that pushes one Theme per row yields `TableThemes` |
| `ThemeParser.AnimeOf` | main.js:102-120 | fails with MissingTitleLink exactly when the heading has no `<a>` child, or its first `<a>` has no `href`; id is segment 4 of that `href`, title the anchors' text, year unset. Next sibling `<p>` means the themes of the first table after it, with failure exactly when there is none. Next sibling `<table>` means that table's themes. Anything else leaves themes unset |
| `ThemeParser.ParseAnime` | main.js:102-120 | building the record, then assigning themes when a `<p>` or `<table>` follows, yields `AnimeOf` |
| `ThemeParser.ParagraphIndirection` | main.js:113-117 | a `<p>` inserted between a heading and its table does not change the extracted Anime |
| `ThemeParserExamples.FirstAnchorWithoutHref` | main.js:103-105 | only the first `<a>` is read: if it has no `href`, the heading fails with MissingTitleLink whatever later anchors hold |
| `ThemeParser.Headings` | main.js:71 | `$('h3')`: exactly the positions of the headings, strictly increasing (document order) |
| `ThemeParser.Year` | main.js:64-78 | succeeds exactly when every heading parses. It then yields one Anime per heading, in document order, each that heading's record stamped with `year = n`, and nothing else. Otherwise it fails with the error of the first heading that fails |
| `ThemeParserExamples.TitleLinkId` | main.js:105 | in `https://<host>/anime/<id>/…` the id is segment 4 |
| `ThemeParserExamples.DecodeQuotedTitle` | main.js:132 | `OP1 &quot;x&quot;` decodes to `OP1 "x"` |
| `ThemeParserExamples.OpeningAndEndingRows` | main.js:102-148 | a heading followed by a table with a header row, an `OP1` row and an `ED1` row gives one Anime with two themes, an opening then an ending |

## Left out

- HTTP fetching in `all` and `biribiri`, with its User-Agent header
  (main.js:36-57, 164-172): this is network I/O. `Year` takes the page that
  was already fetched and parsed.
- cheerio parsing and selection: the `Markup` datatypes stand in for it.
  - A page is the one sibling list that holds its `<h3>` headings and the
    tables after them. Headings spread over several parent elements, which
    `$('h3')` would also find, are not represented.
  - `$('td')` of a row is taken to be the row's own cells.
  - `.text()` and `.attr()` are given fields.
- `parseLinks` (main.js:80-97): a concurrent fan-out whose result order
  depends on completion timing. It hangs if any fetch fails. Its use of
  `split('/')[4]` is `HrefSegment4`.
- The command-line entry point, `JSON.stringify` and `fs.writeFileSync`
  (main.js:152-158): this is file I/O.
- The ThemeParser object's fields `baseUrl`, `animes` and `finl`: they serve
  only the fetching and the fan-out above. The field `$` is set by `year`
  (main.js:69) and read by `parseAnime` (main.js:103, 106), but there it only
  wraps a node and steps to its next sibling. The model passes the sibling
  list and a position, `(doc, k)`, instead of the object.
- General regular-expression semantics of `new RegExp(find, 'g')`, and `$`
  patterns in replacement strings. Every find string passed is a plain
  literal, and no replacement contains `$`.
- ReplaceAll: requires a non-empty find string. JavaScript's behaviour for an
  empty pattern is not modelled, because no call site passes one.
- FindTable: stops with "not found" after the last sibling. In the source
  the recursion never ends, or throws a TypeError, depending on the cheerio
  version. The model turns that into the `NoTableFound` error, which
  propagates as the exception does.
- AnimeOf: assumes that `.prop('tagName')` of an empty selection is
  `undefined` (main.js:113), so a heading with no following sibling gets
  `themes` unset. cheerio releases that throw there instead would make a
  trailing heading fail its year; the model does not capture that.
