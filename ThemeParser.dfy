/**
 * The extraction layer of the scraper: one Theme per row of a theme table, one
 * Anime per `<h3>` heading of a year page, and the list of a year's Anime.
 */
module ThemeParser {

  import opened Wrappers
  import opened Text
  import opened Markup

  /** A theme's `type`: `'opening'` or `'ending'`, nothing else. */
  datatype Kind = Opening | Ending

  /** One theme song: the row of a theme table it was read from, decoded. */
  datatype Theme = Theme(name: string, link: Option<string>, kind: Kind, episodes: string, notes: string)

  /** One series; `year` and `themes` are unset until assigned. */
  datatype Anime = Anime(id: Option<string>, title: string, year: Option<string>, themes: Option<seq<Theme>>)

  /** The two ways extraction throws instead of returning. */
  datatype ParseError =
    | MissingTitleLink  // the heading has no `<a>` child, or its first `<a>` has no `href`, so `.split` is called on undefined
    | NoTableFound      // no `<table>` at or after the candidate: the search recurses without end or throws

  // ---------------------------------------------------------------------------
  // Fields of a record

  /** `href.split('/')[4]`: the series id in a title link, or the year in a link of the year index. */
  function HrefSegment4(href: string): (id: Option<string>)
    ensures id.Some? <==> CountChar(href, '/') >= 4
    ensures id == (match DropSegments(href, '/', 4)
                   case None => None
                   case Some(after) => Some(SegmentHead(after, '/')))
    ensures id.Some? ==> !Contains(id.value, "/")
  {
    var parts := Split(href, "/");
    SplitCount(href, '/');
    SplitAt(href, '/', 4);
    SplitPartsAvoidSep(href, "/");
    if |parts| > 4 then Some(parts[4]) else None
  }

  /** A theme's name: the text of its first cell with every `&quot;` turned into `"`. */
  function DecodeName(raw: string): (name: string)
    ensures name == Join(Split(raw, QUOT_ENTITY), "\"")
    ensures !Contains(name, QUOT_ENTITY)
    ensures StartsWith(name, "OP") <==> StartsWith(raw, "OP")
  {
    ReplaceAllIsSplitJoin(raw, QUOT_ENTITY, "\"");
    ReplaceAllOccurrences(raw, QUOT_ENTITY, "\"", QUOT_ENTITY);
    PrefixSurvives(raw, QUOT_ENTITY, "\"", "OP");
    PrefixKept(raw, QUOT_ENTITY, "\"", "OP");
    ReplaceAll(raw, QUOT_ENTITY, "\"")
  }

  /** The theme one table row describes. */
  function ThemeOf(row: Row): (t: Theme)
    ensures t.name == DecodeName(CellText(row, 0)) && !Contains(t.name, QUOT_ENTITY)
    ensures t.kind == Opening <==> StartsWith(t.name, "OP")
    ensures t.kind == Opening <==> StartsWith(CellText(row, 0), "OP")
    ensures t.link == CellLink(row, 1)
    ensures t.episodes == CellText(row, 2) && t.notes == CellText(row, 3)
  {
    var name := DecodeName(CellText(row, 0));
    Theme(name, CellLink(row, 1), if StartsWith(name, "OP") then Opening else Ending,
          CellText(row, 2), CellText(row, 3))
  }

  /** The themes of a sequence of rows: one per row, in row order. */
  function ThemesOf(rows: seq<Row>): (themes: seq<Theme>)
    ensures |themes| == |rows|
    ensures forall i :: 0 <= i < |rows| ==> themes[i] == ThemeOf(rows[i])
  {
    if |rows| == 0 then [] else [ThemeOf(rows[0])] + ThemesOf(rows[1..])
  }

  // ---------------------------------------------------------------------------
  // parseTable

  /**
   * The position of the first `<table>` among the candidate at `at` and its
   * following siblings. The source recurses on `.next()` and has no case for
   * running out of siblings; here that case is None.
   */
  function FindTable(doc: seq<Node>, at: nat): (found: Option<nat>)
    ensures found.Some? ==> at <= found.value < |doc| && doc[found.value].Table?
    ensures found.Some? ==> forall j :: at <= j < found.value ==> !doc[j].Table?
    ensures found.None? <==> forall j :: at <= j < |doc| ==> !doc[j].Table?
    decreases |doc| - at
  {
    if at >= |doc| then None
    else if doc[at].Table? then Some(at)
    else FindTable(doc, at + 1)
  }

  /** What `parseTable` yields for the candidate at `at`. */
  function TableThemes(doc: seq<Node>, at: nat): (r: Result<seq<Theme>, ParseError>)
    ensures r.Err? <==> forall j :: at <= j < |doc| ==> !doc[j].Table?
    ensures r.Err? ==> r.error == NoTableFound
    ensures r.Ok? ==> exists k :: at <= k < |doc| && doc[k].Table? &&
                                 (forall j :: at <= j < k ==> !doc[j].Table?) &&
                                 r.value == ThemesOf(BodyRows(doc[k].sections))
  {
    match FindTable(doc, at)
    case None => Err(NoTableFound)
    case Some(k) => Ok(ThemesOf(BodyRows(doc[k].sections)))
  }

  /** `parseTable`: find the table, then push one theme per body row. */
  method ParseTable(doc: seq<Node>, at: nat) returns (r: Result<seq<Theme>, ParseError>)
    ensures r == TableThemes(doc, at)
  {
    var found := FindTable(doc, at);
    if found.None? {
      return Err(NoTableFound);
    }
    var rows := BodyRows(doc[found.value].sections);
    var themes: seq<Theme> := [];
    for i := 0 to |rows|
      invariant |themes| == i
      invariant forall j :: 0 <= j < i ==> themes[j] == ThemeOf(rows[j])
    {
      var name := DecodeName(CellText(rows[i], 0));
      var link := CellLink(rows[i], 1);
      var episodes := CellText(rows[i], 2);
      var notes := CellText(rows[i], 3);
      var kind := if StartsWith(name, "OP") then Opening else Ending;
      themes := themes + [Theme(name, link, kind, episodes, notes)];
    }
    assert themes == ThemesOf(rows);
    return Ok(themes);
  }

  // ---------------------------------------------------------------------------
  // parseAnime

  /** What `parseAnime` yields for the heading at `k`. */
  function AnimeOf(doc: seq<Node>, k: nat): (r: Result<Anime, ParseError>)
    requires k < |doc| && doc[k].Heading?
    ensures r == Err(MissingTitleLink) <==> FirstHref(doc[k].anchors).None?
    ensures r.Err? <==> FirstHref(doc[k].anchors).None? ||
                        (k + 1 < |doc| && doc[k + 1].Paragraph? &&
                         forall j :: k + 2 <= j < |doc| ==> !doc[j].Table?)
    ensures r.Ok? ==> FirstHref(doc[k].anchors).Some? &&
                      r.value.id == HrefSegment4(FirstHref(doc[k].anchors).value) &&
                      r.value.title == AnchorsText(doc[k].anchors) &&
                      r.value.year.None?
    ensures r.Ok? ==> (r.value.themes.Some? <==> k + 1 < |doc| && (doc[k + 1].Paragraph? || doc[k + 1].Table?))
    ensures r.Ok? && k + 1 < |doc| && doc[k + 1].Table? ==>
              r.value.themes == Some(ThemesOf(BodyRows(doc[k + 1].sections)))
    ensures r.Ok? && k + 1 < |doc| && doc[k + 1].Paragraph? ==>
              r.value.themes == Some(TableThemes(doc, k + 2).value)
  {
    match FirstHref(doc[k].anchors)
    case None => Err(MissingTitleLink)
    case Some(href) =>
      var anime := Anime(HrefSegment4(href), AnchorsText(doc[k].anchors), None, None);
      if k + 1 < |doc| && doc[k + 1].Paragraph? then
        match TableThemes(doc, k + 2)
        case Err(e) => Err(e)
        case Ok(themes) => Ok(anime.(themes := Some(themes)))
      else if k + 1 < |doc| && doc[k + 1].Table? then
        Ok(anime.(themes := Some(TableThemes(doc, k + 1).value)))
      else
        Ok(anime)
  }

  /** `parseAnime`: build the record from the heading, then assign its themes if a table follows. */
  method ParseAnime(doc: seq<Node>, k: nat) returns (r: Result<Anime, ParseError>)
    requires k < |doc| && doc[k].Heading?
    ensures r == AnimeOf(doc, k)
  {
    var anchors := doc[k].anchors;
    var title := AnchorsText(anchors);
    var href := FirstHref(anchors);
    if href.None? {
      return Err(MissingTitleLink);
    }
    var anime := Anime(HrefSegment4(href.value), title, None, None);
    if k + 1 < |doc| && doc[k + 1].Paragraph? {
      var themes := ParseTable(doc, k + 2);
      if themes.Err? {
        return Err(themes.error);
      }
      anime := anime.(themes := Some(themes.value));
    } else if k + 1 < |doc| && doc[k + 1].Table? {
      var themes := ParseTable(doc, k + 1);
      anime := anime.(themes := Some(themes.value));
    }
    return Ok(anime);
  }

  /**
   * A paragraph of alternative titles between a heading and its table does
   * not change what is extracted for the heading.
   */
  lemma ParagraphIndirection(doc: seq<Node>, k: nat, text: string)
    requires k + 1 < |doc| && doc[k].Heading? && doc[k + 1].Table?
    ensures AnimeOf(doc[..k + 1] + [Paragraph(text)] + doc[k + 1..], k) == AnimeOf(doc, k)
  {
    var withP := doc[..k + 1] + [Paragraph(text)] + doc[k + 1..];
    assert withP[k] == doc[k] && withP[k + 1] == Paragraph(text) && withP[k + 2] == doc[k + 1];
    assert FindTable(withP, k + 2) == Some(k + 2);
  }

  // ---------------------------------------------------------------------------
  // year

  /** `$('h3')`: the positions of the headings of a page, in document order. */
  function Headings(doc: seq<Node>): (hs: seq<nat>)
    ensures forall i :: 0 <= i < |hs| ==> hs[i] < |doc| && doc[hs[i]].Heading?
    ensures forall i, j :: 0 <= i < j < |hs| ==> hs[i] < hs[j]
    ensures forall k :: 0 <= k < |doc| && doc[k].Heading? ==> k in hs
    decreases |doc|
  {
    if |doc| == 0 then []
    else
      var last := |doc| - 1;
      Headings(doc[..last]) + (if doc[last].Heading? then [last] else [])
  }

  /**
   * `year(n)` on an already fetched and parsed page: one Anime per heading, in
   * document order, each stamped with `n`; the first heading that throws makes
   * the whole page throw.
   */
  method Year(doc: seq<Node>, n: string) returns (r: Result<seq<Anime>, ParseError>)
    ensures r.Ok? <==> forall i :: 0 <= i < |Headings(doc)| ==> AnimeOf(doc, Headings(doc)[i]).Ok?
    ensures r.Ok? ==> |r.value| == |Headings(doc)|
    ensures r.Ok? ==> forall i :: 0 <= i < |r.value| ==>
                        r.value[i] == AnimeOf(doc, Headings(doc)[i]).value.(year := Some(n))
    ensures r.Err? ==> exists i :: 0 <= i < |Headings(doc)| &&
                                   AnimeOf(doc, Headings(doc)[i]) == Err(r.error) &&
                                   forall j :: 0 <= j < i ==> AnimeOf(doc, Headings(doc)[j]).Ok?
  {
    var headings := Headings(doc);
    var animes: seq<Anime> := [];
    for i := 0 to |headings|
      invariant |animes| == i
      invariant forall j :: 0 <= j < i ==> AnimeOf(doc, headings[j]).Ok?
      invariant forall j :: 0 <= j < i ==> animes[j] == AnimeOf(doc, headings[j]).value.(year := Some(n))
    {
      var parsed := ParseAnime(doc, headings[i]);
      if parsed.Err? {
        assert 0 <= i < |Headings(doc)| && !AnimeOf(doc, Headings(doc)[i]).Ok?;
        return Err(parsed.error);
      }
      var anime := parsed.value.(year := Some(n));
      animes := animes + [anime];
    }
    return Ok(animes);
  }
}

module ThemeParserExamples {

  import opened Wrappers
  import opened Text
  import opened Markup
  import opened ThemeParser

  /** In a title link `https://<host>/anime/<id>/...` the series id is the fifth `/`-separated segment. */
  lemma TitleLinkId(host: string, id: string, rest: string)
    requires '/' !in host && '/' !in id
    ensures HrefSegment4("https://" + host + "/anime/" + id + "/" + rest) == Some(id)
  {
    var tail := id + "/" + rest;
    var s3 := "anime" + "/" + tail;
    var s2 := host + "/" + s3;
    var s1 := "" + "/" + s2;
    assert "https://" + host + "/anime/" + id + "/" + rest == "https:" + "/" + s1;
    DropSegmentsSkip("anime", '/', tail, 0);
    DropSegmentsSkip(host, '/', s3, 1);
    DropSegmentsSkip("", '/', s2, 2);
    DropSegmentsSkip("https:", '/', s1, 3);
    SegmentHeadStop(id, '/', rest);
  }

  /** `&quot;` around a song title is decoded to `"`. */
  lemma DecodeQuotedTitle(lead: string, title: string)
    requires '&' !in lead && '&' !in title
    ensures DecodeName(lead + QUOT_ENTITY + title + QUOT_ENTITY) == lead + "\"" + title + "\""
  {
    assert lead + QUOT_ENTITY + title + QUOT_ENTITY == lead + (QUOT_ENTITY + (title + (QUOT_ENTITY + "")));
    assert QUOT_ENTITY[0] == '&';
    ReplaceAllPlainPrefix(lead, QUOT_ENTITY + (title + (QUOT_ENTITY + "")), QUOT_ENTITY, "\"");
    ReplaceAllAtMatch(title + (QUOT_ENTITY + ""), QUOT_ENTITY, "\"");
    ReplaceAllPlainPrefix(title, QUOT_ENTITY + "", QUOT_ENTITY, "\"");
    ReplaceAllAtMatch("", QUOT_ENTITY, "\"");
    assert lead + "\"" + title + "\"" == lead + ("\"" + (title + ("\"" + "")));
  }

  /** Only the first `<a>` of a heading is read: a later `<a>` with an `href` does not stop the failure. */
  lemma FirstAnchorWithoutHref(doc: seq<Node>, k: nat, first: string, later: seq<Anchor>)
    requires k < |doc| && doc[k] == Heading([Anchor(first, None)] + later)
    ensures AnimeOf(doc, k) == Err(MissingTitleLink)
  {
    assert FirstHref(doc[k].anchors).None?;
  }

  /**
   * A heading linking to a series page, followed by a table with a header row,
   * an opening row and an ending row, gives one Anime with two themes.
   */
  lemma OpeningAndEndingRows(name: string, host: string, id: string, x: string, y: string, video: string)
    requires '/' !in host && '/' !in id && '&' !in x && '&' !in y
    ensures var doc := [
              Heading([Anchor(name, Some("https://" + host + "/anime/" + id + "/"))]),
              Table([Head([Row([])]),
                     Body([Row([Cell("OP1 " + QUOT_ENTITY + x + QUOT_ENTITY, []), Cell("", [CellChild(Some(video))])]),
                           Row([Cell("ED1 " + QUOT_ENTITY + y + QUOT_ENTITY, []), Cell("", [])])])])];
            AnimeOf(doc, 0) == Ok(Anime(Some(id), name, None, Some([
              Theme("OP1 \"" + x + "\"", Some(video), Opening, "", ""),
              Theme("ED1 \"" + y + "\"", None, Ending, "", "")])))
  {
    TitleLinkId(host, id, "");
    DecodeQuotedTitle("OP1 ", x);
    DecodeQuotedTitle("ED1 ", y);
    var op := Row([Cell("OP1 " + QUOT_ENTITY + x + QUOT_ENTITY, []), Cell("", [CellChild(Some(video))])]);
    var ed := Row([Cell("ED1 " + QUOT_ENTITY + y + QUOT_ENTITY, []), Cell("", [])]);
    var sections := [Head([Row([])]), Body([op, ed])];
    assert sections[1..] == [Body([op, ed])];
    assert BodyRows(sections[1..]) == [op, ed];
    assert BodyRows(sections) == [op, ed];
    assert StartsWith("OP1 \"" + x + "\"", "OP");
    assert !StartsWith("ED1 \"" + y + "\"", "OP");
    assert ThemeOf(op) == Theme("OP1 \"" + x + "\"", Some(video), Opening, "", "");
    assert ThemeOf(ed) == Theme("ED1 \"" + y + "\"", None, Ending, "", "");
    assert ThemesOf([op, ed]) == [ThemeOf(op), ThemeOf(ed)];
    var url := "https://" + host + "/anime/" + id + "/";
    assert url + "" == url;
    var anchors := [Anchor(name, Some(url))];
    assert AnchorsText(anchors) == name + AnchorsText([]);
    assert FirstHref(anchors) == Some(url);
    var doc := [Heading(anchors), Table(sections)];
    assert doc[1].Table? && doc[1].sections == sections;
    var r := AnimeOf(doc, 0);
    assert r.Ok?;
    assert r.value.id == Some(id);
    assert r.value.title == name;
    assert r.value.themes == Some([ThemeOf(op), ThemeOf(ed)]);
  }
}
