/**
 * The markup the scraper reads, as values. A wiki page is the list of sibling
 * elements that holds its `<h3>` headings, in document order (cheerio's
 * `.next()` walks it); the text and attributes cheerio returns are fields of
 * these values.
 */
module Markup {

  import opened Wrappers

  /** An `<a>` element: its text and its `href` attribute, if it has one. */
  datatype Anchor = Anchor(text: string, href: Option<string>)

  /** An element inside a table cell, with its `href` attribute, if it has one. */
  datatype CellChild = CellChild(href: Option<string>)

  /** A `<td>`: its text and its child elements in order. */
  datatype Cell = Cell(text: string, children: seq<CellChild>)

  /** A `<tr>`: its `<td>` cells in order. */
  datatype Row = Row(cells: seq<Cell>)

  /** A child of a `<table>`: a `<thead>` or a `<tbody>`, with its rows. */
  datatype Section = Head(rows: seq<Row>) | Body(rows: seq<Row>)

  /** An element of the sibling list that holds a wiki page's headings. */
  datatype Node =
    | Heading(anchors: seq<Anchor>)   // <h3>, with its <a> children
    | Paragraph(text: string)         // <p>, such as a line of alternative titles
    | Table(sections: seq<Section>)   // <table>
    | Other                           // any element that is not `<h3>`, `<p>` or `<table>`

  /** `td.eq(i).text()`: the text of cell `i`, or the empty string when the row has no such cell. */
  function CellText(row: Row, i: nat): string {
    if i < |row.cells| then row.cells[i].text else ""
  }

  /** `td.eq(i).children().first().attr('href')`: undefined without such a cell, child or attribute. */
  function CellLink(row: Row, i: nat): Option<string> {
    if i < |row.cells| && |row.cells[i].children| > 0 then row.cells[i].children[0].href else None
  }

  /** `table.children('tbody').children('tr')`: the rows of every `<tbody>`, in order; header rows are not among them. */
  function BodyRows(sections: seq<Section>): seq<Row> {
    if |sections| == 0 then []
    else (if sections[0].Body? then sections[0].rows else []) + BodyRows(sections[1..])
  }

  /** `.text()` of a heading's `<a>` children: their texts, concatenated. */
  function AnchorsText(anchors: seq<Anchor>): string {
    if |anchors| == 0 then [] else anchors[0].text + AnchorsText(anchors[1..])
  }

  /** `.attr('href')` of a heading's `<a>` children: the first one's, undefined if there is none. */
  function FirstHref(anchors: seq<Anchor>): Option<string> {
    if |anchors| == 0 then None else anchors[0].href
  }
}
