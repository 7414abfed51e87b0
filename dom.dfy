/**
 * The part of the parsed HTML document the scraper looks at. A `Row` is an
 * element together with its direct child elements (`Cell`s), each carrying
 * the element's `.string` text; a `Block` is a candidate listing container.
 */
module Dom {
  import opened Wrappers
  import Seqs

  /** A direct child element: its tag name and its `.string` (`None` when it has no single text). */
  datatype Cell = Cell(tag: string, text: Option<string>)

  /** An element with the list of its direct child elements, in document order. */
  datatype Row = Row(tag: string, children: seq<Cell>)

  /**
   * A candidate listing container: its tag name, its `id` attribute, the
   * direct child elements of its first `tbody` (`None` when it has none), and
   * all its descendant elements in document order.
   */
  datatype Block = Block(tag: string, id: Option<string>, tbody: Option<seq<Row>>, descendants: seq<Row>)

  /** The exceptions the extraction code can raise on an unexpected page. */
  datatype ScrapeError =
    | NoTableBody   // `element.find('tbody')` found nothing: AttributeError on None
    | NoFirstCell   // `td[0]` on a row without any direct td: IndexError

  predicate IsTd(c: Cell) {
    c.tag == "td"
  }

  /** `row.find_all('td', recursive=False)`. */
  function Tds(row: Row): seq<Cell> {
    Seqs.Filter(IsTd, row.children)
  }

  /** `has_two_tds`: a `tr` with exactly two direct `td` children. */
  predicate HasTwoTds(row: Row)
    ensures HasTwoTds(row) <==> row.tag == "tr" && |Tds(row)| == 2
    ensures HasTwoTds(row) ==>
              && Tds(row)[0] in row.children && Tds(row)[0].tag == "td"
              && Tds(row)[1] in row.children && Tds(row)[1].tag == "td"
  {
    row.tag == "tr" && |Tds(row)| == 2
  }
}
