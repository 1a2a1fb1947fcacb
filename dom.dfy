/** The part of Beautiful Soup's parse tree that the extractor looks at.
    Parsing markup into this tree is the library's job and is not modelled;
    what is modelled is what the program asks of the tree. */
module Dom {
  import opened Wrappers
  import opened Text

  /** An element reduced to the text nodes below it, in document order. */
  datatype Cell = Cell(strings: seq<string>)

  /** A `<tr>`: its first `<th>` descendant (`tr.find("th")`) and all its
      `<td>` descendants (`tr.find_all("td")`). */
  datatype Row = Row(th: Option<Cell>, tds: seq<Cell>)

  /** A `<table>`: its `id` and `summary` attributes, its first `<caption>`
      descendant, the `<tr>` rows below its first `<tbody>` if it has one,
      and all `<tr>` rows below the table itself. */
  datatype Table = Table(
    id: Option<string>,
    summary: Option<string>,
    caption: Option<Cell>,
    tbodyRows: Option<seq<Row>>,
    allRows: seq<Row>)

  /** A parsed page: the element matched by `div.scedule .date`, if any, and
      all `<table>` elements in document order. */
  datatype Document = Document(dateElement: Option<Cell>, tables: seq<Table>)

  /** `tag.get_text(sep, strip=True)`: every text node stripped, the empty
      ones dropped, the rest joined with `sep`. */
  function GetText(c: Cell, sep: string): (r: string)
    ensures IsStripped(r)
    ensures r == [] <==> forall k :: 0 <= k < |c.strings| ==> Strip(c.strings[k]) == []
  {
    var parts := StrippedNonEmpty(c.strings);
    JoinStripped(sep, parts);
    StrippedNonEmptyEmptyAllBlank(c.strings);
    StrippedNonEmptyAllBlankEmpty(c.strings);
    Join(sep, parts)
  }

  /** `tag.get_text()`: the text nodes concatenated as they are. */
  function RawText(c: Cell): string {
    Join("", c.strings)
  }

  /** A marker phrase inside one text node of a caption is inside the
      caption's `get_text()`. */
  lemma RawTextHasNode(c: Cell, k: nat, marker: string)
    requires k < |c.strings| && Contains(c.strings[k], marker)
    ensures Contains(RawText(c), marker)
  {
    JoinContains(c.strings, k, marker);
  }

  /** `table.find("tbody") or table`, then `.find_all("tr")`: a tag is always
      truthy, so the rows come from the first `<tbody>` whenever there is one. */
  function TableRows(t: Table): seq<Row> {
    if t.tbodyRows.Some? then t.tbodyRows.value else t.allRows
  }

  /** `date_el.get_text(strip=True)` when the `.date` element exists, else `None`. */
  function WeekRange(d: Document): (r: Option<string>)
    ensures r.Some? <==> d.dateElement.Some?
    ensures r.Some? ==> IsStripped(r.value)
  {
    match d.dateElement
    case Some(e) => Some(GetText(e, ""))
    case None => None
  }
}
