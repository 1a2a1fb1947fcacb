/** `parse_html`: turning the located schedule table into meal records.
    The rows are scanned top to bottom; the date and weekday of the last
    `<th>` seen are carried forward to the rows that have none. */
module Extract {
  import opened Wrappers
  import opened Seqs
  import opened Folds
  import opened Text
  import opened Dom
  import opened DateHeader
  import opened Locator

  /** One meal as the program records it: `md`, `weekday`, `meal`, `title`,
      `items`, `info`. `md` and `weekday` are `None` before the first date
      header. */
  datatype MealRecord = MealRecord(
    md: Option<string>,
    weekday: Option<string>,
    meal: string,
    title: string,
    items: seq<string>,
    info: string)

  /** The carried `(current_md, current_weekday)`. */
  datatype DayContext = DayContext(md: Option<string>, weekday: Option<string>)

  const NoDay := DayContext(None, None)

  /** The two carried values are set together: both absent or both present. */
  predicate SetTogether(md: Option<string>, weekday: Option<string>) {
    md.Some? <==> weekday.Some?
  }

  /** The context a date header establishes: the groups of the date pattern
      when it matches, otherwise the whole header text and an empty weekday. */
  function HeaderContext(th: Cell): (ctx: DayContext)
    ensures ctx.md.Some? && ctx.weekday.Some?
  {
    TextContext(GetText(th, " "))
  }

  /** The same decision on the header's text. */
  function TextContext(dateText: string): (ctx: DayContext)
    ensures ctx.md.Some? && ctx.weekday.Some?
  {
    match Search(dateText)
    case Some(m) => DayContext(Some(m.md), Some(m.weekday))
    case None => DayContext(Some(Strip(dateText)), Some(""))
  }

  /** When the pattern matches, the context is the leftmost match's groups. */
  lemma TextContextMatch(s: string)
    requires exists i: nat, k: nat :: i <= |s| && MatchesWith(s, i, k)
    ensures exists i: nat, k: nat :: i <= |s| && MatchesWith(s, i, k)
              && (forall j: nat, k': nat :: j < i ==> !MatchesWith(s, j, k'))
              && TextContext(s) == DayContext(Some(s[i..i + 5]), Some([s[i + 6 + k]]))
  {
    SearchSpec(s);
    var i: nat, k: nat :| i <= |s| && MatchesWith(s, i, k)
      && Search(s) == Some(DateMatch(s[i..i + 5], [s[i + 6 + k]]))
      && forall j: nat, k': nat :: j < i ==> !MatchesWith(s, j, k');
    assert TextContext(s) == DayContext(Some(s[i..i + 5]), Some([s[i + 6 + k]]));
  }

  /** When the pattern matches nowhere, the context is the stripped text and `""`. */
  lemma TextContextNoMatch(s: string)
    requires IsStripped(s)
    requires forall i: nat, k: nat :: i <= |s| ==> !MatchesWith(s, i, k)
    ensures TextContext(s) == DayContext(Some(s), Some(""))
  {
    SearchSpec(s);
    StripStripped(s);
  }

  /** A header sets both values. When the pattern matches anywhere in the
      header text, `md` is the `DD.DD` of the leftmost match and `weekday`
      the character in its parentheses; otherwise `md` is the header text
      itself (the text is already stripped) and `weekday` is empty. */
  lemma HeaderContextSpec(th: Cell)
    ensures var s := GetText(th, " ");
            (exists i: nat, k: nat :: i <= |s| && MatchesWith(s, i, k)) ==>
              exists i: nat, k: nat :: i <= |s| && MatchesWith(s, i, k)
                && (forall j: nat, k': nat :: j < i ==> !MatchesWith(s, j, k'))
                && HeaderContext(th) == DayContext(Some(s[i..i + 5]), Some([s[i + 6 + k]]))
    ensures var s := GetText(th, " ");
            (forall i: nat, k: nat :: i <= |s| ==> !MatchesWith(s, i, k)) ==>
              HeaderContext(th) == DayContext(Some(s), Some(""))
  {
    var s := GetText(th, " ");
    if exists i: nat, k: nat :: i <= |s| && MatchesWith(s, i, k) {
      TextContextMatch(s);
    } else {
      TextContextNoMatch(s);
    }
  }

  /** The content cell split into menu lines: `get_text("\n", strip=True)`,
      then `[line.strip() for line in text.split("\n") if line.strip()]`. */
  function SplitItems(content: Cell): (items: seq<string>)
    ensures forall k :: 0 <= k < |items| ==> items[k] != [] && IsStripped(items[k])
  {
    StrippedNonEmpty(Split(GetText(content, "\n"), '\n'))
  }

  /** When no text node of the content cell holds a line break once
      stripped (the `<br>`-separated case, with or without the markup's own
      line breaks and indentation around each `<br>`), there is one item per
      non-blank text node, stripped, in document order. */
  lemma ItemsAreTextNodes(content: Cell)
    requires forall k :: 0 <= k < |content.strings| ==> '\n' !in Strip(content.strings[k])
    ensures SplitItems(content) == StrippedNonEmpty(content.strings)
  {
    var parts := StrippedNonEmpty(content.strings);
    StrippedNonEmptyFixed(parts);
    if parts == [] {
      assert Split(Join("\n", parts), '\n') == [""];
      StrippedNonEmptyAllBlankEmpty([""]);
    } else {
      forall k | 0 <= k < |parts| ensures '\n' !in parts[k] {
        StrippedNonEmptyKeepsOrder(content.strings);
      }
      SplitJoin(parts, '\n');
    }
  }

  /** `if title == "-" and items: title = items.pop(0)`. Title and items read
      together lose nothing but the placeholder, and the title is still the
      placeholder afterwards only when there were no items or the promoted
      line was itself `-`. */
  function TitleFallback(title: string, items: seq<string>): (r: (string, seq<string>))
    ensures [r.0] + r.1 == if title == "-" && items != [] then items else [title] + items
    ensures r.0 == "-" ==> r.1 == [] || items[0] == "-"
  {
    if title == "-" && items != [] then (items[0], items[1..]) else (title, items)
  }

  /** The record a row with at least four data cells produces under `ctx`. */
  function BuildRecord(ctx: DayContext, tds: seq<Cell>): (m: MealRecord)
    requires |tds| >= 4
    ensures m.md == ctx.md && m.weekday == ctx.weekday
  {
    var fallback := TitleFallback(GetText(tds[1], ""), SplitItems(tds[2]));
    MealRecord(ctx.md, ctx.weekday, GetText(tds[0], ""), fallback.0, fallback.1, GetText(tds[3], ""))
  }

  /** A `<tr>` with neither `<td>` nor `<th>`. */
  predicate IsBlankRow(row: Row) {
    row.tds == [] && row.th.None?
  }

  /** One turn of the row loop: the new context and the record, if any. */
  function Step(ctx: DayContext, row: Row): (r: (DayContext, Option<MealRecord>))
    ensures r.0 == if row.th.Some? then HeaderContext(row.th.value) else ctx
    ensures r.1.Some? <==> EmitsRecord(row)
    ensures r.1.Some? ==> r.1.value == BuildRecord(r.0, row.tds)
  {
    if IsBlankRow(row) then (ctx, None)
    else
      var next := if row.th.Some? then HeaderContext(row.th.value) else ctx;
      if |row.tds| < 4 then (next, None)
      else (next, Some(BuildRecord(next, row.tds)))
  }

  /** The loop over `rows`: `Step` folded over the rows from the empty
      context, giving the context after the last row and the records in the
      order they were appended. */
  function Scan(rows: seq<Row>): (r: (DayContext, seq<MealRecord>))
    ensures |r.1| <= |rows|
  {
    Fold(NoDay, Step, rows)
  }

  /** The carried values stay set together, and so do the `md` and
      `weekday` of every record. */
  lemma ScanSetTogether(rows: seq<Row>)
    ensures SetTogether(ContextAfter(rows).md, ContextAfter(rows).weekday)
    ensures forall k :: 0 <= k < |Records(rows)| ==>
              SetTogether(Records(rows)[k].md, Records(rows)[k].weekday)
  {
    var inv := (c: DayContext) => SetTogether(c.md, c.weekday);
    var good := (m: MealRecord) => SetTogether(m.md, m.weekday);
    forall c, row | inv(c)
      ensures inv(Step(c, row).0) && (Step(c, row).1.Some? ==> good(Step(c, row).1.value))
    {
      StepSetTogether(c, row);
    }
    FoldInvariant(NoDay, Step, inv, good, rows);
  }

  /** A step from a context whose values are set together keeps them so,
      and its record carries them. */
  lemma StepSetTogether(ctx: DayContext, row: Row)
    requires SetTogether(ctx.md, ctx.weekday)
    ensures var r := Step(ctx, row);
            SetTogether(r.0.md, r.0.weekday)
            && (r.1.Some? ==> r.1.value.md == r.0.md && r.1.value.weekday == r.0.weekday)
  {
  }

  /** Scanning one more row is one more step. */
  lemma ScanSnoc(rows: seq<Row>, row: Row)
    ensures Scan(rows + [row]).0 == Step(ContextAfter(rows), row).0
    ensures Scan(rows + [row]).1 ==
              Records(rows) + (if Step(ContextAfter(rows), row).1.Some? then [Step(ContextAfter(rows), row).1.value] else [])
  {
    FoldSnoc(NoDay, Step, rows, row);
  }

  /** `current_md`, `current_weekday` after the loop has seen `rows`. */
  function ContextAfter(rows: seq<Row>): DayContext {
    Scan(rows).0
  }

  /** The `menus` list built from `rows`. */
  function Records(rows: seq<Row>): seq<MealRecord> {
    Scan(rows).1
  }

  /** A row that yields a record: it has at least four `<td>` cells. */
  predicate EmitsRecord(row: Row) {
    |row.tds| >= 4
  }

  /** Rows with neither `<td>` nor `<th>` are skipped outright: no record, and
      the carried date is untouched. */
  lemma BlankRowSkipped(rows: seq<Row>, row: Row)
    requires IsBlankRow(row)
    ensures Scan(rows + [row]) == Scan(rows)
  {
    ScanSnoc(rows, row);
    assert Records(rows) + [] == Records(rows);
  }

  /** A row with fewer than four `<td>` cells yields no record, yet a `<th>`
      in it has already replaced the carried date, since the header is read
      before the cells are counted. */
  lemma ShortRowStillSetsDate(rows: seq<Row>, row: Row)
    requires |row.tds| < 4
    ensures Records(rows + [row]) == Records(rows)
    ensures row.th.Some? ==> ContextAfter(rows + [row]) == HeaderContext(row.th.value)
    ensures row.th.None? ==> ContextAfter(rows + [row]) == ContextAfter(rows)
  {
    ScanSnoc(rows, row);
    assert Records(rows) + [] == Records(rows);
  }

  /** Before the first `<th>`, the carried date is absent. */
  lemma {:induction false} NoHeaderNoDay(rows: seq<Row>)
    requires forall j :: 0 <= j < |rows| ==> rows[j].th.None?
    ensures ContextAfter(rows) == NoDay
  {
    if rows != [] {
      var n := |rows| - 1;
      assert rows[..n] + [rows[n]] == rows;
      NoHeaderNoDay(rows[..n]);
      ScanSnoc(rows[..n], rows[n]);
    }
  }

  /** The carry-forward rule: after any prefix of the table, the carried
      context is the one set by the last row that had a `<th>`. */
  lemma {:induction false} CarryForward(rows: seq<Row>, j: nat)
    requires j < |rows| && rows[j].th.Some?
    requires forall l :: j < l < |rows| ==> rows[l].th.None?
    ensures ContextAfter(rows) == HeaderContext(rows[j].th.value)
  {
    var n := |rows| - 1;
    assert rows[..n] + [rows[n]] == rows;
    ScanSnoc(rows[..n], rows[n]);
    if j < n {
      CarryForward(rows[..n], j);
    }
  }

  /** Whether a step appends a record depends on the row alone. */
  lemma StepEmitsByRow()
    ensures EmitsBy(Step, EmitsRecord)
  {
    forall ctx, row ensures Step(ctx, row).1.Some? <==> EmitsRecord(row) {
    }
  }

  /** There is exactly one record per row with at least four data cells. */
  lemma RecordCount(rows: seq<Row>)
    ensures |Records(rows)| == |IndicesWhere(rows, EmitsRecord)|
  {
    StepEmitsByRow();
    FoldCount(NoDay, Step, EmitsRecord, rows);
  }

  /** Records come out in row order, at most one per row. */
  lemma RecordsInRowOrder(rows: seq<Row>)
    ensures |Records(rows)| == |IndicesWhere(rows, EmitsRecord)| <= |rows|
    ensures forall a, b :: 0 <= a < b < |Records(rows)| ==>
              IndicesWhere(rows, EmitsRecord)[a] < IndicesWhere(rows, EmitsRecord)[b] < |rows|
  {
    RecordCount(rows);
    IndicesWhereBounded(rows, EmitsRecord);
    IndicesWhereAscending(rows, EmitsRecord);
  }

  /** The `k`-th record comes from the `k`-th row with at least four data
      cells, built under the context in force after that row. */
  lemma RecordAt(rows: seq<Row>, k: nat)
    requires k < |Records(rows)|
    ensures k < |IndicesWhere(rows, EmitsRecord)|
    ensures var j := IndicesWhere(rows, EmitsRecord)[k];
            j < |rows| && EmitsRecord(rows[j])
            && Records(rows)[k] == BuildRecord(ContextAfter(rows[..j + 1]), rows[j].tds)
  {
    StepEmitsByRow();
    FoldAt(NoDay, Step, EmitsRecord, rows, k);
    var j := IndicesWhere(rows, EmitsRecord)[k];
    TakeSnoc(rows, j);
    ScanSnoc(rows[..j], rows[j]);
  }

  /** The loop of `parse_html` over the located table's rows. */
  method ExtractRows(rows: seq<Row>) returns (menus: seq<MealRecord>)
    ensures menus == Records(rows)
  {
    menus := [];
    var currentMd: Option<string> := None;
    var currentWeekday: Option<string> := None;
    for i := 0 to |rows|
      invariant Scan(rows[..i]) == (DayContext(currentMd, currentWeekday), menus)
    {
      var tr := rows[i];
      assert rows[..i + 1] == rows[..i] + [tr];
      ScanSnoc(rows[..i], tr);
      if tr.tds == [] && tr.th.None? {
        assert menus + [] == menus;
        continue;
      }
      if tr.th.Some? {
        var dateText := GetText(tr.th.value, " ");
        var m := Search(dateText);
        if m.Some? {
          currentMd := Some(m.value.md);
          currentWeekday := Some(m.value.weekday);
        } else {
          currentMd := Some(Strip(dateText));
          currentWeekday := Some("");
        }
      }
      var tds := tr.tds;
      if |tds| < 4 {
        assert menus + [] == menus;
        continue;
      }
      var mealType := GetText(tds[0], "");
      var title := GetText(tds[1], "");
      var info := GetText(tds[3], "");
      var items := SplitItems(tds[2]);
      if title == "-" && items != [] {
        title := items[0];
        items := items[1..];
      }
      menus := menus + [MealRecord(currentMd, currentWeekday, mealType, title, items, info)];
    }
    assert rows[..|rows|] == rows;
  }

  /** `parse_html` on a parsed page: the week range, and the records of the
      located table, or no records when no table is found. */
  function ParseDocument(d: Document): (r: (Option<string>, seq<MealRecord>))
    ensures r.0 == WeekRange(d)
    ensures Locate(d.tables).None? ==> r.1 == []
    ensures Locate(d.tables).Some? ==> r.1 == Records(TableRows(d.tables[Locate(d.tables).value]))
  {
    match Locate(d.tables)
    case None => (WeekRange(d), [])
    case Some(i) => (WeekRange(d), Records(TableRows(d.tables[i])))
  }

  method ParseHtml(d: Document) returns (weekRange: Option<string>, menus: seq<MealRecord>)
    ensures (weekRange, menus) == ParseDocument(d)
  {
    weekRange := None;
    if d.dateElement.Some? {
      weekRange := Some(GetText(d.dateElement.value, ""));
    }
    var found := LocateTable(d.tables);
    if found.None? {
      return weekRange, [];
    }
    var table := d.tables[found.value];
    var rows := if table.tbodyRows.Some? then table.tbodyRows.value else table.allRows;
    menus := ExtractRows(rows);
  }
}
