/** Finding the schedule table among the tables of a page: by the id
    `listTable`, else by a `summary` attribute mentioning a week's menu,
    else by the first table whose caption mentions the weekly menu guide.
    Not finding it is not an error: the caller then reports no meals. */
module Locator {
  import opened Wrappers
  import opened Text
  import opened Dom

  const ScheduleId := "listTable"
  const SummaryMarker := "일주일간의 식단을"
  const CaptionMarker := "일주일간 식단 안내"

  /** `soup.find("table", id="listTable")` accepts this table. */
  predicate HasScheduleId(t: Table) {
    t.id == Some(ScheduleId)
  }

  /** `summary=lambda s: s and "일주일간의 식단을" in s` accepts this table. */
  predicate HasSummaryMarker(t: Table) {
    t.summary.Some? && Contains(t.summary.value, SummaryMarker)
  }

  /** `cap and "일주일간 식단 안내" in cap.get_text()` holds for this table. */
  predicate HasCaptionMarker(t: Table) {
    t.caption.Some? && Contains(RawText(t.caption.value), CaptionMarker)
  }

  /** `soup.find(...)`: the position of the first table, in document order,
      that the filter accepts. */
  function FirstWhere(tables: seq<Table>, p: Table -> bool): (r: Option<nat>)
    ensures r.Some? ==> r.value < |tables| && p(tables[r.value])
    ensures r.Some? ==> forall j :: 0 <= j < r.value ==> !p(tables[j])
    ensures r.None? ==> forall j :: 0 <= j < |tables| ==> !p(tables[j])
  {
    if tables == [] then None
    else if p(tables[0]) then Some(0)
    else
      match FirstWhere(tables[1..], p)
      case Some(i) => Some(i + 1)
      case None => None
  }

  /** The table the program settles on, as a position in `tables`, or `None`
      when no strategy matches. A later strategy is consulted only when every
      earlier one matches no table at all, and each strategy picks the first
      table it accepts. */
  function Locate(tables: seq<Table>): (r: Option<nat>)
    ensures r.None? <==>
              forall j :: 0 <= j < |tables| ==>
                !HasScheduleId(tables[j]) && !HasSummaryMarker(tables[j]) && !HasCaptionMarker(tables[j])
    ensures r.Some? ==> r.value < |tables|
    ensures (exists j :: 0 <= j < |tables| && HasScheduleId(tables[j])) ==>
              r.Some? && HasScheduleId(tables[r.value])
              && forall j :: 0 <= j < r.value ==> !HasScheduleId(tables[j])
    ensures (forall j :: 0 <= j < |tables| ==> !HasScheduleId(tables[j]))
            && (exists j :: 0 <= j < |tables| && HasSummaryMarker(tables[j])) ==>
              r.Some? && HasSummaryMarker(tables[r.value])
              && forall j :: 0 <= j < r.value ==> !HasSummaryMarker(tables[j])
    ensures (forall j :: 0 <= j < |tables| ==> !HasScheduleId(tables[j]) && !HasSummaryMarker(tables[j]))
            && (exists j :: 0 <= j < |tables| && HasCaptionMarker(tables[j])) ==>
              r.Some? && HasCaptionMarker(tables[r.value])
              && forall j :: 0 <= j < r.value ==> !HasCaptionMarker(tables[j])
  {
    match FirstWhere(tables, HasScheduleId)
    case Some(i) => Some(i)
    case None =>
      match FirstWhere(tables, HasSummaryMarker)
      case Some(i) => Some(i)
      case None => FirstWhere(tables, HasCaptionMarker)
  }

  /** The lookup as the program runs it: two library searches, then a scan
      over every table that stops at the first caption match. */
  method LocateTable(tables: seq<Table>) returns (found: Option<nat>)
    ensures found == Locate(tables)
  {
    found := FirstWhere(tables, HasScheduleId);
    if found.None? {
      found := FirstWhere(tables, HasSummaryMarker);
    }
    if found.None? {
      var i := 0;
      while i < |tables|
        invariant 0 <= i <= |tables|
        invariant found.None?
        invariant forall j :: 0 <= j < i ==> !HasCaptionMarker(tables[j])
      {
        var t := tables[i];
        if t.caption.Some? && Contains(RawText(t.caption.value), CaptionMarker) {
          found := Some(i);
          break;
        }
        i := i + 1;
      }
    }
  }
}
