# hansae-mju-meal: the weekly menu extractor and page builder, in Dafny

`meal.py` fetches the Myongji University cafeteria page and reads the weekly
menu table out of it. It then renders that menu as a static page with one tab
and one panel per day.

This project models the two parts of `meal.py` that make decisions:

- **`parse_html`.** This part:
  - finds the schedule table with three strategies tried in a fixed order;
  - walks the table's rows, carrying the month-day and weekday of the last
    date header `<th>` forward;
  - reads each header with the pattern `(\d{2}\.\d{2})\s*\((.)\)`, falling
    back to the whole header text and an empty weekday;
  - splits the content cell into trimmed, non-empty lines;
  - promotes the first line to the title when the title cell is the
    placeholder `-`.
- **`generate_html`, the logic only.** This part:
  - groups the records by `(md, weekday)` in the order keys first appear;
  - sorts the days by month-day with a stable sort, where a missing
    month-day sorts as `""`;
  - skips the days without a month-day;
  - for each card, decides whether the info line shows and which list
    items appear.

The parse tree produced by Beautiful Soup is abstracted as data:

- A cell is the sequence of text nodes below it.
- A row is its first `<th>` (optional) and its `<td>` cells.
- A table has:
  - its `id` and `summary` attributes;
  - its caption;
  - its `<tbody>` rows and its own rows.
- A document is the optional week-range element and the tables.

`get_text(sep, strip=True)` is modelled as Beautiful Soup defines it: strip
every text node, drop the empty ones, join the rest with `sep`.

The modules, in dependency order:

| module | file | what it holds |
|---|---|---|
| `Wrappers` | wrappers.dfy | `Option` |
| `Seqs` | seqs.dfy | the indices of a sequence's entries that satisfy a predicate; small slicing facts |
| `Folds` | folds.dfy | a left fold that carries a state and collects outputs, with its counting, position and invariant lemmas |
| `Text` | text.dfy | the Python `str` operations used: `strip`, `join`, `split("\n")`, `in`, `<` on strings |
| `Dom` | dom.dfy | the parse tree, `get_text` |
| `DateHeader` | date_header.dfy | the date pattern and `re.search` over it |
| `Locator` | locator.dfy | the table search |
| `Extract` | extract.dfy | the row loop as a fold, as a method, and `parse_html` as a whole |
| `Render` | render.dfy | grouping, sorting, day skipping, the card contents, and the loops of `generate_html` that compute them |
| `Scenarios` | scenarios.dfy | worked cases: a real date header, a header the pattern does not match, the title fallback |

The row loop is stated twice:

- `Extract.Scan` is the specification. It folds `Extract.Step` over the rows,
  starting from `(None, None)`.
- `Extract.ExtractRows` is the loop itself. It has the program's
  accumulators and is proved to return `Scan`'s records.

`Render` has the same pairing. `GroupByDay`, `FillPanels` and `CardsFor` are
the program's loops. Each is proved equal to a function, and the properties
are proved as lemmas about those functions. The branches that decide one
card's contents are the functions `ShownInfo`, `FullItems` and `CardOf`.

## Model

| member | source | states |
|---|---|---|
| Text.Strip | meal.py:113 | `s.strip()` has no whitespace at either end and is no longer than `s` |
| Text.StripInfix | meal.py:113 | `s.strip()` is the slice of `s` between its leading and its trailing whitespace; everything removed is whitespace |
| Text.StripEmptyIffAllSpace | meal.py:113 | `s.strip()` is empty exactly when every character of `s` is whitespace (the `if line.strip()` filter) |
| Text.StripIdempotent | meal.py:98 | stripping twice is stripping once, so the `date_text.strip()` of an already stripped `get_text` result changes nothing |
| Text.Split | meal.py:112 | `s.split("\n")` gives at least one piece, and no piece contains a line break |
| Text.JoinSplit | meal.py:112-113 | joining the pieces of `split("\n")` with `"\n"` gives the text back |
| Text.SplitJoin | meal.py:112-113 | splitting a `"\n"`-join of pieces without line breaks gives the pieces back |
| Text.StrippedNonEmpty | meal.py:113 | the comprehension keeps at most one entry per line, and every entry is non-empty and stripped |
| Text.JoinStripped | meal.py:92 | joining non-empty stripped pieces gives a stripped text that starts with the first piece's first character and ends with the last piece's last character |
| Text.JoinContains | meal.py:68 | a phrase inside one of the pieces is inside their concatenation |
| Text.StrippedNonEmptyKeepsOrder | meal.py:113 | the list comprehension keeps one stripped entry per non-blank line, in the lines' order, and nothing else |
| Text.StrippedNonEmptyEmptyAllBlank | meal.py:113 | the comprehension is empty only when every line is blank |
| Text.StrippedNonEmptyAllBlankEmpty | meal.py:113 | when every line is blank, the comprehension is empty |
| Text.StrippedNonEmptyFixed | meal.py:113 | lines that are already stripped and non-empty pass through unchanged |
| Text.LexTrichotomy | meal.py:144 | Python's `<` on `str` orders any two distinct strings one way and not both |
| Text.LexLessTransitive | meal.py:144 | Python's `<` on `str` is transitive |
| Dom.GetText | meal.py:92 | `get_text(sep, strip=True)` has no whitespace at either end, and is empty exactly when every text node is blank |
| Dom.RawTextHasNode | meal.py:68 | a caption that has the marker phrase inside one of its text nodes has it in `cap.get_text()`, so the caption strategy accepts it |
| Dom.WeekRange | meal.py:51-54 | the week range is present exactly when the `.date` element exists, and is then stripped |
| Locator.FirstWhere | meal.py:60-63 | `soup.find` returns the first table in document order that the filter accepts, or nothing when none does |
| Locator.Locate | meal.py:60-74 | no table is found exactly when no table has the id, the summary marker or the caption marker; otherwise the first table with the id wins; failing that, the first with the summary marker; failing that, the first with the caption marker |
| Locator.LocateTable | meal.py:60-70 | the two library searches followed by the caption loop with its `break` find the same table as `Locate` |
| DateHeader.MatchAt | meal.py:93 | a match anchored at one position captures a 5-character `DD.DD` month-day and one weekday character that is not a newline |
| DateHeader.MatchAtIff | meal.py:93 | the anchored match (month-day, greedy `\s*`, one character in parentheses) succeeds at `i` exactly when the pattern matches at `i` for some amount of whitespace, and it returns that match's two groups |
| DateHeader.SearchFrom | meal.py:93 | a match found from a position on has the same two group shapes |
| DateHeader.Search | meal.py:93 | a match found anywhere in the text has a `DD.DD` month-day and a one-character weekday |
| DateHeader.SearchFromLeftmost | meal.py:93 | the search finds nothing only when no position matches, and otherwise returns the match at the leftmost matching position |
| DateHeader.SearchSpec | meal.py:93 | `re.search` finds a match exactly when the pattern matches somewhere; its groups are the 5-character `DD.DD` and the single parenthesised character of the leftmost match |
| Extract.HeaderContext | meal.py:90-99 | a `<th>` always sets both carried values, never just one |
| Extract.TextContext | meal.py:93-99 | the header text's decision sets both values, in the match branch and in the fallback branch alike |
| Extract.HeaderContextSpec | meal.py:90-99 | a header sets both carried values: the leftmost match's two groups when the pattern matches, otherwise the whole stripped header text and `""` |
| Extract.TextContextMatch | meal.py:93-96 | when the date pattern matches the header text, the carried values are the `DD.DD` and the weekday of the leftmost match |
| Extract.TextContextNoMatch | meal.py:97-99 | when the pattern matches nowhere in an already stripped header text, `md` is that text and `weekday` is `""` |
| Extract.SplitItems | meal.py:112-113 | every item is non-empty and has no whitespace at either end |
| Extract.ItemsAreTextNodes | meal.py:111-113 | when no text node of the content cell has a line break once stripped (`<br>`-separated lines, with or without the markup's own line breaks and indentation around each `<br>`), the items are the cell's non-blank text nodes, stripped, in document order |
| Extract.TitleFallback | meal.py:115-117 | title and items read together lose only the placeholder when it is replaced, and are unchanged otherwise; the title is still `-` afterwards only when there were no items or the promoted line was itself `-` |
| Extract.BuildRecord | meal.py:106-126 | a record carries the month-day and weekday in force, unchanged |
| Extract.Step | meal.py:84-126 | one turn of the row loop: a `<th>` replaces the carried context, and a record is appended exactly when the row has at least four `<td>`, built under the new context |
| Extract.Scan | meal.py:80-126 | the row loop appends at most one record per row |
| Extract.ScanSetTogether | meal.py:81-99 | `current_md` and `current_weekday` are always both `None` or both set, and so are every record's `md` and `weekday` |
| Extract.BlankRowSkipped | meal.py:86-87 | a row with neither `<td>` nor `<th>` adds no record and leaves the carried date as it was |
| Extract.ShortRowStillSetsDate | meal.py:90-104 | a row with fewer than four `<td>` adds no record, but its `<th>` has already replaced the carried date |
| Extract.NoHeaderNoDay | meal.py:81-82 | before the first `<th>` the carried date is `(None, None)` |
| Extract.CarryForward | meal.py:89-99 | after any sequence of rows, the carried date is the one set by the last row that had a `<th>` |
| Extract.RecordCount | meal.py:101-126 | there is exactly one record per row with at least four `<td>` |
| Extract.RecordsInRowOrder | meal.py:84-126 | there are at most as many records as rows, and records come in the order of their rows |
| Extract.RecordAt | meal.py:84-126 | the `k`-th record is built from the `k`-th row with at least four `<td>`, under the date carried after that row |
| Extract.ExtractRows | meal.py:80-126 | the loop with its two accumulators, the `continue`s and the `items.pop(0)` returns exactly the records of the fold |
| Extract.ParseDocument | meal.py:50-78 | the week range is the stripped `.date` text when that element exists; the records are those of the located table's rows (its `<tbody>` when it has one), or none when no table is found |
| Extract.ParseHtml | meal.py:48-129 | `parse_html` returns `ParseDocument`'s week range and records |
| Render.DistinctKeys | meal.py:140-142 | the keys of `grouped` occur once each and are exactly the `(md, weekday)` pairs of the records |
| Render.DistinctKeysFirstAppearance | meal.py:140-142 | of two keys of `grouped`, the earlier one has a record before every record of the later one: the keys come in first-appearance order |
| Render.RecordsWithKey | meal.py:140-142 | `grouped[k]` holds only records with key `k`, and is empty exactly when no record has that key |
| Render.RecordsWithKeyKeepsOrder | meal.py:140-142 | `grouped[k]` holds every record with key `k` and no other: its `i`-th entry is the `i`-th record with that key, so record order is kept |
| Render.GroupByDay | meal.py:140-142 | the `defaultdict` loop yields a key for each distinct pair, in first-appearance order, mapped to that pair's records in their original order |
| Render.InsertByMdPermutes | meal.py:144 | inserting a key into the sorted keys adds that key and loses nothing |
| Render.InsertByMdSorted | meal.py:144 | inserting into keys sorted by month-day keeps them sorted |
| Render.SortByMd | meal.py:144 | the sorted keys are a permutation of the keys, ascending by `md or ""` |
| Render.SortByMdStable | meal.py:144 | among keys with the same month-day the sorted order is the insertion order (Python's sort is stable) |
| Render.ShownKeys | meal.py:492-494 | a key gets a tab and a panel exactly when its month-day is present and non-empty |
| Render.ShownKeysSorted | meal.py:505-507 | skipping the keys without a month-day keeps the remaining keys sorted |
| Render.ShownKeysDistinct | meal.py:505-507 | skipping keys keeps them free of repeats |
| Render.SortByMdDistinct | meal.py:144 | sorting keys that have no repeats leaves them with no repeats |
| Render.SortByMdSameKeys | meal.py:144 | sorting neither adds nor drops a key |
| Render.DayOrderSpec | meal.py:140-144 | the days shown are each dated key once, in ascending month-day order, and no other |
| Render.PanelAt | meal.py:505-515 | every shown day has a non-empty month-day and at least one record, so the `등록된 메뉴가 없습니다` branch never runs |
| Render.PageSpec | meal.py:505-554 | there is one panel per shown day, panels are ascending by month-day, and each panel shows exactly its day's cards, in record order |
| Render.ShownInfo | meal.py:529-531 | the info line shows exactly when the stripped info is neither empty nor `-`, and then shows it stripped |
| Render.FullItems | meal.py:536-542 | the list is the items in order, preceded by the stripped title exactly when that title is neither empty nor `-` |
| Render.FullItemsOfStripped | meal.py:536-542 | for a stripped title, the list is the title (unless it is empty or `-`) followed by every item in order |
| Render.CardItemsOfRow | meal.py:536-542 | the list a card shows for a table row is the title cell's text (unless it is empty or `-`) followed by every content line; for a `-` title it is the content lines, less a leading `-` line |
| Render.CardOf | meal.py:520-542 | a card is lunch exactly when the meal is `점심`, shows the info line exactly when the stripped info is neither empty nor `-`, and lists all the record's items last, after at most the title |
| Render.PanelOf | meal.py:505-552 | a day's panel carries its month-day and one card per record with its key |
| Render.PanelCardAt | meal.py:514-552 | the `c`-th card of a day's panel is the card of the `c`-th record with that day's key |
| Render.ShownWeekRange | meal.py:479-483 | the week range is shown exactly when it is present and non-empty (`if week_range`), and then as it is |
| Render.PageOf | meal.py:479-554 | the page shows the week range only when it is non-empty, and has one panel per shown day |
| Render.CardsOf | meal.py:519-552 | one card per record of the day |
| Render.CardsOfAt | meal.py:519-552 | the `c`-th card is the card of the day's `c`-th record |
| Render.PanelsFor | meal.py:505-554 | one panel per shown key, the `i`-th for the `i`-th key |
| Render.GeneratePage | meal.py:140-555 | grouping, sorting and the panel loop produce exactly `PageOf`'s week range and panels |
| Render.FillPanels | meal.py:505-554 | the panel loop with its `continue` produces the panels of the shown keys, in order |
| Render.CardsFor | meal.py:519-552 | the card loop produces one card per record of the day, in order |
| Render.ShownKeysPrefix | meal.py:505-507 | each key the panel loop visits adds one shown key when it has a month-day, and none otherwise |
| Scenarios.SearchExample | meal.py:93 | the pattern finds `11.10` and `월` in `11.10 (월)` |
| Scenarios.HeaderExample | meal.py:92-96 | a header cell reading `11.10 (월)` sets the month-day `11.10` and the weekday `월` |
| Scenarios.DegradedHeaderExample | meal.py:97-99 | a header reading `11/10` does not match, so the month-day is `11/10` and the weekday `""` |
| Scenarios.TitleFallbackExample | meal.py:116-117 | title `-` with lines 된장찌개, 김치, 밥 becomes title 된장찌개 with items 김치, 밥 |
| Scenarios.PlaceholderSurvives | meal.py:116-117 | title `-` with lines `-`, 밥 keeps the title `-`, with the item 밥 |

## Behaviour of the code worth noting

- **The title can stay `-` after the fallback.** `meal.py:116-117` promotes
  `items[0]` whenever the title is `-` and there are items, even when that
  line is itself `-`. The title is then still `-`, with items left over.
  `Extract.TitleFallback` states this, and `Scenarios.PlaceholderSurvives`
  shows a case.
- **The fallback applies to an empty header.** A `<th>` whose text is empty
  still replaces the carried date, with `("", "")` (`meal.py:97-99`). That
  day is then skipped by the renderer, because its `md` is empty
  (`meal.py:493`, `meal.py:506`).
- **The header strip does nothing.** On the fallback path,
  `date_text.strip()` (`meal.py:98`) strips a string that
  `get_text(" ", strip=True)` (`meal.py:92`) has already stripped.
  `Text.StripIdempotent` and `Extract.TextContextNoMatch` show that the
  model can use the header text as it is.

## Left out

- `fetch_html`, `main`, and the console output: network access, file
  writing and `print` diagnostics only.
- Parsing HTML into a tree, and the CSS selectors:
  - The parse tree is an input, described by the `Dom` datatypes.
  - What `find`, `find_all` and `select_one` return is written into those
    datatypes. Examples are the first `<th>` of a row, and the `<tbody>`
    rows of a table.
- The markup, CSS and JavaScript of `generate_html`, and `html.escape`:
  fixed text around the modelled decisions.
- The decisions are modelled as a `Page` value: panels with their cards.
  The tab list has the same keys, in the same order, as the panels.
- The KST timestamp, and the in-browser selection of today's tab: they
  depend on the wall clock.
- DateHeader.SearchSpec: `\d` is read as the ASCII digits `0`-`9`. Python's
  `str` patterns also accept other Unicode decimal digits, which the model
  does not.
- Render.GroupByDay: a Python dict keeps insertion order and a Dafny `map`
  does not. The method therefore returns the key order beside the map.
- Render.ShownInfo and Render.FullItems assume `m.get("info")` and
  `m.get("title")` are strings. `parse_html` always stores strings there, so
  the `or ""` fallback for `None` is not modelled.
