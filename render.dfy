/** The decisions inside `generate_html`: grouping the records by day,
    ordering the days, skipping days without a date, and choosing what each
    meal card shows. The markup, styles and script around them are fixed
    text and are not modelled. */
module Render {
  import opened Wrappers
  import opened Seqs
  import opened Text
  import opened Extract

  /** No key occurs twice. */
  predicate NoRepeats(keys: seq<DayKey>) {
    forall a, b :: 0 <= a < b < |keys| ==> keys[a] != keys[b]
  }

  /** A key of `grouped`: the record's `(md, weekday)` pair. */
  datatype DayKey = DayKey(md: Option<string>, weekday: Option<string>)

  function KeyOf(m: MealRecord): DayKey {
    DayKey(m.md, m.weekday)
  }

  /** The sort key `x[0] or ""`: a missing month-day sorts as the empty string. */
  function SortKey(k: DayKey): string {
    if k.md.Some? then k.md.value else ""
  }

  /** A day that gets a tab and a panel: `if not md: continue` skips the others. */
  predicate HasDate(k: DayKey) {
    k.md.Some? && k.md.value != ""
  }

  /** The keys of `grouped` in the dict's insertion order: each key once, at
      the position of its first record. */
  function DistinctKeys(records: seq<MealRecord>): (keys: seq<DayKey>)
    ensures NoRepeats(keys)
    ensures forall k :: k in keys <==> exists i :: 0 <= i < |records| && KeyOf(records[i]) == k
  {
    if records == [] then []
    else
      var init := records[..|records| - 1];
      var before := DistinctKeys(init);
      var key := KeyOf(records[|records| - 1]);
      assert forall i :: 0 <= i < |init| ==> records[i] == init[i];
      if key in before then before else before + [key]
  }

  /** Some record has key `x` before any record has key `y`. */
  predicate AppearsBefore(records: seq<MealRecord>, x: DayKey, y: DayKey) {
    exists i :: 0 <= i < |records| && KeyOf(records[i]) == x
                && forall j :: 0 <= j <= i ==> KeyOf(records[j]) != y
  }

  /** The dict's insertion order: of two keys, the earlier one has a record
      before every record of the later one. */
  lemma {:induction false} DistinctKeysFirstAppearance(records: seq<MealRecord>)
    ensures forall a, b :: 0 <= a < b < |DistinctKeys(records)| ==>
              AppearsBefore(records, DistinctKeys(records)[a], DistinctKeys(records)[b])
  {
    if records != [] {
      var n := |records| - 1;
      var init := records[..n];
      var before := DistinctKeys(init);
      var keys := DistinctKeys(records);
      DistinctKeysFirstAppearance(init);
      assert forall i :: 0 <= i < n ==> records[i] == init[i];
      forall a, b | 0 <= a < b < |keys| ensures AppearsBefore(records, keys[a], keys[b]) {
        assert keys[a] == before[a] && before[a] in before;
        if b < |before| {
          assert keys[b] == before[b];
          assert AppearsBefore(init, before[a], before[b]);
          var i :| 0 <= i < |init| && KeyOf(init[i]) == before[a]
                   && forall j :: 0 <= j <= i ==> KeyOf(init[j]) != before[b];
          assert KeyOf(records[i]) == keys[a];
        } else {
          assert keys[b] !in before;
          var i :| 0 <= i < |init| && KeyOf(init[i]) == before[a];
          assert KeyOf(records[i]) == keys[a];
        }
      }
    }
  }

  /** `grouped[k]`: the records with key `k`, in their original order. */
  function RecordsWithKey(records: seq<MealRecord>, k: DayKey): (group: seq<MealRecord>)
    ensures |group| <= |records|
    ensures forall i :: 0 <= i < |group| ==> KeyOf(group[i]) == k
    ensures group == [] <==> forall i :: 0 <= i < |records| ==> KeyOf(records[i]) != k
  {
    if records == [] then []
    else
      var init := records[..|records| - 1];
      var last := records[|records| - 1];
      var before := RecordsWithKey(init, k);
      assert forall i :: 0 <= i < |init| ==> records[i] == init[i];
      if KeyOf(last) == k then before + [last] else before
  }

  /** The filter `grouped[k]` collects by: the record's key is `k`. */
  function KeyIs(k: DayKey): MealRecord -> bool {
    m => KeyOf(m) == k
  }

  /** `grouped[k]` holds every record whose key is `k` and no other, in
      the order of `records`: its `i`-th entry is the `i`-th record with
      that key. */
  lemma {:induction false} RecordsWithKeyKeepsOrder(records: seq<MealRecord>, k: DayKey)
    ensures |RecordsWithKey(records, k)| == |IndicesWhere(records, KeyIs(k))|
    ensures forall i :: 0 <= i < |IndicesWhere(records, KeyIs(k))| ==>
              IndicesWhere(records, KeyIs(k))[i] < |records|
              && RecordsWithKey(records, k)[i] == records[IndicesWhere(records, KeyIs(k))[i]]
  {
    if records != [] {
      var n := |records| - 1;
      var init := records[..n];
      RecordsWithKeyKeepsOrder(init, k);
      var group := RecordsWithKey(init, k);
      var before := IndicesWhere(init, KeyIs(k));
      var tail: seq<nat> := if KeyIs(k)(records[n]) then [n] else [];
      var ix := before + tail;
      assert IndicesWhere(records, KeyIs(k)) == ix;
      assert RecordsWithKey(records, k) == group + (if KeyIs(k)(records[n]) then [records[n]] else []);
      forall i | 0 <= i < |ix| ensures ix[i] < |records| && RecordsWithKey(records, k)[i] == records[ix[i]] {
        if i < |before| {
          assert ix[i] == before[i] && records[before[i]] == init[before[i]];
        }
      }
    }
  }

  /** The `defaultdict` loop: `grouped[(m["md"], m["weekday"])].append(m)`.
      A Dafny map has no order, so the insertion order of the keys is
      returned beside it. */
  method GroupByDay(records: seq<MealRecord>) returns (keys: seq<DayKey>, grouped: map<DayKey, seq<MealRecord>>)
    ensures keys == DistinctKeys(records)
    ensures forall k :: k in grouped <==> k in keys
    ensures forall k :: k in grouped ==> grouped[k] == RecordsWithKey(records, k)
  {
    keys := [];
    grouped := map[];
    for i := 0 to |records|
      invariant keys == DistinctKeys(records[..i])
      invariant forall k :: k in grouped <==> k in keys
      invariant forall k :: k in grouped ==> grouped[k] == RecordsWithKey(records[..i], k)
    {
      var m := records[i];
      var key := KeyOf(m);
      assert records[..i + 1][..i] == records[..i];
      if key !in grouped {
        keys := keys + [key];
        grouped := grouped[key := [m]];
      } else {
        grouped := grouped[key := grouped[key] + [m]];
      }
    }
    assert records[..|records|] == records;
  }

  /** Ascending by month-day as `sorted(..., key=lambda x: x[0] or "")` orders them. */
  predicate SortedByMd(keys: seq<DayKey>) {
    forall a, b :: 0 <= a < b < |keys| ==> LexLe(SortKey(keys[a]), SortKey(keys[b]))
  }

  /** A key that sorts no later than every key of a sorted sequence can go
      in front of it. */
  lemma SortedCons(k: DayKey, rest: seq<DayKey>)
    requires SortedByMd(rest)
    requires forall b :: 0 <= b < |rest| ==> LexLe(SortKey(k), SortKey(rest[b]))
    ensures SortedByMd([k] + rest)
  {
    var r := [k] + rest;
    forall a, b | 0 <= a < b < |r| ensures LexLe(SortKey(r[a]), SortKey(r[b])) {
      assert r[b] == rest[b - 1];
      if a > 0 {
        assert r[a] == rest[a - 1];
      }
    }
  }

  /** The keys after the first of a sorted sequence are sorted. */
  lemma SortedTail(keys: seq<DayKey>)
    requires keys != [] && SortedByMd(keys)
    ensures SortedByMd(keys[1..])
  {
    var tail := keys[1..];
    forall a, b | 0 <= a < b < |tail| ensures LexLe(SortKey(tail[a]), SortKey(tail[b])) {
      assert tail[a] == keys[a + 1] && tail[b] == keys[b + 1];
    }
  }

  /** Inserting `k` before the first key that does not sort below it. */
  function InsertByMd(k: DayKey, sorted: seq<DayKey>): seq<DayKey> {
    if sorted == [] then [k]
    else if LexLe(SortKey(k), SortKey(sorted[0])) then [k] + sorted
    else [sorted[0]] + InsertByMd(k, sorted[1..])
  }

  /** Insertion adds `k` and loses nothing. */
  lemma {:induction false} InsertByMdPermutes(k: DayKey, sorted: seq<DayKey>)
    ensures multiset(InsertByMd(k, sorted)) == multiset(sorted) + multiset{k}
  {
    if sorted != [] && !LexLe(SortKey(k), SortKey(sorted[0])) {
      InsertByMdPermutes(k, sorted[1..]);
      assert sorted == [sorted[0]] + sorted[1..];
    }
  }

  /** Insertion into a sorted sequence keeps it sorted. */
  lemma {:induction false} InsertByMdSorted(k: DayKey, sorted: seq<DayKey>)
    requires SortedByMd(sorted)
    ensures SortedByMd(InsertByMd(k, sorted))
  {
    if sorted != [] {
      if LexLe(SortKey(k), SortKey(sorted[0])) {
        InsertFrontSorted(k, sorted);
      } else {
        var rest := InsertByMd(k, sorted[1..]);
        SortedTail(sorted);
        InsertByMdSorted(k, sorted[1..]);
        InsertByMdPermutes(k, sorted[1..]);
        InsertAfterSorted(k, sorted, rest);
      }
    }
  }

  lemma InsertFrontSorted(k: DayKey, sorted: seq<DayKey>)
    requires sorted != [] && LexLe(SortKey(k), SortKey(sorted[0]))
    requires SortedByMd(sorted)
    ensures SortedByMd([k] + sorted)
  {
    forall b | 0 <= b < |sorted| ensures LexLe(SortKey(k), SortKey(sorted[b])) {
      if b > 0 && LexLess(SortKey(k), SortKey(sorted[0])) && LexLess(SortKey(sorted[0]), SortKey(sorted[b])) {
        LexLessTransitive(SortKey(k), SortKey(sorted[0]), SortKey(sorted[b]));
      }
    }
    SortedCons(k, sorted);
  }

  lemma InsertAfterSorted(k: DayKey, sorted: seq<DayKey>, rest: seq<DayKey>)
    requires sorted != [] && !LexLe(SortKey(k), SortKey(sorted[0]))
    requires multiset(rest) == multiset(sorted[1..]) + multiset{k}
    requires SortedByMd(sorted) && SortedByMd(rest)
    ensures SortedByMd([sorted[0]] + rest)
  {
    LexTrichotomy(SortKey(k), SortKey(sorted[0]));
    forall b | 0 <= b < |rest| ensures LexLe(SortKey(sorted[0]), SortKey(rest[b])) {
      assert rest[b] in multiset(rest);
      if rest[b] != k {
        assert rest[b] in multiset(sorted[1..]);
        var j :| 0 <= j < |sorted[1..]| && sorted[1..][j] == rest[b];
        assert sorted[j + 1] == rest[b];
      }
    }
    SortedCons(sorted[0], rest);
  }

  /** `sorted(grouped.keys(), key=...)`: Python's sort is stable, so keys with
      the same month-day keep their insertion order. */
  function SortByMd(keys: seq<DayKey>): (r: seq<DayKey>)
    ensures multiset(r) == multiset(keys)
    ensures SortedByMd(r)
  {
    if keys == [] then []
    else
      var rest := SortByMd(keys[1..]);
      assert keys == [keys[0]] + keys[1..];
      InsertByMdPermutes(keys[0], rest);
      InsertByMdSorted(keys[0], rest);
      InsertByMd(keys[0], rest)
  }

  /** The keys with a given sort key, in order. */
  function WithSortKey(keys: seq<DayKey>, s: string): seq<DayKey> {
    if keys == [] then []
    else (if SortKey(keys[0]) == s then [keys[0]] else []) + WithSortKey(keys[1..], s)
  }

  lemma {:induction false} InsertByMdStable(k: DayKey, sorted: seq<DayKey>, s: string)
    ensures WithSortKey(InsertByMd(k, sorted), s)
            == (if SortKey(k) == s then [k] else []) + WithSortKey(sorted, s)
  {
    if sorted != [] && !LexLe(SortKey(k), SortKey(sorted[0])) {
      var head := sorted[0];
      var rest := InsertByMd(k, sorted[1..]);
      InsertByMdStable(k, sorted[1..], s);
      assert InsertByMd(k, sorted) == [head] + rest;
      WithSortKeyCons(head, rest, s);
      assert sorted == [head] + sorted[1..];
      WithSortKeyCons(head, sorted[1..], s);
      assert !(SortKey(k) == s && SortKey(head) == s);
    } else if sorted != [] {
      WithSortKeyCons(k, sorted, s);
    }
  }

  lemma WithSortKeyCons(k: DayKey, keys: seq<DayKey>, s: string)
    ensures WithSortKey([k] + keys, s) == (if SortKey(k) == s then [k] else []) + WithSortKey(keys, s)
  {
    assert ([k] + keys)[1..] == keys;
  }

  /** The sort is stable: among keys with equal month-day, the order is the
      insertion order. */
  lemma {:induction false} SortByMdStable(keys: seq<DayKey>, s: string)
    ensures WithSortKey(SortByMd(keys), s) == WithSortKey(keys, s)
  {
    if keys != [] {
      SortByMdStable(keys[1..], s);
      InsertByMdStable(keys[0], SortByMd(keys[1..]), s);
    }
  }

  /** The keys the two loops of the page visit, in order. */
  function DayOrder(records: seq<MealRecord>): seq<DayKey> {
    ShownKeys(SortByMd(DistinctKeys(records)))
  }

  /** The sorted keys minus those without a date. */
  function ShownKeys(keys: seq<DayKey>): (r: seq<DayKey>)
    ensures forall k :: k in r <==> k in keys && HasDate(k)
  {
    if keys == [] then []
    else
      var rest := ShownKeys(keys[1..]);
      assert forall k :: k in keys <==> k == keys[0] || k in keys[1..];
      (if HasDate(keys[0]) then [keys[0]] else []) + rest
  }

  /** Skipping keys keeps the order of the rest. */
  lemma {:induction false} ShownKeysSorted(keys: seq<DayKey>)
    requires SortedByMd(keys)
    ensures SortedByMd(ShownKeys(keys))
  {
    if keys != [] {
      var tail := keys[1..];
      SortedTail(keys);
      ShownKeysSorted(tail);
      var rest := ShownKeys(tail);
      if HasDate(keys[0]) {
        forall b | 0 <= b < |rest| ensures LexLe(SortKey(keys[0]), SortKey(rest[b])) {
          assert rest[b] in tail;
          var j :| 0 <= j < |tail| && tail[j] == rest[b];
          assert keys[j + 1] == rest[b];
        }
        SortedCons(keys[0], rest);
        assert ShownKeys(keys) == [keys[0]] + rest;
      } else {
        assert ShownKeys(keys) == rest;
      }
    }
  }

  /** Skipping keys keeps them free of repeats. */
  lemma {:induction false} ShownKeysDistinct(keys: seq<DayKey>)
    requires NoRepeats(keys)
    ensures NoRepeats(ShownKeys(keys))
  {
    if keys != [] {
      var tail := keys[1..];
      assert forall a, b :: 0 <= a < b < |tail| ==> tail[a] == keys[a + 1] && tail[b] == keys[b + 1];
      ShownKeysDistinct(tail);
      var rest := ShownKeys(tail);
      if HasDate(keys[0]) {
        assert keys[0] !in tail;
        var r := [keys[0]] + rest;
        forall a, b | 0 <= a < b < |r| ensures r[a] != r[b] {
          assert r[b] == rest[b - 1];
          if a > 0 {
            assert r[a] == rest[a - 1];
          } else {
            assert r[b] in rest;
          }
        }
      } else {
        assert ShownKeys(keys) == rest;
      }
    }
  }

  /** The days that get a tab and a panel: each key that has a month-day,
      once, ascending by month-day, and no other. */
  lemma DayOrderSpec(records: seq<MealRecord>)
    ensures SortedByMd(DayOrder(records))
    ensures NoRepeats(DayOrder(records))
    ensures forall k :: k in DayOrder(records) <==>
              HasDate(k) && exists i :: 0 <= i < |records| && KeyOf(records[i]) == k
  {
    var keys := DistinctKeys(records);
    var sorted := SortByMd(keys);
    SortByMdDistinct(keys);
    SortByMdSameKeys(keys);
    ShownKeysSorted(sorted);
    ShownKeysDistinct(sorted);
  }

  /** Sorting keys without repeats leaves them without repeats. */
  lemma SortByMdDistinct(keys: seq<DayKey>)
    requires NoRepeats(keys)
    ensures NoRepeats(SortByMd(keys))
  {
    var sorted := SortByMd(keys);
    forall a, b | 0 <= a < b < |sorted| ensures sorted[a] != sorted[b] {
      if sorted[a] == sorted[b] {
        RepeatCount(sorted, a, b);
        DistinctCount(keys, sorted[a]);
      }
    }
  }

  /** A key at two positions is counted twice. */
  lemma RepeatCount(keys: seq<DayKey>, a: nat, b: nat)
    requires a < b < |keys| && keys[a] == keys[b]
    ensures multiset(keys)[keys[a]] >= 2
  {
    assert keys == keys[..b] + keys[b..];
    assert keys[a] in multiset(keys[..b]);
    assert keys[b] in multiset(keys[b..]);
  }

  /** Sorting neither adds nor drops a key. */
  lemma SortByMdSameKeys(keys: seq<DayKey>)
    ensures forall k :: k in SortByMd(keys) <==> k in keys
  {
    var sorted := SortByMd(keys);
    forall k ensures k in sorted <==> k in keys {
      assert k in sorted <==> k in multiset(sorted);
      assert k in keys <==> k in multiset(keys);
    }
  }

  /** A key occurs at most once in a sequence without repeats. */
  lemma {:induction false} DistinctCount(keys: seq<DayKey>, k: DayKey)
    requires NoRepeats(keys)
    ensures multiset(keys)[k] <= 1
  {
    if keys != [] {
      DistinctCount(keys[1..], k);
      assert keys == [keys[0]] + keys[1..];
      if keys[0] == k {
        assert k !in keys[1..];
      }
    }
  }

  /** One `meal-card`. */
  datatype Card = Card(meal: string, lunch: bool, info: Option<string>, items: seq<string>)

  /** One day: its tab shows `weekday` and `md`, its panel the cards. */
  datatype Panel = Panel(md: string, weekday: string, cards: seq<Card>)

  /** What the page shows: the week range (when there is one) and the days. */
  datatype Page = Page(weekRange: Option<string>, panels: seq<Panel>)

  /** `info = (m.get("info") or "").strip()`, shown only when non-empty and
      not the placeholder `-`. */
  function ShownInfo(info: string): (r: Option<string>)
    ensures r.Some? <==> Strip(info) != "" && Strip(info) != "-"
    ensures r.Some? ==> r.value == Strip(info)
  {
    var s := Strip(info);
    if s != "" && s != "-" then Some(s) else None
  }

  /** `full_items`: the stripped title, when it is neither empty nor `-`,
      followed by every item. */
  function FullItems(title: string, items: seq<string>): (r: seq<string>)
    ensures |r| == |items| + 1 <==> Strip(title) != "" && Strip(title) != "-"
    ensures |r| == |items| <==> Strip(title) == "" || Strip(title) == "-"
    ensures |r| == |items| + 1 ==> r[0] == Strip(title)
    ensures r[|r| - |items|..] == items
  {
    var t := Strip(title);
    if t != "" && t != "-" then
      assert ([t] + items)[1..] == items;
      [t] + items
    else items
  }

  /** One card per record, in order. */
  function CardsOf(ms: seq<MealRecord>): (cards: seq<Card>)
    ensures |cards| == |ms|
  {
    if ms == [] then [] else CardsOf(ms[..|ms| - 1]) + [CardOf(ms[|ms| - 1])]
  }

  lemma {:induction false} CardsOfAt(ms: seq<MealRecord>, c: nat)
    requires c < |ms|
    ensures CardsOf(ms)[c] == CardOf(ms[c])
  {
    if c < |ms| - 1 {
      CardsOfAt(ms[..|ms| - 1], c);
    }
  }

  /** The decisions for one card: lunch or dinner, whether the info line
      shows, and the list built from title and items. */
  function CardOf(m: MealRecord): (card: Card)
    ensures card.lunch <==> m.meal == "점심"
    ensures card.info.Some? <==> Strip(m.info) != "" && Strip(m.info) != "-"
    ensures |m.items| <= |card.items| <= |m.items| + 1
    ensures card.items[|card.items| - |m.items|..] == m.items
  {
    Card(m.meal, m.meal == "점심", ShownInfo(m.info), FullItems(m.title, m.items))
  }

  /** The tab and panel of day `k`: `esc(None)` shows as the empty string. */
  function PanelOf(k: DayKey, records: seq<MealRecord>): (p: Panel)
    ensures p.md == SortKey(k)
    ensures |p.cards| == |IndicesWhere(records, KeyIs(k))|
  {
    var group := RecordsWithKey(records, k);
    RecordsWithKeyKeepsOrder(records, k);
    Panel(
      if k.md.Some? then k.md.value else "",
      if k.weekday.Some? then k.weekday.value else "",
      CardsOf(group))
  }

  /** The `c`-th card of day `k`'s panel is the card of the `c`-th record
      with key `k`. */
  lemma PanelCardAt(k: DayKey, records: seq<MealRecord>, c: nat)
    requires c < |IndicesWhere(records, KeyIs(k))|
    ensures IndicesWhere(records, KeyIs(k))[c] < |records|
    ensures PanelOf(k, records).cards[c] == CardOf(records[IndicesWhere(records, KeyIs(k))[c]])
  {
    RecordsWithKeyKeepsOrder(records, k);
    CardsOfAt(RecordsWithKey(records, k), c);
  }

  function PanelsFor(keys: seq<DayKey>, records: seq<MealRecord>): (r: seq<Panel>)
    ensures |r| == |keys|
    ensures forall i :: 0 <= i < |keys| ==> r[i] == PanelOf(keys[i], records)
  {
    if keys == [] then [] else PanelsFor(keys[..|keys| - 1], records) + [PanelOf(keys[|keys| - 1], records)]
  }

  lemma PanelsForSnoc(keys: seq<DayKey>, k: DayKey, records: seq<MealRecord>)
    ensures PanelsFor(keys + [k], records) == PanelsFor(keys, records) + [PanelOf(k, records)]
  {
    assert (keys + [k])[..|keys|] == keys;
  }

  /** `if week_range`: an absent or empty range is not shown. */
  function ShownWeekRange(weekRange: Option<string>): (r: Option<string>)
    ensures r.Some? <==> weekRange.Some? && weekRange.value != ""
    ensures r.Some? ==> r == weekRange
  {
    if weekRange.Some? && weekRange.value != "" then weekRange else None
  }

  /** The page `generate_html` renders for `records`. */
  function PageOf(weekRange: Option<string>, records: seq<MealRecord>): (page: Page)
    ensures page.weekRange.Some? ==> page.weekRange == weekRange && weekRange.value != ""
    ensures |page.panels| == |DayOrder(records)|
  {
    Page(ShownWeekRange(weekRange), PanelsFor(DayOrder(records), records))
  }

  /** The panels come in ascending month-day order, each has a month-day,
      and each shows exactly the cards of its day's records, in order. */
  lemma PageSpec(weekRange: Option<string>, records: seq<MealRecord>)
    ensures var panels := PageOf(weekRange, records).panels;
            |panels| == |DayOrder(records)|
            && (forall a, b :: 0 <= a < b < |panels| ==> LexLe(panels[a].md, panels[b].md))
            && forall i :: 0 <= i < |panels| ==>
                 panels[i].md != ""
                 && RecordsWithKey(records, DayOrder(records)[i]) != []
                 && panels[i].cards == CardsOf(RecordsWithKey(records, DayOrder(records)[i]))
  {
    var order := DayOrder(records);
    var panels := PageOf(weekRange, records).panels;
    assert SortedByMd(order) by {
      DayOrderSpec(records);
    }
    forall i | 0 <= i < |order|
      ensures panels[i].md == SortKey(order[i]) != ""
      ensures RecordsWithKey(records, order[i]) != []
      ensures panels[i].cards == CardsOf(RecordsWithKey(records, order[i]))
    {
      PanelAt(records, i);
    }
    forall a, b | 0 <= a < b < |panels| ensures LexLe(panels[a].md, panels[b].md) {
      assert SortKey(order[a]) == panels[a].md && SortKey(order[b]) == panels[b].md;
    }
  }

  /** The `i`-th panel belongs to a dated day that has records. */
  lemma PanelAt(records: seq<MealRecord>, i: nat)
    requires i < |DayOrder(records)|
    ensures var k := DayOrder(records)[i];
            HasDate(k) && RecordsWithKey(records, k) != []
            && PanelOf(k, records).md == SortKey(k) != ""
  {
    var k := DayOrder(records)[i];
    DayOrderSpec(records);
    assert k in DayOrder(records);
  }

  /** The items a card lists for the record of one table row: the title
      cell's text when it is neither empty nor `-`, then every content line;
      when the title cell is `-`, the content lines alone, less a leading
      `-` line that the fallback moved into the title. */
  lemma {:induction false} CardItemsOfRow(ctx: DayContext, tds: seq<Dom.Cell>)
    requires |tds| >= 4
    ensures var t := Dom.GetText(tds[1], "");
            var lines := SplitItems(tds[2]);
            CardOf(BuildRecord(ctx, tds)).items ==
              if t != "-" then (if t != "" then [t] else []) + lines
              else if lines != [] && lines[0] == "-" then lines[1..]
              else lines
  {
    var t := Dom.GetText(tds[1], "");
    var lines := SplitItems(tds[2]);
    var fallback := TitleFallback(t, lines);
    assert IsStripped(fallback.0) by {
      if t == "-" && lines != [] {
        assert fallback.0 == lines[0];
      }
    }
    assert CardOf(BuildRecord(ctx, tds)).items == FullItems(fallback.0, fallback.1);
    FullItemsOfStripped(fallback.0, fallback.1);
    if t == "-" && lines != [] && lines[0] != "-" {
      assert lines == [lines[0]] + lines[1..];
    }
  }

  /** For a title that is already stripped, `full_items` is the title, when
      it is neither empty nor `-`, then the items. */
  lemma FullItemsOfStripped(title: string, items: seq<string>)
    requires IsStripped(title)
    ensures FullItems(title, items) == (if title != "" && title != "-" then [title] else []) + items
  {
    StripStripped(title);
    if title == "" || title == "-" {
      assert [] + items == items;
    }
  }


  /** `generate_html` up to its markup: group, sort, then fill the tabs and
      panels. */
  method GeneratePage(weekRange: Option<string>, records: seq<MealRecord>) returns (page: Page)
    ensures page == PageOf(weekRange, records)
  {
    var keys, grouped := GroupByDay(records);
    var dayKeys := SortByMd(keys);
    forall k | k in dayKeys ensures k in grouped {
      assert k in multiset(dayKeys);
    }
    var panels := FillPanels(dayKeys, grouped, records);
    var shown := None;
    if weekRange.Some? && weekRange.value != "" {
      shown := weekRange;
    }
    page := Page(shown, panels);
  }

  /** The loop over `day_keys` that skips keys without a month-day and
      renders one panel per remaining day. */
  method FillPanels(dayKeys: seq<DayKey>, grouped: map<DayKey, seq<MealRecord>>, records: seq<MealRecord>)
    returns (panels: seq<Panel>)
    requires forall k :: k in dayKeys ==> k in grouped && grouped[k] == RecordsWithKey(records, k)
    ensures panels == PanelsFor(ShownKeys(dayKeys), records)
  {
    panels := [];
    ghost var visited: seq<DayKey> := [];
    for i := 0 to |dayKeys|
      invariant visited == ShownKeys(dayKeys[..i])
      invariant panels == PanelsFor(visited, records)
    {
      var key := dayKeys[i];
      ShownKeysPrefix(dayKeys, i);
      if key.md.None? || key.md.value == "" {
        continue;
      }
      var cards := CardsFor(grouped[key]);
      var weekday := if key.weekday.Some? then key.weekday.value else "";
      var panel := Panel(key.md.value, weekday, cards);
      assert panel == PanelOf(key, records) by {
        assert key in dayKeys;
      }
      PanelsForSnoc(visited, key, records);
      panels := panels + [panel];
      visited := visited + [key];
    }
    assert dayKeys[..|dayKeys|] == dayKeys;
  }

  /** The inner loop over one day's records. */
  method CardsFor(dayMenus: seq<MealRecord>) returns (cards: seq<Card>)
    ensures cards == CardsOf(dayMenus)
  {
    cards := [];
    for j := 0 to |dayMenus|
      invariant cards == CardsOf(dayMenus[..j])
    {
      var card := CardOf(dayMenus[j]);
      TakeTake(dayMenus, j + 1, j);
      cards := cards + [card];
    }
    assert dayMenus[..|dayMenus|] == dayMenus;
  }

  /** One more key of `keys` seen: one more shown key when it has a
      month-day. */
  lemma ShownKeysPrefix(keys: seq<DayKey>, i: nat)
    requires i < |keys|
    ensures ShownKeys(keys[..i + 1]) == ShownKeys(keys[..i]) + (if HasDate(keys[i]) then [keys[i]] else [])
  {
    TakeSnoc(keys, i);
    ShownKeysSnoc(keys[..i], keys[i]);
  }

  lemma {:induction false} ShownKeysSnoc(keys: seq<DayKey>, k: DayKey)
    ensures ShownKeys(keys + [k]) == ShownKeys(keys) + (if HasDate(k) then [k] else [])
  {
    if keys == [] {
      assert keys + [k] == [k];
    } else {
      var head := if HasDate(keys[0]) then [keys[0]] else [];
      assert (keys + [k])[0] == keys[0];
      assert (keys + [k])[1..] == keys[1..] + [k];
      ShownKeysSnoc(keys[1..], k);
      assert ShownKeys(keys + [k]) == head + ShownKeys(keys[1..] + [k]);
      assert ShownKeys(keys) == head + ShownKeys(keys[1..]);
    }
  }
}
