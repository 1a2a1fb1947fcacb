/** Worked cases of the extractor: the date header `11.10 (월)`, a header
    the pattern does not match, and the title fallback on placeholder
    rows. */
module Scenarios {
  import opened Wrappers
  import opened Text
  import opened Dom
  import opened DateHeader
  import opened Extract

  /** The date pattern finds `11.10` and `월` at the start of `11.10 (월)`. */
  lemma SearchExample(s: string)
    requires s == "11.10 (월)"
    ensures Search(s) == Some(DateMatch("11.10", "월"))
  {
    assert |s| == 9;
    assert IsMonthDay(s[0..5]) && IsSpace(s[5]) && !IsSpace(s[6]);
    assert SkipSpace(s, 6) == 6;
    assert SkipSpace(s, 5) == 6;
    assert MatchAt(s, 0) == Some(DateMatch(s[0..5], [s[7]]));
    assert s[0..5] == "11.10" && [s[7]] == "월";
  }

  /** A header cell with the text `11.10 (월)` sets month-day `11.10` and
      weekday `월`. */
  lemma HeaderExample(s: string)
    requires s == "11.10 (월)"
    ensures HeaderContext(Cell([s])) == DayContext(Some("11.10"), Some("월"))
  {
    assert GetText(Cell([s]), " ") == s by {
      assert |s| == 9 && !IsSpace(s[0]) && !IsSpace(s[8]);
      StripStripped(s);
      assert StrippedNonEmpty([s]) == StrippedNonEmpty([]) + [s];
    }
    SearchExample(s);
  }

  /** A header text with no `DD.DD (c)` in it is kept whole as the
      month-day, with an empty weekday. */
  lemma DegradedHeaderExample(s: string)
    requires s == "11/10"
    ensures HeaderContext(Cell([s])) == DayContext(Some("11/10"), Some(""))
  {
    assert |s| == 5 && !IsSpace(s[0]) && !IsSpace(s[4]);
    StripStripped(s);
    assert StrippedNonEmpty([s]) == StrippedNonEmpty([]) + [s];
    assert GetText(Cell([s]), " ") == s;
    forall i | 0 <= i <= |s| ensures MatchAt(s, i).None? {
      if i == 0 { assert s[2] != '.'; }
    }
    SearchFromLeftmost(s, 0);
  }

  /** Title `-` with content lines 된장찌개, 김치, 밥: the first line becomes
      the title. */
  lemma TitleFallbackExample()
    ensures TitleFallback("-", ["된장찌개", "김치", "밥"]) == ("된장찌개", ["김치", "밥"])
  {
    assert ["된장찌개", "김치", "밥"][1..] == ["김치", "밥"];
  }

  /** When the first content line is itself `-`, the title is still the
      placeholder after the fallback although items remain. */
  lemma PlaceholderSurvives()
    ensures TitleFallback("-", ["-", "밥"]) == ("-", ["밥"])
  {
    assert ["-", "밥"][1..] == ["밥"];
  }
}
