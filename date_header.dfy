/** The date header match `re.search(r"(\d{2}\.\d{2})\s*\((.)\)", text)`:
    two digits, a dot, two digits, optional whitespace, then one character
    other than a newline in parentheses. The first group is the month-day,
    the second the weekday. */
module DateHeader {
  import opened Wrappers
  import opened Text

  datatype DateMatch = DateMatch(md: string, weekday: string)

  /** `\d`, restricted to the ASCII digits. */
  predicate IsDigit(c: char) {
    '0' <= c <= '9'
  }

  /** What the first group can capture: `DD.DD`. */
  predicate IsMonthDay(s: string) {
    |s| == 5 && IsDigit(s[0]) && IsDigit(s[1]) && s[2] == '.' && IsDigit(s[3]) && IsDigit(s[4])
  }

  /** What the second group can capture: `.`, one character that is not a newline. */
  predicate IsWeekday(s: string) {
    |s| == 1 && s[0] != '\n'
  }

  /** The pattern matches at `i` with exactly `k` whitespace characters
      between the month-day and the opening parenthesis. This is the
      declarative reading of the pattern, one match per choice of `k`. */
  ghost predicate MatchesWith(s: string, i: nat, k: nat) {
    i + 8 + k <= |s|
    && IsMonthDay(s[i..i + 5])
    && (forall j :: i + 5 <= j < i + 5 + k ==> IsSpace(s[j]))
    && s[i + 5 + k] == '('
    && s[i + 6 + k] != '\n'
    && s[i + 7 + k] == ')'
  }

  /** The first position at or after `j` that is not whitespace: what the
      greedy `\s*` consumes. */
  function SkipSpace(s: string, j: nat): (r: nat)
    requires j <= |s|
    ensures j <= r <= |s|
    ensures forall t :: j <= t < r ==> IsSpace(s[t])
    ensures r == |s| || !IsSpace(s[r])
    decreases |s| - j
  {
    if j < |s| && IsSpace(s[j]) then SkipSpace(s, j + 1) else j
  }

  /** The match anchored at position `i`, if any. Since `(` is not
      whitespace, `\s*` can only succeed by taking the whole run of
      whitespace, so no backtracking is needed. */
  function MatchAt(s: string, i: nat): (r: Option<DateMatch>)
    requires i <= |s|
    ensures r.Some? ==> IsMonthDay(r.value.md) && IsWeekday(r.value.weekday)
  {
    if i + 5 <= |s| && IsMonthDay(s[i..i + 5]) then
      var p := SkipSpace(s, i + 5);
      if p + 3 <= |s| && s[p] == '(' && s[p + 1] != '\n' && s[p + 2] == ')' then
        Some(DateMatch(s[i..i + 5], [s[p + 1]]))
      else None
    else None
  }

  /** `MatchAt` finds a match exactly when the pattern matches at `i`, and
      then returns the groups that match captures. */
  lemma MatchAtIff(s: string, i: nat, k: nat)
    requires i <= |s|
    ensures MatchesWith(s, i, k) ==> MatchAt(s, i) == Some(DateMatch(s[i..i + 5], [s[i + 6 + k]]))
    ensures MatchAt(s, i).Some? ==> MatchesWith(s, i, SkipSpace(s, i + 5) - (i + 5))
  {
    if MatchesWith(s, i, k) {
      var p := SkipSpace(s, i + 5);
      assert !IsSpace(s[i + 5 + k]);
      assert p == i + 5 + k;
    }
  }

  /** `re.search` from position `i`: the leftmost match at or after `i`. */
  function SearchFrom(s: string, i: nat): (r: Option<DateMatch>)
    requires i <= |s|
    ensures r.Some? ==> IsMonthDay(r.value.md) && IsWeekday(r.value.weekday)
    decreases |s| - i
  {
    if MatchAt(s, i).Some? then MatchAt(s, i)
    else if i == |s| then None
    else SearchFrom(s, i + 1)
  }

  function Search(s: string): (r: Option<DateMatch>)
    ensures r.Some? ==> IsMonthDay(r.value.md) && IsWeekday(r.value.weekday)
  {
    SearchFrom(s, 0)
  }

  /** `SearchFrom` returns the match at the leftmost position where there is
      one, and `None` only when there is none at any position. */
  lemma SearchFromLeftmost(s: string, i: nat)
    requires i <= |s|
    ensures SearchFrom(s, i).None? <==> forall j :: i <= j <= |s| ==> MatchAt(s, j).None?
    ensures SearchFrom(s, i).Some? ==>
              exists p :: i <= p <= |s| && SearchFrom(s, i) == MatchAt(s, p)
                          && forall j :: i <= j < p ==> MatchAt(s, j).None?
  {
    SearchFromNone(s, i);
    SearchFromFirst(s, i);
  }

  lemma {:induction false} SearchFromNone(s: string, i: nat)
    requires i <= |s|
    ensures SearchFrom(s, i).None? <==> forall j :: i <= j <= |s| ==> MatchAt(s, j).None?
    decreases |s| - i
  {
    if MatchAt(s, i).None? && i < |s| {
      assert SearchFrom(s, i) == SearchFrom(s, i + 1);
      SearchFromNone(s, i + 1);
    }
  }

  lemma {:induction false} SearchFromFirst(s: string, i: nat)
    requires i <= |s|
    ensures SearchFrom(s, i).Some? ==>
              exists p :: i <= p <= |s| && SearchFrom(s, i) == MatchAt(s, p)
                          && forall j :: i <= j < p ==> MatchAt(s, j).None?
    decreases |s| - i
  {
    if SearchFrom(s, i).Some? {
      if MatchAt(s, i).Some? {
        assert SearchFrom(s, i) == MatchAt(s, i);
      } else {
        assert SearchFrom(s, i) == SearchFrom(s, i + 1);
        SearchFromFirst(s, i + 1);
        var p :| i + 1 <= p <= |s| && SearchFrom(s, i + 1) == MatchAt(s, p)
                 && forall j :: i + 1 <= j < p ==> MatchAt(s, j).None?;
        assert forall j :: i <= j < p ==> MatchAt(s, j).None?;
      }
    }
  }

  /** The regex semantics of `re.search` on this pattern: when the pattern
      matches anywhere, the result is the groups of the leftmost match;
      otherwise there is no result. */
  lemma SearchSpec(s: string)
    ensures (exists i: nat, k: nat :: i <= |s| && MatchesWith(s, i, k)) <==> Search(s).Some?
    ensures Search(s).Some? ==>
              exists i: nat, k: nat :: i <= |s| && MatchesWith(s, i, k)
                && Search(s) == Some(DateMatch(s[i..i + 5], [s[i + 6 + k]]))
                && forall j: nat, k': nat :: j < i ==> !MatchesWith(s, j, k')
  {
    SearchFromLeftmost(s, 0);
    if exists i: nat, k: nat :: i <= |s| && MatchesWith(s, i, k) {
      var i: nat, k: nat :| i <= |s| && MatchesWith(s, i, k);
      MatchAtIff(s, i, k);
    }
    if Search(s).Some? {
      var p :| 0 <= p <= |s| && Search(s) == MatchAt(s, p)
               && forall j :: 0 <= j < p ==> MatchAt(s, j).None?;
      var k := SkipSpace(s, p + 5) - (p + 5);
      MatchAtIff(s, p, k);
      forall j: nat, k': nat | j < p ensures !MatchesWith(s, j, k') {
        MatchAtIff(s, j, k');
      }
    }
  }
}
