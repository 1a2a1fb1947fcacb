/** The Python string operations the extractor relies on: `str.strip()`,
    `sep.join(...)`, `str.split("\n")`, the `in` substring test and the
    code-point ordering that `sorted` uses on strings. */
module Text {
  import opened Wrappers
  import opened Seqs
  import opened Folds

  /** Python's `str.isspace()`; the same set is what `\s` matches in a `re`
      pattern over `str`. */
  predicate IsSpace(c: char) {
    ('\U{9}' <= c <= '\U{D}') || ('\U{1C}' <= c <= '\U{20}')
    || c == '\U{85}' || c == '\U{A0}' || c == '\U{1680}'
    || ('\U{2000}' <= c <= '\U{200A}')
    || c == '\U{2028}' || c == '\U{2029}' || c == '\U{202F}' || c == '\U{205F}' || c == '\U{3000}'
  }

  predicate AllSpace(s: string) {
    forall i :: 0 <= i < |s| ==> IsSpace(s[i])
  }

  /** Neither end of `s` is whitespace. */
  predicate IsStripped(s: string) {
    s == [] || (!IsSpace(s[0]) && !IsSpace(s[|s| - 1]))
  }

  /** `s.lstrip()`: drops the leading whitespace and nothing else. */
  function TrimStart(s: string): (r: string)
    ensures |r| <= |s| && r == s[|s| - |r|..]
    ensures forall k :: 0 <= k < |s| - |r| ==> IsSpace(s[k])
    ensures r == [] || !IsSpace(r[0])
  {
    if s != [] && IsSpace(s[0]) then
      var r := TrimStart(s[1..]);
      assert forall k :: 1 <= k < |s| - |r| ==> s[k] == s[1..][k - 1];
      r
    else s
  }

  /** `s.rstrip()`: drops the trailing whitespace and nothing else. */
  function TrimEnd(s: string): (r: string)
    ensures |r| <= |s| && r == s[..|r|]
    ensures forall k :: |r| <= k < |s| ==> IsSpace(s[k])
    ensures r == [] || !IsSpace(r[|r| - 1])
  {
    if s != [] && IsSpace(s[|s| - 1]) then
      var r := TrimEnd(s[..|s| - 1]);
      assert forall k :: |r| <= k < |s| - 1 ==> s[k] == s[..|s| - 1][k];
      r
    else s
  }

  /** How many leading whitespace characters `s.strip()` removes. */
  function Lead(s: string): (n: nat)
    ensures n <= |s|
  {
    |s| - |TrimStart(s)|
  }

  /** `s.strip()`: the infix of `s` that starts after its leading whitespace
      and ends before its trailing whitespace (see `StripInfix`). */
  function Strip(s: string): (r: string)
    ensures IsStripped(r)
    ensures |r| <= |s|
  {
    TrimEnd(TrimStart(s))
  }

  /** `Strip(s)` is `s` with whitespace removed at both ends and nothing else. */
  lemma StripInfix(s: string)
    ensures Lead(s) + |Strip(s)| <= |s| && Strip(s) == s[Lead(s)..Lead(s) + |Strip(s)|]
    ensures forall k :: 0 <= k < Lead(s) ==> IsSpace(s[k])
    ensures forall k :: Lead(s) + |Strip(s)| <= k < |s| ==> IsSpace(s[k])
  {
    var t := TrimStart(s);
    var r := TrimEnd(t);
    PrefixOfSuffix(s, Lead(s), t, r);
  }

  /** A prefix `r` of the suffix `t` of `s` that starts at `lead` is the
      slice of `s` at `lead`, and what follows `r` in `t` follows it in `s`. */
  lemma PrefixOfSuffix(s: string, lead: nat, t: string, r: string)
    requires lead <= |s| && t == s[lead..] && |r| <= |t| && r == t[..|r|]
    requires forall k :: |r| <= k < |t| ==> IsSpace(t[k])
    ensures lead + |r| <= |s| && r == s[lead..lead + |r|]
    ensures forall k :: lead + |r| <= k < |s| ==> IsSpace(s[k])
  {
    DropTake(s, lead, |r|);
    forall k | lead + |r| <= k < |s| ensures IsSpace(s[k]) {
      assert s[k] == t[k - lead];
    }
  }

  lemma StripEmptyIffAllSpace(s: string)
    ensures Strip(s) == [] <==> AllSpace(s)
  {
    StripInfix(s);
    if Strip(s) != [] {
      assert !IsSpace(s[Lead(s)]);
    }
  }

  /** Stripping a string that is already stripped changes nothing; in
      particular `strip` is idempotent. */
  lemma StripStripped(s: string)
    requires IsStripped(s)
    ensures Strip(s) == s
  {
    StripInfix(s);
    if s != [] {
      assert !IsSpace(s[0]);
      assert Lead(s) == 0;
      assert !IsSpace(s[|s| - 1]);
    }
  }

  lemma StripIdempotent(s: string)
    ensures Strip(Strip(s)) == Strip(s)
  {
    StripStripped(Strip(s));
  }

  /** `sep.join(xs)`. */
  function Join(sep: string, xs: seq<string>): string {
    if xs == [] then ""
    else if |xs| == 1 then xs[0]
    else xs[0] + sep + Join(sep, xs[1..])
  }

  /** `s.split(c)` for a one-character separator: the pieces between the
      occurrences of `c`, empty pieces included; `"".split(c) == [""]`. */
  function Split(s: string, c: char): (r: seq<string>)
    ensures |r| >= 1
    ensures forall k :: 0 <= k < |r| ==> c !in r[k]
  {
    if s == [] then [""]
    else
      var rest := Split(s[1..], c);
      if s[0] == c then [""] + rest
      else [[s[0]] + rest[0]] + rest[1..]
  }

  /** Joining the pieces of a split with the separator gives back the string. */
  lemma {:induction false} JoinSplit(s: string, c: char)
    ensures Join([c], Split(s, c)) == s
  {
    if s != [] {
      var rest := Split(s[1..], c);
      JoinSplit(s[1..], c);
      if s[0] == c {
        if |rest| == 1 {
          assert Join([c], [""] + rest) == [c] + rest[0];
        } else {
          assert ([""] + rest)[1..] == rest;
        }
      } else {
        var r := [[s[0]] + rest[0]] + rest[1..];
        if |rest| == 1 {
          assert r == [[s[0]] + rest[0]];
        } else {
          assert r[1..] == rest[1..];
          assert Join([c], rest) == rest[0] + [c] + Join([c], rest[1..]);
        }
      }
    }
  }

  lemma {:induction false} SplitPrefix(x: string, t: string, c: char)
    requires c !in x
    ensures Split(x + t, c) == [x + Split(t, c)[0]] + Split(t, c)[1..]
  {
    if x != [] {
      assert (x + t)[1..] == x[1..] + t;
      SplitPrefix(x[1..], t, c);
      assert [x[0]] + (x[1..] + Split(t, c)[0]) == x + Split(t, c)[0];
    } else {
      assert x + t == t;
      assert x + Split(t, c)[0] == Split(t, c)[0];
      assert Split(t, c) == [Split(t, c)[0]] + Split(t, c)[1..];
    }
  }

  /** Splitting a join of separator-free pieces gives back the pieces. */
  lemma {:induction false} SplitJoin(xs: seq<string>, c: char)
    requires xs != []
    requires forall k :: 0 <= k < |xs| ==> c !in xs[k]
    ensures Split(Join([c], xs), c) == xs
  {
    if |xs| == 1 {
      SplitPrefix(xs[0], [], c);
      assert xs[0] + [] == xs[0];
      assert Split([], c) == [""];
      assert Join([c], xs) == xs[0];
    } else {
      var tail := Join([c], xs[1..]);
      SplitJoin(xs[1..], c);
      assert Split([c] + tail, c) == [""] + xs[1..] by {
        assert ([c] + tail)[1..] == tail;
      }
      SplitPrefix(xs[0], [c] + tail, c);
      assert Join([c], xs) == xs[0] + ([c] + tail);
      assert xs[0] + "" == xs[0];
      assert [xs[0]] + xs[1..] == xs;
    }
  }

  /** `[x.strip() for x in xs if x.strip()]`, written over the last element
      so that it lines up with a left-to-right scan. */
  function StrippedNonEmpty(xs: seq<string>): (r: seq<string>)
    ensures |r| <= |xs|
    ensures forall k :: 0 <= k < |r| ==> r[k] != [] && IsStripped(r[k])
  {
    if xs == [] then []
    else
      var last := Strip(xs[|xs| - 1]);
      StrippedNonEmpty(xs[..|xs| - 1]) + (if last != [] then [last] else [])
  }

  /** A line that `if line.strip()` keeps. */
  predicate NotBlank(s: string) {
    Strip(s) != []
  }

  /** The indices of the entries of `xs` that are not blank, in ascending order. */
  function KeptIndices(xs: seq<string>): seq<nat> {
    IndicesWhere(xs, NotBlank)
  }

  /** `StrippedNonEmpty` strips the entries at `KeptIndices`, in that order:
      it keeps exactly the entries that are not blank, stripped, in their
      original order. */
  lemma StrippedNonEmptyKeepsOrder(xs: seq<string>)
    ensures |KeptIndices(xs)| == |StrippedNonEmpty(xs)|
    ensures forall k :: 0 <= k < |KeptIndices(xs)| ==>
              KeptIndices(xs)[k] < |xs| && StrippedNonEmpty(xs)[k] == Strip(xs[KeptIndices(xs)[k]])
  {
    StrippedNonEmptyFold(xs);
    assert EmitsBy(KeepStripped, NotBlank);
    FoldCount((), KeepStripped, NotBlank, xs);
    forall k | 0 <= k < |KeptIndices(xs)|
      ensures KeptIndices(xs)[k] < |xs| && StrippedNonEmpty(xs)[k] == Strip(xs[KeptIndices(xs)[k]])
    {
      FoldAt((), KeepStripped, NotBlank, xs, k);
    }
  }

  /** One step of `StrippedNonEmpty`: keep the stripped entry when it is not
      empty. */
  function KeepStripped(u: (), x: string): ((), Option<string>) {
    ((), if Strip(x) != [] then Some(Strip(x)) else None)
  }

  lemma {:induction false} StrippedNonEmptyFold(xs: seq<string>)
    ensures StrippedNonEmpty(xs) == Fold((), KeepStripped, xs).1
  {
    if xs != [] {
      StrippedNonEmptyFold(xs[..|xs| - 1]);
    }
  }

  /** Nothing survives only when every entry is blank ... */
  lemma StrippedNonEmptyEmptyAllBlank(xs: seq<string>)
    ensures StrippedNonEmpty(xs) == [] ==> forall k :: 0 <= k < |xs| ==> Strip(xs[k]) == []
  {
    StrippedNonEmptyKeepsOrder(xs);
    IndicesWhereExact(xs, NotBlank);
  }

  /** ... and when every entry is blank, nothing survives. */
  lemma StrippedNonEmptyAllBlankEmpty(xs: seq<string>)
    ensures (forall k :: 0 <= k < |xs| ==> Strip(xs[k]) == []) ==> StrippedNonEmpty(xs) == []
  {
    StrippedNonEmptyKeepsOrder(xs);
    IndicesWhereExact(xs, NotBlank);
    if StrippedNonEmpty(xs) != [] {
      var j := KeptIndices(xs)[0];
      assert j in KeptIndices(xs) && NotBlank(xs[j]);
    }
  }

  /** Entries that are already stripped and non-empty pass through unchanged. */
  lemma {:induction false} StrippedNonEmptyFixed(xs: seq<string>)
    requires forall k :: 0 <= k < |xs| ==> xs[k] != [] && IsStripped(xs[k])
    ensures StrippedNonEmpty(xs) == xs
  {
    if xs != [] {
      StrippedNonEmptyFixed(xs[..|xs| - 1]);
      StripStripped(xs[|xs| - 1]);
    }
  }

  /** A join of non-empty stripped pieces is itself stripped, whatever the separator. */
  lemma {:induction false} JoinStripped(sep: string, xs: seq<string>)
    requires forall k :: 0 <= k < |xs| ==> xs[k] != [] && IsStripped(xs[k])
    ensures IsStripped(Join(sep, xs))
    ensures xs != [] ==>
              Join(sep, xs) != [] && Join(sep, xs)[0] == xs[0][0]
              && Join(sep, xs)[|Join(sep, xs)| - 1] == xs[|xs| - 1][|xs[|xs| - 1]| - 1]
  {
    if |xs| > 1 {
      JoinStripped(sep, xs[1..]);
    }
  }

  /** Python's `sub in s`. */
  predicate Contains(s: string, sub: string) {
    exists i | 0 <= i <= |s| - |sub| :: OccursAt(s, sub, i)
  }

  predicate OccursAt(s: string, sub: string, i: int)
    requires 0 <= i <= |s| - |sub|
  {
    s[i..i + |sub|] == sub
  }

  /** A string that contains `sub` is contained in any string it is part of. */
  lemma ContainsConcat(a: string, b: string, sub: string)
    ensures Contains(a, sub) ==> Contains(a + b, sub)
    ensures Contains(b, sub) ==> Contains(a + b, sub)
  {
    if Contains(a, sub) {
      var i :| 0 <= i <= |a| - |sub| && OccursAt(a, sub, i);
      assert (a + b)[i..i + |sub|] == a[i..i + |sub|];
      assert OccursAt(a + b, sub, i);
    }
    if Contains(b, sub) {
      var i :| 0 <= i <= |b| - |sub| && OccursAt(b, sub, i);
      assert (a + b)[|a| + i..|a| + i + |sub|] == b[i..i + |sub|];
      assert OccursAt(a + b, sub, |a| + i);
    }
  }

  /** `sub` inside one piece is inside the pieces concatenated. */
  lemma {:induction false} JoinContains(xs: seq<string>, k: nat, sub: string)
    requires k < |xs| && Contains(xs[k], sub)
    ensures Contains(Join("", xs), sub)
  {
    if |xs| > 1 {
      var rest := Join("", xs[1..]);
      assert Join("", xs) == xs[0] + rest by {
        assert xs[0] + "" == xs[0];
      }
      if k == 0 {
        ContainsConcat(xs[0], rest, sub);
      } else {
        JoinContains(xs[1..], k - 1, sub);
        ContainsConcat(xs[0], rest, sub);
      }
    }
  }

  /** Python's `a < b` on `str`: lexicographic by code point, a proper prefix first. */
  predicate LexLess(a: string, b: string) {
    if a == [] then b != []
    else if b == [] then false
    else if a[0] != b[0] then a[0] < b[0]
    else LexLess(a[1..], b[1..])
  }

  predicate LexLe(a: string, b: string) {
    a == b || LexLess(a, b)
  }

  lemma {:induction false} LexLessIrreflexive(a: string)
    ensures !LexLess(a, a)
  {
    if a != [] { LexLessIrreflexive(a[1..]); }
  }

  /** Any two strings are ordered one way or the other, and not both ways. */
  lemma {:induction false} LexTrichotomy(a: string, b: string)
    ensures a == b || LexLess(a, b) || LexLess(b, a)
    ensures !(LexLess(a, b) && LexLess(b, a))
  {
    if a != [] && b != [] && a[0] == b[0] {
      LexTrichotomy(a[1..], b[1..]);
      if a[1..] == b[1..] { assert a == [a[0]] + a[1..] && b == [b[0]] + b[1..]; }
    }
  }

  lemma {:induction false} LexLessTransitive(a: string, b: string, c: string)
    requires LexLess(a, b) && LexLess(b, c)
    ensures LexLess(a, c)
  {
    if a != [] && a[0] == b[0] && b[0] == c[0] {
      LexLessTransitive(a[1..], b[1..], c[1..]);
    }
  }
}
