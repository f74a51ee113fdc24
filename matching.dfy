/** What every matcher is measured against: where a pattern occurs in a text,
    the result triple the matchers return, and the cost of the naive scan. */
module Matching {

  /** The `(found, positions, comparisons)` triple every `search` returns. */
  datatype MatchResult = MatchResult(found: bool, positions: seq<nat>, comparisons: nat)

  /** One item of the dict the standalone matchers' `search_multiple` returns: the search
      result of one pattern with its number of occurrences. */
  datatype Entry = Entry(found: bool, positions: seq<nat>, occurrences: nat, comparisons: nat)

  /** The item `search_multiple` stores for one search result. */
  function EntryOf(r: MatchResult): Entry {
    Entry(r.found, r.positions, |r.positions|, r.comparisons)
  }

  /** One item of the dict the inlined matchers' `search_multiple` returns: found, the number of
      occurrences and the positions, without the comparisons. */
  datatype KeywordEntry = KeywordEntry(found: bool, occurrences: nat, positions: seq<nat>)

  /** The item the inlined `search_multiple` stores for one search result. */
  function KeywordEntryOf(r: MatchResult): KeywordEntry {
    KeywordEntry(r.found, |r.positions|, r.positions)
  }

  /** The window of `text` that starts at offset `k` equals `pattern`. */
  predicate MatchAt(text: string, pattern: string, k: nat) {
    k + |pattern| <= |text| && text[k..k + |pattern|] == pattern
  }

  /** Strictly ascending, hence without duplicates. */
  predicate Ascending(s: seq<nat>) {
    forall a, b :: 0 <= a < b < |s| ==> s[a] < s[b]
  }

  /** Two ascending sequences with the same elements are equal. */
  lemma {:induction false} AscendingUnique(a: seq<nat>, b: seq<nat>)
    requires Ascending(a) && Ascending(b)
    requires forall k :: k in a <==> k in b
    ensures a == b
  {
    assert a != [] ==> a[0] in b;
    assert b != [] ==> b[0] in a;
    if a != [] {
      assert a[0] == b[0];
      var a', b' := a[1..], b[1..];
      forall k | k in a' ensures k in b' {
        assert k in b;
      }
      forall k | k in b' ensures k in a' {
        assert k in a;
      }
      AscendingUnique(a', b');
      assert a == [a[0]] + a' && b == [b[0]] + b';
    }
  }

  /** The offsets below `bound` at which `pattern` occurs, collected in increasing order. */
  function OccurrencesBelow(text: string, pattern: string, bound: nat): seq<nat> {
    if bound == 0 then []
    else
      var before := OccurrencesBelow(text, pattern, bound - 1);
      if MatchAt(text, pattern, bound - 1) then before + [bound - 1] else before
  }

  /** `OccurrencesBelow` holds exactly the offsets below `bound` where the pattern occurs, each
      once, in ascending order. */
  lemma {:induction false} OccurrencesBelowSpec(text: string, pattern: string, bound: nat)
    ensures forall k: nat :: k in OccurrencesBelow(text, pattern, bound) <==>
      k < bound && MatchAt(text, pattern, k)
    ensures forall a :: 0 <= a < |OccurrencesBelow(text, pattern, bound)| ==>
      OccurrencesBelow(text, pattern, bound)[a] < bound
    ensures Ascending(OccurrencesBelow(text, pattern, bound))
  {
    if bound > 0 {
      OccurrencesBelowSpec(text, pattern, bound - 1);
    }
  }

  /** Every offset at which `pattern` occurs in `text`, overlapping ones included, ascending. */
  function Occurrences(text: string, pattern: string): (r: seq<nat>)
    ensures forall k: nat :: k in r <==> MatchAt(text, pattern, k)
    ensures Ascending(r)
  {
    if |pattern| <= |text| then
      OccurrencesBelowSpec(text, pattern, |text| - |pattern| + 1);
      OccurrencesBelow(text, pattern, |text| - |pattern| + 1)
    else []
  }

  /** Raising the bound by one adds that offset exactly when the pattern occurs there. */
  lemma OccurrencesBelowNext(text: string, pattern: string, bound: nat)
    ensures OccurrencesBelow(text, pattern, bound + 1) == if MatchAt(text, pattern, bound)
      then OccurrencesBelow(text, pattern, bound) + [bound] else OccurrencesBelow(text, pattern, bound)
  {
  }

  /** A bound past the last possible start offset no longer changes the occurrences. */
  lemma OccurrencesBelowSaturates(text: string, pattern: string, bound: nat)
    requires bound + |pattern| >= |text| + 1
    ensures OccurrencesBelow(text, pattern, bound) == Occurrences(text, pattern)
  {
    OccurrencesBelowSpec(text, pattern, bound);
    AscendingUnique(OccurrencesBelow(text, pattern, bound), Occurrences(text, pattern));
  }

  /** Raising the bound over offsets where the pattern does not occur changes nothing. */
  lemma OccurrencesBelowSkip(text: string, pattern: string, lo: nat, hi: nat)
    requires lo <= hi
    requires forall k :: lo <= k < hi ==> !MatchAt(text, pattern, k)
    ensures OccurrencesBelow(text, pattern, hi) == OccurrencesBelow(text, pattern, lo)
  {
    OccurrencesBelowSpec(text, pattern, hi);
    OccurrencesBelowSpec(text, pattern, lo);
    AscendingUnique(OccurrencesBelow(text, pattern, hi), OccurrencesBelow(text, pattern, lo));
  }

  /** A pattern longer than the text occurs nowhere. */
  lemma OccurrencesOfLongerPattern(text: string, pattern: string)
    requires |pattern| > |text|
    ensures Occurrences(text, pattern) == []
  {
  }

  /** The empty pattern occurs at every offset 0..|text|. */
  lemma OccurrencesOfEmptyPattern(text: string)
    ensures Occurrences(text, []) == seq(|text| + 1, k requires 0 <= k <= |text| => k)
  {
    var all: seq<nat> := seq(|text| + 1, k requires 0 <= k <= |text| => k);
    forall k: nat ensures k in all <==> MatchAt(text, [], k) {
      if k <= |text| {
        assert all[k] == k;
      }
    }
    AscendingUnique(Occurrences(text, []), all);
  }

  /** Length of the longest common prefix of `a` and `b`: they agree below it and differ at it. */
  function CommonPrefix(a: string, b: string): (r: nat)
    ensures r <= |a| && r <= |b| && a[..r] == b[..r]
    ensures r < |a| && r < |b| ==> a[r] != b[r]
  {
    if a == [] || b == [] || a[0] != b[0] then 0
    else
      var rest := CommonPrefix(a[1..], b[1..]);
      assert a[..rest + 1] == [a[0]] + a[1..][..rest];
      assert b[..rest + 1] == [b[0]] + b[1..][..rest];
      1 + rest
  }

  /** Character tests a left-to-right comparison of the window at `k` against `pattern` makes
      when it stops at the first mismatch: the agreeing prefix plus the failing test, or all
      `|pattern|` tests on a full match. */
  function WindowCost(text: string, pattern: string, k: nat): (r: nat)
    requires k + |pattern| <= |text|
    ensures r <= |pattern|
    ensures |pattern| > 0 ==> r >= 1
  {
    var agree := CommonPrefix(text[k..k + |pattern|], pattern);
    if agree == |pattern| then |pattern| else agree + 1
  }

  /** What the window comparison loop knows when it stops at `j` — a full match, or the first
      mismatch — fixes its cost and whether the pattern occurs there. */
  lemma WindowScanStops(text: string, pattern: string, k: nat, j: nat)
    requires k + |pattern| <= |text| && j <= |pattern|
    requires text[k..k + j] == pattern[..j]
    requires j == |pattern| || text[k + j] != pattern[j]
    ensures WindowCost(text, pattern, k) == if j == |pattern| then j else j + 1
    ensures MatchAt(text, pattern, k) <==> j == |pattern|
  {
    var w := text[k..k + |pattern|];
    assert w[..j] == text[k..k + j];
    var agree := CommonPrefix(w, pattern);
  }

  /** Extending an agreeing prefix of the window at `k` by one agreeing character. */
  lemma WindowPrefixGrows(text: string, pattern: string, k: nat, j: nat)
    requires k + j < |text| && j < |pattern|
    requires text[k..k + j] == pattern[..j] && text[k + j] == pattern[j]
    ensures text[k..k + j + 1] == pattern[..j + 1]
  {
    assert text[k..k + j + 1] == text[k..k + j] + [text[k + j]];
    assert pattern[..j + 1] == pattern[..j] + [pattern[j]];
  }

  /** Character tests the naive scan makes over the offsets below `bound`. */
  function NaiveCost(text: string, pattern: string, bound: nat): nat
    requires bound == 0 || bound + |pattern| <= |text| + 1
  {
    if bound == 0 then 0
    else NaiveCost(text, pattern, bound - 1) + WindowCost(text, pattern, bound - 1)
  }

  /** Each window costs at least one and at most `|pattern|` tests. */
  lemma {:induction false} NaiveCostBounds(text: string, pattern: string, bound: nat)
    requires bound == 0 || bound + |pattern| <= |text| + 1
    ensures NaiveCost(text, pattern, bound) <= bound * |pattern|
    ensures |pattern| > 0 ==> NaiveCost(text, pattern, bound) >= bound
  {
    if bound > 0 {
      NaiveCostBounds(text, pattern, bound - 1);
      assert bound * |pattern| == (bound - 1) * |pattern| + |pattern|;
    }
  }

  /** The naive scan's cost grows by one window at a time. */
  lemma NaiveCostNext(text: string, pattern: string, bound: nat)
    requires bound + |pattern| <= |text|
    ensures NaiveCost(text, pattern, bound + 1)
      == NaiveCost(text, pattern, bound) + WindowCost(text, pattern, bound)
  {
  }

  /** Character tests of the naive scan over every offset 0..|text|-|pattern|; none when the
      pattern is longer than the text. */
  function NaiveComparisons(text: string, pattern: string): nat {
    if |pattern| <= |text| then NaiveCost(text, pattern, |text| - |pattern| + 1) else 0
  }

  /** The naive scan makes no tests when the pattern is longer than the text, and otherwise
      between one (for a non-empty pattern) and `|pattern|` tests per offset. */
  lemma NaiveComparisonsBounds(text: string, pattern: string)
    ensures |pattern| > |text| ==> NaiveComparisons(text, pattern) == 0
    ensures |pattern| <= |text| ==>
      NaiveComparisons(text, pattern) <= (|text| - |pattern| + 1) * |pattern|
    ensures 0 < |pattern| <= |text| ==> NaiveComparisons(text, pattern) >= |text| - |pattern| + 1
  {
    if |pattern| <= |text| {
      NaiveCostBounds(text, pattern, |text| - |pattern| + 1);
    }
  }
}
