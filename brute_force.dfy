/** brute_force.py: the naive scan, which refuses empty input before doing any work. */
module BruteForce {
  import opened Chars
  import opened Matching
  import opened Dict

  /** The inner loop of `BruteForce.search`: compare the window at `i` with the pattern left to
      right, counting every test, up to the first mismatch. It stops at `j == |p|` exactly when
      the pattern occurs there, and it costs `WindowCost`. */
  method CompareWindow(t: string, p: string, i: nat, comparisons: nat)
    returns (j: nat, comparisons': nat)
    requires i + |p| <= |t|
    ensures j <= |p| && (j == |p| <==> MatchAt(t, p, i))
    ensures comparisons' == comparisons + WindowCost(t, p, i)
  {
    var m := |p|;
    j, comparisons' := 0, comparisons;
    while j < m
      invariant j <= m
      invariant t[i..i + j] == p[..j]
      invariant comparisons' == comparisons + j
    {
      comparisons' := comparisons' + 1;
      if t[i + j] != p[j] {
        break;
      }
      WindowPrefixGrows(t, p, i, j);
      j := j + 1;
    }
    assert j == m || t[i + j] != p[j];
    WindowScanStops(t, p, i, j);
  }

  /** What `BruteForce.search` returns: nothing for an empty text or pattern; otherwise every
      occurrence of the (lowered, unless case-sensitive) pattern in the (lowered) text, and the
      character tests of the naive scan. */
  function SearchResult(text: string, pattern: string, caseSensitive: bool): (r: MatchResult)
    ensures text == [] || pattern == [] ==> r == MatchResult(false, [], 0)
    ensures r.found <==> |r.positions| > 0
    ensures Ascending(r.positions)
    ensures forall k: nat :: k in r.positions <==>
      text != [] && pattern != [] &&
      MatchAt(Normalize(text, caseSensitive), Normalize(pattern, caseSensitive), k)
    ensures |pattern| > |text| ==> r.comparisons == 0
    ensures |pattern| <= |text| ==> r.comparisons <= (|text| - |pattern| + 1) * |pattern|
  {
    if text == [] || pattern == [] then MatchResult(false, [], 0)
    else
      var t, p := Normalize(text, caseSensitive), Normalize(pattern, caseSensitive);
      var occurrences := Occurrences(t, p);
      NaiveComparisonsBounds(t, p);
      MatchResult(|occurrences| > 0, occurrences, NaiveComparisons(t, p))
  }

  /** `BruteForce.search`: try every offset, comparing left to right up to the first mismatch. */
  method Search(text: string, pattern: string, caseSensitive: bool)
    returns (found: bool, positions: seq<nat>, comparisons: nat)
    ensures MatchResult(found, positions, comparisons) == SearchResult(text, pattern, caseSensitive)
  {
    if text == [] || pattern == [] {
      return false, [], 0;
    }
    var t, p := Normalize(text, caseSensitive), Normalize(pattern, caseSensitive);
    var n, m := |t|, |p|;
    positions, comparisons := [], 0;
    var i := 0;
    while i < n - m + 1
      invariant i == 0 || i <= n - m + 1
      invariant positions == OccurrencesBelow(t, p, i)
      invariant comparisons == NaiveCost(t, p, i)
    {
      var j;
      j, comparisons := CompareWindow(t, p, i, comparisons);
      NaiveCostNext(t, p, i);
      OccurrencesBelowNext(t, p, i);
      if j == m {
        positions := positions + [i];
      }
      i := i + 1;
    }
    assert m <= n ==> i == n - m + 1;
    assert positions == Occurrences(t, p);
    assert comparisons == NaiveComparisons(t, p);
    found := |positions| > 0;
  }

  /** Comparisons of searching each of `patterns` in turn, repeated patterns counted each time. */
  function TotalComparisons(text: string, patterns: seq<string>, caseSensitive: bool): nat {
    if patterns == [] then 0
    else
      TotalComparisons(text, patterns[..|patterns| - 1], caseSensitive)
      + SearchResult(text, patterns[|patterns| - 1], caseSensitive).comparisons
  }

  /** Searching one more pattern adds its own comparisons to the total. */
  lemma TotalComparisonsGrows(text: string, patterns: seq<string>, k: nat, caseSensitive: bool)
    requires k < |patterns|
    ensures TotalComparisons(text, patterns[..k + 1], caseSensitive)
      == TotalComparisons(text, patterns[..k], caseSensitive)
         + SearchResult(text, patterns[k], caseSensitive).comparisons
  {
    assert patterns[..k + 1][..k] == patterns[..k];
  }

  /** The entry `search_multiple` stores for each pattern. */
  function EntryFor(text: string, caseSensitive: bool): string -> Entry {
    key => EntryOf(SearchResult(text, key, caseSensitive))
  }

  /** One round of the loop of `search_multiple`: search the next pattern, add its comparisons to
      the total and store its entry under it. */
  method SearchNext(text: string, patterns: seq<string>, k: nat, caseSensitive: bool,
                    results: seq<(string, Entry)>, totalComparisons: nat)
    returns (results': seq<(string, Entry)>, totalComparisons': nat)
    requires k < |patterns|
    requires Keys(results) == FirstOccurrences(patterns[..k])
    requires Agrees(results, EntryFor(text, caseSensitive))
    requires totalComparisons == TotalComparisons(text, patterns[..k], caseSensitive)
    ensures Keys(results') == FirstOccurrences(patterns[..k + 1])
    ensures Agrees(results', EntryFor(text, caseSensitive))
    ensures totalComparisons' == TotalComparisons(text, patterns[..k + 1], caseSensitive)
  {
    var pattern := patterns[k];
    var found, positions, comparisons := Search(text, pattern, caseSensitive);
    ghost var r := SearchResult(text, pattern, caseSensitive);
    assert found == r.found && positions == r.positions && comparisons == r.comparisons;
    TotalComparisonsGrows(text, patterns, k, caseSensitive);
    var entry := Entry(found, positions, |positions|, comparisons);
    PutAgrees(results, pattern, entry, EntryFor(text, caseSensitive));
    PutKeys(results, patterns, k, entry);
    results' := Put(results, pattern, entry);
    totalComparisons' := totalComparisons + comparisons;
  }

  /** `BruteForce.search_multiple`: one search per pattern, results keyed by pattern in order of
      first appearance, and the running total of comparisons. */
  method SearchMultiple(text: string, patterns: seq<string>, caseSensitive: bool)
    returns (results: seq<(string, Entry)>, totalComparisons: nat)
    ensures Keys(results) == FirstOccurrences(patterns)
    ensures forall i :: 0 <= i < |results| ==>
      results[i].1 == EntryOf(SearchResult(text, results[i].0, caseSensitive))
    ensures forall i :: 0 <= i < |results| ==>
      results[i].1.occurrences == |results[i].1.positions|
    ensures totalComparisons == TotalComparisons(text, patterns, caseSensitive)
  {
    results, totalComparisons := [], 0;
    for k := 0 to |patterns|
      invariant Keys(results) == FirstOccurrences(patterns[..k])
      invariant Agrees(results, EntryFor(text, caseSensitive))
      invariant totalComparisons == TotalComparisons(text, patterns[..k], caseSensitive)
    {
      results, totalComparisons :=
        SearchNext(text, patterns, k, caseSensitive, results, totalComparisons);
    }
    assert patterns[..|patterns|] == patterns;
  }
}
