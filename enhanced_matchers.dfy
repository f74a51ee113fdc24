/** The brute-force scan inlined in cv_analyzer_enhanced.py: the same scan as brute_force.py but
    without the guard on empty input, so an empty pattern occurs at every offset. */
module EnhancedBruteForce {
  import opened Chars
  import opened Matching
  import opened Dict
  import BruteForce

  /** What the inlined `BruteForce.search` returns: every occurrence of the (lowered, unless
      case-sensitive) pattern, and the character tests of the naive scan. */
  function SearchResult(text: string, pattern: string, caseSensitive: bool): MatchResult {
    Scan(Normalize(text, caseSensitive), Normalize(pattern, caseSensitive))
  }

  /** The unguarded naive scan of the normalized `t` for `p`. */
  function Scan(t: string, p: string): MatchResult {
    var occurrences := Occurrences(t, p);
    MatchResult(|occurrences| > 0, occurrences, NaiveComparisons(t, p))
  }

  /** Without the guard, an empty pattern is reported at every offset `0..|text|` with no
      comparisons, and an empty text holds no occurrence of a non-empty pattern; otherwise the
      result is that of brute_force.py: every occurrence, ascending, and at most `|pattern|` tests
      per offset. */
  lemma SearchResultSpec(text: string, pattern: string, caseSensitive: bool)
    ensures var r := SearchResult(text, pattern, caseSensitive);
      && (r.found <==> |r.positions| > 0)
      && Ascending(r.positions)
      && (forall k: nat :: k in r.positions <==>
           MatchAt(Normalize(text, caseSensitive), Normalize(pattern, caseSensitive), k))
      && (pattern == [] ==>
           r == MatchResult(true, seq(|text| + 1, k requires 0 <= k <= |text| => k), 0))
      && (text == [] && pattern != [] ==> r == MatchResult(false, [], 0))
      && (|pattern| <= |text| ==> r.comparisons <= (|text| - |pattern| + 1) * |pattern|)
  {
    var t, p := Normalize(text, caseSensitive), Normalize(pattern, caseSensitive);
    NaiveComparisonsBounds(t, p);
    if p == [] {
      OccurrencesOfEmptyPattern(t);
    }
  }

  /** The inlined `BruteForce.search`: try every offset, comparing left to right up to the first
      mismatch. */
  method Search(text: string, pattern: string, caseSensitive: bool)
    returns (found: bool, positions: seq<nat>, comparisons: nat)
    ensures MatchResult(found, positions, comparisons) == SearchResult(text, pattern, caseSensitive)
  {
    var t, p := Normalize(text, caseSensitive), Normalize(pattern, caseSensitive);
    var n, m := |t|, |p|;
    comparisons, positions := 0, [];
    var i := 0;
    while i < n - m + 1
      invariant i == 0 || i <= n - m + 1
      invariant positions == OccurrencesBelow(t, p, i)
      invariant comparisons == NaiveCost(t, p, i)
    {
      var j;
      j, comparisons := BruteForce.CompareWindow(t, p, i, comparisons);
      NaiveCostNext(t, p, i);
      OccurrencesBelowNext(t, p, i);
      if j == m {
        positions := positions + [i];
      }
      i := i + 1;
    }
    assert m <= n ==> i == n - m + 1;
    assert positions == Occurrences(t, p);
    assert comparisons == NaiveComparisons(t, p);
    found := |positions| > 0;
  }

  /** Comparisons of searching each of `patterns` in turn, repeated patterns counted each time. */
  function TotalComparisons(text: string, patterns: seq<string>, caseSensitive: bool): nat {
    if patterns == [] then 0
    else
      TotalComparisons(text, patterns[..|patterns| - 1], caseSensitive)
      + SearchResult(text, patterns[|patterns| - 1], caseSensitive).comparisons
  }

  /** Searching one more pattern adds its own comparisons to the total. */
  lemma TotalComparisonsGrows(text: string, patterns: seq<string>, k: nat, caseSensitive: bool)
    requires k < |patterns|
    ensures TotalComparisons(text, patterns[..k + 1], caseSensitive)
      == TotalComparisons(text, patterns[..k], caseSensitive)
         + SearchResult(text, patterns[k], caseSensitive).comparisons
  {
    assert patterns[..k + 1][..k] == patterns[..k];
  }

  /** The entry `search_multiple` stores for each pattern. */
  function EntryFor(text: string, caseSensitive: bool): string -> KeywordEntry {
    key => KeywordEntryOf(SearchResult(text, key, caseSensitive))
  }

  /** One round of the loop of `search_multiple`: search the next pattern, add its comparisons to
      the total and store its entry under it. */
  method SearchNext(text: string, patterns: seq<string>, k: nat, caseSensitive: bool,
                    results: seq<(string, KeywordEntry)>, totalComparisons: nat)
    returns (results': seq<(string, KeywordEntry)>, totalComparisons': nat)
    requires k < |patterns|
    requires Keys(results) == FirstOccurrences(patterns[..k])
    requires Agrees(results, EntryFor(text, caseSensitive))
    requires totalComparisons == TotalComparisons(text, patterns[..k], caseSensitive)
    ensures Keys(results') == FirstOccurrences(patterns[..k + 1])
    ensures Agrees(results', EntryFor(text, caseSensitive))
    ensures totalComparisons' == TotalComparisons(text, patterns[..k + 1], caseSensitive)
  {
    var pattern := patterns[k];
    var found, positions, comparisons := Search(text, pattern, caseSensitive);
    ghost var r := SearchResult(text, pattern, caseSensitive);
    assert found == r.found && positions == r.positions && comparisons == r.comparisons;
    TotalComparisonsGrows(text, patterns, k, caseSensitive);
    var entry := KeywordEntry(found, |positions|, positions);
    PutAgrees(results, pattern, entry, EntryFor(text, caseSensitive));
    PutKeys(results, patterns, k, entry);
    results' := Put(results, pattern, entry);
    totalComparisons' := totalComparisons + comparisons;
  }

  /** The inlined `BruteForce.search_multiple`: one search per pattern, results keyed by pattern in
      order of first appearance, and the running total of comparisons. */
  method SearchMultiple(text: string, patterns: seq<string>, caseSensitive: bool)
    returns (results: seq<(string, KeywordEntry)>, totalComparisons: nat)
    ensures Keys(results) == FirstOccurrences(patterns)
    ensures forall i :: 0 <= i < |results| ==>
      results[i].1 == KeywordEntryOf(SearchResult(text, results[i].0, caseSensitive))
    ensures forall i :: 0 <= i < |results| ==>
      results[i].1.occurrences == |results[i].1.positions|
    ensures totalComparisons == TotalComparisons(text, patterns, caseSensitive)
  {
    results, totalComparisons := [], 0;
    for k := 0 to |patterns|
      invariant Keys(results) == FirstOccurrences(patterns[..k])
      invariant Agrees(results, EntryFor(text, caseSensitive))
      invariant totalComparisons == TotalComparisons(text, patterns[..k], caseSensitive)
    {
      results, totalComparisons :=
        SearchNext(text, patterns, k, caseSensitive, results, totalComparisons);
    }
    assert patterns[..|patterns|] == patterns;
  }
}

/** The Knuth-Morris-Pratt matcher inlined in cv_analyzer_enhanced.py: it lowers first, refuses
    only an empty pattern, and counts one comparison per iteration of the scan loop. */
module EnhancedKmp {
  import opened Chars
  import opened Matching
  import opened Dict
  import opened Borders

  /** `KMP.build_lps`: the same table-filling loop as `compute_lps` in kmp.py. */
  method BuildLps(pattern: string) returns (lps: seq<nat>)
    ensures |lps| == |pattern|
    ensures forall len :: 1 <= len <= |pattern| ==> lps[len - 1] == LongestBorder(pattern, len)
  {
    var table := new nat[|pattern|](_ => 0);
    if |pattern| == 0 {
      return table[..];
    }
    var length: nat := 0;
    var i: nat := 1;
    LpsStart(pattern, table[..]);
    while i < |pattern|
      invariant LpsInvariant(pattern, table[..], i, length)
      decreases |pattern| - i, length
    {
      ghost var before := table[..];
      if pattern[i] == pattern[length] {
        ghost var shorter := length;
        length := length + 1;
        table[i] := length;
        LpsExtend(pattern, before, i, shorter, table[..]);
        i := i + 1;
      } else {
        if length != 0 {
          LpsFallBack(pattern, before, i, length);
          length := table[length - 1];
        } else {
          table[i] := 0;
          LpsSettleZero(pattern, before, i, table[..]);
          i := i + 1;
        }
      }
    }
    lps := table[..];
  }

  /** One iteration of the inlined scan loop: it does what `ScanStep` says, appends the full match
      it reports, and counts exactly one comparison. */
  method ScanOnce(t: string, p: string, lps: seq<nat>, i: nat, j: nat, positions: seq<nat>,
                  comparisons: nat)
    returns (i': nat, j': nat, positions': seq<nat>, comparisons': nat)
    requires |lps| == |p| && forall len :: 1 <= len <= |p| ==> lps[len - 1] == LongestBorder(p, len)
    requires j < |p| && j <= i < |t|
    ensures i' == ScanStep(t, p, i, j).i && j' == ScanStep(t, p, i, j).j
    ensures positions' == if ScanStep(t, p, i, j).reported then positions + [i - j] else positions
    ensures comparisons' == comparisons + 1
  {
    var n, m := |t|, |p|;
    i', j', positions', comparisons' := i, j, positions, comparisons + 1;
    if p[j'] == t[i'] {
      i', j' := i' + 1, j' + 1;
    }
    if j' == m {
      var start: nat := i' - j';
      positions' := positions' + [start];
      j' := lps[j' - 1];
    } else if i' < n && p[j'] != t[i'] {
      if j' != 0 {
        j' := lps[j' - 1];
      } else {
        i' := i' + 1;
      }
    }
  }

  /** What the inlined `KMP.search` returns: nothing for an empty pattern; otherwise every
      occurrence, and one comparison per iteration of the scan loop. */
  function SearchResult(text: string, pattern: string, caseSensitive: bool): MatchResult {
    var t, p := Normalize(text, caseSensitive), Normalize(pattern, caseSensitive);
    if p == [] then MatchResult(false, [], 0)
    else
      var occurrences := Occurrences(t, p);
      MatchResult(|occurrences| > 0, occurrences, ScanCost(t, p, 0, 0, false))
  }

  /** Nothing is found in an empty text or for an empty pattern; otherwise every occurrence is
      reported, ascending, and the scan loop, one comparison per iteration, runs between once and
      twice per text character. */
  lemma SearchResultSpec(text: string, pattern: string, caseSensitive: bool)
    ensures var r := SearchResult(text, pattern, caseSensitive);
      && (text == [] || pattern == [] ==> r == MatchResult(false, [], 0))
      && (r.found <==> |r.positions| > 0)
      && Ascending(r.positions)
      && (forall k: nat :: k in r.positions <==> (pattern != [] &&
           MatchAt(Normalize(text, caseSensitive), Normalize(pattern, caseSensitive), k)))
      && (pattern != [] ==> |text| <= r.comparisons <= 2 * |text|)
  {
  }

  /** The scan loop of the inlined `KMP.search`, given the LPS table of a non-empty pattern: it
      reports every occurrence and makes one comparison per iteration. */
  method ScanText(t: string, p: string, lps: seq<nat>) returns (positions: seq<nat>, comparisons: nat)
    requires |lps| == |p| && forall len :: 1 <= len <= |p| ==> lps[len - 1] == LongestBorder(p, len)
    requires p != []
    ensures positions == Occurrences(t, p) && comparisons == ScanCost(t, p, 0, 0, false)
  {
    var i: nat, j: nat := 0, 0;
    positions, comparisons := [], 0;
    var n, m := |t|, |p|;
    ghost var total := ScanCost(t, p, 0, 0, false);
    while i < n
      invariant ScanInvariant(t, p, i, j, positions)
      invariant comparisons + ScanCost(t, p, i, j, false) == total
      decreases 2 * (n - i) + j
    {
      ghost var i0, j0, positions0 := i, j, positions;
      i, j, positions, comparisons := ScanOnce(t, p, lps, i, j, positions, comparisons);
      ScanStepKeeps(t, p, i0, j0, positions0, i, j, positions);
      ScanStepCost(t, p, i0, j0, i, j, false);
    }
    OccurrencesBelowSaturates(t, p, n - j);
    assert i == n;
    assert ScanCost(t, p, i, j, false) == 0;
  }

  /** The inlined `KMP.search`: the same scan as kmp.py, counting each iteration once. */
  method Search(text: string, pattern: string, caseSensitive: bool)
    returns (found: bool, positions: seq<nat>, comparisons: nat)
    ensures MatchResult(found, positions, comparisons) == SearchResult(text, pattern, caseSensitive)
  {
    var t, p := Normalize(text, caseSensitive), Normalize(pattern, caseSensitive);
    if p == [] {
      return false, [], 0;
    }
    var lps := BuildLps(p);
    positions, comparisons := ScanText(t, p, lps);
    found := |positions| > 0;
  }

  /** Comparisons of searching each of `patterns` in turn, repeated patterns counted each time. */
  function TotalComparisons(text: string, patterns: seq<string>, caseSensitive: bool): nat {
    if patterns == [] then 0
    else
      TotalComparisons(text, patterns[..|patterns| - 1], caseSensitive)
      + SearchResult(text, patterns[|patterns| - 1], caseSensitive).comparisons
  }

  /** Searching one more pattern adds its own comparisons to the total. */
  lemma TotalComparisonsGrows(text: string, patterns: seq<string>, k: nat, caseSensitive: bool)
    requires k < |patterns|
    ensures TotalComparisons(text, patterns[..k + 1], caseSensitive)
      == TotalComparisons(text, patterns[..k], caseSensitive)
         + SearchResult(text, patterns[k], caseSensitive).comparisons
  {
    assert patterns[..k + 1][..k] == patterns[..k];
  }

  /** The entry `search_multiple` stores for each pattern. */
  function EntryFor(text: string, caseSensitive: bool): string -> KeywordEntry {
    key => KeywordEntryOf(SearchResult(text, key, caseSensitive))
  }

  /** One round of the loop of `search_multiple`: search the next pattern, add its comparisons to
      the total and store its entry under it. */
  method SearchNext(text: string, patterns: seq<string>, k: nat, caseSensitive: bool,
                    results: seq<(string, KeywordEntry)>, totalComparisons: nat)
    returns (results': seq<(string, KeywordEntry)>, totalComparisons': nat)
    requires k < |patterns|
    requires Keys(results) == FirstOccurrences(patterns[..k])
    requires Agrees(results, EntryFor(text, caseSensitive))
    requires totalComparisons == TotalComparisons(text, patterns[..k], caseSensitive)
    ensures Keys(results') == FirstOccurrences(patterns[..k + 1])
    ensures Agrees(results', EntryFor(text, caseSensitive))
    ensures totalComparisons' == TotalComparisons(text, patterns[..k + 1], caseSensitive)
  {
    var pattern := patterns[k];
    var found, positions, comparisons := Search(text, pattern, caseSensitive);
    ghost var r := SearchResult(text, pattern, caseSensitive);
    assert found == r.found && positions == r.positions && comparisons == r.comparisons;
    TotalComparisonsGrows(text, patterns, k, caseSensitive);
    var entry := KeywordEntry(found, |positions|, positions);
    PutAgrees(results, pattern, entry, EntryFor(text, caseSensitive));
    PutKeys(results, patterns, k, entry);
    results' := Put(results, pattern, entry);
    totalComparisons' := totalComparisons + comparisons;
  }

  /** The inlined `KMP.search_multiple`: one search per pattern, results keyed by pattern in order
      of first appearance, and the running total of comparisons. */
  method SearchMultiple(text: string, patterns: seq<string>, caseSensitive: bool)
    returns (results: seq<(string, KeywordEntry)>, totalComparisons: nat)
    ensures Keys(results) == FirstOccurrences(patterns)
    ensures forall i :: 0 <= i < |results| ==>
      results[i].1 == KeywordEntryOf(SearchResult(text, results[i].0, caseSensitive))
    ensures forall i :: 0 <= i < |results| ==>
      results[i].1.occurrences == |results[i].1.positions|
    ensures totalComparisons == TotalComparisons(text, patterns, caseSensitive)
  {
    results, totalComparisons := [], 0;
    for k := 0 to |patterns|
      invariant Keys(results) == FirstOccurrences(patterns[..k])
      invariant Agrees(results, EntryFor(text, caseSensitive))
      invariant totalComparisons == TotalComparisons(text, patterns[..k], caseSensitive)
    {
      results, totalComparisons :=
        SearchNext(text, patterns, k, caseSensitive, results, totalComparisons);
    }
    assert patterns[..|patterns|] == patterns;
  }
}
