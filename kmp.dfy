/** kmp.py: Knuth-Morris-Pratt with the LPS table, refusing empty input, and counting a mismatch
    twice (once in the loop-head test, once more in the mismatch branch). */
module Kmp {
  import opened Chars
  import opened Matching
  import opened Dict
  import opened Borders

  /** `KMP.compute_lps`: fills the table left to right, keeping in `length` the longest border
      of `pattern[..i]` still worth extending and falling back along the table on a mismatch. */
  method ComputeLps(pattern: string) returns (lps: seq<nat>)
    ensures |lps| == |pattern|
    ensures forall len :: 1 <= len <= |pattern| ==> lps[len - 1] == LongestBorder(pattern, len)
  {
    var m := |pattern|;
    var table := new nat[m](_ => 0);
    if m == 0 {
      return table[..];
    }
    var length: nat := 0;
    var i: nat := 1;
    LpsStart(pattern, table[..]);
    while i < m
      invariant LpsInvariant(pattern, table[..], i, length)
      decreases m - i, length
    {
      ghost var before := table[..];
      if pattern[i] == pattern[length] {
        table[i] := length + 1;
        LpsExtend(pattern, before, i, length, table[..]);
        length := length + 1;
        i := i + 1;
      } else {
        if length != 0 {
          LpsFallBack(pattern, before, i, length);
          length := table[length - 1];
        } else {
          table[i] := 0;
          LpsSettleZero(pattern, before, i, table[..]);
          i := i + 1;
        }
      }
    }
    lps := table[..];
  }

  /** One iteration of the scan loop of `KMP.search`, with the LPS table of `p`: it does what
      `ScanStep` says, appends the full match it reports and counts one comparison, or two when
      it takes the mismatch branch. */
  method ScanOnce(t: string, p: string, lps: seq<nat>, i: nat, j: nat, positions: seq<nat>,
                  comparisons: nat)
    returns (i': nat, j': nat, positions': seq<nat>, comparisons': nat)
    requires |lps| == |p| && forall len :: 1 <= len <= |p| ==> lps[len - 1] == LongestBorder(p, len)
    requires j < |p| && j <= i < |t|
    ensures i' == ScanStep(t, p, i, j).i && j' == ScanStep(t, p, i, j).j
    ensures positions' == if ScanStep(t, p, i, j).reported then positions + [i - j] else positions
    ensures comparisons' == comparisons + if ScanStep(t, p, i, j).mismatch then 2 else 1
  {
    var n, m := |t|, |p|;
    i', j', positions', comparisons' := i, j, positions, comparisons + 1;
    if p[j'] == t[i'] {
      i', j' := i' + 1, j' + 1;
    }
    if j' == m {
      var start: nat := i' - j';
      positions' := positions' + [start];
      j' := lps[j' - 1];
    } else if i' < n && p[j'] != t[i'] {
      comparisons' := comparisons' + 1;
      if j' != 0 {
        j' := lps[j' - 1];
      } else {
        i' := i' + 1;
      }
    }
  }

  /** What `KMP.search` returns: nothing for an empty text or pattern; otherwise every
      occurrence of the (lowered, unless case-sensitive) pattern, and the comparisons of the scan
      loop, which runs at least once and at most twice per text character and counts one or two
      per iteration. */
  function SearchResult(text: string, pattern: string, caseSensitive: bool): (r: MatchResult)
    ensures text == [] || pattern == [] ==> r == MatchResult(false, [], 0)
    ensures r.found <==> |r.positions| > 0
    ensures Ascending(r.positions)
    ensures forall k: nat :: k in r.positions <==>
      text != [] && pattern != [] &&
      MatchAt(Normalize(text, caseSensitive), Normalize(pattern, caseSensitive), k)
    ensures text != [] && pattern != [] ==> |text| <= r.comparisons <= 4 * |text|
  {
    if text == [] || pattern == [] then MatchResult(false, [], 0)
    else
      var t, p := Normalize(text, caseSensitive), Normalize(pattern, caseSensitive);
      var occurrences := Occurrences(t, p);
      MatchResult(|occurrences| > 0, occurrences, ScanCost(t, p, 0, 0, true))
  }

  /** The scan loop of `KMP.search`, given the LPS table of a non-empty pattern: it keeps
      `t[i - j..i] == p[..j]`; on a full match it reports `i - j` and falls back to the longest
      border, so overlapping occurrences are found too. */
  method ScanText(t: string, p: string, lps: seq<nat>) returns (positions: seq<nat>, comparisons: nat)
    requires |lps| == |p| && forall len :: 1 <= len <= |p| ==> lps[len - 1] == LongestBorder(p, len)
    requires p != []
    ensures positions == Occurrences(t, p) && comparisons == ScanCost(t, p, 0, 0, true)
  {
    var n, m := |t|, |p|;
    positions, comparisons := [], 0;
    var i: nat, j: nat := 0, 0;
    ghost var total := ScanCost(t, p, 0, 0, true);
    while i < n
      invariant ScanInvariant(t, p, i, j, positions)
      invariant comparisons + ScanCost(t, p, i, j, true) == total
      decreases 2 * (n - i) + j
    {
      ghost var i0, j0, positions0 := i, j, positions;
      i, j, positions, comparisons := ScanOnce(t, p, lps, i, j, positions, comparisons);
      ScanStepKeeps(t, p, i0, j0, positions0, i, j, positions);
      ScanStepCost(t, p, i0, j0, i, j, true);
    }
    OccurrencesBelowSaturates(t, p, n - j);
    assert i == n;
    assert ScanCost(t, p, i, j, true) == 0;
  }

  /** `KMP.search`: refuse an empty text or pattern, build the LPS table, and scan. */
  method Search(text: string, pattern: string, caseSensitive: bool)
    returns (found: bool, positions: seq<nat>, comparisons: nat)
    ensures MatchResult(found, positions, comparisons) == SearchResult(text, pattern, caseSensitive)
  {
    if text == [] || pattern == [] {
      return false, [], 0;
    }
    var t, p := Normalize(text, caseSensitive), Normalize(pattern, caseSensitive);
    var lps := ComputeLps(p);
    positions, comparisons := ScanText(t, p, lps);
    found := |positions| > 0;
  }

  /** Comparisons of searching each of `patterns` in turn, repeated patterns counted each time. */
  function TotalComparisons(text: string, patterns: seq<string>, caseSensitive: bool): nat {
    if patterns == [] then 0
    else
      TotalComparisons(text, patterns[..|patterns| - 1], caseSensitive)
      + SearchResult(text, patterns[|patterns| - 1], caseSensitive).comparisons
  }

  /** Searching one more pattern adds its own comparisons to the total. */
  lemma TotalComparisonsGrows(text: string, patterns: seq<string>, k: nat, caseSensitive: bool)
    requires k < |patterns|
    ensures TotalComparisons(text, patterns[..k + 1], caseSensitive)
      == TotalComparisons(text, patterns[..k], caseSensitive)
         + SearchResult(text, patterns[k], caseSensitive).comparisons
  {
    assert patterns[..k + 1][..k] == patterns[..k];
  }

  /** The entry `search_multiple` stores for each pattern. */
  function EntryFor(text: string, caseSensitive: bool): string -> Entry {
    key => EntryOf(SearchResult(text, key, caseSensitive))
  }

  /** One round of the loop of `search_multiple`: search the next pattern, add its comparisons to
      the total and store its entry under it. */
  method SearchNext(text: string, patterns: seq<string>, k: nat, caseSensitive: bool,
                    results: seq<(string, Entry)>, totalComparisons: nat)
    returns (results': seq<(string, Entry)>, totalComparisons': nat)
    requires k < |patterns|
    requires Keys(results) == FirstOccurrences(patterns[..k])
    requires Agrees(results, EntryFor(text, caseSensitive))
    requires totalComparisons == TotalComparisons(text, patterns[..k], caseSensitive)
    ensures Keys(results') == FirstOccurrences(patterns[..k + 1])
    ensures Agrees(results', EntryFor(text, caseSensitive))
    ensures totalComparisons' == TotalComparisons(text, patterns[..k + 1], caseSensitive)
  {
    var pattern := patterns[k];
    var found, positions, comparisons := Search(text, pattern, caseSensitive);
    ghost var r := SearchResult(text, pattern, caseSensitive);
    assert found == r.found && positions == r.positions && comparisons == r.comparisons;
    TotalComparisonsGrows(text, patterns, k, caseSensitive);
    var entry := Entry(found, positions, |positions|, comparisons);
    PutAgrees(results, pattern, entry, EntryFor(text, caseSensitive));
    PutKeys(results, patterns, k, entry);
    results' := Put(results, pattern, entry);
    totalComparisons' := totalComparisons + comparisons;
  }

  /** `KMP.search_multiple`: one search per pattern, results keyed by pattern in order of first
      appearance, and the running total of comparisons. */
  method SearchMultiple(text: string, patterns: seq<string>, caseSensitive: bool)
    returns (results: seq<(string, Entry)>, totalComparisons: nat)
    ensures Keys(results) == FirstOccurrences(patterns)
    ensures forall i :: 0 <= i < |results| ==>
      results[i].1 == EntryOf(SearchResult(text, results[i].0, caseSensitive))
    ensures forall i :: 0 <= i < |results| ==>
      results[i].1.occurrences == |results[i].1.positions|
    ensures totalComparisons == TotalComparisons(text, patterns, caseSensitive)
  {
    results, totalComparisons := [], 0;
    for k := 0 to |patterns|
      invariant Keys(results) == FirstOccurrences(patterns[..k])
      invariant Agrees(results, EntryFor(text, caseSensitive))
      invariant totalComparisons == TotalComparisons(text, patterns[..k], caseSensitive)
    {
      results, totalComparisons :=
        SearchNext(text, patterns, k, caseSensitive, results, totalComparisons);
    }
    assert patterns[..|patterns|] == patterns;
  }
}
