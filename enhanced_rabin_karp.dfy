/** The Rabin-Karp matcher inlined in cv_analyzer_enhanced.py: modulus 101, no guard on empty or
    too-long input, one comparison per window on top of the verification tests. A pattern longer
    than the text makes the initial-hash loop index past the end of the text, and an empty
    pattern makes the rolling update drift away from the hash of the empty window. */
module EnhancedRabinKarp {
  import opened Chars
  import opened Matching
  import opened Dict
  import opened PolyHash
  import RabinKarp

  /** The modulus `q`, fixed in the source. */
  const Prime: int := 101

  /** How a call ends: it returns a result, or the text is indexed past its end. */
  datatype Outcome = Returned(result: MatchResult) | IndexError

  /** The value of `h` after its loop: `Base ^ (m - 1) % Prime`, or the initial 1 when the loop
      runs zero times because `m - 1` is negative. */
  function HashFactor(m: nat): int {
    if m == 0 then 1 else Pow(Base, m - 1) % Prime
  }

  /** The rolling update applied to the hash of the window at `k`. */
  function Roll(t: string, m: nat, k: nat, hash: int): int
    requires k + m < |t|
  {
    (Base * (hash - Ord(t[k]) * HashFactor(m)) + Ord(t[k + m])) % Prime
  }

  /** The value `t_hash` holds at window `i`: the hash of the first window, rolled `i` times. */
  function RollingHash(t: string, m: nat, i: nat): int
    requires i + m <= |t|
  {
    if i == 0 then Hash(t[..m], Prime) else Roll(t, m, i - 1, RollingHash(t, m, i - 1))
  }

  /** The hash compared at window `k` equals the pattern's hash. */
  predicate Hit(t: string, p: string, k: nat)
    requires k + |p| <= |t|
  {
    RollingHash(t, |p|, k) == Hash(p, Prime)
  }

  /** The scan records window `k`: the pattern occurs there and the hashes agree. */
  predicate Recorded(t: string, p: string, k: nat) {
    MatchAt(t, p, k) && Hit(t, p, k)
  }

  /** The windows below `bound` that the scan records: a hash hit whose verification succeeds. */
  function HitsBelow(t: string, p: string, bound: nat): seq<nat>
    requires bound == 0 || bound + |p| <= |t| + 1
  {
    if bound == 0 then []
    else
      var before := HitsBelow(t, p, bound - 1);
      if Recorded(t, p, bound - 1) then before + [bound - 1] else before
  }

  /** Comparisons over the windows below `bound`: one per window, plus the verification tests on
      a hash hit. */
  function WindowsCost(t: string, p: string, bound: nat): nat
    requires bound == 0 || bound + |p| <= |t| + 1
  {
    if bound == 0 then 0
    else
      WindowsCost(t, p, bound - 1) + 1 + if Hit(t, p, bound - 1) then WindowCost(t, p, bound - 1) else 0
  }

  /** What the inlined `RabinKarp.search` does: an index error when the pattern is longer than
      the text; otherwise the recorded windows and the comparisons over all `n - m + 1` windows. */
  function SearchResult(text: string, pattern: string, caseSensitive: bool): Outcome {
    var t, p := Normalize(text, caseSensitive), Normalize(pattern, caseSensitive);
    if |p| > |t| then IndexError
    else
      var hits := HitsBelow(t, p, |t| - |p| + 1);
      Returned(MatchResult(|hits| > 0, hits, WindowsCost(t, p, |t| - |p| + 1)))
  }

  /** For a non-empty pattern the rolling hash is the hash of the window. */
  lemma {:induction false} RollingHashIsWindowHash(t: string, m: nat, i: nat)
    requires m >= 1 && i + m <= |t|
    ensures RollingHash(t, m, i) == RabinKarp.WindowHash(t, i, m, Prime)
  {
    if i == 0 {
      assert t[..m] == t[0..0 + m];
    } else {
      RollingHashIsWindowHash(t, m, i - 1);
      ModMod(Pow(Base, m - 1), Prime);
      RollStep(t, i - 1, m, Prime, RollingHash(t, m, i - 1), HashFactor(m));
      assert t[i - 1 + 1..i - 1 + m + 1] == t[i..i + m];
    }
  }

  /** `HitsBelow` holds exactly the recorded windows below `bound`, ascending. */
  lemma {:induction false} HitsBelowSpec(t: string, p: string, bound: nat)
    requires bound == 0 || bound + |p| <= |t| + 1
    ensures forall k: nat :: k in HitsBelow(t, p, bound) <==> k < bound && Recorded(t, p, k)
    ensures forall a :: 0 <= a < |HitsBelow(t, p, bound)| ==> HitsBelow(t, p, bound)[a] < bound
    ensures Ascending(HitsBelow(t, p, bound))
  {
    if bound > 0 {
      HitsBelowSpec(t, p, bound - 1);
    }
  }

  /** For a non-empty pattern every occurrence is a hash hit, so the recorded windows are the
      occurrences. */
  lemma {:induction false} HitsAreOccurrences(t: string, p: string, bound: nat)
    requires |p| >= 1 && (bound == 0 || bound + |p| <= |t| + 1)
    ensures HitsBelow(t, p, bound) == OccurrencesBelow(t, p, bound)
  {
    if bound > 0 {
      var k := bound - 1;
      HitsAreOccurrences(t, p, k);
      if MatchAt(t, p, k) {
        RollingHashIsWindowHash(t, |p|, k);
        assert t[k..k + |p|] == p;
      }
    }
  }

  /** For a non-empty pattern the comparisons are one per window plus exactly the verification
      tests of rabin_karp.py with the same modulus. */
  lemma {:induction false} WindowsCostIsVerifyCost(t: string, p: string, bound: nat)
    requires |p| >= 1 && (bound == 0 || bound + |p| <= |t| + 1)
    ensures WindowsCost(t, p, bound) == bound + RabinKarp.VerifyCost(t, p, Prime, bound)
  {
    if bound > 0 {
      var k := bound - 1;
      WindowsCostIsVerifyCost(t, p, k);
      RollingHashIsWindowHash(t, |p|, k);
      assert Hit(t, p, k) <==> RabinKarp.HashHit(t, p, Prime, k);
    }
  }

  /** For the empty pattern no window costs more than its own comparison. */
  lemma {:induction false} WindowsCostOfEmptyPattern(t: string, bound: nat)
    requires bound <= |t| + 1
    ensures WindowsCost(t, [], bound) == bound
  {
    if bound > 0 {
      WindowsCostOfEmptyPattern(t, bound - 1);
    }
  }

  /** The inlined search raises exactly when the pattern is longer than the text; otherwise it
      reports whether it recorded a window, and the windows it records ascend. */
  lemma SearchResultSpec(text: string, pattern: string, caseSensitive: bool)
    ensures SearchResult(text, pattern, caseSensitive).IndexError? <==> |pattern| > |text|
    ensures SearchResult(text, pattern, caseSensitive).Returned? ==>
      var r := SearchResult(text, pattern, caseSensitive).result;
      (r.found <==> |r.positions| > 0) && Ascending(r.positions)
  {
    var t, p := Normalize(text, caseSensitive), Normalize(pattern, caseSensitive);
    if |p| <= |t| {
      HitsBelowSpec(t, p, |t| - |p| + 1);
    }
  }

  /** For a non-empty pattern that fits, the inlined search reports every occurrence and nothing
      else, and makes one comparison per window plus the verification tests of rabin_karp.py. */
  lemma SearchResultOfPattern(text: string, pattern: string, caseSensitive: bool)
    requires pattern != [] && |pattern| <= |text|
    ensures var t, p := Normalize(text, caseSensitive), Normalize(pattern, caseSensitive);
      var occurrences := Occurrences(t, p);
      SearchResult(text, pattern, caseSensitive) == Returned(MatchResult(|occurrences| > 0,
        occurrences, |t| - |p| + 1 + RabinKarp.VerifyCost(t, p, Prime, |t| - |p| + 1)))
  {
    var t, p := Normalize(text, caseSensitive), Normalize(pattern, caseSensitive);
    HitsAreOccurrences(t, p, |t| - |p| + 1);
    WindowsCostIsVerifyCost(t, p, |t| - |p| + 1);
  }

  /** For the empty pattern the first window is always recorded, later ones only where the
      drifting hash returns to 0, and each of the `|text| + 1` windows costs one comparison. */
  lemma SearchResultOfEmptyPattern(text: string, caseSensitive: bool)
    ensures SearchResult(text, [], caseSensitive).Returned?
    ensures var r := SearchResult(text, [], caseSensitive).result;
      r.found && r.positions[0] == 0 && r.comparisons == |text| + 1
      && forall k :: k in r.positions ==> k <= |text|
  {
    var t, p := Normalize(text, caseSensitive), Normalize([], caseSensitive);
    var bound := |t| + 1;
    HitsBelowSpec(t, p, bound);
    WindowsCostOfEmptyPattern(t, bound);
    assert t[..0] == [];
    assert Recorded(t, p, 0);
    assert 0 in HitsBelow(t, p, bound);
  }

  /** The loop that computes `h`; it runs `m - 1` times, so not at all for an empty pattern. */
  method HashPower(m: nat) returns (h: int)
    ensures h == HashFactor(m)
  {
    h := 1;
    var k := 0;
    while k < m - 1
      invariant 0 <= k && (k <= m - 1 || k == 0)
      invariant h == Pow(Base, k) % Prime
    {
      ModMod(Pow(Base, k), Prime);
      PowStep(h, k, Prime);
      ModMod(h * Base, Prime);
      h := (h * Base) % Prime;
      k := k + 1;
    }
  }

  /** The loop that computes the hashes of the pattern and of the first window by Horner's rule;
      it indexes the text with the pattern's indices, so it fails once it passes the end of a
      text shorter than the pattern. */
  method InitialHashes(t: string, p: string) returns (ok: bool, patternHash: int, textHash: int)
    ensures ok <==> |p| <= |t|
    ensures ok ==> patternHash == Hash(p, Prime) && textHash == Hash(t[..|p|], Prime)
  {
    patternHash, textHash := 0, 0;
    for k := 0 to |p|
      invariant k <= |t|
      invariant patternHash == Hash(p[..k], Prime) && textHash == Hash(t[..k], Prime)
    {
      HornerStep(p[..k], p[k], Prime);
      assert p[..k] + [p[k]] == p[..k + 1];
      patternHash := (Base * patternHash + Ord(p[k])) % Prime;
      if k >= |t| {
        return false, patternHash, textHash;
      }
      HornerStep(t[..k], t[k], Prime);
      assert t[..k] + [t[k]] == t[..k + 1];
      textHash := (Base * textHash + Ord(t[k])) % Prime;
    }
    assert p[..|p|] == p;
    ok := true;
  }

  /** The body of the sliding loop up to the roll: count the window, and on a hash hit verify it
      and record it if it matches. */
  method CheckWindow(t: string, p: string, i: nat, m: nat, patternHash: int, textHash: int,
                     positions: seq<nat>, comparisons: nat)
    returns (positions': seq<nat>, comparisons': nat)
    requires m == |p| && i + m <= |t|
    requires patternHash == Hash(p, Prime) && textHash == RollingHash(t, m, i)
    requires positions == HitsBelow(t, p, i) && comparisons == WindowsCost(t, p, i)
    ensures positions' == HitsBelow(t, p, i + 1) && comparisons' == WindowsCost(t, p, i + 1)
  {
    positions', comparisons' := positions, comparisons + 1;
    if patternHash == textHash {
      var matched;
      matched, comparisons' := RabinKarp.VerifyWindow(t, p, i, comparisons');
      if matched {
        positions' := positions' + [i];
      }
    }
  }

  /** The roll of the sliding loop, with the correction for a negative result, which the
      remainder never produces. */
  method RollHash(t: string, i: nat, m: nat, h: int, textHash: int) returns (textHash': int)
    requires i + m < |t| && h == HashFactor(m) && textHash == RollingHash(t, m, i)
    ensures textHash' == RollingHash(t, m, i + 1)
  {
    textHash' := (Base * (textHash - Ord(t[i]) * h) + Ord(t[i + m])) % Prime;
    if textHash' < 0 {
      assert false;
      textHash' := textHash' + Prime;
    }
  }

  /** The sliding loop over the `n - m + 1` windows. */
  method Slide(t: string, p: string, h: int, patternHash: int, textHash: int)
    returns (positions: seq<nat>, comparisons: nat)
    requires |p| <= |t| && h == HashFactor(|p|)
    requires patternHash == Hash(p, Prime) && textHash == Hash(t[..|p|], Prime)
    ensures positions == HitsBelow(t, p, |t| - |p| + 1)
    ensures comparisons == WindowsCost(t, p, |t| - |p| + 1)
  {
    var n, m := |t|, |p|;
    positions, comparisons := [], 0;
    var hash := textHash;
    for i := 0 to n - m + 1
      invariant i <= n - m ==> hash == RollingHash(t, m, i)
      invariant positions == HitsBelow(t, p, i) && comparisons == WindowsCost(t, p, i)
    {
      positions, comparisons := CheckWindow(t, p, i, m, patternHash, hash, positions, comparisons);
      if i < n - m {
        hash := RollHash(t, i, m, h, hash);
      }
    }
  }

  /** The inlined `RabinKarp.search`. */
  method Search(text: string, pattern: string, caseSensitive: bool) returns (outcome: Outcome)
    ensures outcome == SearchResult(text, pattern, caseSensitive)
  {
    var t, p := Normalize(text, caseSensitive), Normalize(pattern, caseSensitive);
    var h := HashPower(|p|);
    var ok, patternHash, textHash := InitialHashes(t, p);
    if !ok {
      return IndexError;
    }
    var positions, comparisons := Slide(t, p, h, patternHash, textHash);
    outcome := Returned(MatchResult(|positions| > 0, positions, comparisons));
  }

  /** No pattern is longer than the text, so no search raises. */
  predicate Fits(text: string, patterns: seq<string>) {
    forall k :: 0 <= k < |patterns| ==> |patterns[k]| <= |text|
  }

  /** A prefix of patterns that fit grows by a pattern that fits. */
  lemma FitsGrows(text: string, patterns: seq<string>, k: nat)
    requires k < |patterns| && Fits(text, patterns[..k]) && |patterns[k]| <= |text|
    ensures Fits(text, patterns[..k + 1])
  {
  }

  /** When every pattern fits, every stored entry is the result of a search that returned. */
  lemma FitsEntries(text: string, patterns: seq<string>, caseSensitive: bool,
                    results: seq<(string, KeywordEntry)>)
    requires Fits(text, patterns) && Keys(results) == FirstOccurrences(patterns)
    requires Agrees(results, EntryFor(text, caseSensitive))
    ensures forall i :: 0 <= i < |results| ==>
      SearchResult(text, results[i].0, caseSensitive).Returned? &&
      results[i].1 == KeywordEntryOf(SearchResult(text, results[i].0, caseSensitive).result)
  {
    forall i | 0 <= i < |results|
      ensures SearchResult(text, results[i].0, caseSensitive).Returned?
    {
      assert results[i].0 in Keys(results);
      SearchResultSpec(text, results[i].0, caseSensitive);
    }
  }

  /** Comparisons of searching each of `patterns` in turn, repeated patterns counted each time;
      a pattern that raises contributes nothing, as the total is then lost anyway. */
  function TotalComparisons(text: string, patterns: seq<string>, caseSensitive: bool): nat {
    if patterns == [] then 0
    else
      TotalComparisons(text, patterns[..|patterns| - 1], caseSensitive)
      + match SearchResult(text, patterns[|patterns| - 1], caseSensitive)
        case Returned(r) => r.comparisons
        case IndexError => 0
  }

  /** Searching one more pattern that does not raise adds its own comparisons to the total. */
  lemma TotalComparisonsGrows(text: string, patterns: seq<string>, k: nat, caseSensitive: bool)
    requires k < |patterns| && SearchResult(text, patterns[k], caseSensitive).Returned?
    ensures TotalComparisons(text, patterns[..k + 1], caseSensitive)
      == TotalComparisons(text, patterns[..k], caseSensitive)
         + SearchResult(text, patterns[k], caseSensitive).result.comparisons
  {
    assert patterns[..k + 1][..k] == patterns[..k];
  }

  /** The entry `search_multiple` stores for a pattern that does not raise. */
  function EntryFor(text: string, caseSensitive: bool): string -> KeywordEntry {
    key => match SearchResult(text, key, caseSensitive)
      case Returned(r) => KeywordEntryOf(r)
      case IndexError => KeywordEntry(false, 0, [])
  }

  /** One round of the loop of `search_multiple`: search the next pattern; unless that raises,
      add its comparisons to the total and store its entry under it. */
  method SearchNext(text: string, patterns: seq<string>, k: nat, caseSensitive: bool,
                    results: seq<(string, KeywordEntry)>, totalComparisons: nat)
    returns (raised: bool, results': seq<(string, KeywordEntry)>, totalComparisons': nat)
    requires k < |patterns|
    requires Keys(results) == FirstOccurrences(patterns[..k])
    requires Agrees(results, EntryFor(text, caseSensitive))
    requires totalComparisons == TotalComparisons(text, patterns[..k], caseSensitive)
    ensures raised <==> |patterns[k]| > |text|
    ensures !raised ==> Keys(results') == FirstOccurrences(patterns[..k + 1])
    ensures !raised ==> Agrees(results', EntryFor(text, caseSensitive))
    ensures !raised ==> totalComparisons' == TotalComparisons(text, patterns[..k + 1], caseSensitive)
  {
    var pattern := patterns[k];
    SearchResultSpec(text, pattern, caseSensitive);
    var outcome := Search(text, pattern, caseSensitive);
    if outcome.IndexError? {
      return true, results, totalComparisons;
    }
    raised := false;
    var found, positions, comparisons :=
      outcome.result.found, outcome.result.positions, outcome.result.comparisons;
    TotalComparisonsGrows(text, patterns, k, caseSensitive);
    var entry := KeywordEntry(found, |positions|, positions);
    PutAgrees(results, pattern, entry, EntryFor(text, caseSensitive));
    PutKeys(results, patterns, k, entry);
    results' := Put(results, pattern, entry);
    totalComparisons' := totalComparisons + comparisons;
  }

  /** The inlined `RabinKarp.search_multiple`: one search per pattern, results keyed by pattern in
      order of first appearance, and the running total of comparisons; the index error of a
      pattern longer than the text escapes, and nothing is returned. */
  method SearchMultiple(text: string, patterns: seq<string>, caseSensitive: bool)
    returns (raised: bool, results: seq<(string, KeywordEntry)>, totalComparisons: nat)
    ensures raised <==> !Fits(text, patterns)
    ensures !raised ==> Keys(results) == FirstOccurrences(patterns)
    ensures !raised ==> forall i :: 0 <= i < |results| ==>
      SearchResult(text, results[i].0, caseSensitive).Returned? &&
      results[i].1 == KeywordEntryOf(SearchResult(text, results[i].0, caseSensitive).result)
    ensures !raised ==> totalComparisons == TotalComparisons(text, patterns, caseSensitive)
  {
    raised, results, totalComparisons := false, [], 0;
    for k := 0 to |patterns|
      invariant Fits(text, patterns[..k])
      invariant Keys(results) == FirstOccurrences(patterns[..k])
      invariant Agrees(results, EntryFor(text, caseSensitive))
      invariant totalComparisons == TotalComparisons(text, patterns[..k], caseSensitive)
    {
      raised, results, totalComparisons :=
        SearchNext(text, patterns, k, caseSensitive, results, totalComparisons);
      if raised {
        return;
      }
      FitsGrows(text, patterns, k);
    }
    assert patterns[..|patterns|] == patterns;
    FitsEntries(text, patterns, caseSensitive, results);
  }
}
