/** rabin_karp.py: Rabin-Karp with a base-256 rolling hash modulo `prime`, verifying every hash hit
    character by character; only the verification tests are counted. */
module RabinKarp {
  import opened Chars
  import opened Matching
  import opened Dict
  import opened PolyHash

  /** The modulus `search_multiple` uses: the default of `search`'s `prime` parameter. */
  const DefaultPrime: int := 101

  /** The hash modulo `q` of the window of length `m` at offset `i` of `t`. */
  function WindowHash(t: string, i: nat, m: nat, q: int): int
    requires q > 0 && i + m <= |t|
  {
    Hash(t[i..i + m], q)
  }

  /** The window at `k` has the same hash modulo `q` as the pattern. */
  predicate HashHit(t: string, p: string, q: int, k: nat)
    requires q > 0 && k + |p| <= |t|
  {
    Hash(t[k..k + |p|], q) == Hash(p, q)
  }

  /** Character tests of the verification loop over the windows below `bound`: a window whose
      hash differs from the pattern's costs nothing, a hash hit costs what comparing it left to
      right up to the first mismatch costs. */
  function VerifyCost(t: string, p: string, q: int, bound: nat): nat
    requires q > 0 && (bound == 0 || bound + |p| <= |t| + 1)
  {
    if bound == 0 then 0
    else
      VerifyCost(t, p, q, bound - 1)
      + if HashHit(t, p, q, bound - 1) then WindowCost(t, p, bound - 1) else 0
  }

  /** Verification never costs more than the naive scan, which compares every window. */
  lemma {:induction false} VerifyCostAtMostNaive(t: string, p: string, q: int, bound: nat)
    requires q > 0 && (bound == 0 || bound + |p| <= |t| + 1)
    ensures VerifyCost(t, p, q, bound) <= NaiveCost(t, p, bound)
  {
    if bound > 0 {
      VerifyCostAtMostNaive(t, p, q, bound - 1);
    }
  }

  /** For a non-empty pattern, verification costs nothing exactly when no window hits. */
  lemma {:induction false} VerifyCostZero(t: string, p: string, q: int, bound: nat)
    requires q > 0 && |p| > 0 && (bound == 0 || bound + |p| <= |t| + 1)
    ensures VerifyCost(t, p, q, bound) == 0 <==> forall k :: 0 <= k < bound ==> !HashHit(t, p, q, k)
  {
    if bound > 0 {
      VerifyCostZero(t, p, q, bound - 1);
    }
  }

  /** An occurrence is a hash hit whose verification runs over the whole pattern. */
  lemma OccurrenceIsFullHit(t: string, p: string, q: int, k: nat)
    requires q > 0 && MatchAt(t, p, k)
    ensures HashHit(t, p, q, k) && WindowCost(t, p, k) == |p|
  {
    assert t[k..k + |p|] == p[..|p|];
    WindowScanStops(t, p, k, |p|);
  }

  /** Every occurrence is a hash hit verified in full, so each costs `|p|` tests. */
  lemma {:induction false} VerifyCostCoversOccurrences(t: string, p: string, q: int, bound: nat)
    requires q > 0 && (bound == 0 || bound + |p| <= |t| + 1)
    ensures VerifyCost(t, p, q, bound) >= |p| * |OccurrencesBelow(t, p, bound)|
  {
    if bound > 0 {
      var k := bound - 1;
      VerifyCostCoversOccurrences(t, p, q, k);
      OccurrencesBelowNext(t, p, k);
      var c, v := |OccurrencesBelow(t, p, k)|, VerifyCost(t, p, q, k);
      if MatchAt(t, p, k) {
        OccurrenceIsFullHit(t, p, q, k);
        assert VerifyCost(t, p, q, bound) == v + |p|;
        assert |OccurrencesBelow(t, p, bound)| == c + 1;
        MulSucc(|p|, c);
      } else {
        assert VerifyCost(t, p, q, bound) >= v;
        assert |OccurrencesBelow(t, p, bound)| == c;
      }
    }
  }

  /** One more factor adds the multiplicand once. */
  lemma MulSucc(a: nat, c: nat)
    ensures a * (c + 1) == a * c + a
  {
  }

  /** A window whose hash differs from the pattern's is no occurrence and costs nothing. */
  lemma VerifyMiss(t: string, p: string, q: int, i: nat)
    requires q > 0 && i + |p| <= |t| && !HashHit(t, p, q, i)
    ensures VerifyCost(t, p, q, i + 1) == VerifyCost(t, p, q, i)
    ensures OccurrencesBelow(t, p, i + 1) == OccurrencesBelow(t, p, i)
  {
    OccurrencesBelowNext(t, p, i);
  }

  /** What `RabinKarp.search` returns: nothing for an empty text or pattern, or for a pattern
      longer than the text; otherwise every occurrence of the (lowered, unless case-sensitive)
      pattern, and the verification tests made on hash hits. */
  function SearchResult(text: string, pattern: string, caseSensitive: bool, prime: int)
    : (r: MatchResult)
    requires prime > 0
    ensures text == [] || pattern == [] || |pattern| > |text| ==> r == MatchResult(false, [], 0)
    ensures r.found <==> |r.positions| > 0
    ensures Ascending(r.positions)
    ensures forall k: nat :: k in r.positions <==>
      text != [] && pattern != [] &&
      MatchAt(Normalize(text, caseSensitive), Normalize(pattern, caseSensitive), k)
    ensures r.comparisons >= |pattern| * |r.positions|
  {
    if text == [] || pattern == [] || |pattern| > |text| then MatchResult(false, [], 0)
    else
      var t, p := Normalize(text, caseSensitive), Normalize(pattern, caseSensitive);
      var occurrences := Occurrences(t, p);
      var bound := |t| - |p| + 1;
      VerifyCostCoversOccurrences(t, p, prime, bound);
      MatchResult(|occurrences| > 0, occurrences, VerifyCost(t, p, prime, bound))
  }

  /** The loop that computes `h`: `Base ^ (m - 1)` reduced step by step modulo `prime`. It is
      congruent to that power, and equal to its remainder once the loop has run. */
  method HashPower(m: nat, prime: int) returns (h: int)
    requires prime > 0 && m >= 1
    ensures h % prime == Pow(Base, m - 1) % prime
    ensures m >= 2 ==> h == Pow(Base, m - 1) % prime
  {
    h := 1;
    for k := 0 to m - 1
      invariant h % prime == Pow(Base, k) % prime
      invariant k >= 1 ==> h == Pow(Base, k) % prime
    {
      PowStep(h, k, prime);
      ModMod(h * Base, prime);
      h := (h * Base) % prime;
    }
  }

  /** The loop that computes the hashes of the pattern and of the first window of the text by
      Horner's rule, reducing modulo `prime` after every step. */
  method InitialHashes(t: string, p: string, prime: int) returns (patternHash: int, textHash: int)
    requires prime > 0 && |p| <= |t|
    ensures patternHash == Hash(p, prime) && textHash == Hash(t[..|p|], prime)
  {
    patternHash, textHash := 0, 0;
    for k := 0 to |p|
      invariant patternHash == Hash(p[..k], prime) && textHash == Hash(t[..k], prime)
    {
      HornerStep(p[..k], p[k], prime);
      HornerStep(t[..k], t[k], prime);
      assert p[..k] + [p[k]] == p[..k + 1] && t[..k] + [t[k]] == t[..k + 1];
      patternHash := (Base * patternHash + Ord(p[k])) % prime;
      textHash := (Base * textHash + Ord(t[k])) % prime;
    }
    assert p[..|p|] == p;
  }

  /** The verification loop run on a hash hit: compare the window at `i` with the pattern left to
      right, counting every test, up to the first mismatch. */
  method VerifyWindow(t: string, p: string, i: nat, comparisons: nat)
    returns (matched: bool, comparisons': nat)
    requires i + |p| <= |t|
    ensures matched <==> MatchAt(t, p, i)
    ensures comparisons' == comparisons + WindowCost(t, p, i)
  {
    var m := |p|;
    matched, comparisons' := true, comparisons;
    var j := 0;
    while j < m
      invariant j <= m && matched
      invariant t[i..i + j] == p[..j]
      invariant comparisons' == comparisons + j
    {
      comparisons' := comparisons' + 1;
      if t[i + j] != p[j] {
        matched := false;
        break;
      }
      WindowPrefixGrows(t, p, i, j);
      j := j + 1;
    }
    WindowScanStops(t, p, i, j);
  }

  /** The body of the sliding loop up to the roll: on a hash hit, verify the window at `i` and
      record it if it matches; a hash miss costs nothing. */
  method CheckWindow(t: string, p: string, prime: int, i: nat, m: nat, patternHash: int,
                     textHash: int, positions: seq<nat>, comparisons: nat)
    returns (positions': seq<nat>, comparisons': nat)
    requires prime > 0 && m == |p| && i + m <= |t|
    requires patternHash == Hash(p, prime) && textHash == WindowHash(t, i, m, prime)
    requires positions == OccurrencesBelow(t, p, i) && comparisons == VerifyCost(t, p, prime, i)
    ensures positions' == OccurrencesBelow(t, p, i + 1)
    ensures comparisons' == VerifyCost(t, p, prime, i + 1)
  {
    positions', comparisons' := positions, comparisons;
    if patternHash == textHash {
      var matched;
      matched, comparisons' := VerifyWindow(t, p, i, comparisons');
      OccurrencesBelowNext(t, p, i);
      if matched {
        positions' := positions' + [i];
      }
    } else {
      VerifyMiss(t, p, prime, i);
    }
  }

  /** The roll of the sliding loop: drop `t[i]`, shift, add `t[i + m]`, and correct a negative
      result, which the remainder never produces. */
  method RollHash(t: string, i: nat, m: nat, prime: int, textHash: int, h: int)
    returns (textHash': int)
    requires prime > 0 && m >= 1 && i + m < |t|
    requires textHash == WindowHash(t, i, m, prime) && h % prime == Pow(Base, m - 1) % prime
    ensures textHash' == WindowHash(t, i + 1, m, prime)
  {
    RollStep(t, i, m, prime, textHash, h);
    assert t[i + 1..i + m + 1] == t[i + 1..i + 1 + m];
    textHash' := (Base * (textHash - Ord(t[i]) * h) + Ord(t[i + m])) % prime;
    if textHash' < 0 {
      assert false;
      textHash' := textHash' + prime;
    }
  }

  /** `RabinKarp.search`: compute `h = Base ^ (m - 1) % prime` and the hashes of the pattern and of
      the first window, then slide over the text, verifying each hash hit and rolling the hash
      to the next window. */
  method Search(text: string, pattern: string, caseSensitive: bool, prime: int)
    returns (found: bool, positions: seq<nat>, comparisons: nat)
    requires prime > 0
    ensures MatchResult(found, positions, comparisons)
      == SearchResult(text, pattern, caseSensitive, prime)
  {
    if text == [] || pattern == [] {
      return false, [], 0;
    }
    var t, p := Normalize(text, caseSensitive), Normalize(pattern, caseSensitive);
    var n, m := |t|, |p|;
    positions, comparisons := [], 0;
    if m > n {
      return false, [], 0;
    }
    var h := HashPower(m, prime);
    var patternHash, textHash := InitialHashes(t, p, prime);
    assert t[..m] == t[0..0 + m];
    for i := 0 to n - m + 1
      invariant patternHash == Hash(p, prime)
      invariant i <= n - m ==> textHash == WindowHash(t, i, m, prime)
      invariant positions == OccurrencesBelow(t, p, i)
      invariant comparisons == VerifyCost(t, p, prime, i)
    {
      positions, comparisons :=
        CheckWindow(t, p, prime, i, m, patternHash, textHash, positions, comparisons);
      if i < n - m {
        textHash := RollHash(t, i, m, prime, textHash, h);
      }
    }
    assert positions == Occurrences(t, p);
    found := |positions| > 0;
  }

  /** Comparisons of searching each of `patterns` in turn with the default modulus, repeated
      patterns counted each time. */
  function TotalComparisons(text: string, patterns: seq<string>, caseSensitive: bool): nat {
    if patterns == [] then 0
    else
      TotalComparisons(text, patterns[..|patterns| - 1], caseSensitive)
      + SearchResult(text, patterns[|patterns| - 1], caseSensitive, DefaultPrime).comparisons
  }

  /** Searching one more pattern adds its own comparisons to the total. */
  lemma TotalComparisonsGrows(text: string, patterns: seq<string>, k: nat, caseSensitive: bool)
    requires k < |patterns|
    ensures TotalComparisons(text, patterns[..k + 1], caseSensitive)
      == TotalComparisons(text, patterns[..k], caseSensitive)
         + SearchResult(text, patterns[k], caseSensitive, DefaultPrime).comparisons
  {
    assert patterns[..k + 1][..k] == patterns[..k];
  }

  /** The entry `search_multiple` stores for each pattern. */
  function EntryFor(text: string, caseSensitive: bool): string -> Entry {
    key => EntryOf(SearchResult(text, key, caseSensitive, DefaultPrime))
  }

  /** One round of the loop of `search_multiple`: search the next pattern, add its comparisons to
      the total and store its entry under it. */
  method SearchNext(text: string, patterns: seq<string>, k: nat, caseSensitive: bool,
                    results: seq<(string, Entry)>, totalComparisons: nat)
    returns (results': seq<(string, Entry)>, totalComparisons': nat)
    requires k < |patterns|
    requires Keys(results) == FirstOccurrences(patterns[..k])
    requires Agrees(results, EntryFor(text, caseSensitive))
    requires totalComparisons == TotalComparisons(text, patterns[..k], caseSensitive)
    ensures Keys(results') == FirstOccurrences(patterns[..k + 1])
    ensures Agrees(results', EntryFor(text, caseSensitive))
    ensures totalComparisons' == TotalComparisons(text, patterns[..k + 1], caseSensitive)
  {
    var pattern := patterns[k];
    var found, positions, comparisons := Search(text, pattern, caseSensitive, DefaultPrime);
    ghost var r := SearchResult(text, pattern, caseSensitive, DefaultPrime);
    assert found == r.found && positions == r.positions && comparisons == r.comparisons;
    TotalComparisonsGrows(text, patterns, k, caseSensitive);
    var entry := Entry(found, positions, |positions|, comparisons);
    PutAgrees(results, pattern, entry, EntryFor(text, caseSensitive));
    PutKeys(results, patterns, k, entry);
    results' := Put(results, pattern, entry);
    totalComparisons' := totalComparisons + comparisons;
  }

  /** `RabinKarp.search_multiple`: one search per pattern with the default modulus, results keyed
      by pattern in order of first appearance, and the running total of comparisons. */
  method SearchMultiple(text: string, patterns: seq<string>, caseSensitive: bool)
    returns (results: seq<(string, Entry)>, totalComparisons: nat)
    ensures Keys(results) == FirstOccurrences(patterns)
    ensures forall i :: 0 <= i < |results| ==>
      results[i].1 == EntryOf(SearchResult(text, results[i].0, caseSensitive, DefaultPrime))
    ensures forall i :: 0 <= i < |results| ==>
      results[i].1.occurrences == |results[i].1.positions|
    ensures totalComparisons == TotalComparisons(text, patterns, caseSensitive)
  {
    results, totalComparisons := [], 0;
    for k := 0 to |patterns|
      invariant Keys(results) == FirstOccurrences(patterns[..k])
      invariant Agrees(results, EntryFor(text, caseSensitive))
      invariant totalComparisons == TotalComparisons(text, patterns[..k], caseSensitive)
    {
      results, totalComparisons :=
        SearchNext(text, patterns, k, caseSensitive, results, totalComparisons);
    }
    assert patterns[..|patterns|] == patterns;
  }
}
