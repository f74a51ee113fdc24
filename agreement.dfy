/** How the matchers relate to one another: they report the same positions, Rabin-Karp never
    makes more character tests than brute force, the inlined matchers count as the standalone ones
    do up to their documented differences, and the example the matchers' demos search. */
module Agreement {
  import opened Chars
  import opened Matching
  import BruteForce
  import Kmp
  import RabinKarp
  import EnhancedBruteForce
  import EnhancedKmp
  import EnhancedRabinKarp

  /** The three standalone matchers report the same positions, overlapping ones included, for
      any text, pattern, case policy and positive modulus. */
  lemma StandaloneMatchersAgree(text: string, pattern: string, caseSensitive: bool, prime: int)
    requires prime > 0
    ensures var bf := BruteForce.SearchResult(text, pattern, caseSensitive);
      && Kmp.SearchResult(text, pattern, caseSensitive).positions == bf.positions
      && RabinKarp.SearchResult(text, pattern, caseSensitive, prime).positions == bf.positions
      && Kmp.SearchResult(text, pattern, caseSensitive).found == bf.found
      && RabinKarp.SearchResult(text, pattern, caseSensitive, prime).found == bf.found
  {
    var bf := BruteForce.SearchResult(text, pattern, caseSensitive);
    AscendingUnique(Kmp.SearchResult(text, pattern, caseSensitive).positions, bf.positions);
    AscendingUnique(RabinKarp.SearchResult(text, pattern, caseSensitive, prime).positions, bf.positions);
  }

  /** For a non-empty pattern the inlined brute force and KMP report what the standalone brute
      force reports, and so does the inlined Rabin-Karp when the pattern fits in the text. */
  lemma InlinedMatchersAgree(text: string, pattern: string, caseSensitive: bool)
    requires pattern != []
    ensures var bf := BruteForce.SearchResult(text, pattern, caseSensitive);
      && EnhancedBruteForce.SearchResult(text, pattern, caseSensitive).positions == bf.positions
      && EnhancedKmp.SearchResult(text, pattern, caseSensitive).positions == bf.positions
      && (|pattern| <= |text| ==>
           EnhancedRabinKarp.SearchResult(text, pattern, caseSensitive)
           == EnhancedRabinKarp.Returned(MatchResult(bf.found, bf.positions,
                EnhancedRabinKarp.SearchResult(text, pattern, caseSensitive).result.comparisons)))
  {
    var bf := BruteForce.SearchResult(text, pattern, caseSensitive);
    EnhancedBruteForce.SearchResultSpec(text, pattern, caseSensitive);
    EnhancedKmp.SearchResultSpec(text, pattern, caseSensitive);
    AscendingUnique(EnhancedBruteForce.SearchResult(text, pattern, caseSensitive).positions, bf.positions);
    AscendingUnique(EnhancedKmp.SearchResult(text, pattern, caseSensitive).positions, bf.positions);
    if |pattern| <= |text| {
      EnhancedRabinKarp.SearchResultOfPattern(text, pattern, caseSensitive);
    }
  }

  /** Rabin-Karp verifies only the windows whose hash matches, so it never makes more character
      tests than brute force, which compares every window. */
  lemma RabinKarpAtMostBruteForce(text: string, pattern: string, caseSensitive: bool, prime: int)
    requires prime > 0
    ensures RabinKarp.SearchResult(text, pattern, caseSensitive, prime).comparisons
      <= BruteForce.SearchResult(text, pattern, caseSensitive).comparisons
  {
    if text != [] && pattern != [] && |pattern| <= |text| {
      var t, p := Normalize(text, caseSensitive), Normalize(pattern, caseSensitive);
      RabinKarp.VerifyCostAtMostNaive(t, p, prime, |t| - |p| + 1);
    }
  }

  /** The inlined Rabin-Karp counts one comparison per window on top of the verification tests
      that rabin_karp.py counts with the same modulus, and the inlined brute force counts what
      brute_force.py counts whenever neither input is empty. */
  lemma InlinedComparisons(text: string, pattern: string, caseSensitive: bool)
    requires pattern != []
    ensures text != [] ==>
      EnhancedBruteForce.SearchResult(text, pattern, caseSensitive).comparisons
      == BruteForce.SearchResult(text, pattern, caseSensitive).comparisons
    ensures |pattern| <= |text| ==>
      EnhancedRabinKarp.SearchResult(text, pattern, caseSensitive).result.comparisons
      == |text| - |pattern| + 1
         + RabinKarp.SearchResult(text, pattern, caseSensitive, EnhancedRabinKarp.Prime).comparisons
  {
    if |pattern| <= |text| {
      EnhancedRabinKarp.SearchResultOfPattern(text, pattern, caseSensitive);
    }
  }

  /** The demos' text written over four letters: "ABABDABACDABABCABAB" in upper case. */
  function FixtureText(a: char, b: char, c: char, d: char): string {
    [a, b, a, b, d, a, b, a, c, d, a, b, a, b, c, a, b, a, b]
  }

  /** The demos' pattern written over the same letters: "ABABC" in upper case. */
  function FixturePattern(a: char, b: char, c: char): string {
    [a, b, a, b, c]
  }

  /** Whatever four distinct letters spell it, the demos' pattern occurs in their text only at
      offset 10. */
  lemma FixtureOccurrences(a: char, b: char, c: char, d: char)
    requires a != b && a != c && a != d && b != c && c != d
    ensures forall k: nat :: MatchAt(FixtureText(a, b, c, d), FixturePattern(a, b, c), k) <==> k == 10
  {
    var t, p := FixtureText(a, b, c, d), FixturePattern(a, b, c);
    assert t[10..15] == p;
    forall k: nat | k != 10 ensures !MatchAt(t, p, k) {
      if k == 0 {
        WindowMismatch(t, p, 0, 4);
      } else if k == 1 {
        WindowMismatch(t, p, 1, 0);
      } else if k == 2 {
        WindowMismatch(t, p, 2, 2);
      } else if k == 3 {
        WindowMismatch(t, p, 3, 0);
      } else if k == 4 {
        WindowMismatch(t, p, 4, 0);
      } else if k == 5 {
        WindowMismatch(t, p, 5, 3);
      } else if k == 6 {
        WindowMismatch(t, p, 6, 0);
      } else if k == 7 {
        WindowMismatch(t, p, 7, 1);
      } else if k == 8 {
        WindowMismatch(t, p, 8, 0);
      } else if k == 9 {
        WindowMismatch(t, p, 9, 0);
      } else if k == 11 {
        WindowMismatch(t, p, 11, 0);
      } else if k == 12 {
        WindowMismatch(t, p, 12, 2);
      } else if k == 13 {
        WindowMismatch(t, p, 13, 0);
      } else if k == 14 {
        WindowMismatch(t, p, 14, 0);
      }
    }
  }

  /** Under either case policy the demos search "ABABC" in "ABABDABACDABABCABAB" as written, or
      both lowered; either way the only occurrence is at offset 10. */
  lemma DemoOccurrences(caseSensitive: bool)
    ensures forall k: nat ::
      MatchAt(Normalize("ABABDABACDABABCABAB", caseSensitive), Normalize("ABABC", caseSensitive), k)
      <==> k == 10
  {
    if caseSensitive {
      assert "ABABDABACDABABCABAB" == FixtureText('A', 'B', 'C', 'D');
      assert "ABABC" == FixturePattern('A', 'B', 'C');
      FixtureOccurrences('A', 'B', 'C', 'D');
    } else {
      assert Lower("ABABDABACDABABCABAB") == FixtureText('a', 'b', 'c', 'd');
      assert Lower("ABABC") == FixturePattern('a', 'b', 'c');
      FixtureOccurrences('a', 'b', 'c', 'd');
    }
  }

  /** A window that differs from the pattern in one character is no occurrence. */
  lemma WindowMismatch(t: string, p: string, k: nat, j: nat)
    requires k + |p| <= |t| && j < |p| && t[k + j] != p[j]
    ensures !MatchAt(t, p, k)
  {
    assert t[k..k + |p|][j] == t[k + j];
  }

  /** Every standalone matcher reports offset 10 alone for the demos' example, both with the
      default case policy the demos use (case-insensitive, modulus 101 for Rabin-Karp) and
      case-sensitively, for any positive modulus. */
  lemma DemoExample(caseSensitive: bool, prime: int)
    requires prime > 0
    ensures BruteForce.SearchResult("ABABDABACDABABCABAB", "ABABC", caseSensitive).positions == [10]
    ensures Kmp.SearchResult("ABABDABACDABABCABAB", "ABABC", caseSensitive).positions == [10]
    ensures RabinKarp.SearchResult("ABABDABACDABABCABAB", "ABABC", caseSensitive, prime).positions
      == [10]
  {
    var t: string, p: string := "ABABDABACDABABCABAB", "ABABC";
    DemoOccurrences(caseSensitive);
    AscendingUnique(BruteForce.SearchResult(t, p, caseSensitive).positions, [10]);
    StandaloneMatchersAgree(t, p, caseSensitive, prime);
  }

  /** The inlined Rabin-Karp with the empty pattern on "a": the rolling update moves the hash of
      the second (empty) window to 10 while the pattern's hash is 0, so only offset 0 is
      recorded, whereas the inlined brute force reports both offsets. */
  lemma EmptyPatternDrift()
    ensures EnhancedRabinKarp.SearchResult("a", "", true)
      == EnhancedRabinKarp.Returned(MatchResult(true, [0], 2))
    ensures EnhancedBruteForce.SearchResult("a", "", true).positions == [0, 1]
  {
    var t: string := "a";
    var p: string := [];
    assert EnhancedRabinKarp.RollingHash(t, 0, 1) == 10;
    assert !EnhancedRabinKarp.Recorded(t, p, 1);
    EnhancedRabinKarp.SearchResultOfEmptyPattern(t, true);
    EnhancedBruteForce.SearchResultSpec(t, p, true);
    assert seq(|t| + 1, k requires 0 <= k <= |t| => k) == [0, 1];
  }
}
