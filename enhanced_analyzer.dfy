/** The pure helpers of cv_analyzer_enhanced.py's `EnhancedCVAnalyzer` — keyword extraction from
    a job description, preprocessing and the similarity score — and the loop of `analyze_cv` that
    splits the search results into matched and missing keywords. */
module EnhancedAnalyzer {
  import opened Chars
  import opened Matching
  import opened Dict
  import TextProcessor
  import EnhancedKmp

  // Preprocessing and similarity

  /** `EnhancedCVAnalyzer.preprocess_text`: nothing for an empty text, otherwise the words of the
      lowered text joined by single spaces. */
  function PreprocessText(text: string): string {
    if text == [] then [] else TextProcessor.Join(TextProcessor.Words(Lower(text)))
  }

  /** The analyzer's preprocessing maps "" to "", yields a lower-case text of words separated by
      single spaces with no whitespace at either end, keeps the words of the lowered text, and
      agrees with text_processor.py's `preprocess_text`. */
  lemma PreprocessTextSpec(text: string)
    ensures text == [] ==> PreprocessText(text) == []
    ensures IsLowerCase(PreprocessText(text)) && TextProcessor.Canonical(PreprocessText(text))
    ensures TextProcessor.Words(PreprocessText(text)) == TextProcessor.Words(Lower(text))
    ensures PreprocessText(text) == TextProcessor.PreprocessText(text)
  {
    TextProcessor.PreprocessTextShape(text);
    TextProcessor.PreprocessTextKeepsWords(text);
  }

  /** `EnhancedCVAnalyzer.calculate_similarity`: the matched share as a percentage, 0 when there
      is nothing to match. */
  function CalculateSimilarity(matchedCount: int, totalCount: int): real {
    if totalCount == 0 then 0.0 else (matchedCount as real / totalCount as real) * 100.0
  }

  /** No keywords score 0; a share of them scores between 0 and 100, and 100 exactly when all
      matched; the analyzer's score agrees with text_processor.py's. */
  lemma CalculateSimilaritySpec(matchedCount: int, totalCount: int)
    ensures totalCount == 0 ==> CalculateSimilarity(matchedCount, totalCount) == 0.0
    ensures 0 <= matchedCount <= totalCount ==>
      0.0 <= CalculateSimilarity(matchedCount, totalCount) <= 100.0
    ensures totalCount != 0 ==>
      (CalculateSimilarity(matchedCount, totalCount) == 100.0 <==> matchedCount == totalCount)
    ensures CalculateSimilarity(matchedCount, totalCount)
      == TextProcessor.CalculateSimilarity(matchedCount, totalCount)
  {
    TextProcessor.CalculateSimilaritySpec(matchedCount, totalCount);
  }

  // Keywords of a job description

  /** Length of the first line of `s`: the characters before its first newline. */
  function LineLength(s: string): (n: nat)
    ensures n <= |s|
    ensures forall k :: 0 <= k < n ==> s[k] != '\n'
    ensures n < |s| ==> s[n] == '\n'
  {
    if s == [] || s[0] == '\n' then 0 else 1 + LineLength(s[1..])
  }

  /** `s.split('\n')`: the pieces between the newlines, empty ones included. */
  function Lines(s: string): seq<string>
    decreases |s|
  {
    if LineLength(s) == |s| then [s]
    else [s[..LineLength(s)]] + Lines(s[LineLength(s) + 1..])
  }

  /** `'\n'.join(lines)`. */
  function JoinLines(lines: seq<string>): string {
    if lines == [] then []
    else if |lines| == 1 then lines[0]
    else lines[0] + ['\n'] + JoinLines(lines[1..])
  }

  /** A line holds no newline. */
  predicate IsLine(line: string) {
    forall k :: 0 <= k < |line| ==> line[k] != '\n'
  }

  /** Splitting at newlines gives at least one line, and none of them holds a newline. */
  lemma {:induction false} LinesAreLines(s: string)
    ensures Lines(s) != []
    ensures forall i :: 0 <= i < |Lines(s)| ==> IsLine(Lines(s)[i])
    decreases |s|
  {
    var n := LineLength(s);
    if n < |s| {
      LinesAreLines(s[n + 1..]);
      assert IsLine(s[..n]);
    }
  }

  /** Joining the lines of a text with newlines gives the text back. */
  lemma {:induction false} LinesRoundTrip(s: string)
    ensures JoinLines(Lines(s)) == s
    decreases |s|
  {
    var n := LineLength(s);
    if n < |s| {
      var line, rest := s[..n], s[n + 1..];
      LinesRoundTrip(rest);
      LinesAreLines(rest);
      JoinLinesCons(line, Lines(rest));
      assert s == line + ['\n'] + rest;
    }
  }

  /** Joining a line in front of further lines puts one newline between them. */
  lemma JoinLinesCons(line: string, lines: seq<string>)
    requires lines != []
    ensures JoinLines([line] + lines) == line + ['\n'] + JoinLines(lines)
  {
    assert ([line] + lines)[1..] == lines;
  }

  /** Joining lines with newlines and splitting again gives the lines back. */
  lemma {:induction false} LinesOfJoin(lines: seq<string>)
    requires lines != [] && forall i :: 0 <= i < |lines| ==> IsLine(lines[i])
    ensures Lines(JoinLines(lines)) == lines
  {
    var s := JoinLines(lines);
    var line := lines[0];
    if |lines| == 1 {
      assert LineLength(s) == |line|;
    } else {
      var rest := JoinLines(lines[1..]);
      assert s == line + ['\n'] + rest;
      assert s[..|line|] == line;
      assert s[|line| + 1..] == rest;
      assert LineLength(s) == |line| by {
        assert s[|line|] == '\n';
      }
      LinesOfJoin(lines[1..]);
      assert lines == [line] + lines[1..];
    }
  }

  /** The lines that are not blank, stripped and lowered, in order. */
  function KeepKeywords(lines: seq<string>): seq<string> {
    if lines == [] then []
    else
      var rest := KeepKeywords(lines[1..]);
      var line := TextProcessor.Strip(lines[0]);
      if line != [] then [Lower(line)] + rest else rest
  }

  /** The keyword list `load_job_description` builds from the text of a job description: every
      line that is not blank, stripped and lowered, in order. */
  function Keywords(jobText: string): seq<string> {
    KeepKeywords(Lines(jobText))
  }

  /** A single line yields its lowered, stripped form when that is not empty, and nothing
      otherwise. */
  lemma KeepKeywordsOne(line: string)
    ensures KeepKeywords([line])
      == if TextProcessor.Strip(line) != [] then [Lower(TextProcessor.Strip(line))] else []
  {
    assert [line][1..] == [];
  }

  /** The keywords of consecutive lines come one after another, in line order, a repeated line
      giving a repeated keyword. */
  lemma {:induction false} KeepKeywordsAppend(a: seq<string>, b: seq<string>)
    ensures KeepKeywords(a + b) == KeepKeywords(a) + KeepKeywords(b)
  {
    if a == [] {
      assert a + b == b;
    } else {
      assert (a + b)[0] == a[0];
      assert (a + b)[1..] == a[1..] + b;
      KeepKeywordsAppend(a[1..], b);
    }
  }

  /** A string is kept exactly when it is the lowered, stripped form of a line that is not
      blank. */
  lemma {:induction false} KeepKeywordsSpec(lines: seq<string>)
    ensures forall x :: x in KeepKeywords(lines) <==> exists i :: (0 <= i < |lines|
      && TextProcessor.Strip(lines[i]) != [] && Lower(TextProcessor.Strip(lines[i])) == x)
  {
    if lines != [] {
      KeepKeywordsSpec(lines[1..]);
      forall x | exists i :: (0 <= i < |lines|
        && TextProcessor.Strip(lines[i]) != [] && Lower(TextProcessor.Strip(lines[i])) == x)
        ensures x in KeepKeywords(lines)
      {
        var i :| 0 <= i < |lines|
          && TextProcessor.Strip(lines[i]) != [] && Lower(TextProcessor.Strip(lines[i])) == x;
        if i > 0 {
          assert lines[1..][i - 1] == lines[i];
        }
      }
      forall x | x in KeepKeywords(lines[1..])
        ensures exists i :: (0 <= i < |lines|
          && TextProcessor.Strip(lines[i]) != [] && Lower(TextProcessor.Strip(lines[i])) == x)
      {
        var i :| 0 <= i < |lines[1..]| && TextProcessor.Strip(lines[1..][i]) != []
          && Lower(TextProcessor.Strip(lines[1..][i])) == x;
        assert lines[i + 1] == lines[1..][i];
      }
    }
  }

  /** The stripped, lowered form of a line that is not blank is a keyword: non-empty, lower
      case, without a newline and without whitespace at either end. */
  lemma KeywordOfLine(line: string)
    requires IsLine(line) && TextProcessor.Strip(line) != []
    ensures var x := Lower(TextProcessor.Strip(line));
      x != [] && IsLowerCase(x) && IsLine(x) && !IsSpace(x[0]) && !IsSpace(x[|x| - 1])
  {
    var stripped := TextProcessor.Strip(line);
    var x := Lower(stripped);
    TextProcessor.StripSpec(line);
    LowerIsLowerCase(stripped);
    var i := TextProcessor.SpanLength(line, true);
    forall k | 0 <= k < |x| ensures x[k] != '\n' {
      assert x[k] == LowerChar(stripped[k]);
      assert stripped[k] == line[i + k];
    }
    LowerKeepsSpace(stripped[0]);
    LowerKeepsSpace(stripped[|stripped| - 1]);
    assert x[0] == LowerChar(stripped[0]);
    assert x[|x| - 1] == LowerChar(stripped[|stripped| - 1]);
  }

  /** The keywords are exactly the lowered, stripped lines of the job text that are not blank,
      and each is non-empty, lower case, a single line, and without whitespace at either end. */
  lemma KeywordsSpec(jobText: string)
    ensures forall x :: x in Keywords(jobText) <==> exists i :: (0 <= i < |Lines(jobText)|
      && TextProcessor.Strip(Lines(jobText)[i]) != []
      && Lower(TextProcessor.Strip(Lines(jobText)[i])) == x)
    ensures forall x :: x in Keywords(jobText) ==>
      x != [] && IsLowerCase(x) && IsLine(x) && !IsSpace(x[0]) && !IsSpace(x[|x| - 1])
  {
    var lines := Lines(jobText);
    KeepKeywordsSpec(lines);
    LinesAreLines(jobText);
    forall x | x in Keywords(jobText)
      ensures x != [] && IsLowerCase(x) && IsLine(x) && !IsSpace(x[0]) && !IsSpace(x[|x| - 1])
    {
      var i :| 0 <= i < |lines|
        && TextProcessor.Strip(lines[i]) != [] && Lower(TextProcessor.Strip(lines[i])) == x;
      KeywordOfLine(lines[i]);
    }
  }

  // Matched and missing keywords

  /** One item of `matched_keywords`. */
  datatype MatchedKeyword = MatchedKeyword(keyword: string, occurrences: nat, positions: seq<nat>)

  /** The item `analyze_cv` records for a keyword that was found. */
  function MatchedKeywordOf(item: (string, KeywordEntry)): MatchedKeyword {
    MatchedKeyword(item.0, item.1.occurrences, item.1.positions)
  }

  /** The found keywords of `results`, in order. */
  function MatchedOf(results: seq<(string, KeywordEntry)>): seq<MatchedKeyword> {
    if results == [] then []
    else
      var last := results[|results| - 1];
      MatchedOf(results[..|results| - 1]) + if last.1.found then [MatchedKeywordOf(last)] else []
  }

  /** The keywords of `results` that were not found, in order. */
  function MissingOf(results: seq<(string, KeywordEntry)>): seq<string> {
    if results == [] then []
    else
      var last := results[|results| - 1];
      MissingOf(results[..|results| - 1]) + if last.1.found then [] else [last.0]
  }

  /** The loop of `analyze_cv` over `results.items()`: a found keyword is counted and recorded
      with its occurrences and positions, any other is recorded as missing. */
  method Partition(results: seq<(string, KeywordEntry)>)
    returns (matchedCount: nat, matched: seq<MatchedKeyword>, missing: seq<string>)
    ensures matched == MatchedOf(results) && missing == MissingOf(results)
    ensures matchedCount == |matched|
  {
    matchedCount, matched, missing := 0, [], [];
    for i := 0 to |results|
      invariant matched == MatchedOf(results[..i]) && missing == MissingOf(results[..i])
      invariant matchedCount == |matched|
    {
      var (keyword, result) := results[i];
      PrefixGrows(results, i);
      assert results[..i + 1][..i] == results[..i];
      if result.found {
        matchedCount := matchedCount + 1;
        matched := matched + [MatchedKeyword(keyword, result.occurrences, result.positions)];
      } else {
        missing := missing + [keyword];
      }
    }
    assert results[..|results|] == results;
  }

  /** Every result lands in `matched_keywords` when it was found and in `missing_keywords`
      otherwise, and nothing else lands in either. */
  lemma {:induction false} PartitionSpec(results: seq<(string, KeywordEntry)>)
    ensures |MatchedOf(results)| + |MissingOf(results)| == |results|
    ensures forall i :: 0 <= i < |results| && results[i].1.found ==>
      MatchedKeywordOf(results[i]) in MatchedOf(results)
    ensures forall i :: 0 <= i < |results| && !results[i].1.found ==>
      results[i].0 in MissingOf(results)
    ensures forall m :: m in MatchedOf(results) ==>
      exists i :: 0 <= i < |results| && results[i].1.found && MatchedKeywordOf(results[i]) == m
    ensures forall key :: key in MissingOf(results) ==>
      exists i :: 0 <= i < |results| && !results[i].1.found && results[i].0 == key
  {
    if results != [] {
      var init := results[..|results| - 1];
      PartitionSpec(init);
      forall m | m in MatchedOf(init)
        ensures exists i :: 0 <= i < |results| && results[i].1.found && MatchedKeywordOf(results[i]) == m
      {
        var i :| 0 <= i < |init| && init[i].1.found && MatchedKeywordOf(init[i]) == m;
        assert results[i] == init[i];
      }
      forall key | key in MissingOf(init)
        ensures exists i :: 0 <= i < |results| && !results[i].1.found && results[i].0 == key
      {
        var i :| 0 <= i < |init| && !init[i].1.found && init[i].0 == key;
        assert results[i] == init[i];
      }
      forall i | 0 <= i < |results| - 1
        ensures results[i].1.found ==> MatchedKeywordOf(results[i]) in MatchedOf(results)
        ensures !results[i].1.found ==> results[i].0 in MissingOf(results)
      {
        assert results[i] == init[i];
      }
    }
  }

  /** With distinct keys, as a dict has, no keyword is both matched and missing. */
  lemma PartitionDisjoint(results: seq<(string, KeywordEntry)>)
    requires Distinct(Keys(results))
    ensures forall m :: m in MatchedOf(results) ==> m.keyword !in MissingOf(results)
  {
    PartitionSpec(results);
    forall m | m in MatchedOf(results) ensures m.keyword !in MissingOf(results) {
      var i :| 0 <= i < |results| && results[i].1.found && MatchedKeywordOf(results[i]) == m;
      forall j | 0 <= j < |results| && results[j].0 == m.keyword ensures results[j].1.found {
        assert Keys(results)[i] == Keys(results)[j];
      }
    }
  }

  /** The score of `analyze_cv`: the matched count over the number of job keywords, repeated
      keywords included. */
  function Score(matchedCount: nat, jobKeywords: seq<string>): real {
    CalculateSimilarity(matchedCount, |jobKeywords|)
  }

  /** For results keyed by the job keywords, as `search_multiple` returns them, the score lies
      between 0 and 100; it is 100 exactly when there are keywords and each of them counts as a
      distinct match, so a repeated keyword keeps it below 100, and distinct keywords that are all
      found reach it. */
  lemma ScoreSpec(results: seq<(string, KeywordEntry)>, jobKeywords: seq<string>)
    requires Keys(results) == FirstOccurrences(jobKeywords)
    ensures 0.0 <= Score(|MatchedOf(results)|, jobKeywords) <= 100.0
    ensures Score(|MatchedOf(results)|, jobKeywords) == 100.0 <==>
      jobKeywords != [] && |MatchedOf(results)| == |jobKeywords|
    ensures (exists i, j :: 0 <= i < j < |jobKeywords| && jobKeywords[i] == jobKeywords[j]) ==>
      Score(|MatchedOf(results)|, jobKeywords) < 100.0
    ensures (jobKeywords != [] && Distinct(jobKeywords)
      && (forall i :: 0 <= i < |results| ==> results[i].1.found)) ==>
      Score(|MatchedOf(results)|, jobKeywords) == 100.0
  {
    var matched := |MatchedOf(results)|;
    PartitionSpec(results);
    CalculateSimilaritySpec(matched, |jobKeywords|);
    if exists i, j :: 0 <= i < j < |jobKeywords| && jobKeywords[i] == jobKeywords[j] {
      var i, j :| 0 <= i < j < |jobKeywords| && jobKeywords[i] == jobKeywords[j];
      FirstOccurrencesShorter(jobKeywords, i, j);
    }
    if jobKeywords != [] && Distinct(jobKeywords)
      && (forall i :: 0 <= i < |results| ==> results[i].1.found) {
      FirstOccurrencesOfDistinct(jobKeywords);
      if MissingOf(results) != [] {
        assert MissingOf(results)[0] in MissingOf(results);
      }
    }
  }

  /** With the default KMP matcher, a job keyword ends up missing exactly when it is empty or
      does not occur in the normalized text. */
  lemma MissingUnderKmp(text: string, jobKeywords: seq<string>, caseSensitive: bool,
                        results: seq<(string, KeywordEntry)>)
    requires Keys(results) == FirstOccurrences(jobKeywords)
    requires forall i :: 0 <= i < |results| ==>
      results[i].1 == KeywordEntryOf(EnhancedKmp.SearchResult(text, results[i].0, caseSensitive))
    ensures forall key :: key in jobKeywords ==> (key in MissingOf(results) <==>
      key == [] || forall k: nat :: !MatchAt(Normalize(text, caseSensitive), Normalize(key, caseSensitive), k))
  {
    PartitionSpec(results);
    forall key | key in jobKeywords
      ensures key in MissingOf(results) <==>
        key == [] || forall k: nat :: !MatchAt(Normalize(text, caseSensitive), Normalize(key, caseSensitive), k)
    {
      assert key in Keys(results);
      var i :| 0 <= i < |results| && Keys(results)[i] == key;
      EnhancedKmp.SearchResultSpec(text, key, caseSensitive);
      var r := EnhancedKmp.SearchResult(text, key, caseSensitive);
      if key in MissingOf(results) {
        var j :| 0 <= j < |results| && !results[j].1.found && results[j].0 == key;
        assert Keys(results)[i] == Keys(results)[j];
        assert !r.found;
        forall k: nat ensures key == [] || !MatchAt(Normalize(text, caseSensitive), Normalize(key, caseSensitive), k) {
          assert k !in r.positions;
        }
      } else {
        assert results[i].1.found;
        assert r.positions[0] in r.positions;
      }
    }
  }
}
