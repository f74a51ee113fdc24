# CV-Analyzer string matchers and text helpers in Dafny

This project models the verifiable core of CV-Analyzer, a tool that ranks CVs against the keyword
lines of a job description. It covers the following parts.

- **The three exact string matchers** of `brute_force.py`, `kmp.py` and `rabin_karp.py`. Each has
  `search(text, pattern, case_sensitive)`, which returns `(found, positions, comparisons)`, and
  `search_multiple`, which runs `search` once per keyword.
- **The second, inlined copy of the matchers** in `cv_analyzer_enhanced.py`. Its guards and its
  comparison counting differ from the standalone copy.
- **The pure helpers of `cv_analyzer_enhanced.py`**: `preprocess_text`, `calculate_similarity`, the
  keyword-line expression of `load_job_description`, and the loop that splits the search results
  into matched and missing keywords and scores them.
- **`TextProcessor` in `text_processor.py`**: `preprocess_text`, `clean_text`,
  `extract_sentences` and `calculate_similarity`.

Each source file has its own module. Each matcher is a Dafny `method` with the loops of the source.
It is proved equal to a specification function (`SearchResult`), and that function's contract or
`*Spec` lemma states what the result means:

- the reported offsets are exactly the occurrences, ascending;
- `found` is true exactly when an offset is reported;
- the comparison count is exact, with bounds proved on it.

Shared specification modules:

- `Chars`: ASCII lowering and Python's whitespace class.
- `Matching`: what an occurrence is and the cost of the naive scan.
- `Borders`: longest proper borders (the LPS table) and one step of the KMP scan.
- `PolyHash`: the base-256 polynomial hash and its rolling update.
- `Dict`: a Python dict as an insertion-ordered association list.

`Agreement` relates the engines to each other and pins down the fixture used by the demos.

Python dicts become association lists. `Dict.Put` updates an existing key in place and appends a
new key, so `Keys(results)` is the list of first occurrences of the patterns, in order.

## Model

| member | source | states |
|---|---|---|
| Chars.Lower | text_processor.py:23 | Models `str.lower()` character by character; `LowerIsLowerCase` and `LowerOfLowerCase` state its meaning. |
| Chars.Normalize | brute_force.py:26-28 | The case policy of every search: the text as given when case-sensitive, lowered otherwise, and never a change of length. |
| Chars.IsSpace | text_processor.py:26 | The whitespace class shared by `str.split()`, `str.strip()` and `\s`; `LowerKeepsSpace` relates it to lowering. |
| Chars.LowerChar | brute_force.py:26-28 | Lowering maps exactly 'A'..'Z' to 'a'..'z' and keeps every other character. |
| Chars.LowerIsLowerCase | text_processor.py:23 | Lowering keeps the length and leaves no upper-case letter. |
| Chars.LowerOfLowerCase | text_processor.py:23 | Lowering a string with no upper-case letter changes nothing. |
| Chars.LowerKeepsSpace | text_processor.py:23-26 | Lowering a character neither makes nor unmakes whitespace. |
| Matching.OccurrencesBelowSpec | brute_force.py:35-44 | The offsets recorded below a bound are exactly the occurrences below it, each once, ascending. |
| Matching.Occurrences | brute_force.py:35-44 | An offset is listed iff the pattern occurs there, overlaps included; the list ascends. |
| Matching.AscendingUnique | brute_force.py:43-44 | Two ascending lists with the same members are equal, so every engine's position list is determined by its occurrence set. |
| Matching.OccurrencesOfLongerPattern | rabin_karp.py:38-39 | A pattern longer than the text occurs nowhere. |
| Matching.OccurrencesOfEmptyPattern | cv_analyzer_enhanced.py:35-47 | The empty pattern occurs at every offset 0..n. |
| Matching.CommonPrefix | brute_force.py:37-41 | The returned length is a common prefix of the two strings, followed by a mismatch when neither string ends there. |
| Matching.WindowScanStops | brute_force.py:37-44 | A window scan that stops at a mismatch or at the end costs the matched prefix plus one, or m on a full match; it stops at m exactly when the pattern occurs there. |
| Matching.NaiveCostBounds | brute_force.py:35-41 | Scanning k windows costs at most k·m tests, and at least k when m > 0. |
| Matching.NaiveComparisonsBounds | brute_force.py:35-41 | The naive scan makes 0 tests when m > n; otherwise between n-m+1 (for m ≥ 1) and (n-m+1)·m. |
| Dict.Put | brute_force.py:66-71 | Assigning `results[key]` keeps the keys distinct: an existing key keeps its place and takes the new value, a new key is appended, and other entries are unchanged. |
| Dict.FirstOccurrences | brute_force.py:61-72 | The keys a dict ends with are distinct, are exactly the assigned keys, and are no more numerous. |
| Dict.FirstOccurrencesShorter | cv_analyzer_enhanced.py:52-65 | A repeated keyword makes the dict strictly shorter than the keyword list. |
| Dict.FirstOccurrencesOfDistinct | cv_analyzer_enhanced.py:52-65 | Distinct keywords each get their own entry, in order. |
| Dict.PutKeys | brute_force.py:64-71 | Each assignment extends the keys to the first occurrences of one more pattern. |
| Dict.PutAgrees | brute_force.py:64-71 | Storing the entry a search computes for its key keeps every entry equal to its key's search result. |
| BruteForce.CompareWindow | brute_force.py:37-41 | The inner loop stops at j == m exactly when the pattern occurs at i, and costs WindowCost. |
| BruteForce.SearchResult | brute_force.py:11-46 | Empty text or pattern gives (False, [], 0); otherwise an offset is reported iff the lowered (unless case-sensitive) pattern occurs there; positions ascend; found iff positions is non-empty; 0 tests when m > n, at most (n-m+1)·m otherwise. |
| BruteForce.Search | brute_force.py:11-46 | The loop returns exactly SearchResult. |
| BruteForce.TotalComparisonsGrows | brute_force.py:70-72 | Searching one more pattern adds its own comparison count to the total. |
| BruteForce.SearchNext | brute_force.py:61-72 | One round keeps the keys equal to the first occurrences, every entry equal to its search result, and the total equal to the sum so far. |
| BruteForce.SearchMultiple | brute_force.py:49-74 | The keys are the distinct patterns in first-seen order; each entry is the search result of its key with occurrences == len(positions); the total is the sum over all patterns, repeats included. |
| Borders.LongestBorderFromSpec | kmp.py:21-37 | Searching down from a bound no longer border exceeds finds the longest proper border. |
| Borders.LongestBorderSpec | kmp.py:21-37 | LongestBorder(p, len) is a proper border of p[..len], no border is longer, and it is < len. |
| Borders.LongestBorderUnique | kmp.py:21-37 | The longest border is unique. |
| Borders.LongestBorderOfNext | kmp.py:29-36 | When the border `length` extends by p[i], the next LPS entry is length+1; when length is 0 and cannot extend, it is 0. |
| Borders.FallBack | kmp.py:31-33 | Falling back to lps[length-1] skips no border that could extend. |
| Borders.LpsExtend | kmp.py:28-31 | The match branch of compute_lps keeps the table invariant. |
| Borders.LpsSettleZero | kmp.py:34-36 | The zero branch of compute_lps keeps the table invariant. |
| Borders.LpsFallBack | kmp.py:32-33 | The fall-back branch strictly decreases `length` and keeps the table invariant. |
| Borders.SlideToBorder | kmp.py:76-84 | Sliding the pattern to the longest border keeps the window agreeing and skips no occurrence. |
| Borders.FullMatchKeeps | kmp.py:74-78 | After a full match, reporting it and folding j to lps[m-1] keeps the scan invariant, so overlapping occurrences are found. |
| Borders.MismatchKeeps | kmp.py:79-82 | On a mismatch with j > 0, falling back to lps[j-1] keeps the scan invariant. |
| Borders.ScanStepKeeps | kmp.py:70-84 | Every loop iteration keeps text[i-j..i) == pattern[..j) and positions == the occurrences starting before i-j. |
| Borders.ScanStep | kmp.py:70-84 | One iteration keeps j < m and i ≤ n, advances i by at most one, and strictly increases 2i - j. |
| Borders.ScanCost | kmp.py:70-84 | The scan makes between n-i and 2(n-i)+j iterations, and with double counting at most twice that many comparisons. |
| Borders.ScanStepCost | kmp.py:71-80 | An iteration costs one comparison, or two when mismatches count twice and it takes the mismatch branch. |
| Kmp.ComputeLps | kmp.py:11-37 | The table has length m and lps[len-1] is the longest proper border of pattern[..len], hence lps[0] == 0 and lps[i] ≤ i. |
| Kmp.ScanOnce | kmp.py:71-84 | One iteration moves (i, j) as ScanStep says, appends i-j on a full match, and adds one comparison, or two on the mismatch branch. |
| Kmp.ScanText | kmp.py:70-84 | The scan loop reports exactly the occurrences and makes ScanCost comparisons. |
| Kmp.SearchResult | kmp.py:40-86 | Empty text or pattern gives (False, [], 0); otherwise exactly the occurrences, ascending, found iff non-empty, and between n and 4n comparisons. |
| Kmp.Search | kmp.py:40-86 | The method returns exactly SearchResult. |
| Kmp.TotalComparisonsGrows | kmp.py:108-112 | One more pattern adds its own comparisons to the total. |
| Kmp.SearchNext | kmp.py:101-112 | One round of search_multiple keeps keys, entries and the running total right. |
| Kmp.SearchMultiple | kmp.py:89-114 | The keys are the distinct patterns in order, each entry is its key's search result, and the total is the sum over all patterns. |
| PolyHash.Hash | rabin_karp.py:53-55 | The hash lies in [0, prime). |
| PolyHash.HornerStep | rabin_karp.py:53-55 | One Horner step modulo the prime gives the hash of the string extended by one character. |
| PolyHash.PowStep | rabin_karp.py:49-50 | One step of the h loop keeps h congruent to a power of 256. |
| PolyHash.PolyRoll | rabin_karp.py:73-76 | Over the integers, the next window's polynomial is 256·(window − leading·256^(m-1)) + next character. |
| PolyHash.RollStep | rabin_karp.py:73-78 | The rolling update modulo the prime yields the next window's hash, which is never negative. |
| RabinKarp.VerifyCostAtMostNaive | rabin_karp.py:60-66 | Verification tests never exceed the naive scan's tests. |
| RabinKarp.VerifyCostZero | rabin_karp.py:60-66 | For m ≥ 1, no tests are made iff no window's hash equals the pattern's hash. |
| RabinKarp.OccurrenceIsFullHit | rabin_karp.py:58-70 | An occurrence always has an equal hash, and its verification costs m tests. |
| RabinKarp.VerifyCostCoversOccurrences | rabin_karp.py:60-70 | The tests are at least m per occurrence. |
| RabinKarp.VerifyMiss | rabin_karp.py:60 | A window whose hash differs costs nothing and holds no occurrence. |
| RabinKarp.SearchResult | rabin_karp.py:13-80 | Empty text or pattern, or m > n, gives (False, [], 0); otherwise exactly the occurrences, ascending, found iff non-empty; comparisons ≥ m·len(positions). |
| RabinKarp.HashPower | rabin_karp.py:46-50 | After its loop, h ≡ 256^(m-1) modulo the prime, and h == 256^(m-1) % prime whenever the loop has run (m ≥ 2). |
| RabinKarp.InitialHashes | rabin_karp.py:53-55 | pattern_hash and text_hash are the hashes of the pattern and of text[..m]. |
| RabinKarp.VerifyWindow | rabin_karp.py:61-68 | The match flag is set iff the window equals the pattern, at WindowCost tests. |
| RabinKarp.CheckWindow | rabin_karp.py:60-70 | Processing window i extends the positions to the occurrences below i+1 and the count to the verification tests below i+1: no false positive, no miss. |
| RabinKarp.RollHash | rabin_karp.py:72-78 | The rolled hash is the hash of the next window; the negative-correction branch is unreachable. |
| RabinKarp.Search | rabin_karp.py:13-80 | The method returns exactly SearchResult for any positive prime. |
| RabinKarp.TotalComparisonsGrows | rabin_karp.py:102-106 | One more pattern adds its own comparisons, at prime 101, to the total. |
| RabinKarp.SearchNext | rabin_karp.py:95-106 | One round of search_multiple keeps keys, entries and the running total right. |
| RabinKarp.SearchMultiple | rabin_karp.py:83-108 | Every pattern is searched with prime 101; the keys are the distinct patterns, each entry is its key's result, and the total is the sum over all patterns. |
| EnhancedBruteForce.SearchResult | cv_analyzer_enhanced.py:29-49 | Models what the inlined brute force returns; `SearchResultSpec` states its meaning. |
| EnhancedBruteForce.SearchResultSpec | cv_analyzer_enhanced.py:29-49 | With no guard, the empty pattern is reported at every offset 0..n with no comparisons; an empty text gives (False, [], 0) for a non-empty pattern; otherwise exactly the occurrences, ascending, found iff non-empty, at most (n-m+1)·m tests. |
| EnhancedBruteForce.Search | cv_analyzer_enhanced.py:29-49 | The method returns exactly the specified result. |
| EnhancedBruteForce.TotalComparisonsGrows | cv_analyzer_enhanced.py:57-63 | One more pattern adds its own comparisons to the total. |
| EnhancedBruteForce.SearchNext | cv_analyzer_enhanced.py:57-63 | One round keeps keys, entries and the running total right. |
| EnhancedBruteForce.SearchMultiple | cv_analyzer_enhanced.py:52-65 | A repeated keyword gets one entry while its comparisons are added each time; each entry is its key's result. |
| EnhancedKmp.BuildLps | cv_analyzer_enhanced.py:70-86 | It builds the same table as kmp.py: lps[len-1] is the longest proper border of pattern[..len]. |
| EnhancedKmp.ScanOnce | cv_analyzer_enhanced.py:103-116 | One iteration moves (i, j) as ScanStep says and adds exactly one comparison. |
| EnhancedKmp.ScanText | cv_analyzer_enhanced.py:103-116 | The scan reports exactly the occurrences at one comparison per iteration. |
| EnhancedKmp.SearchResult | cv_analyzer_enhanced.py:89-118 | Models what the inlined KMP returns; `SearchResultSpec` states its meaning. |
| EnhancedKmp.SearchResultSpec | cv_analyzer_enhanced.py:89-118 | Empty text or pattern gives (False, [], 0); otherwise exactly the occurrences, ascending, found iff non-empty, and between n and 2n comparisons. |
| EnhancedKmp.Search | cv_analyzer_enhanced.py:89-118 | The method returns exactly the specified result. |
| EnhancedKmp.TotalComparisonsGrows | cv_analyzer_enhanced.py:126-132 | One more pattern adds its own comparisons to the total. |
| EnhancedKmp.SearchNext | cv_analyzer_enhanced.py:126-132 | One round keeps keys, entries and the running total right. |
| EnhancedKmp.SearchMultiple | cv_analyzer_enhanced.py:121-134 | The keys are the distinct patterns in order, each entry is its key's result, and the total is the sum over all patterns. |
| EnhancedRabinKarp.RollingHashIsWindowHash | cv_analyzer_enhanced.py:180-183 | For m ≥ 1 the rolled hash at every window is that window's hash modulo 101. |
| EnhancedRabinKarp.HitsBelowSpec | cv_analyzer_enhanced.py:164-177 | A window is recorded iff it matches and its hash agrees; the records ascend. |
| EnhancedRabinKarp.HitsAreOccurrences | cv_analyzer_enhanced.py:164-177 | For m ≥ 1 the recorded windows are exactly the occurrences. |
| EnhancedRabinKarp.WindowsCostIsVerifyCost | cv_analyzer_enhanced.py:165-177 | The count is one per window plus the verification tests that rabin_karp.py counts. |
| EnhancedRabinKarp.WindowsCostOfEmptyPattern | cv_analyzer_enhanced.py:165 | For the empty pattern, each window costs exactly one comparison. |
| EnhancedRabinKarp.SearchResult | cv_analyzer_enhanced.py:139-185 | Models what the inlined Rabin-Karp returns or raises; `SearchResultSpec`, `SearchResultOfPattern` and `SearchResultOfEmptyPattern` state its meaning. |
| EnhancedRabinKarp.SearchResultSpec | cv_analyzer_enhanced.py:139-185 | The search raises exactly when m > n; otherwise found iff positions is non-empty, and the positions ascend. |
| EnhancedRabinKarp.SearchResultOfPattern | cv_analyzer_enhanced.py:139-185 | For 1 ≤ m ≤ n: positions are exactly the occurrences, and comparisons == (n-m+1) + the verification tests. |
| EnhancedRabinKarp.SearchResultOfEmptyPattern | cv_analyzer_enhanced.py:139-185 | The empty pattern is always found at offset 0, reports only offsets ≤ n, and costs n+1 comparisons. |
| EnhancedRabinKarp.HashPower | cv_analyzer_enhanced.py:155-156 | h is 256^(m-1) mod 101, or 1 when the loop does not run. |
| EnhancedRabinKarp.InitialHashes | cv_analyzer_enhanced.py:159-161 | The loop completes iff m ≤ n, and then yields the hashes of the pattern and of text[..m]; otherwise text[i] is read past the end. |
| EnhancedRabinKarp.CheckWindow | cv_analyzer_enhanced.py:165-177 | Window i extends the records and the count by exactly that window's contribution; its verification loop is `RabinKarp.VerifyWindow`, the same loop as in rabin_karp.py. |
| EnhancedRabinKarp.RollHash | cv_analyzer_enhanced.py:180-183 | The rolled hash follows RollingHash; the negative-correction branch is unreachable. |
| EnhancedRabinKarp.Slide | cv_analyzer_enhanced.py:164-183 | The sliding loop records exactly HitsBelow and counts WindowsCost over all n-m+1 windows. |
| EnhancedRabinKarp.Search | cv_analyzer_enhanced.py:139-185 | The method yields exactly the specified outcome, IndexError included. |
| EnhancedRabinKarp.FitsEntries | cv_analyzer_enhanced.py:188-201 | When every keyword fits the text, every stored entry lists exactly its key's occurrences. |
| EnhancedRabinKarp.TotalComparisonsGrows | cv_analyzer_enhanced.py:193-199 | One more pattern that fits adds its own comparisons to the total. |
| EnhancedRabinKarp.SearchNext | cv_analyzer_enhanced.py:193-199 | A round raises iff the keyword is longer than the text; otherwise it keeps keys, entries and the total right. |
| EnhancedRabinKarp.SearchMultiple | cv_analyzer_enhanced.py:188-201 | It raises iff some keyword is longer than the text; otherwise the keys are the distinct patterns, each entry is its key's result, and the total is the sum. |
| TextProcessor.PreprocessText | text_processor.py:15-28 | Models `preprocess_text`; `PreprocessTextShape`, `PreprocessTextKeepsWords` and `PreprocessTextIdempotent` state its meaning. |
| TextProcessor.CleanText | text_processor.py:31-44 | Models `clean_text`; `CleanTextIsPreprocessText` states that it equals `preprocess_text`. |
| TextProcessor.ExtractSentences | text_processor.py:46-52 | Models `extract_sentences`; `ExtractSentencesSpec` and `KeepStrippedAppend` state its meaning. |
| TextProcessor.CalculateSimilarity | text_processor.py:55-61 | Models `calculate_similarity` over reals; `CalculateSimilaritySpec` states its meaning. |
| TextProcessor.Words | text_processor.py:26 | Models `str.split()`; `WordsAreWords`, `WordsSkipSpaces` and `WordsOfJoin` state its meaning. |
| TextProcessor.Join | text_processor.py:26 | Models `' '.join`; `JoinIsCanonical` and `WordsOfJoin` state its meaning. |
| TextProcessor.Strip | text_processor.py:44 | Models `str.strip()`; `StripSpec` and `StripIdempotent` state its meaning. |
| TextProcessor.Collapse | text_processor.py:42 | Models `re.sub(r'\s+', ' ', text)`; `CollapseStrip` states its meaning. |
| TextProcessor.Pieces | text_processor.py:51 | Models `re.split(r'[.!?]+', text)`; `PiecesUnterminated` and `PiecesConcat` state its meaning. |
| TextProcessor.SpanLength | text_processor.py:26 | The returned length is the longest run of (non-)whitespace at the front. |
| TextProcessor.WordsAreWords | text_processor.py:26 | split() yields non-empty words containing no whitespace. |
| TextProcessor.WordsSkipSpaces | text_processor.py:26 | Leading whitespace does not change split(). |
| TextProcessor.WordsOfLowerCase | text_processor.py:23-26 | split() of lowered text yields lower-case words. |
| TextProcessor.JoinIsCanonical | text_processor.py:26 | Joining whitespace-free words with ' ' leaves no leading, trailing or double space and no whitespace other than ' '. |
| TextProcessor.WordsOfJoin | text_processor.py:26 | Splitting the join of whitespace-free non-empty words gives those words back. |
| TextProcessor.StripRightSpec | text_processor.py:44 | rstrip removes exactly the trailing whitespace. |
| TextProcessor.CollapseStrip | text_processor.py:42-44 | Collapsing whitespace runs to ' ' and stripping yields ' '.join(s.split()). |
| TextProcessor.CleanTextIsPreprocessText | text_processor.py:31-44 | clean_text and preprocess_text return the same string on every input. |
| TextProcessor.PreprocessTextShape | text_processor.py:15-28 | "" maps to ""; the output is lower-case, has no leading or trailing whitespace, no double space, and no whitespace other than ' '. |
| TextProcessor.PreprocessTextKeepsWords | text_processor.py:23-26 | The output's words are the lowered input's words. |
| TextProcessor.PreprocessTextIdempotent | text_processor.py:15-28 | Preprocessing twice equals preprocessing once. |
| TextProcessor.StripSpec | text_processor.py:52 | strip() returns the contiguous slice of the input whose ends are not whitespace and outside which everything is whitespace. |
| TextProcessor.StripIdempotent | text_processor.py:52 | Stripping twice equals stripping once. |
| TextProcessor.NextPiece | text_processor.py:51 | The next piece starts after a non-empty, maximal run of '.', '!' or '?' (the `+` of the pattern). |
| TextProcessor.PiecesUnterminated | text_processor.py:51 | re.split yields at least one piece, and no piece contains '.', '!' or '?'. |
| TextProcessor.PiecesConcat | text_processor.py:51 | The pieces, concatenated in order, are the text with its terminators removed, so order is kept and nothing else is lost. |
| TextProcessor.KeepStrippedSpec | text_processor.py:52 | x is kept iff x is non-empty and is the stripped form of some piece. |
| TextProcessor.KeepStrippedOne | text_processor.py:52 | One piece yields its strip if that is non-empty, and nothing otherwise. |
| TextProcessor.KeepStrippedAppend | text_processor.py:52 | The sentences of consecutive pieces follow one another: input order and repeats are kept. |
| TextProcessor.ExtractSentencesSpec | text_processor.py:46-52 | Every sentence is non-empty, stripped, free of '.', '!' and '?', and has no whitespace at either end; a string is a sentence iff it is the non-empty stripped form of a piece. |
| TextProcessor.CalculateSimilaritySpec | text_processor.py:55-61 | 0.0 when total is 0; in [0, 100] when 0 ≤ matched ≤ total; exactly 100 iff matched == total (total ≠ 0); monotone in matched. |
| EnhancedAnalyzer.PreprocessText | cv_analyzer_enhanced.py:227-232 | Models the analyzer's `preprocess_text`; `PreprocessTextSpec` states its meaning. |
| EnhancedAnalyzer.CalculateSimilarity | cv_analyzer_enhanced.py:234-238 | Models the analyzer's `calculate_similarity`; `CalculateSimilaritySpec` states its meaning. |
| EnhancedAnalyzer.Lines | cv_analyzer_enhanced.py:221 | Models `job_text.split('\n')`; `LinesAreLines`, `LinesRoundTrip` and `LinesOfJoin` state its meaning. |
| EnhancedAnalyzer.Keywords | cv_analyzer_enhanced.py:221 | Models the keyword list comprehension; `KeywordsSpec`, `KeepKeywordsOne` and `KeepKeywordsAppend` state its meaning. |
| EnhancedAnalyzer.PreprocessTextSpec | cv_analyzer_enhanced.py:227-232 | "" maps to ""; the output is lower-case and canonically spaced, keeps the lowered input's words, and equals TextProcessor.preprocess_text. |
| EnhancedAnalyzer.CalculateSimilaritySpec | cv_analyzer_enhanced.py:234-238 | 0.0 when total is 0; in [0, 100] when 0 ≤ matched ≤ total; 100 iff matched == total; equal to TextProcessor.calculate_similarity. |
| EnhancedAnalyzer.LineLength | cv_analyzer_enhanced.py:221 | The length returned is that of the longest newline-free prefix. |
| EnhancedAnalyzer.LinesAreLines | cv_analyzer_enhanced.py:221 | split('\n') yields at least one piece, none containing '\n'. |
| EnhancedAnalyzer.LinesRoundTrip | cv_analyzer_enhanced.py:221 | Joining the pieces of split('\n') with '\n' gives the text back. |
| EnhancedAnalyzer.LinesOfJoin | cv_analyzer_enhanced.py:221 | Splitting the '\n'-join of newline-free lines gives the lines back. |
| EnhancedAnalyzer.KeepKeywordsSpec | cv_analyzer_enhanced.py:221 | x is a keyword iff some line's strip is non-empty and lowers to x. |
| EnhancedAnalyzer.KeepKeywordsOne | cv_analyzer_enhanced.py:221 | One line yields its lowered strip if that is non-empty, and nothing otherwise. |
| EnhancedAnalyzer.KeepKeywordsAppend | cv_analyzer_enhanced.py:221 | The keywords of consecutive lines follow one another: line order and repeated lines are kept. |
| EnhancedAnalyzer.KeywordOfLine | cv_analyzer_enhanced.py:221 | The keyword of a non-blank line is non-empty, lower-case, newline-free and stripped. |
| EnhancedAnalyzer.KeywordsSpec | cv_analyzer_enhanced.py:221 | The keywords are exactly the lowered stripped non-blank lines, each non-empty, lower-case, newline-free and without whitespace at its ends. |
| EnhancedAnalyzer.MatchedOf | cv_analyzer_enhanced.py:274-281 | Models `matched_keywords`; `PartitionSpec` states its meaning. |
| EnhancedAnalyzer.MissingOf | cv_analyzer_enhanced.py:274-283 | Models `missing_keywords`; `PartitionSpec` and `PartitionDisjoint` state its meaning. |
| EnhancedAnalyzer.Partition | cv_analyzer_enhanced.py:270-283 | The loop builds MatchedOf and MissingOf, and matched_count is the number matched. |
| EnhancedAnalyzer.PartitionSpec | cv_analyzer_enhanced.py:270-283 | The sizes add up to the number of results; every found result is in matched with its occurrences and positions, every other key is in missing, and nothing else is in either. |
| EnhancedAnalyzer.PartitionDisjoint | cv_analyzer_enhanced.py:270-283 | With distinct keys, no keyword is both matched and missing. |
| EnhancedAnalyzer.Score | cv_analyzer_enhanced.py:285 | Models the score of `analyze_cv`; `ScoreSpec` states its meaning. |
| EnhancedAnalyzer.ScoreSpec | cv_analyzer_enhanced.py:285 | The score is in [0, 100]; it is 100 iff there are keywords and every dict entry matched and no keyword repeats; a repeated keyword keeps it below 100; distinct keywords all found give 100. |
| EnhancedAnalyzer.MissingUnderKmp | cv_analyzer_enhanced.py:262-283 | Under the inlined KMP, a keyword is missing iff it is empty or does not occur in the preprocessed CV text. |
| Agreement.StandaloneMatchersAgree | brute_force.py:11-46 | brute_force.py, kmp.py and rabin_karp.py (any positive prime) report the same found flag and positions. |
| Agreement.InlinedMatchersAgree | cv_analyzer_enhanced.py:26-185 | For a non-empty pattern the inlined copies report the brute-force positions; the inlined Rabin-Karp returns them when m ≤ n. |
| Agreement.RabinKarpAtMostBruteForce | rabin_karp.py:60-66 | rabin_karp.py never counts more comparisons than brute_force.py. |
| Agreement.InlinedComparisons | cv_analyzer_enhanced.py:35-47 | The inlined brute force counts as brute_force.py on non-empty text; the inlined Rabin-Karp counts n-m+1 more than rabin_karp.py at prime 101. |
| Agreement.FixtureOccurrences | brute_force.py:79-80 | Spelt with any four distinct letters, the demos' pattern occurs in the demos' text only at offset 10. |
| Agreement.DemoOccurrences | brute_force.py:79-80 | "ABABC" occurs in "ABABDABACDABABCABAB" only at offset 10, and so does its lowered form in the lowered text. |
| Agreement.DemoExample | brute_force.py:86 | All three standalone matchers report positions [10] for the demos' call, which uses the default case_sensitive=False (and prime 101), and also case-sensitively. |
| Agreement.EmptyPatternDrift | cv_analyzer_enhanced.py:29-49 | For text "a" and the empty pattern, inlined brute force reports [0, 1] while inlined Rabin-Karp reports [0] with 2 comparisons: the unguarded copies disagree. |

## Left out

- File reading (`file_reader.py`, `FileReader` in `cv_analyzer_enhanced.py`), the GUI (`cv_analyzer_gui.py`), timing and charts (`performance_analyzer.py`, the report and visualisation methods of `EnhancedCVAnalyzer`), and the orchestration in `cv_analyzer.py`. These are I/O, UI and wall-clock timing, with no logic of their own to verify.
- `analyze_cv` beyond its pure steps: the `.docx` check, the empty-CV error dict, the lookup of the algorithm by name and the execution time are not modelled. Its preprocessing, keyword partition and score are modelled. `MissingUnderKmp` composes them for the default KMP engine.
- `load_job_description` beyond the expression on line 221: opening the file and the error path that returns `[]`.
- Demo and test functions (`test_brute_force`, `test_kmp`, `test_rabin_karp`) and module-level prints. The positions the demos' calls return are covered by `Agreement.DemoExample`; their comparison counts and the printed LPS table are not stated.
- Unicode lower-casing: `Chars.Lower` maps only 'A'..'Z', whereas Python's `str.lower()` also lowers other scripts and can change the length of a string.
- Floating point: the percentage helpers return a `real`, so IEEE rounding is not modelled, nor is the sort of CVs by score.
- RabinKarp.SearchResult: requires `prime > 0`. A prime of 0 raises a division error in the source; a negative prime is not a meaningful use.
- EnhancedRabinKarp.SearchResult: the `IndexError` raised for m > n is an `Outcome` value. The model does not carry the exception up through `analyze_cv`, whose `except` turns it into an error dict.
- EnhancedRabinKarp.SearchResultOfEmptyPattern: states that offset 0 is found, the bound on the offsets and the count, but does not list the later offsets where the drifting hash returns to 0.
- Python ints are unbounded, like Dafny's, so no overflow needs modelling. `%` with a positive modulus is never negative in both languages.
