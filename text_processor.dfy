/** text_processor.py: lower-casing and whitespace normalisation, the regular-expression cleaner
    that does the same, sentence extraction, and the match percentage. Strings are sequences of
    characters; whitespace is Python's class (`Chars.IsSpace`), which `str.split()`,
    `str.strip()` and `\s` in `re` share. */
module TextProcessor {
  import opened Chars

  /** Length of the longest prefix of `s` whose characters are all whitespace (`space`) or all
      not whitespace (`!space`). */
  function SpanLength(s: string, space: bool): (n: nat)
    ensures n <= |s|
    ensures forall k :: 0 <= k < n ==> IsSpace(s[k]) == space
    ensures n < |s| ==> IsSpace(s[n]) != space
  {
    if s == [] || IsSpace(s[0]) != space then 0 else 1 + SpanLength(s[1..], space)
  }

  /** `s.split()`: the maximal runs of non-whitespace characters, in order. */
  function Words(s: string): seq<string>
    decreases |s|
  {
    if s == [] then []
    else if IsSpace(s[0]) then Words(s[1..])
    else
      var n := SpanLength(s, false);
      [s[..n]] + Words(s[n..])
  }

  /** `' '.join(words)`. */
  function Join(words: seq<string>): string {
    if words == [] then []
    else if |words| == 1 then words[0]
    else words[0] + [' '] + Join(words[1..])
  }

  /** `s.lstrip()`: drop the leading whitespace. */
  function StripLeft(s: string): string {
    s[SpanLength(s, true)..]
  }

  /** `s.rstrip()`: drop the trailing whitespace. */
  function StripRight(s: string): string
    decreases |s|
  {
    if s != [] && IsSpace(s[|s| - 1]) then StripRight(s[..|s| - 1]) else s
  }

  /** `s.strip()`. */
  function Strip(s: string): string {
    StripRight(StripLeft(s))
  }

  /** `re.sub(r'\s+', ' ', s)`: every maximal run of whitespace becomes a single space. */
  function Collapse(s: string): string
    decreases |s|
  {
    if s == [] then []
    else
      var n := SpanLength(s, IsSpace(s[0]));
      (if IsSpace(s[0]) then [' '] else s[..n]) + Collapse(s[n..])
  }

  /** A non-empty run of non-whitespace characters. */
  predicate IsWord(w: string) {
    w != [] && forall k :: 0 <= k < |w| ==> !IsSpace(w[k])
  }

  /** Every element of `words` is a word. */
  predicate AllWords(words: seq<string>) {
    forall i :: 0 <= i < |words| ==> IsWord(words[i])
  }

  /** Words separated by single spaces: no whitespace but ' ', none at either end, and never two
      whitespace characters in a row. */
  predicate Canonical(s: string) {
    && (forall k :: 0 <= k < |s| && IsSpace(s[k]) ==> s[k] == ' ')
    && (s != [] ==> !IsSpace(s[0]) && !IsSpace(s[|s| - 1]))
    && (forall k :: 0 <= k < |s| - 1 ==> !IsSpace(s[k]) || !IsSpace(s[k + 1]))
  }

  /** `TextProcessor.preprocess_text`: nothing for an empty text, otherwise the words of the
      lowered text joined by single spaces. */
  function PreprocessText(text: string): string {
    if text == [] then [] else Join(Words(Lower(text)))
  }

  /** `TextProcessor.clean_text`: nothing for an empty text, otherwise the lowered text with each
      whitespace run collapsed to a space, then stripped. */
  function CleanText(text: string): string {
    if text == [] then [] else Strip(Collapse(Lower(text)))
  }

  // Facts about spans, words and joins

  /** A prefix of the given kind that is followed by the other kind, or by the end, is the span. */
  lemma SpanLengthIs(s: string, space: bool, n: nat)
    requires n <= |s| && forall k :: 0 <= k < n ==> IsSpace(s[k]) == space
    requires n < |s| ==> IsSpace(s[n]) != space
    ensures SpanLength(s, space) == n
  {
  }

  /** `s.split()` yields words only. */
  lemma {:induction false} WordsAreWords(s: string)
    ensures AllWords(Words(s))
    decreases |s|
  {
    if s != [] {
      if IsSpace(s[0]) {
        WordsAreWords(s[1..]);
      } else {
        var n := SpanLength(s, false);
        WordsAreWords(s[n..]);
        assert IsWord(s[..n]);
      }
    }
  }

  /** Leading whitespace does not change the words. */
  lemma {:induction false} WordsSkipSpaces(s: string, m: nat)
    requires m <= |s| && forall k :: 0 <= k < m ==> IsSpace(s[k])
    ensures Words(s) == Words(s[m..])
    decreases m
  {
    if m > 0 {
      assert s[1..][m - 1..] == s[m..];
      WordsSkipSpaces(s[1..], m - 1);
    }
  }

  /** The words of a lower-case text are lower case. */
  lemma {:induction false} WordsOfLowerCase(s: string)
    requires IsLowerCase(s)
    ensures forall i :: 0 <= i < |Words(s)| ==> IsLowerCase(Words(s)[i])
    decreases |s|
  {
    if s != [] {
      if IsSpace(s[0]) {
        WordsOfLowerCase(s[1..]);
      } else {
        var n := SpanLength(s, false);
        WordsOfLowerCase(s[n..]);
      }
    }
  }

  /** Joining lower-case words gives a lower-case text. */
  lemma {:induction false} JoinOfLowerCase(words: seq<string>)
    requires forall i :: 0 <= i < |words| ==> IsLowerCase(words[i])
    ensures IsLowerCase(Join(words))
  {
    if |words| > 1 {
      JoinOfLowerCase(words[1..]);
      var rest := Join(words[1..]);
      forall k | 0 <= k < |Join(words)| ensures !IsUpper(Join(words)[k]) {
        if k >= |words[0]| + 1 {
          assert Join(words)[k] == rest[k - |words[0]| - 1];
        }
      }
    }
  }

  /** A join of words starts with the first character of the first word and ends with the last
      character of the last word. */
  lemma {:induction false} JoinEnds(words: seq<string>)
    requires AllWords(words) && words != []
    ensures Join(words) != []
    ensures Join(words)[0] == words[0][0]
    ensures Join(words)[|Join(words)| - 1] == words[|words| - 1][|words[|words| - 1]| - 1]
  {
    if |words| > 1 {
      JoinEnds(words[1..]);
    }
  }

  /** Joining words by single spaces gives a canonical text. */
  lemma {:induction false} JoinIsCanonical(words: seq<string>)
    requires AllWords(words)
    ensures Canonical(Join(words))
  {
    if |words| > 1 {
      var w, rest := words[0], Join(words[1..]);
      JoinIsCanonical(words[1..]);
      JoinEnds(words[1..]);
      JoinEnds(words);
      var s := Join(words);
      assert s == w + [' '] + rest;
      forall k | 0 <= k < |s|
        ensures (IsSpace(s[k]) ==> s[k] == ' ')
        ensures k < |s| - 1 ==> !IsSpace(s[k]) || !IsSpace(s[k + 1])
      {
        if k < |w| {
          assert s[k] == w[k];
          if k + 1 < |w| {
            assert s[k + 1] == w[k + 1];
          }
        } else if k > |w| {
          assert s[k] == rest[k - |w| - 1];
          if k + 1 < |s| {
            assert s[k + 1] == rest[k - |w|];
          }
        } else if k + 1 < |s| {
          assert s[k + 1] == rest[0];
        }
      }
    }
  }

  /** Splitting a join of words gives the words back. */
  lemma {:induction false} WordsOfJoin(words: seq<string>)
    requires AllWords(words)
    ensures Words(Join(words)) == words
  {
    if words != [] {
      var w := words[0];
      var s := Join(words);
      if |words| == 1 {
        SpanLengthIs(s, false, |w|);
        assert s[..|w|] == w;
        assert s[|w|..] == [];
      } else {
        var rest := Join(words[1..]);
        assert s == w + [' '] + rest;
        SpanLengthIs(s, false, |w|);
        assert s[..|w|] == w;
        assert s[|w|..] == [' '] + rest;
        assert s[|w|..][1..] == rest;
        WordsOfJoin(words[1..]);
        assert words == [w] + words[1..];
      }
    }
  }

  // Facts about stripping and collapsing

  /** Stripping on the right keeps a prefix and drops only whitespace. */
  lemma {:induction false} StripRightSpec(s: string)
    ensures |StripRight(s)| <= |s| && StripRight(s) == s[..|StripRight(s)|]
    ensures StripRight(s) != [] ==> !IsSpace(StripRight(s)[|StripRight(s)| - 1])
    ensures forall k :: |StripRight(s)| <= k < |s| ==> IsSpace(s[k])
    decreases |s|
  {
    if s != [] && IsSpace(s[|s| - 1]) {
      StripRightSpec(s[..|s| - 1]);
    }
  }

  /** Stripping on the right stops at the last non-whitespace character, so text before it is
      kept whole. */
  lemma {:induction false} StripRightAppend(a: string, b: string)
    requires b != [] && !IsSpace(b[0])
    ensures StripRight(a + b) == a + StripRight(b)
    decreases |b|
  {
    if IsSpace(b[|b| - 1]) {
      assert (a + b)[..|a + b| - 1] == a + b[..|b| - 1];
      StripRightAppend(a, b[..|b| - 1]);
    }
  }

  /** Collapsing keeps the first character of a text that starts with a non-whitespace one. */
  lemma CollapseStart(s: string)
    requires s != [] && !IsSpace(s[0])
    ensures Collapse(s) != [] && Collapse(s)[0] == s[0]
  {
  }

  /** A text that starts with a word: collapsing keeps the word, splitting yields it first. */
  lemma UnfoldWord(s: string)
    requires s != [] && !IsSpace(s[0])
    ensures Collapse(s) == s[..SpanLength(s, false)] + Collapse(s[SpanLength(s, false)..])
    ensures Words(s) == [s[..SpanLength(s, false)]] + Words(s[SpanLength(s, false)..])
  {
  }

  /** A text that starts with whitespace: collapsing turns the run into one space, splitting
      skips it. */
  lemma UnfoldSpace(s: string)
    requires s != [] && IsSpace(s[0])
    ensures Collapse(s) == [' '] + Collapse(s[SpanLength(s, true)..])
    ensures Words(s) == Words(s[SpanLength(s, true)..])
  {
    WordsSkipSpaces(s, SpanLength(s, true));
  }

  /** Joining a word in front of further words puts one space between them. */
  lemma JoinCons(w: string, words: seq<string>)
    requires words != []
    ensures Join([w] + words) == w + [' '] + Join(words)
  {
    assert ([w] + words)[1..] == words;
  }

  /** For a text that does not start with whitespace, collapsing and then stripping on the right
      joins its words by single spaces. */
  lemma {:induction false} CollapseStripRight(s: string)
    requires s == [] || !IsSpace(s[0])
    ensures StripRight(Collapse(s)) == Join(Words(s))
    decreases |s|, 1
  {
    if s != [] {
      var n := SpanLength(s, false);
      var w, rest := s[..n], s[n..];
      UnfoldWord(s);
      assert StripRight(w) == w;
      if rest == [] {
        assert Collapse(s) == w;
      } else {
        var next := rest[SpanLength(rest, true)..];
        UnfoldSpace(rest);
        if next == [] {
          assert Collapse(s) == w + [' '];
          assert (w + [' '])[..|w + [' ']| - 1] == w;
        } else {
          CollapseStripRightStep(w, next);
        }
      }
    }
  }

  /** The inductive step of `CollapseStripRight`: a word, a collapsed run, then a text that
      starts with a word. */
  lemma {:induction false} CollapseStripRightStep(w: string, next: string)
    requires IsWord(w) && next != [] && !IsSpace(next[0])
    ensures StripRight(w + ([' '] + Collapse(next))) == Join([w] + Words(next))
    decreases |next| + 1, 0
  {
    CollapseStart(next);
    CollapseStripRight(next);
    WordsAreWords(next);
    UnfoldWord(next);
    assert w + ([' '] + Collapse(next)) == (w + [' ']) + Collapse(next);
    StripRightAppend(w + [' '], Collapse(next));
    JoinCons(w, Words(next));
  }

  /** Collapsing whitespace runs and stripping joins the words by single spaces. */
  lemma CollapseStrip(s: string)
    ensures Strip(Collapse(s)) == Join(Words(s))
  {
    if s != [] && IsSpace(s[0]) {
      var m := SpanLength(s, true);
      var rest := s[m..];
      WordsSkipSpaces(s, m);
      assert Collapse(s) == [' '] + Collapse(rest);
      if rest != [] {
        CollapseStart(rest);
      }
      SpanLengthIs(Collapse(s), true, 1);
      assert StripLeft(Collapse(s)) == Collapse(rest);
      CollapseStripRight(rest);
    } else {
      if s != [] {
        CollapseStart(s);
      }
      SpanLengthIs(Collapse(s), true, 0);
      CollapseStripRight(s);
    }
  }

  // What the source promises

  /** `clean_text` and `preprocess_text` agree on every input, because `\s` in `re` and
      `str.split()` use the same whitespace class. */
  lemma CleanTextIsPreprocessText(text: string)
    ensures CleanText(text) == PreprocessText(text)
  {
    if text != [] {
      CollapseStrip(Lower(text));
    }
  }

  /** The preprocessed text is empty for an empty text; otherwise it is lower case and
      canonical: words separated by single spaces, no whitespace but ' ', none at either end. */
  lemma PreprocessTextShape(text: string)
    ensures text == [] ==> PreprocessText(text) == []
    ensures IsLowerCase(PreprocessText(text)) && Canonical(PreprocessText(text))
  {
    if text != [] {
      var low := Lower(text);
      LowerIsLowerCase(text);
      WordsAreWords(low);
      WordsOfLowerCase(low);
      JoinOfLowerCase(Words(low));
      JoinIsCanonical(Words(low));
    }
  }

  /** Preprocessing keeps the words of the lowered text, in order. */
  lemma PreprocessTextKeepsWords(text: string)
    ensures Words(PreprocessText(text)) == Words(Lower(text))
  {
    if text != [] {
      WordsAreWords(Lower(text));
      WordsOfJoin(Words(Lower(text)));
    }
  }

  /** Preprocessing a preprocessed text changes nothing. */
  lemma PreprocessTextIdempotent(text: string)
    ensures PreprocessText(PreprocessText(text)) == PreprocessText(text)
  {
    var r := PreprocessText(text);
    if r != [] {
      PreprocessTextShape(text);
      LowerOfLowerCase(r);
      PreprocessTextKeepsWords(text);
      assert Words(Lower(r)) == Words(Lower(text));
    }
  }

  // Stripping

  /** `s.strip()` keeps the slice of `s` between its leading and its trailing whitespace: it
      neither starts nor ends with whitespace, and only whitespace is cut off on either side. */
  lemma StripSpec(s: string)
    ensures SpanLength(s, true) + |Strip(s)| <= |s|
    ensures Strip(s) == s[SpanLength(s, true)..SpanLength(s, true) + |Strip(s)|]
    ensures Strip(s) != [] ==> !IsSpace(Strip(s)[0]) && !IsSpace(Strip(s)[|Strip(s)| - 1])
    ensures forall k :: SpanLength(s, true) + |Strip(s)| <= k < |s| ==> IsSpace(s[k])
  {
    var i := SpanLength(s, true);
    var left := s[i..];
    var r := StripRight(left);
    StripRightSpec(left);
    assert r == left[..|r|];
    assert left[..|r|] == s[i..i + |r|];
    forall k | i + |r| <= k < |s| ensures IsSpace(s[k]) {
      assert s[k] == left[k - i];
    }
    if r != [] {
      assert r[0] == left[0];
    }
  }

  /** Stripping a stripped text changes nothing. */
  lemma StripIdempotent(s: string)
    ensures Strip(Strip(s)) == Strip(s)
  {
    var r := Strip(s);
    StripSpec(s);
    SpanLengthIs(r, true, 0);
    assert StripLeft(r) == r;
    if r != [] {
      assert StripRight(r) == r;
    }
  }

  // Sentences

  /** The characters `[.!?]` that end a sentence. */
  predicate IsTerminator(c: char) {
    c == '.' || c == '!' || c == '?'
  }

  /** No sentence terminator occurs in `s`. */
  predicate Unterminated(s: string) {
    forall k :: 0 <= k < |s| ==> !IsTerminator(s[k])
  }

  /** Length of the longest prefix of `s` made only of terminators (`terminator`) or only of
      other characters (`!terminator`). */
  function TerminatorSpan(s: string, terminator: bool): (n: nat)
    ensures n <= |s|
    ensures forall k :: 0 <= k < n ==> IsTerminator(s[k]) == terminator
    ensures n < |s| ==> IsTerminator(s[n]) != terminator
  {
    if s == [] || IsTerminator(s[0]) != terminator then 0 else 1 + TerminatorSpan(s[1..], terminator)
  }

  /** Where the text after the first run of terminators starts; the run is non-empty and
      maximal, as the `+` of the pattern makes it. */
  function NextPiece(s: string): (m: nat)
    requires TerminatorSpan(s, false) < |s|
    ensures TerminatorSpan(s, false) < m <= |s|
    ensures forall k :: TerminatorSpan(s, false) <= k < m ==> IsTerminator(s[k])
    ensures m < |s| ==> !IsTerminator(s[m])
  {
    var n := TerminatorSpan(s, false);
    var run := TerminatorSpan(s[n..], true);
    assert forall k :: n <= k < n + run ==> s[k] == s[n..][k - n];
    assert n + run < |s| ==> s[n + run] == s[n..][run];
    n + run
  }

  /** `re.split(r'[.!?]+', s)`: the pieces between maximal runs of terminators, with an empty
      piece before a leading run and after a trailing one. */
  function Pieces(s: string): seq<string>
    decreases |s|
  {
    if TerminatorSpan(s, false) == |s| then [s]
    else [s[..TerminatorSpan(s, false)]] + Pieces(s[NextPiece(s)..])
  }

  /** `s` without its terminators. */
  function DropTerminators(s: string): string {
    if s == [] then []
    else (if IsTerminator(s[0]) then [] else [s[0]]) + DropTerminators(s[1..])
  }

  /** The pieces written one after another. */
  function Concat(pieces: seq<string>): string {
    if pieces == [] then [] else pieces[0] + Concat(pieces[1..])
  }

  /** Dropping terminators distributes over concatenation. */
  lemma {:induction false} DropTerminatorsAppend(a: string, b: string)
    ensures DropTerminators(a + b) == DropTerminators(a) + DropTerminators(b)
  {
    if a == [] {
      assert a + b == b;
    } else {
      assert (a + b)[0] == a[0];
      assert (a + b)[1..] == a[1..] + b;
      DropTerminatorsAppend(a[1..], b);
    }
  }

  /** Dropping terminators keeps a text without any. */
  lemma {:induction false} DropUnterminated(s: string)
    requires Unterminated(s)
    ensures DropTerminators(s) == s
  {
    if s != [] {
      DropUnterminated(s[1..]);
    }
  }

  /** Dropping terminators empties a text made only of them. */
  lemma {:induction false} DropOnlyTerminators(s: string)
    requires forall k :: 0 <= k < |s| ==> IsTerminator(s[k])
    ensures DropTerminators(s) == []
  {
    if s != [] {
      DropOnlyTerminators(s[1..]);
    }
  }

  /** The pieces of a split hold no terminator, and there is at least one of them. */
  lemma {:induction false} PiecesUnterminated(s: string)
    ensures Pieces(s) != []
    ensures forall i :: 0 <= i < |Pieces(s)| ==> Unterminated(Pieces(s)[i])
    decreases |s|
  {
    var n := TerminatorSpan(s, false);
    if n == |s| {
      assert s[..n] == s;
    } else {
      PiecesUnterminated(s[NextPiece(s)..]);
      assert Unterminated(s[..n]);
    }
  }

  /** The pieces of a split, written one after another, give the text with its terminators
      dropped. */
  lemma {:induction false} PiecesConcat(s: string)
    ensures Concat(Pieces(s)) == DropTerminators(s)
    decreases |s|
  {
    var n := TerminatorSpan(s, false);
    if n == |s| {
      DropUnterminated(s);
      assert Concat([s]) == s + Concat([]);
    } else {
      var m := NextPiece(s);
      PiecesConcat(s[m..]);
      DropPieceAndStop(s, n, m);
      ConcatCons(s[..n], Pieces(s[m..]));
    }
  }

  /** Dropping the terminators of a piece without any followed by a run of them. */
  lemma DropPieceAndStop(s: string, n: nat, m: nat)
    requires n <= m <= |s| && Unterminated(s[..n])
    requires forall k :: n <= k < m ==> IsTerminator(s[k])
    ensures DropTerminators(s) == s[..n] + DropTerminators(s[m..])
  {
    var piece, stop, rest := s[..n], s[n..m], s[m..];
    calc {
      DropTerminators(s);
      { SplitThree(s, n, m); }
      DropTerminators(piece + stop + rest);
      { DropTerminatorsAppend(piece + stop, rest); }
      DropTerminators(piece + stop) + DropTerminators(rest);
      { DropTerminatorsAppend(piece, stop); }
      DropTerminators(piece) + DropTerminators(stop) + DropTerminators(rest);
      { DropUnterminated(piece); DropOnlyTerminators(stop); }
      piece + [] + DropTerminators(rest);
      { assert piece + [] == piece; }
      piece + DropTerminators(rest);
    }
  }

  /** A text is its three slices cut at `i` and `j`. */
  lemma SplitThree(s: string, i: nat, j: nat)
    requires i <= j <= |s|
    ensures s == s[..i] + s[i..j] + s[j..]
  {
  }

  /** Writing out a piece in front of others. */
  lemma ConcatCons(piece: string, pieces: seq<string>)
    ensures Concat([piece] + pieces) == piece + Concat(pieces)
  {
    assert ([piece] + pieces)[1..] == pieces;
  }

  /** The stripped pieces that are not empty, in order. */
  function KeepStripped(pieces: seq<string>): seq<string> {
    if pieces == [] then []
    else
      var rest := KeepStripped(pieces[1..]);
      if Strip(pieces[0]) != [] then [Strip(pieces[0])] + rest else rest
  }

  /** `TextProcessor.extract_sentences`: split at every run of terminators, strip each piece and
      keep the non-empty ones. */
  function ExtractSentences(text: string): seq<string> {
    KeepStripped(Pieces(text))
  }

  /** A single piece yields its stripped form when that is not empty, and nothing otherwise. */
  lemma KeepStrippedOne(piece: string)
    ensures KeepStripped([piece]) == if Strip(piece) != [] then [Strip(piece)] else []
  {
    assert [piece][1..] == [];
  }

  /** The sentences of consecutive pieces come one after another, in the order of the pieces, each
      as often as its piece occurs. */
  lemma {:induction false} KeepStrippedAppend(a: seq<string>, b: seq<string>)
    ensures KeepStripped(a + b) == KeepStripped(a) + KeepStripped(b)
  {
    if a == [] {
      assert a + b == b;
    } else {
      assert (a + b)[0] == a[0];
      assert (a + b)[1..] == a[1..] + b;
      KeepStrippedAppend(a[1..], b);
    }
  }

  /** A string is kept exactly when it is the non-empty stripped form of one of the pieces. */
  lemma {:induction false} KeepStrippedSpec(pieces: seq<string>)
    ensures forall x :: x in KeepStripped(pieces) <==>
      x != [] && exists i :: 0 <= i < |pieces| && Strip(pieces[i]) == x
  {
    if pieces != [] {
      KeepStrippedSpec(pieces[1..]);
      forall x | x != [] && (exists i :: 0 <= i < |pieces| && Strip(pieces[i]) == x)
        ensures x in KeepStripped(pieces)
      {
        var i :| 0 <= i < |pieces| && Strip(pieces[i]) == x;
        if i > 0 {
          assert Strip(pieces[1..][i - 1]) == x;
        }
      }
      forall x | x in KeepStripped(pieces[1..])
        ensures exists i :: 0 <= i < |pieces| && Strip(pieces[i]) == x
      {
        var i :| 0 <= i < |pieces[1..]| && Strip(pieces[1..][i]) == x;
        assert Strip(pieces[i + 1]) == x;
      }
    }
  }

  /** Stripping keeps a text free of terminators. */
  lemma StripUnterminated(s: string)
    requires Unterminated(s)
    ensures Unterminated(Strip(s))
  {
    StripSpec(s);
    var i := SpanLength(s, true);
    forall k | 0 <= k < |Strip(s)| ensures !IsTerminator(Strip(s)[k]) {
      assert Strip(s)[k] == s[i + k];
    }
  }

  /** Every extracted sentence is non-empty, stripped and free of terminators, and the sentences
      are exactly the non-empty stripped pieces of the split. */
  lemma ExtractSentencesSpec(text: string)
    ensures forall x :: x in ExtractSentences(text) <==>
      x != [] && exists i :: 0 <= i < |Pieces(text)| && Strip(Pieces(text)[i]) == x
    ensures forall x :: x in ExtractSentences(text) ==>
      x != [] && Strip(x) == x && Unterminated(x) && !IsSpace(x[0]) && !IsSpace(x[|x| - 1])
  {
    var pieces := Pieces(text);
    KeepStrippedSpec(pieces);
    PiecesUnterminated(text);
    forall x | x in ExtractSentences(text)
      ensures Strip(x) == x && Unterminated(x) && !IsSpace(x[0]) && !IsSpace(x[|x| - 1])
    {
      var i :| 0 <= i < |pieces| && Strip(pieces[i]) == x;
      StripSpec(pieces[i]);
      StripIdempotent(pieces[i]);
      StripUnterminated(pieces[i]);
    }
  }

  // Similarity

  /** `TextProcessor.calculate_similarity`: the matched share of the keywords as a percentage,
      and 0 when there are no keywords. */
  function CalculateSimilarity(matched: int, total: int): real {
    if total == 0 then 0.0 else (matched as real / total as real) * 100.0
  }

  /** No keywords score 0; a share of them scores between 0 and 100; the score is 100 exactly
      when every keyword matched; and more matches never score less. */
  lemma CalculateSimilaritySpec(matched: int, total: int)
    ensures total == 0 ==> CalculateSimilarity(matched, total) == 0.0
    ensures 0 <= matched <= total ==> 0.0 <= CalculateSimilarity(matched, total) <= 100.0
    ensures total != 0 ==> (CalculateSimilarity(matched, total) == 100.0 <==> matched == total)
    ensures total > 0 ==> forall fewer :: fewer <= matched ==>
      CalculateSimilarity(fewer, total) <= CalculateSimilarity(matched, total)
  {
    if total != 0 {
      var t := total as real;
      assert CalculateSimilarity(matched, total) * t == matched as real * 100.0;
    }
  }
}
