/** The theory behind Knuth-Morris-Pratt: borders of pattern prefixes (what the LPS table holds),
    how a border lets the scan slide the pattern without missing an occurrence, and the scan loop
    of `KMP.search` as a step function, which fixes the number of comparisons it makes. */
module Borders {
  import opened Matching

  /** `l` is the length of a proper border of `p[..len]`: a proper prefix that is also a suffix. */
  predicate IsBorder(p: string, len: nat, l: nat) {
    l < len <= |p| && p[..l] == p[len - l..len]
  }

  /** `l` is the longest proper border of `p[..len]`. */
  predicate IsLongestBorder(p: string, len: nat, l: nat) {
    IsBorder(p, len, l) && forall l' :: l < l' < len ==> !IsBorder(p, len, l')
  }

  /** The longest border of `p[..len]` no longer than `b`. */
  function LongestBorderFrom(p: string, len: nat, b: nat): (r: nat)
    requires b < len <= |p|
    ensures r <= b
    decreases b
  {
    if b == 0 || IsBorder(p, len, b) then b else LongestBorderFrom(p, len, b - 1)
  }

  /** Searching downwards from `b` finds the longest border, when none is longer than `b`. */
  lemma {:induction false} LongestBorderFromSpec(p: string, len: nat, b: nat)
    requires b < len <= |p|
    requires forall l' :: b < l' < len ==> !IsBorder(p, len, l')
    ensures IsLongestBorder(p, len, LongestBorderFrom(p, len, b))
  {
    if b != 0 && !IsBorder(p, len, b) {
      LongestBorderFromSpec(p, len, b - 1);
    } else if b == 0 {
      assert p[..0] == p[len..len];
    }
  }

  /** The length of the longest proper border of the non-empty prefix `p[..len]`. */
  function LongestBorder(p: string, len: nat): (r: nat)
    requires 1 <= len <= |p|
    ensures r < len
  {
    LongestBorderFrom(p, len, len - 1)
  }

  /** `LongestBorder` is a border, and no longer border exists. */
  lemma LongestBorderSpec(p: string, len: nat)
    requires 1 <= len <= |p|
    ensures IsLongestBorder(p, len, LongestBorder(p, len))
  {
    LongestBorderFromSpec(p, len, len - 1);
  }

  /** There is only one longest border. */
  lemma LongestBorderUnique(p: string, len: nat, l: nat)
    requires IsLongestBorder(p, len, l)
    ensures LongestBorder(p, len) == l
  {
    LongestBorderSpec(p, len);
  }

  /** A border followed by the character that follows the prefix grows into a border of the
      one longer prefix. */
  lemma BorderExtends(p: string, len: nat, l: nat)
    requires IsBorder(p, len, l) && len < |p| && p[l] == p[len]
    ensures IsBorder(p, len + 1, l + 1)
  {
    assert p[..l + 1] == p[..l] + [p[l]];
    assert p[len - l..len + 1] == p[len - l..len] + [p[len]];
  }

  /** Every non-empty border of `p[..len + 1]` is a border of `p[..len]` extended by `p[len]`. */
  lemma BorderShrinks(p: string, len: nat, l: nat)
    requires IsBorder(p, len + 1, l + 1)
    ensures IsBorder(p, len, l) && p[l] == p[len]
  {
    assert p[..l] == p[..l + 1][..l];
    assert p[len - l..len] == p[len - l..len + 1][..l];
    assert p[l] == p[..l + 1][l] && p[len] == p[len - l..len + 1][l];
  }

  /** Below a border `l` of `p[..len]`, the borders of `p[..len]` are exactly those of `p[..l]`. */
  lemma BorderOfBorder(p: string, len: nat, l: nat, k: nat)
    requires IsBorder(p, len, l) && k < l
    ensures IsBorder(p, len, k) <==> IsBorder(p, l, k)
  {
    assert p[len - k..len] == p[len - l..len][l - k..];
    assert p[l - k..l] == p[..l][l - k..];
    assert p[..k] == p[..l][..k];
  }

  /** What the LPS loop knows when it settles entry `i`: `length` is a border of `p[..i]` and no
      longer border can be extended by `p[i]`. Extending `length`, when possible, gives the
      longest border of `p[..i + 1]`; when `length` is 0 and cannot be extended, there is none. */
  lemma {:induction false} LongestBorderOfNext(p: string, i: nat, length: nat)
    requires 1 <= i < |p| && IsBorder(p, i, length)
    requires forall l :: length < l < i && IsBorder(p, i, l) ==> p[l] != p[i]
    ensures p[length] == p[i] ==> LongestBorder(p, i + 1) == length + 1
    ensures length == 0 && p[0] != p[i] ==> LongestBorder(p, i + 1) == 0
  {
    var next := i + 1;
    forall l' | 0 < l' < next && IsBorder(p, next, l')
      ensures l' <= length + 1 && (l' == length + 1 ==> p[length] == p[i])
    {
      BorderShrinks(p, i, l' - 1);
    }
    if p[length] == p[i] {
      BorderExtends(p, i, length);
      LongestBorderUnique(p, i + 1, length + 1);
    }
    if length == 0 && p[0] != p[i] {
      LongestBorderUnique(p, i + 1, 0);
    }
  }

  /** When `length` cannot be extended, falling back to its own longest border keeps the LPS loop's
      knowledge: the new candidate is a border of `p[..i]` and no longer one extends. */
  lemma {:induction false} FallBack(p: string, i: nat, length: nat)
    requires 1 <= length < i < |p| && IsBorder(p, i, length) && p[length] != p[i]
    requires forall l :: length < l < i && IsBorder(p, i, l) ==> p[l] != p[i]
    ensures IsBorder(p, i, LongestBorder(p, length))
    ensures forall l :: LongestBorder(p, length) < l < i && IsBorder(p, i, l) ==> p[l] != p[i]
  {
    var fallback := LongestBorder(p, length);
    LongestBorderSpec(p, length);
    BorderOfBorder(p, i, length, fallback);
    forall l | fallback < l < length
      ensures !IsBorder(p, i, l)
    {
      BorderOfBorder(p, i, length, l);
    }
  }

  /** What `compute_lps` knows at the head of its loop: `table` holds the longest borders of
      `p[..1]` through `p[..i]`, `length` is a border of `p[..i]`, and no longer border of
      `p[..i]` can be extended by `p[i]`. */
  predicate LpsInvariant(p: string, table: seq<nat>, i: nat, length: nat) {
    1 <= i <= |p| && length < i && |table| == |p| && IsBorder(p, i, length)
    && (forall len :: 1 <= len <= i ==> table[len - 1] == LongestBorder(p, len))
    && (i < |p| ==> forall l :: length < l < i && IsBorder(p, i, l) ==> p[l] != p[i])
  }

  /** The table starts out settled for the one-character prefix, whose only border is empty. */
  lemma LpsStart(p: string, table: seq<nat>)
    requires |p| >= 1 && |table| == |p| && table[0] == 0
    ensures LpsInvariant(p, table, 1, 0)
  {
    LongestBorderSpec(p, 1);
    assert p[..0] == p[1..1];
  }

  /** Settling entry `i` as the longest border of `p[..i + 1]` keeps the table right for every
      prefix up to `p[..i + 1]`. */
  lemma LpsSettled(p: string, table: seq<nat>, i: nat, table': seq<nat>)
    requires i < |p| == |table|
    requires forall len :: 1 <= len <= i ==> table[len - 1] == LongestBorder(p, len)
    requires table' == table[i := LongestBorder(p, i + 1)]
    ensures forall len :: 1 <= len <= i + 1 ==> table'[len - 1] == LongestBorder(p, len)
  {
    forall len | 1 <= len <= i + 1
      ensures table'[len - 1] == LongestBorder(p, len)
    {
      if len <= i {
        assert table'[len - 1] == table[len - 1];
      }
    }
  }

  /** Extending `length` by the matching `p[i]` settles entry `i` as `length + 1`. */
  lemma LpsExtend(p: string, table: seq<nat>, i: nat, length: nat, table': seq<nat>)
    requires LpsInvariant(p, table, i, length) && i < |p| && p[i] == p[length]
    requires table' == table[i := length + 1]
    ensures LpsInvariant(p, table', i + 1, length + 1)
  {
    LongestBorderOfNext(p, i, length);
    LongestBorderSpec(p, i + 1);
    LpsSettled(p, table, i, table');
  }

  /** With no border left to extend, entry `i` is settled as 0. */
  lemma LpsSettleZero(p: string, table: seq<nat>, i: nat, table': seq<nat>)
    requires LpsInvariant(p, table, i, 0) && i < |p| && p[i] != p[0]
    requires table' == table[i := 0]
    ensures LpsInvariant(p, table', i + 1, 0)
  {
    LongestBorderOfNext(p, i, 0);
    LongestBorderSpec(p, i + 1);
    LpsSettled(p, table, i, table');
  }

  /** A mismatch falls back from `length` to the entry the table holds for `p[..length]`. */
  lemma LpsFallBack(p: string, table: seq<nat>, i: nat, length: nat)
    requires LpsInvariant(p, table, i, length) && i < |p| && length != 0 && p[i] != p[length]
    ensures table[length - 1] < length && LpsInvariant(p, table, i, table[length - 1])
  {
    FallBack(p, i, length);
  }

  /** A text window agreeing with `p[..J]` ends with every border of `p[..J]`. */
  lemma WindowEndsWithBorder(t: string, p: string, i: nat, J: nat, l: nat)
    requires J <= i <= |t| && IsBorder(p, J, l) && t[i - J..i] == p[..J]
    ensures t[i - l..i] == p[..l]
  {
    assert t[i - l..i] == t[i - J..i][J - l..];
    assert p[J - l..J] == p[..J][J - l..];
  }

  /** An occurrence starting inside a window that agrees with `p[..J]` and reaching past its end
      would make its overlap with the window a border of `p[..J]`. */
  lemma OverlapIsBorder(t: string, p: string, i: nat, J: nat, k: nat)
    requires J <= |p| && J <= i <= |t| && t[i - J..i] == p[..J] && i - J < k < i
    ensures MatchAt(t, p, k) ==> IsBorder(p, J, i - k)
  {
    if MatchAt(t, p, k) {
      var l := i - k;
      assert p[..l] == t[k..k + |p|][..l] == t[k..i];
      assert t[k..i] == t[i - J..i][J - l..];
      assert p[J - l..J] == p[..J][J - l..];
    }
  }

  /** Sliding the pattern from `p[..J]` to its longest border skips no occurrence: the window keeps
      agreeing with the border, and no occurrence starts strictly between the two alignments. */
  lemma {:induction false} SlideToBorder(t: string, p: string, i: nat, J: nat)
    requires 1 <= J <= |p| && J <= i <= |t| && t[i - J..i] == p[..J]
    ensures t[i - LongestBorder(p, J)..i] == p[..LongestBorder(p, J)]
    ensures OccurrencesBelow(t, p, i - LongestBorder(p, J)) == OccurrencesBelow(t, p, i - J + 1)
  {
    var b := LongestBorder(p, J);
    LongestBorderSpec(p, J);
    WindowEndsWithBorder(t, p, i, J, b);
    forall k | i - J + 1 <= k < i - b
      ensures !MatchAt(t, p, k)
    {
      OverlapIsBorder(t, p, i, J, k);
    }
    OccurrencesBelowSkip(t, p, i - J + 1, i - b);
  }

  /** A window agreeing with `p[..j]` that is followed by a character other than `p[j]` is not an
      occurrence. */
  lemma MismatchRulesOut(t: string, p: string, i: nat, j: nat)
    requires j < |p| && j <= i < |t| && t[i - j..i] == p[..j] && p[j] != t[i]
    ensures !MatchAt(t, p, i - j)
  {
    if i - j + |p| <= |t| {
      assert t[i - j..i - j + |p|][j] == t[i];
    }
  }

  /** The invariant of the KMP scan loop at its head: the window before `i` agrees with the
      first `j` pattern characters, and `positions` holds the occurrences that start before it. */
  predicate ScanInvariant(t: string, p: string, i: nat, j: nat, positions: seq<nat>) {
    j < |p| && j <= i <= |t| && t[i - j..i] == p[..j]
    && positions == OccurrencesBelow(t, p, i - j)
  }

  /** After a full match ending before `i`, reporting it and falling back to the longest border
      of the pattern keeps the scan invariant: the window still agrees with that border, and no
      occurrence starts between the reported one and the new alignment. */
  lemma {:induction false} FullMatchKeeps(t: string, p: string, start: nat, positions: seq<nat>)
    requires 1 <= |p| && MatchAt(t, p, start)
    requires positions == OccurrencesBelow(t, p, start)
    ensures ScanInvariant(t, p, start + |p|, LongestBorder(p, |p|), positions + [start])
  {
    assert t[start..start + |p|] == p[..|p|];
    SlideToBorder(t, p, start + |p|, |p|);
    OccurrencesBelowNext(t, p, start);
  }

  /** When the window agreeing with `p[..J]` is not extended by the next text character,
      falling back to the longest border of `p[..J]` keeps the scan invariant: the current
      alignment is no occurrence, nor is any alignment skipped. */
  lemma {:induction false} MismatchKeeps(t: string, p: string, i: nat, J: nat, positions: seq<nat>)
    requires 1 <= J < |p| && J <= i < |t| && t[i - J..i] == p[..J] && p[J] != t[i]
    requires positions == OccurrencesBelow(t, p, i - J)
    ensures ScanInvariant(t, p, i, LongestBorder(p, J), positions)
  {
    SlideToBorder(t, p, i, J);
    MismatchRulesOut(t, p, i, J);
    OccurrencesBelowNext(t, p, i - J);
  }

  /** A matching character extends the window and keeps its start. */
  lemma AdvanceKeeps(t: string, p: string, i: nat, j: nat, positions: seq<nat>)
    requires i < |t| && ScanInvariant(t, p, i, j, positions) && p[j] == t[i]
    ensures t[(i + 1) - (j + 1)..i + 1] == p[..j + 1]
    ensures positions == OccurrencesBelow(t, p, (i + 1) - (j + 1))
  {
    WindowPrefixGrows(t, p, i - j, j);
    assert (i + 1) - (j + 1) == i - j;
  }

  /** A matching last pattern character completes an occurrence at the window's start. */
  lemma CompletesMatch(t: string, p: string, i: nat, j: nat, positions: seq<nat>)
    requires i < |t| && ScanInvariant(t, p, i, j, positions) && p[j] == t[i] && j + 1 == |p|
    ensures MatchAt(t, p, i - j)
  {
    WindowPrefixGrows(t, p, i - j, j);
    assert p[..j + 1] == p;
  }

  /** A mismatch against the first pattern character moves past that text character. */
  lemma SkipKeeps(t: string, p: string, i: nat, positions: seq<nat>)
    requires i < |t| && ScanInvariant(t, p, i, 0, positions) && p[0] != t[i]
    ensures ScanInvariant(t, p, i + 1, 0, positions)
  {
    MismatchRulesOut(t, p, i, 0);
    OccurrencesBelowNext(t, p, i);
  }

  /** Where one iteration of the KMP scan loop leaves `i` and `j`, whether it reported a full
      match, and whether it took the mismatch branch. */
  datatype Step = Step(i: nat, j: nat, reported: bool, mismatch: bool)

  /** One iteration of the scan loop of `KMP.search`, from `i` in the text and `j` in the
      pattern: advance both on a match; after a full match fall back to the longest border;
      otherwise, if the next pair differs, fall back to the longest border of `p[..j]`, or
      advance `i` when `j` is 0. */
  function ScanStep(t: string, p: string, i: nat, j: nat): (r: Step)
    requires j < |p| && i < |t|
    ensures r.j < |p| && r.i <= |t|
    ensures i <= r.i <= i + 1
    ensures 2 * r.i - r.j > 2 * i - j
  {
    if p[j] == t[i] then
      if j + 1 == |p| then Step(i + 1, LongestBorder(p, j + 1), true, false)
      else if i + 1 < |t| && p[j + 1] != t[i + 1] then
        Step(i + 1, LongestBorder(p, j + 1), false, true)
      else Step(i + 1, j + 1, false, false)
    else if j != 0 then Step(i, LongestBorder(p, j), false, true)
    else Step(i + 1, 0, false, true)
  }

  /** Comparisons the scan counts from `(i, j)` until `i` reaches the end of the text: one per
      iteration, and, when `double` holds, one more for each iteration that takes the mismatch
      branch. The loop runs at least once per remaining text character and, since `2i - j`
      grows every time, at most `2(|t| - i) + j` times. */
  function ScanCost(t: string, p: string, i: nat, j: nat, double: bool): (r: nat)
    requires j < |p| && i <= |t|
    ensures r >= |t| - i
    ensures !double ==> r <= 2 * (|t| - i) + j
    ensures double ==> r <= 2 * (2 * (|t| - i) + j)
    decreases 2 * (|t| - i) + j
  {
    if i == |t| then 0
    else
      var step := ScanStep(t, p, i, j);
      (if double && step.mismatch then 2 else 1) + ScanCost(t, p, step.i, step.j, double)
  }

  /** An iteration that starts on a matching pair keeps the scan invariant. */
  lemma {:induction false} MatchStepKeeps(t: string, p: string, i: nat, j: nat, positions: seq<nat>,
                                          i': nat, j': nat, positions': seq<nat>)
    requires i < |t| && ScanInvariant(t, p, i, j, positions) && p[j] == t[i]
    requires i' == ScanStep(t, p, i, j).i && j' == ScanStep(t, p, i, j).j
    requires positions' == if ScanStep(t, p, i, j).reported then positions + [i - j] else positions
    ensures ScanInvariant(t, p, i', j', positions')
  {
    if j + 1 == |p| {
      CompletesMatch(t, p, i, j, positions);
      FullMatchKeeps(t, p, i - j, positions);
    } else {
      AdvanceKeeps(t, p, i, j, positions);
      if i + 1 < |t| && p[j + 1] != t[i + 1] {
        MismatchKeeps(t, p, i + 1, j + 1, positions);
      }
    }
  }

  /** One iteration, taking the scan from `(i, j, positions)` to `(i', j', positions')`, keeps the
      scan invariant once the full match it reports, if any, is added to the positions. */
  lemma {:induction false} ScanStepKeeps(t: string, p: string, i: nat, j: nat, positions: seq<nat>,
                                         i': nat, j': nat, positions': seq<nat>)
    requires i < |t| && ScanInvariant(t, p, i, j, positions)
    requires i' == ScanStep(t, p, i, j).i && j' == ScanStep(t, p, i, j).j
    requires positions' == if ScanStep(t, p, i, j).reported then positions + [i - j] else positions
    ensures ScanInvariant(t, p, i', j', positions')
  {
    if p[j] == t[i] {
      MatchStepKeeps(t, p, i, j, positions, i', j', positions');
    } else if j != 0 {
      MismatchKeeps(t, p, i, j, positions);
    } else {
      SkipKeeps(t, p, i, positions);
    }
  }

  /** One iteration charges one comparison, or two when it takes the mismatch branch and
      mismatches are counted twice, and leaves the rest of the cost to the state it reaches. */
  lemma ScanStepCost(t: string, p: string, i: nat, j: nat, i': nat, j': nat, double: bool)
    requires j < |p| && i < |t|
    requires i' == ScanStep(t, p, i, j).i && j' == ScanStep(t, p, i, j).j
    ensures ScanCost(t, p, i, j, double)
      == (if double && ScanStep(t, p, i, j).mismatch then 2 else 1) + ScanCost(t, p, i', j', double)
  {
  }
}
