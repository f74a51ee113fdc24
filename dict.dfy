/** A Python `dict` keyed by strings, as the list of its items in insertion order,
    which is the order in which `dict.items()` yields them. */
module Dict {

  /** The keys of `d`, in order. */
  function Keys<V>(d: seq<(string, V)>): (r: seq<string>)
    ensures |r| == |d|
    ensures forall i :: 0 <= i < |d| ==> r[i] == d[i].0
  {
    seq(|d|, i requires 0 <= i < |d| => d[i].0)
  }

  /** No element occurs twice. */
  predicate Distinct(s: seq<string>) {
    forall i, j :: 0 <= i < j < |s| ==> s[i] != s[j]
  }

  /** `d[key] = value`: a key already present keeps its place and takes the new value;
      a new key is added last. */
  function Put<V>(d: seq<(string, V)>, key: string, value: V): (r: seq<(string, V)>)
    requires Distinct(Keys(d))
    ensures Distinct(Keys(r))
    ensures key in Keys(d) ==> Keys(r) == Keys(d)
    ensures key !in Keys(d) ==> Keys(r) == Keys(d) + [key]
    ensures forall i :: 0 <= i < |r| && r[i].0 == key ==> r[i].1 == value
    ensures forall i :: 0 <= i < |r| && r[i].0 != key ==> i < |d| && r[i] == d[i]
  {
    if key in Keys(d) then
      seq(|d|, i requires 0 <= i < |d| => if d[i].0 == key then (key, value) else d[i])
    else
      d + [(key, value)]
  }

  /** Every value in `d` is what `f` gives for its key. */
  predicate Agrees<V(==)>(d: seq<(string, V)>, f: string -> V) {
    forall i :: 0 <= i < |d| ==> d[i].1 == f(d[i].0)
  }

  /** Storing `f(key)` under `key` keeps every value what `f` gives for its key. */
  lemma PutAgrees<V>(d: seq<(string, V)>, key: string, value: V, f: string -> V)
    requires Distinct(Keys(d)) && Agrees(d, f) && value == f(key)
    ensures Agrees(Put(d, key, value), f)
  {
  }

  /** Extending a prefix of `s` by one element keeps the shorter prefix in front. */
  lemma PrefixGrows<T>(s: seq<T>, k: nat)
    requires k < |s|
    ensures s[..k + 1] == s[..k] + [s[k]]
  {
  }

  /** The elements of `s` in the order of their first occurrence: the keys a dict ends up
      with when the elements of `s` are assigned to it one after another. */
  function FirstOccurrences(s: seq<string>): (r: seq<string>)
    ensures Distinct(r)
    ensures forall x :: x in r <==> x in s
    ensures |r| <= |s|
  {
    if s == [] then []
    else
      var r := FirstOccurrences(s[..|s| - 1]);
      assert forall x :: x in s <==> x in s[..|s| - 1] || x == s[|s| - 1];
      if s[|s| - 1] in r then r else r + [s[|s| - 1]]
  }

  /** A repeated element leaves fewer distinct keys than assignments. */
  lemma {:induction false} FirstOccurrencesShorter(s: seq<string>, i: nat, j: nat)
    requires i < j < |s| && s[i] == s[j]
    ensures |FirstOccurrences(s)| < |s|
  {
    var init := s[..|s| - 1];
    if j < |s| - 1 {
      FirstOccurrencesShorter(init, i, j);
    } else {
      assert s[i] == init[i];
    }
  }

  /** Assigning distinct elements leaves one key per assignment, in order. */
  lemma {:induction false} FirstOccurrencesOfDistinct(s: seq<string>)
    requires Distinct(s)
    ensures FirstOccurrences(s) == s
  {
    if s != [] {
      var init := s[..|s| - 1];
      FirstOccurrencesOfDistinct(init);
      assert s[|s| - 1] !in init;
      assert init + [s[|s| - 1]] == s;
    }
  }

  /** Storing the next element of `s` under itself keeps the keys equal to the first
      occurrences of the prefix assigned so far. */
  lemma PutKeys<V>(d: seq<(string, V)>, s: seq<string>, k: nat, value: V)
    requires k < |s| && Keys(d) == FirstOccurrences(s[..k])
    ensures Keys(Put(d, s[k], value)) == FirstOccurrences(s[..k + 1])
  {
    PrefixGrows(s, k);
    assert s[..k + 1][..k] == s[..k];
  }
}
