/** The base-256 polynomial hash both Rabin-Karp matchers use: the value of a string read as a
    number in base 256 with one digit per character code, reduced modulo a positive number, and
    the modular arithmetic that lets the matcher roll it from one window to the next. */
module PolyHash {

  /** The base `d`: the number of characters the hash assumes in the input alphabet. */
  const Base: int := 256

  /** `ord(c)`: the code point of `c`. */
  function Ord(c: char): nat {
    c as nat
  }

  /** `b` raised to the power `e`. */
  function Pow(b: int, e: nat): int {
    if e == 0 then 1 else Pow(b, e - 1) * b
  }

  /** The value of `s` as a base-256 number, first character most significant. */
  function Poly(s: string): int {
    if s == [] then 0 else Poly(s[..|s| - 1]) * Base + Ord(s[|s| - 1])
  }

  /** The hash of `s` modulo `q`: its polynomial value reduced into `0..q-1`. */
  function Hash(s: string, q: int): (r: int)
    requires q > 0
    ensures 0 <= r < q
  {
    Poly(s) % q
  }

  /** Euclidean remainder is unique: a decomposition `x == q * d + r` with `0 <= r < q` fixes
      `x % q` as `r`. */
  lemma ModUnique(x: int, q: int, d: int, r: int)
    requires q > 0 && 0 <= r < q && x == q * d + r
    ensures x % q == r
  {
    var d', r' := x / q, x % q;
    assert q * (d - d') == r' - r;
    if d > d' {
      MulAtLeast(q, d - d');
    } else if d < d' {
      MulAtLeast(q, d' - d);
    }
  }

  /** A positive multiple of `q` is at least `q`. */
  lemma MulAtLeast(q: int, e: int)
    requires q > 0 && e >= 1
    ensures q * e >= q
  {
  }

  /** Adding a multiple of `q` does not change the remainder. */
  lemma ModAddMultiple(x: int, q: int, k: int)
    requires q > 0
    ensures (x + q * k) % q == x % q
  {
    ModUnique(x + q * k, q, x / q + k, x % q);
  }

  /** Numbers with equal remainders differ by a multiple of `q`. */
  lemma CongruentDiffer(a: int, b: int, q: int) returns (k: int)
    requires q > 0 && a % q == b % q
    ensures a == b + q * k
  {
    k := a / q - b / q;
  }

  /** Congruence modulo `q` is kept by the operations the rolling hash uses: multiplying by a
      number, and adding or subtracting congruent numbers. */
  lemma CongruentLinear(a: int, a': int, b: int, b': int, c: int, q: int)
    requires q > 0 && a % q == a' % q && b % q == b' % q
    ensures (c * (a - b)) % q == (c * (a' - b')) % q
  {
    var ka := CongruentDiffer(a, a', q);
    var kb := CongruentDiffer(b, b', q);
    assert c * (a - b) == c * (a' - b') + q * (c * (ka - kb));
    ModAddMultiple(c * (a' - b'), q, c * (ka - kb));
  }

  /** Adding the same number to congruent numbers keeps them congruent. */
  lemma CongruentShift(a: int, a': int, c: int, q: int)
    requires q > 0 && a % q == a' % q
    ensures (a + c) % q == (a' + c) % q
  {
    var k := CongruentDiffer(a, a', q);
    assert a + c == (a' + c) + q * k;
    ModAddMultiple(a' + c, q, k);
  }

  /** A remainder is congruent to the number it came from. */
  lemma ModMod(a: int, q: int)
    requires q > 0
    ensures (a % q) % q == a % q
  {
    ModUnique(a % q, q, 0, a % q);
  }

  /** One Horner step on hashes: `(d * hash(s) + ord(c)) % q` is the hash of `s + [c]`. */
  lemma HornerStep(s: string, c: char, q: int)
    requires q > 0
    ensures (Base * Hash(s, q) + Ord(c)) % q == Hash(s + [c], q)
  {
    assert (s + [c])[..|s|] == s;
    ModMod(Poly(s), q);
    CongruentLinear(Poly(s) % q, Poly(s), 0, 0, Base, q);
    CongruentShift(Base * (Poly(s) % q), Base * Poly(s), Ord(c), q);
  }

  /** One step of the loop that computes `h`: multiplying by the base modulo `q` keeps `h`
      congruent to the next power of the base. */
  lemma PowStep(h: int, e: nat, q: int)
    requires q > 0 && h % q == Pow(Base, e) % q
    ensures ((h * Base) % q) % q == Pow(Base, e + 1) % q
  {
    ModMod(h * Base, q);
    CongruentLinear(h, Pow(Base, e), 0, 0, Base, q);
    assert Base * (h - 0) == h * Base;
    assert Base * (Pow(Base, e) - 0) == Pow(Base, e + 1);
  }

  /** The first character of a non-empty string carries the weight `Base ^ (|s| - 1)`. */
  lemma {:induction false} PolyLeading(s: string)
    requires |s| >= 1
    ensures Poly(s) == Ord(s[0]) * Pow(Base, |s| - 1) + Poly(s[1..])
  {
    if |s| == 1 {
      assert s[1..] == [];
    } else {
      var init := s[..|s| - 1];
      PolyLeading(init);
      assert init[1..] == s[1..][..|s[1..]| - 1];
      assert s[1..][|s[1..]| - 1] == s[|s| - 1];
      calc {
        Poly(s);
        Poly(init) * Base + Ord(s[|s| - 1]);
        (Ord(s[0]) * Pow(Base, |s| - 2) + Poly(init[1..])) * Base + Ord(s[|s| - 1]);
        Ord(s[0]) * (Pow(Base, |s| - 2) * Base) + (Poly(init[1..]) * Base + Ord(s[|s| - 1]));
        Ord(s[0]) * Pow(Base, |s| - 1) + Poly(s[1..]);
      }
    }
  }

  /** The value of the window at `i + 1` from the value of the window at `i`: remove the leading
      character's weight, shift by the base and add the incoming character. */
  lemma PolyRoll(t: string, i: nat, m: nat)
    requires m >= 1 && i + m < |t|
    ensures Poly(t[i + 1..i + m + 1])
      == Base * (Poly(t[i..i + m]) - Ord(t[i]) * Pow(Base, m - 1)) + Ord(t[i + m])
  {
    var w := t[i..i + m + 1];
    assert w[..m] == t[i..i + m] && w[m] == t[i + m];
    assert w[1..] == t[i + 1..i + m + 1] && w[0] == t[i];
    PolyLeading(w);
    assert Pow(Base, m) == Pow(Base, m - 1) * Base;
  }

  /** The rolling update of the source, applied to the hash of the window at `i` and to a number
      congruent to `Base ^ (m - 1)`, gives the hash of the window at `i + 1`; the result is never
      negative, so the correction for a negative hash never applies. */
  lemma RollStep(t: string, i: nat, m: nat, q: int, hash: int, h: int)
    requires q > 0 && m >= 1 && i + m < |t|
    requires hash == Hash(t[i..i + m], q) && h % q == Pow(Base, m - 1) % q
    ensures (Base * (hash - Ord(t[i]) * h) + Ord(t[i + m])) % q == Hash(t[i + 1..i + m + 1], q)
  {
    var o := Ord(t[i]);
    PolyRoll(t, i, m);
    ModMod(Poly(t[i..i + m]), q);
    assert (o * h) % q == (o * Pow(Base, m - 1)) % q by {
      CongruentLinear(h, Pow(Base, m - 1), 0, 0, o, q);
      assert o * (h - 0) == o * h && o * (Pow(Base, m - 1) - 0) == o * Pow(Base, m - 1);
    }
    CongruentLinear(hash, Poly(t[i..i + m]), o * h, o * Pow(Base, m - 1), Base, q);
    CongruentShift(Base * (hash - o * h), Base * (Poly(t[i..i + m]) - o * Pow(Base, m - 1)),
      Ord(t[i + m]), q);
  }
}
