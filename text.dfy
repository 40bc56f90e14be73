/** String operations of Python that the annotation engine relies on, written
    out with Python's semantics: clamped slicing, `in`, `str.index`,
    `str.replace`, `startswith`/`endswith`, ASCII case folding and `str(n)`
    for a natural number. */
module Text {
  import opened Wrappers

  function Min(a: int, b: int): int { if a <= b then a else b }

  /** Python's `s[i:j]` for non-negative bounds: both bounds are clamped to
      the length and an inverted range is empty. */
  function PySlice<T>(s: seq<T>, i: nat, j: nat): (r: seq<T>)
    ensures |r| == if i < j && i < |s| then Min(j, |s|) - i else 0
    ensures i <= j <= |s| ==> r == s[i..j]
  {
    if j <= i || |s| <= i then [] else s[i..Min(j, |s|)]
  }

  /** A slice of a slice is a slice of the whole: where `t` sits in `s` at
      `start`, its `n` elements from `a` sit in `s` at `start + a`. */
  lemma SubSlice<T>(s: seq<T>, start: nat, t: seq<T>, a: nat, n: nat)
    requires start + |t| <= |s| && s[start..start + |t|] == t
    requires a + n <= |t|
    ensures s[start + a..start + a + n] == t[a..a + n]
  {
    forall k | a <= k < a + n ensures s[start + k] == t[k] {
      assert s[start..start + |t|][k] == s[start + k];
    }
  }

  /** What a slice of `t` equals, the same slice of `s` equals, where `t`
      (of length `len`) sits in `s` at `start`. */
  lemma SliceTransfer<T>(s: seq<T>, start: nat, t: seq<T>, len: nat, a: nat, n: nat, x: seq<T>)
    requires len == |t| && start + len <= |s| && s[start..start + len] == t
    requires a + n <= len && t[a..a + n] == x
    ensures start + a + n <= |s| && s[start + a..start + a + n] == x
  {
    SubSlice(s, start, t, a, n);
  }

  /** `pat` occurs in `s` starting at position `i`. */
  predicate OccursAt<T(==)>(s: seq<T>, pat: seq<T>, i: nat) {
    i + |pat| <= |s| && s[i..i + |pat|] == pat
  }

  /** An occurrence within an occurrence is an occurrence. */
  lemma OccursAtTrans<T>(s: seq<T>, t: seq<T>, u: seq<T>, i: nat, k: nat)
    requires OccursAt(s, t, i) && OccursAt(t, u, k)
    ensures OccursAt(s, u, i + k)
  {
    SubSlice(s, i, t, k, |u|);
  }

  /** Python's `pat in s` for strings. */
  predicate Contains<T(==)>(s: seq<T>, pat: seq<T>) {
    exists i :: 0 <= i <= |s| - |pat| && OccursAt(s, pat, i)
  }

  predicate StartsWith<T(==)>(s: seq<T>, prefix: seq<T>) {
    |prefix| <= |s| && s[..|prefix|] == prefix
  }

  predicate EndsWith<T(==)>(s: seq<T>, suffix: seq<T>) {
    |suffix| <= |s| && s[|s| - |suffix|..] == suffix
  }

  /** The first position at or after `from` where `pat` occurs, as Python's
      `s.find(pat, from)` (None where Python answers -1). */
  function FindFrom<T(==)>(s: seq<T>, pat: seq<T>, from: nat): (r: Option<nat>)
    decreases |s| - from
    ensures r.Some? ==> from <= r.value && OccursAt(s, pat, r.value)
    ensures r.Some? ==> forall k :: from <= k < r.value ==> !OccursAt(s, pat, k)
    ensures r.None? ==> forall k :: from <= k ==> !OccursAt(s, pat, k)
  {
    if |s| < from + |pat| then None
    else if OccursAt(s, pat, from) then Some(from)
    else FindFrom(s, pat, from + 1)
  }

  /** Python's `s.index(pat)`; None where Python raises ValueError. */
  function IndexOf<T(==)>(s: seq<T>, pat: seq<T>): Option<nat> {
    FindFrom(s, pat, 0)
  }

  /** `str.index` finds the leftmost occurrence and succeeds exactly when
      the pattern occurs. */
  lemma IndexOfContains<T>(s: seq<T>, pat: seq<T>)
    ensures IndexOf(s, pat).Some? <==> Contains(s, pat)
    ensures IndexOf(s, pat).Some? ==>
              OccursAt(s, pat, IndexOf(s, pat).value) &&
              forall k :: 0 <= k < IndexOf(s, pat).value ==> !OccursAt(s, pat, k)
  {
    if IndexOf(s, pat).Some? {
      assert OccursAt(s, pat, IndexOf(s, pat).value);
    }
  }

  /** Python's `s.replace(pat, rep)` for a non-empty pattern: a left-to-right
      scan that replaces non-overlapping occurrences. */
  function ReplaceAll<T(==)>(s: seq<T>, pat: seq<T>, rep: seq<T>): seq<T>
    requires |pat| > 0
    decreases |s|
  {
    if |s| < |pat| then s
    else if s[..|pat|] == pat then rep + ReplaceAll(s[|pat|..], pat, rep)
    else [s[0]] + ReplaceAll(s[1..], pat, rep)
  }

  /** Replacing a pattern that does not occur leaves the string unchanged. */
  lemma {:induction false} ReplaceAllAbsent<T>(s: seq<T>, pat: seq<T>, rep: seq<T>)
    requires |pat| > 0
    requires !Contains(s, pat)
    ensures ReplaceAll(s, pat, rep) == s
  {
    if |s| >= |pat| {
      assert OccursAt(s, pat, 0) == (s[..|pat|] == pat);
      assert !OccursAt(s, pat, 0);
      forall i | 0 <= i <= |s[1..]| - |pat| ensures !OccursAt(s[1..], pat, i) {
        assert s[1..][i..i + |pat|] == s[i + 1..i + 1 + |pat|];
        assert !OccursAt(s, pat, i + 1);
      }
      ReplaceAllAbsent(s[1..], pat, rep);
    }
  }

  /** Replacing a pattern that does occur produces its replacement. */
  lemma {:induction false} ReplaceAllPresent<T>(s: seq<T>, pat: seq<T>, rep: seq<T>)
    requires |pat| > 0
    requires Contains(s, pat)
    ensures Contains(ReplaceAll(s, pat, rep), rep)
  {
    var r := ReplaceAll(s, pat, rep);
    var i :| 0 <= i <= |s| - |pat| && OccursAt(s, pat, i);
    assert |pat| <= |s|;
    if s[..|pat|] == pat {
      assert r == rep + ReplaceAll(s[|pat|..], pat, rep);
      assert OccursAt(r, rep, 0);
    } else {
      assert r == [s[0]] + ReplaceAll(s[1..], pat, rep);
      assert i != 0;
      OccursAtTail(s, pat, i);
      ReplaceAllPresent(s[1..], pat, rep);
      var t := ReplaceAll(s[1..], pat, rep);
      var k :| 0 <= k <= |t| - |rep| && OccursAt(t, rep, k);
      OccursAtCons(s[0], t, rep, k);
    }
  }

  /** An occurrence past the first position is an occurrence in the tail. */
  lemma OccursAtTail<T>(s: seq<T>, pat: seq<T>, i: nat)
    requires 1 <= i && OccursAt(s, pat, i)
    ensures OccursAt(s[1..], pat, i - 1)
  {
    assert s[1..][i - 1..i - 1 + |pat|] == s[i..i + |pat|];
  }

  /** An occurrence survives putting one element in front, one place on. */
  lemma OccursAtCons<T>(x: T, t: seq<T>, u: seq<T>, k: nat)
    requires OccursAt(t, u, k)
    ensures OccursAt([x] + t, u, k + 1)
  {
    var r := [x] + t;
    assert r[1..1 + |t|] == t;
    SliceTransfer(r, 1, t, |t|, k, |u|, u);
  }

  /** Replacing every occurrence of a one-element pattern by nothing removes
      that element and keeps the others in order. */
  lemma {:induction false} ReplaceAllDropsElement<T>(s: seq<T>, x: T)
    ensures x !in ReplaceAll(s, [x], [])
    ensures forall y :: y != x ==> (y in ReplaceAll(s, [x], []) <==> y in s)
  {
    if |s| >= 1 {
      ReplaceAllDropsElement(s[1..], x);
      if s[..1] == [x] {
        assert s[0] == x;
        assert s == [s[0]] + s[1..];
      } else {
        assert s[0] != x;
        assert s == [s[0]] + s[1..];
      }
    }
  }

  /** An ASCII upper-case letter folded to lower case; every other character
      is unchanged. */
  function AsciiLowerChar(c: char): char {
    if 'A' <= c <= 'Z' then (c as int + 32) as char else c
  }

  /** Case folding of a string, character by character. */
  function AsciiLower(s: string): (r: string)
    ensures |r| == |s|
    ensures forall i :: 0 <= i < |s| ==> r[i] == AsciiLowerChar(s[i])
  {
    seq(|s|, i requires 0 <= i < |s| => AsciiLowerChar(s[i]))
  }

  /** `prefix` (given in lower case) begins `s`, ignoring ASCII case. */
  predicate StartsWithIgnoreCase(s: string, prefix: string) {
    |prefix| <= |s| && AsciiLower(s[..|prefix|]) == prefix
  }

  /** Decimal digit `d`. */
  function Digit(d: nat): (c: char)
    requires d < 10
    ensures '0' <= c <= '9' && c as int - '0' as int == d
  {
    ('0' as int + d) as char
  }

  predicate IsDecimal(s: string) {
    forall i :: 0 <= i < |s| ==> '0' <= s[i] <= '9'
  }

  /** Python's `str(n)` for a natural number, the form in which identifiers
      are written into fragment links. */
  function NatToDecimal(n: nat): (r: string)
    decreases n
    ensures |r| >= 1 && IsDecimal(r)
    ensures r[0] == '0' ==> n == 0
  {
    if n < 10 then [Digit(n)] else NatToDecimal(n / 10) + [Digit(n % 10)]
  }

  /** The number a string of decimal digits denotes. */
  function DecimalValue(s: string): nat
    requires IsDecimal(s)
  {
    if s == [] then 0
    else DecimalValue(s[..|s| - 1]) * 10 + (s[|s| - 1] as int - '0' as int)
  }

  /** Reading back the decimal form gives the number again, so distinct
      identifiers render to distinct link targets. */
  lemma {:induction false} DecimalRoundTrip(n: nat)
    ensures DecimalValue(NatToDecimal(n)) == n
  {
    if n >= 10 {
      var r := NatToDecimal(n);
      assert r[..|r| - 1] == NatToDecimal(n / 10);
      DecimalRoundTrip(n / 10);
    }
  }

  lemma DecimalInjective(m: nat, n: nat)
    requires NatToDecimal(m) == NatToDecimal(n)
    ensures m == n
  {
    DecimalRoundTrip(m);
    DecimalRoundTrip(n);
  }
}
