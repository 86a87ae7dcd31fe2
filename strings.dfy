/**
 * The Python string built-ins the core relies on: `str.find` of one
 * character, substring occurrence, `str.replace`, `str.lower` (ASCII),
 * `str(int)` and `int(str)` on decimal digit strings.
 */
module Strings {
  import opened Wrappers

  predicate IsDigit(c: char) { '0' <= c <= '9' }

  predicate IsAsciiLetter(c: char) { 'a' <= c <= 'z' || 'A' <= c <= 'Z' }

  predicate AllDigits(s: string) { forall i :: 0 <= i < |s| ==> IsDigit(s[i]) }

  /** Index of the first `c` in `s` (`None` where `str.find` gives -1). */
  function IndexOf(s: string, c: char): (r: Option<nat>)
    ensures r.Some? ==> r.value < |s| && s[r.value] == c && c !in s[..r.value]
    ensures r.None? <==> c !in s
  {
    if |s| == 0 then None
    else if s[0] == c then Some(0)
    else
      match IndexOf(s[1..], c)
      case None =>
        assert s == [s[0]] + s[1..];
        None
      case Some(i) =>
        assert s[..i + 1] == [s[0]] + s[1..][..i];
        Some(i + 1)
  }

  /** Any index holding the first `c` is the one `IndexOf` returns. */
  lemma IndexOfIsFirst(s: string, c: char, i: nat)
    requires i < |s| && s[i] == c && c !in s[..i]
    ensures IndexOf(s, c) == Some(i)
  {
    assert c in s;
  }

  /** `k` occurs in `s` starting at position `p`. */
  ghost predicate OccursAt(s: string, k: string, p: nat) {
    p + |k| <= |s| && s[p..p + |k|] == k
  }

  ghost predicate Occurs(s: string, k: string) {
    exists p: nat :: OccursAt(s, k, p)
  }

  /** An occurrence in a suffix is an occurrence in the whole string. */
  lemma OccursInSuffix(s: string, k: string, d: nat, p: nat)
    requires d <= |s|
    ensures OccursAt(s[d..], k, p) ==> OccursAt(s, k, p + d)
  {
    if OccursAt(s[d..], k, p) {
      assert s[d..][p..p + |k|] == s[p + d..p + d + |k|];
    }
  }

  /** If `k` does not occur in `s`, it does not occur in any suffix of `s`. */
  lemma NoOccurrenceInSuffix(s: string, k: string, d: nat)
    requires d <= |s| && !Occurs(s, k)
    ensures !Occurs(s[d..], k)
  {
    forall p: nat ensures !OccursAt(s[d..], k, p) {
      OccursInSuffix(s, k, d, p);
    }
  }

  /** An occurrence past position `d` is an occurrence in the suffix from `d`. */
  lemma OccursPastPrefix(s: string, k: string, d: nat, p: nat)
    requires d <= p && d <= |s|
    ensures OccursAt(s, k, p) ==> OccursAt(s[d..], k, p - d)
  {
    if OccursAt(s, k, p) {
      assert s[d..][p - d..p - d + |k|] == s[p..p + |k|];
    }
  }

  /**
   * `s.replace(target, replacement)`: every non-overlapping occurrence of
   * `target`, scanning left to right, is replaced. For an empty `target`
   * Python inserts `replacement` before every character and at the end.
   */
  function Replace(s: string, target: string, replacement: string): (r: string)
    ensures replacement == target ==> r == s
    ensures target != [] && |replacement| <= |target| ==> |r| <= |s|
    decreases |s|
  {
    if target == [] then ReplaceEmpty(s, replacement)
    else if |s| < |target| then s
    else if s[..|target|] == target
    then replacement + Replace(s[|target|..], target, replacement)
    else [s[0]] + Replace(s[1..], target, replacement)
  }

  /** `str.replace` with an empty target: the replacement before every character and at the end. */
  function ReplaceEmpty(s: string, replacement: string): (r: string)
    ensures |r| == |s| + (|s| + 1) * |replacement|
    ensures replacement == [] ==> r == s
  {
    if s == [] then replacement else replacement + [s[0]] + ReplaceEmpty(s[1..], replacement)
  }

  /** A body in which `target` does not occur comes back unchanged. */
  lemma {:induction false} ReplaceWithoutOccurrence(s: string, target: string, replacement: string)
    requires !Occurs(s, target)
    ensures Replace(s, target, replacement) == s
    decreases |s|
  {
    if target == [] {
      assert OccursAt(s, target, 0);
    } else if |s| >= |target| {
      assert !OccursAt(s, target, 0);
      NoOccurrenceInSuffix(s, target, 1);
      ReplaceWithoutOccurrence(s[1..], target, replacement);
      assert [s[0]] + s[1..] == s;
    }
  }

  /**
   * Each prefix of a result either is untouched original text or contains
   * a full copy of `replacement` starting inside it.
   */
  lemma {:induction false} ReplacePrefix(s: string, target: string, replacement: string, m: nat)
    requires target != [] && replacement != []
    requires m <= |Replace(s, target, replacement)|
    ensures var r := Replace(s, target, replacement);
      (m <= |s| && r[..m] == s[..m]) || exists q: nat :: q < m && OccursAt(r, replacement, q)
    decreases |s|
  {
    var r := Replace(s, target, replacement);
    if |s| < |target| || m == 0 {
    } else if s[..|target|] == target {
      assert OccursAt(r, replacement, 0);
    } else {
      var r' := Replace(s[1..], target, replacement);
      assert r == [s[0]] + r';
      ReplacePrefix(s[1..], target, replacement, m - 1);
      if m - 1 <= |s[1..]| && r'[..m - 1] == s[1..][..m - 1] {
        assert r[..m] == [s[0]] + r'[..m - 1];
        assert s[..m] == [s[0]] + s[1..][..m - 1];
      } else {
        var q: nat :| q < m - 1 && OccursAt(r', replacement, q);
        OccursInSuffix(r, replacement, 1, q);
        assert r[1..] == r';
      }
    }
  }

  /**
   * A replacement text that cannot take part in forming `k`: it is
   * non-empty, holds neither the first nor the last character of `k`,
   * and does not occur inside `k`.
   */
  ghost predicate Clean(replacement: string, k: string) {
    && replacement != [] && k != []
    && k[0] !in replacement
    && k[|k| - 1] !in replacement
    && !Occurs(k, replacement)
  }

  /**
   * After replacing `target` by a clean text, `k` does not occur, if `k`
   * is the target itself or did not occur before.
   */
  lemma {:induction false} ReplaceLeavesNoOccurrence(s: string, target: string, replacement: string, k: string)
    requires target != [] && Clean(replacement, k)
    requires k == target || !Occurs(s, k)
    ensures !Occurs(Replace(s, target, replacement), k)
    decreases |s|
  {
    var r := Replace(s, target, replacement);
    if |s| < |target| {
      assert r == s;
    } else if s[..|target|] == target {
      var s' := s[|target|..];
      if k != target {
        NoOccurrenceInSuffix(s, k, |target|);
      }
      ReplaceLeavesNoOccurrence(s', target, replacement, k);
      var r' := Replace(s', target, replacement);
      assert r == replacement + r';
      assert r[|replacement|..] == r';
      forall p: nat ensures !OccursAt(r, k, p) {
        if p < |replacement| {
          if p + |k| <= |r| {
            assert r[p..p + |k|][0] == replacement[p];
          }
        } else {
          OccursPastPrefix(r, k, |replacement|, p);
        }
      }
    } else {
      var s' := s[1..];
      if k != target {
        NoOccurrenceInSuffix(s, k, 1);
      }
      ReplaceLeavesNoOccurrence(s', target, replacement, k);
      var r' := Replace(s', target, replacement);
      assert r == [s[0]] + r';
      assert r[1..] == r';
      forall p: nat ensures !OccursAt(r, k, p) {
        if p >= 1 {
          OccursPastPrefix(r, k, 1, p);
        } else {
          NoOccurrenceAtStart(s, target, replacement, k);
        }
      }
    }
  }

  /** The case of `ReplaceLeavesNoOccurrence` where the scan did not match at 0. */
  lemma NoOccurrenceAtStart(s: string, target: string, replacement: string, k: string)
    requires target != [] && Clean(replacement, k)
    requires k == target || !Occurs(s, k)
    requires |s| >= |target| && s[..|target|] != target
    ensures !OccursAt(Replace(s, target, replacement), k, 0)
  {
    var r := Replace(s, target, replacement);
    if |k| <= |r| {
      ReplacePrefix(s, target, replacement, |k|);
      if |k| <= |s| && r[..|k|] == s[..|k|] {
        assert !OccursAt(s, k, 0);
      } else {
        var q: nat :| q < |k| && OccursAt(r, replacement, q);
        if q + |replacement| >= |k| {
          assert r[|k| - 1] == replacement[|k| - 1 - q];
          assert r[..|k|][|k| - 1] != k[|k| - 1];
        } else {
          assert r[..|k|][q..q + |replacement|] == replacement;
          assert !OccursAt(k, replacement, q);
        }
      }
    }
  }

  function LowerChar(c: char): char {
    if 'A' <= c <= 'Z' then (c as int - 'A' as int + 'a' as int) as char else c
  }

  predicate IsAsciiUpper(c: char) { 'A' <= c <= 'Z' }

  /** `s.lower()` on ASCII letters: no upper-case letter is left, and every other character is kept. */
  function Lower(s: string): (r: string)
    ensures |r| == |s|
    ensures forall i :: 0 <= i < |r| ==> !IsAsciiUpper(r[i])
    ensures forall i :: 0 <= i < |s| && !IsAsciiUpper(s[i]) ==> r[i] == s[i]
    ensures forall i :: 0 <= i < |s| && IsAsciiUpper(s[i]) ==>
      'a' <= r[i] <= 'z' && r[i] as int - 'a' as int == s[i] as int - 'A' as int
  {
    seq(|s|, i requires 0 <= i < |s| => LowerChar(s[i]))
  }

  /** Lower-casing is idempotent: a text without upper-case letters is its own lower-case form. */
  lemma LowerIdempotent(s: string)
    ensures Lower(Lower(s)) == Lower(s)
    ensures (forall i :: 0 <= i < |s| ==> !IsAsciiUpper(s[i])) ==> Lower(s) == s
  {
  }

  function DigitChar(d: nat): char
    requires d < 10
  {
    ('0' as int + d) as char
  }

  function DigitValue(c: char): nat
    requires IsDigit(c)
  {
    c as int - '0' as int
  }

  /** `str(n)`: the decimal digits of `n`, without leading zeros. */
  function DecimalString(n: nat): (s: string)
    ensures |s| > 0 && AllDigits(s)
    ensures |s| > 1 ==> s[0] != '0'
  {
    if n < 10 then [DigitChar(n)] else DecimalString(n / 10) + [DigitChar(n % 10)]
  }

  /** The number a string of decimal digits denotes. */
  function DigitsValue(s: string): nat
    requires AllDigits(s)
  {
    if s == [] then 0 else DigitsValue(s[..|s| - 1]) * 10 + DigitValue(s[|s| - 1])
  }

  /** `int(s)` on a string of ASCII digits; anything else raises `ValueError` (here `None`). */
  function ParseDecimal(s: string): (r: Option<nat>)
    ensures r.Some? <==> |s| > 0 && AllDigits(s)
  {
    if |s| > 0 && AllDigits(s) then Some(DigitsValue(s)) else None
  }

  /** `int(str(n)) == n`. */
  lemma {:induction false} ParseDecimalString(n: nat)
    ensures ParseDecimal(DecimalString(n)) == Some(n)
  {
    if n >= 10 {
      ParseDecimalString(n / 10);
      var s := DecimalString(n);
      assert s[..|s| - 1] == DecimalString(n / 10);
      assert DigitsValue(s[..|s| - 1]) == n / 10;
      assert DigitValue(s[|s| - 1]) == n % 10;
      assert DigitsValue(s) == (n / 10) * 10 + n % 10;
    }
  }

  /** Different numbers have different decimal strings. */
  lemma DecimalStringInjective(a: nat, b: nat)
    requires DecimalString(a) == DecimalString(b)
    ensures a == b
  {
    ParseDecimalString(a);
    ParseDecimalString(b);
  }
}
