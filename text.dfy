/**
 * The handful of Python `str` operations the three scripts use, on
 * `seq<char>`: `strip()`, `rstrip(c)`, `startswith`, substring `in`,
 * `lower()`, `isdigit()`/`int()`, `str(n)` and `isalnum()`.
 * Letters and digits are the ASCII ones; whitespace is the set Python's
 * `str.isspace` accepts.
 */
module Text {

  /** A character that `str.strip()` with no argument removes. */
  predicate IsSpace(c: char) {
    || c == ' '
    || '\t' <= c <= '\r'
    || '\U{1c}' <= c <= '\U{1f}'
    || c == '\U{85}' || c == '\U{a0}' || c == '\U{1680}'
    || '\U{2000}' <= c <= '\U{200a}'
    || c == '\U{2028}' || c == '\U{2029}' || c == '\U{202f}'
    || c == '\U{205f}' || c == '\U{3000}'
  }

  /** The number of whitespace characters `s` starts with. */
  function LeadingSpaces(s: string): (n: nat)
    ensures n <= |s|
  {
    if |s| > 0 && IsSpace(s[0]) then 1 + LeadingSpaces(s[1..]) else 0
  }

  /** The leading whitespace is all whitespace, and what follows it is not. */
  lemma {:induction false} LeadingSpacesShape(s: string)
    ensures var n := LeadingSpaces(s);
      && (forall k :: 0 <= k < n ==> IsSpace(s[k]))
      && (n == |s| || !IsSpace(s[n]))
    decreases |s|
  {
    if |s| > 0 && IsSpace(s[0]) {
      LeadingSpacesShape(s[1..]);
      forall k | 0 < k < LeadingSpaces(s)
        ensures IsSpace(s[k])
      {
        assert s[k] == s[1..][k - 1];
      }
    }
  }

  /** The number of whitespace characters `s` ends with. */
  function TrailingSpaces(s: string): (n: nat)
    ensures n <= |s|
  {
    if |s| > 0 && IsSpace(s[|s| - 1]) then 1 + TrailingSpaces(s[..|s| - 1]) else 0
  }

  /** The trailing whitespace is all whitespace, and what precedes it is not. */
  lemma {:induction false} TrailingSpacesShape(s: string)
    ensures var n := TrailingSpaces(s);
      && (forall k :: |s| - n <= k < |s| ==> IsSpace(s[k]))
      && (n == |s| || !IsSpace(s[|s| - n - 1]))
    decreases |s|
  {
    if |s| > 0 && IsSpace(s[|s| - 1]) {
      TrailingSpacesShape(s[..|s| - 1]);
    }
  }

  /** `s.lstrip()`: drops the leading whitespace and nothing else. */
  function LStrip(s: string): (r: string)
    ensures |r| <= |s| && r == s[|s| - |r|..]
    ensures forall k :: 0 <= k < |s| - |r| ==> IsSpace(s[k])
    ensures r == [] || !IsSpace(r[0])
  {
    LeadingSpacesShape(s);
    s[LeadingSpaces(s)..]
  }

  /** `s.rstrip()`: drops the trailing whitespace and nothing else. */
  function RStrip(s: string): (r: string)
    ensures |r| <= |s| && r == s[..|r|]
    ensures forall k :: |r| <= k < |s| ==> IsSpace(s[k])
    ensures r == [] || !IsSpace(r[|r| - 1])
  {
    TrailingSpacesShape(s);
    s[..|s| - TrailingSpaces(s)]
  }

  /** `s.strip()`: a contiguous piece of `s` that neither starts nor ends with whitespace. */
  function Strip(s: string): (r: string)
    ensures |r| <= |s|
    ensures r == [] || (!IsSpace(r[0]) && !IsSpace(r[|r| - 1]))
  {
    RStrip(LStrip(s))
  }

  /**
   * `s.strip()` removes the leading and the trailing whitespace and nothing
   * else: the strip is the piece of `s` that starts after the leading
   * whitespace, and only whitespace surrounds it.
   */
  lemma {:induction false} StripShape(s: string)
    ensures var r, i := Strip(s), LeadingSpaces(s);
      && i + |r| <= |s| && r == s[i..i + |r|]
      && (forall k :: 0 <= k < i ==> IsSpace(s[k]))
      && (forall k :: i + |r| <= k < |s| ==> IsSpace(s[k]))
  {
    var l := LStrip(s);
    SpacedPiece(s, l, RStrip(l));
  }

  /**
   * A prefix `r` of a suffix `l` of `s` is the slice of `s` that starts
   * where `l` does; when `l` drops only whitespace from `s` and `r` only
   * whitespace from `l`, only whitespace surrounds `r` in `s`.
   */
  lemma {:induction false} SpacedPiece(s: string, l: string, r: string)
    requires |l| <= |s| && l == s[|s| - |l|..]
    requires forall k :: 0 <= k < |s| - |l| ==> IsSpace(s[k])
    requires |r| <= |l| && r == l[..|r|]
    requires forall k :: |r| <= k < |l| ==> IsSpace(l[k])
    ensures var i := |s| - |l|;
      && i + |r| <= |s| && r == s[i..i + |r|]
      && (forall k :: 0 <= k < i ==> IsSpace(s[k]))
      && (forall k :: i + |r| <= k < |s| ==> IsSpace(s[k]))
  {
    var i := |s| - |l|;
    forall k | i + |r| <= k < |s|
      ensures IsSpace(s[k])
    {
      assert s[k] == l[k - i];
    }
  }

  /** `s.rstrip(c)` for a single character `c`. */
  function RStripChar(s: string, c: char): (r: string)
    ensures |r| <= |s| && r == s[..|r|]
    ensures forall k :: |r| <= k < |s| ==> s[k] == c
    ensures r == [] || r[|r| - 1] != c
  {
    if |s| > 0 && s[|s| - 1] == c then RStripChar(s[..|s| - 1], c) else s
  }

  /** `s.startswith(p)`. */
  predicate StartsWith(s: string, p: string) {
    |p| <= |s| && s[..|p|] == p
  }

  /** Python's substring test `p in s`. */
  predicate Contains(s: string, p: string)
    decreases |s|
  {
    StartsWith(s, p) || (|s| > 0 && Contains(s[1..], p))
  }

  /** `p` sits in `s` at index `i`. */
  predicate OccursAt(s: string, p: string, i: nat) {
    i + |p| <= |s| && s[i..i + |p|] == p
  }

  /** A piece that sits somewhere in `s` is found by `Contains`. */
  lemma {:induction false} OccurrenceContained(s: string, p: string, i: nat)
    requires OccursAt(s, p, i)
    ensures Contains(s, p)
    decreases i
  {
    if i == 0 {
      assert StartsWith(s, p);
    } else {
      assert s[1..][i - 1..i - 1 + |p|] == s[i..i + |p|];
      OccurrenceContained(s[1..], p, i - 1);
    }
  }

  /** `p in s` holds exactly when `p` sits in `s` at some index. */
  lemma ContainsIff(s: string, p: string)
    ensures Contains(s, p) <==> exists i: nat :: OccursAt(s, p, i)
  {
    if Contains(s, p) {
      var i := ContainsAt(s, p);
      assert OccursAt(s, p, i);
    }
    if exists i: nat :: OccursAt(s, p, i) {
      var i: nat :| OccursAt(s, p, i);
      OccurrenceContained(s, p, i);
    }
  }

  /** A piece found in `b` is still found after anything is put in front of `b`. */
  lemma {:induction false} ContainsAfterPrefix(a: string, b: string, p: string)
    requires Contains(b, p)
    ensures Contains(a + b, p)
    decreases |a|
  {
    if a == [] {
      assert a + b == b;
    } else {
      assert (a + b)[1..] == a[1..] + b;
      ContainsAfterPrefix(a[1..], b, p);
    }
  }

  /** `Contains` means what it says: `p` sits somewhere in `s`. */
  lemma {:induction false} ContainsAt(s: string, p: string) returns (i: nat)
    requires Contains(s, p)
    ensures i + |p| <= |s| && s[i..i + |p|] == p
    decreases |s|
  {
    if StartsWith(s, p) {
      i := 0;
    } else {
      var j := ContainsAt(s[1..], p);
      assert s[1..][j..j + |p|] == s[j + 1..j + 1 + |p|];
      i := j + 1;
    }
  }

  /** A piece with a character that `s` lacks is not in `s`. */
  lemma NotContainsMissing(s: string, p: string, k: nat)
    requires k < |p| && forall j :: 0 <= j < |s| ==> s[j] != p[k]
    ensures !Contains(s, p)
  {
    if Contains(s, p) {
      var i := ContainsAt(s, p);
    }
  }

  function LowerChar(c: char): char {
    if 'A' <= c <= 'Z' then (c as int + 32) as char else c
  }

  /** `s.lower()` on ASCII letters; every other character is kept. */
  function Lower(s: string): (r: string)
    ensures |r| == |s|
    ensures forall k :: 0 <= k < |s| ==> r[k] == LowerChar(s[k])
  {
    seq(|s|, k requires 0 <= k < |s| => LowerChar(s[k]))
  }

  predicate IsAlnum(c: char) {
    'a' <= c <= 'z' || 'A' <= c <= 'Z' || '0' <= c <= '9'
  }

  predicate IsDigit(c: char) {
    '0' <= c <= '9'
  }

  /** `s.isdigit()`: true for a non-empty string of digits only. */
  predicate IsDigits(s: string) {
    |s| > 0 && forall k :: 0 <= k < |s| ==> IsDigit(s[k])
  }

  /** `int(s)` for a string of digits (leading zeros allowed, as in Python). */
  function DigitsValue(s: string): nat
    requires forall k :: 0 <= k < |s| ==> IsDigit(s[k])
  {
    if s == [] then 0
    else
      assert IsDigit(s[|s| - 1]);
      DigitsValue(s[..|s| - 1]) * 10 + (s[|s| - 1] as int - '0' as int)
  }

  function DigitChar(d: nat): (c: char)
    requires d < 10
    ensures IsDigit(c) && c as int - '0' as int == d
  {
    ('0' as int + d) as char
  }

  /**
   * `str(n)`: the decimal digits of `n`, which `int` reads back as `n`, with
   * no leading zero (only 0 itself prints as "0").
   */
  function Decimal(n: nat): (r: string)
    ensures IsDigits(r)
    ensures DigitsValue(r) == n
    ensures |r| == 1 || r[0] != '0'
    ensures r[0] == '0' <==> n == 0
  {
    if n < 10 then [DigitChar(n)]
    else
      var r := Decimal(n / 10) + [DigitChar(n % 10)];
      assert r[..|r| - 1] == Decimal(n / 10);
      r
  }

  /** A digit string that starts with a non-zero digit reads as a positive number. */
  lemma {:induction false} LeadingDigitPositive(s: string)
    requires IsDigits(s) && s[0] != '0'
    ensures DigitsValue(s) >= 1
    decreases |s|
  {
    if |s| > 1 {
      LeadingDigitPositive(s[..|s| - 1]);
    }
  }

  /**
   * `str(int(s)) == s` for every digit string without a leading zero: such a
   * string is the only way `str` prints its value.
   */
  lemma {:induction false} DecimalOfDigits(s: string)
    requires IsDigits(s) && (|s| == 1 || s[0] != '0')
    ensures Decimal(DigitsValue(s)) == s
    decreases |s|
  {
    var init, d := s[..|s| - 1], s[|s| - 1] as int - '0' as int;
    assert DigitChar(d) == s[|s| - 1];
    if |s| == 1 {
      assert DigitsValue(s) == d;
    } else {
      var a := DigitsValue(init);
      assert DigitsValue(s) == a * 10 + d;
      assert init[0] == s[0];
      LeadingDigitPositive(init);
      DecimalOfDigits(init);
      ShiftDigit(a, d);
      assert Decimal(DigitsValue(s)) == init + [DigitChar(d)];
      assert s == init + [s[|s| - 1]];
    }
  }

  /** Appending digit `d` to `a >= 1` gives a number of two digits or more that splits back into `a` and `d`. */
  lemma ShiftDigit(a: nat, d: nat)
    requires 1 <= a && d < 10
    ensures a * 10 + d >= 10 && (a * 10 + d) / 10 == a && (a * 10 + d) % 10 == d
  {
  }

  /** Different numbers print differently. */
  lemma DecimalInjective(m: nat, n: nat)
    requires Decimal(m) == Decimal(n)
    ensures m == n
  {
    assert DigitsValue(Decimal(m)) == m;
  }

  /**
   * The scripts' URL absolutisation: an `href` that starts with "http" is
   * kept, any other is appended to `base`.
   */
  function Absolute(base: string, href: string): string {
    if StartsWith(href, "http") then href else base + href
  }

  /** An absolutised URL starts with "http" when the base does, and it ends with the href. */
  lemma AbsoluteShape(base: string, href: string)
    requires StartsWith(base, "http")
    ensures StartsWith(Absolute(base, href), "http")
    ensures var u := Absolute(base, href); |href| <= |u| && u[|u| - |href|..] == href
  {
    if !StartsWith(href, "http") {
      assert (base + href)[..4] == base[..4];
      assert (base + href)[|base|..] == href;
    }
  }
}
