/** The Java string primitives the services rely on: `String.trim`,
    `Character.isWhitespace` (behind Spring's `Assert.hasText` and
    commons-lang's `isNotBlank`), the regular expression `^\d+$`,
    `Integer.parseInt` on digit strings, and decimal rendering of numbers. */
module Text {

  // ---------------------------------------------------------------------
  // String.trim
  // ---------------------------------------------------------------------

  /** `String.trim` strips every character at or below U+0020. */
  predicate IsTrimmable(c: char) {
    c <= ' '
  }

  function TrimStart(s: string): (r: string)
    ensures |r| <= |s| && r == s[|s| - |r|..]
    ensures |r| > 0 ==> !IsTrimmable(r[0])
    ensures forall i :: 0 <= i < |s| - |r| ==> IsTrimmable(s[i])
  {
    if |s| > 0 && IsTrimmable(s[0]) then TrimStart(s[1..]) else s
  }

  function TrimEnd(s: string): (r: string)
    ensures |r| <= |s| && r == s[..|r|]
    ensures |r| > 0 ==> !IsTrimmable(r[|r| - 1])
    ensures forall i :: |r| <= i < |s| ==> IsTrimmable(s[i])
  {
    if |s| > 0 && IsTrimmable(s[|s| - 1]) then TrimEnd(s[..|s| - 1]) else s
  }

  function Trim(s: string): string {
    TrimEnd(TrimStart(s))
  }

  /** `s.trim().isEmpty()`, the import's blank test. */
  predicate IsBlank(s: string) {
    Trim(s) == []
  }

  /** A string is blank exactly when every character is trimmable. */
  lemma BlankIffAllTrimmable(s: string)
    ensures IsBlank(s) <==> forall i :: 0 <= i < |s| ==> IsTrimmable(s[i])
  {
    var t := TrimStart(s);
    if forall i :: 0 <= i < |s| ==> IsTrimmable(s[i]) {
    } else {
      var i :| 0 <= i < |s| && !IsTrimmable(s[i]);
      assert |s| - |t| <= i;
      assert t[i - (|s| - |t|)] == s[i];
    }
  }

  // ---------------------------------------------------------------------
  // Character.isWhitespace, Assert.hasText, StringUtils.isNotBlank
  // ---------------------------------------------------------------------

  /** `Character.isWhitespace`: the Unicode space, line and paragraph
      separators other than the no-break spaces U+00A0, U+2007 and U+202F,
      plus U+0009..U+000D and U+001C..U+001F. */
  predicate IsJavaWhitespace(c: char) {
    || c == ' '
    || ('\t' <= c <= '\r')
    || ('\U{1C}' <= c <= '\U{1F}')
    || c == '\U{1680}'
    || ('\U{2000}' <= c <= '\U{200A}' && c != '\U{2007}')
    || c == '\U{2028}'
    || c == '\U{2029}'
    || c == '\U{205F}'
    || c == '\U{3000}'
  }

  /** Spring's `Assert.hasText` and commons-lang's `StringUtils.isNotBlank`
      on a non-null string: some character is not whitespace. */
  predicate HasText(s: string) {
    exists i :: 0 <= i < |s| && !IsJavaWhitespace(s[i])
  }

  /** The two blank tests disagree in both directions: a control character
      is trimmed but is not whitespace, and an em space is whitespace but is
      not trimmed. */
  lemma BlankAndHasTextDiffer()
    ensures IsBlank("\U{1}") && HasText("\U{1}")
    ensures !IsBlank("\U{2003}") && !HasText("\U{2003}")
  {
    BlankIffAllTrimmable("\U{1}");
    BlankIffAllTrimmable("\U{2003}");
    assert !IsTrimmable("\U{2003}"[0]);
    assert !IsJavaWhitespace("\U{1}"[0]);
  }

  // ---------------------------------------------------------------------
  // Digits and decimal numbers
  // ---------------------------------------------------------------------

  function Pow10(k: nat): (p: nat)
    ensures p >= 1
  {
    if k == 0 then 1 else 10 * Pow10(k - 1)
  }

  /** `\d` in a Java regular expression without UNICODE_CHARACTER_CLASS. */
  predicate IsDigit(c: char) {
    '0' <= c <= '9'
  }

  predicate AllDigits(s: string) {
    forall i :: 0 <= i < |s| ==> IsDigit(s[i])
  }

  /** `s.matches("^\\d+$")`: one or more ASCII digits and nothing else. */
  predicate IsDigits(s: string) {
    |s| > 0 && AllDigits(s)
  }

  function DigitValue(c: char): (d: nat)
    requires IsDigit(c)
    ensures d < 10
  {
    c as int - '0' as int
  }

  function Digit(d: nat): (c: char)
    requires d < 10
    ensures IsDigit(c) && DigitValue(c) == d
  {
    ('0' as int + d) as char
  }

  /** The number a digit string denotes, leading zeros allowed
      (`Integer.parseInt` on digits, before its range check). */
  function ValueOf(s: string): (n: nat)
    requires AllDigits(s)
    ensures n < Pow10(|s|)
  {
    if |s| == 0 then 0
    else ValueOf(s[..|s| - 1]) * 10 + DigitValue(s[|s| - 1])
  }

  lemma ValueOfSnoc(s: string, c: char)
    requires AllDigits(s) && IsDigit(c)
    ensures AllDigits(s + [c])
    ensures ValueOf(s + [c]) == ValueOf(s) * 10 + DigitValue(c)
  {
    assert (s + [c])[..|s|] == s;
  }

  /** `String.valueOf(n)` for a non-negative number: no leading zeros. */
  function Decimal(n: nat): (r: string)
    ensures IsDigits(r)
    ensures ValueOf(r) == n
    ensures r[0] == '0' ==> n == 0 && |r| == 1
  {
    if n < 10 then [Digit(n)]
    else
      var r := Decimal(n / 10) + [Digit(n % 10)];
      ValueOfSnoc(Decimal(n / 10), Digit(n % 10));
      r
  }

  /** `String.valueOf(i)` / `Long.toString(i)` for any integer. */
  function IntToString(i: int): (r: string)
    ensures |r| > 0
    ensures i >= 0 <==> IsDigits(r)
  {
    if i < 0 then
      var r := "-" + Decimal(-i);
      assert !IsDigit(r[0]);
      r
    else Decimal(i)
  }

  /** The last `w` decimal digits of `n`, zero padded: how `yyyy` and `MM`
      print a year or month that fits in the field. */
  function Fixed(n: nat, w: nat): (r: string)
    ensures |r| == w && AllDigits(r)
  {
    if w == 0 then [] else Fixed(n / 10, w - 1) + [Digit(n % 10)]
  }

  lemma {:induction false} FixedValue(n: nat, w: nat)
    requires n < Pow10(w)
    ensures ValueOf(Fixed(n, w)) == n
  {
    if w > 0 {
      FixedValue(n / 10, w - 1);
      ValueOfSnoc(Fixed(n / 10, w - 1), Digit(n % 10));
    }
  }

  /** Printing the value of a digit string at its own width restores it. */
  lemma {:induction false} FixedOfValue(s: string)
    requires AllDigits(s)
    ensures Fixed(ValueOf(s), |s|) == s
  {
    if |s| > 0 {
      var p := s[..|s| - 1];
      FixedOfValue(p);
      assert s == p + [s[|s| - 1]];
    }
  }

  /** A number with exactly `w` significant digits prints the same with and
      without padding to `w`. */
  lemma {:induction false} DecimalIsFixed(n: nat, w: nat)
    requires w >= 1 && Pow10(w - 1) <= n < Pow10(w)
    ensures Decimal(n) == Fixed(n, w)
  {
    if w == 1 {
      assert Fixed(n / 10, 0) == [];
    } else {
      DecimalIsFixed(n / 10, w - 1);
    }
  }

  /** The length of `Decimal(n)` is the number of significant digits of `n`. */
  lemma {:induction false} DecimalLength(n: nat)
    ensures n < Pow10(|Decimal(n)|)
    ensures |Decimal(n)| > 1 ==> Pow10(|Decimal(n)| - 1) <= n
  {
    if n >= 10 {
      DecimalLength(n / 10);
    }
  }
}
