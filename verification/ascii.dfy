/** Text operations the service relies on, restricted to ASCII: `ToLower`,
    `Contains`, the whitespace test behind `[Required]`, and the decimal
    rendering of an `int` by `ToString()`. */
module Ascii {

  function LowerChar(c: char): char {
    if 'A' <= c <= 'Z' then (c as int + 32) as char else c
  }

  /** `ToLower` on ASCII text: upper-case letters map to lower-case, every
      other character is kept. */
  function Lower(s: string): (r: string)
    ensures |r| == |s|
    ensures forall i :: 0 <= i < |s| ==> r[i] == LowerChar(s[i])
  {
    seq(|s|, i requires 0 <= i < |s| => LowerChar(s[i]))
  }

  /** Text with no upper-case ASCII letter. */
  predicate IsLower(s: string) {
    forall i :: 0 <= i < |s| ==> !('A' <= s[i] <= 'Z')
  }

  /** Lower-casing yields lower-case text and changes nothing on lower-case
      text, so lower-casing twice is lower-casing once. */
  lemma LowerNormalizes(s: string)
    ensures IsLower(Lower(s))
    ensures IsLower(s) ==> Lower(s) == s
    ensures Lower(Lower(s)) == Lower(s)
  {
  }

  /** `needle` occurs in `hay` at index `at`. */
  predicate OccursAt(hay: string, needle: string, at: nat) {
    at + |needle| <= |hay| && hay[at..at + |needle|] == needle
  }

  /** `hay.Contains(needle)`: some position of `hay` starts a copy of `needle`. */
  function Contains(hay: string, needle: string): (r: bool)
    ensures r <==> exists at: nat :: OccursAt(hay, needle, at)
    decreases |hay|
  {
    if |needle| <= |hay| && hay[..|needle|] == needle then
      assert OccursAt(hay, needle, 0);
      true
    else if |hay| == 0 then
      assert forall at: nat :: !OccursAt(hay, needle, at);
      false
    else
      var r := Contains(hay[1..], needle);
      assert forall at: nat :: OccursAt(hay[1..], needle, at) <==> OccursAt(hay, needle, at + 1) by {
        forall at: nat ensures OccursAt(hay[1..], needle, at) <==> OccursAt(hay, needle, at + 1) {
          if at + 1 + |needle| <= |hay| {
            assert hay[1..][at..at + |needle|] == hay[at + 1..at + 1 + |needle|];
          }
        }
      }
      assert !OccursAt(hay, needle, 0);
      if r then
        var at: nat :| OccursAt(hay[1..], needle, at);
        assert OccursAt(hay, needle, at + 1);
        true
      else
        assert forall at: nat :: OccursAt(hay, needle, at) ==> at > 0 && OccursAt(hay[1..], needle, at - 1);
        false
  }

  /** `char.IsWhiteSpace` on ASCII characters. */
  predicate IsWhiteSpace(c: char) {
    c == ' ' || c == '\t' || c == '\n' || c == '\r' || c == '\U{0B}' || c == '\U{0C}'
  }

  /** The `[Required]` test on a string: not empty and not only whitespace. */
  predicate HasContent(s: string) {
    exists i :: 0 <= i < |s| && !IsWhiteSpace(s[i])
  }

  // ---------------------------------------------------------------------
  // Decimal text of a natural number.

  predicate IsDigit(c: char) {
    '0' <= c <= '9'
  }

  predicate IsDigits(s: string) {
    forall i :: 0 <= i < |s| ==> IsDigit(s[i])
  }

  function DigitChar(d: nat): (c: char)
    requires d < 10
    ensures IsDigit(c)
  {
    ('0' as int + d) as char
  }

  /** `n.ToString()`: decimal digits, most significant first, no leading zero. */
  function DecimalString(n: nat): (r: string)
    ensures |r| >= 1 && IsDigits(r)
    decreases n
  {
    if n < 10 then [DigitChar(n)] else DecimalString(n / 10) + [DigitChar(n % 10)]
  }

  /** The number a string of decimal digits denotes. */
  function DecimalValue(s: string): nat
    requires IsDigits(s)
  {
    if |s| == 0 then 0
    else DecimalValue(s[..|s| - 1]) * 10 + (s[|s| - 1] as int - '0' as int)
  }

  /** Reading back the decimal text of `n` gives `n`. */
  lemma {:induction false} DecimalRoundTrip(n: nat)
    ensures DecimalValue(DecimalString(n)) == n
    decreases n
  {
    if n >= 10 {
      DecimalRoundTrip(n / 10);
      var s := DecimalString(n);
      assert s[..|s| - 1] == DecimalString(n / 10);
    }
  }

  function Pow10(k: nat): (r: nat)
    ensures r >= 1
  {
    if k == 0 then 1 else 10 * Pow10(k - 1)
  }

  /** A number with `k` digits is written with exactly `k` characters, the
      first of which is not `0`. */
  lemma {:induction false} DecimalWidth(n: nat, k: nat)
    requires 1 <= k && Pow10(k - 1) <= n < Pow10(k)
    ensures |DecimalString(n)| == k
    ensures DecimalString(n)[0] != '0'
    decreases k
  {
    if k == 1 {
      assert 1 <= n < 10;
    } else {
      assert Pow10(k - 1) == 10 * Pow10(k - 2);
      assert n >= 10;
      DecimalWidth(n / 10, k - 1);
    }
  }

  /** The length .NET's `string.Length` reports, which `[StringLength]`
      compares: UTF-16 code units, so a character outside the Basic
      Multilingual Plane (a surrogate pair) counts twice. */
  function Utf16Length(s: string): (n: nat)
    ensures |s| <= n <= 2 * |s|
  {
    if s == [] then 0 else (if s[0] as int >= 0x10000 then 2 else 1) + Utf16Length(s[1..])
  }

  /** The UTF-16 length is the number of characters exactly when every
      character lies in the Basic Multilingual Plane. */
  lemma {:induction false} Utf16LengthBmp(s: string)
    ensures Utf16Length(s) == |s| <==> forall i :: 0 <= i < |s| ==> s[i] as int < 0x10000
  {
    if s != [] {
      Utf16LengthBmp(s[1..]);
      assert forall i :: 1 <= i < |s| ==> s[i] == s[1..][i - 1];
    }
  }

  /** Text made only of characters outside the Basic Multilingual Plane is
      twice as long in UTF-16 code units as in characters. */
  lemma {:induction false} Utf16LengthAstral(s: string)
    requires forall i :: 0 <= i < |s| ==> s[i] as int >= 0x10000
    ensures Utf16Length(s) == 2 * |s|
  {
    if s != [] {
      assert forall i :: 0 <= i < |s[1..]| ==> s[1..][i] == s[i + 1];
      Utf16LengthAstral(s[1..]);
    }
  }
}
