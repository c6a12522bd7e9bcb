/**
 * The Kotlin and JVM library behaviour the card-data engine relies on: signed bytes,
 * 32-bit `Int` wrap-around, radix-16 parsing and printing, whitespace classes,
 * padding, trimming and joining of strings.
 */
module Jvm {
  import opened Wrappers

  /** Kotlin's `Byte`: a signed 8-bit integer. */
  newtype Byte = b: int | -128 <= b < 128

  const TWO_POW_32: int := 0x1_0000_0000
  const INT_MIN: int := -0x8000_0000
  const INT_MAX: int := 0x7FFF_FFFF

  /** `Int.toByte()`: keeps the low 8 bits and reads them as two's complement. */
  function ToByte(x: int): (b: Byte)
    ensures (b as int - x) % 256 == 0
  {
    var m := x % 256;
    if m < 128 then m as Byte else (m - 256) as Byte
  }

  /** The value an arithmetic result takes in a 32-bit Kotlin `Int` (two's complement wrap-around). */
  function Wrap32(x: int): (r: int)
    ensures INT_MIN <= r <= INT_MAX
    ensures (r - x) % TWO_POW_32 == 0
  {
    var m := x % TWO_POW_32;
    if m <= INT_MAX then m else m - TWO_POW_32
  }

  // ---------------------------------------------------------------- digits

  predicate IsDecimalDigit(c: char) {
    '0' <= c <= '9'
  }

  /** The ASCII radix-16 digits, the only ones `toString(16)` and `toHexString` print. */
  predicate IsAsciiHexDigit(c: char) {
    '0' <= c <= '9' || 'a' <= c <= 'f' || 'A' <= c <= 'F'
  }

  /**
   * `Character.digit(c, 10)`: the value of a decimal digit of any script (general
   * category Nd), or -1 for any other character. Every such digit of the Basic
   * Multilingual Plane, the plane a Kotlin `Char` covers, lies in a run of ten that
   * starts at one of the 37 zeros below, found by halving the list of runs.
   */
  function UnicodeDigitValue(c: char): (v: int)
    ensures -1 <= v < 10
  {
    var n := c as int;
    if n < 0x1090 then
      if n < 0x0BE6 then
        if n < 0x0966 then
          if n < 0x06F0 then
            if n < 0x0660 then
              if 0x0030 <= n < 0x003A then n - 0x0030 else -1
            else
              if 0x0660 <= n < 0x066A then n - 0x0660 else -1
          else
            if n < 0x07C0 then
              if 0x06F0 <= n < 0x06FA then n - 0x06F0 else -1
            else
              if 0x07C0 <= n < 0x07CA then n - 0x07C0 else -1
        else
          if n < 0x0A66 then
            if n < 0x09E6 then
              if 0x0966 <= n < 0x0970 then n - 0x0966 else -1
            else
              if 0x09E6 <= n < 0x09F0 then n - 0x09E6 else -1
          else
            if n < 0x0AE6 then
              if 0x0A66 <= n < 0x0A70 then n - 0x0A66 else -1
            else
              if n < 0x0B66 then
                if 0x0AE6 <= n < 0x0AF0 then n - 0x0AE6 else -1
              else
                if 0x0B66 <= n < 0x0B70 then n - 0x0B66 else -1
      else
        if n < 0x0DE6 then
          if n < 0x0CE6 then
            if n < 0x0C66 then
              if 0x0BE6 <= n < 0x0BF0 then n - 0x0BE6 else -1
            else
              if 0x0C66 <= n < 0x0C70 then n - 0x0C66 else -1
          else
            if n < 0x0D66 then
              if 0x0CE6 <= n < 0x0CF0 then n - 0x0CE6 else -1
            else
              if 0x0D66 <= n < 0x0D70 then n - 0x0D66 else -1
        else
          if n < 0x0ED0 then
            if n < 0x0E50 then
              if 0x0DE6 <= n < 0x0DF0 then n - 0x0DE6 else -1
            else
              if 0x0E50 <= n < 0x0E5A then n - 0x0E50 else -1
          else
            if n < 0x0F20 then
              if 0x0ED0 <= n < 0x0EDA then n - 0x0ED0 else -1
            else
              if n < 0x1040 then
                if 0x0F20 <= n < 0x0F2A then n - 0x0F20 else -1
              else
                if 0x1040 <= n < 0x104A then n - 0x1040 else -1
    else
      if n < 0x1C40 then
        if n < 0x19D0 then
          if n < 0x1810 then
            if n < 0x17E0 then
              if 0x1090 <= n < 0x109A then n - 0x1090 else -1
            else
              if 0x17E0 <= n < 0x17EA then n - 0x17E0 else -1
          else
            if n < 0x1946 then
              if 0x1810 <= n < 0x181A then n - 0x1810 else -1
            else
              if 0x1946 <= n < 0x1950 then n - 0x1946 else -1
        else
          if n < 0x1A90 then
            if n < 0x1A80 then
              if 0x19D0 <= n < 0x19DA then n - 0x19D0 else -1
            else
              if 0x1A80 <= n < 0x1A8A then n - 0x1A80 else -1
          else
            if n < 0x1B50 then
              if 0x1A90 <= n < 0x1A9A then n - 0x1A90 else -1
            else
              if n < 0x1BB0 then
                if 0x1B50 <= n < 0x1B5A then n - 0x1B50 else -1
              else
                if 0x1BB0 <= n < 0x1BBA then n - 0x1BB0 else -1
      else
        if n < 0xA9D0 then
          if n < 0xA620 then
            if n < 0x1C50 then
              if 0x1C40 <= n < 0x1C4A then n - 0x1C40 else -1
            else
              if 0x1C50 <= n < 0x1C5A then n - 0x1C50 else -1
          else
            if n < 0xA8D0 then
              if 0xA620 <= n < 0xA62A then n - 0xA620 else -1
            else
              if n < 0xA900 then
                if 0xA8D0 <= n < 0xA8DA then n - 0xA8D0 else -1
              else
                if 0xA900 <= n < 0xA90A then n - 0xA900 else -1
        else
          if n < 0xAA50 then
            if n < 0xA9F0 then
              if 0xA9D0 <= n < 0xA9DA then n - 0xA9D0 else -1
            else
              if 0xA9F0 <= n < 0xA9FA then n - 0xA9F0 else -1
          else
            if n < 0xABF0 then
              if 0xAA50 <= n < 0xAA5A then n - 0xAA50 else -1
            else
              if n < 0xFF10 then
                if 0xABF0 <= n < 0xABFA then n - 0xABF0 else -1
              else
                if 0xFF10 <= n < 0xFF1A then n - 0xFF10 else -1
  }

  /** The full-width Latin letters A to F, upper or lower case. */
  predicate IsFullwidthHexLetter(c: char) {
    '\U{FF21}' <= c <= '\U{FF26}' || '\U{FF41}' <= c <= '\U{FF46}'
  }

  /**
   * The characters `Character.digit(c, 16)` accepts, which Kotlin's `toIntOrNull(16)` and
   * `toInt(16)` use: a decimal digit of any script, or the letters A to F in either case,
   * in ASCII or in full width.
   */
  predicate IsHexDigit(c: char) {
    IsAsciiHexDigit(c) || IsFullwidthHexLetter(c) || UnicodeDigitValue(c) >= 0
  }

  /** `Character.digit(c, 16)` for a character it accepts. */
  function HexDigitValue(c: char): (v: nat)
    requires IsHexDigit(c)
    ensures v < 16
  {
    if '0' <= c <= '9' then c as int - '0' as int
    else if 'a' <= c <= 'f' then c as int - 'a' as int + 10
    else if 'A' <= c <= 'F' then c as int - 'A' as int + 10
    else if '\U{FF21}' <= c <= '\U{FF26}' then c as int - 0xFF21 + 10
    else if '\U{FF41}' <= c <= '\U{FF46}' then c as int - 0xFF41 + 10
    else UnicodeDigitValue(c)
  }

  predicate AllAsciiHexDigits(s: string) {
    forall i :: 0 <= i < |s| ==> IsAsciiHexDigit(s[i])
  }

  predicate AllHexDigits(s: string) {
    forall i :: 0 <= i < |s| ==> IsHexDigit(s[i])
  }

  predicate AllDecimalDigits(s: string) {
    forall i :: 0 <= i < |s| ==> IsDecimalDigit(s[i])
  }

  /** The number a string of hex digits spells, most significant digit first. */
  function HexDigitsValue(s: string): nat
    requires AllHexDigits(s)
  {
    if s == [] then 0 else 16 * HexDigitsValue(s[..|s| - 1]) + HexDigitValue(s[|s| - 1])
  }

  /** The number a string of decimal digits spells, most significant digit first. */
  function DecimalValue(s: string): nat
    requires AllDecimalDigits(s)
  {
    if s == [] then 0 else 10 * DecimalValue(s[..|s| - 1]) + (s[|s| - 1] as int - '0' as int)
  }

  /**
   * `String.toIntOrNull(16)` (and `toInt(16)`, which throws where this is None):
   * an optional leading `+` or `-` followed by at least one base-16 digit.
   */
  function ParseRadix16(s: string): Option<int> {
    if |s| == 0 then None
    else if s[0] == '-' || s[0] == '+' then
      if |s| == 1 || !AllHexDigits(s[1..]) then None
      else if s[0] == '-' then Some(0 - HexDigitsValue(s[1..]))
      else Some(HexDigitsValue(s[1..]))
    else if AllHexDigits(s) then Some(HexDigitsValue(s))
    else None
  }

  /** The lower-case digit `Int.toString(16)` prints for a value below 16. */
  function LowerHexDigit(d: nat): (c: char)
    requires d < 16
    ensures IsHexDigit(c)
  {
    if d < 10 then ('0' as int + d) as char else ('a' as int + d - 10) as char
  }

  /** `Int.toString(16)` for a non-negative value: lower-case digits, no leading zeros. */
  function ToRadix16String(n: nat): (s: string)
    ensures |s| >= 1
    decreases n
  {
    if n < 16 then [LowerHexDigit(n)] else ToRadix16String(n / 16) + [LowerHexDigit(n % 16)]
  }

  function DecimalDigit(d: nat): (c: char)
    requires d < 10
    ensures IsDecimalDigit(c)
  {
    ('0' as int + d) as char
  }

  /** `Int.toString()` / `Long.toString()` for a non-negative value. */
  function NatToString(n: nat): (s: string)
    ensures |s| >= 1 && AllDecimalDigits(s)
    decreases n
  {
    if n < 10 then [DecimalDigit(n)] else NatToString(n / 10) + [DecimalDigit(n % 10)]
  }

  /** `Int.toString()` / `Long.toString()`. */
  function IntToString(n: int): string {
    if n < 0 then "-" + NatToString(-n) else NatToString(n)
  }

  // ---------------------------------------------------------------- strings

  function Repeat(c: char, n: nat): (s: string)
    ensures |s| == n && forall i :: 0 <= i < n ==> s[i] == c
  {
    if n == 0 then "" else [c] + Repeat(c, n - 1)
  }

  /** `String.padStart(n, c)`. */
  function PadStart(s: string, n: nat, c: char): string {
    if |s| >= n then s else Repeat(c, n - |s|) + s
  }

  /** `String.padEnd(n, c)`. */
  function PadEnd(s: string, n: nat, c: char): string {
    if |s| >= n then s else s + Repeat(c, n - |s|)
  }

  /** `Char.uppercaseChar()` restricted to ASCII letters. */
  function UpperChar(c: char): char {
    if 'a' <= c <= 'z' then (c as int - 32) as char else c
  }

  /** `String.uppercase()` restricted to ASCII letters. */
  function Uppercase(s: string): (r: string)
    ensures |r| == |s|
  {
    if s == [] then [] else [UpperChar(s[0])] + Uppercase(s[1..])
  }

  /** `uppercase()` maps every character on its own. */
  lemma {:induction false} UppercaseAt(s: string)
    ensures forall i :: 0 <= i < |s| ==> Uppercase(s)[i] == UpperChar(s[i])
  {
    if s != [] {
      UppercaseAt(s[1..]);
      assert Uppercase(s) == [UpperChar(s[0])] + Uppercase(s[1..]);
    }
  }

  /** `uppercase()` of a concatenation is the concatenation of the upper-cased parts. */
  lemma {:induction false} UppercaseConcat(a: string, b: string)
    ensures Uppercase(a + b) == Uppercase(a) + Uppercase(b)
  {
    if a != [] {
      UppercaseConcat(a[1..], b);
      assert (a + b)[0] == a[0] && (a + b)[1..] == a[1..] + b;
      assert Uppercase(a + b) == [UpperChar(a[0])] + Uppercase(a[1..] + b);
    } else {
      assert a + b == b;
    }
  }

  /** The characters the regular expression class `\s` matches in Java. */
  predicate IsRegexSpace(c: char) {
    c == ' ' || c == '\t' || c == '\n' || c == '\U{000B}' || c == '\U{000C}' || c == '\r'
  }

  /**
   * Kotlin's `Char.isWhitespace()`: Java's whitespace (which adds the separators
   * U+001C to U+001F) together with every Unicode space, line and paragraph separator.
   */
  predicate IsWhitespace(c: char) {
    IsRegexSpace(c) || ('\U{001C}' <= c <= '\U{001F}') || c == '\U{00A0}' || c == '\U{1680}'
    || ('\U{2000}' <= c <= '\U{200A}') || c == '\U{2028}' || c == '\U{2029}' || c == '\U{202F}'
    || c == '\U{205F}' || c == '\U{3000}'
  }

  /** `replace("\\s".toRegex(), "")`. */
  function RemoveRegexSpaces(s: string): (r: string)
    ensures |r| <= |s|
    ensures forall i :: 0 <= i < |r| ==> !IsRegexSpace(r[i])
    ensures (forall i :: 0 <= i < |s| ==> !IsRegexSpace(s[i])) ==> r == s
  {
    if s == [] then ""
    else if IsRegexSpace(s[0]) then RemoveRegexSpaces(s[1..])
    else [s[0]] + RemoveRegexSpaces(s[1..])
  }

  /**
   * Removing the spaces of a concatenation removes them from each part, so (with
   * what it does to one character) the removal keeps every other character, in order.
   */
  lemma {:induction false} RemoveRegexSpacesConcat(a: string, b: string)
    ensures RemoveRegexSpaces(a + b) == RemoveRegexSpaces(a) + RemoveRegexSpaces(b)
    ensures |a| == 1 ==> RemoveRegexSpaces(a) == (if IsRegexSpace(a[0]) then [] else a)
    decreases |a|
  {
    if a == [] {
      assert a + b == b;
    } else {
      assert (a + b)[0] == a[0] && (a + b)[1..] == a[1..] + b;
      RemoveRegexSpacesConcat(a[1..], b);
      if IsRegexSpace(a[0]) {
      } else {
        assert [a[0]] + (RemoveRegexSpaces(a[1..]) + RemoveRegexSpaces(b))
          == ([a[0]] + RemoveRegexSpaces(a[1..])) + RemoveRegexSpaces(b);
      }
      if |a| == 1 {
        assert a[1..] == [] && a == [a[0]];
      }
    }
  }

  /** `CharSequence.isBlank()`. */
  predicate IsBlank(s: string) {
    forall i :: 0 <= i < |s| ==> IsWhitespace(s[i])
  }

  /** `String.trimStart(c)`: drops every leading `c`. */
  function TrimStartChar(s: string, c: char): (r: string)
    ensures |r| <= |s| && r == s[|s| - |r|..]
    ensures r != [] ==> r[0] != c
    ensures forall i :: 0 <= i < |s| - |r| ==> s[i] == c
  {
    if s != [] && s[0] == c then TrimStartChar(s[1..], c) else s
  }

  /** `String.trimEnd(c)`: drops every trailing `c`. */
  function TrimEndChar(s: string, c: char): (r: string)
    ensures |r| <= |s| && r == s[..|r|]
    ensures r != [] ==> r[|r| - 1] != c
    ensures forall i :: |r| <= i < |s| ==> s[i] == c
  {
    if s != [] && s[|s| - 1] == c then TrimEndChar(s[..|s| - 1], c) else s
  }

  /** `trimStart(c)` keeps every character other than `c`, shifted by what it dropped. */
  lemma {:induction false} TrimStartKeepsOther(s: string, c: char, i: nat) returns (j: nat)
    requires i < |s| && s[i] != c
    ensures j < |TrimStartChar(s, c)| && TrimStartChar(s, c)[j] == s[i]
    decreases |s|
  {
    if s[0] == c {
      assert i > 0 && s[1..][i - 1] == s[i];
      j := TrimStartKeepsOther(s[1..], c, i - 1);
    } else {
      j := i;
    }
  }

  /** Two more padding characters are trimmed away again. */
  lemma TrimEndCharPadding(s: string, c: char)
    ensures TrimEndChar(s + [c, c], c) == TrimEndChar(s, c)
  {
    var once := s + [c];
    var twice := s + [c, c];
    assert twice[..|twice| - 1] == once;
    assert TrimEndChar(twice, c) == TrimEndChar(once, c);
    assert once[..|once| - 1] == s;
  }

  /** `String.trimEnd()`: drops trailing whitespace. */
  function TrimEndWhitespace(s: string): (r: string)
    ensures |r| <= |s| && r == s[..|r|]
    ensures r != [] ==> !IsWhitespace(r[|r| - 1])
    ensures forall i :: |r| <= i < |s| ==> IsWhitespace(s[i])
  {
    if s != [] && IsWhitespace(s[|s| - 1]) then TrimEndWhitespace(s[..|s| - 1]) else s
  }

  /** `String.trimStart()`: drops leading whitespace. */
  function TrimStartWhitespace(s: string): (r: string)
    ensures |r| <= |s| && r == s[|s| - |r|..]
    ensures r != [] ==> !IsWhitespace(r[0])
    ensures forall i :: 0 <= i < |s| - |r| ==> IsWhitespace(s[i])
  {
    if s != [] && IsWhitespace(s[0]) then TrimStartWhitespace(s[1..]) else s
  }

  /** `String.trim()`: drops leading and trailing whitespace. */
  function Trim(s: string): string {
    TrimEndWhitespace(TrimStartWhitespace(s))
  }

  /** `joinToString(separator)` over already rendered parts. */
  function Join(parts: seq<string>, separator: string): string {
    if parts == [] then ""
    else if |parts| == 1 then parts[0]
    else parts[0] + separator + Join(parts[1..], separator)
  }

  /** `indexOf(c)`: the first position of `c`, or -1. */
  function IndexOf(s: string, c: char): (k: int)
    ensures -1 <= k < |s|
    ensures k == -1 ==> forall i :: 0 <= i < |s| ==> s[i] != c
    ensures k >= 0 ==> s[k] == c && forall i :: 0 <= i < k ==> s[i] != c
  {
    if s == [] then -1
    else if s[0] == c then 0
    else var k := IndexOf(s[1..], c); if k == -1 then -1 else k + 1
  }
}
