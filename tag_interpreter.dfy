/**
 * `TagInterpreter`: turns a record into display text. The amount tag 9F02 is printed
 * as a decimal with two fraction digits, the PAN (5A) and Track 2 equivalent data (57)
 * are masked, and every other tag is shown as its value's hex digits.
 */
module TagInterpreter {
  import opened Wrappers
  import opened Jvm
  import opened TlvModels

  const Bullet: char := '\U{2022}'

  const AmountTag: string := "9F02"
  const PanTag: string := "5A"
  const Track2Tag: string := "57"

  /** `formatAmount` throws when `BigDecimal` cannot read the digits it is given. */
  datatype InterpretError = AmountNotANumber(digits: string)

  // ---------------------------------------------------------------- amounts

  function Pow10(n: nat): (p: nat)
    ensures p >= 1
  {
    if n == 0 then 1 else 10 * Pow10(n - 1)
  }

  predicate AllUpperHex(s: string) {
    forall i :: 0 <= i < |s| ==> IsUpperHexDigit(s[i])
  }

  /**
   * `BigDecimal(String)` on a string of upper-case hex digits, as an integer. Plain
   * decimal digits read as themselves; the only other letter the constructor accepts
   * is the exponent mark `E`, between a non-empty mantissa and a non-empty exponent
   * that fits an `Int`. Everything else throws.
   */
  function BigDecimalOf(s: string): (r: Option<nat>)
    requires AllUpperHex(s)
    ensures r.Some? <==> (s != [] && AllDecimalDigits(s)) || IsExponentForm(s)
    ensures r.Some? && AllDecimalDigits(s) ==> r.value == DecimalValue(s)
    ensures IsExponentForm(s) ==>
      var k := IndexOf(s, 'E');
      r == Some(DecimalValue(s[..k]) * Pow10(DecimalValue(s[k + 1..])))
  {
    if s != [] && AllDecimalDigits(s) then Some(DecimalValue(s))
    else
      var k := IndexOf(s, 'E');
      if 0 < k && k + 1 < |s| && AllDecimalDigits(s[..k]) && AllDecimalDigits(s[k + 1..])
         && DecimalValue(s[k + 1..]) <= INT_MAX
      then Some(DecimalValue(s[..k]) * Pow10(DecimalValue(s[k + 1..])))
      else None
  }

  /**
   * `<digits>E<digits>`: a non-empty run of decimal digits, the exponent mark, and a
   * non-empty run of decimal digits whose value fits an `Int`.
   */
  predicate IsExponentForm(s: string) {
    var k := IndexOf(s, 'E');
    0 < k && k + 1 < |s| && AllDecimalDigits(s[..k]) && AllDecimalDigits(s[k + 1..])
    && DecimalValue(s[k + 1..]) <= INT_MAX
  }

  /** A hex letter other than the exponent mark is no part of a number: `BigDecimal` throws. */
  lemma BigDecimalOfRefusesLetter(s: string, i: nat)
    requires AllUpperHex(s) && i < |s| && 'A' <= s[i] <= 'F' && s[i] != 'E'
    ensures BigDecimalOf(s) == None
  {
    assert !IsDecimalDigit(s[i]);
    var k := IndexOf(s, 'E');
    if 0 < k && k + 1 < |s| {
      if i < k {
        assert s[..k][i] == s[i];
      } else {
        assert s[k + 1..][i - k - 1] == s[i];
      }
    }
  }

  /** `movePointLeft(2).setScale(2).toPlainString()` of a non-negative integer. */
  function TwoDecimals(n: nat): (s: string)
    ensures |s| >= 4 && s[|s| - 3] == '.'
  {
    NatToString(n / 100) + "." + [DecimalDigit(n % 100 / 10), DecimalDigit(n % 10)]
  }

  /** The text `formatAmount` hands to `BigDecimal`: hex digits without leading zeros, or "0". */
  function AmountDigits(hex: string): (d: string)
    requires AllUpperHex(hex)
    ensures AllUpperHex(d)
  {
    var trimmed := TrimStartChar(hex, '0');
    if IsBlank(trimmed) then "0" else trimmed
  }

  /** The digits `formatAmount` hands to `BigDecimal` for a value. */
  function AmountText(bytes: seq<Byte>): (d: string)
    ensures AllUpperHex(d)
  {
    ToHexStringDigits(bytes);
    AmountDigits(ToHexString(bytes))
  }

  /** `formatAmount`: the value's digits read as a number of cents. */
  function FormatAmount(bytes: seq<Byte>): (r: Result<string, InterpretError>)
    ensures r.Ok? ==> |r.value| >= 4 && r.value[|r.value| - 3] == '.'
    ensures r.Err? <==> BigDecimalOf(AmountText(bytes)).None?
    ensures r.Err? ==> r.error == AmountNotANumber(AmountText(bytes))
  {
    var digits := AmountText(bytes);
    match BigDecimalOf(digits)
    case None => Err(AmountNotANumber(digits))
    case Some(n) => Ok(TwoDecimals(n))
  }

  /**
   * An amount whose hex text holds a letter other than `E` cannot be formatted: the
   * failure names the digits handed to `BigDecimal`.
   */
  lemma FormatAmountRefusesLetter(bytes: seq<Byte>, i: nat)
    requires i < |ToHexString(bytes)| && 'A' <= ToHexString(bytes)[i] <= 'F' && ToHexString(bytes)[i] != 'E'
    ensures FormatAmount(bytes) == Err(AmountNotANumber(AmountText(bytes)))
  {
    var hex := ToHexString(bytes);
    ToHexStringDigits(bytes);
    assert AllUpperHex(hex);
    var j := AmountDigitsKeepLetter(hex, i);
    assert AmountText(bytes) == AmountDigits(hex);
    BigDecimalOfRefusesLetter(AmountDigits(hex), j);
  }

  /** Dropping leading zeros keeps every letter of the hex text. */
  lemma AmountDigitsKeepLetter(hex: string, i: nat) returns (j: nat)
    requires AllUpperHex(hex) && i < |hex| && 'A' <= hex[i] <= 'F'
    ensures j < |AmountDigits(hex)| && AmountDigits(hex)[j] == hex[i]
  {
    j := TrimStartKeepsOther(hex, '0', i);
    LetterIsNotBlank(TrimStartChar(hex, '0'), j);
  }

  /** A text holding a hex letter is not blank. */
  lemma LetterIsNotBlank(t: string, j: nat)
    requires j < |t| && 'A' <= t[j] <= 'F'
    ensures !IsBlank(t)
  {
    assert !IsWhitespace(t[j]);
  }

  /** The digits of a concatenation: the first part's value shifted past the second part. */
  lemma {:induction false} DecimalValueConcat(a: string, b: string)
    requires AllDecimalDigits(a) && AllDecimalDigits(b)
    ensures AllDecimalDigits(a + b)
    ensures DecimalValue(a + b) == DecimalValue(a) * Pow10(|b|) + DecimalValue(b)
  {
    if b == [] {
      assert a + b == a;
    } else {
      var b' := b[..|b| - 1];
      var d := b[|b| - 1] as int - '0' as int;
      assert AllDecimalDigits(b');
      DecimalValueConcat(a, b');
      var ab := a + b;
      assert ab[..|ab| - 1] == a + b' && ab[|ab| - 1] == b[|b| - 1];
      var x, y, z := DecimalValue(a), Pow10(|b'|), DecimalValue(b');
      assert DecimalValue(ab) == 10 * DecimalValue(a + b') + d;
      assert DecimalValue(b) == 10 * z + d;
      assert Pow10(|b|) == 10 * y;
      ShiftTen(x, y);
    }
  }

  lemma ShiftTen(x: nat, y: nat)
    ensures 10 * (x * y) == x * (10 * y)
  {
  }

  /** `Int.toString()` prints digits that read back as the number. */
  lemma {:induction false} NatToStringValue(n: nat)
    ensures DecimalValue(NatToString(n)) == n
  {
    if n >= 10 {
      NatToStringValue(n / 10);
      var s := NatToString(n);
      assert s[..|s| - 1] == NatToString(n / 10);
    }
  }

  /** The value of one decimal digit. */
  lemma DigitValue(c: char)
    requires IsDecimalDigit(c)
    ensures DecimalValue([c]) == c as int - '0' as int
  {
    assert [c][..0] == [];
  }

  /** Leading zeros do not change what a string of decimal digits reads as. */
  lemma {:induction false} TrimZerosValue(s: string)
    requires AllDecimalDigits(s)
    ensures AllDecimalDigits(TrimStartChar(s, '0'))
    ensures DecimalValue(TrimStartChar(s, '0')) == DecimalValue(s)
  {
    if s != [] && s[0] == '0' {
      var t := s[1..];
      assert AllDecimalDigits(t);
      TrimZerosValue(t);
      assert TrimStartChar(s, '0') == TrimStartChar(t, '0');
      DigitValue('0');
      assert s == ['0'] + t;
      DecimalValueConcat(['0'], t);
      ZeroShift(DecimalValue(['0']), Pow10(|t|));
    }
  }

  lemma ZeroShift(zero: int, y: int)
    requires zero == 0
    ensures zero * y == 0
  {
  }

  lemma CentsSplit(n: nat)
    ensures n == (n / 100) * 100 + 10 * (n % 100 / 10) + n % 10
  {
  }

  /**
   * The amount text reads back as the amount: dropping the decimal point leaves
   * decimal digits worth exactly `n` cents.
   */
  lemma TwoDecimalsValue(n: nat)
    ensures var s := TwoDecimals(n);
      AllDecimalDigits(s[..|s| - 3] + s[|s| - 2..])
      && DecimalValue(s[..|s| - 3] + s[|s| - 2..]) == n
  {
    var s := TwoDecimals(n);
    var whole := NatToString(n / 100);
    var cents := [DecimalDigit(n % 100 / 10), DecimalDigit(n % 10)];
    assert s[..|s| - 3] == whole && s[|s| - 2..] == cents;
    NatToStringValue(n / 100);
    DecimalValueConcat(whole, cents);
    DigitValue(cents[0]);
    DigitValue(cents[1]);
    DecimalValueConcat([cents[0]], [cents[1]]);
    assert cents == [cents[0]] + [cents[1]];
    assert Pow10(2) == 100;
    CentsSplit(n);
  }

  /**
   * A binary-coded decimal amount (every nibble a decimal digit, as EMV's format n
   * has it) is printed as its decimal value in cents, leading zeros and all.
   */
  lemma FormatAmountOfDecimal(bytes: seq<Byte>)
    requires AllDecimalDigits(ToHexString(bytes))
    ensures FormatAmount(bytes) == Ok(TwoDecimals(DecimalValue(ToHexString(bytes))))
  {
    ToHexStringDigits(bytes);
    DecimalAmountDigits(ToHexString(bytes));
  }

  /** Decimal digits reach `BigDecimal` as a non-empty decimal string of the same value. */
  lemma DecimalAmountDigits(hex: string)
    requires AllUpperHex(hex) && AllDecimalDigits(hex)
    ensures var d := AmountDigits(hex); d != [] && AllDecimalDigits(d) && DecimalValue(d) == DecimalValue(hex)
  {
    var trimmed := TrimStartChar(hex, '0');
    TrimZerosValue(hex);
    if IsBlank(trimmed) {
      assert trimmed == [];
      DigitValue('0');
    }
  }

  /**
   * A value whose hex digits spell mantissa `E` exponent is not refused: `1E05`
   * reads as 100000 cents.
   */
  lemma ExponentDigitsAccepted()
    ensures FormatAmount([0x1E, 0x05]) == Ok("1000.00")
  {
    ToHexStringOfByte(0x05);
    ToHexStringCons(0x1E, [0x05]);
    var hex := ToHexString([0x1E, 0x05]);
    assert hex == "1E05";
    assert AmountDigits(hex) == "1E05" by {
      assert TrimStartChar("1E05", '0') == "1E05";
      assert !IsWhitespace("1E05"[0]);
    }
    ExponentDigitsValue();
    ThousandText();
  }

  /** `BigDecimal("1E05")` is 1 times ten to the fifth. */
  lemma ExponentDigitsValue()
    ensures BigDecimalOf("1E05") == Some(100000)
  {
    var s := "1E05";
    assert !IsDecimalDigit(s[1]);
    assert IndexOf(s, 'E') == 1;
    assert s[..1] == "1" && s[2..] == "05";
    DigitValue('1');
    DigitValue('5');
    DigitValue('0');
    DecimalValueConcat("0", "5");
    assert Pow10(5) == 100000;
  }

  /** 100000 cents print as `1000.00`. */
  lemma ThousandText()
    ensures TwoDecimals(100000) == "1000.00"
  {
    assert 100000 / 100 == 1000 && 100000 % 100 / 10 == 0 && 100000 % 10 == 0;
    assert NatToString(1) == "1";
    assert NatToString(10) == "10";
    assert NatToString(100) == "100";
    assert NatToString(1000) == "1000";
  }

  lemma ToHexStringCons(b: Byte, rest: seq<Byte>)
    ensures ToHexString([b] + rest) == HexPair(b) + ToHexString(rest)
  {
    assert ([b] + rest)[1..] == rest;
  }

  /** A run of zeros is worth nothing. */
  lemma {:induction false} ZerosValue(s: string)
    requires forall i :: 0 <= i < |s| ==> s[i] == '0'
    ensures AllDecimalDigits(s) && DecimalValue(s) == 0
  {
    if s != [] {
      ZerosValue(s[..|s| - 1]);
    }
  }

  /** The unit test's amount `000000001234` prints as `12.34`. */
  lemma FormatAmountExample()
    ensures FormatAmount([0x00, 0x00, 0x00, 0x00, 0x12, 0x34]) == Ok("12.34")
  {
    AmountExampleDigits();
    AmountExampleValue();
    FormatAmountOfDecimal([0x00, 0x00, 0x00, 0x00, 0x12, 0x34]);
    TwoDecimalsExample();
  }

  lemma AmountExampleDigits()
    ensures ToHexString([0x00, 0x00, 0x00, 0x00, 0x12, 0x34]) == "000000001234"
  {
    var zero: Byte := 0x00;
    var tail: seq<Byte> := [0x12, 0x34];
    AmountExampleTail();
    var b1, b2, b3, b4 := [zero] + tail, [zero, zero] + tail, [zero, zero, zero] + tail, [zero, zero, zero, zero] + tail;
    ZerosBeforeText(zero, tail, "1234");
    assert [zero] + b1 == b2;
    ZerosBeforeText(zero, b1, "00" + "1234");
    assert [zero] + b2 == b3;
    ZerosBeforeText(zero, b2, "00" + ("00" + "1234"));
    assert [zero] + b3 == b4;
    ZerosBeforeText(zero, b3, "00" + ("00" + ("00" + "1234")));
    assert "00" + ("00" + ("00" + ("00" + "1234"))) == "000000001234";
    assert b4 == [0x00, 0x00, 0x00, 0x00, 0x12, 0x34];
  }

  lemma AmountExampleTail()
    ensures ToHexString([0x12, 0x34]) == "1234"
  {
    assert HexPair(0x12) == "12" && HexPair(0x34) == "34";
    ToHexStringOfByte(0x34);
    ToHexStringCons(0x12, [0x34]);
  }

  /** A zero byte in front adds `00` in front of the text. */
  lemma ZerosBeforeText(zero: Byte, rest: seq<Byte>, text: string)
    requires zero == 0 && ToHexString(rest) == text
    ensures ToHexString([zero] + rest) == "00" + text
  {
    ToHexStringCons(zero, rest);
    assert HexPair(zero) == "00";
  }

  lemma AmountExampleValue()
    ensures AllDecimalDigits("000000001234") && DecimalValue("000000001234") == 1234
  {
    ZerosValue("00000000");
    assert DecimalValue("1234") == 1234 by {
      assert "1234"[..3] == "123" && "123"[..2] == "12" && "12"[..1] == "1";
      DigitValue('1');
    }
    DecimalValueConcat("00000000", "1234");
    assert "00000000" + "1234" == "000000001234";
  }

  /** 1234 cents print as `12.34`. */
  lemma TwoDecimalsExample()
    ensures TwoDecimals(1234) == "12.34"
  {
    assert 1234 / 100 == 12 && 1234 % 100 / 10 == 3 && 1234 % 10 == 4;
    assert NatToString(1) == "1";
    assert NatToString(12) == "12";
  }

  // ---------------------------------------------------------------- masking

  /** How many trailing characters `maskPanString` leaves visible: at most four. */
  function KeptTail(n: nat): nat
    requires n > 6
  {
    if 4 <= n - 6 then 4 else n - 6
  }

  /**
   * `maskPanString`: a text of at most six characters is shown as is; a longer one keeps
   * its first six and last `KeptTail` characters and has bullets in between.
   */
  function MaskedPan(pan: string): (r: string)
    ensures |r| == |pan|
    ensures |pan| <= 6 ==> r == pan
    ensures |pan| > 6 ==>
      && r[..6] == pan[..6]
      && r[|pan| - KeptTail(|pan|)..] == pan[|pan| - KeptTail(|pan|)..]
      && forall i :: 6 <= i < |pan| - KeptTail(|pan|) ==> r[i] == Bullet
  {
    if |pan| <= 6 then pan
    else
      var k := KeptTail(|pan|);
      pan[..6] + Repeat(Bullet, |pan| - 6 - k) + pan[|pan| - k..]
  }

  /** No more than the first six and the last four characters of a PAN are disclosed. */
  lemma MaskedPanHides(pan: string)
    ensures forall i :: 6 <= i < |pan| - 4 ==> MaskedPan(pan)[i] == Bullet
  {
  }

  /** A PAN of seven to ten digits has nothing between its first six and its tail: it is shown whole. */
  lemma ShortPanShown(pan: string)
    requires 6 < |pan| <= 10
    ensures MaskedPan(pan) == pan
  {
    var r := MaskedPan(pan);
    assert r == r[..6] + r[6..];
    assert pan == pan[..6] + pan[6..];
  }

  /** Masking a masked text changes nothing. */
  lemma MaskedPanIdempotent(pan: string)
    ensures MaskedPan(MaskedPan(pan)) == MaskedPan(pan)
  {
    var r := MaskedPan(pan);
    if |pan| > 6 {
      var r2 := MaskedPan(r);
      forall i | 0 <= i < |r| ensures r2[i] == r[i] {
        if i < 6 {
          assert r2[..6][i] == r[..6][i];
        } else if i >= |pan| - KeptTail(|pan|) {
          var j := i - (|pan| - KeptTail(|pan|));
          assert r2[|pan| - KeptTail(|pan|)..][j] == r[|pan| - KeptTail(|pan|)..][j];
        }
      }
    }
  }

  lemma RepeatSnoc(c: char, n: nat)
    ensures Repeat(c, n + 1) == Repeat(c, n) + [c]
  {
    if n > 0 {
      RepeatSnoc(c, n - 1);
    }
  }

  /** `maskPanString` as the source builds it: six characters, a run of bullets, the tail. */
  method MaskPanString(pan: string) returns (r: string)
    ensures r == MaskedPan(pan)
  {
    if |pan| <= 6 {
      return pan;
    }
    var firstSix := pan[..6];
    var lastFour := pan[|pan| - KeptTail(|pan|)..];
    var maskLength := |pan| - |firstSix| - |lastFour|;
    r := firstSix;
    var i := 0;
    while i < maskLength
      invariant 0 <= i <= maskLength
      invariant r == firstSix + Repeat(Bullet, i)
    {
      RepeatSnoc(Bullet, i);
      r := r + [Bullet];
      i := i + 1;
    }
    r := r + lastFour;
  }

  /** The Track 2 separator `D` shown as `=`. */
  function SeparatorOf(c: char): char {
    if c == 'D' then '=' else c
  }

  /** The `buildString` loop of `maskTrack2Equivalent`: every `D` becomes `=`. */
  function SeparatorsReplaced(raw: string): (r: string)
    ensures |r| == |raw|
    ensures forall i :: 0 <= i < |raw| ==> r[i] == SeparatorOf(raw[i])
  {
    if raw == [] then [] else [SeparatorOf(raw[0])] + SeparatorsReplaced(raw[1..])
  }

  method ReplaceSeparators(raw: string) returns (track: string)
    ensures track == SeparatorsReplaced(raw)
  {
    track := "";
    for i := 0 to |raw|
      invariant |track| == i
      invariant forall j :: 0 <= j < i ==> track[j] == SeparatorOf(raw[j])
    {
      track := track + [if raw[i] == 'D' then '=' else raw[i]];
    }
  }

  /** The Track 2 text: hex digits with `D` shown as `=`, trailing `F` padding dropped. */
  function Track2Text(bytes: seq<Byte>): string {
    TrimEndChar(SeparatorsReplaced(ToHexString(bytes)), 'F')
  }

  /**
   * `maskTrack2Equivalent`: the PAN before the first `=` is masked and the rest kept;
   * without a separator past the first position the whole text is masked as a PAN.
   */
  function MaskedTrack2(bytes: seq<Byte>): (r: string)
    ensures |r| == |Track2Text(bytes)|
  {
    var track := Track2Text(bytes);
    var sep := IndexOf(track, '=');
    if sep > 0 then MaskedPan(track[..sep]) + track[sep..] else MaskedPan(track)
  }

  /**
   * With a separator, the discretionary data from `=` on is shown unchanged and the
   * PAN before it keeps no more than its first six and last four digits.
   */
  lemma MaskedTrack2Hides(bytes: seq<Byte>)
    requires IndexOf(Track2Text(bytes), '=') > 0
    ensures var track := Track2Text(bytes); var sep := IndexOf(track, '=');
      MaskedTrack2(bytes)[sep..] == track[sep..]
      && MaskedTrack2(bytes)[sep] == '='
      && (forall i :: 6 <= i < sep - 4 ==> MaskedTrack2(bytes)[i] == Bullet)
      && (sep <= 6 ==> MaskedTrack2(bytes)[..sep] == track[..sep])
      && (sep > 6 ==>
        && MaskedTrack2(bytes)[..6] == track[..6]
        && MaskedTrack2(bytes)[sep - KeptTail(sep)..sep] == track[sep - KeptTail(sep)..sep])
  {
    var track := Track2Text(bytes);
    var sep := IndexOf(track, '=');
    var r := MaskedTrack2(bytes);
    assert r == MaskedPan(track[..sep]) + track[sep..];
    MaskedPanHides(track[..sep]);
  }

  /**
   * Without a separator past the first position, the whole track is masked as a PAN: no
   * more than its first six and last four characters are shown.
   */
  lemma MaskedTrack2WithoutSeparator(bytes: seq<Byte>)
    requires IndexOf(Track2Text(bytes), '=') <= 0
    ensures MaskedTrack2(bytes) == MaskedPan(Track2Text(bytes))
    ensures forall i :: 6 <= i < |Track2Text(bytes)| - 4 ==> MaskedTrack2(bytes)[i] == Bullet
  {
    MaskedPanHides(Track2Text(bytes));
  }

  /** `maskTrack2Equivalent` as the source computes it, through its character loop. */
  method MaskTrack2Equivalent(bytes: seq<Byte>) returns (r: string)
    ensures r == MaskedTrack2(bytes)
  {
    var raw := ToHexString(bytes);
    var replaced := ReplaceSeparators(raw);
    var track := TrimEndChar(replaced, 'F');
    var separatorIndex := IndexOf(track, '=');
    if separatorIndex > 0 {
      var pan := track[..separatorIndex];
      var remainder := track[separatorIndex..];
      var masked := MaskPanString(pan);
      r := masked + remainder;
    } else {
      r := MaskPanString(track);
    }
  }

  /**
   * `maskPan`: the value's hex digits without their trailing `F` padding, masked. Only
   * `F`s are dropped; a text of at most six digits is shown whole, and a longer one
   * shows its first six and last `KeptTail` digits with bullets in between.
   */
  function MaskPan(bytes: seq<Byte>): (r: string)
    ensures var hex := ToHexString(bytes); var digits := TrimEndChar(hex, 'F');
      && |r| == |digits| && digits == hex[..|digits|]
      && (forall i :: |digits| <= i < |hex| ==> hex[i] == 'F')
      && (|digits| <= 6 ==> r == digits)
      && (|digits| > 6 ==>
        && r[..6] == digits[..6]
        && r[|digits| - KeptTail(|digits|)..] == digits[|digits| - KeptTail(|digits|)..]
        && forall i :: 6 <= i < |digits| - KeptTail(|digits|) ==> r[i] == Bullet)
  {
    MaskedPan(TrimEndChar(ToHexString(bytes), 'F'))
  }

  /** A PAN's `F` padding byte changes nothing in what is shown. */
  lemma MaskPanIgnoresPadding(bytes: seq<Byte>)
    ensures MaskPan(bytes + [-1]) == MaskPan(bytes)
  {
    var hex := ToHexString(bytes);
    ToHexStringSnoc(bytes, -1);
    assert HexPair(-1) == "FF";
    TrimEndCharPadding(hex, 'F');
    assert TrimEndChar(ToHexString(bytes + [-1]), 'F') == TrimEndChar(hex, 'F');
  }

  /** The unit test's PAN 5476541234567890 shows its first six and last four digits only. */
  lemma MaskedPanExample()
    ensures MaskedPan("5476541234567890") == "547654\U{2022}\U{2022}\U{2022}\U{2022}\U{2022}\U{2022}7890"
  {
    var pan := "5476541234567890";
    var bullets := Repeat(Bullet, 6);
    assert bullets == "\U{2022}\U{2022}\U{2022}\U{2022}\U{2022}\U{2022}";
    assert KeptTail(16) == 4;
    assert pan[..6] == "547654" && pan[12..] == "7890";
  }

  // ---------------------------------------------------------------- dispatch

  /**
   * `interpret`: picks the interpreter by the upper-cased tag (9F26, 9F10 and 84 have
   * hex-printing interpreters of their own, which print what the default prints).
   */
  function Interpret(tlv: Tlv): (r: Result<ParsedField, InterpretError>)
    ensures r.Ok? ==> r.value.tlv == tlv
    ensures r.Err? ==> Uppercase(tlv.tag) == AmountTag
    ensures Uppercase(tlv.tag) == AmountTag ==>
      && (r.Ok? <==> FormatAmount(tlv.value).Ok?)
      && (r.Ok? ==> r.value.interpretation == FormatAmount(tlv.value).value)
      && (r.Err? ==> r.error == FormatAmount(tlv.value).error)
    ensures Uppercase(tlv.tag) == PanTag ==> r == Ok(ParsedField(tlv, MaskPan(tlv.value)))
    ensures Uppercase(tlv.tag) == Track2Tag ==> r == Ok(ParsedField(tlv, MaskedTrack2(tlv.value)))
  {
    var key := Uppercase(tlv.tag);
    if key == AmountTag then
      var amount :- FormatAmount(tlv.value);
      Ok(ParsedField(tlv, amount))
    else if key == PanTag then Ok(ParsedField(tlv, MaskPan(tlv.value)))
    else if key == Track2Tag then Ok(ParsedField(tlv, MaskedTrack2(tlv.value)))
    else Ok(ParsedField(tlv, ToHexString(tlv.value)))
  }

  /** A tag without an interpreter of its own is shown as its value's hex digits. */
  lemma InterpretShowsHex(tlv: Tlv)
    requires Uppercase(tlv.tag) !in {AmountTag, PanTag, Track2Tag}
    ensures Interpret(tlv) == Ok(ParsedField(tlv, tlv.HexValue()))
  {
  }

  /**
   * A PAN record is shown without its `F` padding; it never shows the digits between its
   * first six and last four, and those first six and last `KeptTail` digits are shown.
   */
  lemma InterpretMasksPan(tlv: Tlv)
    requires Uppercase(tlv.tag) == PanTag
    ensures Interpret(tlv).Ok?
    ensures var text := Interpret(tlv).value.interpretation;
      var digits := TrimEndChar(ToHexString(tlv.value), 'F');
      && |text| == |digits|
      && (forall i :: 6 <= i < |text| - 4 ==> text[i] == Bullet)
      && (|digits| <= 6 ==> text == digits)
      && (|digits| > 6 ==>
        && text[..6] == digits[..6]
        && text[|digits| - KeptTail(|digits|)..] == digits[|digits| - KeptTail(|digits|)..])
  {
    MaskedPanHides(TrimEndChar(ToHexString(tlv.value), 'F'));
  }

  /**
   * `interpretAll`: `tlvs.map(::interpret)`. Every record is interpreted in order and
   * kept with its interpretation; the first record that cannot be interpreted throws.
   */
  function InterpretAll(tlvs: seq<Tlv>): (r: Result<seq<ParsedField>, InterpretError>)
    ensures r.Ok? ==> |r.value| == |tlvs| && forall i :: 0 <= i < |tlvs| ==> Interpret(tlvs[i]) == Ok(r.value[i])
    ensures r.Ok? ==> forall i :: 0 <= i < |tlvs| ==> r.value[i].tlv == tlvs[i]
    ensures r.Err? ==> exists i :: 0 <= i < |tlvs| && Uppercase(tlvs[i].tag) == AmountTag
  {
    var r := MapResult(Interpret, tlvs);
    if r.Err? then
      FailureIsAmount(tlvs, r.error);
      r
    else
      r
  }

  lemma FailureIsAmount(tlvs: seq<Tlv>, e: InterpretError)
    requires FirstFailure(Interpret, tlvs, e)
    ensures exists i :: 0 <= i < |tlvs| && Uppercase(tlvs[i].tag) == AmountTag
  {
    var i :| 0 <= i < |tlvs| && Interpret(tlvs[i]) == Err(e);
  }
}
