/**
 * The parser's data model: the BER-TLV record, the interpreted field, the two kinds of
 * parse failure, and the unsigned-byte and hex-string conversions every layer uses.
 */
module TlvModels {
  import opened Wrappers
  import opened Jvm

  /** `Byte.toUnsignedInt()`, that is `toInt() and 0xFF`: the byte read as 0..255. */
  function ToUnsignedInt(b: Byte): (u: nat)
    ensures u < 256
  {
    if b < 0 then b as int + 256 else b as int
  }

  /** Reading a byte as unsigned and truncating it back gives the same byte. */
  lemma ToByteOfUnsigned(b: Byte)
    ensures ToByte(ToUnsignedInt(b)) == b
  {
  }

  /** The upper-case hex digit for a value below 16. */
  function UpperHexDigit(d: nat): (c: char)
    requires d < 16
  {
    if d < 10 then ('0' as int + d) as char else ('A' as int + d - 10) as char
  }

  predicate IsUpperHexDigit(c: char) {
    '0' <= c <= '9' || 'A' <= c <= 'F'
  }

  /** The two upper-case digits that stand for one byte in a hex string. */
  function HexPair(b: Byte): (p: string)
    ensures |p| == 2 && IsUpperHexDigit(p[0]) && IsUpperHexDigit(p[1])
  {
    var u := ToUnsignedInt(b);
    [UpperHexDigit(u / 16), UpperHexDigit(u % 16)]
  }

  /** One byte as `toString(16).padStart(2, '0')` renders it, before upper-casing. */
  function PadHex(b: Byte): string {
    PadStart(ToRadix16String(ToUnsignedInt(b)), 2, '0')
  }

  lemma UpperOfLowerDigit(d: nat)
    requires d < 16
    ensures UpperChar(LowerHexDigit(d)) == UpperHexDigit(d)
  {
  }

  lemma PadHexIsPair(b: Byte)
    ensures |PadHex(b)| == 2 && Uppercase(PadHex(b)) == HexPair(b)
  {
    var u := ToUnsignedInt(b);
    UpperOfLowerDigit(u / 16);
    UpperOfLowerDigit(u % 16);
    if u >= 16 {
      assert ToRadix16String(u / 16) == [LowerHexDigit(u / 16)];
      assert PadHex(b) == [LowerHexDigit(u / 16), LowerHexDigit(u % 16)];
    } else {
      assert PadHex(b) == ['0', LowerHexDigit(u)];
    }
  }

  /** `joinToString("") { padded byte }`, before upper-casing. */
  function JoinHex(bytes: seq<Byte>): (s: string)
    ensures |s| == 2 * |bytes|
  {
    if bytes == [] then ""
    else
      PadHexIsPair(bytes[0]);
      PadHex(bytes[0]) + JoinHex(bytes[1..])
  }

  /**
   * `ByteArray.toHexString()` (parser and app alike): each byte as its two upper-case
   * digits, in order. `ToHexStringIsUppercasedJoin` shows this is the source's
   * `joinToString("") { toString(16).padStart(2, '0') }.uppercase()`.
   */
  function ToHexString(bytes: seq<Byte>): (r: string)
    ensures |r| == 2 * |bytes|
  {
    if bytes == [] then "" else HexPair(bytes[0]) + ToHexString(bytes[1..])
  }

  /** The source's rendering: pad every byte to two lower-case digits, join, upper-case. */
  lemma {:induction false} ToHexStringIsUppercasedJoin(bytes: seq<Byte>)
    ensures ToHexString(bytes) == Uppercase(JoinHex(bytes))
  {
    if bytes != [] {
      PadHexIsPair(bytes[0]);
      UppercaseConcat(PadHex(bytes[0]), JoinHex(bytes[1..]));
      ToHexStringIsUppercasedJoin(bytes[1..]);
    }
  }

  /**
   * Every byte becomes exactly two upper-case hex digits, most significant nibble first,
   * in the order of the bytes.
   */
  lemma {:induction false} ToHexStringPairs(bytes: seq<Byte>)
    ensures forall i :: 0 <= i < |bytes| ==> ToHexString(bytes)[2 * i..2 * i + 2] == HexPair(bytes[i])
  {
    if bytes != [] {
      var s, rest := ToHexString(bytes), ToHexString(bytes[1..]);
      ToHexStringPairs(bytes[1..]);
      assert s == HexPair(bytes[0]) + rest;
      assert s[..2] == HexPair(bytes[0]);
      assert forall i :: 1 <= i < |bytes| ==> s[2 * i..2 * i + 2] == rest[2 * (i - 1)..2 * (i - 1) + 2];
    }
  }

  /** The hex string holds nothing but the digits `0-9A-F`. */
  lemma ToHexStringDigits(bytes: seq<Byte>)
    ensures forall j :: 0 <= j < |ToHexString(bytes)| ==> IsUpperHexDigit(ToHexString(bytes)[j])
  {
    var r := ToHexString(bytes);
    ToHexStringPairs(bytes);
    forall j | 0 <= j < |r| ensures IsUpperHexDigit(r[j]) {
      var i := j / 2;
      assert r[2 * i..2 * i + 2] == HexPair(bytes[i]);
      assert r[j] == HexPair(bytes[i])[j - 2 * i];
    }
  }

  /** The hex string of one byte is its pair of digits. */
  lemma ToHexStringOfByte(b: Byte)
    ensures ToHexString([b]) == HexPair(b)
  {
    ToHexStringPairs([b]);
    assert ToHexString([b])[0..2] == ToHexString([b]);
  }

  /** Printing one more byte appends its pair. */
  lemma {:induction false} ToHexStringSnoc(bytes: seq<Byte>, b: Byte)
    ensures ToHexString(bytes + [b]) == ToHexString(bytes) + HexPair(b)
    decreases |bytes|
  {
    if bytes == [] {
      assert bytes + [b] == [b];
      ToHexStringOfByte(b);
    } else {
      ToHexStringSnoc(bytes[1..], b);
      assert (bytes + [b])[0] == bytes[0] && (bytes + [b])[1..] == bytes[1..] + [b];
    }
  }

  /** The `i`-th two-character chunk of a string, as `chunked(2)` cuts it. */
  function Chunk(s: string, i: nat): (p: string)
    requires 2 * i + 2 <= |s|
    ensures |p| == 2 && p[0] == s[2 * i] && p[1] == s[2 * i + 1]
  {
    s[2 * i..2 * i + 2]
  }

  lemma ChunkOfTail(s: string, i: nat)
    requires 2 * i + 4 <= |s|
    ensures Chunk(s, i + 1) == Chunk(s[2..], i)
  {
  }

  /** Every two-character chunk of `s` reads as a radix-16 number. */
  predicate AllPairsParse(s: string)
    requires |s| % 2 == 0
  {
    forall i :: 0 <= i < |s| / 2 ==> ParseRadix16(Chunk(s, i)).Some?
  }

  /** `e` is the first chunk of `s` that does not read as a radix-16 number. */
  predicate FirstBadPair(s: string, e: string)
    requires |s| % 2 == 0
  {
    exists i :: 0 <= i < |s| / 2 && e == Chunk(s, i) && ParseRadix16(e).None? &&
      forall j :: 0 <= j < i ==> ParseRadix16(Chunk(s, j)).Some?
  }

  /** `b` holds, byte for byte, the chunks of `s` read in radix 16 and truncated by `toByte()`. */
  predicate SpellsBytes(s: string, b: seq<Byte>)
    requires |s| % 2 == 0 && AllPairsParse(s)
  {
    |b| == |s| / 2 && forall i :: 0 <= i < |b| ==> b[i] == ToByte(ParseRadix16(Chunk(s, i)).value)
  }

  lemma AllPairsParseCons(s: string)
    requires |s| >= 2 && |s| % 2 == 0
    ensures AllPairsParse(s) <==> ParseRadix16(Chunk(s, 0)).Some? && AllPairsParse(s[2..])
  {
    if ParseRadix16(Chunk(s, 0)).Some? && AllPairsParse(s[2..]) {
      forall i | 1 <= i < |s| / 2 ensures ParseRadix16(Chunk(s, i)).Some? {
        ChunkOfTail(s, i - 1);
      }
    }
    if AllPairsParse(s) {
      forall i | 0 <= i < |s| / 2 - 1 ensures ParseRadix16(Chunk(s[2..], i)).Some? {
        ChunkOfTail(s, i);
      }
    }
  }

  lemma FirstBadPairCons(s: string, e: string)
    requires |s| >= 2 && |s| % 2 == 0 && ParseRadix16(Chunk(s, 0)).Some? && FirstBadPair(s[2..], e)
    ensures FirstBadPair(s, e)
  {
    var k :| 0 <= k < (|s| - 2) / 2 && e == Chunk(s[2..], k) && ParseRadix16(e).None? &&
      forall j :: 0 <= j < k ==> ParseRadix16(Chunk(s[2..], j)).Some?;
    ChunkOfTail(s, k);
    forall j | 0 <= j < k + 1 ensures ParseRadix16(Chunk(s, j)).Some? {
      if j > 0 {
        ChunkOfTail(s, j - 1);
      }
    }
  }

  lemma SpellsBytesCons(s: string, v: int, b: seq<Byte>)
    requires |s| >= 2 && |s| % 2 == 0 && AllPairsParse(s) && AllPairsParse(s[2..])
    requires ParseRadix16(Chunk(s, 0)) == Some(v) && SpellsBytes(s[2..], b)
    ensures SpellsBytes(s, [ToByte(v)] + b)
  {
    forall i | 1 <= i < |s| / 2 ensures ([ToByte(v)] + b)[i] == ToByte(ParseRadix16(Chunk(s, i)).value) {
      ChunkOfTail(s, i - 1);
    }
  }

  /**
   * `chunked(2).map { pair -> pair.toIntOrNull(16)?.toByte() ?: throw … }`: the bytes an
   * even-length string spells, or the first two-character chunk that does not parse.
   */
  function ParsePairs(s: string): (r: Result<seq<Byte>, string>)
    requires |s| % 2 == 0
    ensures r.Ok? <==> AllPairsParse(s)
    ensures r.Ok? ==> SpellsBytes(s, r.value)
    ensures r.Err? ==> FirstBadPair(s, r.error)
  {
    if s == [] then Ok([])
    else
      var head := ParseRadix16(Chunk(s, 0));
      var rest := ParsePairs(s[2..]);
      AllPairsParseCons(s);
      if head.None? then
        assert FirstBadPair(s, Chunk(s, 0)) by {
          assert 0 <= 0 < |s| / 2;
        }
        Err(Chunk(s, 0))
      else if rest.Err? then
        FirstBadPairCons(s, rest.error);
        Err(rest.error)
      else
        SpellsBytesCons(s, head.value, rest.value);
        Ok([ToByte(head.value)] + rest.value)
  }

  lemma ToUnsignedOfToByte(u: int)
    requires 0 <= u < 256
    ensures ToUnsignedInt(ToByte(u)) == u
  {
  }

  /** Parsing the two digits of one byte and truncating to a byte gives the byte back. */
  lemma HexPairRoundTrip(b: Byte)
    ensures ParseRadix16(HexPair(b)) == Some(ToUnsignedInt(b)) && ToByte(ToUnsignedInt(b)) == b
  {
    var p := HexPair(b);
    var u := ToUnsignedInt(b);
    DigitValueOfUpper(u / 16);
    DigitValueOfUpper(u % 16);
    PairValue(p);
    ToByteOfUnsigned(b);
  }

  lemma DigitValueOfUpper(d: nat)
    requires d < 16
    ensures IsHexDigit(UpperHexDigit(d)) && HexDigitValue(UpperHexDigit(d)) == d
  {
  }

  /** The upper-case digit for a hex digit's value is that digit upper-cased. */
  lemma UpperDigitOfValue(c: char)
    requires IsAsciiHexDigit(c)
    ensures UpperHexDigit(HexDigitValue(c)) == UpperChar(c)
  {
  }

  lemma DivModSixteen(hi: nat, lo: nat)
    requires hi < 16 && lo < 16
    ensures (16 * hi + lo) / 16 == hi && (16 * hi + lo) % 16 == lo
  {
  }

  /** Two hex digits parse as the value they spell, high nibble first. */
  lemma PairValue(p: string)
    requires |p| == 2 && IsHexDigit(p[0]) && IsHexDigit(p[1])
    ensures ParseRadix16(p) == Some(16 * HexDigitValue(p[0]) + HexDigitValue(p[1]))
  {
    assert p[..1][..0] == [] && p[..1][0] == p[0] && p[..|p| - 1] == p[..1];
    assert AllHexDigits(p) && AllHexDigits(p[..1]);
    assert HexDigitsValue(p[..1]) == HexDigitValue(p[0]);
  }

  /** Two hex digits, parsed and truncated to a byte, print back as the same digits upper-cased. */
  lemma PairPrintsBack(p: string)
    requires |p| == 2 && IsAsciiHexDigit(p[0]) && IsAsciiHexDigit(p[1])
    ensures ParseRadix16(p).Some?
    ensures HexPair(ToByte(ParseRadix16(p).value)) == [UpperChar(p[0]), UpperChar(p[1])]
  {
    PairValue(p);
    var hi, lo := HexDigitValue(p[0]), HexDigitValue(p[1]);
    var v := 16 * hi + lo;
    ToUnsignedOfToByte(v);
    DivModSixteen(hi, lo);
    UpperDigitOfValue(p[0]);
    UpperDigitOfValue(p[1]);
  }

  /** Round trip one way: every byte sequence comes back from its hex string. */
  lemma ParsePairsOfHexString(bytes: seq<Byte>)
    ensures ParsePairs(ToHexString(bytes)) == Ok(bytes)
  {
    var h := ToHexString(bytes);
    ToHexStringPairs(bytes);
    forall i | 0 <= i < |bytes|
      ensures ParseRadix16(Chunk(h, i)) == Some(ToUnsignedInt(bytes[i]))
      ensures ToByte(ParseRadix16(Chunk(h, i)).value) == bytes[i]
    {
      HexPairRoundTrip(bytes[i]);
    }
    assert ParsePairs(h).value == bytes;
  }

  /** A single pair that reads as `v` decodes to the one byte `v` truncates to. */
  lemma ParsePairsOne(p: string, v: int)
    requires |p| == 2 && ParseRadix16(p) == Some(v)
    ensures ParsePairs(p) == Ok([ToByte(v)])
  {
    assert Chunk(p, 0) == p && p[2..] == [];
    assert ParsePairs(p[2..]) == Ok([]);
    assert [ToByte(v)] + [] == [ToByte(v)];
  }

  /**
   * `toIntOrNull(16)` reads digits of other scripts and full-width letters: the
   * Arabic-Indic digits zero and one make byte 0x01, full-width `AF` makes byte 0xAF.
   */
  lemma NonAsciiPairs()
    ensures ParsePairs("\U{0660}\U{0661}") == Ok([0x01])
    ensures ParsePairs("\U{FF21}\U{FF26}") == Ok([-0x51])
  {
    var arabic, wide := "\U{0660}\U{0661}", "\U{FF21}\U{FF26}";
    assert HexDigitValue(arabic[0]) == 0 && HexDigitValue(arabic[1]) == 1;
    PairValue(arabic);
    ParsePairsOne(arabic, 1);
    assert HexDigitValue(wide[0]) == 10 && HexDigitValue(wide[1]) == 15;
    PairValue(wide);
    ParsePairsOne(wide, 0xAF);
  }

  lemma HexDigitPairsParse(s: string)
    requires |s| % 2 == 0 && AllHexDigits(s)
    ensures AllPairsParse(s)
  {
    forall i | 0 <= i < |s| / 2 ensures ParseRadix16(Chunk(s, i)).Some? {
      PairValue(Chunk(s, i));
    }
  }

  /** Round trip the other way: an even-length string of ASCII hex digits comes back upper-cased. */
  lemma HexStringOfParsePairs(s: string)
    requires |s| % 2 == 0 && AllAsciiHexDigits(s)
    ensures ParsePairs(s).Ok? && ToHexString(ParsePairs(s).value) == Uppercase(s)
  {
    assert AllHexDigits(s) by {
      forall i | 0 <= i < |s| ensures IsHexDigit(s[i]) {
        assert IsAsciiHexDigit(s[i]);
      }
    }
    HexDigitPairsParse(s);
    var b := ParsePairs(s).value;
    forall i | 0 <= i < |b| ensures HexPair(b[i]) == [UpperChar(s[2 * i]), UpperChar(s[2 * i + 1])] {
      ChunkPrintsBack(s, b, i);
    }
    HexStringOfPairs(b, s);
  }

  /** The `i`-th byte parsed out of `s` prints back as the `i`-th chunk upper-cased. */
  lemma ChunkPrintsBack(s: string, b: seq<Byte>, i: nat)
    requires |s| % 2 == 0 && AllAsciiHexDigits(s) && AllPairsParse(s) && SpellsBytes(s, b) && i < |b|
    ensures HexPair(b[i]) == [UpperChar(s[2 * i]), UpperChar(s[2 * i + 1])]
  {
    PairPrintsBack(Chunk(s, i));
  }

  /** Bytes whose digit pairs are the upper-cased pairs of `s` print as `s` upper-cased. */
  lemma {:induction false} HexStringOfPairs(b: seq<Byte>, s: string)
    requires |s| == 2 * |b|
    requires forall i :: 0 <= i < |b| ==> HexPair(b[i]) == [UpperChar(s[2 * i]), UpperChar(s[2 * i + 1])]
    ensures ToHexString(b) == Uppercase(s)
    decreases |b|
  {
    if b != [] {
      var head, rest := s[..2], s[2..];
      PairsOfTail(b, s);
      HexStringOfPairs(b[1..], rest);
      assert s == head + rest;
      UppercaseConcat(head, rest);
      UppercasePair(head);
    }
  }

  lemma PairsOfTail(b: seq<Byte>, s: string)
    requires |s| == 2 * |b| && b != []
    requires forall i :: 0 <= i < |b| ==> HexPair(b[i]) == [UpperChar(s[2 * i]), UpperChar(s[2 * i + 1])]
    ensures forall i :: 0 <= i < |b| - 1 ==> HexPair(b[1..][i]) == [UpperChar(s[2..][2 * i]), UpperChar(s[2..][2 * i + 1])]
  {
    forall i | 0 <= i < |b| - 1
      ensures HexPair(b[1..][i]) == [UpperChar(s[2..][2 * i]), UpperChar(s[2..][2 * i + 1])]
    {
      assert b[1..][i] == b[i + 1] && s[2..][2 * i] == s[2 * (i + 1)] && s[2..][2 * i + 1] == s[2 * (i + 1) + 1];
    }
  }

  lemma UppercasePair(p: string)
    requires |p| == 2
    ensures Uppercase(p) == [UpperChar(p[0]), UpperChar(p[1])]
  {
    assert Uppercase(p) == [UpperChar(p[0])] + Uppercase(p[1..]);
    assert Uppercase(p[1..]) == [UpperChar(p[1])] + Uppercase(p[2..]);
  }

  /** `String.hashCode()`: h = 31 * h + c over the characters, in 32-bit arithmetic. */
  function StringHashCode(s: string): int {
    if s == [] then 0 else Wrap32(31 * StringHashCode(s[..|s| - 1]) + s[|s| - 1] as int)
  }

  /** `ByteArray.contentHashCode()`: starts at 1, then h = 31 * h + b over the signed bytes. */
  function ContentHashCode(bytes: seq<Byte>): int {
    if bytes == [] then 1 else Wrap32(31 * ContentHashCode(bytes[..|bytes| - 1]) + bytes[|bytes| - 1] as int)
  }

  /** A single BER-TLV structure: its canonical tag text, declared length and value bytes. */
  datatype Tlv = Tlv(tag: string, length: int, value: seq<Byte>) {

    /** The `hexValue` property, computed from `value` when the record is built. */
    function HexValue(): (r: string)
      ensures |r| == 2 * |value|
      ensures forall i :: 0 <= i < |value| ==> r[2 * i..2 * i + 2] == HexPair(value[i])
    {
      ToHexStringPairs(value);
      ToHexString(value)
    }

    /** `equals`: same tag text, same length and the same value bytes, compared by content. */
    function Equals(other: Tlv): (r: bool)
      ensures r <==> this == other
    {
      tag == other.tag && length == other.length && value == other.value
    }

    /** `hashCode`: combines the tag's hash, the length and the content hash of the value. */
    function HashCode(): (h: int)
      ensures INT_MIN <= h <= INT_MAX
    {
      var result := StringHashCode(tag);
      var result' := Wrap32(31 * result + length);
      Wrap32(31 * result' + ContentHashCode(value))
    }
  }

  /** `hashCode` agrees with `equals`: records equal by content hash alike. */
  lemma HashCodeAgreesWithEquals(a: Tlv, b: Tlv)
    requires a.Equals(b)
    ensures a.HashCode() == b.HashCode()
  {
  }

  /** A record together with its human-readable interpretation. */
  datatype ParsedField = ParsedField(tlv: Tlv, interpretation: string)

  /** `TlvParseException`: a sealed class with exactly these two kinds. */
  datatype TlvParseError =
    | InvalidHexInput(message: string)
    | MalformedTlv(message: string)
}
