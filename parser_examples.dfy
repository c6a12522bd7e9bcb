/**
 * The parser's own unit cases (`TlvParserTest.kt`), stated about the model: a two-byte
 * tag, a value that runs past the end, a chunk that is not hex, and an unknown tag shown
 * as hex. The byte-level cases are the bytes the test's hex text spells; by
 * `TlvParser.ParseHexOfHexString` that text parses exactly as these bytes decode.
 */
module ParserExamples {
  import opened Wrappers
  import opened Jvm
  import opened TlvModels
  import opened TlvParser
  import TagInterpreter

  /** Two bytes print as the two pairs that spell them. */
  lemma TwoBytesText(b0: Byte, b1: Byte, text: string)
    requires |text| == 4 && HexPair(b0) == text[..2] && HexPair(b1) == text[2..]
    ensures ToHexString([b0, b1]) == text
  {
    ToHexStringOfByte(b1);
    TagInterpreter.ToHexStringCons(b0, [b1]);
  }

  /** A single well-formed element decodes to its one record. */
  lemma DecodeOne(e: Element)
    requires WellFormed(e)
    ensures Decode(e.Encoding()) == Ok([e.ToTlv()])
  {
    assert [e][1..] == [];
    assert Concat([e]) == e.Encoding() + Concat([]);
    assert e.Encoding() + [] == e.Encoding();
    assert AllWellFormed([e]) by {
      assert forall i :: 0 <= i < 1 ==> [e][i] == e;
    }
    DecodeConcat([e]);
    ToTlvsLengths([e]);
    assert ToTlvs([e]) == [e.ToTlv()];
  }

  /** The bytes of `9F1A020123` are one record: tag `9F1A`, length 2, value `01 23`. */
  lemma MultiByteTagExample()
    ensures Decode([-0x61, 0x1A, 0x02, 0x01, 0x23]) == Ok([Tlv("9F1A", 2, [0x01, 0x23])])
  {
    var e := Element([-0x61, 0x1A], [0x02], [0x01, 0x23]);
    assert ToUnsignedInt(-0x61) == 0x9F;
    assert WellFormed(e);
    assert e.Encoding() == [-0x61, 0x1A, 0x02, 0x01, 0x23];
    DecodeOne(e);
    assert HexPair(-0x61) == "9F" && HexPair(0x1A) == "1A";
    TwoBytesText(-0x61, 0x1A, "9F1A");
  }

  /**
   * The bytes of `9F02030001` declare three value bytes but carry two: the parse fails
   * with a malformed-record error naming tag `9F02`.
   */
  lemma OverrunExample()
    ensures Decode([-0x61, 0x02, 0x03, 0x00, 0x01]) == Err(MalformedTlv(OverrunMessage("9F02")))
  {
    var bytes: seq<Byte> := [-0x61, 0x02, 0x03, 0x00, 0x01];
    assert ToUnsignedInt(-0x61) == 0x9F;
    assert bytes[0..2] == [-0x61, 0x02] && bytes[2..3] == [0x03];
    TagSpanOfEncoding(bytes, 0, 2);
    ReadLengthOfEncoding(bytes, 2, 1, 3);
    ElementOverrun(bytes, 0, 2, 3, 1);
    ScanFails(bytes, 0);
    assert HexPair(-0x61) == "9F" && HexPair(0x02) == "02";
    TwoBytesText(-0x61, 0x02, "9F02");
  }

  /** `ZZ` is an even number of characters, but `ZZ` is not a radix-16 number. */
  lemma InvalidPairExample()
    ensures ParseHexSpec("ZZ") == Err(InvalidHexInput(InvalidPairPrefix + "ZZ"))
  {
    RemoveRegexSpacesKeeps("ZZ");
    assert !IsWhitespace("ZZ"[0]);
    assert Chunk("ZZ", 0) == "ZZ";
  }

  /** The bytes of `DF0102A1B2` are one record of tag `DF01` with value `A1 B2`. */
  lemma UnknownTagExample()
    ensures Decode([-0x21, 0x01, 0x02, -0x5F, -0x4E]) == Ok([Tlv("DF01", 2, [-0x5F, -0x4E])])
  {
    var e := Element([-0x21, 0x01], [0x02], [-0x5F, -0x4E]);
    assert ToUnsignedInt(-0x21) == 0xDF;
    assert WellFormed(e);
    assert e.Encoding() == [-0x21, 0x01, 0x02, -0x5F, -0x4E];
    DecodeOne(e);
    assert HexPair(-0x21) == "DF" && HexPair(0x01) == "01";
    TwoBytesText(-0x21, 0x01, "DF01");
  }

  /** That record's tag is unknown, so it is shown as its value's upper-case hex: `A1B2`. */
  lemma UnknownTagShownAsHex()
    ensures TagInterpreter.InterpretAll([Tlv("DF01", 2, [-0x5F, -0x4E])])
      == Ok([ParsedField(Tlv("DF01", 2, [-0x5F, -0x4E]), "A1B2")])
  {
    var t := Tlv("DF01", 2, [-0x5F, -0x4E]);
    assert Uppercase("DF01") == "DF01";
    TagInterpreter.InterpretShowsHex(t);
    assert HexPair(-0x5F) == "A1" && HexPair(-0x4E) == "B2";
    TwoBytesText(-0x5F, -0x4E, "A1B2");
    assert t.HexValue() == "A1B2";
    var r := TagInterpreter.InterpretAll([t]);
    assert r.Ok?;
    assert TagInterpreter.Interpret([t][0]) == Ok(r.value[0]);
    assert r.value == [ParsedField(t, "A1B2")];
  }
}
