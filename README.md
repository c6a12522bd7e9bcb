# emvNfc card-data engine in Dafny

This project models the deterministic core of emvNfc, an Android EMV contactless reader with a command-line companion, and proves properties of the model.

- **BER-TLV decoder** (`TlvParser`, with the `Tlv` record and its hex helpers).
  - Hex text is turned into bytes, and bytes into an ordered list of tag/length/value records.
  - Tags follow ITU-T X.690 section 8.1.2. Lengths follow section 8.1.3, short and long form; the indefinite form is refused.
  - The byte loop (`parse`, `readTag`, `readLength`) is an imperative method. It is proved equal to a recursive specification, `TlvParser.Decode`.
  - Decoding is proved to be exact. Records come out in input order, each with `length == |value|`. The encodings of the records tile the input. A well-formed sequence of elements decodes back to its records.
- **Tag interpreter** (`TagInterpreter`).
  - Tag 9F02 is shown as an amount with two decimals.
  - PAN (5A) and Track 2 equivalent data (57) are masked, keeping the first six and at most the last four characters.
  - Every other tag is shown as upper-case hex.
- **Hex helpers** of the app (`util/Hex.kt`), with both round trips.
- **Card dialogue** of `NfcReaderManager`.
  - The contactless link (`IsoDep`) is a class whose `card` is a function of the commands sent so far and the next command. It answers with response bytes or with the message of an I/O failure.
  - Each step is modelled byte-exactly: SELECT of the PPSE and of an application, GET PROCESSING OPTIONS with a zero-filled PDOL, AFL decoding, READ RECORD, status-word checking, and the flattening of constructed records.
  - Each method of the reader is proved equal to a function of the old state (the command log and the stored FCI).
  - Lemmas about those functions state the AID loop's rules: abort on a failure, skip an AID with no records, stop at the first AID with records.
- **Reader screen state machine** of `NfcViewModel`.
  - The class updates a `ReaderUiState` field through the same transitions as the source. Every transition keeps a consistency invariant.
  - Log entries are built from parsed card data. Only tags 84, 50, 9F02 and 5F2A are kept, so PAN and track data are never stored.
  - The share text is built from the stored entries.
- **Log stores** (`InMemoryLogRepository`, and the list kept by `FileLogRepository`).
- **CLI `main` and `printTable`**: input assembly, error reporting and a column-aligned table. Every table line is proved to have the same width.

Kotlin's signed `Byte` is the newtype `Jvm.Byte` (-128..127). `ToUnsignedInt` (`and 0xFF`) and `ToByte` (`Int.toByte()`) are its conversions. Kotlin's 32-bit `Int` arithmetic is written out where it matters (`Jvm.Wrap32`, used by `Tlv.hashCode` and by the as-written length reader).

Three behaviours of the code worth knowing:

- `BigDecimal(String)` accepts the exponent mark `E`. An amount whose hex digits are `<digits>E<digits>` therefore does not throw: `1E05` reads as 100000. Any other letter makes it throw (`TagInterpreter.BigDecimalOfRefusesLetter`, `TagInterpreter.FormatAmountRefusesLetter`).
- `toIntOrNull(16)` and `toInt(16)` read digits as `Character.digit` does. They accept a leading `+` or `-`, so a pair such as `-1` reads as a byte (`Jvm.ParseRadix16`). They also accept the decimal digits of every script and the full-width letters A-F, so the pair of Arabic-Indic zero and one reads as 0x01 (`TlvModels.NonAsciiPairs`).
- `readLength` accumulates the length in a 32-bit `Int`, which overflows for long lengths. The main model corrects this with an unbounded length. The reader as written is `TlvAsWritten`, and the overflow is recorded under "Findings".

## Model

| member | source | states |
|---|---|---|
| TlvModels.ToUnsignedInt | parser/bin/main/com/example/emvnfc/parser/TlvModels.kt:39 | every byte maps into 0..255 |
| TlvModels.ToByteOfUnsigned | parser/bin/main/com/example/emvnfc/parser/TlvModels.kt:39 | `toUnsignedInt` loses nothing: `toByte` of it gives the byte back |
| TlvModels.HexPair | parser/bin/main/com/example/emvnfc/parser/TlvModels.kt:42 | one byte prints as exactly two upper-case hex digits |
| TlvModels.PadHexIsPair | parser/bin/main/com/example/emvnfc/parser/TlvModels.kt:41-43 | `toString(16).padStart(2, '0')` gives two characters, and upper-casing them gives the byte's pair |
| TlvModels.ToHexString | parser/bin/main/com/example/emvnfc/parser/TlvModels.kt:41-43 | the text has two characters per byte |
| TlvModels.ToHexStringIsUppercasedJoin | parser/bin/main/com/example/emvnfc/parser/TlvModels.kt:41-43 | `toHexString` is the upper-cased join of the padded radix-16 texts, as written |
| TlvModels.ToHexStringPairs | parser/bin/main/com/example/emvnfc/parser/TlvModels.kt:41-43 | characters 2i and 2i+1 are the pair of byte i, in order |
| TlvModels.ToHexStringSnoc | parser/bin/main/com/example/emvnfc/parser/TlvModels.kt:41-43 | one more byte appends exactly its pair to the hex text |
| TlvModels.ToHexStringDigits | parser/bin/main/com/example/emvnfc/parser/TlvModels.kt:41-43 | every character is one of 0-9A-F |
| TlvModels.ParsePairs | parser/src/main/kotlin/com/example/emvnfc/parser/TlvParser.kt:78-80 | decoding succeeds iff every two-character chunk is a radix-16 number as `toIntOrNull(16)` reads it (sign, any script's decimal digits, full-width letters); the bytes are those numbers, in order; on failure it names the first bad chunk |
| TlvModels.HexPairRoundTrip | parser/bin/main/com/example/emvnfc/parser/TlvModels.kt:41-43 | a byte's pair parses back to its unsigned value, which converts back to the byte |
| TlvModels.ParsePairsOfHexString | parser/src/main/kotlin/com/example/emvnfc/parser/TlvParser.kt:78-80 | decoding the hex text of any byte array gives the array back |
| TlvModels.NonAsciiPairs | parser/src/main/kotlin/com/example/emvnfc/parser/TlvParser.kt:79 | Arabic-Indic digits zero and one decode to 0x01, full-width `AF` to 0xAF |
| TlvModels.HexStringOfParsePairs | parser/src/main/kotlin/com/example/emvnfc/parser/TlvParser.kt:78-80 | an even-length string of ASCII hex digits decodes, and re-encoding gives the string upper-cased |
| TlvModels.Tlv.HexValue | parser/bin/main/com/example/emvnfc/parser/TlvModels.kt:9 | `hexValue` has length 2 * size of the value, with each byte's pair in place |
| TlvModels.Tlv.Equals | parser/bin/main/com/example/emvnfc/parser/TlvModels.kt:10-17 | two records are equal iff tag, length and value contents are equal |
| TlvModels.Tlv.HashCode | parser/bin/main/com/example/emvnfc/parser/TlvModels.kt:19-24 | the 31-multiplier hash with 32-bit wrap-around stays in Int range |
| TlvModels.HashCodeAgreesWithEquals | parser/bin/main/com/example/emvnfc/parser/TlvModels.kt:10-24 | equal records have equal hash codes; immediate, since record equality is structural and `hashCode` a function of the fields |
| Hex.HexToByteArray | app/src/main/java/com/example/emvnfc/util/Hex.kt:7-12 | odd length fails with exactly the `require` message; otherwise it succeeds iff every chunk parses under `toInt(16)` (sign, any script's decimal digits, full-width letters), gives one byte per chunk in order, or fails with the first bad chunk |
| Hex.HexToByteArrayOfHexString | app/src/main/java/com/example/emvnfc/util/Hex.kt:3-12 | `hexToByteArray(toHexString(b)) == b` for every byte array |
| Hex.HexStringOfHexToByteArray | app/src/main/java/com/example/emvnfc/util/Hex.kt:3-12 | `toHexString(hexToByteArray(s))` is `s` upper-cased, for an even-length string of ASCII hex digits |
| Jvm.ToByte | app/src/main/java/com/example/emvnfc/util/Hex.kt:10 | `Int.toByte()` keeps the value modulo 256 |
| Jvm.Wrap32 | parser/bin/main/com/example/emvnfc/parser/TlvModels.kt:19-24 | 32-bit wrap-around lands in Int range and is congruent modulo 2^32 |
| Jvm.HexDigitValue | parser/src/main/kotlin/com/example/emvnfc/parser/TlvParser.kt:79 | `Character.digit(c, 16)`: ASCII and full-width letters a-f in either case and the decimal digits of every script of the Basic Multilingual Plane, each with a value below 16 |
| Jvm.ToRadix16String | parser/bin/main/com/example/emvnfc/parser/TlvModels.kt:42 | `Int.toString(16)` of a non-negative number prints at least one digit |
| Jvm.NatToString | parser/src/main/kotlin/com/example/emvnfc/parser/TagInterpreter.kt:26 | the decimal text of a non-negative number is at least one decimal digit |
| Jvm.RemoveRegexSpaces | parser/src/main/kotlin/com/example/emvnfc/parser/TlvParser.kt:74 | removing `\s` leaves no regex space and never lengthens the text; a text without spaces is unchanged |
| Jvm.RemoveRegexSpacesConcat | parser/src/main/kotlin/com/example/emvnfc/parser/TlvParser.kt:74 | removing `\s` works character by character: it distributes over concatenation, drops a space and keeps any other character, so the other characters stay in order |
| Jvm.TrimEndChar | parser/src/main/kotlin/com/example/emvnfc/parser/TagInterpreter.kt:30 | `trimEnd(c)` returns a prefix that does not end in `c`, and only `c`s were dropped |
| Jvm.TrimEndCharPadding | parser/src/main/kotlin/com/example/emvnfc/parser/TagInterpreter.kt:30 | two more trailing `c`s are trimmed away again |
| Jvm.TrimStartChar | parser/src/main/kotlin/com/example/emvnfc/parser/TagInterpreter.kt:24 | `trimStart(c)` returns a suffix that does not start with `c`, and only `c`s were dropped |
| Jvm.TrimStartKeepsOther | parser/src/main/kotlin/com/example/emvnfc/parser/TagInterpreter.kt:24 | a character other than `c` is still present after `trimStart(c)` |
| Jvm.IndexOf | parser/src/main/kotlin/com/example/emvnfc/parser/TagInterpreter.kt:41 | `indexOf` is the first occurrence, or -1 when there is none |
| Jvm.TrimEndWhitespace | app/src/main/java/com/example/emvnfc/ui/NfcViewModel.kt:139 | `trimEnd()` returns a prefix that does not end in whitespace, and only whitespace was dropped |
| Jvm.TrimStartWhitespace | cli-tool/bin/main/com/example/emvnfc/cli/Main.kt:16 | the leading half of `trim()` returns a suffix that does not start with whitespace, and only whitespace was dropped |
| Jvm.Uppercase | parser/src/main/kotlin/com/example/emvnfc/parser/TagInterpreter.kt:17 | `uppercase()` keeps the length |
| Jvm.UppercaseAt | parser/src/main/kotlin/com/example/emvnfc/parser/TagInterpreter.kt:17 | `uppercase()` maps each character on its own |
| Jvm.UppercaseConcat | parser/bin/main/com/example/emvnfc/parser/TlvModels.kt:41-43 | upper-casing distributes over concatenation |
| Jvm.Repeat | parser/src/main/kotlin/com/example/emvnfc/parser/TagInterpreter.kt:58 | `repeat(n) { append(c) }` appends exactly n copies of c |
| TlvParser.TagSpan | parser/src/main/kotlin/com/example/emvnfc/parser/TlvParser.kt:32-51 | a tag read takes at least one byte and stays inside the input |
| TlvParser.TagSpanAccepts | parser/src/main/kotlin/com/example/emvnfc/parser/TlvParser.kt:33-49 | the tag read fails iff the input has ended, or the first byte announces a multi-byte tag and either it is the last byte and carries bit 8, or every later byte carries bit 8; a lone lead without bit 8 at the end is read as a one-byte tag |
| TlvParser.TagSpanWellFormed | parser/src/main/kotlin/com/example/emvnfc/parser/TlvParser.kt:35-46 | when more input follows, the bytes taken form an X.690 tag: one byte unless its low five bits are 11111, else continuation bytes up to the first byte with bit 8 clear |
| TlvParser.TagSpanOfEncoding | parser/src/main/kotlin/com/example/emvnfc/parser/TlvParser.kt:32-51 | conversely, a well-formed tag at the read position is read in full |
| TlvParser.ReadTag | parser/src/main/kotlin/com/example/emvnfc/parser/TlvParser.kt:32-51 | the loop method fails exactly as the specification does; on success it gives the tag bytes' upper-case hex and their count |
| TlvParser.ReadTagSingleText | parser/src/main/kotlin/com/example/emvnfc/parser/TlvParser.kt:37 | the single-byte text `toString(16).padStart(2,'0').uppercase()` equals `toHexString` of that byte |
| TlvParser.ReadLengthAt | parser/src/main/kotlin/com/example/emvnfc/parser/TlvParser.kt:53-71 | a length read consumes at least one byte and stays inside the input |
| TlvParser.ReadLengthAccepts | parser/src/main/kotlin/com/example/emvnfc/parser/TlvParser.kt:54-65 | the length read fails iff the input has ended, the form is indefinite (0x80), or fewer than n length bytes follow |
| TlvParser.ReadLengthWellFormed | parser/src/main/kotlin/com/example/emvnfc/parser/TlvParser.kt:56-70 | the bytes taken are an X.690 short or long length encoding of the value returned (big-endian) |
| TlvParser.ReadLengthOfEncoding | parser/src/main/kotlin/com/example/emvnfc/parser/TlvParser.kt:53-71 | conversely, a well-formed length encoding is read back as its value and size |
| TlvParser.ReadLength | parser/src/main/kotlin/com/example/emvnfc/parser/TlvParser.kt:53-71 | the shifting loop computes exactly the specified length and size, or the specified error |
| TlvParser.Element.Encoding | parser/src/main/kotlin/com/example/emvnfc/parser/TlvParser.kt:20-21 | a record's bytes are its tag, length and value bytes, back to back |
| TlvParser.Element.ToTlv | parser/src/main/kotlin/com/example/emvnfc/parser/TlvParser.kt:25-26 | the record built has `length == |value|` and the value bytes read |
| TlvParser.ReadElement | parser/src/main/kotlin/com/example/emvnfc/parser/TlvParser.kt:18-25 | one loop turn consumes tag and length bytes and a value that ends inside the input |
| TlvParser.ElementRefusedTag | parser/src/main/kotlin/com/example/emvnfc/parser/TlvParser.kt:18 | a failed tag read fails the turn with that error |
| TlvParser.ElementRefusedLength | parser/src/main/kotlin/com/example/emvnfc/parser/TlvParser.kt:19 | a failed length read fails the turn with that error |
| TlvParser.ElementOverrun | parser/src/main/kotlin/com/example/emvnfc/parser/TlvParser.kt:20-24 | a declared length that runs past the end fails with the overrun error naming the tag |
| TlvParser.CutRecord | parser/src/main/kotlin/com/example/emvnfc/parser/TlvParser.kt:20-27 | the record has the tag's hex, the declared length and the value slice, and the next index is the value's end |
| TlvParser.Report | parser/src/main/kotlin/com/example/emvnfc/parser/TlvParser.kt:22-24 | an overrun is reported as a malformed-record error |
| TlvParser.ToTlvs | parser/src/main/kotlin/com/example/emvnfc/parser/TlvParser.kt:26 | one record per element |
| TlvParser.ScanTiles | parser/src/main/kotlin/com/example/emvnfc/parser/TlvParser.kt:14-29 | a successful walk yields well-formed elements whose encodings tile the input from the start index |
| TlvParser.ScanOfTiled | parser/src/main/kotlin/com/example/emvnfc/parser/TlvParser.kt:14-29 | conversely, well-formed elements that tile the input are exactly what the walk yields |
| TlvParser.TiledConcat | parser/src/main/kotlin/com/example/emvnfc/parser/TlvParser.kt:14-29 | elements tile the rest of the input iff their concatenated encodings are that rest |
| TlvParser.DecodeConcat | parser/src/main/kotlin/com/example/emvnfc/parser/TlvParser.kt:14-30 | decoding the concatenated encodings of well-formed elements gives their records, in order |
| TlvParser.DecodeTiles | parser/src/main/kotlin/com/example/emvnfc/parser/TlvParser.kt:14-30 | every successful decode comes from well-formed elements whose encodings concatenate to the input |
| TlvParser.DecodeLengths | parser/src/main/kotlin/com/example/emvnfc/parser/TlvParser.kt:21-26 | every decoded record has `length == value.size` |
| TlvParser.ReadRecord | parser/src/main/kotlin/com/example/emvnfc/parser/TlvParser.kt:18-27 | one loop turn fails iff the element read fails, with the reported error, else gives its record and the next index |
| TlvParser.Advance | parser/src/main/kotlin/com/example/emvnfc/parser/TlvParser.kt:17-27 | a turn that throws decides the whole parse; one that succeeds moves the index forward, stays inside the input, and extends the walk by the element whose record it returns |
| TlvParser.Parse | parser/src/main/kotlin/com/example/emvnfc/parser/TlvParser.kt:14-30 | the index-walking loop returns exactly the specified decode: all records, or the first error with no partial list |
| TlvParser.ToByteArrayOrThrow | parser/src/main/kotlin/com/example/emvnfc/parser/TlvParser.kt:73-81 | whitespace is stripped first; odd length fails with InvalidHexInput; any failure is InvalidHexInput; an even-length text succeeds iff every chunk reads under `toIntOrNull(16)`, giving those values as bytes, in order; otherwise the error names the first chunk that does not read |
| TlvParser.ParseHexSpec | parser/src/main/kotlin/com/example/emvnfc/parser/TlvParser.kt:8-12 | blank text gives no records and no error |
| TlvParser.ParseHexOfHexString | parser/src/main/kotlin/com/example/emvnfc/parser/TlvParser.kt:8-30 | parsing the hex text of a byte array is the same as decoding the bytes |
| TlvParser.ParseHex | parser/src/main/kotlin/com/example/emvnfc/parser/TlvParser.kt:8-12 | `parse(String)` returns exactly the specified result |
| ParserExamples.DecodeOne | parser/src/main/kotlin/com/example/emvnfc/parser/TlvParser.kt:14-30 | one well-formed element decodes to its single record |
| ParserExamples.MultiByteTagExample | parser/src/test/kotlin/com/example/emvnfc/parser/TlvParserTest.kt:68-78 | the bytes of `9F1A020123` are one record: tag `9F1A`, length 2, value `01 23` |
| ParserExamples.OverrunExample | parser/src/test/kotlin/com/example/emvnfc/parser/TlvParserTest.kt:40-47 | the bytes of `9F02030001` fail with the malformed-record error for tag `9F02` |
| ParserExamples.InvalidPairExample | parser/src/test/kotlin/com/example/emvnfc/parser/TlvParserTest.kt:49-54 | `ZZ` fails with InvalidHexInput naming the pair |
| ParserExamples.UnknownTagExample | parser/src/test/kotlin/com/example/emvnfc/parser/TlvParserTest.kt:56-66 | the bytes of `DF0102A1B2` are one record of tag `DF01` with value `A1 B2` |
| ParserExamples.UnknownTagShownAsHex | parser/src/test/kotlin/com/example/emvnfc/parser/TlvParserTest.kt:56-66 | that record is interpreted as `A1B2` |
| ParserExamples.TwoBytesText | parser/bin/main/com/example/emvnfc/parser/TlvModels.kt:41-43 | two bytes print as the concatenation of their pairs |
| TlvAsWritten.BigEndian32AtWraps | parser/src/main/kotlin/com/example/emvnfc/parser/TlvParser.kt:66-69 | the `shl 8 or` loop in Int computes the big-endian value wrapped to 32 bits |
| TlvAsWritten.BigEndian32At | parser/src/main/kotlin/com/example/emvnfc/parser/TlvParser.kt:66-69 | the `Int` accumulator always holds a 32-bit value |
| TlvAsWritten.ReadLengthAsWritten | parser/src/main/kotlin/com/example/emvnfc/parser/TlvParser.kt:53-71 | the length read as written consumes at least one byte and stays inside the input |
| TlvAsWritten.ReadLengthAsWrittenWraps | parser/src/main/kotlin/com/example/emvnfc/parser/TlvParser.kt:53-71 | the as-written length read fails exactly when the unbounded one does, and otherwise returns its value wrapped to 32 bits |
| TlvAsWritten.ReadLengthAsWrittenOf | parser/src/main/kotlin/com/example/emvnfc/parser/TlvParser.kt:53-71 | lengths that fit an Int are read the same by both |
| TlvAsWritten.AddIntWraps | parser/src/main/kotlin/com/example/emvnfc/parser/TlvParser.kt:20-21 | Int addition of the value bounds wraps |
| TlvAsWritten.StepAsWritten | parser/src/main/kotlin/com/example/emvnfc/parser/TlvParser.kt:17-27 | an as-written loop turn that succeeds moves the index forward and stays inside the input |
| TlvAsWritten.StepAgrees | parser/src/main/kotlin/com/example/emvnfc/parser/TlvParser.kt:17-27 | where the unbounded turn succeeds, the as-written turn gives the same record and next index |
| TlvAsWritten.ScanAgrees | parser/src/main/kotlin/com/example/emvnfc/parser/TlvParser.kt:14-30 | from any index, a successful unbounded walk is matched by the as-written walk, record for record |
| TlvAsWritten.DecodeAgrees | parser/src/main/kotlin/com/example/emvnfc/parser/TlvParser.kt:14-30 | wherever the corrected parser succeeds, the parser as written returns the same records |
| TlvAsWritten.WrappedLengthAccepted | parser/src/main/kotlin/com/example/emvnfc/parser/TlvParser.kt:66-69 | `01 85 01 00 00 00 00` is accepted as written (length 0) but refused as an overrun by the corrected parser |
| TlvAsWritten.NegativeLengthEscapes | parser/src/main/kotlin/com/example/emvnfc/parser/TlvParser.kt:21-25 | `01 84 80 00 00 00` throws IllegalArgumentException as written, not a parse error |
| TagInterpreter.BigDecimalOf | parser/src/main/kotlin/com/example/emvnfc/parser/TagInterpreter.kt:25 | reads exactly when the text is a non-empty run of decimal digits or `<digits>E<digits>` with an exponent that fits an Int; digits read as their value, the E form as mantissa * 10^exponent |
| TagInterpreter.BigDecimalOfRefusesLetter | parser/src/main/kotlin/com/example/emvnfc/parser/TagInterpreter.kt:25 | a hex letter A-D or F anywhere in the text makes BigDecimal refuse it |
| TagInterpreter.AmountDigitsKeepLetter | parser/src/main/kotlin/com/example/emvnfc/parser/TagInterpreter.kt:24 | a hex letter in the amount's hex survives `trimStart('0')` and the `ifBlank` default |
| TagInterpreter.TwoDecimals | parser/src/main/kotlin/com/example/emvnfc/parser/TagInterpreter.kt:25-26 | the text has a point followed by exactly two digits |
| TagInterpreter.TwoDecimalsValue | parser/src/main/kotlin/com/example/emvnfc/parser/TagInterpreter.kt:25-26 | dropping the point from the text gives back the number of cents |
| TagInterpreter.AmountDigits | parser/src/main/kotlin/com/example/emvnfc/parser/TagInterpreter.kt:24 | leading zeros dropped, empty becomes "0", still hex digits |
| TagInterpreter.DecimalAmountDigits | parser/src/main/kotlin/com/example/emvnfc/parser/TagInterpreter.kt:24 | for decimal hex, the trimmed digits are non-empty and have the same value |
| TagInterpreter.FormatAmount | parser/src/main/kotlin/com/example/emvnfc/parser/TagInterpreter.kt:23-27 | a formatted amount always ends in a point and two digits; it fails exactly when BigDecimal refuses the trimmed digits, and the failure names those digits |
| TagInterpreter.FormatAmountRefusesLetter | parser/src/main/kotlin/com/example/emvnfc/parser/TagInterpreter.kt:23-27 | an amount whose hex holds a letter A-D or F fails with `AmountNotANumber` naming its trimmed digits |
| TagInterpreter.FormatAmountOfDecimal | parser/src/main/kotlin/com/example/emvnfc/parser/TagInterpreter.kt:23-27 | when the hex is all decimal digits, the amount is the value they spell, in cents, never a failure |
| TagInterpreter.DecimalValueConcat | parser/src/main/kotlin/com/example/emvnfc/parser/TagInterpreter.kt:24-25 | the value of concatenated digits is the first part shifted past the second |
| TagInterpreter.FormatAmountExample | parser/src/test/kotlin/com/example/emvnfc/parser/TlvParserTest.kt:36 | `00 00 00 00 12 34` formats as `12.34` |
| TagInterpreter.TwoDecimalsExample | parser/src/test/kotlin/com/example/emvnfc/parser/TlvParserTest.kt:36 | 1234 cents print as `12.34` |
| TagInterpreter.ExponentDigitsAccepted | parser/src/main/kotlin/com/example/emvnfc/parser/TagInterpreter.kt:25 | `1E 05` is read by BigDecimal as 1E05 and formats as `1000.00` |
| TagInterpreter.MaskedPan | parser/src/main/kotlin/com/example/emvnfc/parser/TagInterpreter.kt:51-61 | length kept; six or fewer characters unchanged; else the first six and last min(4, len-6) kept and bullets in between |
| TagInterpreter.MaskPan | parser/src/main/kotlin/com/example/emvnfc/parser/TagInterpreter.kt:29-32 | only trailing `F`s of the value's hex text are dropped; the rest is shown whole when at most six digits, else with its first six and last min(4, len-6) digits and bullets in between |
| TagInterpreter.MaskPanIgnoresPadding | parser/src/main/kotlin/com/example/emvnfc/parser/TagInterpreter.kt:29-32 | an extra 0xFF padding byte leaves the masked PAN unchanged |
| TagInterpreter.MaskedPanHides | parser/src/main/kotlin/com/example/emvnfc/parser/TagInterpreter.kt:51-61 | no character between the first six and the last four is shown |
| TagInterpreter.ShortPanShown | parser/src/main/kotlin/com/example/emvnfc/parser/TagInterpreter.kt:54-55 | a PAN of 7 to 10 characters has nothing masked (the kept tail covers the rest) |
| TagInterpreter.MaskedPanIdempotent | parser/src/main/kotlin/com/example/emvnfc/parser/TagInterpreter.kt:51-61 | masking a masked PAN changes nothing |
| TagInterpreter.MaskPanString | parser/src/main/kotlin/com/example/emvnfc/parser/TagInterpreter.kt:51-61 | the builder loop produces exactly the masked PAN |
| TagInterpreter.MaskedPanExample | parser/src/test/kotlin/com/example/emvnfc/parser/TlvParserTest.kt:37 | `5476541234567890` masks to `547654••••••7890` |
| TagInterpreter.SeparatorsReplaced | parser/src/main/kotlin/com/example/emvnfc/parser/TagInterpreter.kt:36-39 | each `D` becomes `=`, every other character is kept, length kept |
| TagInterpreter.ReplaceSeparators | parser/src/main/kotlin/com/example/emvnfc/parser/TagInterpreter.kt:36-39 | the character loop produces exactly that text |
| TagInterpreter.MaskedTrack2 | parser/src/main/kotlin/com/example/emvnfc/parser/TagInterpreter.kt:34-49 | the masked track has the length of the trimmed track (`D` turned into `=`, trailing `F` padding dropped) |
| TagInterpreter.MaskedTrack2Hides | parser/src/main/kotlin/com/example/emvnfc/parser/TagInterpreter.kt:41-45 | with `=` past index 0, everything from `=` on is kept; the PAN part before it keeps its first six and last min(4, sep-6) characters, or all of it when it has at most six, and is masked in between |
| TagInterpreter.MaskedTrack2WithoutSeparator | parser/src/main/kotlin/com/example/emvnfc/parser/TagInterpreter.kt:41-48 | with no `=` past index 0, the whole track is masked as a PAN, showing none of the characters between its first six and last four |
| TagInterpreter.MaskTrack2Equivalent | parser/src/main/kotlin/com/example/emvnfc/parser/TagInterpreter.kt:34-49 | the method produces exactly the masked track |
| TagInterpreter.Interpret | parser/src/main/kotlin/com/example/emvnfc/parser/TagInterpreter.kt:16-19 | the field carries the record; only an amount can fail; 9F02 shows `FormatAmount` and fails exactly when it does, with its error; 5A shows `MaskPan`; 57 shows `MaskedTrack2`; the tag is matched upper-cased |
| TagInterpreter.InterpretShowsHex | parser/src/main/kotlin/com/example/emvnfc/parser/TagInterpreter.kt:7-19 | a tag other than 9F02, 5A and 57 (in any case) shows `hexValue` |
| TagInterpreter.InterpretMasksPan | parser/src/main/kotlin/com/example/emvnfc/parser/TagInterpreter.kt:29-32 | a PAN record is shown as long as its digits without `F` padding: unchanged when at most six, else its first six and last min(4, len-6) digits with bullets in between, never the characters between its first six and last four |
| TagInterpreter.InterpretAll | parser/src/main/kotlin/com/example/emvnfc/parser/TagInterpreter.kt:21 | one field per record, in order, each the interpretation of its record; a failure comes from an amount record |
| TagInterpreter.FailureIsAmount | parser/src/main/kotlin/com/example/emvnfc/parser/TagInterpreter.kt:7-21 | when interpreting a list fails, some record in it carries the amount tag |
| Wrappers.MapResult | parser/src/main/kotlin/com/example/emvnfc/parser/TagInterpreter.kt:21 | a map that throws: all results in order, or the first failure |
| NfcReader.StatusCheckedSpec | app/src/main/java/com/example/emvnfc/nfc/NfcReaderManager.kt:191-202 | succeeds iff the response ends in `90 00`, and then the payload plus `90 00` is the response; short responses and other status words fail with their messages |
| NfcReader.StatusCheckedOfSuccess | app/src/main/java/com/example/emvnfc/nfc/NfcReaderManager.kt:191-202 | any payload followed by `90 00` is returned unchanged |
| NfcReader.PpseCommandBytes | app/src/main/java/com/example/emvnfc/nfc/NfcReaderManager.kt:88-96 | the PPSE SELECT is `00 A4 04 00 0E` + ASCII `2PAY.SYS.DDF01` + `00`, 20 bytes |
| NfcReader.Ascii | app/src/main/java/com/example/emvnfc/nfc/NfcReaderManager.kt:94 | `toByteArray()` of ASCII text is one byte per character with its code |
| NfcReader.SelectCommandLayout | app/src/main/java/com/example/emvnfc/nfc/NfcReaderManager.kt:113-123 | SELECT is `00 A4 04 00`, the AID size as a byte, the AID and `00` |
| NfcReader.GpoCommandLayout | app/src/main/java/com/example/emvnfc/nfc/NfcReaderManager.kt:132-136 | GPO is `80 A8 00 00 (n+2) 83 n data 00` with byte-truncated counts |
| NfcReader.ReadRecordCommandFields | app/src/main/java/com/example/emvnfc/nfc/NfcReaderManager.kt:158-159 | READ RECORD is `00 B2 r ((sfi shl 3) or 4) 00` |
| NfcReader.DolLengths | app/src/main/java/com/example/emvnfc/nfc/NfcReaderManager.kt:174-187 | a truncated PDOL fails with an index past the PDOL's end |
| NfcReader.DolData | app/src/main/java/com/example/emvnfc/nfc/NfcReaderManager.kt:170-189 | null or empty PDOL gives no data; otherwise all zeros, as many as the entry lengths add up to |
| NfcReader.BuildDolData | app/src/main/java/com/example/emvnfc/nfc/NfcReaderManager.kt:170-189 | the index-stepping loop produces exactly that data or failure |
| NfcReader.IsConstructed | app/src/main/java/com/example/emvnfc/nfc/NfcReaderManager.kt:216-220 | fails only when the first two tag characters are not radix-16 |
| NfcReader.IsConstructedOfElement | app/src/main/java/com/example/emvnfc/nfc/NfcReaderManager.kt:216-220 | for a parsed record it answers bit 0x20 of the first tag byte |
| NfcReader.DecodeSize | app/src/main/java/com/example/emvnfc/nfc/NfcReaderManager.kt:209-210 | decoded records are smaller than their input, so recursive flattening ends |
| NfcReader.Flatten | app/src/main/java/com/example/emvnfc/nfc/NfcReaderManager.kt:204-214 | flattening never loses records from the list it is given |
| NfcReader.FlattenOne | app/src/main/java/com/example/emvnfc/nfc/NfcReaderManager.kt:207-211 | a record comes first, before its nested records |
| NfcReader.FlattenOneConstructed | app/src/main/java/com/example/emvnfc/nfc/NfcReaderManager.kt:207-211 | a constructed record is followed by the flattening of its value (pre-order) |
| NfcReader.FlattenTlvs | app/src/main/java/com/example/emvnfc/nfc/NfcReaderManager.kt:204-214 | the recursive loop method produces exactly the specified flattening |
| NfcReader.ParseBytes | app/src/main/java/com/example/emvnfc/nfc/NfcReaderManager.kt:209 | `parse(value.toHexString())` is the decode of the value |
| NfcReader.FlattenPrimitive | app/src/main/java/com/example/emvnfc/nfc/NfcReaderManager.kt:204-214 | a list without constructed records flattens to itself |
| NfcReader.FlattenKeeps | app/src/main/java/com/example/emvnfc/nfc/NfcReaderManager.kt:204-214 | every input record is in the flattened list |
| NfcReader.FirstWithTagSpec | app/src/main/java/com/example/emvnfc/nfc/NfcReaderManager.kt:129 | `firstOrNull` with a case-insensitive tag: null iff no record has the tag, else the first such value |
| NfcReader.AidsOfSpec | app/src/main/java/com/example/emvnfc/nfc/NfcReaderManager.kt:99-100 | a value is a candidate AID iff some `4F` record carries it, and there are no more AIDs than records (order and multiplicity are `NfcReader.AidsOfConcat`) |
| NfcReader.AidsOfConcat | app/src/main/java/com/example/emvnfc/nfc/NfcReaderManager.kt:99-100 | the filter works record by record: a `4F` record contributes its value and any other record nothing, so the AIDs keep the records' order and multiplicity |
| NfcReader.AflEntriesSpec | app/src/main/java/com/example/emvnfc/nfc/NfcReaderManager.kt:147-152 | one entry per 4-byte chunk: sfi = b0 >> 3, first = b1, last = b2, fourth byte ignored |
| NfcReader.AflEntriesBounds | app/src/main/java/com/example/emvnfc/nfc/NfcReaderManager.kt:147-152 | sfi < 32 and record numbers < 256 |
| NfcReader.DolOf | app/src/main/java/com/example/emvnfc/nfc/NfcReaderManager.kt:127-130 | the PDOL is the first `9F38` value of the flattened FCI |
| NfcReader.AflEntriesOf | app/src/main/java/com/example/emvnfc/nfc/NfcReaderManager.kt:140-153 | no `94` fails with its message; success means a `94` whose size is a multiple of 4, decoded |
| NfcReader.Reply | app/src/main/java/com/example/emvnfc/nfc/NfcReaderManager.kt:191-202 | a transport failure passes through; a response is status-checked |
| NfcReader.Exchange | app/src/main/java/com/example/emvnfc/nfc/NfcReaderManager.kt:192 | every command sent is logged, whatever the answer |
| NfcReader.AidsOfPpse | app/src/main/java/com/example/emvnfc/nfc/NfcReaderManager.kt:98-100 | the AIDs of a PPSE payload, failing iff the payload does not parse |
| NfcReader.SelectPpse | app/src/main/java/com/example/emvnfc/nfc/NfcReaderManager.kt:87-101 | exactly the PPSE SELECT is sent |
| NfcReader.SelectApp | app/src/main/java/com/example/emvnfc/nfc/NfcReaderManager.kt:113-125 | exactly the SELECT is sent; the FCI is replaced by the payload on success and kept on failure |
| NfcReader.Gpo | app/src/main/java/com/example/emvnfc/nfc/NfcReaderManager.kt:132-138 | a bad PDOL fails before sending; otherwise exactly the GPO command is exchanged |
| NfcReader.ReadCommands | app/src/main/java/com/example/emvnfc/nfc/NfcReaderManager.kt:157-159 | READ RECORD for each record from first to last ascending, none when first > last |
| NfcReader.ReadRecordsFrom | app/src/main/java/com/example/emvnfc/nfc/NfcReaderManager.kt:155-168 | reading records never fails (failed reads are skipped) and leaves the FCI alone |
| NfcReader.ReadRecordsSends | app/src/main/java/com/example/emvnfc/nfc/NfcReaderManager.kt:157-165 | the commands sent are exactly the READ RECORDs of the range, in order |
| NfcReader.ReadEntries | app/src/main/java/com/example/emvnfc/nfc/NfcReaderManager.kt:108-110 | reading all AFL entries never fails and leaves the FCI alone |
| NfcReader.ReadEntriesGrows | app/src/main/java/com/example/emvnfc/nfc/NfcReaderManager.kt:108-110 | reading entries only appends to the command log |
| NfcReader.ReadAidFrom | app/src/main/java/com/example/emvnfc/nfc/NfcReaderManager.kt:103-111 | every stage of reading an AID only appends to the command log |
| NfcReader.ReadForAidSelectsFirst | app/src/main/java/com/example/emvnfc/nfc/NfcReaderManager.kt:103-104 | whatever happens to an AID, the first command sent for it is its SELECT |
| NfcReader.ApplicationData | app/src/main/java/com/example/emvnfc/nfc/NfcReaderManager.kt:68-85 | a successful read returns non-empty data |
| NfcReader.PpseFailureEnds | app/src/main/java/com/example/emvnfc/nfc/NfcReaderManager.kt:68-69 | a failed PPSE SELECT ends the read with that failure |
| NfcReader.NoAidsFails | app/src/main/java/com/example/emvnfc/nfc/NfcReaderManager.kt:68-72 | no AID listed ends the read with `No EMV applications found on card` |
| NfcReader.AidFailureAborts | app/src/main/java/com/example/emvnfc/nfc/NfcReaderManager.kt:74-80 | a failure at any AID the loop reaches ends it with that failure |
| NfcReader.AidWithRecordsEnds | app/src/main/java/com/example/emvnfc/nfc/NfcReaderManager.kt:74-80 | the first AID with records ends the loop with those records |
| NfcReader.AllAidsEmpty | app/src/main/java/com/example/emvnfc/nfc/NfcReaderManager.kt:74-80 | when no AID yields records, the loop ends with nothing read |
| NfcReader.AllAidsEmptyFail | app/src/main/java/com/example/emvnfc/nfc/NfcReaderManager.kt:73-83 | when every listed AID reads no records, the read fails with `No application records readable` |
| NfcReader.FirstAidFailureAborts | app/src/main/java/com/example/emvnfc/nfc/NfcReaderManager.kt:74-80 | a failure reading the first AID ends the whole read with that failure |
| NfcReader.RefusedFirstSelect | app/src/main/java/com/example/emvnfc/nfc/NfcReaderManager.kt:68-85 | a refused SELECT of the first AID ends the read after exactly the PPSE SELECT and that SELECT |
| NfcReader.EmptyAidMovesOn | app/src/main/java/com/example/emvnfc/nfc/NfcReaderManager.kt:74-80 | an AID with no records hands over to the next AID |
| NfcReader.IsoDep.Transceive | app/src/main/java/com/example/emvnfc/nfc/NfcReaderManager.kt:192 | the answer is the card's answer to the command after the commands already sent, and the command is logged |
| NfcReader.IsoDep.constructor | app/src/main/java/com/example/emvnfc/nfc/NfcReaderManager.kt:47-53 | a connected link to a card, with no commands sent yet |
| NfcReader.NfcReaderManager.constructor | app/src/main/java/com/example/emvnfc/nfc/NfcReaderManager.kt:228 | no FCI is stored before the first SELECT |
| NfcReader.NfcReaderManager.TransceiveSuccess | app/src/main/java/com/example/emvnfc/nfc/NfcReaderManager.kt:191-202 | one command sent, result as `Reply` specifies |
| NfcReader.NfcReaderManager.SelectPpseForAids | app/src/main/java/com/example/emvnfc/nfc/NfcReaderManager.kt:87-101 | result and new state as `SelectPpse` specifies |
| NfcReader.NfcReaderManager.SelectApplication | app/src/main/java/com/example/emvnfc/nfc/NfcReaderManager.kt:113-125 | result, log and stored FCI as `SelectApp` specifies |
| NfcReader.NfcReaderManager.ExtractDol | app/src/main/java/com/example/emvnfc/nfc/NfcReaderManager.kt:127-130 | the PDOL as `DolOf` specifies |
| NfcReader.NfcReaderManager.GetProcessingOptions | app/src/main/java/com/example/emvnfc/nfc/NfcReaderManager.kt:132-138 | result and log as `Gpo` specifies |
| NfcReader.NfcReaderManager.ExtractAflEntries | app/src/main/java/com/example/emvnfc/nfc/NfcReaderManager.kt:140-153 | the entries as `AflEntriesOf` specifies |
| NfcReader.NfcReaderManager.ReadRecords | app/src/main/java/com/example/emvnfc/nfc/NfcReaderManager.kt:155-168 | the record loop's data and log as `ReadRecordsFrom` specifies |
| NfcReader.NfcReaderManager.ReadRecordsForAid | app/src/main/java/com/example/emvnfc/nfc/NfcReaderManager.kt:103-111 | result and new state as `ReadForAid` specifies |
| NfcReader.NfcReaderManager.ReadApplicationData | app/src/main/java/com/example/emvnfc/nfc/NfcReaderManager.kt:68-85 | result and new state as `ApplicationData` specifies |
| NfcReader.NfcReaderManager.TryAidsInOrder | app/src/main/java/com/example/emvnfc/nfc/NfcReaderManager.kt:73-80 | the AID loop with its `break`, as `TryAids` specifies |
| EmvLog.SourceName | app/src/main/java/com/example/emvnfc/model/EmvLogEntry.kt:14 | an enum prints as its own name, `LIVE` or `SAMPLE` |
| LogRepository.Appended | app/src/main/java/com/example/emvnfc/data/LogRepository.kt:28-32 | the entries of a run of appends, in order |
| LogRepository.AppendsOnlyExtend | app/src/main/java/com/example/emvnfc/data/LogRepository.kt:28-38 | without a clear, the list only grows: old entries stay in order and the new ones follow |
| LogRepository.ClearForgets | app/src/main/java/com/example/emvnfc/data/LogRepository.kt:28-38 | after the last clear, the list is exactly what was appended since |
| LogRepository.InMemoryLogRepository.constructor | app/src/main/java/com/example/emvnfc/data/LogRepository.kt:25 | the store starts empty |
| LogRepository.InMemoryLogRepository.Append | app/src/main/java/com/example/emvnfc/data/LogRepository.kt:28-32 | the list becomes old + [e] |
| LogRepository.InMemoryLogRepository.Clear | app/src/main/java/com/example/emvnfc/data/LogRepository.kt:34-38 | the list becomes empty |
| LogRepository.InMemoryLogRepository.LogFile | app/src/main/java/com/example/emvnfc/data/LogRepository.kt:40 | there is never a log file |
| LogRepository.FileLogRepository.constructor | app/src/main/java/com/example/emvnfc/data/LogRepository.kt:47 | the list starts as what was loaded |
| LogRepository.FileLogRepository.Append | app/src/main/java/com/example/emvnfc/data/LogRepository.kt:50-56 | the list becomes old + [e], and it is what was persisted |
| LogRepository.FileLogRepository.Clear | app/src/main/java/com/example/emvnfc/data/LogRepository.kt:58-63 | the list becomes empty, and that is what was persisted |
| LogRepository.FileLogRepository.LogFile | app/src/main/java/com/example/emvnfc/data/LogRepository.kt:65 | the file exactly when it exists |
| ViewModel.NextKeepsConsistent | app/src/main/java/com/example/emvnfc/ui/NfcViewModel.kt:57-158 | every screen update keeps: no dump unless verbose, an error has a message, a message only with Error or Idle |
| ViewModel.RunKeepsConsistent | app/src/main/java/com/example/emvnfc/ui/NfcViewModel.kt:57-158 | any sequence of updates keeps that invariant |
| ViewModel.ReachableIsConsistent | app/src/main/java/com/example/emvnfc/ui/NfcViewModel.kt:32-39 | every state reached from the default state is consistent |
| ViewModel.ToggleTwice | app/src/main/java/com/example/emvnfc/ui/NfcViewModel.kt:115-123 | toggling verbose twice restores the state except the dump, which is emptied |
| ViewModel.EventInput | app/src/main/java/com/example/emvnfc/ui/NfcViewModel.kt:79-97 | Idle, Reading and Error(m) events map to their screen updates, carrying m |
| ViewModel.LoggedFields | app/src/main/java/com/example/emvnfc/ui/NfcViewModel.kt:165-173 | the filter never adds fields |
| ViewModel.LoggedFieldsSpec | app/src/main/java/com/example/emvnfc/ui/NfcViewModel.kt:165-173 | a field is logged iff it comes from an interpreted record whose upper-cased tag is allowed |
| ViewModel.LoggedFieldsEmpty | app/src/main/java/com/example/emvnfc/ui/NfcViewModel.kt:165-176 | nothing is logged iff no record has an allowed tag |
| ViewModel.LoggedFieldsConcat | app/src/main/java/com/example/emvnfc/ui/NfcViewModel.kt:165-173 | the filter keeps input order |
| ViewModel.CardDataNeverLogged | app/src/main/java/com/example/emvnfc/ui/NfcViewModel.kt:165-173 | a logged field has an allowed tag, never the PAN (5A) or Track 2 (57) |
| ViewModel.DumpFields | app/src/main/java/com/example/emvnfc/ui/NfcViewModel.kt:182-188 | the dump has one field per interpreted record, in order |
| ViewModel.BuildLogEntrySpec | app/src/main/java/com/example/emvnfc/ui/NfcViewModel.kt:162-189 | an entry is built iff the text parses, every record interprets and some tag is allowed; it holds the allowed fields, the id and the clock reading, and the dump holds every interpreted record, in order; a parse error is reported as such |
| ViewModel.PersistOutcomeSpec | app/src/main/java/com/example/emvnfc/ui/NfcViewModel.kt:142-160 | failure: nothing stored, status Error with the throwable's message; success: entry appended, Completed, no message, dump replaced only when verbose |
| ViewModel.ShareText | app/src/main/java/com/example/emvnfc/ui/NfcViewModel.kt:127-140 | no share text iff there are no logs |
| ViewModel.TrimEndKeepsPrefix | app/src/main/java/com/example/emvnfc/ui/NfcViewModel.kt:139 | trimming trailing whitespace never cuts into a prefix ending in a visible character |
| ViewModel.BlocksOpenWithStamp | app/src/main/java/com/example/emvnfc/ui/NfcViewModel.kt:131-138 | the text built opens with the first entry's `Timestamp:` line |
| ViewModel.ShareTextStartsWithTimestamp | app/src/main/java/com/example/emvnfc/ui/NfcViewModel.kt:127-140 | the share text starts with the first entry's timestamp line, intact after trimming |
| ViewModel.FieldLines | app/src/main/java/com/example/emvnfc/ui/NfcViewModel.kt:134-136 | one line per field |
| ViewModel.Blocks | app/src/main/java/com/example/emvnfc/ui/NfcViewModel.kt:131-138 | one block per entry |
| ViewModel.NfcViewModel.constructor | app/src/main/java/com/example/emvnfc/ui/NfcViewModel.kt:41-47 | starts from the default `ReaderUiState` |
| ViewModel.NfcViewModel.OnLogsChanged | app/src/main/java/com/example/emvnfc/ui/NfcViewModel.kt:49-55 | the screen's logs become the store's list; invariant kept; the log file is untouched |
| ViewModel.NfcViewModel.OnNfcAvailabilityChanged | app/src/main/java/com/example/emvnfc/ui/NfcViewModel.kt:57-65 | availability set, WaitingForCard if available else Idle, message cleared; the log file is untouched |
| ViewModel.NfcViewModel.OnReaderModeEnabled | app/src/main/java/com/example/emvnfc/ui/NfcViewModel.kt:67-71 | WaitingForCard, message cleared; the log file is untouched |
| ViewModel.NfcViewModel.OnReaderModeDisabled | app/src/main/java/com/example/emvnfc/ui/NfcViewModel.kt:73-77 | Idle, everything else unchanged; the log file is untouched |
| ViewModel.NfcViewModel.OnNfcEvent | app/src/main/java/com/example/emvnfc/ui/NfcViewModel.kt:79-98 | Idle, Reading and Error update the status only and leave the store and its file untouched; a payload is hex-encoded and persisted as a LIVE entry, the file receiving the new list on success and keeping its contents on failure |
| ViewModel.NfcViewModel.IngestSample | app/src/main/java/com/example/emvnfc/ui/NfcViewModel.kt:100-104 | the hex is persisted as a SAMPLE entry; the file receives the new list on success and keeps its contents on failure |
| ViewModel.NfcViewModel.ClearLogs | app/src/main/java/com/example/emvnfc/ui/NfcViewModel.kt:106-113 | the store and the list written to its file are emptied; WaitingForCard, no message, no dump |
| ViewModel.NfcViewModel.ToggleVerbose | app/src/main/java/com/example/emvnfc/ui/NfcViewModel.kt:115-123 | verbose flipped; turning it off empties the dump; the log file is untouched |
| ViewModel.NfcViewModel.BuildShareText | app/src/main/java/com/example/emvnfc/ui/NfcViewModel.kt:127-140 | the nested builder loops produce exactly `ShareText` of the logs |
| ViewModel.NfcViewModel.AppendEntry | app/src/main/java/com/example/emvnfc/ui/NfcViewModel.kt:132-137 | one entry's lines are appended to the builder |
| ViewModel.NfcViewModel.AppendFieldLines | app/src/main/java/com/example/emvnfc/ui/NfcViewModel.kt:134-136 | the fields loop appends one line per field, in order |
| ViewModel.NfcViewModel.PersistLogFromHex | app/src/main/java/com/example/emvnfc/ui/NfcViewModel.kt:142-160 | screen and store end as `PersistOutcome` and `PersistStored` specify for the built entry; the file receives the new list on success and keeps its contents on failure |
| ViewModel.NfcViewModel.Report | app/src/main/java/com/example/emvnfc/ui/NfcViewModel.kt:143-159 | the store append and the screen update of `runCatching`; the file receives the new list on success and keeps its contents on failure |
| Cli.Input | cli-tool/bin/main/com/example/emvnfc/cli/Main.kt:8-16 | the trimmed input neither starts nor ends with whitespace |
| Cli.BlankTrimsToEmpty | cli-tool/bin/main/com/example/emvnfc/cli/Main.kt:16 | trimming blank text leaves nothing |
| Cli.BlankInputParsesNothing | cli-tool/bin/main/com/example/emvnfc/cli/Main.kt:8-21 | blank input prints the notice (after the prompt when reading stdin), no table, no error |
| Cli.Run | cli-tool/bin/main/com/example/emvnfc/cli/Main.kt:7-30 | at most one error line, and with it nothing on stdout but the prompt |
| Cli.ParsedRunPrintsTable | cli-tool/bin/main/com/example/emvnfc/cli/Main.kt:7-30 | input that parses to records and interprets prints no error and 2 + records table lines |
| Cli.Row | cli-tool/bin/main/com/example/emvnfc/cli/Main.kt:38-41 | a row has one cell per header column |
| Cli.Rows | cli-tool/bin/main/com/example/emvnfc/cli/Main.kt:38-41 | one row per field |
| Cli.ColumnWidthIsMax | cli-tool/bin/main/com/example/emvnfc/cli/Main.kt:42-48 | a column's width is at least every cell's length and equals one of them |
| Cli.Widths | cli-tool/bin/main/com/example/emvnfc/cli/Main.kt:42-48 | one width per column |
| Cli.CellsFit | cli-tool/bin/main/com/example/emvnfc/cli/Main.kt:42-51 | every cell fits its column's width |
| Cli.WidenColumns | cli-tool/bin/main/com/example/emvnfc/cli/Main.kt:44-47 | each column width becomes the larger of its old value and the row's cell |
| Cli.MeasureColumns | cli-tool/bin/main/com/example/emvnfc/cli/Main.kt:42-48 | the array loops compute the maximum over the header and every row |
| Cli.JoinLength | cli-tool/bin/main/com/example/emvnfc/cli/Main.kt:50-52 | a join's length is its parts' total plus the separators |
| Cli.FormatRowLength | cli-tool/bin/main/com/example/emvnfc/cli/Main.kt:50-52 | a formatted row is as wide as the widths plus three per separator |
| Cli.SeparatorLength | cli-tool/bin/main/com/example/emvnfc/cli/Main.kt:55 | the dash line is exactly as wide |
| Cli.Table | cli-tool/bin/main/com/example/emvnfc/cli/Main.kt:32-57 | no fields prints `No TLVs parsed.`; otherwise header, separator and one line per field |
| Cli.TableLineLength | cli-tool/bin/main/com/example/emvnfc/cli/Main.kt:50-56 | each table line has the common width |
| Cli.TableLinesAligned | cli-tool/bin/main/com/example/emvnfc/cli/Main.kt:50-56 | all table lines have the same width |
| Cli.TableOf | cli-tool/bin/main/com/example/emvnfc/cli/Main.kt:54-56 | the table is the header, the dash line and the formatted rows, in that order |
| Cli.PrintRows | cli-tool/bin/main/com/example/emvnfc/cli/Main.kt:56 | the row loop prints each row formatted, in order |
| Cli.PrintTable | cli-tool/bin/main/com/example/emvnfc/cli/Main.kt:32-57 | `printTable` prints exactly `Table(fields)` |

## Left out

- The platform side of `NfcReaderManager` is left out: `enable`/`disable` of reader mode, `onTagDiscovered`, the coroutine and the event flow, and `IsoDep.get/connect/close`. This is Android I/O and concurrency. The dialogue starts from an already-connected `IsoDep`.
- The text of the `IOException` that `transceive` can throw is whatever the card function returns.
- The `NfcViewModel` plumbing is not modelled: `viewModelScope.launch`, the `repository.logs.collect` subscription and the `factory`. The collect callback is the method `OnLogsChanged`, to be called after a store change.
- The persist of a payload runs synchronously in the model, in the order the calls are made.
- The view model is modelled over `FileLogRepository`, which is what the factory wires in. The `LogRepository` interface itself is not modelled; `InMemoryLogRepository` has the same list contract.
- The clock (`timeProvider`) and the random UUID id of a log entry are parameters of the methods that build an entry.
- The message of the `NumberFormatException` that `BigDecimal` throws is JDK-specific. It is a function parameter, `numberFormatMessage`.
- The `?: "Failed to parse TLV data"` fallback is modelled, but no failure in the model lacks a message, so it is never reached.
- `FileLogRepository.persist` and `loadFromDisk` are not modelled. They are disk I/O through `org.json`. The model keeps the list last handed to `persist` and takes the loaded list as a constructor argument.
- A disk write that fails inside `persist` is swallowed by its `runCatching`, and `append`/`clear` update the list in memory regardless. The model's `persisted` is the list handed to `persist`, so it agrees; whether the file really holds that list is not modelled.
- The `Mutex` around the stores is concurrency control and is left out.
- `MainActivity.kt` is Compose UI and is not part of this model.
- `NfcReader.Failure.IndexOutOfBounds` carries only the index and the array size. The exception text is not modelled.
- `TagInterpreter.BigDecimalOf` reads `<digits>E<digits>` as mantissa * 10^exponent when the exponent fits an Int. It does not model BigDecimal's other limits on huge exponents.
- Hex pairs are read as `Character.digit(c, 16)` reads a UTF-16 unit: a sign, ASCII and full-width letters A-F in either case, and the decimal digits of the Basic Multilingual Plane. The digit table follows the Unicode character database; a digit added by a later Unicode version than the table's is not recognised.
- Strings are sequences of Unicode scalar values, while Kotlin's count UTF-16 units. A character outside the Basic Multilingual Plane is one character here and two in the source, so it chunks differently; no decimal digit outside that plane is accepted in either.
- `Jvm.Uppercase`: upper-cases ASCII letters only, while Kotlin's `uppercase()` follows the full Unicode case mapping and can change the length (`ß` becomes `SS`). Every string upper-cased in the source is a tag or a `toHexString` text, made of ASCII hex digits when it comes from the parser.
- `Jvm.UppercaseAt`: maps each character on its own through the ASCII upper-casing of `Jvm.Uppercase`, with the same limit.
- `Jvm.HexDigitValue`: covers the decimal digits of the Basic Multilingual Plane and the ASCII and full-width letters, which is all `Character.digit` accepts from one UTF-16 unit, with the table's Unicode-version limit above.
- `TagInterpreter.BigDecimalOf`: reads ASCII decimal digits only. Its input is always `toHexString` text, which has no other digits.
- `buildDolData` assumes that a multi-byte PDOL tag is exactly two bytes. That assumption is modelled as written.
- Three fixtures in the app are inconsistent with the parser, and their expected outputs are not encoded. The parser rejects them as overruns, and their masking expectations agree with `TagInterpreter.MaskedPan`. They are `NfcMaskingInstrumentedTest.kt` line 16 and `SampleTlvProvider.kt` lines 7 and 11.
- The unit cases of `TlvParserTest.kt` are stated on the bytes their hex text spells. `TlvParser.ParseHexOfHexString` connects that text to those bytes.
- `TlvParserTest.kt` lines 11-24 are a longer multi-record case. They are covered by the general decoding lemmas and are not a separate example.
- The CLI prompt and table are lists of stdout lines, and the error is a stderr line. Reading stdin lines (`readLine`) is a parameter.
- `Cli.Run`: its own contract states only the shape of the error case. The table case is `Cli.ParsedRunPrintsTable` and the blank case is `Cli.BlankInputParsesNothing`.
- The methods `TlvParser.Advance`, `NfcReader.NfcReaderManager.TryAidsInOrder`, `ViewModel.NfcViewModel.AppendEntry`, `ViewModel.NfcViewModel.AppendFieldLines`, `ViewModel.NfcViewModel.Report`, `Cli.MeasureColumns` and `Cli.PrintRows` are parts of one source function. They are split out only to keep each proof small.
- `NfcReader.ApplicationData`: its own contract states only that success is non-empty. Its rules are lemmas: `NfcReader.PpseFailureEnds`, `NfcReader.NoAidsFails`, `NfcReader.AidFailureAborts` (with `NfcReader.FirstAidFailureAborts` and `NfcReader.RefusedFirstSelect` for the first AID), `NfcReader.EmptyAidMovesOn`, `NfcReader.AidWithRecordsEnds` and `NfcReader.AllAidsEmptyFail`.

## Findings

| source | as written | input that shows it | evidently intended | confidence | as-written member | corrected member |
|---|---|---|---|---|---|---|
| parser/src/main/kotlin/com/example/emvnfc/parser/TlvParser.kt:66-69 | `readLength` shifts the length into a 32-bit `Int`, so five or more length bytes wrap around | bytes `01 85 01 00 00 00 00`: the length 2^32 wraps to 0 and the record `01` with an empty value is accepted | a declared length past the end of the data fails with the malformed-record error | not executed | TlvAsWritten.WrappedLengthAccepted | TlvParser.ElementOverrun |
| parser/src/main/kotlin/com/example/emvnfc/parser/TlvParser.kt:21-25 | a length of 0x80000000 is negative in `Int`, so `valueEnd` is below `valueStart`, the overrun check passes and `copyOfRange` throws `IllegalArgumentException` | bytes `01 84 80 00 00 00` | every failure of `parse` is a `TlvParseException` (here the overrun) | not executed | TlvAsWritten.NegativeLengthEscapes | TlvParser.Parse |

The parser used everywhere else in the model is the corrected one, with an unbounded length. `TlvAsWritten.DecodeAgrees` proves that wherever the corrected parser succeeds, the parser as written returns the same records. The two parsers part only on inputs like the ones above.
