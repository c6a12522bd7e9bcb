/**
 * The app's own hex helpers (`util/Hex.kt`): `toHexString`, which renders bytes exactly
 * as the parser's helper does (`TlvModels.ToHexString`), and `hexToByteArray`, which
 * insists on an even length and reads every two-character chunk in radix 16.
 */
module Hex {
  import opened Wrappers
  import opened Jvm
  import opened TlvModels

  const EvenLengthMessage: string := "Hex string must have an even length."

  /**
   * What `hexToByteArray` throws: `require` fails with an `IllegalArgumentException`,
   * and `toInt(16)` with a `NumberFormatException` naming the chunk it could not read.
   */
  datatype HexError = IllegalArgument(message: string) | NumberFormat(input: string)

  /** `String.hexToByteArray()`. */
  function HexToByteArray(s: string): (r: Result<seq<Byte>, HexError>)
    ensures r == Err(IllegalArgument(EvenLengthMessage)) <==> |s| % 2 != 0
    ensures r.Ok? <==> |s| % 2 == 0 && AllPairsParse(s)
    ensures r.Ok? ==> SpellsBytes(s, r.value)
    ensures r.Err? && |s| % 2 == 0 ==> r.error.NumberFormat? && FirstBadPair(s, r.error.input)
  {
    if |s| % 2 != 0 then Err(IllegalArgument(EvenLengthMessage))
    else
      match ParsePairs(s)
      case Ok(b) => Ok(b)
      case Err(pair) => Err(NumberFormat(pair))
  }

  /** Reading back what `toHexString` printed gives the original bytes. */
  lemma HexToByteArrayOfHexString(bytes: seq<Byte>)
    ensures HexToByteArray(ToHexString(bytes)) == Ok(bytes)
  {
    ParsePairsOfHexString(bytes);
  }

  /** Printing what an even-length string of ASCII hex digits reads as gives that string in upper case. */
  lemma HexStringOfHexToByteArray(s: string)
    requires |s| % 2 == 0 && AllAsciiHexDigits(s)
    ensures HexToByteArray(s).Ok? && ToHexString(HexToByteArray(s).value) == Uppercase(s)
  {
    HexStringOfParsePairs(s);
  }
}
