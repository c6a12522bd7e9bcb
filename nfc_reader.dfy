/**
 * `NfcReaderManager`'s card dialogue. It selects the payment system environment
 * (PPSE), then tries each application it lists: SELECT, GET PROCESSING OPTIONS with a
 * zero-filled PDOL, then READ RECORD over every AFL entry. It returns the first
 * non-empty record data. The contactless transport is a function from the commands sent
 * so far and the next command to a response or an I/O failure.
 */
module NfcReader {
  import opened Wrappers
  import opened Jvm
  import opened TlvModels
  import opened TlvParser

  /** What the dialogue throws, by exception class. */
  datatype Failure =
    | IllegalState(message: string)          // `throw IllegalStateException(...)`
    | ParseFailure(error: TlvParseError)     // `TlvParser.parse` on a response
    | Transport(message: string)             // `IsoDep.transceive` throws an `IOException`
    | IndexOutOfBounds(index: int, size: int) // `pdol[index]` past the end
    | NumberFormat(input: string)            // `toInt(16)` in `isConstructed`

  const ShortResponseMessage: string := "APDU response too short"
  const NoApplicationsMessage: string := "No EMV applications found on card"
  const NoRecordsMessage: string := "No application records readable"
  const NoAflMessage: string := "No AFL present in GPO response"
  const BadAflMessage: string := "AFL length is invalid"

  function StatusMessage(sw1: Byte, sw2: Byte): string {
    "APDU failure: " + HexPair(sw1) + HexPair(sw2)
  }

  // ---------------------------------------------------------------- responses

  /** The status word `90 00` as signed bytes. */
  const SW1_OK: Byte := -0x70
  const SW2_OK: Byte := 0x00

  /**
   * The check `transceiveSuccess` applies to a response: at least the two status bytes,
   * which must be `90 00`; the payload is what precedes them.
   */
  function StatusChecked(response: seq<Byte>): Result<seq<Byte>, Failure> {
    if |response| < 2 then Err(IllegalState(ShortResponseMessage))
    else
      var sw1, sw2 := response[|response| - 2], response[|response| - 1];
      if sw1 != SW1_OK || sw2 != SW2_OK then Err(IllegalState(StatusMessage(sw1, sw2)))
      else Ok(response[..|response| - 2])
  }

  /**
   * A response is accepted exactly when it ends in `90 00`, and then the payload followed
   * by the status word is the response; otherwise the failure names the status word.
   */
  lemma StatusCheckedSpec(response: seq<Byte>)
    ensures var r := StatusChecked(response);
      && (r.Ok? <==> |response| >= 2 && response[|response| - 2..] == [SW1_OK, SW2_OK])
      && (r.Ok? ==> r.value + [SW1_OK, SW2_OK] == response)
      && (|response| < 2 ==> r == Err(IllegalState(ShortResponseMessage)))
      && (|response| >= 2 && r.Err? ==>
            r == Err(IllegalState(StatusMessage(response[|response| - 2], response[|response| - 1]))))
  {
    if |response| >= 2 {
      var sw1, sw2 := response[|response| - 2], response[|response| - 1];
      assert response[|response| - 2..] == [sw1, sw2];
      assert response == response[..|response| - 2] + [sw1, sw2];
    }
  }

  /** A payload followed by `90 00` is accepted and stripped back to the payload. */
  lemma StatusCheckedOfSuccess(payload: seq<Byte>)
    ensures StatusChecked(payload + [SW1_OK, SW2_OK]) == Ok(payload)
  {
    var response := payload + [SW1_OK, SW2_OK];
    assert response[|response| - 2..] == [SW1_OK, SW2_OK];
    assert response[..|response| - 2] == payload;
  }

  // ---------------------------------------------------------------- commands

  /** `String.toByteArray()` for an ASCII text: one byte per character. */
  function Ascii(s: string): (b: seq<Byte>)
    requires forall i :: 0 <= i < |s| ==> s[i] as int < 128
    ensures |b| == |s| && forall i :: 0 <= i < |s| ==> b[i] as int == s[i] as int
  {
    seq(|s|, i requires 0 <= i < |s| => s[i] as int as Byte)
  }

  const PpseName: string := "2PAY.SYS.DDF01"

  /** SELECT by name of the contactless payment system environment. */
  function PpseCommand(): seq<Byte> {
    [0x00, ToByte(0xA4), 0x04, 0x00, 0x0E] + Ascii(PpseName) + [0x00]
  }

  /**
   * The PPSE SELECT is the twenty bytes `00 A4 04 00 0E "2PAY.SYS.DDF01" 00`: CLA, INS
   * SELECT, P1 "by name", P2 "first occurrence", Lc 14 announcing the fourteen name
   * bytes, the name, and Le 00.
   */
  lemma PpseCommandBytes()
    ensures PpseCommand() == [0x00, -0x5C, 0x04, 0x00, 0x0E,
                              0x32, 0x50, 0x41, 0x59, 0x2E, 0x53, 0x59, 0x53, 0x2E, 0x44, 0x44, 0x46, 0x30, 0x31,
                              0x00]
    ensures |PpseCommand()| == 20 && |PpseName| == 0x0E
  {
    var name := Ascii(PpseName);
    assert name == [0x32, 0x50, 0x41, 0x59, 0x2E, 0x53, 0x59, 0x53, 0x2E, 0x44, 0x44, 0x46, 0x30, 0x31];
  }

  /** SELECT of an application by its AID: `00 A4 04 00 Lc AID 00`, Lc the AID size as a byte. */
  function SelectCommand(aid: seq<Byte>): seq<Byte> {
    [0x00, ToByte(0xA4), 0x04, 0x00, ToByte(|aid|)] + aid + [0x00]
  }

  /** The SELECT header, the AID after Lc, Le last, and Lc the AID size modulo 256. */
  lemma SelectCommandLayout(aid: seq<Byte>)
    ensures var c := SelectCommand(aid);
      && |c| == |aid| + 6
      && c[..4] == [0x00, -0x5C, 0x04, 0x00] && c[|c| - 1] == 0x00
      && c[5..5 + |aid|] == aid
      && ToUnsignedInt(c[4]) == |aid| % 256
  {
    assert ToUnsignedInt(ToByte(|aid|)) == |aid| % 256;
  }

  /**
   * GET PROCESSING OPTIONS: `80 A8 00 00 Lc 83 L data 00`, the data wrapped in the
   * command template tag 83; Lc counts the template, `L + 2`.
   */
  function GpoCommand(dolData: seq<Byte>): seq<Byte> {
    var lc := ToByte(|dolData| + 2);
    var body := [ToByte(0x83), ToByte(|dolData|)] + dolData;
    [ToByte(0x80), ToByte(0xA8), 0x00, 0x00, lc] + body + [0x00]
  }

  /** The GET PROCESSING OPTIONS header, the template `83 L data`, Le last, and both lengths modulo 256. */
  lemma GpoCommandLayout(dolData: seq<Byte>)
    ensures var c := GpoCommand(dolData);
      && |c| == |dolData| + 8
      && c[..4] == [-0x80, -0x58, 0x00, 0x00] && c[5] == -0x7D && c[|c| - 1] == 0x00
      && c[7..7 + |dolData|] == dolData
      && ToUnsignedInt(c[4]) == (|dolData| + 2) % 256 && ToUnsignedInt(c[6]) == |dolData| % 256
  {
    assert ToUnsignedInt(ToByte(|dolData| + 2)) == (|dolData| + 2) % 256;
    assert ToUnsignedInt(ToByte(|dolData|)) == |dolData| % 256;
  }

  /**
   * READ RECORD `00 B2 record P2 00`, with P2 the short file identifier shifted left
   * three bits and the low bits `100` ("P1 is a record number").
   */
  function ReadRecordCommand(sfi: nat, record: nat): seq<Byte> {
    [0x00, ToByte(0xB2), ToByte(record), ToByte(sfi * 8 + 4), 0x00]
  }

  /** P1 carries the record number, and P2 gives back the short file identifier and the mode `100`. */
  lemma ReadRecordCommandFields(sfi: nat, record: nat)
    ensures var c := ReadRecordCommand(sfi, record);
      && |c| == 5 && c[0] == 0x00 && c[1] == -0x4E && c[4] == 0x00
      && ToUnsignedInt(c[2]) == record % 256
      && (sfi < 32 ==> ToUnsignedInt(c[3]) / 8 == sfi && ToUnsignedInt(c[3]) % 8 == 4)
  {
  }

  // ---------------------------------------------------------------- PDOL data

  /**
   * The value lengths of the PDOL entries from `index` on, as `buildDolData` walks them:
   * a tag byte whose low five bits are all ones takes one more tag byte, then one length
   * byte follows. Reading past the end is the array's index error.
   */
  function DolLengths(pdol: seq<Byte>, index: nat): (r: Result<seq<nat>, Failure>)
    ensures r.Err? ==> r.error.IndexOutOfBounds? && r.error.size == |pdol|
    decreases |pdol| - index
  {
    if index >= |pdol| then Ok([])
    else
      var lengthAt := if ToUnsignedInt(pdol[index]) % 32 == 31 then index + 2 else index + 1;
      if lengthAt - 1 >= |pdol| then Err(IndexOutOfBounds(lengthAt - 1, |pdol|))
      else if lengthAt >= |pdol| then Err(IndexOutOfBounds(lengthAt, |pdol|))
      else
        var rest :- DolLengths(pdol, lengthAt + 1);
        Ok([ToUnsignedInt(pdol[lengthAt])] + rest)
  }

  function Sum(ns: seq<nat>): nat {
    if ns == [] then 0 else ns[0] + Sum(ns[1..])
  }

  function Zeros(n: nat): (z: seq<Byte>)
    ensures |z| == n && forall i :: 0 <= i < n ==> z[i] == 0
  {
    seq(n, _ => 0)
  }

  /** `buildDolData`: no PDOL, or an empty one, asks for nothing; otherwise zeros for every entry. */
  function DolData(pdol: Option<seq<Byte>>): (r: Result<seq<Byte>, Failure>)
    ensures pdol.None? || pdol.value == [] ==> r == Ok([])
    ensures r.Ok? && pdol.Some? && pdol.value != [] ==>
      DolLengths(pdol.value, 0).Ok? && |r.value| == Sum(DolLengths(pdol.value, 0).value)
    ensures r.Ok? ==> forall i :: 0 <= i < |r.value| ==> r.value[i] == 0
  {
    if pdol.None? || pdol.value == [] then Ok([])
    else
      var lengths :- DolLengths(pdol.value, 0);
      Ok(Zeros(Sum(lengths)))
  }

  /** The buffer built so far followed by the zeros the rest of the walk adds, or its error. */
  function Sequel(buffer: seq<Byte>, rest: Result<seq<nat>, Failure>): Result<seq<Byte>, Failure> {
    if rest.Ok? then Ok(buffer + Zeros(Sum(rest.value))) else Err(rest.error)
  }

  lemma SumCons(n: nat, ns: seq<nat>)
    ensures Sum([n] + ns) == n + Sum(ns)
  {
    assert ([n] + ns)[1..] == ns;
  }

  lemma SequelStep(pdol: seq<Byte>, index: nat, lengthAt: nat, buffer: seq<Byte>)
    requires index < |pdol| && lengthAt < |pdol|
    requires lengthAt == if ToUnsignedInt(pdol[index]) % 32 == 31 then index + 2 else index + 1
    ensures Sequel(buffer, DolLengths(pdol, index))
      == Sequel(buffer + Zeros(ToUnsignedInt(pdol[lengthAt])), DolLengths(pdol, lengthAt + 1))
  {
    var n := ToUnsignedInt(pdol[lengthAt]);
    var rest := DolLengths(pdol, lengthAt + 1);
    if rest.Ok? {
      assert DolLengths(pdol, index) == Ok([n] + rest.value);
      SumCons(n, rest.value);
      assert Zeros(n) + Zeros(Sum(rest.value)) == Zeros(n + Sum(rest.value));
      assert buffer + Zeros(n + Sum(rest.value)) == (buffer + Zeros(n)) + Zeros(Sum(rest.value));
    } else {
      assert DolLengths(pdol, index) == Err(rest.error);
    }
  }

  /** `buildDolData` as the source writes it: an index walk appending `length` zeros per entry. */
  method BuildDolData(pdol: Option<seq<Byte>>) returns (r: Result<seq<Byte>, Failure>)
    ensures r == DolData(pdol)
  {
    if pdol.None? || |pdol.value| == 0 {
      return Ok([]);
    }
    var p := pdol.value;
    var buffer: seq<Byte> := [];
    var index := 0;
    assert Sequel(buffer, DolLengths(p, index)) == DolData(pdol) by {
      var lengths := DolLengths(p, 0);
      if lengths.Ok? {
        assert [] + Zeros(Sum(lengths.value)) == Zeros(Sum(lengths.value));
      }
    }
    while index < |p|
      invariant index <= |p|
      invariant Sequel(buffer, DolLengths(p, index)) == DolData(pdol)
    {
      var tagByte := ToUnsignedInt(p[index]);
      var start := index;
      index := index + 1;
      if tagByte % 32 == 31 {
        if index >= |p| {
          return Err(IndexOutOfBounds(index, |p|));
        }
        index := index + 1;
      }
      if index >= |p| {
        return Err(IndexOutOfBounds(index, |p|));
      }
      var length := ToUnsignedInt(p[index]);
      SequelStep(p, start, index, buffer);
      index := index + 1;
      var k := 0;
      while k < length
        invariant 0 <= k <= length
        invariant Sequel(buffer + Zeros(length - k), DolLengths(p, index)) == DolData(pdol)
      {
        assert buffer + Zeros(length - k) == (buffer + [0]) + Zeros(length - (k + 1));
        buffer := buffer + [0];
        k := k + 1;
      }
      assert buffer + Zeros(0) == buffer;
    }
    assert buffer + Zeros(0) == buffer;
    return Ok(buffer);
  }

  // ---------------------------------------------------------------- records

  /** Bit 6 (value 0x20) of a two's complement integer, as `(v and 0x20) != 0` tests it. */
  predicate Bit5(v: int) {
    (v / 32) % 2 == 1
  }

  /**
   * `isConstructed`: a tag text shorter than two characters is primitive; otherwise its
   * first two characters are read in radix 16 and bit 0x20 decides.
   */
  function IsConstructed(tlv: Tlv): (r: Result<bool, Failure>)
    ensures r.Err? <==> |tlv.tag| >= 2 && ParseRadix16(tlv.tag[..2]).None?
  {
    if |tlv.tag| < 2 then Ok(false)
    else
      match ParseRadix16(tlv.tag[..2])
      case None => Err(NumberFormat(tlv.tag[..2]))
      case Some(v) => Ok(Bit5(v))
  }

  /**
   * For a record `parse` built, the test is the constructed bit (bit 6, 0x20) of the
   * first identifier octet, as section 8.1.2.5 of ITU-T X.690 defines it.
   */
  lemma IsConstructedOfElement(e: Element)
    requires WellFormed(e)
    ensures IsConstructed(e.ToTlv()) == Ok(Bit5(ToUnsignedInt(e.tagBytes[0])))
  {
    var tag := e.ToTlv().tag;
    ToHexStringPairs(e.tagBytes);
    assert tag[..2] == tag[2 * 0..2 * 0 + 2] == HexPair(e.tagBytes[0]);
    HexPairRoundTrip(e.tagBytes[0]);
  }

  /** The room a list of records takes: one per record plus its value bytes. */
  function Size(tlvs: seq<Tlv>): nat {
    if tlvs == [] then 0 else 1 + |tlvs[0].value| + Size(tlvs[1..])
  }

  lemma {:induction false} SizeAt(tlvs: seq<Tlv>, i: nat)
    requires i < |tlvs|
    ensures Size(tlvs) >= 1 + |tlvs[i].value|
  {
    if i > 0 {
      SizeAt(tlvs[1..], i - 1);
    }
  }

  lemma {:induction false} SizeOfElements(es: seq<Element>)
    requires AllWellFormed(es)
    ensures Size(ToTlvs(es)) + |es| <= |Concat(es)|
  {
    if es != [] {
      assert WellFormed(es[0]);
      AllWellFormedTail(es);
      SizeOfElements(es[1..]);
      assert ToTlvs(es)[1..] == ToTlvs(es[1..]);
    }
  }

  lemma AllWellFormedTail(es: seq<Element>)
    requires es != [] && AllWellFormed(es)
    ensures AllWellFormed(es[1..])
  {
    assert forall i :: 0 <= i < |es| - 1 ==> es[1..][i] == es[i + 1];
  }

  /** The records `parse` finds in some bytes take no more room than the bytes. */
  lemma DecodeSize(bytes: seq<Byte>)
    requires Decode(bytes).Ok?
    ensures Size(Decode(bytes).value) <= |bytes|
  {
    var es := DecodeTiles(bytes);
    SizeOfElements(es);
  }

  function ParseResult(r: Result<seq<Tlv>, TlvParseError>): Result<seq<Tlv>, Failure> {
    if r.Ok? then Ok(r.value) else Err(ParseFailure(r.error))
  }

  /**
   * `flattenTlvs`, pre-order: each record, followed (when it is constructed) by the
   * flattening of the records its value parses into.
   */
  function Flatten(tlvs: seq<Tlv>): (r: Result<seq<Tlv>, Failure>)
    ensures r.Ok? ==> |r.value| >= |tlvs|
    decreases Size(tlvs), 1
  {
    if tlvs == [] then Ok([])
    else
      var head :- FlattenOne(tlvs[0]);
      var rest :- Flatten(tlvs[1..]);
      Ok(head + rest)
  }

  function FlattenOne(tlv: Tlv): (r: Result<seq<Tlv>, Failure>)
    ensures r.Ok? ==> |r.value| >= 1 && r.value[0] == tlv
    decreases 1 + |tlv.value|, 0
  {
    var constructed :- IsConstructed(tlv);
    if !constructed then Ok([tlv])
    else
      var inner :- RecordsOf(tlv.value);
      Ok([tlv] + inner)
  }

  /** The records of some bytes: parsed, then flattened. */
  function RecordsOf(bytes: seq<Byte>): Result<seq<Tlv>, Failure>
    decreases |bytes|, 2
  {
    var tlvs :- ParseResult(Decode(bytes));
    DecodeSize(bytes);
    Flatten(tlvs)
  }

  /** The result built so far followed by the rest of the flattening, or its error. */
  function Then(acc: seq<Tlv>, r: Result<seq<Tlv>, Failure>): Result<seq<Tlv>, Failure> {
    if r.Ok? then Ok(acc + r.value) else r
  }

  lemma FlattenStep(tlvs: seq<Tlv>, i: nat, acc: seq<Tlv>)
    requires i < |tlvs|
    ensures Then(acc, Flatten(tlvs[i..])) ==
      (var one := FlattenOne(tlvs[i]); if one.Err? then Err(one.error) else Then(acc + one.value, Flatten(tlvs[i + 1..])))
  {
    var t := tlvs[i..];
    assert t[0] == tlvs[i] && t[1..] == tlvs[i + 1..];
    var one := FlattenOne(tlvs[i]);
    if one.Ok? {
      var rest := Flatten(tlvs[i + 1..]);
      if rest.Ok? {
        assert Flatten(t) == Ok(one.value + rest.value);
        assert acc + (one.value + rest.value) == (acc + one.value) + rest.value;
      } else {
        assert Flatten(t) == Err(rest.error);
      }
    } else {
      assert Flatten(t) == Err(one.error);
    }
  }

  /** `TlvParser.parse(bytes.toHexString())`, the way every response and nested value is parsed. */
  method ParseBytes(bytes: seq<Byte>) returns (r: Result<seq<Tlv>, Failure>)
    ensures r == ParseResult(Decode(bytes))
  {
    ParseHexOfHexString(bytes);
    var parsed := ParseHex(ToHexString(bytes));
    if parsed.Err? {
      return Err(ParseFailure(parsed.error));
    }
    return Ok(parsed.value);
  }

  lemma FlattenOneConstructed(tlv: Tlv, nested: seq<Tlv>)
    requires IsConstructed(tlv) == Ok(true) && Decode(tlv.value) == Ok(nested)
    ensures Size(nested) < 1 + |tlv.value|
    ensures FlattenOne(tlv) == (var inner := Flatten(nested); if inner.Err? then Err(inner.error) else Ok([tlv] + inner.value))
  {
    DecodeSize(tlv.value);
    assert RecordsOf(tlv.value) == Flatten(nested);
  }

  /** `flattenTlvs` as the source writes it: a loop that recurses into constructed values. */
  method FlattenTlvs(tlvs: seq<Tlv>) returns (r: Result<seq<Tlv>, Failure>)
    ensures r == Flatten(tlvs)
    decreases Size(tlvs)
  {
    var result: seq<Tlv> := [];
    assert tlvs[0..] == tlvs;
    assert Then(result, Flatten(tlvs)) == Flatten(tlvs) by {
      if Flatten(tlvs).Ok? {
        assert [] + Flatten(tlvs).value == Flatten(tlvs).value;
      }
    }
    for i := 0 to |tlvs|
      invariant Then(result, Flatten(tlvs[i..])) == Flatten(tlvs)
    {
      var tlv := tlvs[i];
      FlattenStep(tlvs, i, result);
      var before := result;
      result := result + [tlv];
      var constructed := IsConstructed(tlv);
      if constructed.Err? {
        return Err(constructed.error);
      }
      if constructed.value {
        var nested := ParseBytes(tlv.value);
        if nested.Err? {
          return Err(nested.error);
        }
        FlattenOneConstructed(tlv, nested.value);
        SizeAt(tlvs, i);
        var inner := FlattenTlvs(nested.value);
        if inner.Err? {
          return Err(inner.error);
        }
        assert before + ([tlv] + inner.value) == result + inner.value;
        result := result + inner.value;
      }
    }
    assert tlvs[|tlvs|..] == [] && result + [] == result;
    return Ok(result);
  }

  /** A list without constructed records flattens to itself. */
  lemma {:induction false} FlattenPrimitive(tlvs: seq<Tlv>)
    requires forall i :: 0 <= i < |tlvs| ==> IsConstructed(tlvs[i]) == Ok(false)
    ensures Flatten(tlvs) == Ok(tlvs)
  {
    if tlvs != [] {
      FlattenPrimitive(tlvs[1..]);
      assert [tlvs[0]] + tlvs[1..] == tlvs;
    }
  }

  /** Flattening keeps every record of the list it is given. */
  lemma {:induction false} FlattenKeeps(tlvs: seq<Tlv>)
    requires Flatten(tlvs).Ok?
    ensures forall t :: t in tlvs ==> t in Flatten(tlvs).value
  {
    if tlvs != [] {
      FlattenKeeps(tlvs[1..]);
      var head := FlattenOne(tlvs[0]).value;
      assert Flatten(tlvs).value == head + Flatten(tlvs[1..]).value;
      assert tlvs[0] == head[0];
      forall t | t in tlvs ensures t in Flatten(tlvs).value {
        if t != tlvs[0] {
          assert t in tlvs[1..];
        }
      }
    }
  }

  /** `tag.equals(name, ignoreCase = true)` for an upper-case `name`. */
  predicate HasTag(tlv: Tlv, name: string) {
    Uppercase(tlv.tag) == name
  }

  /** `firstOrNull { it.tag.equals(name, ignoreCase = true) }?.value`. */
  function FirstWithTag(tlvs: seq<Tlv>, name: string): Option<seq<Byte>> {
    if tlvs == [] then None
    else if HasTag(tlvs[0], name) then Some(tlvs[0].value)
    else FirstWithTag(tlvs[1..], name)
  }

  /** The value found is that of the first record with the tag, and none is found only when no record has it. */
  lemma {:induction false} FirstWithTagSpec(tlvs: seq<Tlv>, name: string)
    ensures var r := FirstWithTag(tlvs, name);
      && (r.None? <==> forall i :: 0 <= i < |tlvs| ==> !HasTag(tlvs[i], name))
      && (r.Some? ==> exists i :: (0 <= i < |tlvs| && HasTag(tlvs[i], name) && tlvs[i].value == r.value
            && forall j :: 0 <= j < i ==> !HasTag(tlvs[j], name)))
  {
    if tlvs != [] {
      if HasTag(tlvs[0], name) {
        assert 0 < |tlvs| && HasTag(tlvs[0], name) && tlvs[0].value == tlvs[0].value;
      } else {
        FirstWithTagSpec(tlvs[1..], name);
        var r := FirstWithTag(tlvs[1..], name);
        if r.Some? {
          var i :| 0 <= i < |tlvs| - 1 && HasTag(tlvs[1..][i], name) && tlvs[1..][i].value == r.value
            && forall j :: 0 <= j < i ==> !HasTag(tlvs[1..][j], name);
          assert forall j :: 1 <= j < i + 1 ==> tlvs[j] == tlvs[1..][j - 1];
          assert HasTag(tlvs[i + 1], name) && tlvs[i + 1].value == r.value;
        } else {
          assert forall i :: 1 <= i < |tlvs| ==> tlvs[i] == tlvs[1..][i - 1];
        }
      }
    }
  }

  const AidTag: string := "4F"
  const PdolTag: string := "9F38"
  const AflTag: string := "94"

  /** `filter { it.tag.equals("4F", ignoreCase = true) }.map { it.value }`. */
  function AidsOf(tlvs: seq<Tlv>): seq<seq<Byte>> {
    if tlvs == [] then []
    else if HasTag(tlvs[0], AidTag) then [tlvs[0].value] + AidsOf(tlvs[1..])
    else AidsOf(tlvs[1..])
  }

  /**
   * The candidate AIDs keep the order and multiplicity of the `4F` records: the filter
   * works record by record, keeping a `4F` record's value and nothing else.
   */
  lemma {:induction false} AidsOfConcat(a: seq<Tlv>, b: seq<Tlv>)
    ensures AidsOf(a + b) == AidsOf(a) + AidsOf(b)
    ensures |a| == 1 ==> AidsOf(a) == (if HasTag(a[0], AidTag) then [a[0].value] else [])
  {
    if a != [] {
      assert (a + b)[0] == a[0] && (a + b)[1..] == a[1..] + b;
      AidsOfConcat(a[1..], b);
    } else {
      assert a + b == b;
    }
    if |a| == 1 {
      assert a[1..] == [];
    }
  }

  /** The candidate AIDs are the values of the `4F` records, no more and no fewer. */
  lemma {:induction false} AidsOfSpec(tlvs: seq<Tlv>)
    ensures |AidsOf(tlvs)| <= |tlvs|
    ensures forall v :: v in AidsOf(tlvs) <==> exists i :: 0 <= i < |tlvs| && HasTag(tlvs[i], AidTag) && tlvs[i].value == v
  {
    if tlvs != [] {
      AidsOfSpec(tlvs[1..]);
      assert forall i :: 1 <= i < |tlvs| ==> tlvs[i] == tlvs[1..][i - 1];
      assert forall i :: 0 <= i < |tlvs| - 1 ==> tlvs[1..][i] == tlvs[i + 1];
    }
  }

  // ---------------------------------------------------------------- AFL

  /** One Application File Locator entry: the file and the range of records to read. */
  datatype AflEntry = AflEntry(sfi: nat, firstRecord: nat, lastRecord: nat)

  /**
   * `chunked(4).map { … }`: one entry per four bytes, the short file identifier in the
   * top five bits of the first, then the first and last record numbers; the fourth
   * byte (records taking part in offline authentication) is not used.
   */
  function AflEntries(afl: seq<Byte>): seq<AflEntry>
    requires |afl| % 4 == 0
  {
    if afl == [] then []
    else [AflEntry(ToUnsignedInt(afl[0]) / 8, ToUnsignedInt(afl[1]), ToUnsignedInt(afl[2]))] + AflEntries(afl[4..])
  }

  /** Entry `i` is decoded from bytes `4i` to `4i + 2` alone. */
  lemma {:induction false} AflEntriesSpec(afl: seq<Byte>)
    requires |afl| % 4 == 0
    ensures var r := AflEntries(afl);
      && |r| == |afl| / 4
      && forall i :: 0 <= i < |r| ==>
           r[i] == AflEntry(ToUnsignedInt(afl[4 * i]) / 8, ToUnsignedInt(afl[4 * i + 1]), ToUnsignedInt(afl[4 * i + 2]))
  {
    if afl != [] {
      AflEntriesSpec(afl[4..]);
      assert forall i :: 1 <= i < |afl| / 4 ==> (afl[4 * i] == afl[4..][4 * (i - 1)]
        && afl[4 * i + 1] == afl[4..][4 * (i - 1) + 1] && afl[4 * i + 2] == afl[4..][4 * (i - 1) + 2]);
    }
  }

  /** Every decoded entry names a short file identifier below 32 and record numbers below 256. */
  lemma AflEntriesBounds(afl: seq<Byte>)
    requires |afl| % 4 == 0
    ensures forall e :: e in AflEntries(afl) ==> e.sfi < 32 && e.firstRecord < 256 && e.lastRecord < 256
  {
    var r := AflEntries(afl);
    AflEntriesSpec(afl);
    forall e | e in r ensures e.sfi < 32 && e.firstRecord < 256 && e.lastRecord < 256 {
      var i :| 0 <= i < |r| && r[i] == e;
    }
  }

  /** `extractDol`: the value of the first `9F38` among the flattened FCI records, if any. */
  function DolOf(fci: seq<Byte>): (r: Result<Option<seq<Byte>>, Failure>)
    ensures RecordsOf(fci).Ok? ==> r == Ok(FirstWithTag(RecordsOf(fci).value, PdolTag))
  {
    var tlvs :- RecordsOf(fci);
    Ok(FirstWithTag(tlvs, PdolTag))
  }

  /** `extractAflEntries`: the entries of the first `94` record of the flattened response. */
  function AflEntriesOf(gpo: seq<Byte>): (r: Result<seq<AflEntry>, Failure>)
    ensures RecordsOf(gpo).Ok? && FirstWithTag(RecordsOf(gpo).value, AflTag).None? ==>
      r == Err(IllegalState(NoAflMessage))
    ensures r.Ok? ==> (RecordsOf(gpo).Ok? && FirstWithTag(RecordsOf(gpo).value, AflTag).Some?
      && var afl := FirstWithTag(RecordsOf(gpo).value, AflTag).value;
      |afl| % 4 == 0 && r.value == AflEntries(afl))
  {
    var tlvs :- RecordsOf(gpo);
    match FirstWithTag(tlvs, AflTag)
    case None => Err(IllegalState(NoAflMessage))
    case Some(afl) =>
      if |afl| % 4 != 0 then Err(IllegalState(BadAflMessage)) else Ok(AflEntries(afl))
  }

  // ---------------------------------------------------------------- the dialogue

  /** The commands sent to the card so far, oldest first. */
  type Log = seq<seq<Byte>>

  /**
   * The card behind the `IsoDep` connection: given what was sent before, its answer to a
   * command, or the message of the `IOException` the transceive throws.
   */
  type Card = (Log, seq<Byte>) -> Result<seq<Byte>, string>

  /** The part of the reader's state a dialogue step changes: the command log and the stored FCI. */
  datatype Session = Session(sent: Log, fci: seq<Byte>)

  /** What a step returns or throws, and the state it leaves. */
  datatype Outcome<T> = Outcome(result: Result<T, Failure>, session: Session)

  /** What the reader reports to its listener. */
  datatype NfcEvent = Idle | Reading | Payload(tlvBytes: seq<Byte>) | Error(message: string)

  /** `transceiveSuccess`: the card's answer to `command`, checked and stripped of its status word. */
  function Reply(card: Card, sent: Log, command: seq<Byte>): (r: Result<seq<Byte>, Failure>)
    ensures card(sent, command).Err? ==> r == Err(Transport(card(sent, command).error))
    ensures card(sent, command).Ok? ==> r == StatusChecked(card(sent, command).value)
  {
    match card(sent, command)
    case Err(message) => Err(Transport(message))
    case Ok(response) => StatusChecked(response)
  }

  /** One command sent: the log gains it whatever the answer. */
  function Exchange(card: Card, s: Session, command: seq<Byte>): (o: Outcome<seq<Byte>>)
    ensures o.session == s.(sent := s.sent + [command])
  {
    Outcome(Reply(card, s.sent, command), s.(sent := s.sent + [command]))
  }

  /** The candidate AIDs of a PPSE answer: the values of its `4F` records, flattened, in order. */
  function AidsOfPpse(payload: seq<Byte>): (r: Result<seq<seq<Byte>>, Failure>)
    ensures RecordsOf(payload).Ok? <==> r.Ok?
    ensures r.Ok? ==> r.value == AidsOf(RecordsOf(payload).value)
  {
    var tlvs :- RecordsOf(payload);
    Ok(AidsOf(tlvs))
  }

  /** `selectPpseForAids`. */
  function SelectPpse(card: Card, s: Session): (o: Outcome<seq<seq<Byte>>>)
    ensures o.session == s.(sent := s.sent + [PpseCommand()])
  {
    var reply := Reply(card, s.sent, PpseCommand());
    var next := s.(sent := s.sent + [PpseCommand()]);
    if reply.Err? then Outcome(Err(reply.error), next) else Outcome(AidsOfPpse(reply.value), next)
  }

  /** `selectApplication`: the FCI is replaced only when the SELECT succeeds. */
  function SelectApp(card: Card, s: Session, aid: seq<Byte>): (o: Outcome<()>)
    ensures o.session.sent == s.sent + [SelectCommand(aid)]
    ensures o.result.Ok? <==> Reply(card, s.sent, SelectCommand(aid)).Ok?
    ensures o.session.fci == if o.result.Ok? then Reply(card, s.sent, SelectCommand(aid)).value else s.fci
  {
    var reply := Reply(card, s.sent, SelectCommand(aid));
    var next := s.(sent := s.sent + [SelectCommand(aid)]);
    if reply.Err? then Outcome(Err(reply.error), next) else Outcome(Ok(()), next.(fci := reply.value))
  }

  /** `getProcessingOptions`: nothing is sent when the PDOL cannot be walked. */
  function Gpo(card: Card, s: Session, pdol: Option<seq<Byte>>): (o: Outcome<seq<Byte>>)
    ensures DolData(pdol).Err? ==> o == Outcome(Err(DolData(pdol).error), s)
    ensures DolData(pdol).Ok? ==> o == Exchange(card, s, GpoCommand(DolData(pdol).value))
  {
    match DolData(pdol)
    case Err(e) => Outcome(Err(e), s)
    case Ok(data) => Exchange(card, s, GpoCommand(data))
  }

  /** The READ RECORD commands for records `record` to `entry.lastRecord`, ascending. */
  function ReadCommands(entry: AflEntry, record: nat): (cs: Log)
    ensures |cs| == if record > entry.lastRecord then 0 else entry.lastRecord + 1 - record
    ensures forall k :: 0 <= k < |cs| ==> cs[k] == ReadRecordCommand(entry.sfi, record + k)
    decreases entry.lastRecord + 1 - record
  {
    if record > entry.lastRecord then []
    else [ReadRecordCommand(entry.sfi, record)] + ReadCommands(entry, record + 1)
  }

  /**
   * `readRecords` from `record` on: every answered read contributes its payload, a read
   * that fails for any reason contributes nothing, and the walk never fails.
   */
  function ReadRecordsFrom(card: Card, s: Session, entry: AflEntry, record: nat): (o: Outcome<seq<Byte>>)
    ensures o.result.Ok? && o.session.fci == s.fci
    decreases entry.lastRecord + 1 - record
  {
    if record > entry.lastRecord then Outcome(Ok([]), s)
    else
      var command := ReadRecordCommand(entry.sfi, record);
      var reply := Reply(card, s.sent, command);
      var got := if reply.Ok? then reply.value else [];
      var rest := ReadRecordsFrom(card, s.(sent := s.sent + [command]), entry, record + 1);
      Outcome(Ok(got + rest.result.value), rest.session)
  }

  /** The commands `readRecords` sends are exactly the READ RECORDs of the entry's range, in order. */
  lemma {:induction false} ReadRecordsSends(card: Card, s: Session, entry: AflEntry, record: nat)
    ensures ReadRecordsFrom(card, s, entry, record).session.sent == s.sent + ReadCommands(entry, record)
    decreases entry.lastRecord + 1 - record
  {
    if record <= entry.lastRecord {
      var command := ReadRecordCommand(entry.sfi, record);
      ReadRecordsSends(card, s.(sent := s.sent + [command]), entry, record + 1);
      assert s.sent + [command] + ReadCommands(entry, record + 1) == s.sent + ReadCommands(entry, record);
    }
  }

  /** `aflEntries.flatMap { readRecords(isoDep, it) }` from entry `j` on. */
  function ReadEntries(card: Card, s: Session, entries: seq<AflEntry>, j: nat): (o: Outcome<seq<Byte>>)
    ensures o.result.Ok? && o.session.fci == s.fci
    decreases |entries| - j
  {
    if j >= |entries| then Outcome(Ok([]), s)
    else
      var first := ReadRecordsFrom(card, s, entries[j], entries[j].firstRecord);
      var rest := ReadEntries(card, first.session, entries, j + 1);
      Outcome(Ok(first.result.value + rest.result.value), rest.session)
  }

  /** How far `readRecordsForAid` has got: each stage is one statement of its body. */
  datatype AidStage =
    | Selecting                                    // SELECT the application
    | FindingPdol                                  // look for the PDOL in the stored FCI
    | Processing(pdol: Option<seq<Byte>>)          // GET PROCESSING OPTIONS
    | ReadingAfl(gpoResponse: seq<Byte>)           // decode the AFL and read its records

  function StageRank(stage: AidStage): nat {
    match stage
    case Selecting => 3
    case FindingPdol => 2
    case Processing(_) => 1
    case ReadingAfl(_) => 0
  }

  /**
   * `readRecordsForAid` from `stage` on. A failure in SELECT, in parsing the FCI, in GET
   * PROCESSING OPTIONS or in the AFL is thrown; record reads never fail.
   */
  function ReadAidFrom(card: Card, s: Session, aid: seq<Byte>, stage: AidStage): (o: Outcome<seq<Byte>>)
    ensures s.sent <= o.session.sent
    decreases StageRank(stage), 1
  {
    match stage
    case Selecting => SelectStage(card, s, aid)
    case FindingPdol => PdolStage(card, s, aid)
    case Processing(pdol) => GpoStage(card, s, aid, pdol)
    case ReadingAfl(response) => AflStage(card, s, response)
  }

  /** `selectApplication(isoDep, aid)`. */
  function SelectStage(card: Card, s: Session, aid: seq<Byte>): (o: Outcome<seq<Byte>>)
    ensures s.sent <= o.session.sent
    decreases StageRank(Selecting), 0
  {
    var selected := SelectApp(card, s, aid);
    if selected.result.Err? then Outcome(Err(selected.result.error), selected.session)
    else ReadAidFrom(card, selected.session, aid, FindingPdol)
  }

  /** `extractDol(selectApplicationFci)`. */
  function PdolStage(card: Card, s: Session, aid: seq<Byte>): (o: Outcome<seq<Byte>>)
    ensures s.sent <= o.session.sent
    decreases StageRank(FindingPdol), 0
  {
    var pdol := DolOf(s.fci);
    if pdol.Err? then Outcome(Err(pdol.error), s)
    else ReadAidFrom(card, s, aid, Processing(pdol.value))
  }

  /** `getProcessingOptions(isoDep, pdol)`. */
  function GpoStage(card: Card, s: Session, aid: seq<Byte>, pdol: Option<seq<Byte>>): (o: Outcome<seq<Byte>>)
    ensures s.sent <= o.session.sent
    decreases StageRank(Processing(pdol)), 0
  {
    var gpo := Gpo(card, s, pdol);
    if gpo.result.Err? then Outcome(Err(gpo.result.error), gpo.session)
    else ReadAidFrom(card, gpo.session, aid, ReadingAfl(gpo.result.value))
  }

  /** `extractAflEntries(gpoResponse)`, then every record of every entry. */
  function AflStage(card: Card, s: Session, gpoResponse: seq<Byte>): (o: Outcome<seq<Byte>>)
    ensures s.sent <= o.session.sent
  {
    var entries := AflEntriesOf(gpoResponse);
    if entries.Err? then Outcome(Err(entries.error), s)
    else
      ReadEntriesGrows(card, s, entries.value, 0);
      ReadEntries(card, s, entries.value, 0)
  }

  /** `readRecordsForAid`: its first command is always the SELECT of the AID. */
  function ReadForAid(card: Card, s: Session, aid: seq<Byte>): Outcome<seq<Byte>> {
    ReadAidFrom(card, s, aid, Selecting)
  }

  /** Whatever happens to an AID, the first command sent for it is its SELECT. */
  lemma ReadForAidSelectsFirst(card: Card, s: Session, aid: seq<Byte>)
    ensures var o := ReadForAid(card, s, aid);
      |o.session.sent| > |s.sent| && o.session.sent[..|s.sent| + 1] == s.sent + [SelectCommand(aid)]
  {
    var selected := SelectApp(card, s, aid);
    var o := ReadAidFrom(card, s, aid, Selecting);
    assert selected.session.sent <= o.session.sent;
    assert selected.session.sent[..|s.sent| + 1] == s.sent + [SelectCommand(aid)];
  }

  lemma {:induction false} ReadEntriesGrows(card: Card, s: Session, entries: seq<AflEntry>, j: nat)
    ensures s.sent <= ReadEntries(card, s, entries, j).session.sent
    decreases |entries| - j
  {
    if j < |entries| {
      var first := ReadRecordsFrom(card, s, entries[j], entries[j].firstRecord);
      ReadRecordsSends(card, s, entries[j], entries[j].firstRecord);
      ReadEntriesGrows(card, first.session, entries, j + 1);
    }
  }

  /**
   * The loop of `readApplicationData` from AID `i` on: the first AID whose records are
   * non-empty ends it, an AID with no records moves on, and a failure ends it.
   */
  function TryAids(card: Card, s: Session, aids: seq<seq<Byte>>, i: nat): (o: Outcome<seq<Byte>>)
    decreases |aids| - i
  {
    if i >= |aids| then Outcome(Ok([]), s)
    else
      var o := ReadForAid(card, s, aids[i]);
      if o.result.Err? || o.result.value != [] then o
      else TryAids(card, o.session, aids, i + 1)
  }

  lemma TryAidsStep(card: Card, s: Session, aids: seq<seq<Byte>>, i: nat)
    requires i < |aids|
    ensures var o := ReadForAid(card, s, aids[i]);
      TryAids(card, s, aids, i) == if o.result.Err? || o.result.value != [] then o else TryAids(card, o.session, aids, i + 1)
  {
  }

  /** `readApplicationData`. */
  function ApplicationData(card: Card, s: Session): (o: Outcome<seq<Byte>>)
    ensures o.result.Ok? ==> o.result.value != []
  {
    var ppse := SelectPpse(card, s);
    if ppse.result.Err? then Outcome(Err(ppse.result.error), ppse.session)
    else if ppse.result.value == [] then Outcome(Err(IllegalState(NoApplicationsMessage)), ppse.session)
    else
      var tried := TryAids(card, ppse.session, ppse.result.value, 0);
      if tried.result.Ok? && tried.result.value == [] then Outcome(Err(IllegalState(NoRecordsMessage)), tried.session)
      else tried
  }

  /**
   * A failure while reading the first AID is not caught: the whole read fails with it,
   * and no later AID is ever tried.
   */
  lemma FirstAidFailureAborts(card: Card, s: Session)
    requires SelectPpse(card, s).result.Ok? && |SelectPpse(card, s).result.value| > 0
    requires ReadForAid(card, SelectPpse(card, s).session, SelectPpse(card, s).result.value[0]).result.Err?
    ensures ApplicationData(card, s)
      == ReadForAid(card, SelectPpse(card, s).session, SelectPpse(card, s).result.value[0])
  {
  }

  /**
   * In particular, when the card refuses the SELECT of the first AID it lists, the read
   * ends with that refusal after exactly two commands: the PPSE SELECT and that SELECT.
   */
  lemma RefusedFirstSelect(card: Card, s: Session)
    requires SelectPpse(card, s).result.Ok? && |SelectPpse(card, s).result.value| > 0
    requires Reply(card, s.sent + [PpseCommand()], SelectCommand(SelectPpse(card, s).result.value[0])).Err?
    ensures var aid := SelectPpse(card, s).result.value[0];
      ApplicationData(card, s) == Outcome(Err(Reply(card, s.sent + [PpseCommand()], SelectCommand(aid)).error),
                                          Session(s.sent + [PpseCommand(), SelectCommand(aid)], s.fci))
  {
    var ppse := SelectPpse(card, s);
    var aid := ppse.result.value[0];
    var refused := SelectApp(card, ppse.session, aid);
    assert ReadAidFrom(card, ppse.session, aid, Selecting) == Outcome(Err(refused.result.error), refused.session);
    assert ReadForAid(card, ppse.session, aid) == Outcome(Err(refused.result.error), refused.session);
    assert ppse.session.sent + [SelectCommand(aid)] == s.sent + [PpseCommand(), SelectCommand(aid)];
  }

  /** An AID that reads no records hands over to the next one, with the log it left. */
  lemma EmptyAidMovesOn(card: Card, s: Session, aids: seq<seq<Byte>>, i: nat)
    requires i < |aids| && ReadForAid(card, s, aids[i]).result == Ok([])
    ensures TryAids(card, s, aids, i) == TryAids(card, ReadForAid(card, s, aids[i]).session, aids, i + 1)
  {
  }

  /** A failed PPSE SELECT ends the read with that failure, before any AID is tried. */
  lemma PpseFailureEnds(card: Card, s: Session)
    requires SelectPpse(card, s).result.Err?
    ensures ApplicationData(card, s) == Outcome(Err(SelectPpse(card, s).result.error), SelectPpse(card, s).session)
  {
  }

  /** A PPSE that lists no AID ends the read with `No EMV applications found on card`. */
  lemma NoAidsFails(card: Card, s: Session)
    requires SelectPpse(card, s).result == Ok([])
    ensures ApplicationData(card, s) == Outcome(Err(IllegalState(NoApplicationsMessage)), SelectPpse(card, s).session)
  {
  }

  /** A failure at any AID the loop reaches ends it with that failure; no later AID is tried. */
  lemma AidFailureAborts(card: Card, s: Session, aids: seq<seq<Byte>>, i: nat)
    requires i < |aids| && ReadForAid(card, s, aids[i]).result.Err?
    ensures TryAids(card, s, aids, i) == ReadForAid(card, s, aids[i])
  {
  }

  /** An AID with records ends the loop with those records. */
  lemma AidWithRecordsEnds(card: Card, s: Session, aids: seq<seq<Byte>>, i: nat)
    requires i < |aids| && ReadForAid(card, s, aids[i]).result.Ok? && ReadForAid(card, s, aids[i]).result.value != []
    ensures TryAids(card, s, aids, i) == ReadForAid(card, s, aids[i])
  {
  }

  /** When no AID from `i` on yields records, the loop ends with nothing read. */
  lemma {:induction false} AllAidsEmpty(card: Card, s: Session, aids: seq<seq<Byte>>, i: nat)
    requires forall a, t :: a in aids ==> ReadForAid(card, t, a).result == Ok([])
    ensures TryAids(card, s, aids, i).result == Ok([])
    decreases |aids| - i
  {
    if i < |aids| {
      assert aids[i] in aids;
      AllAidsEmpty(card, ReadForAid(card, s, aids[i]).session, aids, i + 1);
    }
  }

  /** When every listed AID reads no records, the read fails with `No application records readable`. */
  lemma AllAidsEmptyFail(card: Card, s: Session)
    requires SelectPpse(card, s).result.Ok? && SelectPpse(card, s).result.value != []
    requires forall a, t :: a in SelectPpse(card, s).result.value ==> ReadForAid(card, t, a).result == Ok([])
    ensures ApplicationData(card, s).result == Err(IllegalState(NoRecordsMessage))
  {
    var ppse := SelectPpse(card, s);
    AllAidsEmpty(card, ppse.session, ppse.result.value, 0);
  }

  /** Appending one step's data to what was gathered before. */
  function Joined(acc: seq<Byte>, o: Outcome<seq<Byte>>): Outcome<seq<Byte>> {
    if o.result.Ok? then Outcome(Ok(acc + o.result.value), o.session) else o
  }

  lemma JoinedEmpty(o: Outcome<seq<Byte>>)
    ensures Joined([], o) == o
  {
    if o.result.Ok? {
      assert [] + o.result.value == o.result.value;
    }
  }

  lemma ReadRecordsStep(card: Card, s: Session, entry: AflEntry, record: nat, acc: seq<Byte>)
    requires record <= entry.lastRecord
    ensures var command := ReadRecordCommand(entry.sfi, record);
      var reply := Reply(card, s.sent, command);
      Joined(acc, ReadRecordsFrom(card, s, entry, record))
        == Joined(acc + (if reply.Ok? then reply.value else []),
                  ReadRecordsFrom(card, s.(sent := s.sent + [command]), entry, record + 1))
  {
    var command := ReadRecordCommand(entry.sfi, record);
    var reply := Reply(card, s.sent, command);
    var got := if reply.Ok? then reply.value else [];
    var rest := ReadRecordsFrom(card, s.(sent := s.sent + [command]), entry, record + 1);
    assert acc + (got + rest.result.value) == (acc + got) + rest.result.value;
  }

  lemma ReadEntriesStep(card: Card, s: Session, entries: seq<AflEntry>, j: nat, acc: seq<Byte>)
    requires j < |entries|
    ensures var first := ReadRecordsFrom(card, s, entries[j], entries[j].firstRecord);
      Joined(acc, ReadEntries(card, s, entries, j))
        == Joined(acc + first.result.value, ReadEntries(card, first.session, entries, j + 1))
  {
    var first := ReadRecordsFrom(card, s, entries[j], entries[j].firstRecord);
    var rest := ReadEntries(card, first.session, entries, j + 1);
    assert acc + (first.result.value + rest.result.value) == (acc + first.result.value) + rest.result.value;
  }

  /** The contactless connection: every command sent is logged, and the card answers it. */
  class IsoDep {
    const card: Card
    var sent: Log

    constructor (card: Card)
      ensures this.card == card && sent == []
    {
      this.card := card;
      sent := [];
    }

    /** `transceive`: the answer, or the message of the `IOException` it throws. */
    method Transceive(command: seq<Byte>) returns (response: Result<seq<Byte>, string>)
      modifies this
      ensures sent == old(sent) + [command]
      ensures response == card(old(sent), command)
    {
      response := card(sent, command);
      sent := sent + [command];
    }
  }

  class NfcReaderManager {
    /** The FCI of the last application selected. */
    var selectApplicationFci: seq<Byte>

    constructor ()
      ensures selectApplicationFci == []
    {
      selectApplicationFci := [];
    }

    /** The commands sent over `isoDep` so far and the stored FCI. */
    function State(isoDep: IsoDep): Session
      reads this, isoDep
    {
      Session(isoDep.sent, selectApplicationFci)
    }

    method TransceiveSuccess(isoDep: IsoDep, command: seq<Byte>) returns (r: Result<seq<Byte>, Failure>)
      modifies isoDep
      ensures isoDep.sent == old(isoDep.sent) + [command]
      ensures r == Reply(isoDep.card, old(isoDep.sent), command)
    {
      var response := isoDep.Transceive(command);
      if response.Err? {
        return Err(Transport(response.error));
      }
      var bytes := response.value;
      if |bytes| < 2 {
        return Err(IllegalState(ShortResponseMessage));
      }
      var sw1, sw2 := bytes[|bytes| - 2], bytes[|bytes| - 1];
      if sw1 != ToByte(0x90) || sw2 != 0x00 {
        return Err(IllegalState(StatusMessage(sw1, sw2)));
      }
      return Ok(bytes[..|bytes| - 2]);
    }

    method SelectPpseForAids(isoDep: IsoDep) returns (r: Result<seq<seq<Byte>>, Failure>)
      modifies isoDep
      ensures Outcome(r, State(isoDep)) == SelectPpse(isoDep.card, old(State(isoDep)))
    {
      var response := TransceiveSuccess(isoDep, PpseCommand());
      if response.Err? {
        return Err(response.error);
      }
      var parsed := ParseBytes(response.value);
      if parsed.Err? {
        return Err(parsed.error);
      }
      var tlvs := FlattenTlvs(parsed.value);
      if tlvs.Err? {
        return Err(tlvs.error);
      }
      return Ok(AidsOf(tlvs.value));
    }

    method SelectApplication(isoDep: IsoDep, aid: seq<Byte>) returns (r: Result<(), Failure>)
      modifies this, isoDep
      ensures Outcome(r, State(isoDep)) == SelectApp(isoDep.card, old(State(isoDep)), aid)
    {
      var response := TransceiveSuccess(isoDep, SelectCommand(aid));
      if response.Err? {
        return Err(response.error);
      }
      selectApplicationFci := response.value;
      return Ok(());
    }

    method ExtractDol(fci: seq<Byte>) returns (r: Result<Option<seq<Byte>>, Failure>)
      ensures r == DolOf(fci)
    {
      var parsed := ParseBytes(fci);
      if parsed.Err? {
        return Err(parsed.error);
      }
      var tlvs := FlattenTlvs(parsed.value);
      if tlvs.Err? {
        return Err(tlvs.error);
      }
      return Ok(FirstWithTag(tlvs.value, PdolTag));
    }

    method GetProcessingOptions(isoDep: IsoDep, pdol: Option<seq<Byte>>) returns (r: Result<seq<Byte>, Failure>)
      modifies isoDep
      ensures Outcome(r, State(isoDep)) == Gpo(isoDep.card, old(State(isoDep)), pdol)
    {
      var dolData := BuildDolData(pdol);
      if dolData.Err? {
        return Err(dolData.error);
      }
      r := TransceiveSuccess(isoDep, GpoCommand(dolData.value));
    }

    method ExtractAflEntries(gpoResponse: seq<Byte>) returns (r: Result<seq<AflEntry>, Failure>)
      ensures r == AflEntriesOf(gpoResponse)
    {
      var parsed := ParseBytes(gpoResponse);
      if parsed.Err? {
        return Err(parsed.error);
      }
      var tlvs := FlattenTlvs(parsed.value);
      if tlvs.Err? {
        return Err(tlvs.error);
      }
      var afl := FirstWithTag(tlvs.value, AflTag);
      if afl.None? {
        return Err(IllegalState(NoAflMessage));
      }
      if |afl.value| % 4 != 0 {
        return Err(IllegalState(BadAflMessage));
      }
      return Ok(AflEntries(afl.value));
    }

    method ReadRecords(isoDep: IsoDep, entry: AflEntry) returns (results: seq<Byte>)
      modifies isoDep
      ensures Outcome(Ok(results), State(isoDep)) == ReadRecordsFrom(isoDep.card, old(State(isoDep)), entry, entry.firstRecord)
    {
      ghost var start := State(isoDep);
      results := [];
      var record := entry.firstRecord;
      JoinedEmpty(ReadRecordsFrom(isoDep.card, start, entry, record));
      while record <= entry.lastRecord
        invariant Joined(results, ReadRecordsFrom(isoDep.card, State(isoDep), entry, record))
          == ReadRecordsFrom(isoDep.card, start, entry, entry.firstRecord)
        decreases entry.lastRecord + 1 - record
      {
        ReadRecordsStep(isoDep.card, State(isoDep), entry, record, results);
        var response := TransceiveSuccess(isoDep, ReadRecordCommand(entry.sfi, record));
        if response.Ok? {
          results := results + response.value;
        }
        record := record + 1;
      }
      assert results + [] == results;
    }

    method ReadRecordsForAid(isoDep: IsoDep, aid: seq<Byte>) returns (r: Result<seq<Byte>, Failure>)
      modifies this, isoDep
      ensures Outcome(r, State(isoDep)) == ReadForAid(isoDep.card, old(State(isoDep)), aid)
    {
      ghost var card := isoDep.card;
      ghost var goal := SelectStage(card, State(isoDep), aid);
      var selected := SelectApplication(isoDep, aid);
      if selected.Err? {
        return Err(selected.error);
      }
      assert goal == ReadAidFrom(card, State(isoDep), aid, FindingPdol);
      assert goal == PdolStage(card, State(isoDep), aid);
      var pdol := ExtractDol(selectApplicationFci);
      if pdol.Err? {
        return Err(pdol.error);
      }
      assert goal == ReadAidFrom(card, State(isoDep), aid, Processing(pdol.value));
      assert goal == GpoStage(card, State(isoDep), aid, pdol.value);
      var gpoResponse := GetProcessingOptions(isoDep, pdol.value);
      if gpoResponse.Err? {
        return Err(gpoResponse.error);
      }
      assert goal == ReadAidFrom(card, State(isoDep), aid, ReadingAfl(gpoResponse.value));
      assert goal == AflStage(card, State(isoDep), gpoResponse.value);
      var entries := ExtractAflEntries(gpoResponse.value);
      if entries.Err? {
        return Err(entries.error);
      }
      ghost var start := State(isoDep);
      assert goal == ReadEntries(card, start, entries.value, 0);
      var all: seq<Byte> := [];
      JoinedEmpty(goal);
      for j := 0 to |entries.value|
        invariant Joined(all, ReadEntries(card, State(isoDep), entries.value, j)) == goal
      {
        ReadEntriesStep(card, State(isoDep), entries.value, j, all);
        var records := ReadRecords(isoDep, entries.value[j]);
        all := all + records;
      }
      assert all + [] == all;
      return Ok(all);
    }

    method ReadApplicationData(isoDep: IsoDep) returns (r: Result<seq<Byte>, Failure>)
      modifies this, isoDep
      ensures Outcome(r, State(isoDep)) == ApplicationData(isoDep.card, old(State(isoDep)))
    {
      var aids := SelectPpseForAids(isoDep);
      if aids.Err? {
        return Err(aids.error);
      }
      if |aids.value| == 0 {
        return Err(IllegalState(NoApplicationsMessage));
      }
      var combined := TryAidsInOrder(isoDep, aids.value);
      if combined.Err? {
        return combined;
      }
      if |combined.value| == 0 {
        return Err(IllegalState(NoRecordsMessage));
      }
      return combined;
    }

    /** The `for (aid in aids)` loop of `readApplicationData`, breaking at the first non-empty records. */
    method TryAidsInOrder(isoDep: IsoDep, aids: seq<seq<Byte>>) returns (r: Result<seq<Byte>, Failure>)
      modifies this, isoDep
      ensures Outcome(r, State(isoDep)) == TryAids(isoDep.card, old(State(isoDep)), aids, 0)
    {
      ghost var goal := TryAids(isoDep.card, State(isoDep), aids, 0);
      var combined: seq<Byte> := [];
      for i := 0 to |aids|
        invariant combined == []
        invariant TryAids(isoDep.card, State(isoDep), aids, i) == goal
      {
        TryAidsStep(isoDep.card, State(isoDep), aids, i);
        var records := ReadRecordsForAid(isoDep, aids[i]);
        if records.Err? {
          return Err(records.error);
        }
        if |records.value| > 0 {
          assert combined + records.value == records.value;
          combined := combined + records.value;
          break;
        }
      }
      return Ok(combined);
    }
  }
}
