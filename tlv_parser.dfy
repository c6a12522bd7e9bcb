/**
 * `TlvParser`: BER-TLV decoding (ITU-T X.690 sections 8.1.2 and 8.1.3, as used by
 * EMV 4.3 Book 3 Annex B) of a byte array or a hex string into an ordered list of records.
 *
 * The specification functions read the input at an index, as the source does; the
 * methods are the source's loops, proved to compute those functions.
 */
module TlvParser {
  import opened Wrappers
  import opened Jvm
  import opened TlvModels

  const EndOfTagMessage: string := "Unexpected end of data when reading tag"
  const UnterminatedTagMessage: string := "Multi-byte tag not terminated correctly"
  const EndOfLengthMessage: string := "Unexpected end of data when reading length"
  const IndefiniteLengthMessage: string := "Indefinite length encoding not supported"
  const ShortLengthMessage: string := "Insufficient bytes for long-form length"
  const OddHexMessage: string := "Hex input must contain an even number of characters"
  const InvalidPairPrefix: string := "Invalid hex byte: "

  function OverrunMessage(tag: string): string {
    "Declared length exceeds available bytes for tag " + tag
  }

  // ---------------------------------------------------------------- tags

  /** `toUnsignedInt() and 0x1F == 0x1F`: the low five bits announce a multi-byte tag. */
  predicate IsMultiByteLead(b: Byte) {
    ToUnsignedInt(b) % 32 == 31
  }

  /** `toUnsignedInt() and 0x80 != 0`: bit 8 says another tag byte follows. */
  predicate HasMoreBit(b: Byte) {
    ToUnsignedInt(b) >= 128
  }

  /**
   * Where the tag loop started at `i` stops: just past the first byte with bit 8 clear,
   * or at the end of the input if there is none.
   */
  function TagEnd(bytes: seq<Byte>, i: nat): (e: nat)
    requires i <= |bytes|
    ensures i <= e <= |bytes| && (i < |bytes| ==> i < e)
    decreases |bytes| - i
  {
    if i == |bytes| then i
    else if !HasMoreBit(bytes[i]) then i + 1
    else TagEnd(bytes, i + 1)
  }

  /**
   * The tag part of `readTag(bytes, startIndex)`: how many bytes the tag takes, or the
   * error that aborts the read.
   */
  function TagSpan(bytes: seq<Byte>, start: nat): (r: Result<nat, TlvParseError>)
    ensures r.Ok? ==> 1 <= r.value && start + r.value <= |bytes|
  {
    if start >= |bytes| then Err(MalformedTlv(EndOfTagMessage))
    else if !IsMultiByteLead(bytes[start]) then Ok(1)
    else
      var end := TagEnd(bytes, start + 1);
      if HasMoreBit(bytes[end - 1]) then Err(MalformedTlv(UnterminatedTagMessage))
      else Ok(end - start)
  }

  /** The single-byte branch's `toString(16).padStart(2, '0').uppercase()` is the byte's hex text. */
  lemma ReadTagSingleText(bytes: seq<Byte>, start: nat)
    requires start < |bytes|
    ensures Uppercase(PadHex(bytes[start])) == ToHexString(bytes[start..start + 1])
  {
    PadHexIsPair(bytes[start]);
    ToHexStringOfByte(bytes[start]);
    assert bytes[start..start + 1] == [bytes[start]];
  }

  /**
   * A tag octet string as X.690 section 8.1.2 lays it out: one byte whose low five bits
   * are not all ones, or such a lead byte followed by bytes with bit 8 set and a last
   * byte with bit 8 clear.
   */
  predicate IsTagEncoding(tb: seq<Byte>) {
    |tb| >= 1 &&
    (IsMultiByteLead(tb[0]) <==> |tb| >= 2) &&
    (|tb| >= 2 ==> (forall j :: 1 <= j < |tb| - 1 ==> HasMoreBit(tb[j])) && !HasMoreBit(tb[|tb| - 1]))
  }

  /** The bytes from `i` to the tag loop's stop all carry bit 8, except the last. */
  lemma {:induction false} TagEndFacts(bytes: seq<Byte>, i: nat)
    requires i <= |bytes|
    ensures forall j :: i <= j < TagEnd(bytes, i) - 1 ==> HasMoreBit(bytes[j])
    ensures TagEnd(bytes, i) < |bytes| ==> !HasMoreBit(bytes[TagEnd(bytes, i) - 1])
    ensures i < |bytes| && TagEnd(bytes, i) == |bytes| && HasMoreBit(bytes[|bytes| - 1]) ==>
      forall j :: i <= j < |bytes| ==> HasMoreBit(bytes[j])
    decreases |bytes| - i
  {
    if i < |bytes| && HasMoreBit(bytes[i]) {
      TagEndFacts(bytes, i + 1);
    }
  }

  /** The tag loop stops right after the first byte with bit 8 clear. */
  lemma {:induction false} TagEndStops(bytes: seq<Byte>, i: nat, e: nat)
    requires i < e <= |bytes| && !HasMoreBit(bytes[e - 1])
    requires forall j :: i <= j < e - 1 ==> HasMoreBit(bytes[j])
    ensures TagEnd(bytes, i) == e
    decreases e - i
  {
    if i < e - 1 {
      TagEndStops(bytes, i + 1, e);
    }
  }

  /**
   * A tag is refused exactly when the input has run out, or a multi-byte tag never
   * meets a byte with bit 8 clear: either its lead byte is the last byte and carries
   * bit 8, or every byte after the lead carries it.
   */
  lemma TagSpanAccepts(bytes: seq<Byte>, start: nat)
    ensures TagSpan(bytes, start).Err? <==>
      start >= |bytes| ||
      (IsMultiByteLead(bytes[start]) &&
       (if start + 1 == |bytes| then HasMoreBit(bytes[start])
        else forall j :: start < j < |bytes| ==> HasMoreBit(bytes[j])))
  {
    if start < |bytes| && IsMultiByteLead(bytes[start]) && start + 1 < |bytes| {
      TagEndFacts(bytes, start + 1);
    }
  }

  /** A tag that is followed by more input is a well-formed X.690 tag. */
  lemma TagSpanWellFormed(bytes: seq<Byte>, start: nat, ct: nat)
    requires TagSpan(bytes, start) == Ok(ct) && start + ct < |bytes|
    ensures IsTagEncoding(bytes[start..start + ct])
  {
    var tb := bytes[start..start + ct];
    if IsMultiByteLead(bytes[start]) {
      TagEndFacts(bytes, start + 1);
      assert ct >= 2;
      forall j | 1 <= j < ct - 1 ensures HasMoreBit(tb[j]) {
        assert tb[j] == bytes[start + j];
      }
      assert tb[ct - 1] == bytes[start + ct - 1];
    }
  }

  /** A well-formed tag encoding is read back whole, whatever follows it. */
  lemma TagSpanOfEncoding(bytes: seq<Byte>, start: nat, n: nat)
    requires start + n <= |bytes| && IsTagEncoding(bytes[start..start + n])
    ensures TagSpan(bytes, start) == Ok(n)
  {
    var tb := bytes[start..start + n];
    assert bytes[start] == tb[0];
    if n >= 2 {
      forall j | start + 1 <= j < start + n - 1 ensures HasMoreBit(bytes[j]) {
        assert bytes[j] == tb[j - start];
      }
      assert bytes[start + n - 1] == tb[n - 1];
      TagEndStops(bytes, start + 1, start + n);
    }
  }

  // ---------------------------------------------------------------- lengths

  /** The number the bytes spell in base 256, most significant first. */
  function BigEndian(s: seq<Byte>): nat {
    if s == [] then 0 else 256 * BigEndian(s[..|s| - 1]) + ToUnsignedInt(s[|s| - 1])
  }

  /** The number `bytes[lo..hi]` spells in base 256, read in place as the `readLength` loop does. */
  function BigEndianAt(bytes: seq<Byte>, lo: nat, hi: nat): nat
    requires lo <= hi <= |bytes|
    decreases hi - lo
  {
    if lo == hi then 0 else 256 * BigEndianAt(bytes, lo, hi - 1) + ToUnsignedInt(bytes[hi - 1])
  }

  lemma {:induction false} BigEndianAtSlice(bytes: seq<Byte>, lo: nat, hi: nat)
    requires lo <= hi <= |bytes|
    ensures BigEndianAt(bytes, lo, hi) == BigEndian(bytes[lo..hi])
    decreases hi - lo
  {
    if lo < hi {
      BigEndianAtSlice(bytes, lo, hi - 1);
      assert bytes[lo..hi][..hi - lo - 1] == bytes[lo..hi - 1];
    }
  }

  /**
   * A length octet string as X.690 section 8.1.3 lays it out for the definite form:
   * one byte below 0x80 that is the length, or 0x80 + k followed by k (1 to 127)
   * big-endian bytes that spell it.
   */
  predicate IsLengthEncoding(lb: seq<Byte>, n: nat) {
    (|lb| == 1 && ToUnsignedInt(lb[0]) < 0x80 && ToUnsignedInt(lb[0]) == n) ||
    (2 <= |lb| <= 128 && ToUnsignedInt(lb[0]) == 0x80 + (|lb| - 1) && BigEndian(lb[1..]) == n)
  }

  /**
   * `readLength(bytes, startIndex)`: the declared length and the number of bytes it took.
   * The length is the exact big-endian number; `ReadLengthAsWritten` is the 32-bit
   * accumulation the source performs.
   */
  function ReadLengthAt(bytes: seq<Byte>, start: nat): (r: Result<(nat, nat), TlvParseError>)
    ensures r.Ok? ==> 1 <= r.value.1 && start + r.value.1 <= |bytes|
  {
    if start >= |bytes| then Err(MalformedTlv(EndOfLengthMessage))
    else
      var first := ToUnsignedInt(bytes[start]);
      if first < 0x80 then Ok((first, 1))
      else
        var count := first - 0x80;
        if count == 0 then Err(MalformedTlv(IndefiniteLengthMessage))
        else if start + count >= |bytes| then Err(MalformedTlv(ShortLengthMessage))
        else Ok((BigEndianAt(bytes, start + 1, start + count + 1), count + 1))
  }

  /** A length that is read is a definite X.690 length encoding of the declared length. */
  lemma ReadLengthWellFormed(bytes: seq<Byte>, start: nat, len: nat, cl: nat)
    requires ReadLengthAt(bytes, start) == Ok((len, cl))
    ensures start + cl <= |bytes| && IsLengthEncoding(bytes[start..start + cl], len)
  {
    var lb := bytes[start..start + cl];
    assert lb[0] == bytes[start];
    if cl >= 2 {
      BigEndianAtSlice(bytes, start + 1, start + cl);
      assert lb[1..] == bytes[start + 1..start + cl];
    }
  }

  /**
   * A length is refused exactly when the input has run out, the form is indefinite
   * (0x80), or the long form announces more bytes than remain after it.
   */
  lemma ReadLengthAccepts(bytes: seq<Byte>, start: nat)
    ensures ReadLengthAt(bytes, start).Err? <==>
      (start >= |bytes| ||
       (ToUnsignedInt(bytes[start]) >= 0x80 &&
        (ToUnsignedInt(bytes[start]) == 0x80 || start + ToUnsignedInt(bytes[start]) - 0x80 >= |bytes|)))
  {
  }

  /** A well-formed length encoding is read back whole, whatever follows it. */
  lemma ReadLengthOfEncoding(bytes: seq<Byte>, start: nat, m: nat, n: nat)
    requires start + m <= |bytes| && IsLengthEncoding(bytes[start..start + m], n)
    ensures ReadLengthAt(bytes, start) == Ok((n, m))
  {
    var lb := bytes[start..start + m];
    assert bytes[start] == lb[0];
    if m >= 2 {
      BigEndianAtSlice(bytes, start + 1, start + m);
      assert bytes[start + 1..start + m] == lb[1..];
    }
  }

  // ---------------------------------------------------------------- records

  /** One record as it sits in the input: tag bytes, length bytes and value bytes. */
  datatype Element = Element(tagBytes: seq<Byte>, lengthBytes: seq<Byte>, value: seq<Byte>) {

    function Encoding(): (s: seq<Byte>)
      ensures |s| == |tagBytes| + |lengthBytes| + |value|
    {
      tagBytes + lengthBytes + value
    }

    /** The record `parse` builds for this element: the tag's hex text, the length, the value. */
    function ToTlv(): (t: Tlv)
      ensures t.length == |t.value| && t.value == value
    {
      Tlv(ToHexString(tagBytes), |value|, value)
    }
  }

  predicate WellFormed(e: Element) {
    IsTagEncoding(e.tagBytes) && IsLengthEncoding(e.lengthBytes, |e.value|)
  }

  predicate AllWellFormed(es: seq<Element>) {
    forall i :: 0 <= i < |es| ==> WellFormed(es[i])
  }

  /** Elements laid end to end. */
  function Concat(es: seq<Element>): (s: seq<Byte>) {
    if es == [] then [] else es[0].Encoding() + Concat(es[1..])
  }

  function ToTlvs(es: seq<Element>): (ts: seq<Tlv>)
    ensures |ts| == |es|
  {
    if es == [] then [] else [es[0].ToTlv()] + ToTlvs(es[1..])
  }

  /**
   * Why the walk over the input stopped: an error of `readTag` or `readLength`, or a
   * value that runs past the end, remembered by the tag bytes the message names.
   */
  datatype ScanError = Refused(error: TlvParseError) | Overrun(tagBytes: seq<Byte>)

  /** The exception `parse` throws for a scan error. */
  function Report(e: ScanError): (err: TlvParseError)
    ensures err.MalformedTlv? || e.Refused?
  {
    match e
    case Refused(err) => err
    case Overrun(tb) => MalformedTlv(OverrunMessage(ToHexString(tb)))
  }

  /**
   * One turn of the `parse` loop: read the tag and the length at `index`, refuse a value
   * that runs past the end of the input, and cut out the element.
   */
  function ReadElement(bytes: seq<Byte>, index: nat): (r: Result<Element, ScanError>)
    requires index < |bytes|
    ensures r.Ok? ==> |r.value.tagBytes| >= 1 && |r.value.lengthBytes| >= 1
    ensures r.Ok? ==> index + |r.value.Encoding()| <= |bytes|
  {
    match TagSpan(bytes, index)
    case Err(e) => Err(Refused(e))
    case Ok(ct) =>
      match ReadLengthAt(bytes, index + ct)
      case Err(e) => Err(Refused(e))
      case Ok((len, cl)) =>
        var valueStart := index + ct + cl;
        var valueEnd := valueStart + len;
        if valueEnd > |bytes| then Err(Overrun(bytes[index..index + ct]))
        else Ok(Cut(bytes, index, ct, cl, len))
  }

  /** The element a tag and a length that fit in the input make. */
  lemma ReadElementOf(bytes: seq<Byte>, index: nat, ct: nat, len: nat, cl: nat)
    requires index < |bytes| && TagSpan(bytes, index) == Ok(ct)
    requires ReadLengthAt(bytes, index + ct) == Ok((len, cl)) && index + ct + cl + len <= |bytes|
    ensures ReadElement(bytes, index) == Ok(Cut(bytes, index, ct, cl, len))
  {
  }

  /**
   * The walk of `parse(ByteArray)` from `index` on: the elements that remain, or the
   * reason it stops.
   */
  function Scan(bytes: seq<Byte>, index: nat): Result<seq<Element>, ScanError>
    requires index <= |bytes|
    decreases |bytes| - index, 1
  {
    if index == |bytes| then Ok([]) else ScanElement(bytes, index)
  }

  /** The walk at an index where input remains: the element there, then the walk after it. */
  function ScanElement(bytes: seq<Byte>, index: nat): Result<seq<Element>, ScanError>
    requires index < |bytes|
    decreases |bytes| - index, 0
  {
    var e :- ReadElement(bytes, index);
    var rest :- Scan(bytes, index + |e.Encoding()|);
    Ok([e] + rest)
  }

  /** `parse(ByteArray)`: the records of the elements the walk finds, or the exception it throws. */
  function Decode(bytes: seq<Byte>): Result<seq<Tlv>, TlvParseError> {
    match Scan(bytes, 0)
    case Ok(es) => Ok(ToTlvs(es))
    case Err(e) => Err(Report(e))
  }

  /** The elements found so far, `acc`, followed by the outcome of the rest of the walk. */
  function Prepend(acc: seq<Element>, r: Result<seq<Element>, ScanError>): (p: Result<seq<Element>, ScanError>)
    ensures r.Err? ==> p == r
    ensures r.Ok? ==> p.Ok? && |p.value| == |acc| + |r.value|
  {
    if r.Ok? then Ok(acc + r.value) else r
  }

  /** One turn of the walk: an element is taken and the walk goes on after it. */
  lemma ScanStep(bytes: seq<Byte>, index: nat, e: Element)
    requires index < |bytes| && ReadElement(bytes, index) == Ok(e)
    ensures Scan(bytes, index) == Prepend([e], Scan(bytes, index + |e.Encoding()|))
  {
  }

  /** A successful walk from `index` is the element there followed by the walk after it. */
  lemma ScanCons(bytes: seq<Byte>, index: nat, e: Element, rest: seq<Element>)
    requires index < |bytes| && ReadElement(bytes, index) == Ok(e)
    requires Scan(bytes, index + |e.Encoding()|) == Ok(rest)
    ensures Scan(bytes, index) == Ok([e] + rest)
  {
  }

  /** A successful walk from `index` reads an element there and walks on successfully after it. */
  lemma ScanNext(bytes: seq<Byte>, index: nat) returns (e: Element, rest: seq<Element>)
    requires index < |bytes| && Scan(bytes, index).Ok?
    ensures ReadElement(bytes, index) == Ok(e)
    ensures Scan(bytes, index + |e.Encoding()|) == Ok(rest)
    ensures Scan(bytes, index).value == [e] + rest
  {
    e := ReadElement(bytes, index).value;
    rest := Scan(bytes, index + |e.Encoding()|).value;
  }

  /** A refused element stops the whole walk with its error. */
  lemma ScanFails(bytes: seq<Byte>, index: nat)
    requires index < |bytes| && ReadElement(bytes, index).Err?
    ensures Scan(bytes, index) == Err(ReadElement(bytes, index).error)
  {
  }

  /** `es` lies in `bytes` from `index` to the end, one element after the other. */
  predicate Tiled(bytes: seq<Byte>, index: nat, es: seq<Element>)
    requires index <= |bytes|
    decreases |es|
  {
    if es == [] then index == |bytes|
    else
      var next := index + |es[0].Encoding()|;
      next <= |bytes| && bytes[index..next] == es[0].Encoding() && Tiled(bytes, next, es[1..])
  }

  /** Three adjacent slices make the slice that spans them. */
  lemma SplitSlices(bytes: seq<Byte>, a: nat, b: nat, c: nat, d: nat)
    requires a <= b <= c <= d <= |bytes|
    ensures bytes[a..d] == bytes[a..b] + bytes[b..c] + bytes[c..d]
  {
  }

  /** The element cut out of `bytes` at `index` with the given part sizes. */
  function Cut(bytes: seq<Byte>, index: nat, ct: nat, cl: nat, len: nat): Element
    requires index + ct + cl + len <= |bytes|
  {
    Element(bytes[index..index + ct], bytes[index + ct..index + ct + cl], bytes[index + ct + cl..index + ct + cl + len])
  }

  /** An element cut out of the input is exactly the input where it was cut. */
  lemma CutSlices(bytes: seq<Byte>, index: nat, ct: nat, cl: nat, len: nat)
    requires index + ct + cl + len <= |bytes|
    ensures |Cut(bytes, index, ct, cl, len).Encoding()| == ct + cl + len
    ensures bytes[index..index + ct + cl + len] == Cut(bytes, index, ct, cl, len).Encoding()
  {
    SplitSlices(bytes, index, index + ct, index + ct + cl, index + ct + cl + len);
  }

  /** The element a tag and a length read at `index` make is well formed. */
  lemma CutWellFormed(bytes: seq<Byte>, index: nat, ct: nat, cl: nat, len: nat)
    requires index + ct + cl + len <= |bytes| && TagSpan(bytes, index) == Ok(ct)
    requires ReadLengthAt(bytes, index + ct) == Ok((len, cl))
    ensures WellFormed(Cut(bytes, index, ct, cl, len))
  {
    TagSpanWellFormed(bytes, index, ct);
    ReadLengthWellFormed(bytes, index + ct, len, cl);
    var e := Cut(bytes, index, ct, cl, len);
    assert e.tagBytes == bytes[index..index + ct] && e.lengthBytes == bytes[index + ct..index + ct + cl];
  }

  /** An element the walk cuts out is well formed, and it is exactly the input at `index`. */
  lemma ReadElementTiles(bytes: seq<Byte>, index: nat, e: Element)
    requires index < |bytes| && ReadElement(bytes, index) == Ok(e)
    ensures WellFormed(e) && bytes[index..index + |e.Encoding()|] == e.Encoding()
  {
    var ct, cl, len := ReadElementParts(bytes, index, e);
    CutWellFormed(bytes, index, ct, cl, len);
    CutSlices(bytes, index, ct, cl, len);
  }

  /** An element the walk cuts out comes from a tag and a length read where it starts. */
  lemma ReadElementParts(bytes: seq<Byte>, index: nat, e: Element) returns (ct: nat, cl: nat, len: nat)
    requires index < |bytes| && ReadElement(bytes, index) == Ok(e)
    ensures TagSpan(bytes, index) == Ok(ct) && ReadLengthAt(bytes, index + ct) == Ok((len, cl))
    ensures index + ct + cl + len <= |bytes| && e == Cut(bytes, index, ct, cl, len)
  {
    ct := TagSpan(bytes, index).value;
    len, cl := ReadLengthAt(bytes, index + ct).value.0, ReadLengthAt(bytes, index + ct).value.1;
  }

  /** The parts of an element's encoding found at `index`, as slices of `bytes`. */
  lemma EncodingSlices(bytes: seq<Byte>, index: nat, e: Element)
    requires index + |e.Encoding()| <= |bytes| && bytes[index..index + |e.Encoding()|] == e.Encoding()
    ensures bytes[index..index + |e.tagBytes|] == e.tagBytes
    ensures bytes[index + |e.tagBytes|..index + |e.tagBytes| + |e.lengthBytes|] == e.lengthBytes
    ensures bytes[index + |e.tagBytes| + |e.lengthBytes|..index + |e.Encoding()|] == e.value
  {
    var ct, cl := |e.tagBytes|, |e.lengthBytes|;
    SplitSlices(bytes, index, index + ct, index + ct + cl, index + |e.Encoding()|);
    var s := bytes[index..index + |e.Encoding()|];
    assert s[..ct] == e.tagBytes && s[ct..ct + cl] == e.lengthBytes && s[ct + cl..] == e.value;
  }

  /** The walk cuts a well-formed element out of its own encoding, whatever follows it. */
  lemma ElementOfEncoding(bytes: seq<Byte>, index: nat, e: Element)
    requires index + |e.Encoding()| <= |bytes| && bytes[index..index + |e.Encoding()|] == e.Encoding()
    requires WellFormed(e)
    ensures index < |bytes| && ReadElement(bytes, index) == Ok(e)
  {
    EncodingSlices(bytes, index, e);
    var ct, cl, n := |e.tagBytes|, |e.lengthBytes|, |e.value|;
    TagSpanOfEncoding(bytes, index, ct);
    ReadLengthOfEncoding(bytes, index + ct, cl, n);
    ReadElementOf(bytes, index, ct, n, cl);
    assert Cut(bytes, index, ct, cl, n) == e;
  }

  /**
   * Tiling: the elements a successful walk finds are well formed and lie one after the
   * other from `index` to the end of the input.
   */
  lemma {:induction false} ScanTiles(bytes: seq<Byte>, index: nat)
    requires index <= |bytes| && Scan(bytes, index).Ok?
    ensures Tiled(bytes, index, Scan(bytes, index).value)
    ensures AllWellFormed(Scan(bytes, index).value)
    decreases |bytes| - index
  {
    if index < |bytes| {
      var e, rest := ScanHead(bytes, index);
      ScanTiles(bytes, index + |e.Encoding()|);
      TiledCons(bytes, index, e, rest);
      AllWellFormedCons(e, rest);
    }
  }

  /** A successful walk from `index` starts with a well-formed element cut out of the input there. */
  lemma ScanHead(bytes: seq<Byte>, index: nat) returns (e: Element, rest: seq<Element>)
    requires index < |bytes| && Scan(bytes, index).Ok?
    ensures WellFormed(e) && index + |e.Encoding()| <= |bytes|
    ensures bytes[index..index + |e.Encoding()|] == e.Encoding()
    ensures Scan(bytes, index + |e.Encoding()|) == Ok(rest)
    ensures Scan(bytes, index).value == [e] + rest
  {
    e, rest := ScanNext(bytes, index);
    ReadElementTiles(bytes, index, e);
  }

  /** A well-formed element found at `index`, followed by a successful walk, is a successful walk. */
  lemma ScanOfElement(bytes: seq<Byte>, index: nat, e: Element, rest: seq<Element>)
    requires index + |e.Encoding()| <= |bytes| && bytes[index..index + |e.Encoding()|] == e.Encoding()
    requires WellFormed(e) && Scan(bytes, index + |e.Encoding()|) == Ok(rest)
    ensures index < |bytes| && Scan(bytes, index) == Ok([e] + rest)
  {
    ElementOfEncoding(bytes, index, e);
    ScanCons(bytes, index, e, rest);
  }

  lemma TiledCons(bytes: seq<Byte>, index: nat, e: Element, rest: seq<Element>)
    requires index + |e.Encoding()| <= |bytes| && bytes[index..index + |e.Encoding()|] == e.Encoding()
    requires Tiled(bytes, index + |e.Encoding()|, rest)
    ensures Tiled(bytes, index, [e] + rest)
  {
    assert ([e] + rest)[0] == e && ([e] + rest)[1..] == rest;
  }

  lemma AllWellFormedCons(e: Element, rest: seq<Element>)
    requires WellFormed(e) && AllWellFormed(rest)
    ensures AllWellFormed([e] + rest)
  {
  }

  /** The converse: well-formed elements lying one after the other are found again, in order. */
  lemma {:induction false} ScanOfTiled(bytes: seq<Byte>, index: nat, es: seq<Element>)
    requires index <= |bytes| && Tiled(bytes, index, es) && AllWellFormed(es)
    ensures Scan(bytes, index) == Ok(es)
    decreases |es|
  {
    if es != [] {
      var e, rest := es[0], es[1..];
      assert WellFormed(e) && AllWellFormed(rest);
      ScanOfTiled(bytes, index + |e.Encoding()|, rest);
      ScanOfElement(bytes, index, e, rest);
      assert [e] + rest == es;
    }
  }

  /** Lying one after the other from `index` on is being the rest of the input, laid end to end. */
  lemma {:induction false} TiledConcat(bytes: seq<Byte>, index: nat, es: seq<Element>)
    requires index <= |bytes|
    ensures Tiled(bytes, index, es) <==> bytes[index..] == Concat(es)
    decreases |es|
  {
    if es != [] {
      var enc, next := es[0].Encoding(), index + |es[0].Encoding()|;
      assert Concat(es) == enc + Concat(es[1..]);
      if next <= |bytes| {
        TiledConcat(bytes, next, es[1..]);
        assert bytes[index..] == bytes[index..next] + bytes[next..];
      }
      if bytes[index..] == Concat(es) {
        assert bytes[index..][..|enc|] == enc;
        assert bytes[index..][|enc|..] == Concat(es[1..]);
      }
    }
  }

  /** `parse` accepts the encodings of well-formed records and returns them in order. */
  lemma DecodeConcat(es: seq<Element>)
    requires AllWellFormed(es)
    ensures Decode(Concat(es)) == Ok(ToTlvs(es))
  {
    var bytes := Concat(es);
    TiledConcat(bytes, 0, es);
    ScanOfTiled(bytes, 0, es);
  }

  /**
   * What a successful parse returns is read off well-formed records that, laid end to
   * end, are exactly the input.
   */
  lemma DecodeTiles(bytes: seq<Byte>) returns (es: seq<Element>)
    requires Decode(bytes).Ok?
    ensures Concat(es) == bytes && AllWellFormed(es) && Decode(bytes).value == ToTlvs(es)
  {
    es := Scan(bytes, 0).value;
    ScanTiles(bytes, 0);
    TiledConcat(bytes, 0, es);
  }

  /** Every record `parse` returns declares the length of the value it carries. */
  lemma {:induction false} ToTlvsLengths(es: seq<Element>)
    ensures forall i :: 0 <= i < |ToTlvs(es)| ==> ToTlvs(es)[i].length == |ToTlvs(es)[i].value|
    ensures forall i :: 0 <= i < |es| ==> ToTlvs(es)[i] == es[i].ToTlv()
  {
    if es != [] {
      ToTlvsLengths(es[1..]);
    }
  }

  lemma DecodeLengths(bytes: seq<Byte>)
    requires Decode(bytes).Ok?
    ensures forall i :: 0 <= i < |Decode(bytes).value| ==> Decode(bytes).value[i].length == |Decode(bytes).value[i].value|
  {
    ToTlvsLengths(Scan(bytes, 0).value);
  }

  // ---------------------------------------------------------------- hex input

  /**
   * `String.toByteArrayOrThrow()`: drop every `\s` character, reject an odd count, then
   * read each two-character chunk in radix 16.
   */
  function ToByteArrayOrThrow(hex: string): (r: Result<seq<Byte>, TlvParseError>)
    ensures r.Ok? ==> 2 * |r.value| == |RemoveRegexSpaces(hex)|
    ensures r.Err? ==> r.error.InvalidHexInput?
    ensures |RemoveRegexSpaces(hex)| % 2 != 0 ==> r == Err(InvalidHexInput(OddHexMessage))
    ensures |RemoveRegexSpaces(hex)| % 2 == 0 ==> (r.Ok? <==> AllPairsParse(RemoveRegexSpaces(hex)))
    ensures r.Ok? ==>
      |RemoveRegexSpaces(hex)| % 2 == 0 && AllPairsParse(RemoveRegexSpaces(hex))
      && SpellsBytes(RemoveRegexSpaces(hex), r.value)
    ensures |RemoveRegexSpaces(hex)| % 2 == 0 && !AllPairsParse(RemoveRegexSpaces(hex)) ==>
      exists e :: FirstBadPair(RemoveRegexSpaces(hex), e) && r == Err(InvalidHexInput(InvalidPairPrefix + e))
  {
    var sanitized := RemoveRegexSpaces(hex);
    if |sanitized| % 2 != 0 then Err(InvalidHexInput(OddHexMessage))
    else
      match ParsePairs(sanitized)
      case Ok(bytes) => Ok(bytes)
      case Err(pair) => Err(InvalidHexInput(InvalidPairPrefix + pair))
  }

  lemma RemoveRegexSpacesKeeps(s: string)
    requires forall i :: 0 <= i < |s| ==> !IsRegexSpace(s[i])
    ensures RemoveRegexSpaces(s) == s
  {
    if s != [] {
      RemoveRegexSpacesKeeps(s[1..]);
    }
  }

  /** `parse(String)`: blank input is no records; anything else is decoded as hex bytes. */
  function ParseHexSpec(hexInput: string): (r: Result<seq<Tlv>, TlvParseError>)
    ensures IsBlank(hexInput) ==> r == Ok([])
  {
    if IsBlank(hexInput) then Ok([])
    else
      var bytes :- ToByteArrayOrThrow(hexInput);
      Decode(bytes)
  }

  /** A byte array's hex text decodes exactly as the byte array does. */
  lemma ParseHexOfHexString(bytes: seq<Byte>)
    ensures ParseHexSpec(ToHexString(bytes)) == Decode(bytes)
  {
    var h := ToHexString(bytes);
    ToHexStringDigits(bytes);
    RemoveRegexSpacesKeeps(h);
    ParsePairsOfHexString(bytes);
    if bytes != [] {
      assert !IsWhitespace(h[0]);
    }
  }

  // ---------------------------------------------------------------- the loops

  /** `readTag(bytes, startIndex)`. */
  method ReadTag(bytes: seq<Byte>, startIndex: nat) returns (r: Result<(string, nat), TlvParseError>)
    ensures r.Err? ==> TagSpan(bytes, startIndex) == Err(r.error)
    ensures r.Ok? ==> TagSpan(bytes, startIndex) == Ok(r.value.1) && startIndex + r.value.1 <= |bytes|
    ensures r.Ok? ==> r.value.0 == ToHexString(bytes[startIndex..startIndex + r.value.1])
  {
    if startIndex >= |bytes| {
      return Err(MalformedTlv(EndOfTagMessage));
    }
    var firstByte := bytes[startIndex];
    if !IsMultiByteLead(firstByte) {
      ReadTagSingleText(bytes, startIndex);
      return Ok((Uppercase(PadHex(firstByte)), 1));
    }
    var index := startIndex + 1;
    var tagBytes := [firstByte];
    while index < |bytes|
      invariant startIndex + 1 <= index <= |bytes|
      invariant tagBytes == bytes[startIndex..index]
      invariant TagEnd(bytes, index) == TagEnd(bytes, startIndex + 1)
    {
      var current := bytes[index];
      tagBytes := tagBytes + [current];
      index := index + 1;
      if !HasMoreBit(current) {
        assert TagEnd(bytes, startIndex + 1) == index;
        break;
      }
    }
    assert TagEnd(bytes, startIndex + 1) == index && tagBytes[|tagBytes| - 1] == bytes[index - 1];
    if HasMoreBit(tagBytes[|tagBytes| - 1]) {
      return Err(MalformedTlv(UnterminatedTagMessage));
    }
    assert TagSpan(bytes, startIndex) == Ok(index - startIndex);
    assert tagBytes == bytes[startIndex..startIndex + (index - startIndex)];
    return Ok((ToHexString(tagBytes), |tagBytes|));
  }

  /** `readLength(bytes, startIndex)`, its loop accumulating the exact big-endian value. */
  method ReadLength(bytes: seq<Byte>, startIndex: nat) returns (r: Result<(nat, nat), TlvParseError>)
    ensures r == ReadLengthAt(bytes, startIndex)
  {
    if startIndex >= |bytes| {
      return Err(MalformedTlv(EndOfLengthMessage));
    }
    var firstByte := ToUnsignedInt(bytes[startIndex]);
    if firstByte < 0x80 {
      return Ok((firstByte, 1));
    }
    var numLengthBytes := firstByte - 0x80;
    if numLengthBytes == 0 {
      return Err(MalformedTlv(IndefiniteLengthMessage));
    }
    if startIndex + numLengthBytes >= |bytes| {
      return Err(MalformedTlv(ShortLengthMessage));
    }
    var length := 0;
    for i := 1 to numLengthBytes + 1
      invariant length == BigEndianAt(bytes, startIndex + 1, startIndex + i)
    {
      length := length * 256 + ToUnsignedInt(bytes[startIndex + i]);
    }
    return Ok((length, 1 + numLengthBytes));
  }

  /**
   * One turn of the `parse(ByteArray)` loop: read the tag and the length at `index`,
   * refuse a value that runs past the end, and copy the value out. The result is the
   * record and the index after it, or the exception the turn throws.
   */
  method ReadRecord(bytes: seq<Byte>, index: nat) returns (r: Result<(Tlv, nat), TlvParseError>)
    requires index < |bytes|
    ensures r.Err? <==> ReadElement(bytes, index).Err?
    ensures r.Err? ==> r.error == Report(ReadElement(bytes, index).error)
    ensures r.Ok? ==> r.value == (ReadElement(bytes, index).value.ToTlv(), index + |ReadElement(bytes, index).value.Encoding()|)
  {
    var tag := ReadTag(bytes, index);
    if tag.Err? {
      ElementRefusedTag(bytes, index);
      return Err(tag.error);
    }
    var consumedTag := tag.value.1;
    var len := ReadLength(bytes, index + consumedTag);
    if len.Err? {
      ElementRefusedLength(bytes, index, consumedTag);
      return Err(len.error);
    }
    var length, consumedLength := len.value.0, len.value.1;
    var valueStart := index + consumedTag + consumedLength;
    var valueEnd := valueStart + length;
    if valueEnd > |bytes| {
      ElementOverrun(bytes, index, consumedTag, length, consumedLength);
      return Err(MalformedTlv(OverrunMessage(tag.value.0)));
    }
    var value := bytes[valueStart..valueEnd];
    ReadElementOf(bytes, index, consumedTag, length, consumedLength);
    CutRecord(bytes, index, consumedTag, consumedLength, length);
    return Ok((Tlv(tag.value.0, length, value), valueEnd));
  }

  /**
   * One turn of the `parse(ByteArray)` loop, seen from the walk so far: a thrown exception
   * is the outcome of the whole parse, and a record extends the walk by its element.
   */
  method Advance(bytes: seq<Byte>, index: nat, ghost taken: seq<Element>) returns (r: Result<(Tlv, nat), TlvParseError>, ghost e: Element)
    requires index < |bytes| && Walked(bytes, index, taken)
    ensures r.Err? ==> Decode(bytes) == Err(r.error)
    ensures r.Ok? ==> index < r.value.1 <= |bytes| && r.value == (e.ToTlv(), index + |e.Encoding()|)
    ensures r.Ok? ==> Walked(bytes, r.value.1, taken + [e])
  {
    r := ReadRecord(bytes, index);
    if r.Err? {
      WalkFails(bytes, index, taken);
      e := Element([], [], []);
    } else {
      e := ReadElement(bytes, index).value;
      assert r.value == (e.ToTlv(), index + |e.Encoding()|);
      WalkStep(bytes, index, taken, e, r.value.1);
    }
  }

  /** `parse(ByteArray)`: the index walk, proved to compute `Decode`. */
  method Parse(bytes: seq<Byte>) returns (r: Result<seq<Tlv>, TlvParseError>)
    ensures r == Decode(bytes)
  {
    var result: seq<Tlv> := [];
    ghost var taken: seq<Element> := [];
    var index := 0;
    while index < |bytes|
      invariant 0 <= index <= |bytes|
      invariant Walked(bytes, index, taken)
      invariant result == ToTlvs(taken)
      decreases |bytes| - index
    {
      var step, e := Advance(bytes, index, taken);
      if step.Err? {
        return Err(step.error);
      }
      ToTlvsSnoc(taken, e);
      result := result + [step.value.0];
      taken := taken + [e];
      index := step.value.1;
    }
    WalkDone(bytes, taken);
    return Ok(result);
  }

  lemma ElementRefusedTag(bytes: seq<Byte>, index: nat)
    requires index < |bytes| && TagSpan(bytes, index).Err?
    ensures ReadElement(bytes, index) == Err(Refused(TagSpan(bytes, index).error))
  {
  }

  lemma ElementRefusedLength(bytes: seq<Byte>, index: nat, ct: nat)
    requires index < |bytes| && TagSpan(bytes, index) == Ok(ct) && ReadLengthAt(bytes, index + ct).Err?
    ensures ReadElement(bytes, index) == Err(Refused(ReadLengthAt(bytes, index + ct).error))
  {
  }

  lemma ElementOverrun(bytes: seq<Byte>, index: nat, ct: nat, len: nat, cl: nat)
    requires index < |bytes| && TagSpan(bytes, index) == Ok(ct)
    requires ReadLengthAt(bytes, index + ct) == Ok((len, cl)) && index + ct + cl + len > |bytes|
    ensures index + ct <= |bytes| && ReadElement(bytes, index) == Err(Overrun(bytes[index..index + ct]))
  {
  }

  /** The record of a cut element: the tag bytes' text, the value's length, the value. */
  lemma CutRecord(bytes: seq<Byte>, index: nat, ct: nat, cl: nat, len: nat)
    requires index + ct + cl + len <= |bytes|
    ensures index + |Cut(bytes, index, ct, cl, len).Encoding()| == index + ct + cl + len
    ensures Cut(bytes, index, ct, cl, len).ToTlv() ==
      Tlv(ToHexString(bytes[index..index + ct]), len, bytes[index + ct + cl..index + ct + cl + len])
  {
  }

  /**
   * The walk has taken `taken` so far and stands at `index`: each element was read where
   * the one before it ended, starting from the first byte.
   */
  ghost predicate Walked(bytes: seq<Byte>, index: nat, taken: seq<Element>)
    decreases |taken|, 1
  {
    if taken == [] then index == 0 else WalkedLast(bytes, index, taken)
  }

  /** The last element taken was read where the walk before it stood. */
  ghost predicate WalkedLast(bytes: seq<Byte>, index: nat, taken: seq<Element>)
    requires taken != []
    decreases |taken|, 0
  {
    var prev := index - |taken[|taken| - 1].Encoding()|;
    0 <= prev < |bytes| && ReadElement(bytes, prev) == Ok(taken[|taken| - 1]) &&
    Walked(bytes, prev, taken[..|taken| - 1])
  }

  /** A non-empty sequence is its front followed by its last element. */
  lemma SplitLast(es: seq<Element>)
    requires es != []
    ensures es == es[..|es| - 1] + [es[|es| - 1]]
  {
  }

  /** A walk that has taken `taken` and stands at `index` is on its way to the whole walk's outcome. */
  lemma {:induction false} WalkedScan(bytes: seq<Byte>, index: nat, taken: seq<Element>)
    requires index <= |bytes| && Walked(bytes, index, taken)
    ensures Scan(bytes, 0) == Prepend(taken, Scan(bytes, index))
    decreases |taken|
  {
    if taken == [] {
      PrependNothing(Scan(bytes, 0));
    } else {
      var last, before := taken[|taken| - 1], taken[..|taken| - 1];
      var prev := index - |last.Encoding()|;
      WalkedScan(bytes, prev, before);
      ScanExtends(bytes, prev, before, last, index);
      SplitLast(taken);
    }
  }

  /** The walk so far, extended by the element read where it stands. */
  lemma ScanExtends(bytes: seq<Byte>, prev: nat, before: seq<Element>, last: Element, index: nat)
    requires prev < |bytes| && ReadElement(bytes, prev) == Ok(last) && index == prev + |last.Encoding()|
    requires Scan(bytes, 0) == Prepend(before, Scan(bytes, prev))
    ensures Scan(bytes, 0) == Prepend(before + [last], Scan(bytes, index))
  {
    ScanStep(bytes, prev, last);
    PrependOne(before, last, Scan(bytes, index));
  }

  /** A refused element ends the whole parse with the exception it reports. */
  lemma WalkFails(bytes: seq<Byte>, index: nat, taken: seq<Element>)
    requires index < |bytes| && Walked(bytes, index, taken)
    requires ReadElement(bytes, index).Err?
    ensures Decode(bytes) == Err(Report(ReadElement(bytes, index).error))
  {
    WalkedScan(bytes, index, taken);
    ScanFails(bytes, index);
  }

  /** A taken element joins the walk so far, and the walk goes on after it. */
  lemma WalkStep(bytes: seq<Byte>, index: nat, taken: seq<Element>, e: Element, next: nat)
    requires index < |bytes| && ReadElement(bytes, index) == Ok(e) && Walked(bytes, index, taken)
    requires next == index + |e.Encoding()|
    ensures Walked(bytes, next, taken + [e])
  {
    assert (taken + [e])[..|taken|] == taken;
  }

  /** A walk that reaches the end has taken every element. */
  lemma WalkDone(bytes: seq<Byte>, taken: seq<Element>)
    requires Walked(bytes, |bytes|, taken)
    ensures Decode(bytes) == Ok(ToTlvs(taken))
  {
    WalkedScan(bytes, |bytes|, taken);
    assert taken + [] == taken;
  }

  lemma PrependNothing(r: Result<seq<Element>, ScanError>)
    ensures Prepend([], r) == r
  {
    if r.Ok? {
      assert [] + r.value == r.value;
    }
  }

  lemma PrependOne(acc: seq<Element>, e: Element, r: Result<seq<Element>, ScanError>)
    ensures Prepend(acc, Prepend([e], r)) == Prepend(acc + [e], r)
  {
    if r.Ok? {
      assert acc + ([e] + r.value) == acc + [e] + r.value;
    }
  }

  lemma {:induction false} ToTlvsSnoc(es: seq<Element>, e: Element)
    ensures ToTlvs(es + [e]) == ToTlvs(es) + [e.ToTlv()]
  {
    if es == [] {
      assert es + [e] == [e];
    } else {
      ToTlvsSnoc(es[1..], e);
      assert (es + [e])[0] == es[0] && (es + [e])[1..] == es[1..] + [e];
    }
  }

  /** `parse(String)`. */
  method ParseHex(hexInput: string) returns (r: Result<seq<Tlv>, TlvParseError>)
    ensures r == ParseHexSpec(hexInput)
  {
    if IsBlank(hexInput) {
      return Ok([]);
    }
    var bytes := ToByteArrayOrThrow(hexInput);
    if bytes.Err? {
      return Err(bytes.error);
    }
    r := Parse(bytes.value);
  }
}
