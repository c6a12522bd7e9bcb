/**
 * `parse(ByteArray)` exactly as its 32-bit arithmetic behaves: the long-form length is
 * accumulated in an `Int` by `(length shl 8) or byte`, and `valueStart + length` is an
 * `Int` addition. Lengths of 2^31 and more wrap, so the walk either accepts a record
 * whose declared length does not fit the input or lets `copyOfRange` throw
 * `IllegalArgumentException`. `TlvParser.Decode` is the intended behaviour; this module
 * records where the two part.
 */
module TlvAsWritten {
  import opened Wrappers
  import opened Jvm
  import opened TlvModels
  import opened TlvParser

  /** What escapes `parse`: its own exception, or the one `copyOfRange` throws for `from > to`. */
  datatype Thrown = TlvException(error: TlvParseError) | IllegalArgument

  /** Why a turn as written stops the walk: as the exact walk would, or in `copyOfRange`. */
  datatype Halt = Stopped(reason: ScanError) | CopyRangeRefused

  /** One turn as written: the tag bytes, the declared `Int` length, the copied value, the next index. */
  datatype Turn = Turn(tagBytes: seq<Byte>, length: int, value: seq<Byte>, next: nat) {

    function ToTlv(): Tlv {
      Tlv(ToHexString(tagBytes), length, value)
    }
  }

  /** The `readLength` loop in `Int`: `length = (length shl 8) or bytes[i].toUnsignedInt()`. */
  function BigEndian32At(bytes: seq<Byte>, lo: nat, hi: nat): (v: int)
    requires lo <= hi <= |bytes|
    ensures INT_MIN <= v <= INT_MAX
    decreases hi - lo
  {
    if lo == hi then 0 else Wrap32(256 * BigEndian32At(bytes, lo, hi - 1) + ToUnsignedInt(bytes[hi - 1]))
  }

  /** `Wrap32(x)` differs from `x` by a whole number of 2^32. */
  lemma Wrap32Offset(x: int) returns (k: int)
    ensures Wrap32(x) == x + k * TWO_POW_32
  {
    var q := x / TWO_POW_32;
    if x % TWO_POW_32 <= INT_MAX {
      k := -q;
    } else {
      k := -q - 1;
    }
  }

  /** Numbers that differ by a whole number of 2^32 wrap alike. */
  lemma Wrap32Congruent(a: int, b: int, j: int)
    requires a == b + j * TWO_POW_32
    ensures Wrap32(a) == Wrap32(b)
  {
    assert a % TWO_POW_32 == b % TWO_POW_32 by {
      ModShift(b, j);
    }
  }

  lemma ModShift(b: int, j: int)
    ensures (b + j * TWO_POW_32) % TWO_POW_32 == b % TWO_POW_32
  {
    var q, r := b / TWO_POW_32, b % TWO_POW_32;
    assert b + j * TWO_POW_32 == (q + j) * TWO_POW_32 + r;
  }

  /** The `Int` the loop builds is the exact big-endian number taken modulo 2^32. */
  lemma {:induction false} BigEndian32AtWraps(bytes: seq<Byte>, lo: nat, hi: nat)
    requires lo <= hi <= |bytes|
    ensures BigEndian32At(bytes, lo, hi) == Wrap32(BigEndianAt(bytes, lo, hi))
    decreases hi - lo
  {
    if lo < hi {
      BigEndian32AtWraps(bytes, lo, hi - 1);
      var x, u := BigEndianAt(bytes, lo, hi - 1), ToUnsignedInt(bytes[hi - 1]);
      var k := Wrap32Offset(x);
      Wrap32Congruent(256 * Wrap32(x) + u, 256 * x + u, 256 * k);
    }
  }

  /** `readLength` as written: the same checks, the length accumulated in an `Int`. */
  function ReadLengthAsWritten(bytes: seq<Byte>, start: nat): (r: Result<(int, nat), TlvParseError>)
    ensures r.Ok? ==> 1 <= r.value.1 && start + r.value.1 <= |bytes|
  {
    if start >= |bytes| then Err(MalformedTlv(EndOfLengthMessage))
    else
      var first := ToUnsignedInt(bytes[start]);
      if first < 0x80 then Ok((first, 1))
      else
        var count := first - 0x80;
        if count == 0 then Err(MalformedTlv(IndefiniteLengthMessage))
        else if start + count >= |bytes| then Err(MalformedTlv(ShortLengthMessage))
        else Ok((BigEndian32At(bytes, start + 1, start + count + 1), count + 1))
  }

  /** The as-written length read refuses exactly what the exact one refuses, and wraps what it accepts. */
  lemma ReadLengthAsWrittenWraps(bytes: seq<Byte>, start: nat)
    ensures ReadLengthAt(bytes, start).Err? ==> ReadLengthAsWritten(bytes, start) == ReadLengthAt(bytes, start)
    ensures ReadLengthAt(bytes, start).Ok? ==>
      ReadLengthAsWritten(bytes, start) == Ok((Wrap32(ReadLengthAt(bytes, start).value.0), ReadLengthAt(bytes, start).value.1))
  {
    if start < |bytes| && ToUnsignedInt(bytes[start]) > 0x80 && start + ToUnsignedInt(bytes[start]) - 0x80 < |bytes| {
      var count := ToUnsignedInt(bytes[start]) - 0x80;
      BigEndian32AtWraps(bytes, start + 1, start + count + 1);
    }
  }

  /** `a + b` on two `Int`s: the sum, wrapped once if it leaves the `Int` range. */
  function AddInt(a: int, b: int): int
    requires INT_MIN <= a <= INT_MAX && INT_MIN <= b <= INT_MAX
  {
    var sum := a + b;
    if sum > INT_MAX then sum - TWO_POW_32 else if sum < INT_MIN then sum + TWO_POW_32 else sum
  }

  lemma AddIntWraps(a: int, b: int)
    requires INT_MIN <= a <= INT_MAX && INT_MIN <= b <= INT_MAX
    ensures AddInt(a, b) == Wrap32(a + b)
  {
    if a + b > INT_MAX {
      Wrap32Congruent(a + b, a + b - TWO_POW_32, 1);
    } else if a + b < INT_MIN {
      Wrap32Congruent(a + b, a + b + TWO_POW_32, -1);
    }
  }

  /** A length the exact read accepts and that fits in an `Int` is read alike as written. */
  lemma ReadLengthAsWrittenOf(bytes: seq<Byte>, start: nat, len: nat, cl: nat)
    requires ReadLengthAt(bytes, start) == Ok((len, cl)) && len <= INT_MAX
    ensures ReadLengthAsWritten(bytes, start) == Ok((len, cl))
  {
    ReadLengthAsWrittenWraps(bytes, start);
    Wrap32Small(len);
  }

  lemma Wrap32Small(x: int)
    requires INT_MIN <= x <= INT_MAX
    ensures Wrap32(x) == x
  {
    Wrap32Congruent(x, x % TWO_POW_32, x / TWO_POW_32);
  }

  /**
   * One turn of the `parse` loop as written. `valueEnd` is an `Int` sum, so a wrapped
   * negative length makes it fall below `valueStart`, where `copyOfRange` throws.
   */
  function StepAsWritten(bytes: seq<Byte>, index: nat): (r: Result<Turn, Halt>)
    requires index < |bytes| <= INT_MAX
    ensures r.Ok? ==> index < r.value.next <= |bytes|
  {
    match TagSpan(bytes, index)
    case Err(e) => Err(Stopped(Refused(e)))
    case Ok(ct) =>
      match ReadLengthAsWritten(bytes, index + ct)
      case Err(e) => Err(Stopped(Refused(e)))
      case Ok((length, cl)) =>
        var valueStart := index + ct + cl;
        var valueEnd := AddInt(valueStart, length);
        if valueEnd > |bytes| then Err(Stopped(Overrun(bytes[index..index + ct])))
        else if valueEnd < valueStart then Err(CopyRangeRefused)
        else Ok(Turn(bytes[index..index + ct], length, bytes[valueStart..valueEnd], valueEnd))
  }

  /** The `parse` loop as written, from `index` on: the records it builds, or why it stops. */
  function WalkAsWritten(bytes: seq<Byte>, index: nat): Result<seq<Tlv>, Halt>
    requires index <= |bytes| <= INT_MAX
    decreases |bytes| - index, 1
  {
    if index == |bytes| then Ok([]) else WalkStepAsWritten(bytes, index)
  }

  /** The loop as written at an index where input remains: a turn, then the walk after it. */
  function WalkStepAsWritten(bytes: seq<Byte>, index: nat): Result<seq<Tlv>, Halt>
    requires index < |bytes| <= INT_MAX
    decreases |bytes| - index, 0
  {
    var turn :- StepAsWritten(bytes, index);
    var rest :- WalkAsWritten(bytes, turn.next);
    Ok([turn.ToTlv()] + rest)
  }

  /** `parse(ByteArray)` as written: the records, or the exception that escapes. */
  function DecodeAsWritten(bytes: seq<Byte>): Result<seq<Tlv>, Thrown>
    requires |bytes| <= INT_MAX
  {
    match WalkAsWritten(bytes, 0)
    case Ok(ts) => Ok(ts)
    case Err(Stopped(e)) => Err(TlvException(Report(e)))
    case Err(CopyRangeRefused) => Err(IllegalArgument)
  }

  /** A turn as written whose length fits the input copies the value out and moves past it. */
  lemma StepOfParts(bytes: seq<Byte>, index: nat, ct: nat, cl: nat, len: nat)
    requires index < |bytes| <= INT_MAX && TagSpan(bytes, index) == Ok(ct)
    requires ReadLengthAsWritten(bytes, index + ct) == Ok((len, cl)) && index + ct + cl + len <= |bytes|
    ensures StepAsWritten(bytes, index) ==
      Ok(Turn(bytes[index..index + ct], len, bytes[index + ct + cl..index + ct + cl + len], index + ct + cl + len))
  {
  }

  /** Where the exact walk reads an element, the walk as written takes the same turn. */
  lemma StepAgrees(bytes: seq<Byte>, index: nat, ct: nat, cl: nat, len: nat)
    requires index < |bytes| <= INT_MAX && TagSpan(bytes, index) == Ok(ct)
    requires ReadLengthAt(bytes, index + ct) == Ok((len, cl)) && index + ct + cl + len <= |bytes|
    ensures StepAsWritten(bytes, index) == Ok(Turn(Cut(bytes, index, ct, cl, len).tagBytes, len,
      Cut(bytes, index, ct, cl, len).value, index + ct + cl + len))
  {
    ReadLengthAsWrittenOf(bytes, index + ct, len, cl);
    StepOfParts(bytes, index, ct, cl, len);
  }

  /** The exact walk from `index` reads the elements `es`. */
  predicate ScansTo(bytes: seq<Byte>, index: nat, es: seq<Element>)
    requires index <= |bytes|
  {
    Scan(bytes, index) == Ok(es)
  }

  /** The walk as written from `index` builds the records `ts`. */
  predicate WalksTo(bytes: seq<Byte>, index: nat, ts: seq<Tlv>)
    requires index <= |bytes| <= INT_MAX
  {
    WalkAsWritten(bytes, index) == Ok(ts)
  }

  /**
   * A successful exact walk from `index`: its first element and the elements after it;
   * wherever the walk as written succeeds after that element, it succeeds from `index`.
   */
  lemma ScanNextAsWritten(bytes: seq<Byte>, index: nat, es: seq<Element>) returns (e: Element, rest: seq<Element>)
    requires index < |bytes| <= INT_MAX && ScansTo(bytes, index, es)
    ensures index + |e.Encoding()| <= |bytes| && es == [e] + rest
    ensures ScansTo(bytes, index + |e.Encoding()|, rest)
  {
    e, rest := ScanNext(bytes, index);
  }

  /** The walk as written takes an exactly read element's turn and goes on after it. */
  lemma WalkNextAsWritten(bytes: seq<Byte>, index: nat, e: Element, rest: seq<Element>, ts: seq<Tlv>)
    requires index < |bytes| <= INT_MAX && ScansTo(bytes, index, [e] + rest)
    requires index + |e.Encoding()| <= |bytes| && WalksTo(bytes, index + |e.Encoding()|, ts)
    ensures WalksTo(bytes, index, [e.ToTlv()] + ts)
  {
    var first, _ := ScanNext(bytes, index);
    assert first == ([e] + rest)[0] == e;
    var ct, cl, len := ReadElementParts(bytes, index, e);
    CutSlices(bytes, index, ct, cl, len);
    StepAgrees(bytes, index, ct, cl, len);
    var turn := Turn(e.tagBytes, len, e.value, index + ct + cl + len);
    assert turn.ToTlv() == e.ToTlv();
    WalkAfterTurn(bytes, index, turn, ts);
  }

  /** A turn as written followed by a successful walk from where it stops. */
  lemma WalkAfterTurn(bytes: seq<Byte>, index: nat, turn: Turn, ts: seq<Tlv>)
    requires index < |bytes| <= INT_MAX && StepAsWritten(bytes, index) == Ok(turn)
    requires turn.next <= |bytes| && WalksTo(bytes, turn.next, ts)
    ensures WalksTo(bytes, index, [turn.ToTlv()] + ts)
  {
  }

  /** Wherever the exact walk succeeds, the walk as written returns the same records. */
  lemma {:induction false} ScanAgrees(bytes: seq<Byte>, index: nat, es: seq<Element>)
    requires index <= |bytes| <= INT_MAX && ScansTo(bytes, index, es)
    ensures WalksTo(bytes, index, ToTlvs(es))
    decreases |bytes| - index
  {
    if index < |bytes| {
      var e, rest := ScanNextAsWritten(bytes, index, es);
      ScanAgrees(bytes, index + |e.Encoding()|, rest);
      ToTlvsCons(e, rest);
      WalkNextAsWritten(bytes, index, e, rest, ToTlvs(rest));
    }
  }

  lemma ToTlvsCons(e: Element, rest: seq<Element>)
    ensures ToTlvs([e] + rest) == [e.ToTlv()] + ToTlvs(rest)
  {
    assert ([e] + rest)[1..] == rest;
  }

  /** Every input the exact parser accepts, the source accepts with the same records. */
  lemma DecodeAgrees(bytes: seq<Byte>)
    requires |bytes| <= INT_MAX && Decode(bytes).Ok?
    ensures DecodeAsWritten(bytes) == Ok(Decode(bytes).value)
  {
    ScanAgrees(bytes, 0, Scan(bytes, 0).value);
  }

  /** Tag 01, long-form length of five bytes spelling 2^32, and no value. */
  const WrappedLengthInput: seq<Byte> := [0x01, -123, 0x01, 0x00, 0x00, 0x00, 0x00]

  /** Tag 01, long-form length of four bytes spelling 2^31, and no value. */
  const NegativeLengthInput: seq<Byte> := [0x01, -124, -128, 0x00, 0x00, 0x00]

  /** The tag text of the byte 01. */
  lemma TagTextOne()
    ensures ToHexString([0x01]) == "01"
  {
    ToHexStringOfByte(0x01);
  }

  /**
   * A length of 2^32 wraps to 0 in the source, which returns an empty record for tag 01;
   * the exact parser reports that the declared length exceeds the input.
   */
  lemma WrappedLengthAccepted()
    ensures DecodeAsWritten(WrappedLengthInput) == Ok([Tlv("01", 0, [])])
    ensures Decode(WrappedLengthInput) == Err(MalformedTlv(OverrunMessage("01")))
  {
    var b := WrappedLengthInput;
    TagTextOne();
    assert b[0..1] == [0x01];
    assert TagSpan(b, 0) == Ok(1);
    assert BigEndianAt(b, 2, 7) == 0x1_0000_0000;
    assert ReadLengthAt(b, 1) == Ok((0x1_0000_0000, 6));
    ReadLengthAsWrittenWraps(b, 1);
    assert ReadLengthAsWritten(b, 1) == Ok((0, 6));
    StepOfParts(b, 0, 1, 6, 0);
    assert b[7..7] == [];
    var turn := Turn([0x01], 0, [], 7);
    assert StepAsWritten(b, 0) == Ok(turn);
    assert turn.ToTlv() == Tlv("01", 0, []);
    assert WalkAsWritten(b, 7) == Ok([]);
    assert WalkStepAsWritten(b, 0) == Ok([turn.ToTlv()] + []);
    assert [turn.ToTlv()] + [] == [Tlv("01", 0, [])];
    assert WalkAsWritten(b, 0) == Ok([Tlv("01", 0, [])]);
    assert ReadElement(b, 0) == Err(Overrun([0x01]));
    assert ScanElement(b, 0) == Err(Overrun([0x01]));
  }

  /**
   * A length of 2^31 wraps to a negative `Int`; `valueEnd` falls below `valueStart` and
   * `copyOfRange` throws `IllegalArgumentException` instead of the parser's own exception.
   */
  lemma NegativeLengthEscapes()
    ensures DecodeAsWritten(NegativeLengthInput) == Err(IllegalArgument)
    ensures Decode(NegativeLengthInput) == Err(MalformedTlv(OverrunMessage("01")))
  {
    var b := NegativeLengthInput;
    TagTextOne();
    assert b[0..1] == [0x01];
    assert TagSpan(b, 0) == Ok(1);
    assert BigEndianAt(b, 2, 6) == 0x8000_0000;
    assert ReadLengthAt(b, 1) == Ok((0x8000_0000, 5));
    ReadLengthAsWrittenWraps(b, 1);
    assert ReadLengthAsWritten(b, 1) == Ok((-0x8000_0000, 5));
    assert StepAsWritten(b, 0) == Err(CopyRangeRefused);
    assert WalkStepAsWritten(b, 0) == Err(CopyRangeRefused);
    assert ReadElement(b, 0) == Err(Overrun([0x01]));
    assert ScanElement(b, 0) == Err(Overrun([0x01]));
  }
}
