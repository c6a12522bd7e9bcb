/**
 * `ui/NfcViewModel.kt`: the reader screen's state machine. Availability, reader-mode
 * and card events move the status; a captured TLV payload is parsed, interpreted and
 * filtered down to a few safe tags before it is stored; the stored entries can be
 * rendered as share text.
 */
module ViewModel {
  import opened Wrappers
  import opened Jvm
  import opened TlvModels
  import TlvParser
  import TagInterpreter
  import opened EmvLog
  import opened LogRepository
  import NfcReader

  /** The only tags a log entry keeps: DF name, application label, amount, currency. */
  const AllowedTags: set<string> := {"84", "50", "9F02", "5F2A"}

  const NoSupportedTagsMessage: string := "No supported tags found in TLV response"
  const FallbackMessage: string := "Failed to parse TLV data"

  datatype ReaderStatus = Idle | WaitingForCard | Reading | Completed | Error

  datatype ReaderUiState = ReaderUiState(
    status: ReaderStatus,
    logs: seq<EmvLogEntry>,
    message: Option<string>,
    nfcAvailable: bool,
    verbose: bool,
    latestTlvDump: seq<LogField>)

  /** `ReaderUiState()` with every default. */
  const InitialState: ReaderUiState := ReaderUiState(Idle, [], None, true, false, [])

  // ---------------------------------------------------------------- transitions

  /** Everything that updates `_uiState`, one constructor per `update { it.copy(...) }`. */
  datatype UiInput =
    | AvailabilityChanged(available: bool)
    | ReaderModeEnabled
    | ReaderModeDisabled
    | CardIdle
    | CardReading
    | CardError(message: string)
    | LogPersisted(fields: seq<LogField>)
    | LogFailed(message: string)
    | LogsCleared
    | VerboseToggled
    | LogsChanged(entries: seq<EmvLogEntry>)

  function AfterAvailabilityChanged(s: ReaderUiState, available: bool): ReaderUiState {
    s.(nfcAvailable := available, status := if available then WaitingForCard else Idle, message := None)
  }

  function AfterReaderModeEnabled(s: ReaderUiState): ReaderUiState {
    s.(status := WaitingForCard, message := None)
  }

  function AfterReaderModeDisabled(s: ReaderUiState): ReaderUiState {
    s.(status := Idle)
  }

  /** A card event that only moves the status: idle, reading, or an error with its message. */
  function AfterStatus(s: ReaderUiState, status: ReaderStatus, message: Option<string>): ReaderUiState {
    s.(status := status, message := message)
  }

  function AfterLogPersisted(s: ReaderUiState, fields: seq<LogField>): ReaderUiState {
    s.(status := Completed, message := None, latestTlvDump := if s.verbose then fields else s.latestTlvDump)
  }

  function AfterLogsCleared(s: ReaderUiState): ReaderUiState {
    s.(status := WaitingForCard, message := None, latestTlvDump := [])
  }

  function AfterVerboseToggled(s: ReaderUiState): ReaderUiState {
    s.(verbose := !s.verbose, latestTlvDump := if !s.verbose then s.latestTlvDump else [])
  }

  function AfterLogsChanged(s: ReaderUiState, entries: seq<EmvLogEntry>): ReaderUiState {
    s.(logs := entries)
  }

  function Next(s: ReaderUiState, input: UiInput): ReaderUiState {
    match input
    case AvailabilityChanged(a) => AfterAvailabilityChanged(s, a)
    case ReaderModeEnabled => AfterReaderModeEnabled(s)
    case ReaderModeDisabled => AfterReaderModeDisabled(s)
    case CardIdle => AfterStatus(s, WaitingForCard, None)
    case CardReading => AfterStatus(s, Reading, None)
    case CardError(m) => AfterStatus(s, Error, Some(m))
    case LogPersisted(fields) => AfterLogPersisted(s, fields)
    case LogFailed(m) => AfterStatus(s, Error, Some(m))
    case LogsCleared => AfterLogsCleared(s)
    case VerboseToggled => AfterVerboseToggled(s)
    case LogsChanged(entries) => AfterLogsChanged(s, entries)
  }

  /** The state after a run of inputs, in order. */
  function Run(s: ReaderUiState, inputs: seq<UiInput>): ReaderUiState
    decreases |inputs|
  {
    if inputs == [] then s else Run(Next(s, inputs[0]), inputs[1..])
  }

  /**
   * What every reachable state satisfies: the field dump is empty unless verbose mode
   * is on, an error always carries a message, and a message is only left standing on an
   * error or after reader mode was switched off.
   */
  predicate Consistent(s: ReaderUiState) {
    && (!s.verbose ==> s.latestTlvDump == [])
    && (s.status == Error ==> s.message.Some?)
    && (s.message.Some? ==> s.status == Error || s.status == Idle)
  }

  lemma NextKeepsConsistent(s: ReaderUiState, input: UiInput)
    requires Consistent(s)
    ensures Consistent(Next(s, input))
  {
  }

  /** Every state the screen can reach from its initial state is consistent. */
  lemma {:induction false} RunKeepsConsistent(s: ReaderUiState, inputs: seq<UiInput>)
    requires Consistent(s)
    ensures Consistent(Run(s, inputs))
    decreases |inputs|
  {
    if inputs != [] {
      NextKeepsConsistent(s, inputs[0]);
      RunKeepsConsistent(Next(s, inputs[0]), inputs[1..]);
    }
  }

  lemma ReachableIsConsistent(inputs: seq<UiInput>)
    ensures Consistent(Run(InitialState, inputs))
  {
    RunKeepsConsistent(InitialState, inputs);
  }

  /**
   * Toggling verbose mode twice restores the flag but not the dump: whichever way round,
   * one of the two toggles turned it off and emptied the dump.
   */
  lemma ToggleTwice(s: ReaderUiState)
    ensures Next(Next(s, VerboseToggled), VerboseToggled) == s.(latestTlvDump := [])
  {
  }

  /** The mapping of a reader event (other than a payload) to a state update. */
  function EventInput(event: NfcReader.NfcEvent): (input: UiInput)
    requires !event.Payload?
    ensures event.Idle? <==> input == CardIdle
    ensures event.Reading? <==> input == CardReading
    ensures event.Error? <==> input.CardError?
    ensures event.Error? ==> input.message == event.message
  {
    if event.Idle? then CardIdle
    else if event.Reading? then CardReading
    else CardError(event.message)
  }

  // ---------------------------------------------------------------- log entries

  /** Why `buildLogEntry` throws: the parser, the interpreter, or no allowed tag. */
  datatype LogFailure =
    | ParseFailed(parseError: TlvParseError)
    | InterpretFailed(interpretError: TagInterpreter.InterpretError)
    | NoSupportedTags

  predicate Allowed(p: ParsedField) {
    Uppercase(p.tlv.tag) in AllowedTags
  }

  function LogFieldOf(p: ParsedField): LogField {
    LogField(Uppercase(p.tlv.tag), p.tlv.HexValue(), p.interpretation)
  }

  /** The allowed fields, in order, as log fields. */
  function LoggedFields(ps: seq<ParsedField>): (fs: seq<LogField>)
    ensures |fs| <= |ps|
  {
    if ps == [] then [] else (if Allowed(ps[0]) then [LogFieldOf(ps[0])] else []) + LoggedFields(ps[1..])
  }

  /** A field is logged exactly when some allowed record gives rise to it. */
  lemma {:induction false} LoggedFieldsSpec(ps: seq<ParsedField>, f: LogField)
    ensures f in LoggedFields(ps) <==> exists i :: 0 <= i < |ps| && Allowed(ps[i]) && LogFieldOf(ps[i]) == f
  {
    if ps != [] {
      LoggedFieldsSpec(ps[1..], f);
      if f in LoggedFields(ps[1..]) {
        var i :| 0 <= i < |ps[1..]| && Allowed(ps[1..][i]) && LogFieldOf(ps[1..][i]) == f;
        assert ps[i + 1] == ps[1..][i];
      }
      if exists i :: 0 <= i < |ps| && Allowed(ps[i]) && LogFieldOf(ps[i]) == f {
        var i :| 0 <= i < |ps| && Allowed(ps[i]) && LogFieldOf(ps[i]) == f;
        if i > 0 {
          assert ps[1..][i - 1] == ps[i];
        }
      }
    }
  }

  /** Nothing is logged exactly when no record has an allowed tag. */
  lemma LoggedFieldsEmpty(ps: seq<ParsedField>)
    ensures LoggedFields(ps) == [] <==> forall i :: 0 <= i < |ps| ==> !Allowed(ps[i])
  {
    if LoggedFields(ps) != [] {
      LoggedFieldsSpec(ps, LoggedFields(ps)[0]);
    }
    if exists i :: 0 <= i < |ps| && Allowed(ps[i]) {
      var i :| 0 <= i < |ps| && Allowed(ps[i]);
      LoggedFieldsSpec(ps, LogFieldOf(ps[i]));
    }
  }

  /** Filtering keeps order: the fields of a concatenation are the concatenated fields. */
  lemma {:induction false} LoggedFieldsConcat(a: seq<ParsedField>, b: seq<ParsedField>)
    ensures LoggedFields(a + b) == LoggedFields(a) + LoggedFields(b)
  {
    if a != [] {
      var head: seq<LogField> := if Allowed(a[0]) then [LogFieldOf(a[0])] else [];
      assert (a + b)[0] == a[0] && (a + b)[1..] == a[1..] + b;
      LoggedFieldsConcat(a[1..], b);
      assert LoggedFields(a + b) == head + (LoggedFields(a[1..]) + LoggedFields(b));
      assert LoggedFields(a) == head + LoggedFields(a[1..]);
    } else {
      assert a + b == b;
    }
  }

  /** The PAN and the Track 2 equivalent data are never logged. */
  lemma CardDataNeverLogged(ps: seq<ParsedField>, f: LogField)
    requires f in LoggedFields(ps)
    ensures f.tag in AllowedTags
    ensures f.tag != TagInterpreter.PanTag && f.tag != TagInterpreter.Track2Tag
  {
    LoggedFieldsSpec(ps, f);
  }

  /** Every interpreted record, allowed or not, as a log field: the verbose dump. */
  function DumpFields(ps: seq<ParsedField>): (fs: seq<LogField>)
    ensures |fs| == |ps| && forall i :: 0 <= i < |ps| ==> fs[i] == LogFieldOf(ps[i])
  {
    seq(|ps|, i requires 0 <= i < |ps| => LogFieldOf(ps[i]))
  }

  /**
   * `buildLogEntry`: parse, interpret, keep the allowed fields; the entry stamped with
   * the clock reading `now` and the id `id`, together with the full field dump.
   */
  function BuildLogEntry(hex: string, source: LogSource, id: string, now: int)
    : (r: Result<(EmvLogEntry, seq<LogField>), LogFailure>)
  {
    match TlvParser.ParseHexSpec(hex)
    case Err(e) => Err(ParseFailed(e))
    case Ok(tlvs) =>
      match TagInterpreter.InterpretAll(tlvs)
      case Err(e) => Err(InterpretFailed(e))
      case Ok(interpreted) =>
        var fields := LoggedFields(interpreted);
        if fields == [] then Err(NoSupportedTags)
        else Ok((EmvLogEntry(id, now, source, fields), DumpFields(interpreted)))
  }

  /**
   * A log entry is built exactly when the text parses, every record interprets and at
   * least one of them has an allowed tag; it then holds the allowed fields, in order,
   * and the dump holds every record.
   */
  lemma BuildLogEntrySpec(hex: string, source: LogSource, id: string, now: int)
    ensures var r := BuildLogEntry(hex, source, id, now);
      && (r.Ok? <==>
            && TlvParser.ParseHexSpec(hex).Ok?
            && TagInterpreter.InterpretAll(TlvParser.ParseHexSpec(hex).value).Ok?
            && exists i :: (0 <= i < |TlvParser.ParseHexSpec(hex).value| &&
                 Allowed(TagInterpreter.InterpretAll(TlvParser.ParseHexSpec(hex).value).value[i])))
      && (r.Ok? ==> (
            var ps := TagInterpreter.InterpretAll(TlvParser.ParseHexSpec(hex).value).value;
            && r.value.0 == EmvLogEntry(id, now, source, LoggedFields(ps))
            && r.value.0.fields != []
            && r.value.1 == DumpFields(ps)))
      && (TlvParser.ParseHexSpec(hex).Err? ==> r == Err(ParseFailed(TlvParser.ParseHexSpec(hex).error)))
  {
    var p := TlvParser.ParseHexSpec(hex);
    if p.Ok? {
      var q := TagInterpreter.InterpretAll(p.value);
      if q.Ok? {
        assert |q.value| == |p.value|;
        LoggedFieldsEmpty(q.value);
      }
    }
  }

  /** The throwable's message, where it has one. */
  function ThrowableMessage(f: LogFailure, numberFormatMessage: string -> string): Option<string> {
    match f
    case ParseFailed(e) => Some(e.message)
    case InterpretFailed(e) => Some(numberFormatMessage(e.digits))
    case NoSupportedTags => Some(NoSupportedTagsMessage)
  }

  /** `throwable.message ?: "Failed to parse TLV data"`. */
  function FailureText(f: LogFailure, numberFormatMessage: string -> string): string {
    match ThrowableMessage(f, numberFormatMessage)
    case Some(m) => m
    case None => FallbackMessage
  }

  /** The screen after `persistLogFromHex`: completed with the dump, or an error. */
  function PersistOutcome(
    s: ReaderUiState,
    built: Result<(EmvLogEntry, seq<LogField>), LogFailure>,
    numberFormatMessage: string -> string): ReaderUiState
  {
    match built
    case Ok((_, fields)) => AfterLogPersisted(s, fields)
    case Err(f) => AfterStatus(s, Error, Some(FailureText(f, numberFormatMessage)))
  }

  /** The stored list after `persistLogFromHex`: the new entry appended on success. */
  function PersistStored(logs: seq<EmvLogEntry>, built: Result<(EmvLogEntry, seq<LogField>), LogFailure>)
    : seq<EmvLogEntry>
  {
    if built.Ok? then Apply(logs, LogOp.Append(built.value.0)) else logs
  }

  /**
   * A failed capture reports the reason and stores nothing; a captured entry is stored
   * and the screen shows it as completed without a message.
   */
  lemma PersistOutcomeSpec(
    s: ReaderUiState, logs: seq<EmvLogEntry>,
    built: Result<(EmvLogEntry, seq<LogField>), LogFailure>, numberFormatMessage: string -> string)
    ensures built.Err? ==> PersistStored(logs, built) == logs
    ensures built.Err? ==> PersistOutcome(s, built, numberFormatMessage).status == Error
    ensures built == Err(NoSupportedTags) ==>
      PersistOutcome(s, built, numberFormatMessage).message == Some(NoSupportedTagsMessage)
    ensures built.Err? && built.error.ParseFailed? ==>
      PersistOutcome(s, built, numberFormatMessage).message == Some(built.error.parseError.message)
    ensures built.Ok? ==> PersistStored(logs, built) == logs + [built.value.0]
    ensures built.Ok? ==> PersistOutcome(s, built, numberFormatMessage).status == Completed
    ensures built.Ok? ==> PersistOutcome(s, built, numberFormatMessage).message.None?
    ensures built.Ok? && s.verbose ==> PersistOutcome(s, built, numberFormatMessage).latestTlvDump == built.value.1
    ensures !s.verbose ==> PersistOutcome(s, built, numberFormatMessage).latestTlvDump == s.latestTlvDump
  {
  }

  // ---------------------------------------------------------------- share text

  /** Strings glued together with nothing in between. */
  function Concat(parts: seq<string>): string {
    if parts == [] then "" else Concat(parts[..|parts| - 1]) + parts[|parts| - 1]
  }

  lemma ConcatSnoc(parts: seq<string>, p: string)
    ensures Concat(parts + [p]) == Concat(parts) + p
  {
    assert (parts + [p])[..|parts|] == parts;
  }

  /** Gluing reads the same from the front: the first part leads. */
  lemma {:induction false} ConcatCons(parts: seq<string>)
    requires parts != []
    ensures Concat(parts) == parts[0] + Concat(parts[1..])
    decreases |parts|
  {
    if |parts| > 1 {
      var init := parts[..|parts| - 1];
      var last := parts[|parts| - 1];
      ConcatCons(init);
      assert init[1..] == parts[1..][..|parts[1..]| - 1];
      assert parts[1..][|parts[1..]| - 1] == last;
      assert Concat(parts[1..]) == Concat(init[1..]) + last;
      assert Concat(parts) == (init[0] + Concat(init[1..])) + last;
      Assoc(parts[0], Concat(init[1..]), last);
    } else {
      assert parts[..0] == [] && parts[1..] == [];
    }
  }

  lemma Assoc(a: string, b: string, c: string)
    ensures (a + b) + c == a + (b + c)
  {
  }

  /** `appendLine(text)`. */
  function Line(text: string): string {
    text + "\n"
  }

  function TimestampLine(e: EmvLogEntry): string {
    "Timestamp: " + IntToString(e.timestampMillis)
  }

  function SourceLine(e: EmvLogEntry): string {
    "Source: " + SourceName(e.source)
  }

  function FieldLine(f: LogField): string {
    f.tag + ": " + f.interpretation + " (hex=" + f.rawHex + ")"
  }

  function FieldLines(fs: seq<LogField>): (lines: seq<string>)
    ensures |lines| == |fs|
  {
    seq(|fs|, j requires 0 <= j < |fs| => Line(FieldLine(fs[j])))
  }

  /** One entry's block: its time stamp and source lines, its field lines and a blank line. */
  function EntryBlock(e: EmvLogEntry): string {
    Line(TimestampLine(e)) + Line(SourceLine(e)) + Concat(FieldLines(e.fields)) + Line("")
  }

  /** An entry's block appended line by line, as the builder does it. */
  lemma EntryBlockAfter(builder: string, e: EmvLogEntry)
    ensures builder + EntryBlock(e)
         == builder + Line(TimestampLine(e)) + Line(SourceLine(e)) + Concat(FieldLines(e.fields)) + Line("")
  {
    var stamp, source, fields := Line(TimestampLine(e)), Line(SourceLine(e)), Concat(FieldLines(e.fields));
    Assoc(builder, stamp, source);
    Assoc(builder, stamp + source, fields);
    Assoc(builder, stamp + source + fields, Line(""));
  }

  function Blocks(es: seq<EmvLogEntry>): (blocks: seq<string>)
    ensures |blocks| == |es|
  {
    seq(|es|, i requires 0 <= i < |es| => EntryBlock(es[i]))
  }

  lemma FieldLinesSnoc(fs: seq<LogField>, j: nat)
    requires j < |fs|
    ensures FieldLines(fs[..j + 1]) == FieldLines(fs[..j]) + [Line(FieldLine(fs[j]))]
  {
  }

  lemma BlocksSnoc(es: seq<EmvLogEntry>, i: nat)
    requires i < |es|
    ensures Blocks(es[..i + 1]) == Blocks(es[..i]) + [EntryBlock(es[i])]
  {
    var longer, shorter := Blocks(es[..i + 1]), Blocks(es[..i]) + [EntryBlock(es[i])];
    forall k | 0 <= k < i + 1
      ensures longer[k] == shorter[k]
    {
      assert es[..i + 1][k] == es[k];
      if k < i {
        assert es[..i][k] == es[k];
      }
    }
  }

  /** `buildShareText`: nothing without logs, else every block with trailing whitespace trimmed. */
  function ShareText(es: seq<EmvLogEntry>): (r: Option<string>)
    ensures r.None? <==> es == []
  {
    if es == [] then None else Some(TrimEndWhitespace(Concat(Blocks(es))))
  }

  /** Trimming trailing whitespace never cuts into a prefix that ends in a visible character. */
  lemma {:induction false} TrimEndKeepsPrefix(p: string, q: string)
    requires p != [] && !IsWhitespace(p[|p| - 1])
    ensures |TrimEndWhitespace(p + q)| >= |p|
    ensures TrimEndWhitespace(p + q)[..|p|] == p
    decreases |q|
  {
    var s := p + q;
    if q != [] && IsWhitespace(s[|s| - 1]) {
      assert s[..|s| - 1] == p + q[..|q| - 1];
      TrimEndKeepsPrefix(p, q[..|q| - 1]);
    } else if q == [] {
      assert s == p;
    }
  }

  lemma TimestampLineEndsInDigit(e: EmvLogEntry)
    ensures var t := TimestampLine(e); |t| >= 1 && IsDecimalDigit(t[|t| - 1])
  {
    var n := e.timestampMillis;
    var digits := NatToString(if n < 0 then -n else n);
    assert IsDecimalDigit(digits[|digits| - 1]);
    var t := TimestampLine(e);
    assert t[|t| - 1] == digits[|digits| - 1];
  }

  /** What follows the first time stamp in the glued blocks. */
  function AfterStamp(es: seq<EmvLogEntry>): string
    requires es != []
  {
    "\n" + (Line(SourceLine(es[0])) + Concat(FieldLines(es[0].fields)) + Line("") + Concat(Blocks(es)[1..]))
  }

  lemma BlocksOpenWithStamp(es: seq<EmvLogEntry>)
    requires es != []
    ensures Concat(Blocks(es)) == TimestampLine(es[0]) + AfterStamp(es)
  {
    var e := es[0];
    var stamp := TimestampLine(e);
    var blocks := Blocks(es);
    ConcatCons(blocks);
    var source := Line(SourceLine(e));
    var fields := Concat(FieldLines(e.fields));
    var tail := Concat(blocks[1..]);
    Assoc(Line(stamp), source, fields);
    Assoc(Line(stamp), source + fields, Line(""));
    Assoc(Line(stamp), source + fields + Line(""), tail);
    Assoc(stamp, "\n", source + fields + Line("") + tail);
  }

  /** The share text opens with the first entry's time stamp line, whatever follows. */
  lemma ShareTextStartsWithTimestamp(es: seq<EmvLogEntry>)
    requires es != []
    ensures var stamp := TimestampLine(es[0]);
      ShareText(es).Some? && |ShareText(es).value| >= |stamp| && ShareText(es).value[..|stamp|] == stamp
  {
    BlocksOpenWithStamp(es);
    TimestampLineEndsInDigit(es[0]);
    TrimEndKeepsPrefix(TimestampLine(es[0]), AfterStamp(es));
  }

  // ---------------------------------------------------------------- the view model

  /**
   * `NfcViewModel`, over the file-backed store its factory wires in. The clock reading
   * and the entry id come in as parameters; `numberFormatMessage` stands for the text of
   * the platform's `NumberFormatException` for a given amount.
   */
  class NfcViewModel {
    const repository: FileLogRepository
    const numberFormatMessage: string -> string
    var uiState: ReaderUiState

    constructor(repository: FileLogRepository, numberFormatMessage: string -> string)
      ensures this.repository == repository && this.numberFormatMessage == numberFormatMessage
      ensures uiState == InitialState
      ensures Valid()
    {
      this.repository := repository;
      this.numberFormatMessage := numberFormatMessage;
      uiState := InitialState;
    }

    predicate Valid()
      reads this
    {
      Consistent(uiState)
    }

    /**
     * What the log file holds after a capture: the list in memory when an entry was
     * stored, the earlier contents when the capture failed.
     */
    predicate PersistedAfter(built: Result<(EmvLogEntry, seq<LogField>), LogFailure>, before: seq<EmvLogEntry>)
      reads this, repository
    {
      if built.Ok? then repository.persisted == repository.logs else repository.persisted == before
    }

    /** The `repository.logs.collect` callback. */
    method OnLogsChanged()
      modifies this
      requires Valid()
      ensures Valid()
      ensures uiState == AfterLogsChanged(old(uiState), repository.logs)
      ensures repository.persisted == old(repository.persisted)
    {
      uiState := uiState.(logs := repository.logs);
    }

    method OnNfcAvailabilityChanged(available: bool)
      modifies this
      requires Valid()
      ensures Valid()
      ensures uiState == AfterAvailabilityChanged(old(uiState), available)
      ensures repository.persisted == old(repository.persisted)
    {
      uiState := uiState.(
        nfcAvailable := available,
        status := if available then WaitingForCard else Idle,
        message := None);
    }

    method OnReaderModeEnabled()
      modifies this
      requires Valid()
      ensures Valid()
      ensures uiState == AfterReaderModeEnabled(old(uiState))
      ensures repository.persisted == old(repository.persisted)
    {
      uiState := uiState.(status := WaitingForCard, message := None);
    }

    method OnReaderModeDisabled()
      modifies this
      requires Valid()
      ensures Valid()
      ensures uiState == AfterReaderModeDisabled(old(uiState))
      ensures repository.persisted == old(repository.persisted)
    {
      uiState := uiState.(status := Idle);
    }

    /** A payload is captured as a live log; any other event only moves the status. */
    method OnNfcEvent(event: NfcReader.NfcEvent, id: string, now: int)
      modifies this, repository
      requires Valid()
      ensures Valid()
      ensures event.Payload? ==>
        var built := BuildLogEntry(ToHexString(event.tlvBytes), LIVE, id, now);
        && uiState == PersistOutcome(old(uiState), built, numberFormatMessage)
        && repository.logs == PersistStored(old(repository.logs), built)
      ensures event.Idle? ==> uiState == AfterStatus(old(uiState), WaitingForCard, None)
      ensures event.Reading? ==> uiState == AfterStatus(old(uiState), Reading, None)
      ensures event.Error? ==> uiState == AfterStatus(old(uiState), Error, Some(event.message))
      ensures !event.Payload? ==> repository.logs == old(repository.logs)
      ensures !event.Payload? ==> repository.persisted == old(repository.persisted)
      ensures event.Payload? ==> PersistedAfter(BuildLogEntry(ToHexString(event.tlvBytes), LIVE, id, now), old(repository.persisted))
    {
      match event
      case Idle =>
        uiState := uiState.(status := WaitingForCard, message := None);
      case Reading =>
        uiState := uiState.(status := Reading, message := None);
      case Payload(bytes) =>
        PersistLogFromHex(ToHexString(bytes), LIVE, id, now);
      case Error(m) =>
        uiState := uiState.(status := Error, message := Some(m));
    }

    /** `ingestSample`: a recorded hex string captured as a sample log. */
    method IngestSample(hex: string, id: string, now: int)
      modifies this, repository
      requires Valid()
      ensures Valid()
      ensures var built := BuildLogEntry(hex, SAMPLE, id, now);
        && uiState == PersistOutcome(old(uiState), built, numberFormatMessage)
        && repository.logs == PersistStored(old(repository.logs), built)
      ensures PersistedAfter(BuildLogEntry(hex, SAMPLE, id, now), old(repository.persisted))
    {
      PersistLogFromHex(hex, SAMPLE, id, now);
    }

    method ClearLogs()
      modifies this, repository
      requires Valid()
      ensures Valid()
      ensures repository.logs == []
      ensures repository.persisted == []
      ensures uiState == AfterLogsCleared(old(uiState))
    {
      repository.Clear();
      uiState := uiState.(status := WaitingForCard, message := None, latestTlvDump := []);
    }

    method ToggleVerbose()
      modifies this
      requires Valid()
      ensures Valid()
      ensures uiState == AfterVerboseToggled(old(uiState))
      ensures repository.persisted == old(repository.persisted)
    {
      var nextVerbose := !uiState.verbose;
      uiState := uiState.(verbose := nextVerbose, latestTlvDump := if nextVerbose then uiState.latestTlvDump else []);
    }

    /** `buildShareText`, appending line by line to a builder. */
    method BuildShareText() returns (r: Option<string>)
      ensures r == ShareText(uiState.logs)
    {
      var entries := uiState.logs;
      if |entries| == 0 {
        return None;
      }
      var builder := "";
      for i := 0 to |entries|
        invariant builder == Concat(Blocks(entries[..i]))
      {
        builder := AppendEntry(builder, entries[i]);
        ConcatSnoc(Blocks(entries[..i]), EntryBlock(entries[i]));
        BlocksSnoc(entries, i);
      }
      assert entries[..|entries|] == entries;
      return Some(TrimEndWhitespace(builder));
    }

    /** The `entries.forEach` body of `buildShareText`: one entry's lines. */
    static method AppendEntry(builder: string, entry: EmvLogEntry) returns (extended: string)
      ensures extended == builder + EntryBlock(entry)
    {
      var head := builder + Line(TimestampLine(entry));
      head := head + Line(SourceLine(entry));
      var withFields := AppendFieldLines(head, entry.fields);
      extended := withFields + Line("");
      EntryBlockAfter(builder, entry);
    }

    /** The `entry.fields.forEach` loop: one line per field, in order. */
    static method AppendFieldLines(builder: string, fields: seq<LogField>) returns (extended: string)
      ensures extended == builder + Concat(FieldLines(fields))
    {
      extended := builder;
      for j := 0 to |fields|
        invariant extended == builder + Concat(FieldLines(fields[..j]))
      {
        var line := Line(FieldLine(fields[j]));
        ConcatSnoc(FieldLines(fields[..j]), line);
        FieldLinesSnoc(fields, j);
        Assoc(builder, Concat(FieldLines(fields[..j])), line);
        extended := extended + line;
      }
      assert fields[..|fields|] == fields;
    }

    /** `persistLogFromHex`: build the entry, then store it and report the outcome. */
    method PersistLogFromHex(hex: string, source: LogSource, id: string, now: int)
      modifies this, repository
      requires Valid()
      ensures Valid()
      ensures var built := BuildLogEntry(hex, source, id, now);
        && uiState == PersistOutcome(old(uiState), built, numberFormatMessage)
        && repository.logs == PersistStored(old(repository.logs), built)
      ensures PersistedAfter(BuildLogEntry(hex, source, id, now), old(repository.persisted))
    {
      var built := BuildLogEntry(hex, source, id, now);
      Report(built);
    }

    /** The `onSuccess` / `onFailure` half of `persistLogFromHex`. */
    method Report(built: Result<(EmvLogEntry, seq<LogField>), LogFailure>)
      modifies this, repository
      requires Valid()
      ensures Valid()
      ensures uiState == PersistOutcome(old(uiState), built, numberFormatMessage)
      ensures repository.logs == PersistStored(old(repository.logs), built)
      ensures PersistedAfter(built, old(repository.persisted))
    {
      if built.Ok? {
        var (entry, fields) := built.value;
        repository.Append(entry);
        uiState := uiState.(
          status := Completed,
          message := None,
          latestTlvDump := if uiState.verbose then fields else uiState.latestTlvDump);
      } else {
        var text := FailureText(built.error, numberFormatMessage);
        uiState := uiState.(status := Error, message := Some(text));
      }
    }
  }
}
