/**
 * The records the app keeps for each capture (`model/EmvLogEntry.kt`): an entry has an
 * id, a time stamp, where it came from, and the masked fields that were logged.
 */
module EmvLog {
  /** Where a log came from: a card in the field, or a recorded sample. */
  datatype LogSource = LIVE | SAMPLE

  /** The enum constant's name, which is what `toString()` prints. */
  function SourceName(source: LogSource): (name: string)
    ensures name == "LIVE" <==> source == LIVE
    ensures name == "SAMPLE" <==> source == SAMPLE
  {
    match source
    case LIVE => "LIVE"
    case SAMPLE => "SAMPLE"
  }

  /** One logged tag: the upper-cased tag, its value's hex digits and its interpretation. */
  datatype LogField = LogField(tag: string, rawHex: string, interpretation: string)

  /** One capture; the id is a random UUID in the app, so it is taken as given here. */
  datatype EmvLogEntry = EmvLogEntry(id: string, timestampMillis: int, source: LogSource, fields: seq<LogField>)
}
