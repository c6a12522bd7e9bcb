/**
 * The log stores (`data/LogRepository.kt`). Both keep the list of entries in memory and
 * only ever append to it or empty it; the file-backed store also hands every new list to
 * its persistence step, whose disk format is not part of this model.
 */
module LogRepository {
  import opened Wrappers
  import opened EmvLog

  /** What a caller can do to a store's list. */
  datatype LogOp = Append(entry: EmvLogEntry) | Clear

  /** The list after one operation. */
  function Apply(logs: seq<EmvLogEntry>, op: LogOp): seq<EmvLogEntry> {
    match op
    case Append(e) => logs + [e]
    case Clear => []
  }

  /** The list after a run of operations, in order. */
  function ApplyAll(logs: seq<EmvLogEntry>, ops: seq<LogOp>): seq<EmvLogEntry>
    decreases |ops|
  {
    if ops == [] then logs else ApplyAll(Apply(logs, ops[0]), ops[1..])
  }

  predicate NoClear(ops: seq<LogOp>) {
    forall k :: 0 <= k < |ops| ==> ops[k].Append?
  }

  /** The entries a run of appends adds, in order. */
  function Appended(ops: seq<LogOp>): (es: seq<EmvLogEntry>)
    requires NoClear(ops)
    ensures |es| == |ops| && forall k :: 0 <= k < |ops| ==> es[k] == ops[k].entry
  {
    if ops == [] then [] else [ops[0].entry] + Appended(ops[1..])
  }

  /**
   * Without a `clear`, nothing is removed or reordered: the old entries stay in front,
   * followed by the appended ones in the order they were appended.
   */
  lemma {:induction false} AppendsOnlyExtend(logs: seq<EmvLogEntry>, ops: seq<LogOp>)
    requires NoClear(ops)
    ensures ApplyAll(logs, ops) == logs + Appended(ops)
    decreases |ops|
  {
    if ops != [] {
      var e, tail := ops[0].entry, Appended(ops[1..]);
      AppendsOnlyExtend(logs + [e], ops[1..]);
      assert Appended(ops) == [e] + tail;
      assert (logs + [e]) + tail == logs + ([e] + tail);
    }
  }

  /** After a `clear`, the list holds exactly what was appended since the last `clear`. */
  lemma {:induction false} ClearForgets(logs: seq<EmvLogEntry>, before: seq<LogOp>, after: seq<LogOp>)
    requires NoClear(after)
    ensures ApplyAll(logs, before + [Clear] + after) == Appended(after)
    decreases |before|
  {
    if before == [] {
      assert [Clear] + after == [Clear] + after;
      assert ApplyAll(logs, [Clear] + after) == ApplyAll([], after);
      AppendsOnlyExtend([], after);
    } else {
      assert (before + [Clear] + after)[1..] == before[1..] + [Clear] + after;
      ClearForgets(Apply(logs, before[0]), before[1..], after);
    }
  }

  /** `InMemoryLogRepository`: the list lives only in memory and there is never a log file. */
  class InMemoryLogRepository {
    var logs: seq<EmvLogEntry>

    constructor()
      ensures logs == []
    {
      logs := [];
    }

    method Append(entry: EmvLogEntry)
      modifies this
      ensures logs == Apply(old(logs), LogOp.Append(entry))
      ensures logs == old(logs) + [entry]
    {
      logs := logs + [entry];
    }

    method Clear()
      modifies this
      ensures logs == Apply(old(logs), LogOp.Clear)
      ensures logs == []
    {
      logs := [];
    }

    /** `logFile()`: this store has no file to share. */
    method LogFile() returns (file: Option<string>)
      ensures file.None?
    {
      return None;
    }
  }

  /**
   * `FileLogRepository`: the same list, plus the list last handed to `persist`. The file
   * contents read at start-up come in as `loaded`; the JSON text is not modelled.
   */
  class FileLogRepository {
    var logs: seq<EmvLogEntry>
    var persisted: seq<EmvLogEntry>

    constructor(loaded: seq<EmvLogEntry>)
      ensures logs == loaded && persisted == loaded
    {
      logs := loaded;
      persisted := loaded;
    }

    /** The list in memory is what was last handed to `persist`. */
    predicate Valid()
      reads this
    {
      persisted == logs
    }

    method Append(entry: EmvLogEntry)
      modifies this
      ensures logs == Apply(old(logs), LogOp.Append(entry))
      ensures logs == old(logs) + [entry]
      ensures Valid()
    {
      var updated := logs + [entry];
      persisted := updated;
      logs := updated;
    }

    method Clear()
      modifies this
      ensures logs == Apply(old(logs), LogOp.Clear)
      ensures logs == []
      ensures Valid()
    {
      persisted := [];
      logs := [];
    }

    /** `logFile()`: the log file when it exists on disk (`present` is that test's answer). */
    method LogFile(path: string, present: bool) returns (file: Option<string>)
      ensures file.Some? <==> present
      ensures file.Some? ==> file.value == path
    {
      if present {
        return Some(path);
      }
      return None;
    }
  }
}
