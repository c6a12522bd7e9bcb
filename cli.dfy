/**
 * The command-line tool (`cli/Main.kt`): it reads one hex string from its arguments or
 * from standard input, parses and interprets it, and prints the records as a table whose
 * columns are padded to a common width.
 */
module Cli {
  import opened Wrappers
  import opened Jvm
  import opened TlvModels
  import TlvParser
  import TagInterpreter

  const Prompt: string := "Enter EMV TLV hex string:"
  const NoInputMessage: string := "No input provided."
  const NoTlvsMessage: string := "No TLVs parsed."
  const Header: seq<string> := ["Tag", "Length", "Value", "Interpretation"]

  /** What a run prints, line by line, on standard output and on standard error. */
  datatype Output = Output(stdout: seq<string>, stderr: seq<string>)

  // ---------------------------------------------------------------- input

  /**
   * The text `main` works on: the arguments glued together, or else every line of
   * standard input glued together, then trimmed.
   */
  function Input(args: seq<string>, stdinLines: seq<string>): (input: string)
    ensures input != [] ==> !IsWhitespace(input[0]) && !IsWhitespace(input[|input| - 1])
  {
    var joined := if args != [] then Join(args, "") else Join(stdinLines, "");
    var start := TrimStartWhitespace(joined);
    var input := TrimEndWhitespace(start);
    assert input != [] ==> input[0] == start[0];
    input
  }

  // ---------------------------------------------------------------- the table

  /** One table row: tag, decimal length, value hex and interpretation. */
  function Row(field: ParsedField): (row: seq<string>)
    ensures |row| == |Header|
  {
    [field.tlv.tag, IntToString(field.tlv.length), field.tlv.HexValue(), field.interpretation]
  }

  function Rows(fields: seq<ParsedField>): (rows: seq<seq<string>>)
    ensures |rows| == |fields|
  {
    seq(|fields|, i requires 0 <= i < |fields| => Row(fields[i]))
  }

  predicate Rectangular(table: seq<seq<string>>, n: nat) {
    forall r :: r in table ==> |r| == n
  }

  function Max(a: nat, b: nat): nat {
    if a >= b then a else b
  }

  /** The length of cell `k` of a row (a row that has no such cell adds nothing). */
  function CellLength(row: seq<string>, k: nat): nat {
    if k < |row| then |row[k]| else 0
  }

  /** The width of column `k`: the longest cell in it, or 0 for no rows. */
  function ColumnWidth(table: seq<seq<string>>, k: nat): nat {
    if table == [] then 0
    else Max(ColumnWidth(table[..|table| - 1], k), CellLength(table[|table| - 1], k))
  }

  /** Every cell fits its column, and some cell fills it exactly. */
  lemma {:induction false} ColumnWidthIsMax(table: seq<seq<string>>, k: nat)
    ensures forall i :: 0 <= i < |table| ==> CellLength(table[i], k) <= ColumnWidth(table, k)
    ensures table != [] ==> exists i :: 0 <= i < |table| && CellLength(table[i], k) == ColumnWidth(table, k)
    decreases |table|
  {
    if table != [] {
      var init := table[..|table| - 1];
      var last := |table| - 1;
      ColumnWidthIsMax(init, k);
      assert forall i :: 0 <= i < |init| ==> init[i] == table[i];
      if CellLength(table[last], k) >= ColumnWidth(init, k) {
        assert CellLength(table[last], k) == ColumnWidth(table, k);
      } else {
        var i :| 0 <= i < |init| && CellLength(init[i], k) == ColumnWidth(init, k);
        assert CellLength(table[i], k) == ColumnWidth(table, k);
      }
    }
  }

  function Widths(table: seq<seq<string>>, n: nat): (ws: seq<nat>)
    ensures |ws| == n
  {
    seq(n, k requires 0 <= k < n => ColumnWidth(table, k))
  }

  /** `formatRow`: every cell padded to its column's width, joined by " | ". */
  function FormatRow(values: seq<string>, widths: seq<nat>): string
    requires |values| == |widths|
  {
    Join(seq(|values|, i requires 0 <= i < |values| => PadEnd(values[i], widths[i], ' ')), " | ")
  }

  /** The rule under the header: dashes as wide as each column, joined by "-+-". */
  function Separator(widths: seq<nat>): string {
    Join(seq(|widths|, i requires 0 <= i < |widths| => PadEnd("", widths[i], '-')), "-+-")
  }

  /** The widths `printTable` settles on: header and rows together. */
  function TableWidths(fields: seq<ParsedField>): (ws: seq<nat>)
    ensures |ws| == |Header|
  {
    Widths([Header] + Rows(fields), |Header|)
  }

  /** The first `n` rows, formatted. */
  function FormattedRows(rows: seq<seq<string>>, widths: seq<nat>, n: nat): (lines: seq<string>)
    requires n <= |rows| && forall r :: r in rows ==> |r| == |widths|
    ensures |lines| == n
  {
    seq(n, i requires 0 <= i < n => FormatRow(rows[i], widths))
  }

  lemma FormattedRowsSnoc(rows: seq<seq<string>>, widths: seq<nat>, n: nat)
    requires n < |rows| && forall r :: r in rows ==> |r| == |widths|
    ensures FormattedRows(rows, widths, n + 1) == FormattedRows(rows, widths, n) + [FormatRow(rows[n], widths)]
  {
  }

  /** What `printTable` prints. */
  function Table(fields: seq<ParsedField>): (lines: seq<string>)
    ensures fields == [] ==> lines == [NoTlvsMessage]
    ensures fields != [] ==> |lines| == 2 + |fields|
  {
    if fields == [] then [NoTlvsMessage]
    else
      var widths := TableWidths(fields);
      [FormatRow(Header, widths), Separator(widths)] + FormattedRows(Rows(fields), widths, |fields|)
  }

  // ---------------------------------------------------------------- line lengths

  function TotalLength(parts: seq<string>): nat {
    if parts == [] then 0 else |parts[0]| + TotalLength(parts[1..])
  }

  function Sum(ws: seq<nat>): nat {
    if ws == [] then 0 else ws[0] + Sum(ws[1..])
  }

  /** Joining adds one separator between each two neighbouring parts. */
  lemma {:induction false} JoinLength(parts: seq<string>, separator: string)
    requires parts != []
    ensures |Join(parts, separator)| == TotalLength(parts) + |separator| * (|parts| - 1)
    decreases |parts|
  {
    if |parts| > 1 {
      JoinLength(parts[1..], separator);
    } else {
      assert parts[1..] == [];
    }
  }

  lemma {:induction false} TotalLengthOfWidths(parts: seq<string>, ws: seq<nat>)
    requires |parts| == |ws| && forall i :: 0 <= i < |ws| ==> |parts[i]| == ws[i]
    ensures TotalLength(parts) == Sum(ws)
    decreases |ws|
  {
    if ws != [] {
      TotalLengthOfWidths(parts[1..], ws[1..]);
    }
  }

  lemma PadEndLength(s: string, n: nat, c: char)
    ensures |PadEnd(s, n, c)| == Max(|s|, n)
  {
  }

  /** A row whose cells fit their columns is exactly as wide as the columns and separators. */
  lemma FormatRowLength(values: seq<string>, widths: seq<nat>)
    requires |values| == |widths| > 0
    requires forall i :: 0 <= i < |values| ==> |values[i]| <= widths[i]
    ensures |FormatRow(values, widths)| == Sum(widths) + 3 * (|widths| - 1)
  {
    var parts := seq(|values|, i requires 0 <= i < |values| => PadEnd(values[i], widths[i], ' '));
    forall i | 0 <= i < |values|
      ensures |parts[i]| == widths[i]
    {
      PadEndLength(values[i], widths[i], ' ');
    }
    JoinLength(parts, " | ");
    TotalLengthOfWidths(parts, widths);
  }

  lemma SeparatorLength(widths: seq<nat>)
    requires |widths| > 0
    ensures |Separator(widths)| == Sum(widths) + 3 * (|widths| - 1)
  {
    var parts := seq(|widths|, i requires 0 <= i < |widths| => PadEnd("", widths[i], '-'));
    forall i | 0 <= i < |widths|
      ensures |parts[i]| == widths[i]
    {
      PadEndLength("", widths[i], '-');
    }
    JoinLength(parts, "-+-");
    TotalLengthOfWidths(parts, widths);
  }

  /** The length every line of a non-empty table has. */
  function LineWidth(fields: seq<ParsedField>): nat {
    Sum(TableWidths(fields)) + 3 * (|Header| - 1)
  }

  /** Each cell of the table's `j`-th line of cells fits its column. */
  lemma CellsFit(table: seq<seq<string>>, j: nat)
    requires j < |table| && |table[j]| == |Header|
    ensures forall k :: 0 <= k < |Header| ==> |table[j][k]| <= Widths(table, |Header|)[k]
  {
    forall k | 0 <= k < |Header|
      ensures |table[j][k]| <= Widths(table, |Header|)[k]
    {
      ColumnWidthIsMax(table, k);
    }
  }

  lemma HeaderLineLength(fields: seq<ParsedField>)
    requires fields != []
    ensures |FormatRow(Header, TableWidths(fields))| == LineWidth(fields)
  {
    CellsFit([Header] + Rows(fields), 0);
    FormatRowLength(Header, TableWidths(fields));
  }

  lemma RowLineLength(fields: seq<ParsedField>, j: nat)
    requires j < |fields|
    ensures |FormatRow(Rows(fields)[j], TableWidths(fields))| == LineWidth(fields)
  {
    var table := [Header] + Rows(fields);
    assert table[j + 1] == Rows(fields)[j];
    CellsFit(table, j + 1);
    FormatRowLength(Rows(fields)[j], TableWidths(fields));
  }

  lemma TableLineLength(fields: seq<ParsedField>, i: nat)
    requires fields != [] && i < |Table(fields)|
    ensures |Table(fields)[i]| == LineWidth(fields)
  {
    if i == 0 {
      HeaderLineLength(fields);
    } else if i == 1 {
      SeparatorLength(TableWidths(fields));
    } else {
      RowLineLength(fields, i - 2);
    }
  }

  /** Every line of a non-empty table has the same length: the header, the rule and each row. */
  lemma TableLinesAligned(fields: seq<ParsedField>)
    requires fields != []
    ensures forall i :: 0 <= i < |Table(fields)| ==> |Table(fields)[i]| == LineWidth(fields)
  {
    forall i | 0 <= i < |Table(fields)|
      ensures |Table(fields)[i]| == LineWidth(fields)
    {
      TableLineLength(fields, i);
    }
  }

  // ---------------------------------------------------------------- printTable

  /** One `forEachIndexed` pass: each column widened to fit this row's cell. */
  method WidenColumns(columnWidths: array<nat>, row: seq<string>)
    requires |row| <= columnWidths.Length
    modifies columnWidths
    ensures forall k :: 0 <= k < columnWidths.Length ==> columnWidths[k] == Max(old(columnWidths[k]), CellLength(row, k))
  {
    for index := 0 to |row|
      invariant forall k :: 0 <= k < index ==> columnWidths[k] == Max(old(columnWidths[k]), CellLength(row, k))
      invariant forall k :: index <= k < columnWidths.Length ==> columnWidths[k] == old(columnWidths[k])
    {
      columnWidths[index] := Max(columnWidths[index], |row[index]|);
    }
  }

  lemma SeqAssoc<T>(a: seq<T>, b: seq<T>, c: seq<T>)
    ensures (a + b) + c == a + (b + c)
  {
  }

  /** Adding a row widens each column to fit that row's cell. */
  lemma WidthsGrow(table: seq<seq<string>>, row: seq<string>)
    ensures forall k: nat :: ColumnWidth(table + [row], k) == Max(ColumnWidth(table, k), CellLength(row, k))
  {
    assert (table + [row])[..|table|] == table;
  }

  /** The `columnWidths` array of `printTable`: zeros, widened by the header, then by each row. */
  method MeasureColumns(rows: seq<seq<string>>) returns (widths: seq<nat>)
    requires Rectangular(rows, |Header|)
    ensures widths == Widths([Header] + rows, |Header|)
  {
    var columnWidths := new nat[|Header|](_ => 0);
    WidenColumns(columnWidths, Header);
    WidthsGrow([], Header);
    assert [Header] + rows[..0] == [] + [Header];
    for r := 0 to |rows|
      invariant forall k :: 0 <= k < |Header| ==> columnWidths[k] == ColumnWidth([Header] + rows[..r], k)
    {
      assert rows[r] in rows;
      WidenColumns(columnWidths, rows[r]);
      WidthsGrow([Header] + rows[..r], rows[r]);
      assert rows[..r + 1] == rows[..r] + [rows[r]];
      SeqAssoc([Header], rows[..r], [rows[r]]);
    }
    assert rows[..|rows|] == rows;
    widths := columnWidths[..];
  }

  /** The `rows.forEach` of `printTable`: one formatted line per row. */
  method PrintRows(rows: seq<seq<string>>, widths: seq<nat>) returns (lines: seq<string>)
    requires forall r :: r in rows ==> |r| == |widths|
    ensures lines == FormattedRows(rows, widths, |rows|)
  {
    lines := [];
    for r := 0 to |rows|
      invariant lines == FormattedRows(rows, widths, r)
    {
      FormattedRowsSnoc(rows, widths, r);
      lines := lines + [FormatRow(rows[r], widths)];
    }
  }

  lemma TableOf(fields: seq<ParsedField>, widths: seq<nat>)
    requires fields != [] && widths == TableWidths(fields)
    ensures forall r :: r in Rows(fields) ==> |r| == |widths|
    ensures Table(fields) == [FormatRow(Header, widths), Separator(widths)] + FormattedRows(Rows(fields), widths, |fields|)
  {
  }

  /** `printTable`: the header, the rule, then one line per row. */
  method PrintTable(fields: seq<ParsedField>) returns (lines: seq<string>)
    ensures lines == Table(fields)
  {
    if |fields| == 0 {
      return [NoTlvsMessage];
    }
    var rows := Rows(fields);
    var widths := MeasureColumns(rows);
    TableOf(fields, widths);
    var body := PrintRows(rows, widths);
    lines := [FormatRow(Header, widths), Separator(widths)] + body;
  }

  // ---------------------------------------------------------------- main

  /**
   * `main`: prompt only when reading standard input; nothing to parse is reported; a
   * parse or interpretation failure prints one error line (the interpreter's failure
   * text is the platform's `NumberFormatException` message, `numberFormatMessage`).
   */
  function Run(args: seq<string>, stdinLines: seq<string>, numberFormatMessage: string -> string): (out: Output)
    ensures |out.stderr| <= 1
    ensures out.stderr != [] ==> out.stdout == (if args == [] then [Prompt] else [])
  {
    var prompt := if args == [] then [Prompt] else [];
    var input := Input(args, stdinLines);
    if input == [] then Output(prompt + [NoInputMessage], [])
    else
      match TlvParser.ParseHexSpec(input)
      case Err(e) => Output(prompt, ["Error: " + e.message])
      case Ok(tlvs) =>
        match TagInterpreter.InterpretAll(tlvs)
        case Err(e) => Output(prompt, ["Error: " + numberFormatMessage(e.digits)])
        case Ok(fields) => Output(prompt + Table(fields), [])
  }

  /** Blank input stops before the parser: one notice, no table and no error. */
  lemma BlankInputParsesNothing(args: seq<string>, stdinLines: seq<string>, numberFormatMessage: string -> string)
    requires IsBlank(if args != [] then Join(args, "") else Join(stdinLines, ""))
    ensures Run(args, stdinLines, numberFormatMessage).stdout == (if args == [] then [Prompt] else []) + [NoInputMessage]
    ensures Run(args, stdinLines, numberFormatMessage).stderr == []
  {
    var joined := if args != [] then Join(args, "") else Join(stdinLines, "");
    BlankTrimsToEmpty(joined);
  }

  lemma {:induction false} BlankTrimsToEmpty(s: string)
    requires IsBlank(s)
    ensures TrimStartWhitespace(s) == []
  {
    if s != [] {
      assert IsWhitespace(s[0]);
      assert IsBlank(s[1..]) by {
        forall i | 0 <= i < |s[1..]| ensures IsWhitespace(s[1..][i]) {
          assert s[1..][i] == s[i + 1];
        }
      }
      BlankTrimsToEmpty(s[1..]);
    }
  }

  /** A successful run prints exactly the table: a header, a rule and one row per record. */
  lemma ParsedRunPrintsTable(args: seq<string>, stdinLines: seq<string>, numberFormatMessage: string -> string)
    requires var input := Input(args, stdinLines);
      && input != []
      && TlvParser.ParseHexSpec(input).Ok?
      && TagInterpreter.InterpretAll(TlvParser.ParseHexSpec(input).value).Ok?
      && TlvParser.ParseHexSpec(input).value != []
    ensures var out := Run(args, stdinLines, numberFormatMessage);
      && out.stderr == []
      && |out.stdout| == (if args == [] then 1 else 0) + 2 + |TlvParser.ParseHexSpec(Input(args, stdinLines)).value|
  {
  }
}
