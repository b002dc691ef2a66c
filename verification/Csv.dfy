/** CSV downloads (packages/shared/src/csv.ts), against a reader of the format of section 2 of
    RFC 4180 that also skips a byte-order mark. */
module Csv {
  import opened Optional
  import opened Text

  /** A column: its header, and a row's value as text, absent for null and undefined. */
  datatype Column<!Row> = Column(header: string, value: Row -> Option<string>)

  const BOM: char := '\U{FEFF}'
  const CRLF: string := "\r\n"

  // ---------------------------------------------------------------------------------------
  // The writer
  // ---------------------------------------------------------------------------------------

  /** Text a spreadsheet would run as a formula. A sign before a digit is a number or a phone. */
  predicate Formula(text: string) {
    |text| > 0
    && (text[0] == '=' || text[0] == '@' || text[0] == '\t' || text[0] == '\r'
        || ((text[0] == '+' || text[0] == '-') && !(|text| > 1 && '0' <= text[1] <= '9')))
  }

  function Guarded(text: string): string {
    if Formula(text) then "'" + text else text
  }

  predicate Special(c: char) {
    c == '"' || c == ',' || c == '\r' || c == '\n'
  }

  predicate NeedsQuotes(text: string) {
    exists i :: 0 <= i < |text| && Special(text[i])
  }

  function Quoted(text: string): string {
    if NeedsQuotes(text) then "\"" + Replace(text, '"', "\"\"") + "\"" else text
  }

  /** The text a cell stands for. */
  function CellText(value: Option<string>): string {
    match value
    case None => ""
    case Some(text) => Guarded(text)
  }

  function Cell(value: Option<string>): string {
    match value
    case None => ""
    case Some(text) => Quoted(Guarded(text))
  }

  function Headers<Row>(columns: seq<Column<Row>>): (r: seq<Option<string>>)
    ensures |r| == |columns|
  {
    seq(|columns|, i requires 0 <= i < |columns| => Some(columns[i].header))
  }

  function Values<Row>(row: Row, columns: seq<Column<Row>>): (r: seq<Option<string>>)
    ensures |r| == |columns|
  {
    seq(|columns|, i requires 0 <= i < |columns| => columns[i].value(row))
  }

  function Cells(values: seq<Option<string>>): (r: seq<string>)
    ensures |r| == |values|
    ensures forall i :: 0 <= i < |values| ==> r[i] == Quoted(CellText(values[i]))
  {
    seq(|values|, i requires 0 <= i < |values| => assert Quoted("") == ""; Cell(values[i]))
  }

  /** Every line's values: the header, then the rows. */
  function Grid<Row>(rows: seq<Row>, columns: seq<Column<Row>>): (g: seq<seq<Option<string>>>)
    ensures |g| == |rows| + 1
    ensures forall i :: 0 <= i < |g| ==> |g[i]| == |columns|
  {
    [Headers(columns)] + seq(|rows|, i requires 0 <= i < |rows| => Values(rows[i], columns))
  }

  function Line(values: seq<Option<string>>): string {
    Join(Cells(values), ",")
  }

  function Lines(grid: seq<seq<Option<string>>>): (r: seq<string>)
    ensures |r| == |grid|
  {
    seq(|grid|, i requires 0 <= i < |grid| => Line(grid[i]))
  }

  lemma GridRows<Row>(rows: seq<Row>, columns: seq<Column<Row>>)
    ensures Grid(rows, columns)[0] == Headers(columns)
    ensures forall i :: 0 <= i < |rows| ==> Grid(rows, columns)[i + 1] == Values(rows[i], columns)
  {
  }

  method ToCsv<Row>(rows: seq<Row>, columns: seq<Column<Row>>) returns (text: string)
    ensures text == [BOM] + Join(Lines(Grid(rows, columns)), CRLF) + CRLF
  {
    hide Line, Grid, Join;
    var lines := [Line(Headers(columns))];
    ghost var all := Lines(Grid(rows, columns));
    GridRows(rows, columns);
    for i := 0 to |rows|
      invariant |lines| == i + 1
      invariant forall j :: 0 <= j <= i ==> lines[j] == all[j]
    {
      lines := lines + [Line(Values(rows[i], columns))];
    }
    assert lines == all;
    text := [BOM] + Join(lines, CRLF) + CRLF;
  }

  // ---------------------------------------------------------------------------------------
  // The reader: section 2 of RFC 4180
  // ---------------------------------------------------------------------------------------

  /** The inside of a quoted field, with doubled quotes undone. */
  function ReadQuoted(s: string): Option<(string, string)> {
    if |s| == 0 then None
    else if s[0] != '"' then
      match ReadQuoted(s[1..])
      case None => None
      case Some((text, rest)) => Some(([s[0]] + text, rest))
    else if |s| > 1 && s[1] == '"' then
      match ReadQuoted(s[2..])
      case None => None
      case Some((text, rest)) => Some((['"'] + text, rest))
    else Some(("", s[1..]))
  }

  function ReadPlain(s: string): (string, string) {
    if |s| == 0 || Special(s[0]) then ("", s)
    else
      var (text, rest) := ReadPlain(s[1..]);
      ([s[0]] + text, rest)
  }

  function ReadField(s: string): Option<(string, string)> {
    if |s| > 0 && s[0] == '"' then ReadQuoted(s[1..]) else Some(ReadPlain(s))
  }

  lemma {:induction false} ReadQuotedShrinks(s: string)
    ensures ReadQuoted(s).Some? ==> |ReadQuoted(s).value.1| < |s|
    decreases |s|
  {
    if |s| > 0 {
      ReadQuotedShrinks(s[1..]);
      if |s| > 1 {
        ReadQuotedShrinks(s[2..]);
      }
    }
  }

  lemma {:induction false} ReadPlainShrinks(s: string)
    ensures |ReadPlain(s).1| <= |s|
  {
    if |s| > 0 {
      ReadPlainShrinks(s[1..]);
    }
  }

  lemma ReadFieldShrinks(s: string)
    ensures ReadField(s).Some? ==> |ReadField(s).value.1| <= |s|
  {
    ReadPlainShrinks(s);
    if |s| > 0 {
      ReadQuotedShrinks(s[1..]);
    }
  }

  /** Fields separated by commas. */
  function ReadRecord(s: string): (r: Option<(seq<string>, string)>)
    ensures r.Some? ==> |r.value.1| <= |s|
    decreases |s|
  {
    ReadFieldShrinks(s);
    match ReadField(s)
    case None => None
    case Some((field, rest)) =>
      if |rest| == 0 || rest[0] != ',' then Some(([field], rest))
      else
        match ReadRecord(rest[1..])
        case None => None
        case Some((fields, rest')) => Some(([field] + fields, rest'))
  }

  /** Records ended by line breaks; the last line break is optional. */
  function ReadRecords(s: string): Option<seq<seq<string>>>
    decreases |s|
  {
    if |s| == 0 then Some([])
    else
      match ReadRecord(s)
      case None => None
      case Some((record, rest)) =>
        if |rest| == 0 then Some([record])
        else if !StartsWith(rest, CRLF) then None
        else
          match ReadRecords(rest[2..])
          case None => None
          case Some(records) => Some([record] + records)
  }

  function Read(text: string): Option<seq<seq<string>>> {
    ReadRecords(if |text| > 0 && text[0] == BOM then text[1..] else text)
  }

  // ---------------------------------------------------------------------------------------
  // Writing and reading
  // ---------------------------------------------------------------------------------------

  /** What may follow a field. */
  predicate Delimited(rest: string) {
    |rest| == 0 || rest[0] == ',' || rest[0] == '\r'
  }

  lemma {:induction false} QuotedBack(text: string, rest: string)
    requires Delimited(rest)
    ensures ReadQuoted(Replace(text, '"', "\"\"") + "\"" + rest) == Some((text, rest))
    decreases |text|
  {
    var s := Replace(text, '"', "\"\"") + "\"" + rest;
    if |text| == 0 {
      assert s == "\"" + rest && s[1..] == rest;
    } else {
      QuotedBack(text[1..], rest);
      var tail := Replace(text[1..], '"', "\"\"") + "\"" + rest;
      assert text == [text[0]] + text[1..];
      if text[0] == '"' {
        assert s[..2] == "\"\"" && s[2..] == tail;
      } else {
        assert s[0] == text[0] && s[1..] == tail;
      }
    }
  }

  lemma {:induction false} PlainBack(text: string, rest: string)
    requires Delimited(rest) && !NeedsQuotes(text)
    ensures ReadPlain(text + rest) == (text, rest)
    decreases |text|
  {
    if |text| == 0 {
      assert text + rest == rest;
    } else {
      assert Special(text[0]) ==> NeedsQuotes(text);
      assert forall i :: 0 <= i < |text[1..]| ==> text[1..][i] == text[i + 1];
      PlainBack(text[1..], rest);
      assert (text + rest)[1..] == text[1..] + rest;
      assert text == [text[0]] + text[1..];
    }
  }

  lemma FieldBack(text: string, rest: string)
    requires Delimited(rest)
    ensures ReadField(Quoted(text) + rest) == Some((text, rest))
  {
    hide Replace, ReadPlain, ReadQuoted;
    var s := Quoted(text) + rest;
    if NeedsQuotes(text) {
      QuotedBack(text, rest);
      assert s[0] == '"' && s[1..] == Replace(text, '"', "\"\"") + "\"" + rest;
    } else {
      PlainBack(text, rest);
      if |text| > 0 {
        assert Special('"') && s[0] == text[0];
      }
    }
  }

  function Texts(values: seq<Option<string>>): (r: seq<string>)
    ensures |r| == |values|
  {
    seq(|values|, i requires 0 <= i < |values| => CellText(values[i]))
  }

  lemma {:induction false} RecordBack(cells: seq<string>, texts: seq<string>, rest: string)
    requires |cells| == |texts| >= 1 && forall i :: 0 <= i < |cells| ==> cells[i] == Quoted(texts[i])
    requires |rest| > 0 ==> rest[0] == '\r'
    ensures ReadRecord(Join(cells, ",") + rest) == Some((texts, rest))
    decreases |cells|
  {
    hide Quoted, ReadField;
    if |cells| == 1 {
      FieldBack(texts[0], rest);
      assert texts == [texts[0]];
    } else {
      var tail := Join(cells[1..], ",") + rest;
      RecordBack(cells[1..], texts[1..], rest);
      FieldBack(texts[0], "," + tail);
      assert Join(cells, ",") + rest == cells[0] + ("," + tail);
      assert ("," + tail)[1..] == tail;
      assert texts == [texts[0]] + texts[1..];
    }
  }

  ghost predicate Reads(records: seq<seq<string>>, lines: seq<string>) {
    |records| == |lines| && forall i, rest :: 0 <= i < |lines| && (|rest| > 0 ==> rest[0] == '\r') ==>
      ReadRecord(lines[i] + rest) == Some((records[i], rest))
  }

  lemma {:induction false} RecordsBack(records: seq<seq<string>>, lines: seq<string>)
    requires Reads(records, lines) && |lines| >= 1
    ensures ReadRecords(Join(lines, CRLF) + CRLF) == Some(records)
    decreases |lines|
  {
    hide ReadRecord;
    var s := Join(lines, CRLF) + CRLF;
    if |lines| == 1 {
      assert ReadRecord(lines[0] + CRLF) == Some((records[0], CRLF));
      assert CRLF[2..] == "";
      assert records == [records[0]] + [];
      assert ReadRecords("") == Some([]);
    } else {
      var tail := Join(lines[1..], CRLF) + CRLF;
      ReadsRest(records, lines);
      RecordsBack(records[1..], lines[1..]);
      assert s == lines[0] + (CRLF + tail);
      assert ReadRecord(lines[0] + (CRLF + tail)) == Some((records[0], CRLF + tail));
      assert (CRLF + tail)[2..] == tail && StartsWith(CRLF + tail, CRLF);
      assert records == [records[0]] + records[1..];
    }
  }

  lemma ReadsRest(records: seq<seq<string>>, lines: seq<string>)
    requires Reads(records, lines) && |lines| >= 1
    ensures Reads(records[1..], lines[1..])
  {
    hide ReadRecord;
    forall i, rest | 0 <= i < |lines| - 1 && (|rest| > 0 ==> rest[0] == '\r')
      ensures ReadRecord(lines[1..][i] + rest) == Some((records[1..][i], rest))
    {
      assert lines[1..][i] == lines[i + 1];
    }
  }

  /** The records a grid should read back as. */
  function Records(grid: seq<seq<Option<string>>>): (r: seq<seq<string>>)
    ensures |r| == |grid|
  {
    seq(|grid|, i requires 0 <= i < |grid| => Texts(grid[i]))
  }

  lemma GridReads(grid: seq<seq<Option<string>>>)
    requires forall i :: 0 <= i < |grid| ==> |grid[i]| >= 1
    ensures Reads(Records(grid), Lines(grid))
  {
    hide Quoted, ReadRecord, CellText;
    forall i, rest | 0 <= i < |grid| && (|rest| > 0 ==> rest[0] == '\r')
      ensures ReadRecord(Lines(grid)[i] + rest) == Some((Records(grid)[i], rest))
    {
      RecordBack(Cells(grid[i]), Texts(grid[i]), rest);
    }
  }

  lemma EmptyLinesRead(lines: seq<string>)
    requires |lines| >= 1 && forall i :: 0 <= i < |lines| ==> lines[i] == ""
    ensures Reads(seq(|lines|, _ => [""]), lines)
  {
    forall i, rest: string | 0 <= i < |lines| && (|rest| > 0 ==> rest[0] == '\r')
      ensures ReadRecord(lines[i] + rest) == Some(([""], rest))
    {
      assert lines[i] + rest == rest;
    }
  }

  /** A reader gets back the header and every row, one field per column with the guarded text,
      whatever quotes, commas and line breaks the cells hold; and it does so exactly when there is
      at least one column. */
  lemma CsvReadsBack<Row>(rows: seq<Row>, columns: seq<Column<Row>>)
    ensures var text := [BOM] + Join(Lines(Grid(rows, columns)), CRLF) + CRLF;
      Read(text) == Some(Records(Grid(rows, columns))) <==> |columns| >= 1
  {
    hide Reads, Join, Grid, ReadRecords;
    var grid := Grid(rows, columns);
    var body := Join(Lines(grid), CRLF) + CRLF;
    assert ([BOM] + Join(Lines(grid), CRLF) + CRLF)[1..] == body;
    if |columns| >= 1 {
      GridReads(grid);
      RecordsBack(Records(grid), Lines(grid));
    } else {
      forall i | 0 <= i < |grid|
        ensures Lines(grid)[i] == ""
      {
        NoCells(grid[i]);
      }
      EmptyLinesRead(Lines(grid));
      var read := seq(|grid|, _ => [""]);
      RecordsBack(read, Lines(grid));
      assert read[0] != Records(grid)[0];
    }
  }

  lemma NoCells(values: seq<Option<string>>)
    requires |values| == 0
    ensures Line(values) == ""
  {
  }

  /** No cell a spreadsheet opens starts a formula. */
  lemma GuardedIsNoFormula(text: string)
    ensures !StartsFormula(Guarded(text))
    ensures Guarded(text) == if StartsFormula(text) then "'" + text else text
  {
    FormulaFirst(text);
    FormulaFirst("'" + text);
    hide StartsFormula;
  }

  lemma FormulaFirst(text: string)
    ensures StartsFormula(text) <==> Formula(text)
  {
    if StartsFormula(text) {
      var c: char, rest: string :| text == [c] + rest && (c in "=@\t\r" || (c in "+-" && (rest == "" || rest[0] < '0' || '9' < rest[0])));
      assert text[0] == c && text[1..] == rest;
    }
    if Formula(text) {
      var c, rest := text[0], text[1..];
      assert text == [c] + rest && (rest == "" || rest[0] == text[1]);
    }
  }

  /** It begins with an equals sign, an at sign, a tab or a carriage return, or with a sign that no
      digit follows. */
  ghost predicate StartsFormula(text: string) {
    exists c: char, rest: string :: text == [c] + rest && (c in "=@\t\r" || (c in "+-" && (rest == "" || rest[0] < '0' || '9' < rest[0])))
  }
}
