/**
 * GET /export and the row-level logic of POST /import. A CSV file is taken
 * as the sequence of records `fgetcsv` reads from it, each a sequence of
 * cells; quoting and line breaks inside cells belong to the CSV encoding
 * and are not modelled.
 */
module Csv {
  import opened Text
  import opened Ledger
  import opened Filter
  import opened Ordering

  type CsvRow = seq<string>
  type CsvFile = seq<CsvRow>

  const ExpectedHeader: CsvRow := ["date", "description", "category", "account", "amount", "tags"]

  // ---------------------------------------------------------------------------
  // Export
  // ---------------------------------------------------------------------------

  /** One exported line: the six columns, the amount as text, NULL tags as an empty cell. */
  function ExportLine(t: Transaction): (line: CsvRow)
    ensures |line| == 6
  {
    [t.date, t.description, t.category, t.account, IntToText(t.amount),
     match t.tags case None => "" case Some(s) => s]
  }

  function ExportLines(s: seq<Transaction>): (lines: seq<CsvRow>)
    ensures |lines| == |s|
    ensures forall i :: 0 <= i < |s| ==> lines[i] == ExportLine(s[i])
  {
    seq(|s|, i requires 0 <= i < |s| => ExportLine(s[i]))
  }

  /** The export file: the header, then the matching rows oldest first. */
  function ExportFile(rows: seq<Transaction>, c: Criteria): (file: CsvFile)
    ensures |file| == 1 + |FilterRows(rows, c)|
    ensures file[0] == ExpectedHeader
  {
    ListAndExportSelectMatches(rows, c);
    assert |ExportRows(rows, c)| == |multiset(ExportRows(rows, c))| == |FilterRows(rows, c)|;
    [ExpectedHeader] + ExportLines(ExportRows(rows, c))
  }

  // ---------------------------------------------------------------------------
  // Import
  // ---------------------------------------------------------------------------

  /** The header test: each cell trimmed and lower-cased, and exactly the six names in order. */
  predicate HeaderOk(header: CsvRow) {
    |header| == |ExpectedHeader| &&
    forall i :: 0 <= i < |header| ==> Lower(Trim(header[i])) == ExpectedHeader[i]
  }

  /** A missing file header (an empty file) never matches. */
  function HeaderOf(file: CsvFile): Option<CsvRow> {
    if file == [] then None else Some(file[0])
  }

  /** Cell `i` of a record; a cell past the end of the record is null. */
  function Cell(row: CsvRow, i: nat): Option<string> {
    if i < |row| then Some(row[i]) else None
  }

  /** `(string)` of a cell: null becomes the empty string. */
  function CellText(o: Option<string>): string {
    match o
    case None => ""
    case Some(s) => s
  }

  /** A record is imported when its date has the YYYY-MM-DD form and its amount is numeric. */
  predicate Accepts(row: CsvRow) {
    IsDatePattern(CellText(Cell(row, 0))) && Cell(row, 4).Some? && IsNumeric(Cell(row, 4).value)
  }

  /** An accepted record has at least five cells, so only tags can be null. */
  lemma AcceptedHasFiveCells(row: CsvRow)
    requires Accepts(row)
    ensures |row| >= 5
  {
  }

  /** The stored record for an accepted CSV row. */
  function RowRecord(row: CsvRow, id: nat, now: Timestamp): (t: Transaction)
    requires Accepts(row)
    ensures t.id == id && t.date == row[0] && IsDatePattern(t.date)
    ensures t.amount == ParseInt(row[4])
    ensures t.tags == Cell(row, 5)
  {
    Transaction(id, row[0], row[1], row[2], row[3], ParseInt(row[4]), Cell(row, 5), now, None)
  }

  /** The accepted records of a body, in file order. */
  function AcceptedRows(body: CsvFile): (r: CsvFile)
    ensures forall row :: row in r ==> Accepts(row)
    ensures forall row :: row in r <==> row in body && Accepts(row)
    ensures |r| <= |body|
  {
    if body == [] then []
    else
      var last := body[|body| - 1];
      assert body == body[..|body| - 1] + [last];
      AcceptedRows(body[..|body| - 1]) + (if Accepts(last) then [last] else [])
  }

  /** The records inserted for accepted rows, ids consecutive from `firstId`. */
  function Records(accepted: CsvFile, firstId: nat, now: Timestamp): (r: seq<Transaction>)
    requires forall row :: row in accepted ==> Accepts(row)
    ensures |r| == |accepted|
    ensures forall i :: 0 <= i < |r| ==> r[i] == RowRecord(accepted[i], firstId + i, now)
  {
    seq(|accepted|, i requires 0 <= i < |accepted| => RowRecord(accepted[i], firstId + i, now))
  }

  /**
   * Exporting an imported record gives its row back: the same date and texts,
   * an amount cell of the same number, the tags cell or "" for a missing
   * one; and that line imports as the same record (a missing tags cell
   * having become the empty string).
   */
  lemma RowRecordExportsBack(row: CsvRow, id: nat, now: Timestamp)
    requires Accepts(row)
    ensures var line := ExportLine(RowRecord(row, id, now));
      && line[..4] == row[..4]
      && IsNumeric(line[4]) && ParseInt(line[4]) == ParseInt(row[4])
      && line[5] == CellText(Cell(row, 5))
      && Accepts(line)
      && RowRecord(line, id, now) == RowRecord(row, id, now).(tags := Some(CellText(Cell(row, 5))))
  {
    IntTextRoundTrip(ParseInt(row[4]));
  }

  /** The records an import of `body` inserts, when the header has matched. */
  function Imported(body: CsvFile, firstId: nat, now: Timestamp): seq<Transaction> {
    Records(AcceptedRows(body), firstId, now)
  }

  /** Each accepted row is imported as often as it occurs in the body; a rejected row never is. */
  lemma {:induction false} AcceptedRowsCount(body: CsvFile)
    ensures forall row :: multiset(AcceptedRows(body))[row] == if Accepts(row) then multiset(body)[row] else 0
  {
    if body != [] {
      var init := body[..|body| - 1];
      var last := body[|body| - 1];
      assert body == init + [last];
      AcceptedRowsCount(init);
      assert multiset(body) == multiset(init) + multiset{last};
    }
  }

  lemma AcceptedRowsSnoc(body: CsvFile, row: CsvRow)
    ensures AcceptedRows(body + [row]) == AcceptedRows(body) + (if Accepts(row) then [row] else [])
  {
    assert (body + [row])[..|body|] == body;
  }

  lemma RecordsSnoc(accepted: CsvFile, row: CsvRow, firstId: nat, now: Timestamp)
    requires forall r :: r in accepted ==> Accepts(r)
    requires Accepts(row)
    ensures Records(accepted + [row], firstId, now)
         == Records(accepted, firstId, now) + [RowRecord(row, firstId + |accepted|, now)]
  {
  }

  /** One more record of the body adds its record, numbered after those before it, when it is accepted. */
  lemma ImportStep(body: CsvFile, i: nat, firstId: nat, now: Timestamp, done: seq<Transaction>)
    requires i < |body| && done == Imported(body[..i], firstId, now)
    ensures Accepts(body[i]) ==> Imported(body[..i + 1], firstId, now) == done + [RowRecord(body[i], firstId + |done|, now)]
    ensures !Accepts(body[i]) ==> Imported(body[..i + 1], firstId, now) == done
  {
    assert body[..i + 1] == body[..i] + [body[i]];
    AcceptedRowsSnoc(body[..i], body[i]);
    if Accepts(body[i]) {
      RecordsSnoc(AcceptedRows(body[..i]), body[i], firstId, now);
    }
  }

  /** Every imported record has a well-formed date and an id in `[firstId, firstId + count)`, ascending. */
  lemma ImportedWellFormed(body: CsvFile, firstId: nat, now: Timestamp)
    ensures var r := Imported(body, firstId, now);
      && |r| <= |body|
      && (forall i :: 0 <= i < |r| ==> r[i].id == firstId + i && IsDatePattern(r[i].date))
      && IdsAscending(r)
  {
  }

  /** A header name of lower-case letters survives trim() and strtolower(). */
  lemma HeaderNameKept(name: string)
    requires forall i :: 0 <= i < |name| ==> 'a' <= name[i] <= 'z'
    ensures Lower(Trim(name)) == name
  {
    LowerLettersUnchanged(name);
  }

  /** The header the export writes is one the import accepts. */
  lemma ExpectedHeaderAccepted()
    ensures HeaderOk(ExpectedHeader)
  {
    forall i | 0 <= i < |ExpectedHeader| ensures Lower(Trim(ExpectedHeader[i])) == ExpectedHeader[i] {
      var name := ExpectedHeader[i];
      assert forall j :: 0 <= j < |name| ==> 'a' <= name[j] <= 'z' by {
        if i == 0 { assert name == "date"; }
        else if i == 1 { assert name == "description"; }
        else if i == 2 { assert name == "category"; }
        else if i == 3 { assert name == "account"; }
        else if i == 4 { assert name == "amount"; }
        else { assert name == "tags"; }
      }
      HeaderNameKept(name);
    }
  }

  /** The row an exported record reads back as: same content, empty tags for NULL, new id and timestamps. */
  function Reimported(t: Transaction, id: nat, now: Timestamp): Transaction {
    Transaction(id, t.date, t.description, t.category, t.account, t.amount,
                Some(match t.tags case None => "" case Some(s) => s), now, None)
  }

  /** An exported line of a record with a well-formed date is accepted and reads back as that record. */
  lemma ExportLineReadsBack(t: Transaction, id: nat, now: Timestamp)
    requires IsDatePattern(t.date)
    ensures Accepts(ExportLine(t))
    ensures RowRecord(ExportLine(t), id, now) == Reimported(t, id, now)
  {
    IntTextRoundTrip(t.amount);
  }

  lemma ExportLinesSnoc(s: seq<Transaction>)
    requires s != []
    ensures ExportLines(s) == ExportLines(s[..|s| - 1]) + [ExportLine(s[|s| - 1])]
  {
    var init := s[..|s| - 1];
    assert forall i :: 0 <= i < |init| ==> init[i] == s[i];
  }

  lemma {:induction false} ExportedLinesAccepted(s: seq<Transaction>)
    requires forall t :: t in s ==> IsDatePattern(t.date)
    ensures AcceptedRows(ExportLines(s)) == ExportLines(s)
  {
    if s != [] {
      var init := s[..|s| - 1];
      var last := s[|s| - 1];
      ExportLinesSnoc(s);
      assert forall t :: t in init ==> t in s;
      ExportedLinesAccepted(init);
      assert last in s;
      ExportLineReadsBack(last, 0, "");
      AcceptedRowsSnoc(ExportLines(init), ExportLine(last));
    }
  }

  /**
   * Importing an export re-creates its rows in export order: the header
   * matches, every line is accepted, and each record keeps its date, texts
   * and amount (a NULL tag comes back as the empty string).
   */
  lemma ExportImportRoundTrip(rows: seq<Transaction>, c: Criteria, firstId: nat, now: Timestamp)
    requires forall t :: t in rows ==> IsDatePattern(t.date)
    ensures var file := ExportFile(rows, c);
      var back := Imported(file[1..], firstId, now);
      && HeaderOk(file[0])
      && |back| == |ExportRows(rows, c)|
      && forall i :: 0 <= i < |back| ==> back[i] == Reimported(ExportRows(rows, c)[i], firstId + i, now)
  {
    var up := ExportRows(rows, c);
    var file := ExportFile(rows, c);
    ExpectedHeaderAccepted();
    ListAndExportSelectMatches(rows, c);
    ExportedLinesAccepted(up);
    assert file[1..] == ExportLines(up);
    forall i | 0 <= i < |up| ensures Imported(file[1..], firstId, now)[i] == Reimported(up[i], firstId + i, now) {
      assert up[i] in multiset(up);
      ExportLineReadsBack(up[i], firstId + i, now);
    }
  }
}
