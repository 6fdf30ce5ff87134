/**
 * `buildRecords` (utils/transactions.ts): turns the parsed rows of an uploaded CSV file into
 * upload records, using the column chosen for each field. A field whose column is not chosen
 * (or is not present in the row) reads as empty; the date keeps what comes before the first
 * "T"; the amount defaults to 0; a missing description or balance is null.
 */
module CsvRecords {
  import opened Basics
  import opened Text
  import opened Numbers

  /**
   * A cell of a parsed row. `Absent` is a missing, `null` or `undefined` cell; `Amount` is a
   * cell the parser has read as a number, in cents; `Text` is any other cell.
   */
  datatype Cell = Absent | Text(text: string) | Amount(cents: int)

  /** The column chosen for each field; `None` when the user has not chosen one. */
  datatype Mapping = Mapping(
    date: Option<string>,
    reference: Option<string>,
    description: Option<string>,
    amount: Option<string>,
    balance: Option<string>)

  /** A row is keyed by column header. */
  type Row = map<string, Cell>

  /** A built record; `Number(...)` may be `NaN`. */
  datatype CsvRecord = CsvRecord(
    date: string,
    reference: string,
    description: Option<string>,
    amount: Num,
    balance: Option<Num>)

  /** `key ? row?.[key] : undefined`: an unchosen or empty column name reads nothing. */
  function Get(row: Row, key: Option<string>): Cell {
    if key.None? || key.value == "" || key.value !in row then Absent else row[key.value]
  }

  /** `String(cell ?? "")`. */
  function TextOf(c: Cell): string {
    match c
    case Absent => ""
    case Text(s) => s
    case Amount(v) => CentsText(v)
  }

  /** `Number(cell)` for a present cell. */
  function NumberOf(c: Cell): Num {
    match c
    case Absent => Finite(0)
    case Text(s) => ParseCents(s)
    case Amount(v) => Finite(v)
  }

  /** `s.split("T")[0]`: the part of the text before its first "T". */
  function DatePart(s: string): (d: string)
    ensures 'T' !in d
    ensures d <= s
  {
    var parts := Split(s, 'T');
    JoinStartsWithFirst(parts, 'T');
    parts[0]
  }

  lemma JoinStartsWithFirst(parts: seq<string>, sep: char)
    requires |parts| >= 1
    ensures parts[0] <= Join(parts, sep)
  {
  }

  /** The record built from one row. */
  function BuildRecord(row: Row, m: Mapping): CsvRecord {
    var description := Get(row, m.description);
    var balance := Get(row, m.balance);
    CsvRecord(
      DatePart(TextOf(Get(row, m.date))),
      TextOf(Get(row, m.reference)),
      if description.Absent? then None else Some(TextOf(description)),
      NumberOf(Get(row, m.amount)),
      if balance.Absent? then None else Some(NumberOf(balance)))
  }

  /**
   * `buildRecords`: missing or empty rows give no records; otherwise one record per row, in
   * the order of the rows.
   */
  function BuildRecords(rows: Option<seq<Row>>, m: Mapping): (r: seq<CsvRecord>)
    ensures rows.None? ==> r == []
    ensures rows.Some? ==> |r| == |rows.value|
    ensures rows.Some? ==> forall i :: 0 <= i < |rows.value| ==> r[i] == BuildRecord(rows.value[i], m)
  {
    if rows.None? || rows.value == [] then []
    else seq(|rows.value|, i requires 0 <= i < |rows.value| => BuildRecord(rows.value[i], m))
  }

  /** With no column chosen for a field, the field takes its default. */
  lemma Unmapped(row: Row)
    ensures BuildRecord(row, Mapping(None, None, None, None, None)) == CsvRecord("", "", None, Finite(0), None)
  {
    assert Split("", 'T') == [""];
  }

  /**
   * The date is the cell's text up to its first "T": a date-time "2024-01-31T10:00" gives
   * "2024-01-31", and text without a "T" is kept whole.
   */
  lemma DateBeforeTime(d: string, rest: string)
    requires 'T' !in d
    ensures DatePart(d + "T" + rest) == d
    ensures DatePart(d) == d
  {
    SplitAfterPiece(d, rest, 'T');
    SplitNoSeparator(d, 'T');
  }

  /** An amount written as text is read back as the same amount as a numeric cell. */
  lemma AmountCellsAgree(cents: int)
    ensures NumberOf(Text(CentsText(cents))) == NumberOf(Amount(cents))
  {
    ParseCentsText(cents);
  }

  /**
   * A present description or balance is kept (as text, or as a number), and only an absent
   * cell gives null; an absent amount is 0.
   */
  lemma OptionalFields(row: Row, m: Mapping)
    ensures var r := BuildRecord(row, m);
            && (r.description.None? <==> Get(row, m.description).Absent?)
            && (r.balance.None? <==> Get(row, m.balance).Absent?)
            && (Get(row, m.amount).Absent? ==> r.amount == Finite(0))
            && (Get(row, m.description).Text? ==> r.description == Some(Get(row, m.description).text))
            && (Get(row, m.balance).Amount? ==> r.balance == Some(Finite(Get(row, m.balance).cents)))
  {
  }
}
