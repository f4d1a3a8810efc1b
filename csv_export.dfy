/** `toCsv`: the profile export. A fixed seven-column header line, then one
    line per row in input order; every data field is quoted with inner
    quotes doubled (section 2, rules 5 to 7, of RFC 4180), and lines are
    separated by a line feed rather than the CRLF of rule 1. */
module CsvExport {
  import opened Wrappers
  import opened JsText

  /** A profile row as the export sees it; `None` is a `null` or absent
      value. */
  datatype Row = Row(
    fullName: Option<string>,
    currentCompany: Option<string>,
    currentTitle: Option<string>,
    location: Option<string>,
    linkedinUrl: Option<string>,
    score: Option<string>,
    status: Option<string>)

  /** The header, in column order. */
  const Columns: seq<string> :=
    ["full_name", "current_company", "current_title", "location", "linkedin_url", "score", "status"]

  /** The value a row holds for column `i` of the header. */
  function Value(row: Row, i: nat): Option<string>
    requires i < |Columns|
  {
    if i == 0 then row.fullName
    else if i == 1 then row.currentCompany
    else if i == 2 then row.currentTitle
    else if i == 3 then row.location
    else if i == 4 then row.linkedinUrl
    else if i == 5 then row.score
    else row.status
  }

  /** `row[key] ?? ""` */
  function Field(row: Row, i: nat): string
    requires i < |Columns|
  {
    match Value(row, i)
    case None => ""
    case Some(v) => v
  }

  /** A row's fields in header order. */
  function Fields(row: Row): seq<string> {
    seq(|Columns|, i requires 0 <= i < |Columns| => Field(row, i))
  }

  /** `"${String(raw).replace(/"/g, '""')}"` */
  function QuoteField(v: string): (r: string)
    ensures |r| >= 2 && r[0] == '"' && r[|r| - 1] == '"'
  {
    "\"" + ReplaceAll(v, '"', "\"\"") + "\""
  }

  /** The line of one row: its quoted fields joined by commas. */
  function RecordLine(fields: seq<string>): string {
    Join(QuoteFields(fields), ",")
  }

  /** Every field quoted, in order. */
  function QuoteFields(fields: seq<string>): seq<string> {
    seq(|fields|, i requires 0 <= i < |fields| => QuoteField(fields[i]))
  }

  /** The line `toCsv` pushes for a row. */
  function Line(row: Row): string {
    RecordLine(Fields(row))
  }

  /** `header.join(",")` */
  function HeaderLine(): string {
    Join(Columns, ",")
  }

  /** The lines `toCsv` collects: the header line, then one line per row. */
  function Lines(rows: seq<Row>): seq<string> {
    [HeaderLine()] + RowLines(rows)
  }

  /** One line per row, in order. */
  function RowLines(rows: seq<Row>): seq<string> {
    seq(|rows|, i requires 0 <= i < |rows| => Line(rows[i]))
  }

  /** The fields of every row, in order. */
  function Table(rows: seq<Row>): seq<seq<string>> {
    seq(|rows|, i requires 0 <= i < |rows| => Fields(rows[i]))
  }

  /** `toCsv(rows)`: the lines are pushed one row at a time and joined by
      line feeds. The result reads back as the header followed by every
      row's fields, in order. */
  method ToCsv(rows: seq<Row>) returns (csv: string)
    ensures csv == Join(Lines(rows), "\n")
    ensures ReadCsv(csv) == Some([Columns] + Table(rows))
  {
    var lines := [Join(Columns, ",")];
    for i := 0 to |rows|
      invariant lines == [HeaderLine()] + RowLines(rows[..i])
    {
      RowLinesSnoc(rows, i);
      lines := lines + [Line(rows[i])];
    }
    assert rows[..|rows|] == rows;
    csv := Join(lines, "\n");
    CsvRoundTrip(rows);
  }

  /** Taking one more row adds that row's line at the end. */
  lemma RowLinesSnoc(rows: seq<Row>, i: nat)
    requires i < |rows|
    ensures RowLines(rows[..i + 1]) == RowLines(rows[..i]) + [Line(rows[i])]
  {
    var a, b := RowLines(rows[..i + 1]), RowLines(rows[..i]) + [Line(rows[i])];
    forall k | 0 <= k < |a| ensures a[k] == b[k] {
      if k < i {
        assert rows[..i + 1][k] == rows[..i][k];
      }
    }
  }

  // ---------------------------------------------------------------------
  // A reader for the format: records separated by line feeds, fields by
  // commas; a field is either quoted (a doubled quote stands for one quote)
  // or plain (running to the next comma or line feed).

  /** The body of a quoted field, after its opening quote: returns the
      value and what follows the closing quote. */
  function ReadQuoted(s: string): (r: Option<(string, string)>)
    ensures r.Some? ==> |r.value.1| < |s|
  {
    if s == [] then None
    else if s[0] == '"' then
      if |s| > 1 && s[1] == '"' then
        match ReadQuoted(s[2..])
        case None => None
        case Some((v, t)) => Some(("\"" + v, t))
      else Some(([], s[1..]))
    else
      match ReadQuoted(s[1..])
      case None => None
      case Some((v, t)) => Some(([s[0]] + v, t))
  }

  /** A plain field: everything up to the next comma or line feed. */
  function ReadPlain(s: string): (r: (string, string))
    ensures |r.1| <= |s|
  {
    if s == [] || s[0] == ',' || s[0] == '\n' then ([], s)
    else
      var (v, t) := ReadPlain(s[1..]);
      ([s[0]] + v, t)
  }

  /** One field, quoted or plain. */
  function ReadField(s: string): (r: Option<(string, string)>)
    ensures r.Some? ==> |r.value.1| <= |s|
  {
    if s != [] && s[0] == '"' then ReadQuoted(s[1..]) else Some(ReadPlain(s))
  }

  /** One record: fields separated by commas, up to a line feed or the end. */
  function ReadRecord(s: string): (r: Option<(seq<string>, string)>)
    ensures r.Some? ==> |r.value.1| <= |s|
    decreases |s|
  {
    match ReadField(s)
    case None => None
    case Some((v, t)) =>
      if t != [] && t[0] == ',' then
        match ReadRecord(t[1..])
        case None => None
        case Some((vs, u)) => Some(([v] + vs, u))
      else Some(([v], t))
  }

  /** Records separated by line feeds, making up all of `s`. */
  function ReadRecords(s: string): Option<seq<seq<string>>>
    decreases |s|
  {
    match ReadRecord(s)
    case None => None
    case Some((vs, t)) =>
      if t == [] then Some([vs])
      else if t[0] == '\n' then
        match ReadRecords(t[1..])
        case None => None
        case Some(rs) => Some([vs] + rs)
      else None
  }

  /** Reads a whole export. */
  function ReadCsv(csv: string): Option<seq<seq<string>>> {
    ReadRecords(csv)
  }

  /** What may follow a field: nothing, or a comma or line feed. */
  predicate FieldEnd(t: string) {
    t == [] || t[0] == ',' || t[0] == '\n'
  }

  /** What may follow a record: nothing, or a line feed. */
  predicate RecordEnd(t: string) {
    t == [] || t[0] == '\n'
  }

  /** The closing quote of a field ends its body. */
  lemma ReadQuotedEnd(t: string)
    requires t == [] || t[0] != '"'
    ensures ReadQuoted(ReplaceAll([], '"', "\"\"") + "\"" + t) == Some(([], t))
  {
    assert ReplaceAll([], '"', "\"\"") + "\"" + t == "\"" + t;
    assert ("\"" + t)[1..] == t;
  }

  /** A doubled quote in the body is read back as one quote. */
  lemma ReadQuotedQuote(v: string, t: string)
    requires v != [] && v[0] == '"'
    requires ReadQuoted(ReplaceAll(v[1..], '"', "\"\"") + "\"" + t) == Some((v[1..], t))
    ensures ReadQuoted(ReplaceAll(v, '"', "\"\"") + "\"" + t) == Some((v, t))
  {
    var rest := ReplaceAll(v[1..], '"', "\"\"") + "\"" + t;
    assert ReplaceAll(v, '"', "\"\"") == "\"\"" + ReplaceAll(v[1..], '"', "\"\"");
    assert ReplaceAll(v, '"', "\"\"") + "\"" + t == "\"\"" + rest;
    assert ("\"\"" + rest)[2..] == rest;
    assert "\"" + v[1..] == v;
  }

  /** Any other character in the body is read back as itself. */
  lemma ReadQuotedOther(v: string, t: string)
    requires v != [] && v[0] != '"'
    requires ReadQuoted(ReplaceAll(v[1..], '"', "\"\"") + "\"" + t) == Some((v[1..], t))
    ensures ReadQuoted(ReplaceAll(v, '"', "\"\"") + "\"" + t) == Some((v, t))
  {
    var rest := ReplaceAll(v[1..], '"', "\"\"") + "\"" + t;
    assert ReplaceAll(v, '"', "\"\"") == [v[0]] + ReplaceAll(v[1..], '"', "\"\"");
    assert ReplaceAll(v, '"', "\"\"") + "\"" + t == [v[0]] + rest;
    assert ([v[0]] + rest)[1..] == rest;
    assert [v[0]] + v[1..] == v;
  }

  /** Doubling the quotes of a value and closing the field is undone by the
      quoted-field reader. */
  lemma {:induction false} ReadQuotedOf(v: string, t: string)
    requires t == [] || t[0] != '"'
    ensures ReadQuoted(ReplaceAll(v, '"', "\"\"") + "\"" + t) == Some((v, t))
    decreases |v|
  {
    if v == [] {
      ReadQuotedEnd(t);
    } else {
      ReadQuotedOf(v[1..], t);
      if v[0] == '"' {
        ReadQuotedQuote(v, t);
      } else {
        ReadQuotedOther(v, t);
      }
    }
  }

  /** Any value, quoted, is read back: stripping the outer quotes and
      undoubling the inner ones recovers it. */
  lemma ReadFieldOf(v: string, t: string)
    requires FieldEnd(t)
    ensures ReadField(QuoteField(v) + t) == Some((v, t))
  {
    var body := ReplaceAll(v, '"', "\"\"") + "\"" + t;
    assert QuoteField(v) + t == "\"" + body;
    assert ("\"" + body)[1..] == body;
    ReadQuotedOf(v, t);
  }

  /** A value with no comma, line feed or quote is read back as a plain
      field. */
  lemma {:induction false} ReadPlainOf(v: string, t: string)
    requires ',' !in v && '\n' !in v
    requires FieldEnd(t)
    ensures ReadPlain(v + t) == (v, t)
    decreases |v|
  {
    if v == [] {
      assert v + t == t;
    } else {
      assert (v + t)[0] == v[0] && (v + t)[1..] == v[1..] + t;
      ReadPlainOf(v[1..], t);
      assert [v[0]] + v[1..] == v;
    }
  }

  /** The last field of a record. */
  lemma ReadRecordLast(x: string, v: string, t: string)
    requires ReadField(x) == Some((v, t)) && RecordEnd(t)
    ensures ReadRecord(x) == Some(([v], t))
  {
  }

  /** A field, a comma, and the rest of the record. */
  lemma ReadRecordNext(x: string, v: string, u: string, vs: seq<string>, t: string)
    requires ReadField(x) == Some((v, u)) && u != [] && u[0] == ','
    requires ReadRecord(u[1..]) == Some((vs, t))
    ensures ReadRecord(x) == Some(([v] + vs, t))
  {
  }

  /** The line of a record of several fields: the first quoted field, a
      comma, and the line of the rest. */
  lemma RecordLineCons(vs: seq<string>)
    requires |vs| > 1
    ensures RecordLine(vs) == QuoteField(vs[0]) + "," + RecordLine(vs[1..])
  {
    assert QuoteFields(vs)[1..] == QuoteFields(vs[1..]);
  }

  /** The quoted fields of a record, joined by commas, are read back. */
  lemma {:induction false} ReadRecordOf(vs: seq<string>, t: string)
    requires vs != [] && RecordEnd(t)
    ensures ReadRecord(RecordLine(vs) + t) == Some((vs, t))
    decreases |vs|
  {
    if |vs| == 1 {
      assert RecordLine(vs) == QuoteField(vs[0]);
      ReadFieldOf(vs[0], t);
      ReadRecordLast(QuoteField(vs[0]) + t, vs[0], t);
      assert [vs[0]] == vs;
    } else {
      var rest := RecordLine(vs[1..]);
      var u := "," + (rest + t);
      RecordLineCons(vs);
      assert RecordLine(vs) + t == QuoteField(vs[0]) + u;
      ReadFieldOf(vs[0], u);
      assert u[1..] == rest + t;
      ReadRecordOf(vs[1..], t);
      ReadRecordNext(QuoteField(vs[0]) + u, vs[0], u, vs[1..], t);
      assert [vs[0]] + vs[1..] == vs;
    }
  }

  /** A plain field is read back when it does not start with a quote. */
  lemma ReadPlainFieldOf(v: string, t: string)
    requires ',' !in v && '\n' !in v && '"' !in v
    requires FieldEnd(t)
    ensures ReadField(v + t) == Some((v, t))
  {
    ReadPlainOf(v, t);
    assert v == [] || (v + t)[0] == v[0];
  }

  /** Names with no comma, line feed or quote, joined by commas, are read
      back as plain fields. */
  lemma {:induction false} ReadPlainRecordOf(vs: seq<string>, t: string)
    requires vs != [] && RecordEnd(t)
    requires forall i :: 0 <= i < |vs| ==> ',' !in vs[i] && '\n' !in vs[i] && '"' !in vs[i]
    ensures ReadRecord(Join(vs, ",") + t) == Some((vs, t))
    decreases |vs|
  {
    if |vs| == 1 {
      assert Join(vs, ",") == vs[0];
      ReadPlainFieldOf(vs[0], t);
      ReadRecordLast(vs[0] + t, vs[0], t);
      assert [vs[0]] == vs;
    } else {
      var rest := Join(vs[1..], ",");
      var u := "," + (rest + t);
      assert Join(vs, ",") + t == vs[0] + u;
      ReadPlainFieldOf(vs[0], u);
      assert u[1..] == rest + t;
      ReadPlainRecordOf(vs[1..], t);
      ReadRecordNext(vs[0] + u, vs[0], u, vs[1..], t);
      assert [vs[0]] + vs[1..] == vs;
    }
  }

  /** The header names are plain. */
  lemma ColumnsPlain()
    ensures forall i :: 0 <= i < |Columns| ==>
      ',' !in Columns[i] && '\n' !in Columns[i] && '"' !in Columns[i]
  {
  }

  /** The data part of the export: each row's line after a line feed. */
  function DataText(rows: seq<Row>): string {
    if rows == [] then "" else "\n" + Line(rows[0]) + DataText(rows[1..])
  }

  /** Joining the lines by line feeds is the header line followed by the
      data part. */
  lemma {:induction false} JoinLines(x: string, rows: seq<Row>)
    ensures Join([x] + RowLines(rows), "\n") == x + DataText(rows)
    decreases |rows|
  {
    if rows != [] {
      var l := Line(rows[0]);
      assert RowLines(rows) == [l] + RowLines(rows[1..]);
      JoinCons(x, RowLines(rows), "\n");
      JoinLines(l, rows[1..]);
      assert x + "\n" + (l + DataText(rows[1..])) == x + DataText(rows);
    } else {
      assert [x] + RowLines(rows) == [x];
    }
  }

  /** The data part of a non-empty list of rows begins with the first
      row's line. */
  lemma DataTextCons(rows: seq<Row>)
    requires rows != []
    ensures DataText(rows)[1..] == Line(rows[0]) + DataText(rows[1..])
  {
    var line := Line(rows[0]);
    var tail := DataText(rows[1..]);
    assert DataText(rows) == "\n" + (line + tail);
  }

  /** The table of a non-empty list of rows begins with the first row's
      fields. */
  lemma TableCons(rows: seq<Row>)
    requires rows != []
    ensures Table(rows) == [Fields(rows[0])] + Table(rows[1..])
  {
  }

  /** A line feed and the data of further rows after a record. */
  lemma DataTextStarts(rows: seq<Row>)
    ensures RecordEnd(DataText(rows))
  {
  }

  /** The last record of a text. */
  lemma ReadRecordsLast(s: string, vs: seq<string>)
    requires ReadRecord(s) == Some((vs, []))
    ensures ReadRecords(s) == Some([vs])
  {
  }

  /** A record followed by a line feed and further records. */
  lemma ReadRecordsNext(s: string, vs: seq<string>, t: string, rs: seq<seq<string>>)
    requires ReadRecord(s) == Some((vs, t)) && t != [] && t[0] == '\n'
    requires ReadRecords(t[1..]) == Some(rs)
    ensures ReadRecords(s) == Some([vs] + rs)
  {
  }

  /** The data part reads back as the fields of every row. */
  lemma {:induction false} ReadDataOf(rows: seq<Row>)
    requires rows != []
    ensures ReadRecords(DataText(rows)[1..]) == Some(Table(rows))
    decreases |rows|
  {
    var vs := Fields(rows[0]);
    var tail := DataText(rows[1..]);
    DataTextCons(rows);
    DataTextStarts(rows[1..]);
    ReadRecordOf(vs, tail);
    TableCons(rows);
    if rows[1..] != [] {
      ReadDataOf(rows[1..]);
      ReadRecordsNext(RecordLine(vs) + tail, vs, tail, Table(rows[1..]));
    } else {
      assert tail == [];
      assert Table(rows) == [vs];
      assert DataText(rows)[1..] == RecordLine(vs) + tail;
      ReadRecordsLast(RecordLine(vs) + tail, vs);
      assert ReadRecords(RecordLine(vs) + tail) == Some([vs]);
    }
  }

  /** The export is the header line followed by the data part. */
  lemma ExportText(rows: seq<Row>)
    ensures Join(Lines(rows), "\n") == HeaderLine() + DataText(rows)
  {
    JoinLines(HeaderLine(), rows);
  }

  /** The header line reads back as the column names, whatever follows. */
  lemma ReadHeader(t: string)
    requires RecordEnd(t)
    ensures ReadRecord(HeaderLine() + t) == Some((Columns, t))
  {
    ColumnsPlain();
    ReadPlainRecordOf(Columns, t);
  }

  /** The header line and the data part read back as the column names and
      the fields of every row. */
  lemma ReadExport(csv: string, rows: seq<Row>)
    requires csv == HeaderLine() + DataText(rows)
    ensures ReadRecords(csv) == Some([Columns] + Table(rows))
  {
    var data := DataText(rows);
    DataTextStarts(rows);
    ReadHeader(data);
    if rows != [] {
      ReadDataOf(rows);
      ReadRecordsNext(csv, Columns, data, Table(rows));
    } else {
      assert data == [] && Table(rows) == [];
      assert [Columns] + Table(rows) == [Columns];
      ReadRecordsLast(csv, Columns);
    }
  }

  /** The export reads back as the header followed by the fields of every
      row, in order. */
  lemma CsvRoundTrip(rows: seq<Row>)
    ensures ReadCsv(Join(Lines(rows), "\n")) == Some([Columns] + Table(rows))
  {
    var csv := Join(Lines(rows), "\n");
    ExportText(rows);
    ReadExport(csv, rows);
  }

  /** Escaping a value up to and including its first quote doubles that
      quote. */
  lemma EscapeFirstQuote(a: string, b: string)
    requires '"' !in a
    ensures ReplaceAll(a + "\"" + b, '"', "\"\"") == a + "\"\"" + ReplaceAll(b, '"', "\"\"")
  {
    var q, dq := "\"", "\"\"";
    assert a + q + b == a + (q + b);
    ReplaceAllConcat(a, q + b, '"', dq);
    ReplaceAllAbsent(a, '"', dq);
    assert (q + b)[0] == '"' && (q + b)[1..] == b;
  }

  /** A value with two inner quotes has each of them doubled, and the
      rest kept as it is. */
  lemma QuoteTwoQuotes(a: string, b: string, c: string)
    requires '"' !in a && '"' !in b && '"' !in c
    ensures QuoteField(a + "\"" + b + "\"" + c) == "\"" + a + "\"\"" + b + "\"\"" + c + "\""
  {
    var q, dq := "\"", "\"\"";
    assert a + q + b + q + c == a + q + (b + q + c);
    EscapeFirstQuote(a, b + q + c);
    EscapeFirstQuote(b, c);
    ReplaceAllAbsent(c, '"', dq);
  }

  /** `Jane "JJ" Doe` is written `"Jane ""JJ"" Doe"`. */
  lemma QuotedName()
    ensures QuoteField("Jane " + "\"" + "JJ" + "\"" + " Doe")
      == "\"" + "Jane " + "\"\"" + "JJ" + "\"\"" + " Doe" + "\""
  {
    QuoteTwoQuotes("Jane ", "JJ", " Doe");
  }

  /** Seven parts joined: each part, with the separator between
      neighbours and nowhere else. */
  lemma JoinSeven(a: string, b: string, c: string, d: string, e: string, f: string, g: string, sep: string)
    ensures Join([a, b, c, d, e, f, g], sep)
         == a + sep + b + sep + c + sep + d + sep + e + sep + f + sep + g
  {
    var xs := [a, b, c, d, e, f, g];
    JoinCons(a, xs[1..], sep);
    assert xs[1..][1..] == xs[2..];
    JoinCons(b, xs[2..], sep);
    assert xs[2..][1..] == xs[3..];
    JoinCons(c, xs[3..], sep);
    assert xs[3..][1..] == xs[4..];
    JoinCons(d, xs[4..], sep);
    assert xs[4..][1..] == xs[5..];
    JoinCons(e, xs[5..], sep);
    assert xs[5..][1..] == xs[6..];
    JoinCons(f, xs[6..], sep);
  }

  /** The header line names the seven columns in order, comma-separated and
      unquoted. */
  lemma HeaderText()
    ensures HeaderLine()
         == "full_name" + "," + "current_company" + "," + "current_title" + ","
          + "location" + "," + "linkedin_url" + "," + "score" + "," + "status"
  {
    JoinSeven("full_name", "current_company", "current_title", "location",
              "linkedin_url", "score", "status", ",");
  }

  /** Exporting no rows gives the header line alone, with no line break. */
  lemma EmptyExport()
    ensures Join(Lines([]), "\n") == HeaderLine()
  {
    assert Lines([]) == [HeaderLine()];
  }
}
