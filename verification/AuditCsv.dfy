/**
 The CSV export of the audit log in src/AtlasGT.Api/Controllers/AdminController.cs: the printer, the
 order of the rows, and a reader for section 2 of RFC 4180 that undoes the printer.
 */
module AuditCsv {
  import opened Results
  import opened CanonicalForm
  import opened HashChain
  import opened Ordinal
  import opened AuditChain
  import opened StableSort

  // ---------- printing ----------

  predicate NeedsQuotes(s: string) {
    ',' in s || '"' in s || '\n' in s || '\r' in s
  }

  function Csv(s: Option<string>): string {
    if s.None? then ""
    else if NeedsQuotes(s.value) then "\"" + Replace(s.value, '"', "\"\"") + "\""
    else s.value
  }

  /** One printed line: the fields joined by commas, and the line terminator. */
  function PrintRow(fields: seq<Option<string>>, nl: string): string {
    if fields == [] then nl
    else if |fields| == 1 then Csv(fields[0]) + nl else Csv(fields[0]) + "," + PrintRow(fields[1..], nl)
  }

  function PrintRows(rows: seq<seq<Option<string>>>, nl: string): string {
    if rows == [] then "" else PrintRow(rows[0], nl) + PrintRows(rows[1..], nl)
  }

  // ---------- reading, by section 2 of RFC 4180 ----------

  datatype Parsed<+T> = Parsed(value: T, rest: string) | Malformed

  /** After an opening quote: up to the closing one, a doubled quote standing for one. */
  function ReadQuoted(t: string): Parsed<string>
    ensures ReadQuoted(t).Parsed? ==> |ReadQuoted(t).rest| < |t|
  {
    if t == "" then Malformed
    else if t[0] != '"' then
      match ReadQuoted(t[1..])
      case Malformed => Malformed
      case Parsed(v, rest) => Parsed([t[0]] + v, rest)
    else if |t| > 1 && t[1] == '"' then
      match ReadQuoted(t[2..])
      case Malformed => Malformed
      case Parsed(v, rest) => Parsed("\"" + v, rest)
    else Parsed("", t[1..])
  }

  function ReadBare(t: string): (r: Parsed<string>)
    ensures r.Parsed? && |r.rest| <= |t|
  {
    if t == "" || t[0] in ",\"\r\n" then Parsed("", t)
    else
      var r := ReadBare(t[1..]);
      Parsed([t[0]] + r.value, r.rest)
  }

  function ReadField(t: string): (r: Parsed<string>)
    ensures r.Parsed? ==> |r.rest| <= |t|
  {
    if t != "" && t[0] == '"' then ReadQuoted(t[1..]) else ReadBare(t)
  }

  function ReadRow(t: string, nl: string): (r: Parsed<seq<string>>)
    requires nl != ""
    ensures r.Parsed? ==> |r.rest| < |t|
    decreases |t|
  {
    match ReadField(t)
    case Malformed => Malformed
    case Parsed(v, rest) =>
      if nl <= rest then Parsed([v], rest[|nl|..])
      else if rest != "" && rest[0] == ',' then
        match ReadRow(rest[1..], nl)
        case Malformed => Malformed
        case Parsed(vs, rest') => Parsed([v] + vs, rest')
      else Malformed
  }

  function ReadRows(t: string, nl: string): Option<seq<seq<string>>>
    requires nl != ""
    decreases |t|
  {
    if t == "" then Some([])
    else
      match ReadRow(t, nl)
      case Malformed => None
      case Parsed(row, rest) =>
        var rows := ReadRows(rest, nl);
        if rows.None? then None else Some([row] + rows.value)
  }

  // ---------- reading undoes printing ----------

  /** The terminators `StringBuilder.AppendLine` writes. */
  predicate IsLineTerminator(nl: string) {
    nl == "\n" || nl == "\r\n"
  }

  /** What follows a field in a printed body. */
  predicate EndsField(tail: string) {
    tail != "" && tail[0] in ",\r\n"
  }

  lemma {:induction false} ReadBarePrinted(s: string, tail: string)
    requires !NeedsQuotes(s) && EndsField(tail)
    ensures ReadBare(s + tail) == Parsed(s, tail)
  {
    if s == "" {
      assert s + tail == tail;
    } else {
      assert (s + tail)[1..] == s[1..] + tail;
      assert s[0] in s && s == [s[0]] + s[1..];
      ReadBarePrinted(s[1..], tail);
    }
  }

  lemma {:induction false} ReadQuotedPrinted(s: string, tail: string)
    requires EndsField(tail)
    ensures ReadQuoted(Replace(s, '"', "\"\"") + "\"" + tail) == Parsed(s, tail)
  {
    var t := Replace(s, '"', "\"\"") + "\"" + tail;
    if s == "" {
      assert t == "\"" + tail;
      assert t[1..] == tail;
    } else {
      ReadQuotedPrinted(s[1..], tail);
      QuotedStep(s[0], Replace(s[1..], '"', "\"\"") + "\"" + tail, s[1..], tail);
      assert t == (if s[0] == '"' then "\"\"" else [s[0]]) + (Replace(s[1..], '"', "\"\"") + "\"" + tail);
      assert s == [s[0]] + s[1..];
    }
  }

  /** One printed character and what follows it inside quotes. */
  lemma QuotedStep(c: char, t: string, v: string, tail: string)
    requires ReadQuoted(t) == Parsed(v, tail)
    ensures ReadQuoted((if c == '"' then "\"\"" else [c]) + t) == Parsed([c] + v, tail)
  {
    if c == '"' {
      assert ("\"\"" + t)[2..] == t;
    } else {
      assert ([c] + t)[1..] == t;
    }
  }

  lemma ReadFieldPrinted(s: Option<string>, tail: string)
    requires EndsField(tail)
    ensures ReadField(Csv(s) + tail) == Parsed(OrEmpty(s), tail)
  {
    var v := OrEmpty(s);
    if NeedsQuotes(v) {
      QuotedFieldReads(v, tail);
    } else {
      assert Csv(s) == v;
      BareFieldReads(v, tail);
    }
  }

  lemma QuotedFieldReads(v: string, tail: string)
    requires EndsField(tail)
    ensures ReadField("\"" + Replace(v, '"', "\"\"") + "\"" + tail) == Parsed(v, tail)
  {
    ReadQuotedPrinted(v, tail);
    InsideQuotes(Replace(v, '"', "\"\""), tail);
  }

  lemma InsideQuotes(q: string, tail: string)
    ensures var t := "\"" + q + "\"" + tail; t != "" && t[0] == '"' && t[1..] == q + "\"" + tail
  {
  }

  lemma BareFieldReads(v: string, tail: string)
    requires !NeedsQuotes(v) && EndsField(tail)
    ensures ReadField(v + tail) == Parsed(v, tail)
  {
    ReadBarePrinted(v, tail);
    assert (v + tail)[0] != '"' by {
      if v == "" {
        assert v + tail == tail;
      } else {
        assert v[0] in v;
      }
    }
  }

  function Texts(fields: seq<Option<string>>): (texts: seq<string>)
    ensures |texts| == |fields|
  {
    if fields == [] then [] else [OrEmpty(fields[0])] + Texts(fields[1..])
  }

  function AllTexts(rows: seq<seq<Option<string>>>): (texts: seq<seq<string>>)
    ensures |texts| == |rows|
  {
    if rows == [] then [] else [Texts(rows[0])] + AllTexts(rows[1..])
  }

  lemma LastFieldReads(t: string, v: string, nl: string, tail: string)
    requires nl != "" && ReadField(t) == Parsed(v, nl + tail)
    ensures ReadRow(t, nl) == Parsed([v], tail)
  {
    assert nl <= nl + tail && (nl + tail)[|nl|..] == tail;
  }

  lemma NextFieldReads(t: string, v: string, rest: string, nl: string, vs: seq<string>, tail: string)
    requires IsLineTerminator(nl)
    requires ReadField(t) == Parsed(v, "," + rest) && ReadRow(rest, nl) == Parsed(vs, tail)
    ensures ReadRow(t, nl) == Parsed([v] + vs, tail)
  {
    assert ("," + rest)[0] == ',' && ("," + rest)[1..] == rest;
  }

  lemma PrintedRowStep(fields: seq<Option<string>>, nl: string, tail: string)
    requires fields != []
    ensures PrintRow(fields, nl) + tail
         == Csv(fields[0]) + if |fields| == 1 then nl + tail else "," + (PrintRow(fields[1..], nl) + tail)
  {
  }

  lemma {:induction false} ReadRowPrinted(fields: seq<Option<string>>, nl: string, tail: string)
    requires fields != [] && IsLineTerminator(nl)
    ensures ReadRow(PrintRow(fields, nl) + tail, nl) == Parsed(Texts(fields), tail)
  {
    var t := PrintRow(fields, nl) + tail;
    PrintedRowStep(fields, nl, tail);
    if |fields| == 1 {
      ReadFieldPrinted(fields[0], nl + tail);
      LastFieldReads(t, OrEmpty(fields[0]), nl, tail);
      assert Texts(fields) == [OrEmpty(fields[0])];
    } else {
      var rest := PrintRow(fields[1..], nl) + tail;
      ReadRowPrinted(fields[1..], nl, tail);
      ReadFieldPrinted(fields[0], "," + rest);
      NextFieldReads(t, OrEmpty(fields[0]), rest, nl, Texts(fields[1..]), tail);
    }
  }

  /** Reading a printed body gives back exactly the printed values, null read as the empty text. */
  lemma {:induction false} ReadRowsPrinted(rows: seq<seq<Option<string>>>, nl: string)
    requires IsLineTerminator(nl)
    requires forall i :: 0 <= i < |rows| ==> rows[i] != []
    ensures ReadRows(PrintRows(rows, nl), nl) == Some(AllTexts(rows))
  {
    if rows != [] {
      ReadRowPrinted(rows[0], nl, PrintRows(rows[1..], nl));
      ReadRowsPrinted(rows[1..], nl);
    }
  }

  // ---------- the export ----------

  const NAMES: seq<string> :=
    ["id", "atUtc", "actor", "action", "targetId", "succeeded", "severity", "sourceIp", "userAgent", "correlationId",
     "errorMessage", "entryHash", "prevHash"]

  function Header(names: seq<string>): (fields: seq<Option<string>>)
    ensures |fields| == |names|
  {
    if names == [] then [] else [Some(names[0])] + Header(names[1..])
  }

  const HEADER: seq<Option<string>> := Header(NAMES)

  /** `AuditSeverity.ToString()`: the name, or the number of an undeclared value. */
  function SeverityName(n: int): string {
    if n == 0 then "Info" else if n == 1 then "Warning" else if n == 2 then "Critical" else Decimal(n)
  }

  function Row(e: Entry): (fields: seq<Option<string>>)
    ensures |fields| == 13
    ensures fields[11] == Some(e.entryHash) && fields[12] == Some(e.prevHash)
  {
    var c := e.content;
    [Some(c.id), Some(c.at.rendered), c.actor, c.action, c.targetId,
     Some(if c.succeeded then "1" else "0"), Some(SeverityName(c.severity)), c.sourceIp, c.userAgent,
     c.correlationId, c.errorMessage, Some(e.entryHash), Some(e.prevHash)]
  }

  function Rows(entries: seq<Entry>): (rows: seq<seq<Option<string>>>)
    ensures |rows| == |entries| && forall i :: 0 <= i < |entries| ==> rows[i] == Row(entries[i])
  {
    seq(|entries|, i requires 0 <= i < |entries| => Row(entries[i]))
  }

  function When(e: Entry): int {
    e.content.at.utcTicks
  }

  /** `ReadAllAsync` without filters: the entries of the log, latest first. */
  function ReadAll(lines: seq<LogLine>): seq<Entry> {
    OrderByDescending(When, EntriesOf(lines))
  }

  function EntriesOf(lines: seq<LogLine>): seq<Entry> {
    if lines == [] then []
    else EntriesOf(lines[..|lines| - 1]) + (if lines[|lines| - 1].Record? then [lines[|lines| - 1].entry] else [])
  }

  /** The entries in the order the export prints them. */
  function Chronological(lines: seq<LogLine>): seq<Entry> {
    OrderBy(When, ReadAll(lines))
  }

  function Body(lines: seq<LogLine>, nl: string): string {
    PrintRows([HEADER] + Rows(Chronological(lines)), nl)
  }

  /** The last line of the export: the digest of the body, and how many entries it lists. */
  function ManifestLine(hash: string, count: nat, nl: string): string {
    "MANIFEST," + hash + "," + Digits(count) + nl
  }

  function Exported(lib: Library, lines: seq<LogLine>, nl: string): string {
    Body(lines, nl) + ManifestLine(lib.sha256(Body(lines, nl)), |Chronological(lines)|, nl)
  }

  method PrintRowsInOrder(rows: seq<seq<Option<string>>>, nl: string) returns (sb: string)
    ensures sb == PrintRows(rows, nl)
  {
    sb := "";
    for i := 0 to |rows|
      invariant sb + PrintRows(rows[i..], nl) == PrintRows(rows, nl)
    {
      ghost var rest := rows[i..];
      assert rest[0] == rows[i] && rest[1..] == rows[i + 1..];
      ghost var before := sb;
      sb := sb + PrintRow(rows[i], nl);
      assert before + (PrintRow(rest[0], nl) + PrintRows(rest[1..], nl)) == sb + PrintRows(rest[1..], nl);
    }
  }

  /** The export: the text, and then one more audit entry that records it. */
  method ExportCsv(log: SignedFileAuditLog, lib: Library, nl: string, record: SignedAuditEntry) returns (text: string)
    modifies log, record
    ensures text == Exported(lib, old(log.lines), nl)
    ensures log.lines == Appended(lib, old(log.lines), record.content)
  {
    var chrono := Chronological(log.lines);
    var csvBody := PrintRowsInOrder([HEADER] + Rows(chrono), nl);
    var hash := lib.sha256(csvBody);
    var manifestLine := ManifestLine(hash, |chrono|, nl);
    text := csvBody + manifestLine;
    var _ := log.Append(lib, record);
  }

  // ---------- what the export shows ----------

  function ManifestRow(hash: string, count: nat): seq<Option<string>> {
    [Some("MANIFEST"), Some(hash), Some(Digits(count))]
  }

  lemma {:induction false} DigitsAreHex(n: nat)
    ensures forall c :: c in Digits(n) ==> IsHexDigit(c)
  {
    if n >= 10 {
      DigitsAreHex(n / 10);
    }
  }

  /** Nothing in the manifest line needs quotes, so it is a row like the others. */
  lemma ManifestIsARow(hash: string, count: nat, nl: string)
    requires IsHexDigest(hash)
    ensures ManifestLine(hash, count, nl) == PrintRow(ManifestRow(hash, count), nl)
  {
    DigitsAreHex(count);
    HexNeedsNoQuotes(hash);
    HexNeedsNoQuotes(Digits(count));
    var name, row := "MANIFEST", ManifestRow(hash, count);
    ThreeBareFields(name, hash, Digits(count), nl);
    assert row == [Some(name), Some(hash), Some(Digits(count))];
    assert "MANIFEST," == name + ",";
  }

  lemma HexNeedsNoQuotes(s: string)
    requires forall c :: c in s ==> IsHexDigit(c)
    ensures !NeedsQuotes(s)
  {
  }

  lemma ThreeBareFields(a: string, b: string, c: string, nl: string)
    requires !NeedsQuotes(a) && !NeedsQuotes(b) && !NeedsQuotes(c)
    ensures PrintRow([Some(a), Some(b), Some(c)], nl) == a + "," + b + "," + c + nl
  {
    var row := [Some(a), Some(b), Some(c)];
    assert row[1..] == [Some(b), Some(c)] && row[1..][1..] == [Some(c)];
    assert PrintRow(row[1..], nl) == b + "," + (c + nl);
    assert a + "," + (b + "," + (c + nl)) == a + "," + b + "," + c + nl;
  }

  lemma {:induction false} PrintRowsAppend(rows: seq<seq<Option<string>>>, row: seq<Option<string>>, nl: string)
    ensures PrintRows(rows + [row], nl) == PrintRows(rows, nl) + PrintRow(row, nl)
  {
    if rows == [] {
      assert rows + [row] == [row];
    } else {
      assert (rows + [row])[1..] == rows[1..] + [row];
      PrintRowsAppend(rows[1..], row, nl);
    }
  }

  lemma RowsAndManifestRead(rows: seq<seq<Option<string>>>, hash: string, count: nat, nl: string)
    requires IsHexDigest(hash) && IsLineTerminator(nl)
    requires forall i :: 0 <= i < |rows| ==> rows[i] != []
    ensures ReadRows(PrintRows(rows, nl) + ManifestLine(hash, count, nl), nl)
         == Some(AllTexts(rows + [ManifestRow(hash, count)]))
  {
    ManifestIsARow(hash, count, nl);
    PrintRowsAppend(rows, ManifestRow(hash, count), nl);
    ReadRowsPrinted(rows + [ManifestRow(hash, count)], nl);
  }

  lemma HeaderAndRows(header: seq<Option<string>>, entries: seq<Entry>)
    requires header != []
    ensures forall i :: 0 <= i <= |entries| ==> ([header] + Rows(entries))[i] != []
  {
  }

  /** The text reads back as the header, one row per entry, the entries stably sorted by time, and the manifest. */
  lemma ExportReadsBack(lib: Library, lines: seq<LogLine>, nl: string)
    requires Sound(lib) && IsLineTerminator(nl)
    ensures ReadRows(Exported(lib, lines, nl), nl)
         == Some(AllTexts([HEADER] + Rows(OrderBy(When, EntriesOf(lines)))
                          + [ManifestRow(lib.sha256(Body(lines, nl)), |EntriesOf(lines)|)]))
  {
    DownThenUp(When, EntriesOf(lines));
    HeaderAndRows(HEADER, Chronological(lines));
    RowsAndManifestRead([HEADER] + Rows(Chronological(lines)), lib.sha256(Body(lines, nl)), |EntriesOf(lines)|, nl);
  }

  // ---------- the columns by their names ----------

  /** In this row the column under this name holds this text, and no other column has the name. */
  ghost predicate Shows(header: seq<string>, row: seq<string>, name: string, text: string) {
    && |row| == |header|
    && exists k :: 0 <= k < |header| && header[k] == name && row[k] == text
                   && forall l :: 0 <= l < |header| && l != k ==> header[l] != name
  }

  /** Every column of the row holds the entry's field of that name. */
  ghost predicate ShowsEntry(header: seq<string>, row: seq<string>, e: Entry) {
    var c := e.content;
    && Shows(header, row, "id", c.id)
    && Shows(header, row, "atUtc", c.at.rendered)
    && Shows(header, row, "actor", OrEmpty(c.actor))
    && Shows(header, row, "action", OrEmpty(c.action))
    && Shows(header, row, "targetId", OrEmpty(c.targetId))
    && Shows(header, row, "succeeded", if c.succeeded then "1" else "0")
    && (c.severity == 0 ==> Shows(header, row, "severity", "Info"))
    && (c.severity == 1 ==> Shows(header, row, "severity", "Warning"))
    && (c.severity == 2 ==> Shows(header, row, "severity", "Critical"))
    && (c.severity !in {0, 1, 2} ==> Shows(header, row, "severity", Decimal(c.severity)))
    && Shows(header, row, "sourceIp", OrEmpty(c.sourceIp))
    && Shows(header, row, "userAgent", OrEmpty(c.userAgent))
    && Shows(header, row, "correlationId", OrEmpty(c.correlationId))
    && Shows(header, row, "errorMessage", OrEmpty(c.errorMessage))
    && Shows(header, row, "entryHash", e.entryHash)
    && Shows(header, row, "prevHash", e.prevHash)
  }

  lemma {:induction false} TextAt(fields: seq<Option<string>>, k: nat)
    requires k < |fields|
    ensures Texts(fields)[k] == OrEmpty(fields[k])
  {
    if k > 0 {
      TextAt(fields[1..], k - 1);
    }
  }

  lemma {:induction false} AllTextsAt(rows: seq<seq<Option<string>>>, i: nat)
    requires i < |rows|
    ensures AllTexts(rows)[i] == Texts(rows[i])
  {
    if i > 0 {
      AllTextsAt(rows[1..], i - 1);
    }
  }

  lemma NamesDistinct()
    ensures forall k, l :: 0 <= k < l < |NAMES| ==> NAMES[k] != NAMES[l]
  {
  }

  lemma {:induction false} HeaderTexts(names: seq<string>)
    ensures Texts(Header(names)) == names
  {
    if names != [] {
      HeaderTexts(names[1..]);
    }
  }

  lemma ColumnShown(row: seq<string>, e: Entry, k: nat)
    requires row == Texts(Row(e)) && k < |NAMES|
    ensures Shows(NAMES, row, NAMES[k], OrEmpty(Row(e)[k]))
  {
    NamesDistinct();
    TextAt(Row(e), k);
    assert NAMES[k] == NAMES[k] && row[k] == OrEmpty(Row(e)[k]);
  }

  lemma RowShows(row: seq<string>, e: Entry)
    requires row == Texts(Row(e))
    ensures ShowsEntry(NAMES, row, e)
  {
    ColumnShown(row, e, 0);
    ColumnShown(row, e, 1);
    ColumnShown(row, e, 2);
    ColumnShown(row, e, 3);
    ColumnShown(row, e, 4);
    ColumnShown(row, e, 5);
    ColumnShown(row, e, 6);
    ColumnShown(row, e, 7);
    ColumnShown(row, e, 8);
    ColumnShown(row, e, 9);
    ColumnShown(row, e, 10);
    ColumnShown(row, e, 11);
    ColumnShown(row, e, 12);
  }

  /** The header, a row for each entry, and the manifest. */
  ghost predicate ShowsLog(table: seq<seq<string>>, entries: seq<Entry>, hash: string) {
    && |table| == |entries| + 2
    && table[0] == NAMES
    && (forall i :: 0 <= i < |entries| ==> ShowsEntry(NAMES, table[i + 1], entries[i]))
    && table[|entries| + 1] == ["MANIFEST", hash, Digits(|entries|)]
  }

  lemma TableRows(header: seq<Option<string>>, entries: seq<Entry>, last: seq<Option<string>>)
    ensures var table := AllTexts([header] + Rows(entries) + [last]);
      && |table| == |entries| + 2 && table[0] == Texts(header) && table[|entries| + 1] == Texts(last)
      && forall i :: 0 <= i < |entries| ==> table[i + 1] == Texts(Row(entries[i]))
  {
    var rows := [header] + Rows(entries) + [last];
    forall i | 0 <= i < |rows|
      ensures AllTexts(rows)[i] == Texts(rows[i])
    {
      AllTextsAt(rows, i);
    }
    assert rows[0] == header && rows[|entries| + 1] == last;
    assert forall i :: 0 <= i < |entries| ==> rows[i + 1] == Rows(entries)[i];
  }

  lemma TableShowsLog(header: seq<Option<string>>, entries: seq<Entry>, hash: string)
    requires Texts(header) == NAMES
    ensures ShowsLog(AllTexts([header] + Rows(entries) + [ManifestRow(hash, |entries|)]), entries, hash)
  {
    var table := AllTexts([header] + Rows(entries) + [ManifestRow(hash, |entries|)]);
    TableRows(header, entries, ManifestRow(hash, |entries|));
    ManifestTexts(hash, |entries|);
    forall i | 0 <= i < |entries|
      ensures ShowsEntry(NAMES, table[i + 1], entries[i])
    {
      RowShows(table[i + 1], entries[i]);
    }
  }

  /** The same entries in the order of their times, those of one instant in the order they had. */
  ghost predicate InTimeOrder(entries: seq<Entry>, original: seq<Entry>) {
    && multiset(entries) == multiset(original)
    && (forall i, j :: 0 <= i < j < |entries| ==> entries[i].content.at.utcTicks <= entries[j].content.at.utcTicks)
    && (forall ticks :: WithKey(When, ticks, entries) == WithKey(When, ticks, original))
  }

  lemma SortedInTimeOrder(entries: seq<Entry>)
    ensures InTimeOrder(OrderBy(When, entries), entries)
  {
    OrderByContents(When, entries);
    OrderByAscending(When, entries);
    var sorted := OrderBy(When, entries);
    assert forall i, j :: 0 <= i < j < |sorted| ==> When(sorted[i]) <= When(sorted[j]);
    forall ticks
      ensures WithKey(When, ticks, sorted) == WithKey(When, ticks, entries)
    {
      OrderByStable(When, ticks, entries);
    }
  }

  /**
   What is read back shows every entry of the log, the latest last and each field under the name of its column,
   and below them the digest of the text above and the number of entries.
   */
  lemma ColumnsUnderHeaders(lib: Library, lines: seq<LogLine>, nl: string)
      returns (table: seq<seq<string>>, entries: seq<Entry>)
    requires Sound(lib) && IsLineTerminator(nl)
    ensures ReadRows(Exported(lib, lines, nl), nl) == Some(table)
    ensures ShowsLog(table, entries, lib.sha256(Body(lines, nl)))
    ensures InTimeOrder(entries, EntriesOf(lines))
  {
    entries := OrderBy(When, EntriesOf(lines));
    SortedInTimeOrder(EntriesOf(lines));
    ExportReadsBack(lib, lines, nl);
    HeaderTexts(NAMES);
    TableShowsLog(HEADER, entries, lib.sha256(Body(lines, nl)));
    table := AllTexts([HEADER] + Rows(entries) + [ManifestRow(lib.sha256(Body(lines, nl)), |entries|)]);
  }

  lemma ManifestTexts(hash: string, count: nat)
    ensures Texts(ManifestRow(hash, count)) == ["MANIFEST", hash, Digits(count)]
  {
    var row := ManifestRow(hash, count);
    TextAt(row, 0);
    TextAt(row, 1);
    TextAt(row, 2);
  }

  /** Every entry of the log is exported, in the order of its lines, and lines that are no entry are passed over. */
  lemma {:induction false} EntriesLineByLine(before: seq<LogLine>, line: LogLine, after: seq<LogLine>)
    ensures EntriesOf(before + [line] + after)
         == EntriesOf(before) + (match line case Record(e) => [e] case _ => []) + EntriesOf(after)
  {
    if after == [] {
      assert before + [line] + after == before + [line];
      assert (before + [line])[..|before|] == before;
    } else {
      var n := |after| - 1;
      var all := before + [line] + after;
      assert all[..|before| + 1 + n] == before + [line] + after[..n] && all[|before| + 1 + n] == after[n];
      EntriesLineByLine(before, line, after[..n]);
    }
  }

  /** A value is printed as it is exactly when it has no comma, quote or line break. */
  lemma PlainIff(s: string)
    ensures Csv(Some(s)) == s <==> forall c :: c in s ==> c !in ",\"\n\r"
  {
    if NeedsQuotes(s) {
      ReplaceGrows(s, '"', "\"\"");
      assert |Csv(Some(s))| >= |s| + 2;
    }
  }

  lemma {:induction false} ReplaceGrows(s: string, c: char, with: string)
    requires with != ""
    ensures |Replace(s, c, with)| >= |s|
  {
    if s != "" {
      ReplaceGrows(s[1..], c, with);
    }
  }

  // ---------- what the manifest detects ----------

  predicate EndsInManifest(lib: Library, text: string, body: string, count: nat, nl: string) {
    text == body + ManifestLine(lib.sha256(body), count, nl)
  }

  /** The text is some body followed by that body's own manifest. */
  ghost predicate Attested(lib: Library, text: string, nl: string) {
    exists body: string, count: nat :: EndsInManifest(lib, text, body, count, nl)
  }

  /** A manifest line holds one M, its first character. */
  lemma OneM(hash: string, count: nat, nl: string, k: nat)
    requires IsHexDigest(hash) && IsLineTerminator(nl) && 0 < k < |ManifestLine(hash, count, nl)|
    ensures ManifestLine(hash, count, nl)[k] != 'M'
  {
    var name, digits := "MANIFEST,", Digits(count);
    DigitsAreHex(count);
    if |name| <= k < |name| + 64 {
      assert ManifestLine(hash, count, nl)[k] == hash[k - |name|] && hash[k - |name|] in hash;
    } else if |name| + 65 <= k < |name| + 65 + |digits| {
      assert ManifestLine(hash, count, nl)[k] == digits[k - |name| - 65] && digits[k - |name| - 65] in digits;
    }
  }

  lemma SameBodyLength(a: string, h: string, m: nat, b: string, h': string, n: nat, nl: string)
    requires IsHexDigest(h) && IsHexDigest(h') && IsLineTerminator(nl)
    requires a + ManifestLine(h, m, nl) == b + ManifestLine(h', n, nl)
    ensures |a| >= |b|
  {
    var text := a + ManifestLine(h, m, nl);
    if |a| < |b| {
      assert text[|b|] == ManifestLine(h', n, nl)[0] == 'M';
      assert text[|b|] == ManifestLine(h, m, nl)[|b| - |a|];
      OneM(h, m, nl, |b| - |a|);
      assert false;
    }
  }

  lemma DigestInLine(hash: string, count: nat, nl: string)
    requires IsHexDigest(hash)
    ensures |ManifestLine(hash, count, nl)| >= 73 && ManifestLine(hash, count, nl)[9..73] == hash
  {
  }

  /** A text ends in one manifest: body and digest can be read off it. */
  lemma ManifestUnique(a: string, h: string, m: nat, b: string, h': string, n: nat, nl: string)
    requires IsHexDigest(h) && IsHexDigest(h') && IsLineTerminator(nl)
    requires a + ManifestLine(h, m, nl) == b + ManifestLine(h', n, nl)
    ensures a == b && h == h'
  {
    SameBodyLength(a, h, m, b, h', n, nl);
    SameBodyLength(b, h', n, a, h, m, nl);
    var text := a + ManifestLine(h, m, nl);
    assert text[..|a|] == a && text[..|b|] == b;
    assert text[|a|..] == ManifestLine(h, m, nl) && text[|b|..] == ManifestLine(h', n, nl);
    DigestInLine(h, m, nl);
    DigestInLine(h', n, nl);
  }

  /** A body altered under the manifest of the original is found out, or the two bodies collide. */
  lemma ManifestDetects(lib: Library, body: string, count: nat, altered: string, nl: string)
    requires Sound(lib) && IsLineTerminator(nl)
    ensures Attested(lib, altered + ManifestLine(lib.sha256(body), count, nl), nl)
        <==> altered == body || TextsCollide(lib, altered, body)
  {
    var text := altered + ManifestLine(lib.sha256(body), count, nl);
    assert IsHexDigest(lib.sha256(body));
    if b: string, n: nat :| EndsInManifest(lib, text, b, n, nl) {
      assert IsHexDigest(lib.sha256(b));
      ManifestUnique(altered, lib.sha256(body), count, b, lib.sha256(b), n, nl);
    }
    if lib.sha256(altered) == lib.sha256(body) {
      assert EndsInManifest(lib, text, altered, count, nl);
    }
  }

  /** But a manifest made anew for the altered body passes: it is a digest, not a signature. */
  lemma RemadeManifestPasses(lib: Library, altered: string, count: nat, nl: string)
    ensures Attested(lib, altered + ManifestLine(lib.sha256(altered), count, nl), nl)
  {
    assert EndsInManifest(lib, altered + ManifestLine(lib.sha256(altered), count, nl), altered, count, nl);
  }

  // ---------- the export and the chain ----------

  lemma {:induction false} EntriesOfChain(lib: Library, lines: seq<LogLine>)
    requires Chained(lib, lines)
    ensures |EntriesOf(lines)| == |lines|
    ensures forall i :: 0 <= i < |lines| ==> lines[i].Record? && EntriesOf(lines)[i] == lines[i].entry
  {
    if lines != [] {
      var n := |lines| - 1;
      assert lines == lines[..n] + lines[n..];
      forall i | 0 <= i < n
        ensures GoodLine(lib, lines[..n], i)
      {
        assert GoodLine(lib, lines, i);
        GoodLinesOfPrefix(lib, lines[..n], lines[n..], i);
      }
      EntriesOfChain(lib, lines[..n]);
      assert GoodLine(lib, lines, n);
    }
  }

  /**
   For an accepted log with nondecreasing times the export lists the log in its own order, so the
   previous-hash column of each row holds the entry-hash column of the row above, up to letter case.
   */
  lemma ExportFollowsChain(lib: Library, lines: seq<LogLine>, i: nat)
    requires Verified(lib, lines).Accepts()
    requires Ascending(When, EntriesOf(lines))
    requires i < |lines|
    ensures |Chronological(lines)| == |lines| && lines[i].Record? && Chronological(lines)[i] == lines[i].entry
    ensures SameIgnoringCase(lib.upper, OrEmpty(Row(Chronological(lines)[i])[12]),
                             if i == 0 then "GENESIS" else OrEmpty(Row(Chronological(lines)[i - 1])[11]))
  {
    VerifyExact(lib, lines);
    EntriesOfChain(lib, lines);
    DownThenUp(When, EntriesOf(lines));
    OrderByOfAscending(When, EntriesOf(lines));
    assert GoodLine(lib, lines, i);
  }
}
