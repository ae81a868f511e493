/** CSV export, read back by a reader for the grammar of section 2 of RFC 4180.  Text is a sequence
    of characters; the byte order mark is the one character it encodes. */
module Csv {
  import opened Wrappers
  import opened Ordering

  const BOM: char := '\U{FEFF}'
  const CRLF: string := "\r\n"

  // ---- The grammar, as a relation between a table and the texts that denote it ----

  /** The characters an unquoted field cannot contain. */
  predicate Special(c: char) {
    c == ',' || c == '\"' || c == '\r' || c == '\n'
  }

  predicate Plain(s: string) {
    forall i :: 0 <= i < |s| ==> !Special(s[i])
  }

  /** Each quote mark written twice. */
  function Doubled(s: string): string {
    if s == "" then ""
    else (if s[0] == '\"' then "\"\"" else [s[0]]) + Doubled(s[1..])
  }

  predicate FieldText(field: string, text: string) {
    (text == field && Plain(field)) || text == "\"" + Doubled(field) + "\""
  }

  ghost predicate RecordText(fields: seq<string>, text: string)
    decreases |fields|
  {
    |fields| > 0 &&
    if |fields| == 1 then FieldText(fields[0], text)
    else exists head: string, tail: string ::
        FieldText(fields[0], head) && RecordText(fields[1..], tail) && text == head + "," + tail
  }

  /** Every record on a line of its own, the last line ended as well. */
  ghost predicate FileText(records: seq<seq<string>>, text: string)
    decreases |records|
  {
    if |records| == 0 then text == ""
    else exists line: string, rest: string ::
        RecordText(records[0], line) && FileText(records[1..], rest) && text == line + CRLF + rest
  }

  // ---- The reader ----

  /** What was read, and the text left over. */
  datatype Read<T> = Read(value: T, rest: string)

  function ReadPlain(s: string): (r: Read<string>)
    ensures |r.rest| <= |s|
  {
    if s == "" || Special(s[0]) then Read("", s)
    else
      var r := ReadPlain(s[1..]);
      Read([s[0]] + r.value, r.rest)
  }

  /** The inside of a quoted field and its closing quote. */
  function ReadQuoted(s: string): (r: Option<Read<string>>)
    ensures r.Some? ==> |r.value.rest| < |s|
  {
    if s == "" then None
    else if s[0] != '\"' then
      match ReadQuoted(s[1..])
      case None => None
      case Some(r) => Some(Read([s[0]] + r.value, r.rest))
    else if |s| > 1 && s[1] == '\"' then
      match ReadQuoted(s[2..])
      case None => None
      case Some(r) => Some(Read("\"" + r.value, r.rest))
    else Some(Read("", s[1..]))
  }

  function ReadField(s: string): (r: Option<Read<string>>)
    ensures r.Some? ==> |r.value.rest| <= |s|
  {
    if s != "" && s[0] == '\"' then ReadQuoted(s[1..]) else Some(ReadPlain(s))
  }

  /** A record and the line break after it, which the last record may lack. */
  function ReadRecord(s: string): (r: Option<Read<seq<string>>>)
    ensures r.Some? && s != "" ==> |r.value.rest| < |s|
    decreases |s|
  {
    match ReadField(s)
    case None => None
    case Some(field) =>
      if field.rest == "" then Some(Read([field.value], ""))
      else if CRLF <= field.rest then Some(Read([field.value], field.rest[2..]))
      else if field.rest[0] != ',' then None
      else
        match ReadRecord(field.rest[1..])
        case None => None
        case Some(r) => Some(Read([field.value] + r.value, r.rest))
  }

  function ReadFile(s: string): Option<seq<seq<string>>>
    decreases |s|
  {
    if s == "" then Some([])
    else
      match ReadRecord(s)
      case None => None
      case Some(r) =>
        match ReadFile(r.rest)
        case None => None
        case Some(records) => Some([r.value] + records)
  }

  // ---- The reader inverts the grammar ----

  /** Text that may stand right after a field. */
  predicate Follows(rest: string) {
    rest == "" || rest[0] == ',' || CRLF <= rest
  }

  lemma {:induction false} PlainIsRead(field: string, rest: string)
    requires Plain(field) && Follows(rest)
    ensures ReadPlain(field + rest) == Read(field, rest)
  {
    if field == "" {
      assert field + rest == rest;
    } else {
      assert (field + rest)[1..] == field[1..] + rest;
      PlainIsRead(field[1..], rest);
      assert field == [field[0]] + field[1..];
    }
  }

  lemma {:induction false} QuotedIsRead(field: string, rest: string)
    requires Follows(rest)
    ensures ReadQuoted(Doubled(field) + "\"" + rest) == Some(Read(field, rest))
  {
    var s := Doubled(field) + "\"" + rest;
    if field == "" {
      assert s == "\"" + rest;
      assert s[1..] == rest;
    } else {
      QuotedIsRead(field[1..], rest);
      var inner := Doubled(field[1..]) + "\"" + rest;
      if field[0] == '\"' {
        assert s == "\"\"" + inner;
        assert s[2..] == inner;
      } else {
        assert s == [field[0]] + inner;
        assert s[1..] == inner;
      }
      assert field == [field[0]] + field[1..];
    }
  }

  lemma FieldIsRead(field: string, text: string, rest: string)
    requires FieldText(field, text) && Follows(rest)
    ensures ReadField(text + rest) == Some(Read(field, rest))
  {
    if text == field && Plain(field) {
      PlainIsRead(field, rest);
      assert (text + rest) != "" ==> (text + rest)[0] != '\"';
    } else {
      QuotedIsRead(field, rest);
      assert (text + rest)[1..] == Doubled(field) + "\"" + rest;
    }
  }

  /** One step of the record reader past a field that another field follows. */
  lemma ReadRecordStep(s: string, field: string, more: string, r: Read<seq<string>>)
    requires ReadField(s) == Some(Read(field, "," + more)) && ReadRecord(more) == Some(r)
    ensures ReadRecord(s) == Some(Read([field] + r.value, r.rest))
  {
    hide ReadField;
    var after := "," + more;
    assert after[0] == ',' && after[1..] == more;
    assert !(CRLF <= after);
  }

  lemma ReadRecordEnd(s: string, field: string, rest: string)
    requires ReadField(s) == Some(Read(field, CRLF + rest))
    ensures ReadRecord(s) == Some(Read([field], rest))
  {
    hide ReadField;
    assert (CRLF + rest)[2..] == rest;
  }

  lemma {:induction false} RecordIsRead(fields: seq<string>, text: string, rest: string)
    requires RecordText(fields, text)
    ensures ReadRecord(text + CRLF + rest) == Some(Read(fields, rest))
    decreases |fields|
  {
    hide ReadField, ReadRecord, FieldText;
    var s := text + CRLF + rest;
    if |fields| == 1 {
      assert s == text + (CRLF + rest);
      FieldIsRead(fields[0], text, CRLF + rest);
      ReadRecordEnd(s, fields[0], rest);
      assert fields == [fields[0]];
    } else {
      var head: string, tail: string :|
        FieldText(fields[0], head) && RecordText(fields[1..], tail) && text == head + "," + tail;
      var more := tail + CRLF + rest;
      assert s == head + ("," + more);
      FieldIsRead(fields[0], head, "," + more);
      RecordIsRead(fields[1..], tail, rest);
      ReadRecordStep(s, fields[0], more, Read(fields[1..], rest));
      assert fields == [fields[0]] + fields[1..];
    }
  }

  /** Whatever quoting a writer chooses, the reader returns the table it wrote. */
  lemma {:induction false} ReaderInvertsGrammar(records: seq<seq<string>>, text: string)
    requires FileText(records, text)
    ensures ReadFile(text) == Some(records)
    decreases |records|
  {
    hide ReadRecord, RecordText;
    if |records| == 0 {
    } else {
      var line: string, rest: string :|
        RecordText(records[0], line) && FileText(records[1..], rest) && text == line + CRLF + rest;
      RecordIsRead(records[0], line, rest);
      ReaderInvertsGrammar(records[1..], rest);
      assert records == [records[0]] + records[1..];
    }
  }

  /** No text denotes two tables. */
  lemma GrammarIsUnambiguous(a: seq<seq<string>>, b: seq<seq<string>>, text: string)
    requires FileText(a, text) && FileText(b, text)
    ensures a == b
  {
    ReaderInvertsGrammar(a, text);
    ReaderInvertsGrammar(b, text);
  }

  // ---- The writer ----

  function QuoteField(s: string): (r: string)
    ensures FieldText(s, r)
    ensures Plain(s) ==> r == s
  {
    if ',' in s || '\"' in s || '\n' in s || '\r' in s then "\"" + Doubled(s) + "\"" else s
  }

  function Join(parts: seq<string>): string {
    if parts == [] then ""
    else if |parts| == 1 then parts[0]
    else parts[0] + "," + Join(parts[1..])
  }

  function WriteRow(fields: seq<string>): string {
    Join(Map(fields, QuoteField)) + CRLF
  }

  lemma {:induction false} JoinedIsRecord(fields: seq<string>)
    requires |fields| > 0
    ensures RecordText(fields, Join(Map(fields, QuoteField)))
  {
    var parts := Map(fields, QuoteField);
    if |fields| == 1 {
    } else {
      JoinedIsRecord(fields[1..]);
      assert parts[1..] == Map(fields[1..], QuoteField);
    }
  }

  lemma DoubledTwo(a: char, b: char)
    requires a != '\"' && b != '\"'
    ensures Doubled([a, b]) == [a, b]
  {
    assert [a, b][1..] == [b] && [b][1..] == "";
    assert Doubled([b]) == [b] + Doubled("");
  }

  lemma WrittenFields()
    ensures QuoteField("ab") == "ab" && QuoteField("") == ""
    ensures QuoteField(",b") == "\",b\"" && QuoteField("\r\n") == "\"\r\n\"" && QuoteField("\"") == "\"\"\"\""
  {
    DoubledTwo(',', 'b');
    DoubledTwo('\r', '\n');
    assert Doubled("\"") == "\"\"" + Doubled("");
  }

  lemma JoinThree(a: string, b: string, c: string)
    ensures Join([a, b, c]) == a + "," + (b + "," + c)
  {
    assert [a, b, c][1..] == [b, c] && [b, c][1..] == [c];
    assert Join([b, c]) == b + "," + Join([c]);
  }

  /** A row as written: commas between fields, quotes where the text asks for them, and a line break. */
  lemma WrittenRow()
    ensures WriteRow(["ab", "\r\n", "\""]) == "ab,\"\r\n\",\"\"\"\"\r\n"
  {
    WrittenFields();
    hide QuoteField, Doubled, Join;
    JoinThree("ab", "\"\r\n\"", "\"\"\"\"");
    assert Map(["ab", "\r\n", "\""], QuoteField) == ["ab", "\"\r\n\"", "\"\"\"\""];
  }

  ghost predicate AllNonEmpty(records: seq<seq<string>>) {
    forall i :: 0 <= i < |records| ==> |records[i]| > 0
  }

  function Rows(records: seq<seq<string>>): string {
    if records == [] then "" else WriteRow(records[0]) + Rows(records[1..])
  }

  lemma {:induction false} RowsSnoc(records: seq<seq<string>>, record: seq<string>)
    ensures Rows(records + [record]) == Rows(records) + WriteRow(record)
  {
    var all := records + [record];
    if records == [] {
      assert all == [record] && all[1..] == [];
      assert Rows(all) == WriteRow(record) + Rows([]);
    } else {
      assert all[1..] == records[1..] + [record];
      RowsSnoc(records[1..], record);
      assert Rows(all) == WriteRow(records[0]) + (Rows(records[1..]) + WriteRow(record));
    }
  }

  lemma {:induction false} RowsAreFile(records: seq<seq<string>>)
    requires AllNonEmpty(records)
    ensures FileText(records, Rows(records))
  {
    if records == [] {
    } else {
      JoinedIsRecord(records[0]);
      RowsAreFile(records[1..]);
      var line := Join(Map(records[0], QuoteField));
      assert Rows(records) == line + CRLF + Rows(records[1..]);
    }
  }

  /** Every table of non-empty rows survives the writer and the reader. */
  lemma RowsRoundTrip(records: seq<seq<string>>)
    requires AllNonEmpty(records)
    ensures ReadFile(Rows(records)) == Some(records)
  {
    RowsAreFile(records);
    ReaderInvertsGrammar(records, Rows(records));
  }

  // ---- Numbers ----

  function Digit(d: nat): char
    requires d < 10
  {
    '0' + d as char
  }

  function Digits(n: nat): string {
    if n < 10 then [Digit(n)] else Digits(n / 10) + [Digit(n % 10)]
  }

  function FormatSeconds(s: int): string {
    if s < 0 then "-" + Digits(-s) else Digits(s)
  }

  function Magnitude(s: string): int {
    if s == "" then 0 else 10 * Magnitude(s[..|s| - 1]) + (s[|s| - 1] as int - '0' as int)
  }

  function ParseSeconds(s: string): int {
    if s != "" && s[0] == '-' then -Magnitude(s[1..]) else Magnitude(s)
  }

  lemma {:induction false} DigitsAreRead(n: nat)
    ensures Digits(n) != "" && '0' <= Digits(n)[0] && Magnitude(Digits(n)) == n
  {
    if n < 10 {
      assert Digits(n)[..0] == "";
    } else {
      DigitsAreRead(n / 10);
      assert Digits(n)[..|Digits(n)| - 1] == Digits(n / 10);
    }
  }

  /** The plain decimal numeral determines the number, sign included. */
  lemma SecondsRoundTrip(s: int)
    ensures FormatSeconds(s) != "" && ParseSeconds(FormatSeconds(s)) == s
  {
    DigitsAreRead(if s < 0 then -s else s);
    if s < 0 {
      assert FormatSeconds(s)[1..] == Digits(-s);
    }
  }

  ghost predicate IsDigits(s: string) {
    s != "" && forall k :: 0 <= k < |s| ==> '0' <= s[k] <= '9'
  }

  lemma {:induction false} DigitsArePlain(n: nat)
    ensures IsDigits(Digits(n)) && (Digits(n)[0] == '0' ==> n == 0)
  {
    if n < 10 {
    } else {
      DigitsArePlain(n / 10);
    }
  }

  /** The numeral is decimal digits without leading zeros, after a minus sign for a negative number. */
  lemma NumeralIsPlain(s: int)
    ensures var text := FormatSeconds(s);
            if s < 0 then text[..1] == "-" && IsDigits(text[1..]) && text[1] != '0'
            else IsDigits(text) && (text[0] == '0' ==> text == "0")
  {
    DigitsArePlain(if s < 0 then -s else s);
    if s < 0 {
      assert FormatSeconds(s)[1..] == Digits(-s);
    }
  }

  function FormatSecondsOpt(s: Option<int>): string {
    if s.Some? then FormatSeconds(s.value) else ""
  }

  // ---- The two exports ----

  datatype Incident = Incident(
    id: string, targetId: string, status: string, openedAt: string,
    resolvedAt: Option<string>, durationSec: Option<int>, cause: Option<string>,
    resolutionNote: Option<string>, openedBy: Option<string>, resolvedBy: Option<string>)

  /** Uptime ratios are numbers of an arbitrary type R, shown by an arbitrary format. */
  datatype SlaReport<R> = SlaReport(
    targetId: string, targetName: string, windowStart: string, windowEnd: string,
    windowSeconds: int, downtimeSeconds: int, excludedSeconds: int,
    grossUptimeRatio: R, slaUptimeRatio: Option<R>, incidentCount: int, mttrSeconds: Option<int>)

  function OrEmpty(s: Option<string>): string {
    if s.Some? then s.value else ""
  }

  function IncidentHeader(): seq<string> {
    ["incident_id", "target_id", "status", "opened_at", "resolved_at",
     "duration_seconds", "cause", "resolution_note", "opened_by", "resolved_by"]
  }

  function SlaHeader(): seq<string> {
    ["target_id", "target_name", "window_start", "window_end", "window_seconds",
     "gross_uptime_percent", "sla_uptime_percent", "downtime_seconds",
     "excluded_seconds", "incident_count", "mttr_seconds"]
  }

  function IncidentRecord(i: Incident): seq<string> {
    [i.id, i.targetId, i.status, i.openedAt, OrEmpty(i.resolvedAt), FormatSecondsOpt(i.durationSec),
     OrEmpty(i.cause), OrEmpty(i.resolutionNote), OrEmpty(i.openedBy), OrEmpty(i.resolvedBy)]
  }

  function SlaRecord<R>(ratio: R -> string, r: SlaReport<R>): seq<string> {
    [r.targetId, r.targetName, r.windowStart, r.windowEnd, FormatSeconds(r.windowSeconds),
     ratio(r.grossUptimeRatio), if r.slaUptimeRatio.Some? then ratio(r.slaUptimeRatio.value) else "",
     FormatSeconds(r.downtimeSeconds), FormatSeconds(r.excludedSeconds),
     FormatSeconds(r.incidentCount), FormatSecondsOpt(r.mttrSeconds)]
  }

  /** In place `k` the header has that name and the record that value. */
  ghost predicate Column(header: seq<string>, record: seq<string>, k: nat, name: string, value: string) {
    k < |header| == |record| && header[k] == name && record[k] == value
  }

  /** Which value stands under which name. */
  lemma IncidentColumns(i: Incident)
    ensures var (h, r) := (IncidentHeader(), IncidentRecord(i));
            && |h| == 10
            && Column(h, r, 0, "incident_id", i.id)
            && Column(h, r, 1, "target_id", i.targetId)
            && Column(h, r, 2, "status", i.status)
            && Column(h, r, 3, "opened_at", i.openedAt)
            && Column(h, r, 4, "resolved_at", if i.resolvedAt.Some? then i.resolvedAt.value else "")
            && Column(h, r, 5, "duration_seconds",
                      if i.durationSec.Some? then FormatSeconds(i.durationSec.value) else "")
            && Column(h, r, 6, "cause", if i.cause.Some? then i.cause.value else "")
            && Column(h, r, 7, "resolution_note", if i.resolutionNote.Some? then i.resolutionNote.value else "")
            && Column(h, r, 8, "opened_by", if i.openedBy.Some? then i.openedBy.value else "")
            && Column(h, r, 9, "resolved_by", if i.resolvedBy.Some? then i.resolvedBy.value else "")
  {
  }

  lemma SlaColumns<R>(ratio: R -> string, s: SlaReport<R>)
    ensures var (h, r) := (SlaHeader(), SlaRecord(ratio, s));
            && |h| == 11
            && Column(h, r, 0, "target_id", s.targetId)
            && Column(h, r, 1, "target_name", s.targetName)
            && Column(h, r, 2, "window_start", s.windowStart)
            && Column(h, r, 3, "window_end", s.windowEnd)
            && Column(h, r, 4, "window_seconds", FormatSeconds(s.windowSeconds))
            && Column(h, r, 5, "gross_uptime_percent", ratio(s.grossUptimeRatio))
            && Column(h, r, 6, "sla_uptime_percent",
                      if s.slaUptimeRatio.Some? then ratio(s.slaUptimeRatio.value) else "")
            && Column(h, r, 7, "downtime_seconds", FormatSeconds(s.downtimeSeconds))
            && Column(h, r, 8, "excluded_seconds", FormatSeconds(s.excludedSeconds))
            && Column(h, r, 9, "incident_count", FormatSeconds(s.incidentCount))
            && Column(h, r, 10, "mttr_seconds", if s.mttrSeconds.Some? then FormatSeconds(s.mttrSeconds.value) else "")
  {
  }

  /** A header row, then one row per item. */
  function Table<T>(header: seq<string>, items: seq<T>, record: T -> seq<string>): seq<seq<string>> {
    [header] + Map(items, record)
  }

  lemma TableRoundTrip<T>(header: seq<string>, items: seq<T>, record: T -> seq<string>)
    requires header != [] && forall i :: 0 <= i < |items| ==> record(items[i]) != []
    ensures ReadFile(Rows(Table(header, items, record))) == Some(Table(header, items, record))
  {
    hide ReadFile, Rows;
    RowsRoundTrip(Table(header, items, record));
  }

  lemma TableStart<T>(header: seq<string>, record: T -> seq<string>)
    ensures Rows(Table(header, [], record)) == WriteRow(header)
  {
    hide WriteRow;
    var table := Table(header, [], record);
    assert table == [header] && table[1..] == [];
    assert Rows(table) == WriteRow(header) + Rows([]);
  }

  lemma TableSnoc<T>(header: seq<string>, items: seq<T>, n: nat, record: T -> seq<string>)
    requires n < |items|
    ensures Rows(Table(header, items[..n + 1], record))
            == Rows(Table(header, items[..n], record)) + WriteRow(record(items[n]))
  {
    hide WriteRow, Rows;
    assert items[..n + 1] == items[..n] + [items[n]];
    RowsSnoc(Table(header, items[..n], record), record(items[n]));
    assert Table(header, items[..n + 1], record)
        == Table(header, items[..n], record) + [record(items[n])];
  }

  /** The mark, then a line for the header and each incident. */
  function IncidentFile(incidents: seq<Incident>): string {
    [BOM] + Rows(Table(IncidentHeader(), incidents, IncidentRecord))
  }

  method EncodeIncidents(incidents: seq<Incident>) returns (out: string)
    ensures out == IncidentFile(incidents) && out[0] == '\U{FEFF}'
    ensures ReadFile(out[1..]) == Some([IncidentHeader()] + Map(incidents, IncidentRecord))
  {
    hide ReadFile, Rows, WriteRow, IncidentRecord;
    out := [BOM];
    out := out + WriteRow(IncidentHeader());
    TableStart(IncidentHeader(), IncidentRecord);
    for n := 0 to |incidents|
      invariant out == [BOM] + Rows(Table(IncidentHeader(), incidents[..n], IncidentRecord))
    {
      TableSnoc(IncidentHeader(), incidents, n, IncidentRecord);
      out := out + WriteRow(IncidentRecord(incidents[n]));
    }
    assert incidents[..|incidents|] == incidents;
    IncidentsReadBack(incidents);
    assert out[1..] == Rows(Table(IncidentHeader(), incidents, IncidentRecord));
  }

  lemma IncidentsReadBack(incidents: seq<Incident>)
    ensures ReadFile(Rows(Table(IncidentHeader(), incidents, IncidentRecord)))
         == Some(Table(IncidentHeader(), incidents, IncidentRecord))
  {
    hide ReadFile, Rows, Table;
    TableRoundTrip(IncidentHeader(), incidents, IncidentRecord);
  }

  function SummaryFile<R>(ratio: R -> string, perTarget: seq<SlaReport<R>>): string {
    [BOM] + Rows(Table(SlaHeader(), perTarget, (r: SlaReport<R>) => SlaRecord(ratio, r)))
  }

  method EncodeSlaSummary<R>(ratio: R -> string, perTarget: seq<SlaReport<R>>) returns (out: string)
    ensures out == SummaryFile(ratio, perTarget) && out[0] == '\U{FEFF}'
    ensures ReadFile(out[1..])
            == Some([SlaHeader()] + Map(perTarget, (r: SlaReport<R>) => SlaRecord(ratio, r)))
  {
    hide ReadFile, Rows, WriteRow, SlaRecord, SlaHeader;
    ghost var record := (r: SlaReport<R>) => SlaRecord(ratio, r);
    out := [BOM];
    out := out + WriteRow(SlaHeader());
    TableStart(SlaHeader(), record);
    for n := 0 to |perTarget|
      invariant out == [BOM] + Rows(Table(SlaHeader(), perTarget[..n], record))
    {
      TableSnoc(SlaHeader(), perTarget, n, record);
      out := out + WriteRow(SlaRecord(ratio, perTarget[n]));
    }
    assert perTarget[..|perTarget|] == perTarget;
    SummaryReadBack(ratio, perTarget, record);
    assert out[1..] == Rows(Table(SlaHeader(), perTarget, record));
  }

  lemma SummaryReadBack<R>(ratio: R -> string, perTarget: seq<SlaReport<R>>,
                           record: SlaReport<R> -> seq<string>)
    requires forall k :: 0 <= k < |perTarget| ==> record(perTarget[k]) == SlaRecord(ratio, perTarget[k])
    ensures ReadFile(Rows(Table(SlaHeader(), perTarget, record)))
         == Some(Table(SlaHeader(), perTarget, record))
  {
    hide ReadFile, Rows, Table;
    TableRoundTrip(SlaHeader(), perTarget, record);
  }

  // ---- What a reader of the file can tell about the incidents ----

  /** A missing text and an empty one look alike; a missing number does not. */
  predicate SameShown(a: Incident, b: Incident) {
    && a.id == b.id && a.targetId == b.targetId && a.status == b.status
    && a.openedAt == b.openedAt && a.durationSec == b.durationSec
    && OrEmpty(a.resolvedAt) == OrEmpty(b.resolvedAt)
    && OrEmpty(a.cause) == OrEmpty(b.cause)
    && OrEmpty(a.resolutionNote) == OrEmpty(b.resolutionNote)
    && OrEmpty(a.openedBy) == OrEmpty(b.openedBy)
    && OrEmpty(a.resolvedBy) == OrEmpty(b.resolvedBy)
  }

  lemma RecordDeterminesIncident(a: Incident, b: Incident)
    ensures IncidentRecord(a) == IncidentRecord(b) <==> SameShown(a, b)
  {
    var ra, rb := IncidentRecord(a), IncidentRecord(b);
    assert ra == rb ==> forall k :: 0 <= k < 10 ==> ra[k] == rb[k];
    if a.durationSec.Some? {
      SecondsRoundTrip(a.durationSec.value);
    }
    if b.durationSec.Some? {
      SecondsRoundTrip(b.durationSec.value);
    }
  }

  /** Two exports are the same file exactly when they show the same incidents in
      the same order. */
  lemma FileDeterminesIncidents(a: seq<Incident>, b: seq<Incident>)
    ensures IncidentFile(a) == IncidentFile(b)
       <==> |a| == |b| && forall k :: 0 <= k < |a| ==> SameShown(a[k], b[k])
  {
    hide ReadFile, Rows, IncidentRecord, IncidentHeader, SameShown;
    IncidentsReadBack(a);
    IncidentsReadBack(b);
    var ta, tb := Table(IncidentHeader(), a, IncidentRecord), Table(IncidentHeader(), b, IncidentRecord);
    assert Rows(ta) == Rows(tb) <==> ta == tb;
    assert IncidentFile(a)[1..] == Rows(ta) && IncidentFile(b)[1..] == Rows(tb);
    forall k | 0 <= k < |a| && k < |b|
      ensures SameShown(a[k], b[k]) <==> ta[k + 1] == tb[k + 1]
    {
      RecordDeterminesIncident(a[k], b[k]);
    }
    if ta == tb {
      assert |a| == |b|;
    } else if |a| == |b| {
      var k :| 0 <= k < |ta| && ta[k] != tb[k];
      assert k > 0 && ta[k - 1 + 1] != tb[k - 1 + 1];
    }
  }
}
