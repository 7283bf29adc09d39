/**
 The diagnostic log: one JSON object a line, written only for events the level admits, with
 values that have a safe form. A reader of the log is defined beside the writer.
 */
module Diagnostics {
  import opened Common
  import opened Decimals
  import opened JsonText
  import PayloadDigest

  datatype Level = Error | Warn | Info | Debug | Trace

  function Severity(level: Level): nat {
    match level
    case Error => 0
    case Warn => 1
    case Info => 2
    case Debug => 3
    case Trace => 4
  }

  function LevelName(level: Level): string {
    match level
    case Error => "error"
    case Warn => "warn"
    case Info => "info"
    case Debug => "debug"
    case Trace => "trace"
  }

  datatype Event =
    | RunStarted | ReportRendered | RequestAttempted | IngestBatchLanded
    | MeterAttemptCommitted | MeterEvidenceSpooled | MeterSpoolDrained | ProjectionRead
    | LegacyMeterImported | SeedArchiveImported | LegacyCalibrationImported | MeterWindowAnomalyDetected

  function EventName(event: Event): string {
    match event
    case RunStarted => "run_started"
    case ReportRendered => "report_rendered"
    case RequestAttempted => "request_attempted"
    case IngestBatchLanded => "ingest_batch_landed"
    case MeterAttemptCommitted => "meter_attempt_committed"
    case MeterEvidenceSpooled => "meter_evidence_spooled"
    case MeterSpoolDrained => "meter_spool_drained"
    case ProjectionRead => "projection_read"
    case LegacyMeterImported => "legacy_meter_imported"
    case SeedArchiveImported => "seed_archive_imported"
    case LegacyCalibrationImported => "legacy_calibration_imported"
    case MeterWindowAnomalyDetected => "meter_window_anomaly_detected"
  }

  /** How the names are spelled in a line. */
  lemma NameSpellings()
    ensures LevelName(Error) == "error" && LevelName(Warn) == "warn" && LevelName(Info) == "info"
    ensures LevelName(Debug) == "debug" && LevelName(Trace) == "trace"
    ensures EventName(RunStarted) == "run_started" && EventName(ReportRendered) == "report_rendered"
    ensures EventName(RequestAttempted) == "request_attempted" && EventName(ProjectionRead) == "projection_read"
    ensures EventName(IngestBatchLanded) == "ingest_batch_landed"
    ensures EventName(MeterAttemptCommitted) == "meter_attempt_committed"
    ensures EventName(MeterEvidenceSpooled) == "meter_evidence_spooled"
    ensures EventName(MeterSpoolDrained) == "meter_spool_drained"
    ensures EventName(LegacyMeterImported) == "legacy_meter_imported"
    ensures EventName(SeedArchiveImported) == "seed_archive_imported"
    ensures EventName(LegacyCalibrationImported) == "legacy_calibration_imported"
    ensures EventName(MeterWindowAnomalyDetected) == "meter_window_anomaly_detected"
  {
  }

  function EventLevel(event: Event): Level {
    match event
    case ProjectionRead => Debug
    case MeterWindowAnomalyDetected => Warn
    case _ => Info
  }

  /** A value that may be logged; a redacted one keeps its raw text to itself. */
  datatype SafeValue = LogicalName(name: string) | Redacted(raw: string) | Quantity(amount: nat, unit: string)

  datatype Field = Field(name: string, value: SafeValue)

  datatype Entry = Entry(timestamp: int, event: Event, fields: seq<Field>)

  // ---------------------------------------------------------------- writing

  function Key(name: string): string {
    "\"" + name + "\":"
  }

  /** A text put between quotes as it stands. */
  function Bare(text: string): string {
    "\"" + text + "\""
  }

  /** A key, and a text that needs no escape, are written as the escaping writer would write them. */
  lemma BareIsQuoted(text: string)
    requires forall i :: 0 <= i < |text| ==> text[i] != '"' && text[i] != '\\' && !IsControl(text[i])
    ensures Bare(text) == Quoted(text) && Key(text) == Quoted(text) + ":"
  {
    OrdinaryIsKept(text);
  }

  function ValueText(value: SafeValue): string {
    match value
    case LogicalName(name) => Quoted(name)
    case Redacted(_) => Quoted("[REDACTED]")
    case Quantity(amount, unit) => "{" + Key("value") + Decimal(amount) + "," + Key("unit") + Quoted(unit) + "}"
  }

  function FieldText(field: Field): string {
    "," + Quoted(field.name) + ":" + ValueText(field.value)
  }

  function FieldsText(fields: seq<Field>): string {
    if fields == [] then "" else FieldText(fields[0]) + FieldsText(fields[1..])
  }

  function Keyed(name: string, text: string): string {
    "," + Key(name) + Bare(text)
  }

  function HeadText(entry: Entry, run: string): string {
    "{" + Key("ts") + SignedDecimal(entry.timestamp)
    + Keyed("level", LevelName(EventLevel(entry.event)))
    + Keyed("event", EventName(entry.event))
    + Keyed("run", run)
  }

  function Line(entry: Entry, run: string): string {
    HeadText(entry, run) + FieldsText(entry.fields) + "}\n"
  }

  predicate Admits(level: Level, event: Event) {
    Severity(EventLevel(event)) <= Severity(level)
  }

  /** The anomaly is a warning, the projection's reading a debugging event, all others informative:
      what each level admits. */
  lemma AdmittedExactlyWhen(level: Level, event: Event)
    ensures Admits(level, event) <==>
      match level
      case Error => false
      case Warn => event == MeterWindowAnomalyDetected
      case Info => event != ProjectionRead
      case Debug => true
      case Trace => true
    ensures LevelName(EventLevel(event)) ==
      if event == MeterWindowAnomalyDetected then "warn" else if event == ProjectionRead then "debug" else "info"
  {
  }

  /** The whole log of a run of emissions. */
  function LogText(entries: seq<Entry>, level: Level, run: string): string {
    if entries == [] then ""
    else
      LogText(entries[..|entries| - 1], level, run)
      + (if Admits(level, entries[|entries| - 1].event) then Line(entries[|entries| - 1], run) else "")
  }

  method WriteJson(output: string, value: SafeValue) returns (written: string)
    ensures written == output + ValueText(value)
  {
    hide Quoted, Decimal, Key;
    match value
    case LogicalName(name) =>
      written := PushJsonString(output, name);
    case Redacted(_) =>
      written := PushJsonString(output, "[REDACTED]");
    case Quantity(amount, unit) =>
      written := output + ("{" + Key("value") + Decimal(amount) + "," + Key("unit"));
      written := PushJsonString(written, unit);
      written := written + "}";
  }

  class DiagnosticLogger {
    var output: string
    const level: Level
    const run: string
    ghost var emitted: seq<Entry>

    ghost predicate Valid()
      reads this
    {
      output == LogText(emitted, level, run)
    }

    constructor (level: Level, run: string)
      ensures Valid() && emitted == [] && this.level == level && this.run == run
    {
      output := "";
      emitted := [];
      this.level := level;
      this.run := run;
    }

    /** Appends the entry's line, whole, or nothing at all. */
    method Emit(timestamp: int, event: Event, fields: seq<Field>)
      requires Valid()
      modifies this
      ensures Valid() && emitted == old(emitted) + [Entry(timestamp, event, fields)]
      ensures output == old(output) + if Admits(level, event) then Line(Entry(timestamp, event, fields), run) else ""
    {
      hide Quoted, ValueText, HeadText, LogText;
      ghost var entry := Entry(timestamp, event, fields);
      LogGrows(emitted, entry, level, run);
      emitted := emitted + [entry];
      if Severity(EventLevel(event)) > Severity(level) {
        assert output + "" == output;
        return;
      }
      var line := HeadText(Entry(timestamp, event, []), run);
      HeadIgnoresFields(entry, run);
      assert fields[0..] == fields;
      for i := 0 to |fields|
        invariant output == old(output) && emitted == old(emitted) + [entry]
        invariant line + FieldsText(fields[i..]) == HeadText(entry, run) + FieldsText(fields)
      {
        ghost var before, rest := line, FieldsText(fields[i + 1..]);
        assert fields[i..][0] == fields[i] && fields[i..][1..] == fields[i + 1..];
        line := PushJsonString(line + ",", fields[i].name);
        line := WriteJson(line + ":", fields[i].value);
        assert line == before + FieldText(fields[i]);
        Associative(before, FieldText(fields[i]), rest);
      }
      assert fields[|fields|..] == [];
      assert line + "" == line;
      output := output + (line + "}\n");
    }
  }

  lemma HeadIgnoresFields(entry: Entry, run: string)
    ensures HeadText(entry.(fields := []), run) == HeadText(entry, run)
  {
  }

  /** One more emission appends to the log what `Emit` appends to the output. */
  lemma LogGrows(entries: seq<Entry>, entry: Entry, level: Level, run: string)
    ensures LogText(entries + [entry], level, run)
         == LogText(entries, level, run) + (if Admits(level, entry.event) then Line(entry, run) else "")
  {
    assert (entries + [entry])[..|entries|] == entries;
    hide Line;
  }

  // ---------------------------------------------------------------- reading

  /** What a reader sees of a value. */
  datatype SeenValue = SeenText(text: string) | SeenQuantity(amount: nat, unit: string)

  datatype SeenField = SeenField(name: string, value: SeenValue)

  datatype Seen = Seen(timestamp: int, level: string, event: string, run: string, fields: seq<SeenField>)

  function SeenOf(value: SafeValue): SeenValue {
    match value
    case LogicalName(name) => SeenText(name)
    case Redacted(_) => SeenText("[REDACTED]")
    case Quantity(amount, unit) => SeenQuantity(amount, unit)
  }

  function SeenFields(fields: seq<Field>): seq<SeenField> {
    if fields == [] then [] else [SeenField(fields[0].name, SeenOf(fields[0].value))] + SeenFields(fields[1..])
  }

  function SeenEntry(entry: Entry, run: string): Seen {
    Seen(entry.timestamp, LevelName(EventLevel(entry.event)), EventName(entry.event), run, SeenFields(entry.fields))
  }

  function SeenLog(entries: seq<Entry>, level: Level, run: string): seq<Seen> {
    if entries == [] then []
    else
      SeenLog(entries[..|entries| - 1], level, run)
      + (if Admits(level, entries[|entries| - 1].event) then [SeenEntry(entries[|entries| - 1], run)] else [])
  }

  function Expect(literal: string, text: string): (rest: Option<string>)
    ensures rest.Some? ==> |rest.value| == |text| - |literal|
  {
    if literal <= text then Some(text[|literal|..]) else None
  }

  /** How many digits the text begins with. */
  function Digits(text: string): (n: nat)
    ensures n <= |text| && (forall i :: 0 <= i < n ==> IsDigit(text[i])) && (n < |text| ==> !IsDigit(text[n]))
  {
    if text == "" || !IsDigit(text[0]) then 0 else 1 + Digits(text[1..])
  }

  function ReadNat(text: string): (read: Option<(nat, string)>)
    ensures read.Some? ==> |read.value.1| < |text|
  {
    var n := Digits(text);
    if n == 0 then None else Some((DecimalValue(text[..n]), text[n..]))
  }

  function ReadNumber(text: string): (read: Option<(int, string)>)
    ensures read.Some? ==> |read.value.1| < |text|
  {
    if "-" <= text then
      var magnitude :- ReadNat(text[1..]);
      Some((-(magnitude.0 as int), magnitude.1))
    else
      var magnitude :- ReadNat(text);
      Some((magnitude.0 as int, magnitude.1))
  }

  function ReadValue(text: string): (read: Option<(SeenValue, string)>)
    ensures read.Some? ==> |read.value.1| < |text|
  {
    if "\"" <= text then
      var value :- ReadString(text);
      Some((SeenText(value.0), value.1))
    else
      var inner :- Expect("{", text);
      var afterKey :- Expect(Key("value"), inner);
      var amount :- ReadNat(afterKey);
      var comma :- Expect(",", amount.1);
      var afterUnitKey :- Expect(Key("unit"), comma);
      var unit :- ReadString(afterUnitKey);
      var rest :- Expect("}", unit.1);
      Some((SeenQuantity(amount.0, unit.0), rest))
  }

  function ReadFields(text: string): (read: Option<(seq<SeenField>, string)>)
    ensures read.Some? ==> |read.value.1| < |text|
    decreases |text|
  {
    if "}\n" <= text then Some(([], text[2..]))
    else
      var start :- Expect(",", text);
      var name :- ReadString(start);
      var colon :- Expect(":", name.1);
      var value :- ReadValue(colon);
      var more :- ReadFields(value.1);
      Some(([SeenField(name.0, value.0)] + more.0, more.1))
  }

  function ReadKeyed(name: string, text: string): (read: Option<(string, string)>)
    ensures read.Some? ==> |read.value.1| < |text|
  {
    var comma :- Expect(",", text);
    var start :- Expect(Key(name), comma);
    ReadString(start)
  }

  function ReadLine(text: string): (read: Option<(Seen, string)>)
    ensures read.Some? ==> |read.value.1| < |text|
  {
    var open :- Expect("{", text);
    var start :- Expect(Key("ts"), open);
    var timestamp :- ReadNumber(start);
    var level :- ReadKeyed("level", timestamp.1);
    var event :- ReadKeyed("event", level.1);
    var run :- ReadKeyed("run", event.1);
    var fields :- ReadFields(run.1);
    Some((Seen(timestamp.0, level.0, event.0, run.0, fields.0), fields.1))
  }

  function ReadLog(text: string): Option<seq<Seen>>
    decreases |text|
  {
    if text == "" then Some([])
    else
      var line :- ReadLine(text);
      var more :- ReadLog(line.1);
      Some([line.0] + more)
  }

  // ---------------------------------------------------------------- the round trip

  lemma ExpectTakes(literal: string, rest: string)
    ensures Expect(literal, literal + rest) == Some(rest)
  {
  }

  lemma {:induction false} DigitsOf(digits: string, tail: string)
    requires forall i :: 0 <= i < |digits| ==> IsDigit(digits[i])
    requires tail == "" || !IsDigit(tail[0])
    ensures Digits(digits + tail) == |digits|
  {
    if digits != "" {
      DigitsOf(digits[1..], tail);
      assert (digits + tail)[1..] == digits[1..] + tail;
    } else {
      assert digits + tail == tail;
    }
  }

  lemma NatReadsBack(n: nat, tail: string)
    requires tail == "" || !IsDigit(tail[0])
    ensures ReadNat(Decimal(n) + tail) == Some((n, tail))
  {
    hide Digits, Decimal;
    DigitsOf(Decimal(n), tail);
    DecimalRoundTrip(n);
    assert (Decimal(n) + tail)[..|Decimal(n)|] == Decimal(n);
    assert (Decimal(n) + tail)[|Decimal(n)|..] == tail;
  }

  lemma NumberReadsBack(n: int, tail: string)
    requires tail == "" || !IsDigit(tail[0])
    ensures ReadNumber(SignedDecimal(n) + tail) == Some((n, tail))
  {
    hide ReadNat, Decimal;
    if n < 0 {
      NatReadsBack(-n, tail);
      assert (SignedDecimal(n) + tail)[1..] == Decimal(-n) + tail;
    } else {
      NatReadsBack(n, tail);
      var text := SignedDecimal(n) + tail;
      assert text[0] == Decimal(n)[0];
    }
  }

  lemma KeyedReadsBack(name: string, value: string, tail: string)
    requires Plain(value)
    ensures ReadKeyed(name, Keyed(name, value) + tail) == Some((value, tail))
  {
    hide ReadString, Key, Expect;
    Associative("," + Key(name), Bare(value), tail);
    Associative(",", Key(name), Bare(value) + tail);
    ExpectTakes(",", Key(name) + (Bare(value) + tail));
    ExpectTakes(Key(name), Bare(value) + tail);
    UnescapedReadsBackExactlyWhenPlain(value, tail);
  }

  lemma QuantityReadsBack(amount: nat, unit: string, tail: string)
    ensures ReadValue(ValueText(Quantity(amount, unit)) + tail) == Some((SeenQuantity(amount, unit), tail))
  {
    hide Quoted, Decimal, Key, ReadString, ReadNat, Expect;
    var n, u := Decimal(amount), Quoted(unit);
    var t4 := "}" + tail;
    var t3 := Key("unit") + (u + t4);
    var t2 := "," + t3;
    var t1 := Key("value") + (n + t2);
    QuantityRegroups("{", Key("value"), n, ",", Key("unit"), u, "}", tail);
    assert ValueText(Quantity(amount, unit)) + tail == "{" + t1;
    assert ("{" + t1)[0] == '{';
    ExpectTakes("{", t1);
    ExpectTakes(Key("value"), n + t2);
    NatReadsBack(amount, t2);
    ExpectTakes(",", t3);
    ExpectTakes(Key("unit"), u + t4);
    StringRoundTrip(unit, t4);
    ExpectTakes("}", tail);
  }

  lemma QuantityRegroups(a: string, b: string, c: string, d: string, e: string, f: string, g: string, tail: string)
    ensures (a + b + c + d + e + f + g) + tail == a + (b + (c + (d + (e + (f + (g + tail))))))
  {
    Associative(a + b + c + d + e + f, g, tail);
    Associative(a + b + c + d + e, f, g + tail);
    Associative(a + b + c + d, e, f + (g + tail));
    Associative(a + b + c, d, e + (f + (g + tail)));
    Associative(a + b, c, d + (e + (f + (g + tail))));
    Associative(a, b, c + (d + (e + (f + (g + tail)))));
  }

  lemma ValueReadsBack(value: SafeValue, tail: string)
    ensures ReadValue(ValueText(value) + tail) == Some((SeenOf(value), tail))
  {
    if value.Quantity? {
      hide ReadValue, ValueText;
      QuantityReadsBack(value.amount, value.unit, tail);
    } else {
      hide ReadString, Escaped;
      var name := if value.LogicalName? then value.name else "[REDACTED]";
      StringRoundTrip(name, tail);
      assert "\"" <= Quoted(name) + tail;
    }
  }

  lemma {:induction false} FieldsReadBack(fields: seq<Field>, tail: string)
    ensures ReadFields(FieldsText(fields) + ("}\n" + tail)) == Some((SeenFields(fields), tail))
  {
    var end := "}\n" + tail;
    if fields == [] {
      assert "" + end == end && end[2..] == tail;
    } else {
      FieldsReadBack(fields[1..], tail);
      FieldReadsBack(fields[0], FieldsText(fields[1..]) + end);
      Associative(FieldText(fields[0]), FieldsText(fields[1..]), end);
    }
  }

  /** One field's text reads back, and reading goes on after it. */
  lemma FieldReadsBack(field: Field, more: string)
    requires ReadFields(more).Some?
    ensures var rest := ReadFields(more).value;
            ReadFields(FieldText(field) + more) == Some(([SeenField(field.name, SeenOf(field.value))] + rest.0, rest.1))
  {
    hide ReadString, ReadValue, ValueText, Quoted, Expect, SeenOf;
    var q, v := Quoted(field.name), ValueText(field.value);
    var afterName := ":" + (v + more);
    Associative("," + q + ":", v, more);
    Associative("," + q, ":", v + more);
    Associative(",", q, afterName);
    assert FieldText(field) + more == "," + (q + afterName);
    assert ("," + (q + afterName))[0] == ',';
    ExpectTakes(",", q + afterName);
    StringRoundTrip(field.name, afterName);
    ExpectTakes(":", v + more);
    ValueReadsBack(field.value, more);
  }

  lemma LevelNamesArePlain(level: Level)
    ensures Plain(LevelName(level))
  {
  }

  lemma AttemptNamesArePlain(event: Event)
    requires event.MeterAttemptCommitted? || event.IngestBatchLanded?
    ensures Plain(EventName(event))
  {
  }

  lemma SpoolNamesArePlain(event: Event)
    requires event.MeterEvidenceSpooled? || event.MeterSpoolDrained?
    ensures Plain(EventName(event))
  {
  }

  lemma ImportNamesArePlain(event: Event)
    requires event.LegacyMeterImported? || event.SeedArchiveImported?
    ensures Plain(EventName(event))
  {
  }

  lemma CalibrationNameIsPlain()
    ensures Plain(EventName(LegacyCalibrationImported))
  {
  }

  lemma AnomalyNameIsPlain()
    ensures Plain(EventName(MeterWindowAnomalyDetected))
  {
  }

  lemma RunNamesArePlain(event: Event)
    requires event.RunStarted? || event.ReportRendered? || event.RequestAttempted? || event.ProjectionRead?
    ensures Plain(EventName(event))
  {
  }

  lemma NamesArePlain(event: Event)
    ensures Plain(LevelName(EventLevel(event))) && Plain(EventName(event))
  {
    hide EventName, LevelName, Plain;
    LevelNamesArePlain(EventLevel(event));
    match event
    case MeterAttemptCommitted | IngestBatchLanded => AttemptNamesArePlain(event);
    case MeterEvidenceSpooled | MeterSpoolDrained => SpoolNamesArePlain(event);
    case LegacyMeterImported | SeedArchiveImported =>
      ImportNamesArePlain(event);
    case LegacyCalibrationImported => CalibrationNameIsPlain();
    case MeterWindowAnomalyDetected => AnomalyNameIsPlain();
    case RunStarted | ReportRendered | RequestAttempted | ProjectionRead =>
      RunNamesArePlain(event);
  }

  lemma LineRegroups(a: string, b: string, c: string, d: string, e: string, f: string, g: string, h: string,
                     tail: string)
    ensures ((a + b + c + d + e + f) + g + h) + tail == a + (b + (c + (d + (e + (f + (g + (h + tail)))))))
  {
    var head := a + b + c + d + e + f;
    Associative(head + g, h, tail);
    Associative(head, g, h + tail);
    QuantityRegroups(a, b, c, d, e, f, "", g + (h + tail));
    assert head + "" == head && "" + (g + (h + tail)) == g + (h + tail);
  }

  /** Reading a line comes to its run identifier, and then to its fields. */
  lemma LineReadsToRun(entry: Entry, run: string, tail: string)
    ensures ReadLine(Line(entry, run) + tail) ==
      match ReadKeyed("run", Keyed("run", run) + (FieldsText(entry.fields) + ("}\n" + tail)))
      case None => None
      case Some(read) =>
        match ReadFields(read.1)
        case None => None
        case Some(fields) => Some((SeenEntry(entry, run).(run := read.0, fields := fields.0), fields.1))
  {
    hide FieldsText, ReadFields, Key, Keyed, SignedDecimal, ReadNumber, ReadKeyed, SeenFields, Expect,
         LevelName, EventName, EventLevel, Plain;
    var level, event, fields := LevelName(EventLevel(entry.event)), EventName(entry.event), FieldsText(entry.fields);
    var n := SignedDecimal(entry.timestamp);
    var t5 := fields + ("}\n" + tail);
    var t4 := Keyed("run", run) + t5;
    var t3 := Keyed("event", event) + t4;
    var t2 := Keyed("level", level) + t3;
    var t1 := Key("ts") + (n + t2);
    LineRegroups("{", Key("ts"), n, Keyed("level", level), Keyed("event", event), Keyed("run", run),
                 fields, "}\n", tail);
    assert Line(entry, run) + tail == "{" + t1;
    hide Line;
    NamesArePlain(entry.event);
    ExpectTakes("{", t1);
    ExpectTakes(Key("ts"), n + t2);
    KeyedStartsPlainly("level", level, t3);
    NumberReadsBack(entry.timestamp, t2);
    KeyedReadsBack("level", level, t3);
    KeyedReadsBack("event", event, t4);
  }

  /** A line reads back as the entry it was written for, and reading stops at its end, when the
      run identifier is plain. */
  lemma LineReadsBack(entry: Entry, run: string, tail: string)
    requires Plain(run)
    ensures ReadLine(Line(entry, run) + tail) == Some((SeenEntry(entry, run), tail))
  {
    hide FieldsText, ReadFields, Keyed, ReadKeyed, SeenFields, ReadLine, Line, Plain, LevelName, EventName, EventLevel;
    LineReadsToRun(entry, run, tail);
    KeyedReadsBack("run", run, FieldsText(entry.fields) + ("}\n" + tail));
    FieldsReadBack(entry.fields, tail);
  }

  lemma KeyedStartsPlainly(name: string, text: string, tail: string)
    ensures Keyed(name, text) + tail != "" && !IsDigit((Keyed(name, text) + tail)[0])
  {
    hide Key, Bare;
  }

  /** The log of one more entry, and what a reader sees of it. */
  lemma SeenLogGrows(entries: seq<Entry>, level: Level, run: string)
    requires entries != []
    ensures
      var n := |entries| - 1;
      var front, seen := LogText(entries[..n], level, run), SeenLog(entries[..n], level, run);
      if Admits(level, entries[n].event) then
        && LogText(entries, level, run) == front + Line(entries[n], run)
        && SeenLog(entries, level, run) == seen + [SeenEntry(entries[n], run)]
      else
        LogText(entries, level, run) == front && SeenLog(entries, level, run) == seen
  {
    hide Line, SeenEntry;
    assert LogText(entries[..|entries| - 1], level, run) + "" == LogText(entries[..|entries| - 1], level, run);
    assert SeenLog(entries[..|entries| - 1], level, run) + [] == SeenLog(entries[..|entries| - 1], level, run);
  }

  /** Reading a line, then what follows it. */
  lemma ReadLogTakes(entry: Entry, run: string, tail: string, more: seq<Seen>)
    requires Plain(run) && ReadLog(tail) == Some(more)
    ensures ReadLog(Line(entry, run) + tail) == Some([SeenEntry(entry, run)] + more)
  {
    hide ReadLine, Line, SeenEntry, Plain;
    LineReadsBack(entry, run, tail);
  }

  /** A whole log reads back, entry by entry, as the admitted entries in order. */
  lemma {:induction false} LogReadsBackThen(entries: seq<Entry>, level: Level, run: string, tail: string,
                                            more: seq<Seen>)
    requires Plain(run) && ReadLog(tail) == Some(more)
    ensures ReadLog(LogText(entries, level, run) + tail) == Some(SeenLog(entries, level, run) + more)
  {
    if entries == [] {
      assert "" + tail == tail && [] + more == more;
    } else {
      var n := |entries| - 1;
      var front, seen := entries[..n], [SeenEntry(entries[n], run)];
      hide *;
      SeenLogGrows(entries, level, run);
      if Admits(level, entries[n].event) {
        var line := Line(entries[n], run);
        ReadLogTakes(entries[n], run, tail, more);
        LogReadsBackThen(front, level, run, line + tail, seen + more);
        Associative(LogText(front, level, run), line, tail);
        Associative(SeenLog(front, level, run), seen, more);
      } else {
        LogReadsBackThen(front, level, run, tail, more);
      }
    }
  }

  lemma LogReadsBack(entries: seq<Entry>, level: Level, run: string)
    requires Plain(run)
    ensures ReadLog(LogText(entries, level, run)) == Some(SeenLog(entries, level, run))
  {
    hide LogText, SeenLog, Plain;
    LogReadsBackThen(entries, level, run, "", []);
    assert LogText(entries, level, run) + "" == LogText(entries, level, run);
    assert SeenLog(entries, level, run) + [] == SeenLog(entries, level, run);
  }

  /** What a logger has put out, whatever it was asked to emit, reads back as the entries it
      admitted, in order. */
  lemma OutputReadsBack(logger: DiagnosticLogger)
    requires logger.Valid() && Plain(logger.run)
    ensures ReadLog(logger.output) == Some(SeenLog(logger.emitted, logger.level, logger.run))
  {
    LogReadsBack(logger.emitted, logger.level, logger.run);
  }

  lemma FieldsTakeTwo(text: string)
    requires ReadFields(text).Some?
    ensures |text| >= 2
  {
    hide ReadString, ReadValue;
  }

  lemma KeyedIsRead(name: string, text: string, tail: string)
    ensures ReadKeyed(name, Keyed(name, text) + tail) == ReadString(Bare(text) + tail)
  {
    hide ReadString, Key, Expect, Bare;
    Associative("," + Key(name), Bare(text), tail);
    Associative(",", Key(name), Bare(text) + tail);
    ExpectTakes(",", Key(name) + (Bare(text) + tail));
    ExpectTakes(Key(name), Bare(text) + tail);
  }

  /** A run identifier read back from a line with nothing after it but the line's end is plain. */
  lemma RunBeforeEndIsPlain(run: string)
    requires ReadString(Bare(run) + "}\n").Some?
    requires var read := ReadString(Bare(run) + "}\n").value; read.0 == run && ReadFields(read.1).Some?
    ensures Plain(run)
  {
    hide ReadFields;
    var text := run + "\"" + "}\n";
    assert (Bare(run) + "}\n")[1..] == text;
    var read := ReadChars(text).value;
    FieldsTakeTwo(read.1);
    ReadingNeverLengthens(text);
    assert text[..|run|] == run;
  }

  lemma OneLineLog(entry: Entry, level: Level, run: string)
    requires Admits(level, entry.event)
    ensures LogText([entry], level, run) == Line(entry, run) + ""
    ensures SeenLog([entry], level, run) == [SeenEntry(entry, run)]
  {
    assert [entry][..0] == [];
    assert LogText([], level, run) == "" && SeenLog([], level, run) == [];
    hide Line, SeenEntry;
  }

  lemma FirstLine(text: string, seen: Seen)
    requires text != "" && ReadLog(text) == Some([seen])
    ensures ReadLine(text).Some? && ReadLine(text).value.0 == seen
  {
    hide ReadLine;
    var line := ReadLine(text).value;
    var more := ReadLog(line.1).value;
    assert ([line.0] + more)[0] == line.0;
  }

  lemma LoneLineIsPlain(entry: Entry, run: string)
    requires entry.fields == [] && ReadLine(Line(entry, run) + "").Some?
    requires ReadLine(Line(entry, run) + "").value.0 == SeenEntry(entry, run)
    ensures Plain(run)
  {
    LineReadsToRun(entry, run, "");
    assert FieldsText(entry.fields) + ("}\n" + "") == "}\n";
    KeyedIsRead("run", run, "}\n");
    hide Line, ReadKeyed, Keyed, ReadString, ReadFields, Bare, ReadLine, FieldsText, SeenFields,
         LevelName, EventName, EventLevel, Plain;
    RunBeforeEndIsPlain(run);
  }

  ghost predicate ReadsBack(entries: seq<Entry>, level: Level, run: string) {
    ReadLog(LogText(entries, level, run)) == Some(SeenLog(entries, level, run))
  }

  lemma OneLineReadsBackOnlyIfPlain(entry: Entry, level: Level, run: string)
    requires Admits(level, entry.event) && entry.fields == [] && ReadsBack([entry], level, run)
    ensures Plain(run)
  {
    hide LogText, SeenLog, Line, ReadLine, SeenEntry, ReadLog, Plain, HeadText;
    OneLineLog(entry, level, run);
    LineIsNotEmpty(entry, run);
    FirstLine(Line(entry, run) + "", SeenEntry(entry, run));
    LoneLineIsPlain(entry, run);
  }

  lemma LineIsNotEmpty(entry: Entry, run: string)
    ensures Line(entry, run) + "" != ""
  {
    hide HeadText, FieldsText;
    assert |Line(entry, run)| >= |"}\n"|;
  }

  /** At any level that admits an event, every log reads back exactly when the run identifier is
      plain. */
  lemma LogsReadBackExactlyWhenPlain(level: Level, run: string)
    requires Severity(level) > 0
    ensures (forall entries :: ReadsBack(entries, level, run)) <==> Plain(run)
  {
    hide Plain, LogText, SeenLog, ReadLog;
    if Plain(run) {
      forall entries ensures ReadsBack(entries, level, run) {
        LogReadsBack(entries, level, run);
      }
    } else {
      var entry := Entry(0, MeterWindowAnomalyDetected, []);
      if ReadsBack([entry], level, run) {
        OneLineReadsBackOnlyIfPlain(entry, level, run);
      }
    }
  }

  // ---------------------------------------------------------------- one entry, one line

  /** The line up to the run identifier's opening quote. */
  function BeforeRun(entry: Entry): string {
    "{" + Key("ts") + SignedDecimal(entry.timestamp)
    + Keyed("level", LevelName(EventLevel(entry.event)))
    + Keyed("event", EventName(entry.event))
    + ("," + Key("run"))
  }

  /** The run identifier is written without escaping: in a line it reads back exactly when it
      needs none. */
  lemma RunReadsBackExactlyWhenPlain(entry: Entry, run: string)
    ensures var rest := FieldsText(entry.fields) + "}\n";
            && Line(entry, run) == BeforeRun(entry) + (Bare(run) + rest)
            && (ReadString(Bare(run) + rest) == Some((run, rest)) <==> Plain(run))
  {
    hide FieldsText, HeadText, BeforeRun, ReadString, Plain;
    var rest := FieldsText(entry.fields) + "}\n";
    SplitAtRun(entry, run);
    Associative(BeforeRun(entry) + Bare(run), FieldsText(entry.fields), "}\n");
    Associative(BeforeRun(entry), Bare(run), rest);
    UnescapedReadsBackExactlyWhenPlain(run, rest);
  }

  lemma SplitAtRun(entry: Entry, run: string)
    ensures HeadText(entry, run) == BeforeRun(entry) + Bare(run)
  {
    hide Key, Bare, SignedDecimal, LevelName, EventName, EventLevel;
    var start := "{" + Key("ts") + SignedDecimal(entry.timestamp)
      + Keyed("level", LevelName(EventLevel(entry.event))) + Keyed("event", EventName(entry.event));
    Associative(start, "," + Key("run"), Bare(run));
  }

  /** Holds no newline but the one that ends it. */
  ghost predicate IsOneLine(text: string) {
    text != "" && text[|text| - 1] == '\n' && '\n' !in text[..|text| - 1]
  }

  lemma {:induction false} FieldsHaveNoControls(fields: seq<Field>)
    ensures NoControls(FieldsText(fields))
  {
    if fields != [] {
      FieldsHaveNoControls(fields[1..]);
      FieldHasNoControls(fields[0]);
      hide FieldText, IsControl;
    }
  }

  lemma FieldHasNoControls(field: Field)
    ensures NoControls(FieldText(field))
  {
    var value := ValueText(field.value);
    ValueHasNoControls(field.value);
    QuotedHasNoControls(field.name);
    assert !IsControl(',') && !IsControl(':');
    hide Quoted, ValueText, IsControl;
  }

  lemma DecimalHasNoControls(n: nat)
    ensures NoControls(Decimal(n))
  {
    assert forall c :: IsDigit(c) ==> !IsControl(c);
    hide Decimal, IsControl, IsDigit;
  }

  lemma KeysHaveNoControls()
    ensures NoControls(Key("value")) && NoControls(Key("unit")) && NoControls(Key("ts"))
  {
  }

  lemma ValueHasNoControls(value: SafeValue)
    ensures NoControls(ValueText(value))
  {
    match value
    case LogicalName(name) => QuotedHasNoControls(name);
    case Redacted(_) => QuotedHasNoControls("[REDACTED]");
    case Quantity(amount, unit) =>
      QuotedHasNoControls(unit);
      DecimalHasNoControls(amount);
      KeysHaveNoControls();
      assert NoControls("{") && NoControls(",") && NoControls("}");
      hide Quoted, Decimal, Key, IsControl;
  }

  lemma NoControlsNoNewline(text: string)
    requires NoControls(text)
    ensures '\n' !in text
  {
    assert IsControl('\n');
    hide IsControl;
  }

  lemma HeadNewlines(entry: Entry, run: string)
    ensures '\n' in HeadText(entry, run) <==> '\n' in run
  {
    var level, event := LevelName(EventLevel(entry.event)), EventName(entry.event);
    NamesArePlain(entry.event);
    NumberHasNoNewline(entry.timestamp);
    assert '\n' !in level && '\n' !in event;
    hide LevelName, EventName, EventLevel, SignedDecimal, Plain;
  }

  lemma NumberHasNoNewline(n: int)
    ensures '\n' !in SignedDecimal(n)
  {
    var magnitude: nat := if n < 0 then -n else n;
    DecimalHasNoControls(magnitude);
    NoControlsNoNewline(Decimal(magnitude));
    hide Decimal, NoControls;
  }

  /** However the names and values of the fields are spelled, an entry is one line, exactly when
      the run identifier holds no newline. */
  lemma EntryIsOneLineExactlyWhen(entry: Entry, run: string)
    ensures IsOneLine(Line(entry, run)) <==> '\n' !in run
  {
    FieldsHaveNoControls(entry.fields);
    NoControlsNoNewline(FieldsText(entry.fields));
    HeadNewlines(entry, run);
    hide HeadText, FieldsText, NoControls, IsOneLine;
    var front := HeadText(entry, run) + FieldsText(entry.fields) + "}";
    Associative(HeadText(entry, run) + FieldsText(entry.fields), "}", "\n");
    assert "}\n" == "}" + "\n";
    OneLineOf(front);
  }

  lemma OneLineOf(front: string)
    ensures IsOneLine(front + "\n") <==> '\n' !in front
  {
    assert (front + "\n")[..|front|] == front;
  }

  /** A run identifier as the program mints it: process, instant and sequence number. */
  function MintedRun(process: nat, nanos: int, sequence: nat): string {
    "run-" + Decimal(process) + "-" + SignedDecimal(nanos) + "-" + Decimal(sequence)
  }

  lemma MintedRunRegroups(process: nat, nanos: int, sequence: nat)
    ensures MintedRun(process, nanos, sequence)[|"run-"|..]
         == Decimal(process) + ['-'] + (SignedDecimal(nanos) + ['-'] + Decimal(sequence))
    ensures "run-" <= MintedRun(process, nanos, sequence)
  {
    hide Decimal, SignedDecimal;
  }

  lemma DecimalHoldsNoHyphen(n: nat)
    ensures '-' !in Decimal(n)
  {
    hide Decimal;
  }

  /** Without the sign, and whether there was one. */
  function Unsigned(n: int): nat {
    if n < 0 then -n else n
  }

  lemma SignShows(n: int, x: string)
    ensures var text := SignedDecimal(n) + ['-'] + x;
            && (n < 0 <==> text[0] == '-')
            && (if n < 0 then text[1..] else text) == Decimal(Unsigned(n)) + ['-'] + x
  {
    DecimalHoldsNoHyphen(Unsigned(n));
    hide Decimal;
    assert Decimal(Unsigned(n))[0] in Decimal(Unsigned(n));
  }

  lemma SignedSplits(m: int, x: string, n: int, y: string)
    requires SignedDecimal(m) + ['-'] + x == SignedDecimal(n) + ['-'] + y
    ensures m == n && x == y
  {
    SignShows(m, x);
    SignShows(n, y);
    DecimalHoldsNoHyphen(Unsigned(m));
    DecimalHoldsNoHyphen(Unsigned(n));
    DecimalRoundTrip(Unsigned(m));
    DecimalRoundTrip(Unsigned(n));
    hide Decimal, DecimalValue, SignedDecimal;
    PayloadDigest.SplitAtFirst('-', Decimal(Unsigned(m)), x, Decimal(Unsigned(n)), y);
  }

  /** No two runs are minted one identifier, unless they are of one process, instant and number. */
  lemma MintedRunsAreDistinct(process: nat, nanos: int, sequence: nat, process': nat, nanos': int, sequence': nat)
    requires MintedRun(process, nanos, sequence) == MintedRun(process', nanos', sequence')
    ensures process == process' && nanos == nanos' && sequence == sequence'
  {
    MintedRunRegroups(process, nanos, sequence);
    MintedRunRegroups(process', nanos', sequence');
    DecimalHoldsNoHyphen(process);
    DecimalHoldsNoHyphen(process');
    DecimalRoundTrip(process);
    DecimalRoundTrip(process');
    DecimalRoundTrip(sequence);
    DecimalRoundTrip(sequence');
    hide Decimal, DecimalValue, SignedDecimal, MintedRun;
    PayloadDigest.SplitAtFirst('-', Decimal(process), SignedDecimal(nanos) + ['-'] + Decimal(sequence),
                               Decimal(process'), SignedDecimal(nanos') + ['-'] + Decimal(sequence'));
    SignedSplits(nanos, Decimal(sequence), nanos', Decimal(sequence'));
  }

  lemma MintedRunSpelling()
    ensures MintedRun(1, 2, 3) == "run-1-2-3"
  {
  }

  lemma MintedRunIsPlain(process: nat, nanos: int, sequence: nat)
    ensures Plain(MintedRun(process, nanos, sequence))
  {
    assert forall c :: IsDigit(c) ==> c != '"' && c != '\\' && c as int >= 0x20;
    assert Plain("run-") && Plain("-");
    assert Plain(Decimal(process)) && Plain(Decimal(sequence)) by { hide Decimal, IsDigit; }
    assert Plain(SignedDecimal(nanos)) by { hide Decimal, IsDigit; }
    hide Decimal, SignedDecimal;
  }

  // ---------------------------------------------------------------- redaction

  /** Alike but for the raw texts of redacted values. */
  predicate AlikeButSecrets(a: seq<Field>, b: seq<Field>) {
    |a| == |b| && forall i :: 0 <= i < |a| ==>
      a[i].name == b[i].name && (a[i].value == b[i].value || (a[i].value.Redacted? && b[i].value.Redacted?))
  }

  /** What a redacted value holds never reaches the log. */
  lemma {:induction false} SecretsNeverShow(a: seq<Field>, b: seq<Field>)
    requires AlikeButSecrets(a, b)
    ensures FieldsText(a) == FieldsText(b)
  {
    hide Quoted;
    if a != [] {
      SecretsNeverShow(a[1..], b[1..]);
    }
  }
}
