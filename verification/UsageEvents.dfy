/**
 Normalized usage events, their identity, and the text their payload digest is taken over.
 A text is the sequence of its UTF-8 bytes, one `char` a byte, so that its length is the
 byte length the digest fields are prefixed with.
 */
module UsageEvents {
  import opened Common
  import opened Decimals
  import opened Orders

  type Names = s: seq<string> | StrictlyAscending(TextLess, s) witness []

  datatype Component = Component(name: string, count: nat)

  ghost predicate ByName(s: seq<Component>) {
    forall i, j :: 0 <= i < j < |s| ==> TextLess(s[i].name, s[j].name)
  }

  /** The unknown components: a map's entries in key order. */
  type Components = s: seq<Component> | ByName(s) witness []

  datatype Coverage = Complete | Partial(missing: Names)

  /** An interval's two endpoints, as their exact texts. */
  datatype Bounds = Bounds(lower: string, upper: string)

  datatype Quality =
    | Measured
    | Estimated(methods: Names, uncertainty: Option<Bounds>)
    | Mixed(methods: Names, uncertainty: Option<Bounds>)

  datatype Classification =
    | Reported
    | Derived
    | Reconstructed(estimator: string, version: string)

  datatype Usage = Usage(
    input: nat, output: nat, cacheRead: nat, cacheWrite: nat,
    unknown: Components, coverage: Coverage, quality: Quality)

  datatype Event = Event(
    usage: Usage, classification: Classification, sources: seq<string>,
    parserVersion: string, occurredAt: Option<int>, session: Option<string>)

  /** The identity an event is deduplicated under. */
  datatype Identity = Strong(native: string) | Heuristic(parser: string, key: string)

  const STRONG_IDENTITY_PREFIX := "event-id:"

  /** The first provenance source that carries the strong prefix, without the prefix. */
  function StrongIdentity(sources: seq<string>): Option<string> {
    if sources == [] then None
    else if STRONG_IDENTITY_PREFIX <= sources[0] then Some(sources[0][|STRONG_IDENTITY_PREFIX|..])
    else StrongIdentity(sources[1..])
  }

  /** The first source that begins so is at `i`. */
  ghost predicate FirstStrong(sources: seq<string>, i: int) {
    0 <= i < |sources| && "event-id:" <= sources[i] && forall j :: 0 <= j < i ==> !("event-id:" <= sources[j])
  }

  /** The native identifier is what follows "event-id:" in the first source that begins so. */
  lemma {:induction false} StrongIdentityIsFirst(sources: seq<string>, native: string)
    ensures StrongIdentity(sources) == Some(native) <==>
      exists i :: FirstStrong(sources, i) && sources[i] == "event-id:" + native
    ensures StrongIdentity(sources) == None <==> forall i :: 0 <= i < |sources| ==> !("event-id:" <= sources[i])
  {
    if sources != [] {
      var rest := sources[1..];
      StrongIdentityIsFirst(rest, native);
      assert forall i :: 0 <= i < |rest| ==> rest[i] == sources[i + 1];
      assert forall i :: 0 < i < |sources| ==> sources[i] == rest[i - 1];
      if "event-id:" <= sources[0] {
        assert sources[0] == "event-id:" + sources[0][|"event-id:"|..];
        assert FirstStrong(sources, 0);
      } else {
        if i :| FirstStrong(rest, i) && rest[i] == "event-id:" + native {
          assert FirstStrong(sources, i + 1);
        }
        if i :| FirstStrong(sources, i) && sources[i] == "event-id:" + native {
          assert FirstStrong(rest, i - 1);
        }
      }
    }
  }

  function IdentityOf(event: Event): Identity {
    match StrongIdentity(event.sources)
    case Some(native) => Strong(native)
    case None => Heuristic(event.parserVersion, HeuristicKey(event))
  }

  // ---------------------------------------------------------------- the heuristic key

  function KeyComponents(unknown: seq<Component>): string {
    if unknown == [] then ""
    else
      KeyComponents(unknown[..|unknown| - 1])
      + "|" + unknown[|unknown| - 1].name + "=" + Decimal(unknown[|unknown| - 1].count)
  }

  /** The replay fingerprint. It never reads the output count or the source file. */
  function HeuristicKey(event: Event): string {
    (if event.occurredAt.Some? then "t:" + SignedDecimal(event.occurredAt.value) else "t:none")
    + "|" + (if event.session.Some? then event.session.value else "session:none")
    + "|" + Decimal(event.usage.input)
    + ":" + Decimal(event.usage.cacheRead)
    + ":" + Decimal(event.usage.cacheWrite)
    + KeyComponents(event.usage.unknown)
  }

  lemma KeyGrows(head: string, unknown: seq<Component>, i: nat)
    requires i < |unknown|
    ensures head + KeyComponents(unknown[..i + 1])
         == head + KeyComponents(unknown[..i]) + "|" + unknown[i].name + "=" + Decimal(unknown[i].count)
  {
    hide Decimal;
    assert unknown[..i + 1][..i] == unknown[..i];
  }

  method ComputeHeuristicKey(event: Event) returns (key: string)
    ensures key == HeuristicKey(event)
  {
    key := if event.occurredAt.Some? then "t:" + SignedDecimal(event.occurredAt.value) else "t:none";
    key := key + "|";
    key := key + (if event.session.Some? then event.session.value else "session:none");
    key := key + "|" + Decimal(event.usage.input) + ":" + Decimal(event.usage.cacheRead)
               + ":" + Decimal(event.usage.cacheWrite);
    ghost var head := key;
    var unknown := event.usage.unknown;
    assert head + KeyComponents(unknown[..0]) == head;
    hide Decimal, SignedDecimal, KeyComponents;
    for i := 0 to |unknown|
      invariant key == head + KeyComponents(unknown[..i])
    {
      KeyGrows(head, unknown, i);
      key := key + "|" + unknown[i].name + "=" + Decimal(unknown[i].count);
    }
    assert unknown[..|unknown|] == unknown;
  }

  /** How a key is spelled without and with an instant, a session and a component. */
  lemma KeySpelling(event: Event)
    requires event.usage.input == 1 && event.usage.cacheRead == 2 && event.usage.cacheWrite == 3
    requires event.usage.unknown == [] && event.occurredAt == None && event.session == None
    ensures HeuristicKey(event) == "t:none|session:none|1:2:3"
  {
    SmallDecimals();
    hide Decimal;
    assert "t:none" + "|" + "session:none" + "|" + "1" + ":" + "2" + ":" + "3" == "t:none|session:none|1:2:3";
  }

  lemma FullKeySpelling(event: Event)
    requires event.usage.input == 1 && event.usage.cacheRead == 2 && event.usage.cacheWrite == 3
    requires event.usage.unknown == [Component("x", 4)] && event.occurredAt == Some(5) && event.session == Some("s")
    ensures HeuristicKey(event) == "t:5|s|1:2:3|x=4"
  {
    SmallDecimals();
    hide Decimal;
    assert event.usage.unknown[..0] == [];
    assert KeyComponents(event.usage.unknown) == "" + "|" + "x" + "=" + "4" == "|x=4";
    hide KeyComponents;
    assert "t:" + "5" + "|" + "s" + "|" + "1" + ":" + "2" + ":" + "3" + "|x=4" == "t:5|s|1:2:3|x=4";
  }

  // ---------------------------------------------------------------- the digest payload

  datatype Field = Field(tag: string, value: string)

  function FieldText(f: Field): string {
    f.tag + "=" + Decimal(|f.value|) + ":" + f.value + ";"
  }

  function FieldsText(fields: seq<Field>): string {
    if fields == [] then "" else FieldText(fields[0]) + FieldsText(fields[1..])
  }

  /** The names joined with commas. */
  function Joined(names: seq<string>): string {
    if names == [] then ""
    else if |names| == 1 then names[0]
    else names[0] + "," + Joined(names[1..])
  }

  function CoverageText(coverage: Coverage): string {
    match coverage
    case Complete => "complete"
    case Partial(missing) => "partial:" + Joined(missing)
  }

  function QualityForm(variant: string, methods: Names, uncertainty: Option<Bounds>): string {
    variant + ":" + Joined(methods)
    + (match uncertainty
       case Some(b) => ":" + b.lower + "-" + b.upper
       case None => ":none")
  }

  function QualityText(quality: Quality): string {
    match quality
    case Measured => "measured"
    case Estimated(methods, uncertainty) => QualityForm("estimated", methods, uncertainty)
    case Mixed(methods, uncertainty) => QualityForm("mixed", methods, uncertainty)
  }

  function ClassificationText(classification: Classification): string {
    match classification
    case Reported => "reported"
    case Derived => "derived"
    case Reconstructed(estimator, version) => "reconstructed:" + estimator + ":" + version
  }

  function ComponentText(c: Component): string {
    c.name + "=" + Decimal(c.count)
  }

  function CountFields(usage: Usage): seq<Field> {
    [Field("input", Decimal(usage.input)),
     Field("cache_read", Decimal(usage.cacheRead)),
     Field("cache_write", Decimal(usage.cacheWrite))]
  }

  function UnknownFields(unknown: seq<Component>): (fields: seq<Field>)
    ensures |fields| == |unknown|
  {
    seq(|unknown|, i requires 0 <= i < |unknown| => Field("unknown", ComponentText(unknown[i])))
  }

  function QualificationFields(event: Event): seq<Field> {
    [Field("coverage", CoverageText(event.usage.coverage)),
     Field("quality", QualityText(event.usage.quality)),
     Field("classification", ClassificationText(event.classification))]
  }

  function PayloadFields(event: Event): seq<Field> {
    CountFields(event.usage) + UnknownFields(event.usage.unknown) + QualificationFields(event)
  }

  /** The text the payload digest hashes. It never reads the output count. */
  function Payload(event: Event): string {
    FieldsText(PayloadFields(event))
  }

  /** How the qualifications are spelled in the payload. */
  lemma CoverageSpellings(names: Names, a: string, b: string)
    ensures CoverageText(Complete) == "complete" && CoverageText(Partial(names)) == "partial:" + Joined(names)
    ensures Joined([]) == "" && Joined([a]) == a && Joined([a, b]) == a + "," + b
  {
    assert [a, b][1..] == [b];
  }

  lemma QualitySpellings(names: Names, bounds: Bounds)
    ensures QualityText(Measured) == "measured"
    ensures QualityText(Estimated(names, None)) == "estimated:" + Joined(names) + ":none"
    ensures QualityText(Mixed(names, Some(bounds)))
      == "mixed:" + Joined(names) + ":" + bounds.lower + "-" + bounds.upper
  {
    hide Joined;
    var head, lower, upper := "mixed:" + Joined(names), bounds.lower, bounds.upper;
    assert "mixed" + ":" == "mixed:" && "estimated" + ":" == "estimated:";
    assert head + (":" + lower + "-" + upper) == head + ":" + lower + "-" + upper;
  }

  lemma ClassificationSpellings(a: string, b: string)
    ensures ClassificationText(Reported) == "reported" && ClassificationText(Derived) == "derived"
    ensures ClassificationText(Reconstructed(a, b)) == "reconstructed:" + a + ":" + b
  {
  }

  /** How a payload is spelled: its fields in their order, and one of them. */
  lemma PayloadSpelling(event: Event)
    requires event.usage.input == 1 && event.usage.cacheRead == 2 && event.usage.cacheWrite == 3
    requires event.usage.unknown == [Component("x", 4)]
    requires event.usage.coverage == Complete && event.usage.quality == Measured && event.classification == Reported
    ensures PayloadFields(event) ==
      [Field("input", "1"), Field("cache_read", "2"), Field("cache_write", "3"), Field("unknown", "x=4"),
       Field("coverage", "complete"), Field("quality", "measured"), Field("classification", "reported")]
    ensures FieldText(Field("unknown", "x=4")) == "unknown=3:x=4;"
  {
    SmallDecimals();
    hide Decimal;
    assert ComponentText(Component("x", 4)) == "x" + "=" + "4" == "x=4";
    assert FieldText(Field("unknown", "x=4")) == "unknown" + "=" + "3" + ":" + "x=4" + ";";
  }

  lemma SmallDecimals()
    ensures Decimal(1) == "1" && Decimal(2) == "2" && Decimal(3) == "3" && Decimal(4) == "4" && Decimal(5) == "5"
  {
  }

  lemma {:induction false} FieldsTextConcat(a: seq<Field>, b: seq<Field>)
    ensures FieldsText(a + b) == FieldsText(a) + FieldsText(b)
  {
    hide FieldText;
    if a == [] {
      assert a + b == b;
    } else {
      FieldsTextConcat(a[1..], b);
      assert (a + b)[1..] == a[1..] + b;
      Associative(FieldText(a[0]), FieldsText(a[1..]), FieldsText(b));
    }
  }

  lemma FieldsTextAppend(fields: seq<Field>, f: Field)
    ensures FieldsText(fields + [f]) == FieldsText(fields) + FieldText(f)
  {
    FieldsTextConcat(fields, [f]);
    assert FieldsText([f]) == FieldText(f) + FieldsText([f][1..]);
  }

  method PushField(output: string, tag: string, value: string) returns (extended: string)
    ensures extended == output + FieldText(Field(tag, value))
  {
    extended := output + tag + "=" + Decimal(|value|) + ":" + value + ";";
  }

  lemma FieldsTextAppendThree(fields: seq<Field>, a: Field, b: Field, c: Field)
    ensures FieldsText(fields + [a, b, c]) == FieldsText(fields) + FieldText(a) + FieldText(b) + FieldText(c)
  {
    hide FieldText, FieldsText;
    FieldsTextAppend(fields, a);
    FieldsTextAppend(fields + [a], b);
    FieldsTextAppend(fields + [a] + [b], c);
    assert fields + [a] + [b] + [c] == fields + [a, b, c];
  }

  method CanonicalPayload(event: Event) returns (payload: string)
    ensures payload == Payload(event)
  {
    hide FieldsText, FieldText, ComponentText, CoverageText, QualityText, ClassificationText, Decimal;
    var usage := event.usage;
    ghost var counts, unknown, q := CountFields(usage), UnknownFields(usage.unknown), QualificationFields(event);
    assert FieldsText([]) == "" by { NoFields(); }
    payload := PushField("", "input", Decimal(usage.input));
    payload := PushField(payload, "cache_read", Decimal(usage.cacheRead));
    payload := PushField(payload, "cache_write", Decimal(usage.cacheWrite));
    FieldsTextAppendThree([], counts[0], counts[1], counts[2]);
    assert [] + [counts[0], counts[1], counts[2]] == counts;
    ghost var done := counts;
    for i := 0 to |usage.unknown|
      invariant done == counts + unknown[..i]
      invariant payload == FieldsText(done)
    {
      payload := PushField(payload, "unknown", ComponentText(usage.unknown[i]));
      FieldsTextAppend(done, unknown[i]);
      done := done + [unknown[i]];
    }
    payload := PushField(payload, "coverage", CoverageText(usage.coverage));
    payload := PushField(payload, "quality", QualityText(usage.quality));
    payload := PushField(payload, "classification", ClassificationText(event.classification));
    FieldsTextAppendThree(done, q[0], q[1], q[2]);
    assert unknown[..|usage.unknown|] == unknown;
    assert done + [q[0], q[1], q[2]] == counts + unknown + q;
  }

  lemma NoFields()
    ensures FieldsText([]) == ""
  {
  }
}
