/**
 What the length-prefixed digest payload can and cannot tell apart.
 */
module PayloadDigest {
  import opened Common
  import opened Decimals
  import opened Orders
  import opened UsageEvents

  // ---------------------------------------------------------------- unique decoding

  /** A separator that neither head holds splits two equal texts at the same place. */
  lemma SplitAtFirst(c: char, a: string, x: string, b: string, y: string)
    requires c !in a && c !in b
    requires a + [c] + x == b + [c] + y
    ensures a == b && x == y
  {
    var s, t := a + [c] + x, b + [c] + y;
    assert s[|a|] == c && t[|b|] == c;
    assert forall i :: 0 <= i < |a| ==> s[i] == a[i] != c;
    assert forall i :: 0 <= i < |b| ==> t[i] == b[i] != c;
    assert |a| == |b|;
    assert a == s[..|a|] && b == t[..|b|];
    assert x == s[|a| + 1..] && y == t[|b| + 1..];
  }

  /** The same for a separator that neither tail holds. */
  lemma SplitAtLast(c: char, a: string, x: string, b: string, y: string)
    requires c !in x && c !in y
    requires a + [c] + x == b + [c] + y
    ensures a == b && x == y
  {
    var s, t := a + [c] + x, b + [c] + y;
    assert s[|a|] == c && t[|b|] == c;
    assert forall i :: |a| < i < |s| ==> s[i] == x[i - |a| - 1] != c;
    assert forall i :: |b| < i < |t| ==> t[i] == y[i - |b| - 1] != c;
    assert |a| == |b|;
    assert a == s[..|a|] && b == t[..|b|];
    assert x == s[|a| + 1..] && y == t[|b| + 1..];
  }

  lemma DecimalInjective(m: nat, n: nat)
    requires Decimal(m) == Decimal(n)
    ensures m == n
  {
    DecimalRoundTrip(m);
    DecimalRoundTrip(n);
  }

  /** One field is a prefix code: whatever follows it, its tag and value can be read back,
      whatever separators the value holds. */
  lemma FieldUnique(f: Field, x: string, g: Field, y: string)
    requires '=' !in f.tag && '=' !in g.tag
    requires FieldText(f) + x == FieldText(g) + y
    ensures f == g && x == y
  {
    var df, dg := Decimal(|f.value|), Decimal(|g.value|);
    var rf, rg := f.value + ";" + x, g.value + ";" + y;
    FieldRegroups(f, x);
    FieldRegroups(g, y);
    hide FieldText, Decimal;
    SplitAtFirst('=', f.tag, df + [':'] + rf, g.tag, dg + [':'] + rg);
    SplitAtFirst(':', df, rf, dg, rg);
    DecimalInjective(|f.value|, |g.value|);
    SameLengthSplits(f.value, x, g.value, y);
  }

  lemma FieldRegroups(f: Field, x: string)
    ensures FieldText(f) + x == f.tag + ['='] + (Decimal(|f.value|) + [':'] + (f.value + ";" + x))
  {
    hide Decimal;
  }

  lemma SameLengthSplits(a: string, x: string, b: string, y: string)
    requires |a| == |b| && a + ";" + x == b + ";" + y
    ensures a == b && x == y
  {
    assert a == (a + ";" + x)[..|a|] && b == (b + ";" + y)[..|b|];
    assert x == (a + ";" + x)[|a| + 1..] && y == (b + ";" + y)[|b| + 1..];
  }

  ghost predicate PlainTags(fields: seq<Field>) {
    forall i :: 0 <= i < |fields| ==> '=' !in fields[i].tag
  }

  lemma {:induction false} FieldsUnique(a: seq<Field>, b: seq<Field>)
    requires PlainTags(a) && PlainTags(b)
    requires FieldsText(a) == FieldsText(b)
    ensures a == b
  {
    if a != [] && b != [] {
      FieldUnique(a[0], FieldsText(a[1..]), b[0], FieldsText(b[1..]));
      FieldsUnique(a[1..], b[1..]);
      assert a == [a[0]] + a[1..] && b == [b[0]] + b[1..];
    }
  }

  lemma ComponentUnique(c: Component, d: Component)
    requires ComponentText(c) == ComponentText(d)
    ensures c == d
  {
    assert ComponentText(c) == c.name + ['='] + Decimal(c.count);
    assert ComponentText(d) == d.name + ['='] + Decimal(d.count);
    SplitAtLast('=', c.name, Decimal(c.count), d.name, Decimal(d.count));
    DecimalInjective(c.count, d.count);
  }

  // ---------------------------------------------------------------- what the payload decides

  ghost predicate SameMaterialPayload(a: Event, b: Event) {
    && a.usage.input == b.usage.input
    && a.usage.cacheRead == b.usage.cacheRead
    && a.usage.cacheWrite == b.usage.cacheWrite
    && a.usage.unknown == b.usage.unknown
    && QualificationFields(a) == QualificationFields(b)
  }

  lemma PlainTagsConcat(a: seq<Field>, b: seq<Field>)
    requires PlainTags(a) && PlainTags(b)
    ensures PlainTags(a + b)
  {
  }

  lemma PartTagsArePlain(e: Event)
    ensures PlainTags(CountFields(e.usage)) && PlainTags(UnknownFields(e.usage.unknown))
      && PlainTags(QualificationFields(e))
  {
    hide Decimal, ComponentText, CoverageText, QualityText, ClassificationText;
  }

  lemma PayloadTagsArePlain(e: Event)
    ensures PlainTags(PayloadFields(e))
  {
    PartTagsArePlain(e);
    hide CountFields, UnknownFields, QualificationFields, PlainTags;
    PlainTagsConcat(CountFields(e.usage), UnknownFields(e.usage.unknown));
    PlainTagsConcat(CountFields(e.usage) + UnknownFields(e.usage.unknown), QualificationFields(e));
  }

  lemma UnknownFieldsInjective(c: seq<Component>, d: seq<Component>)
    requires UnknownFields(c) == UnknownFields(d)
    ensures c == d
  {
    assert |c| == |d|;
    forall i | 0 <= i < |c| ensures c[i] == d[i] {
      assert UnknownFields(c)[i] == UnknownFields(d)[i];
      ComponentUnique(c[i], d[i]);
    }
  }

  /** Two payload texts are equal exactly when the material payloads are: every count but the
      output, the whole map of unknown components, and the three qualification texts. */
  lemma PayloadDecodes(a: Event, b: Event)
    ensures Payload(a) == Payload(b) <==> SameMaterialPayload(a, b)
  {
    if Payload(a) == Payload(b) {
      PayloadTagsArePlain(a);
      PayloadTagsArePlain(b);
      FieldsUnique(PayloadFields(a), PayloadFields(b));
      var fa, fb := PayloadFields(a), PayloadFields(b);
      var n := |a.usage.unknown|;
      assert |fb| == 6 + |b.usage.unknown|;
      assert CountFields(a.usage) == fa[..3] && CountFields(b.usage) == fb[..3];
      assert UnknownFields(a.usage.unknown) == fa[3..3 + n] && UnknownFields(b.usage.unknown) == fb[3..3 + n];
      assert QualificationFields(a) == fa[3 + n..] && QualificationFields(b) == fb[3 + n..];
      UnknownFieldsInjective(a.usage.unknown, b.usage.unknown);
      assert CountFields(a.usage)[0] == CountFields(b.usage)[0];
      assert CountFields(a.usage)[1] == CountFields(b.usage)[1];
      assert CountFields(a.usage)[2] == CountFields(b.usage)[2];
      DecimalInjective(a.usage.input, b.usage.input);
      DecimalInjective(a.usage.cacheRead, b.usage.cacheRead);
      DecimalInjective(a.usage.cacheWrite, b.usage.cacheWrite);
    }
  }

  // ---------------------------------------------------------------- coverage names

  ghost predicate NoCommas(names: seq<string>) {
    forall i :: 0 <= i < |names| ==> ',' !in names[i]
  }

  lemma {:induction false} JoinedHasNoComma(names: seq<string>)
    requires NoCommas(names)
    ensures |names| < 2 <==> ',' !in Joined(names)
  {
    if |names| >= 2 {
      assert Joined(names)[|names[0]|] == ',';
    }
  }

  /** Names without a comma can be read back from their joined text, except that no name and
      one empty name are written alike. */
  lemma {:induction false} JoinedInjective(a: seq<string>, b: seq<string>)
    requires NoCommas(a) && NoCommas(b)
    requires a == [] <==> b == []
    requires Joined(a) == Joined(b)
    ensures a == b
  {
    JoinedHasNoComma(a);
    JoinedHasNoComma(b);
    if |a| >= 2 && |b| >= 2 {
      assert Joined(a) == a[0] + [','] + Joined(a[1..]);
      assert Joined(b) == b[0] + [','] + Joined(b[1..]);
      SplitAtFirst(',', a[0], Joined(a[1..]), b[0], Joined(b[1..]));
      JoinedInjective(a[1..], b[1..]);
      assert a == [a[0]] + a[1..] && b == [b[0]] + b[1..];
    }
  }

  function WithMissing(e: Event, missing: Names): Event {
    e.(usage := e.usage.(coverage := Partial(missing)))
  }

  /** Inside the coverage field the names are only comma-joined, so a component name that
      holds a comma aliases two different coverages into one payload. */
  lemma CommaAliasesCoverage(e: Event)
    ensures exists one: Names, two: Names ::
      one != two && Payload(WithMissing(e, one)) == Payload(WithMissing(e, two))
  {
    var one: Names := ["a,b"];
    assert TextLess("a", "b");
    var two: Names := ["a", "b"];
    assert one[0] != two[0];
    assert two[1..] == ["b"];
    assert Joined(one) == Joined(two);
    PayloadDecodes(WithMissing(e, one), WithMissing(e, two));
  }

  lemma PartialIsNotComplete(names: seq<string>)
    ensures "partial:" + Joined(names) != "complete"
  {
    assert ("partial:" + Joined(names))[0] == 'p';
    assert "complete"[0] == 'c';
  }

  /** No name at all, or one empty name: written alike. */
  predicate NamesNothing(c: Coverage) {
    c == Partial([]) || c == Partial([""])
  }

  ghost predicate CommaFree(c: Coverage) {
    c.Partial? ==> NoCommas(c.missing)
  }

  lemma PartialText(x: Coverage, y: Coverage)
    requires CoverageText(x) == CoverageText(y)
    ensures x.Partial? == y.Partial?
    ensures x.Partial? ==> Joined(x.missing) == Joined(y.missing)
  {
    if x.Partial? {
      PartialIsNotComplete(x.missing);
      assert Joined(x.missing) == CoverageText(x)[|"partial:"|..];
    }
    if y.Partial? {
      PartialIsNotComplete(y.missing);
      assert Joined(y.missing) == CoverageText(y)[|"partial:"|..];
    }
  }

  function WithCoverage(e: Event, coverage: Coverage): Event {
    e.(usage := e.usage.(coverage := coverage))
  }

  lemma PayloadReadsCoverage(e: Event, x: Coverage, y: Coverage)
    ensures Payload(WithCoverage(e, x)) == Payload(WithCoverage(e, y)) <==> CoverageText(x) == CoverageText(y)
  {
    var a, b := WithCoverage(e, x), WithCoverage(e, y);
    PayloadDecodes(a, b);
    assert QualificationFields(a)[0] == QualificationFields(b)[0] <==> CoverageText(x) == CoverageText(y);
    assert QualificationFields(a)[1..] == QualificationFields(b)[1..];
    assert QualificationFields(a) == [QualificationFields(a)[0]] + QualificationFields(a)[1..];
    assert QualificationFields(b) == [QualificationFields(b)[0]] + QualificationFields(b)[1..];
  }

  /** Coverages whose component names hold no comma share a payload exactly when they are one,
      or both name nothing. */
  lemma CoverageDecodes(e: Event, x: Coverage, y: Coverage)
    requires CommaFree(x) && CommaFree(y)
    ensures Payload(WithCoverage(e, x)) == Payload(WithCoverage(e, y))
       <==> x == y || (NamesNothing(x) && NamesNothing(y))
  {
    PayloadReadsCoverage(e, x, y);
    hide Payload;
    if CoverageText(x) == CoverageText(y) && x != y {
      PartialText(x, y);
      if x.missing == [] {
        assert |y.missing| == 1 by { JoinedHasNoComma(y.missing); }
      } else if y.missing == [] {
        assert |x.missing| == 1 by { JoinedHasNoComma(x.missing); }
      } else {
        JoinedInjective(x.missing, y.missing);
      }
    }
  }

  /** The name reads as a lesser and a greater name with a comma between. */
  ghost predicate SplitsAtComma(name: string) {
    exists u: string, v: string :: TextLess(u, v) && name == u + "," + v
  }

  /** No other coverage gives the event the same payload. */
  ghost predicate Unmistakable(e: Event, x: Coverage) {
    forall y :: Payload(WithCoverage(e, x)) == Payload(WithCoverage(e, y)) ==> x == y
  }

  lemma AsOneName(names: Names)
    requires |names| != 1
    ensures Joined([Joined(names)]) == Joined(names) && [Joined(names)] != names
  {
  }

  lemma SeveralSplitAtComma(names: Names)
    requires |names| > 1
    ensures SplitsAtComma(Joined(names))
  {
    var rest := names[1..];
    var more := if |rest| == 1 then "" else "," + Joined(rest[1..]);
    assert Joined(rest) == names[1] + more;
    LessThanExtended(names[0], names[1], more);
    assert Joined(names) == names[0] + "," + Joined(rest);
  }

  lemma {:induction false} LessThanExtended(a: string, b: string, x: string)
    requires TextLess(a, b)
    ensures TextLess(a, b + x)
  {
    if a != "" && a[0] == b[0] {
      LessThanExtended(a[1..], b[1..], x);
      assert (b + x)[1..] == b[1..] + x;
    }
  }

  /** A coverage can be mistaken exactly when it is partial and names nothing, or several
      components, or one whose name itself reads as two names in order. */
  lemma CoverageUnmistakableExactlyWhen(e: Event, x: Coverage)
    ensures Unmistakable(e, x) <==>
      x.Complete? || (|x.missing| == 1 && x.missing[0] != "" && !SplitsAtComma(x.missing[0]))
  {
    forall y: Coverage
      ensures Payload(WithCoverage(e, x)) == Payload(WithCoverage(e, y)) <==> CoverageText(x) == CoverageText(y)
    {
      PayloadReadsCoverage(e, x, y);
    }
    hide Payload, WithCoverage, TextLess;
    if x.Partial? {
      if |x.missing| != 1 {
        AsOneName(x.missing);
        var one: Names := [Joined(x.missing)];
        assert CoverageText(Partial(one)) == CoverageText(x);
      } else if x.missing[0] == "" {
        var none: Names := [];
        assert CoverageText(Partial(none)) == CoverageText(x);
      } else if SplitsAtComma(x.missing[0]) {
        var u: string, v: string :| TextLess(u, v) && x.missing[0] == u + "," + v;
        var two: Names := [u, v];
        assert two[1..] == [v] && Joined([v]) == v;
        assert Joined(two) == u + "," + v;
        assert CoverageText(Partial(two)) == CoverageText(x);
      }
    }
    forall y | CoverageText(x) == CoverageText(y)
               && (x.Complete? || (|x.missing| == 1 && x.missing[0] != "" && !SplitsAtComma(x.missing[0])))
      ensures x == y
    {
      PartialText(x, y);
      if x.Partial? {
        OneNameIsRead(x.missing, y.missing);
      }
    }
  }

  lemma OneNameIsRead(m: Names, n: Names)
    requires |m| == 1 && m[0] != "" && !SplitsAtComma(m[0]) && Joined(m) == Joined(n)
    ensures m == n
  {
    if |n| > 1 {
      SeveralSplitAtComma(n);
    } else if |n| == 1 {
      assert m == [m[0]] && n == [n[0]];
    }
  }
}
