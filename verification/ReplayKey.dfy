/**
 What the replay fingerprint decides: which parts of an event it never reads, which it always
 tells apart, and between which session identifiers and component names it cannot.
 */
module ReplayKey {
  import opened Common
  import opened Decimals
  import opened Orders
  import opened PayloadDigest
  import opened UsageEvents

  // ---------------------------------------------------------------- the parts of a key

  function TimeText(e: Event): string {
    if e.occurredAt.Some? then "t:" + SignedDecimal(e.occurredAt.value) else "t:none"
  }

  function SessionText(e: Event): string {
    if e.session.Some? then e.session.value else "session:none"
  }

  function CountsText(usage: Usage): string {
    Decimal(usage.input) + ":" + Decimal(usage.cacheRead) + ":" + Decimal(usage.cacheWrite)
  }

  /** What follows the session in the key. */
  function UsageTail(usage: Usage): string {
    CountsText(usage) + KeyComponents(usage.unknown)
  }

  lemma KeyParts(e: Event)
    ensures HeuristicKey(e) == TimeText(e) + ['|'] + (SessionText(e) + ['|'] + UsageTail(e.usage))
  {
    hide KeyComponents, Decimal, SignedDecimal;
    var u := e.usage;
    assert "|" == ['|'];
    var t, s, k := TimeText(e), SessionText(e), KeyComponents(u.unknown);
    var i, r, w := Decimal(u.input), Decimal(u.cacheRead), Decimal(u.cacheWrite);
    assert HeuristicKey(e) == t + "|" + s + "|" + i + ":" + r + ":" + w + k;
    Regroup(t, s, i, r, w, k);
  }

  lemma Regroup(t: string, s: string, i: string, r: string, w: string, k: string)
    ensures t + "|" + s + "|" + i + ":" + r + ":" + w + k == t + "|" + (s + "|" + ((i + ":" + r + ":" + w) + k))
  {
    var counts := i + ":" + r + ":" + w;
    assert t + "|" + s + "|" + i + ":" + r + ":" + w + k == t + "|" + s + "|" + counts + k;
  }

  lemma DecimalHas(n: nat, c: char)
    requires !IsDigit(c)
    ensures c !in Decimal(n)
  {
    hide Decimal;
  }

  lemma TimeTextPlain(e: Event)
    ensures '|' !in TimeText(e)
  {
    if e.occurredAt.Some? {
      var n := e.occurredAt.value;
      DecimalHas(if n < 0 then -n else n, '|');
      hide Decimal;
    }
  }

  lemma TimeTextDecodes(a: Event, b: Event)
    requires TimeText(a) == TimeText(b)
    ensures a.occurredAt == b.occurredAt
  {
    if a.occurredAt.Some? && b.occurredAt.Some? {
      SignedDecimalInjective(a.occurredAt.value, b.occurredAt.value, "t:");
    } else if a.occurredAt.Some? {
      NumberIsNotNone(a.occurredAt.value);
    } else if b.occurredAt.Some? {
      NumberIsNotNone(b.occurredAt.value);
    }
  }

  lemma NumberIsNotNone(n: int)
    ensures "t:" + SignedDecimal(n) != "t:none"
  {
    var text := SignedDecimal(n);
    assert text[0] == '-' || IsDigit(text[0]) by { hide Decimal; }
    assert ("t:" + text)[2] == text[0] && "t:none"[2] == 'n';
    hide Decimal, SignedDecimal;
  }

  lemma SignedDecimalInjective(m: int, n: int, tag: string)
    requires tag + SignedDecimal(m) == tag + SignedDecimal(n)
    ensures m == n
  {
    assert SignedDecimal(m) == (tag + SignedDecimal(m))[|tag|..];
    assert SignedDecimal(n) == (tag + SignedDecimal(n))[|tag|..];
    var p, q: nat := if m < 0 then -m else m, if n < 0 then -n else n;
    assert Decimal(p)[0] != '-' && Decimal(q)[0] != '-' by { hide Decimal; }
    assert Decimal(p) == if m < 0 then SignedDecimal(m)[1..] else SignedDecimal(m);
    assert Decimal(q) == if n < 0 then SignedDecimal(n)[1..] else SignedDecimal(n);
    assert (m < 0) == (n < 0) by { hide Decimal; }
    hide Decimal, SignedDecimal;
    DecimalInjective(p, q);
  }

  lemma ThreeParts(i: string, r: string, w: string)
    ensures i + ":" + r + ":" + w == i + [':'] + (r + [':'] + w)
  {
    assert ":" == [':'];
    Associative(i + ":", r, ":");
    Associative(i + ":", r + ":", w);
  }

  lemma CountsDecode(a: Usage, b: Usage)
    requires CountsText(a) == CountsText(b)
    ensures a.input == b.input && a.cacheRead == b.cacheRead && a.cacheWrite == b.cacheWrite
  {
    DecimalHas(a.input, ':');
    DecimalHas(b.input, ':');
    DecimalHas(a.cacheRead, ':');
    DecimalHas(b.cacheRead, ':');
    hide Decimal;
    var i, r, w := Decimal(a.input), Decimal(a.cacheRead), Decimal(a.cacheWrite);
    var i', r', w' := Decimal(b.input), Decimal(b.cacheRead), Decimal(b.cacheWrite);
    ThreeParts(i, r, w);
    ThreeParts(i', r', w');
    SplitAtFirst(':', i, r + [':'] + w, i', r' + [':'] + w');
    SplitAtFirst(':', r, w, r', w');
    DecimalInjective(a.input, b.input);
    DecimalInjective(a.cacheRead, b.cacheRead);
    DecimalInjective(a.cacheWrite, b.cacheWrite);
  }

  lemma CountsPlain(usage: Usage)
    ensures '|' !in CountsText(usage)
  {
    DecimalHas(usage.input, '|');
    DecimalHas(usage.cacheRead, '|');
    DecimalHas(usage.cacheWrite, '|');
    hide Decimal;
  }

  /** The components' text is empty or begins with the separator. */
  lemma {:induction false} ComponentsStart(c: seq<Component>)
    ensures c == [] ==> KeyComponents(c) == ""
    ensures c != [] ==> KeyComponents(c) != "" && KeyComponents(c)[0] == '|'
  {
    if c != [] {
      ComponentsStart(c[..|c| - 1]);
      hide Decimal;
    }
  }

  /** A components' text behind a separator of its own. */
  function AfterBar(text: string): string
    requires text != "" ==> text[0] == '|'
  {
    if text == "" then "" else text[1..] + "|"
  }

  lemma BarFirst(head: string, text: string)
    requires text != "" ==> text[0] == '|'
    ensures head + text + "|" == head + ['|'] + AfterBar(text)
  {
    if text != "" {
      assert text == ['|'] + text[1..];
    }
  }

  /** Counts and components' text read back from what follows the session. */
  lemma UsageTailDecodes(u: Usage, v: Usage)
    ensures UsageTail(u) == UsageTail(v) <==>
      && u.input == v.input && u.cacheRead == v.cacheRead && u.cacheWrite == v.cacheWrite
      && KeyComponents(u.unknown) == KeyComponents(v.unknown)
  {
    if UsageTail(u) == UsageTail(v) {
      var c, d, k, l := CountsText(u), CountsText(v), KeyComponents(u.unknown), KeyComponents(v.unknown);
      ComponentsStart(u.unknown);
      ComponentsStart(v.unknown);
      CountsPlain(u);
      CountsPlain(v);
      hide CountsText, KeyComponents;
      BarFirst(c, k);
      BarFirst(d, l);
      assert c + k + "|" == d + l + "|";
      SplitAtFirst('|', c, AfterBar(k), d, AfterBar(l));
      CountsDecode(u, v);
      assert k == (c + k)[|c|..] && l == (d + l)[|d|..];
    }
  }

  // ---------------------------------------------------------------- what a key decides

  /** Two requests at different instants never share a key, whatever their texts hold. */
  lemma KeysKeepTimesApart(a: Event, b: Event)
    requires HeuristicKey(a) == HeuristicKey(b)
    ensures a.occurredAt == b.occurredAt
    ensures SessionText(a) + ['|'] + UsageTail(a.usage) == SessionText(b) + ['|'] + UsageTail(b.usage)
  {
    KeyParts(a);
    KeyParts(b);
    TimeTextPlain(a);
    TimeTextPlain(b);
    hide TimeText, SessionText, UsageTail, HeuristicKey;
    SplitAtFirst('|', TimeText(a), SessionText(a) + ['|'] + UsageTail(a.usage),
                 TimeText(b), SessionText(b) + ['|'] + UsageTail(b.usage));
    TimeTextDecodes(a, b);
  }

  /** Within a session two events share a key exactly when they agree on the instant, the input
      and both cache counts and the text of the unknown components: nothing else is read, the
      output count and the source file least of all, and none of these is lost. */
  lemma KeyDecodes(a: Event, b: Event)
    requires SessionText(a) == SessionText(b)
    ensures HeuristicKey(a) == HeuristicKey(b) <==>
      && a.occurredAt == b.occurredAt
      && a.usage.input == b.usage.input && a.usage.cacheRead == b.usage.cacheRead
      && a.usage.cacheWrite == b.usage.cacheWrite
      && KeyComponents(a.usage.unknown) == KeyComponents(b.usage.unknown)
  {
    UsageTailDecodes(a.usage, b.usage);
    KeyParts(a);
    KeyParts(b);
    hide SessionText, UsageTail, HeuristicKey, KeyComponents;
    if HeuristicKey(a) == HeuristicKey(b) {
      KeysKeepTimesApart(a, b);
      var s := SessionText(a);
      SameHead(s + ['|'], UsageTail(a.usage), UsageTail(b.usage));
    }
  }

  lemma SameHead(head: string, x: string, y: string)
    requires head + x == head + y
    ensures x == y
  {
    assert x == (head + x)[|head|..] && y == (head + y)[|head|..];
  }

  // ---------------------------------------------------------------- sessions

  /** `longer` is `shorter` with what could be a counts segment after it. */
  ghost predicate Extends(shorter: string, longer: string) {
    exists usage: Usage, rest: string :: ExtendsBy(shorter, longer, usage, rest)
  }

  predicate ExtendsBy(shorter: string, longer: string, usage: Usage, rest: string) {
    (rest == "" || rest[0] == '|') && longer == shorter + ['|'] + (CountsText(usage) + rest)
  }

  ghost predicate ShareAKey(s: string, t: string) {
    exists a: Event, b: Event :: a.session == Some(s) && b.session == Some(t) && HeuristicKey(a) == HeuristicKey(b)
  }

  lemma WithinTail(s: string, c: string, k: string, t: string, y: string) returns (rest: string)
    requires s + ['|'] + (c + k) == t + ['|'] + y
    requires |s| < |t| && '|' !in c && (k != "" ==> k[0] == '|')
    ensures (rest == "" || rest[0] == '|') && t == s + ['|'] + (c + rest)
  {
    var text := s + ['|'] + (c + k);
    var n := |t| - |s| - 1;
    assert text[|t|] == '|' by { assert (t + ['|'] + y)[|t|] == '|'; }
    assert forall i :: 0 <= i < |c| ==> text[|s| + 1 + i] == c[i];
    assert n >= |c|;
    rest := k[..n - |c|];
    assert t == text[..|t|];
    assert text[..|t|] == s + ['|'] + (c + rest);
  }

  lemma SharedKeyExtends(s: string, u: Usage, t: string, v: Usage)
    requires s + ['|'] + UsageTail(u) == t + ['|'] + UsageTail(v)
    requires |s| < |t|
    ensures Extends(s, t)
  {
    var c, k := CountsText(u), KeyComponents(u.unknown);
    CountsPlain(u);
    ComponentsStart(u.unknown);
    assert UsageTail(u) == c + k;
    hide CountsText, KeyComponents, UsageTail;
    var rest := WithinTail(s, c, k, t, UsageTail(v));
    assert ExtendsBy(s, t, u, rest);
  }

  function RequestOf(session: string, usage: Usage): Event {
    Event(usage, Reported, [], "", None, Some(session))
  }

  const ONE_COMPONENT := Usage(0, 0, 0, 0, [Component("x", 0)], Complete, Measured)

  lemma TailsMeet(s: string, counts: string, rest: string, name: string)
    requires "|" + name == rest + "|0:0:0|x"
    ensures s + ['|'] + (counts + ("|" + name + "=" + "0")) == (s + ['|'] + (counts + rest)) + ['|'] + "0:0:0|x=0"
  {
    assert "|0:0:0|x" + ("=" + "0") == ['|'] + "0:0:0|x=0";
    calc {
      s + ['|'] + (counts + ("|" + name + "=" + "0"));
      { Associative("|" + name, "=", "0"); }
      s + ['|'] + (counts + ((rest + "|0:0:0|x") + ("=" + "0")));
      { Associative(rest, "|0:0:0|x", "=" + "0"); }
      s + ['|'] + (counts + (rest + (['|'] + "0:0:0|x=0")));
      { Associative(counts, rest, ['|'] + "0:0:0|x=0"); }
      s + ['|'] + ((counts + rest) + (['|'] + "0:0:0|x=0"));
      { Associative(s + ['|'], counts + rest, ['|'] + "0:0:0|x=0"); }
      (s + ['|'] + (counts + rest)) + (['|'] + "0:0:0|x=0");
      { Associative(s + ['|'] + (counts + rest), ['|'], "0:0:0|x=0"); }
      (s + ['|'] + (counts + rest)) + ['|'] + "0:0:0|x=0";
    }
  }

  lemma Named(rest: string) returns (name: string)
    requires rest == "" || rest[0] == '|'
    ensures "|" + name == rest + "|0:0:0|x"
  {
    var named := rest + "|0:0:0|x";
    assert named[0] == '|';
    name := named[1..];
    assert "|" + name == named;
  }

  /** An extended session shares a key: what extends it reads as counts and as the name of one
      unknown component. */
  lemma ExtensionSharesAKey(s: string, t: string)
    requires Extends(s, t)
    ensures ShareAKey(s, t)
  {
    var usage: Usage, rest: string :| ExtendsBy(s, t, usage, rest);
    var name := Named(rest);
    var u := usage.(unknown := [Component(name, 0)]);
    TailOfOne(u);
    ZeroTail();
    assert CountsText(u) == CountsText(usage);
    hide CountsText, KeyComponents, UsageTail, Decimal;
    TailsMeet(s, CountsText(usage), rest, name);
    SameRestSharesAKey(s, u, t, ONE_COMPONENT);
  }

  lemma SameRestSharesAKey(s: string, u: Usage, t: string, v: Usage)
    requires s + ['|'] + UsageTail(u) == t + ['|'] + UsageTail(v)
    ensures ShareAKey(s, t)
  {
    hide UsageTail, HeuristicKey;
    var a, b := RequestOf(s, u), RequestOf(t, v);
    KeyParts(a);
    KeyParts(b);
    assert HeuristicKey(a) == HeuristicKey(b);
  }

  lemma TailOfOne(u: Usage)
    requires |u.unknown| == 1
    ensures UsageTail(u) == CountsText(u) + ("|" + u.unknown[0].name + "=" + Decimal(u.unknown[0].count))
  {
    assert u.unknown[..0] == [];
    assert KeyComponents(u.unknown[..0]) == "";
    hide Decimal, CountsText;
  }

  lemma ZeroTail()
    ensures Decimal(0) == "0" && UsageTail(ONE_COMPONENT) == "0:0:0|x=0"
  {
    TailOfOne(ONE_COMPONENT);
    assert Decimal(0) == "0";
    hide Decimal, KeyComponents;
  }

  /** Events of two sessions can share a key exactly when the sessions are one, or one reads as
      the other followed by a counts segment: only a separator inside an identifier can do it. */
  lemma SessionsShareAKeyExactlyWhen(s: string, t: string)
    ensures ShareAKey(s, t) <==> s == t || Extends(s, t) || Extends(t, s)
  {
    if ShareAKey(s, t) {
      var a: Event, b: Event :| a.session == Some(s) && b.session == Some(t) && HeuristicKey(a) == HeuristicKey(b);
      KeysKeepTimesApart(a, b);
      hide UsageTail, HeuristicKey, Extends;
      if |s| < |t| {
        SharedKeyExtends(s, a.usage, t, b.usage);
      } else if |t| < |s| {
        SharedKeyExtends(t, b.usage, s, a.usage);
      } else {
        assert s == (s + ['|'] + UsageTail(a.usage))[..|s|];
        assert t == (t + ['|'] + UsageTail(b.usage))[..|t|];
      }
    }
    hide ShareAKey, Extends;
    if s == t {
      SameRestSharesAKey(s, ONE_COMPONENT, t, ONE_COMPONENT);
    }
    if Extends(s, t) {
      ExtensionSharesAKey(s, t);
    }
    if Extends(t, s) {
      ExtensionSharesAKey(t, s);
      SharingIsSymmetric(t, s);
    }
  }

  lemma SharingIsSymmetric(s: string, t: string)
    requires ShareAKey(s, t)
    ensures ShareAKey(t, s)
  {
    hide HeuristicKey;
  }

  // ---------------------------------------------------------------- unknown components

  lemma {:induction false} ComponentsConcat(a: seq<Component>, b: seq<Component>)
    ensures KeyComponents(a + b) == KeyComponents(a) + KeyComponents(b)
  {
    hide Decimal;
    if b == [] {
      assert a + b == a && KeyComponents(a) + "" == KeyComponents(a);
    } else {
      var n := |b| - 1;
      ComponentsConcat(a, b[..n]);
      assert (a + b)[..|a + b| - 1] == a + b[..n];
      Associative(KeyComponents(a), KeyComponents(b[..n]), "|" + b[n].name + "=" + Decimal(b[n].count));
      LastComponent(a + b);
      LastComponent(b);
    }
  }

  lemma LastComponent(c: seq<Component>)
    requires c != []
    ensures KeyComponents(c)
         == KeyComponents(c[..|c| - 1]) + ("|" + c[|c| - 1].name + "=" + Decimal(c[|c| - 1].count))
  {
    hide Decimal;
    var k, name, count := KeyComponents(c[..|c| - 1]), c[|c| - 1].name, Decimal(c[|c| - 1].count);
    Associative(k, "|", name);
    Associative(k, "|" + name, "=");
    Associative(k, "|" + name + "=", count);
  }

  /** All components but for the last count, read as one name. */
  function MergedName(c: seq<Component>): string
    requires c != []
  {
    if |c| == 1 then c[0].name else c[0].name + "=" + Decimal(c[0].count) + "|" + MergedName(c[1..])
  }

  lemma {:induction false} ComponentsAsOne(c: seq<Component>)
    requires c != []
    ensures KeyComponents(c) == "|" + MergedName(c) + "=" + Decimal(c[|c| - 1].count)
  {
    hide Decimal;
    assert c == [c[0]] + c[1..];
    ComponentsConcat([c[0]], c[1..]);
    assert KeyComponents([c[0]]) == "|" + c[0].name + "=" + Decimal(c[0].count) by {
      LastComponent([c[0]]);
      assert [c[0]][..0] == [];
    }
    if |c| > 1 {
      ComponentsAsOne(c[1..]);
      hide KeyComponents;
      var first, more, last := c[0].name + "=" + Decimal(c[0].count), MergedName(c[1..]), Decimal(c[|c| - 1].count);
      assert KeyComponents([c[0]]) == "|" + first;
      assert "|" + first + ("|" + more + "=" + last) == "|" + (first + "|" + more) + "=" + last;
    }
  }

  lemma MergedNameStarts(c: seq<Component>) returns (rest: string)
    requires c != []
    ensures MergedName(c) == c[0].name + rest
  {
    if |c| == 1 {
      rest := "";
    } else {
      rest := "=" + Decimal(c[0].count) + "|" + MergedName(c[1..]);
    }
  }

  /** The name reads as a smaller name with its count and a greater name. */
  ghost predicate Splits(name: string) {
    exists p: string, q: string, count: nat ::
      TextLess(p, q) && name == p + "=" + Decimal(count) + "|" + q
  }

  /** No other components are written alike. */
  ghost predicate Unmistakable(c: Components) {
    forall d: Components :: KeyComponents(d) == KeyComponents(c) ==> d == c
  }

  lemma OneNameReadsBack(m: string, j: nat, n: string, k: nat)
    requires "|" + m + "=" + Decimal(j) == "|" + n + "=" + Decimal(k)
    ensures m == n && j == k
  {
    DecimalHas(j, '=');
    DecimalHas(k, '=');
    hide Decimal;
    SplitAtLast('=', "|" + m, Decimal(j), "|" + n, Decimal(k));
    assert m == ("|" + m)[1..] && n == ("|" + n)[1..];
    DecimalInjective(j, k);
  }

  lemma ManyAreMistakable(c: Components)
    requires |c| > 1
    ensures !Unmistakable(c)
  {
    var d: Components := [Component(MergedName(c), c[|c| - 1].count)];
    ComponentsAsOne(c);
    ComponentsAsOne(d);
    hide KeyComponents, MergedName, Decimal;
    assert |d| != |c|;
  }

  lemma SplitIsMistakable(c: Components)
    requires |c| == 1 && Splits(c[0].name)
    ensures !Unmistakable(c)
  {
    var p: string, q: string, count: nat :| TextLess(p, q) && c[0].name == p + "=" + Decimal(count) + "|" + q;
    var d: Components := [Component(p, count), Component(q, c[0].count)];
    ComponentsAsOne(c);
    ComponentsAsOne(d);
    assert d[1..] == [d[1]];
    hide KeyComponents, Decimal;
  }

  lemma SeveralSplit(d: Components)
    requires |d| > 1
    ensures Splits(MergedName(d))
  {
    var rest := MergedNameStarts(d[1..]);
    LessThanExtended(d[0].name, d[1].name, rest);
    hide Decimal;
  }

  lemma OneUnsplitIsUnmistakable(c: Components, d: Components)
    requires |c| == 1 && !Splits(c[0].name) && KeyComponents(d) == KeyComponents(c)
    ensures d == c
  {
    ComponentsStart(c);
    ComponentsStart(d);
    ComponentsAsOne(c);
    ComponentsAsOne(d);
    OneNameReadsBack(MergedName(d), d[|d| - 1].count, c[0].name, c[0].count);
    hide KeyComponents, Splits;
    if |d| > 1 {
      SeveralSplit(d);
    } else {
      assert d == [d[0]] && c == [c[0]];
    }
  }

  /** The components of a key can be mistaken for others exactly when there are several, or one
      whose name itself reads as a counted component and another name: the key writes names
      without escaping their separators. */
  lemma UnmistakableExactlyWhen(c: Components)
    ensures Unmistakable(c) <==> c == [] || (|c| == 1 && !Splits(c[0].name))
  {
    if c == [] {
      forall d: Components | KeyComponents(d) == KeyComponents(c) ensures d == c {
        ComponentsStart(d);
      }
    } else if |c| > 1 {
      ManyAreMistakable(c);
    } else if Splits(c[0].name) {
      SplitIsMistakable(c);
    } else {
      forall d: Components | KeyComponents(d) == KeyComponents(c) ensures d == c {
        OneUnsplitIsUnmistakable(c, d);
      }
    }
  }
}
