/**
 Resolving a task's kind from tracker evidence: which candidates assert, which rank wins, and
 why the order of the candidates never matters.
 */
module TaskIdentity {
  import opened Common
  import opened Orders

  datatype TaskKind = Task | Epic | Bug | Docs | Question

  datatype Origin = TrackerField(name: string) | TrackerLabel(name: string)

  datatype Candidate = Candidate(origin: Origin, rawValue: string)

  type Mapping = map<string, TaskKind>

  datatype Resolution =
    | Resolved(kind: TaskKind, winner: Origin, evidence: string)
    | Unknown(evidence: string)
    | Conflict(evidence: string)

  // ---------------------------------------------------------------- provenance

  /** The precedence rank; lower wins. */
  function Rank(origin: Origin): nat {
    if origin.TrackerField? then 1 else 2
  }

  function ProvenanceId(origin: Origin): string {
    match origin
    case TrackerField(name) => "tracker_field:" + name
    case TrackerLabel(name) => "tracker_label:" + name
  }

  /** The index of the first colon. */
  function FirstColon(text: string): (at: Option<nat>)
    ensures at.Some? ==> at.value < |text| && text[at.value] == ':' && ':' !in text[..at.value]
    ensures at.None? ==> ':' !in text
  {
    if text == [] then None
    else if text[0] == ':' then Some(0)
    else
      match FirstColon(text[1..])
      case None => None
      case Some(k) => assert text[..k + 1] == [text[0]] + text[1..][..k]; Some(k + 1)
  }

  function FromProvenanceId(raw: string): Option<Origin> {
    match FirstColon(raw)
    case None => None
    case Some(k) =>
      if raw[..k] == "tracker_field" then Some(TrackerField(raw[k + 1..]))
      else if raw[..k] == "tracker_label" then Some(TrackerLabel(raw[k + 1..]))
      else None
  }

  lemma ProvenanceRoundTrip(origin: Origin)
    ensures FromProvenanceId(ProvenanceId(origin)) == Some(origin)
  {
    var raw := ProvenanceId(origin);
    var tag := if origin.TrackerField? then "tracker_field" else "tracker_label";
    assert raw == tag + ":" + origin.name;
    assert ':' !in tag;
    var k := FirstColon(raw).value;
    assert raw[|tag|] == ':';
    assert forall i :: 0 <= i < k ==> raw[i] == raw[..k][i];
    assert forall i :: 0 <= i < |tag| ==> raw[i] == tag[i];
    assert k == |tag|;
    assert raw[..k] == tag && raw[k + 1..] == origin.name;
  }

  /** An identifier is read as an origin exactly when it is that origin's. */
  lemma FromProvenanceExactlyWhen(raw: string, origin: Origin)
    ensures FromProvenanceId(raw) == Some(origin) <==> raw == ProvenanceId(origin)
  {
    ProvenanceRoundTrip(origin);
    if FromProvenanceId(raw) == Some(origin) {
      var k := FirstColon(raw).value;
      assert raw[k] == ':';
      CutAt(raw, k);
      hide FirstColon;
      assert raw == (if origin.TrackerField? then "tracker_field" else "tracker_label") + ":" + origin.name;
    }
  }

  lemma CutAt(text: string, k: nat)
    requires k < |text| && text[k] == ':'
    ensures text == text[..k] + ":" + text[k + 1..]
  {
  }

  lemma ProvenanceInjective(a: Origin, b: Origin)
    requires ProvenanceId(a) == ProvenanceId(b)
    ensures a == b
  {
    ProvenanceRoundTrip(a);
    ProvenanceRoundTrip(b);
  }

  // ---------------------------------------------------------------- assertion

  predicate IsClassificationLabel(raw: string) {
    "size:" <= raw || "difficulty:" <= raw || "verify:" <= raw || "spec:" <= raw || raw == "critical"
  }

  function Normalize(mapping: Mapping, raw: string): Option<TaskKind> {
    if raw in mapping then Some(mapping[raw]) else None
  }

  /** The candidate asserts this kind. */
  predicate Asserts(c: Candidate, mapping: Mapping, kind: TaskKind) {
    !IsClassificationLabel(c.rawValue) && Normalize(mapping, c.rawValue) == Some(kind)
  }

  datatype Assertion = Assertion(rank: nat, kind: TaskKind)

  function KindOrder(kind: TaskKind): nat {
    match kind
    case Task => 0
    case Epic => 1
    case Bug => 2
    case Docs => 3
    case Question => 4
  }

  predicate KindLess(a: TaskKind, b: TaskKind) {
    KindOrder(a) < KindOrder(b)
  }

  predicate AssertionLess(a: Assertion, b: Assertion) {
    a.rank < b.rank || (a.rank == b.rank && KindLess(a.kind, b.kind))
  }

  function Assertions(candidates: seq<Candidate>, mapping: Mapping): seq<Assertion> {
    if candidates == [] then []
    else
      var c := candidates[0];
      (if !IsClassificationLabel(c.rawValue) && Normalize(mapping, c.rawValue).Some?
       then [Assertion(Rank(c.origin), Normalize(mapping, c.rawValue).value)] else [])
      + Assertions(candidates[1..], mapping)
  }

  function KindsAt(assertions: seq<Assertion>, rank: nat): seq<TaskKind> {
    if assertions == [] then []
    else (if assertions[0].rank == rank then [assertions[0].kind] else []) + KindsAt(assertions[1..], rank)
  }

  /** The first candidate of least provenance identifier that has the rank and the kind. It does
      not ask again whether the candidate's value is a classification label. */
  function Winner(candidates: seq<Candidate>, mapping: Mapping, rank: nat, kind: TaskKind): Option<Origin> {
    if candidates == [] then None
    else
      var n := |candidates| - 1;
      var c := candidates[n];
      var before := Winner(candidates[..n], mapping, rank, kind);
      if Rank(c.origin) == rank && Normalize(mapping, c.rawValue) == Some(kind)
         && (before.None? || TextLess(ProvenanceId(c.origin), ProvenanceId(before.value)))
      then Some(c.origin) else before
  }

  // ---------------------------------------------------------------- evidence

  function EvidenceText(c: Candidate): string {
    ProvenanceId(c.origin) + "=" + c.rawValue
  }

  function EvidenceTexts(candidates: seq<Candidate>): (texts: seq<string>)
    ensures |texts| == |candidates|
  {
    seq(|candidates|, i requires 0 <= i < |candidates| => EvidenceText(candidates[i]))
  }

  function Semicolons(texts: seq<string>): string {
    if texts == [] then ""
    else if |texts| == 1 then texts[0]
    else texts[0] + ";" + Semicolons(texts[1..])
  }

  /** The candidates' texts, sorted and without repeats. */
  function RenderedTexts(candidates: seq<Candidate>): seq<string> {
    Dedup(Sort(TextLess, EvidenceTexts(candidates)))
  }

  function RenderEvidence(candidates: seq<Candidate>): string {
    Semicolons(RenderedTexts(candidates))
  }

  /** Resolves the candidates of one task. `None` would be the panic of reading a
      first kind that is not there, or of a winner lookup that finds nobody. */
  function Resolve(candidates: seq<Candidate>, mapping: Mapping): Option<Resolution> {
    var evidence := RenderEvidence(candidates);
    var asserted := Sort(AssertionLess, Assertions(candidates, mapping));
    if asserted == [] then Some(Unknown(evidence))
    else
      var rank := asserted[0].rank;
      var distinct := Dedup(KindsAt(asserted, rank));
      if |distinct| > 1 then Some(Conflict(evidence))
      else if distinct == [] then None
      else
        match Winner(candidates, mapping, rank, distinct[0])
        case None => None
        case Some(winner) => Some(Resolved(distinct[0], winner, evidence))
  }

  // ---------------------------------------------------------------- what resolution means

  /** Some candidate of this rank asserts this kind. */
  ghost predicate AssertedAt(candidates: seq<Candidate>, mapping: Mapping, rank: nat, kind: TaskKind) {
    exists c :: c in candidates && Rank(c.origin) == rank && Asserts(c, mapping, kind)
  }

  /** The lowest rank at which anything is asserted. */
  ghost predicate Wins(candidates: seq<Candidate>, mapping: Mapping, rank: nat) {
    && (exists kind :: AssertedAt(candidates, mapping, rank, kind))
    && (forall r: nat, kind :: AssertedAt(candidates, mapping, r, kind) ==> rank <= r)
  }

  ghost predicate IsWinner(candidates: seq<Candidate>, mapping: Mapping, rank: nat, kind: TaskKind, winner: Origin) {
    && (exists c :: c in candidates && c.origin == winner && Rank(winner) == rank
                   && Normalize(mapping, c.rawValue) == Some(kind))
    && (forall c :: c in candidates && Rank(c.origin) == rank && Normalize(mapping, c.rawValue) == Some(kind) ==>
          !TextLess(ProvenanceId(c.origin), ProvenanceId(winner)))
  }

  /** What the resolution is, said of the set of candidates alone. */
  ghost predicate Decides(candidates: seq<Candidate>, mapping: Mapping, r: Resolution) {
    match r
    case Unknown(_) => forall rank: nat, kind :: !AssertedAt(candidates, mapping, rank, kind)
    case Conflict(_) =>
      exists rank: nat, k, l :: Wins(candidates, mapping, rank) && k != l
        && AssertedAt(candidates, mapping, rank, k) && AssertedAt(candidates, mapping, rank, l)
    case Resolved(kind, winner, _) =>
      exists rank: nat :: Wins(candidates, mapping, rank)
        && AssertedAt(candidates, mapping, rank, kind)
        && (forall k :: AssertedAt(candidates, mapping, rank, k) ==> k == kind)
        && IsWinner(candidates, mapping, rank, kind, winner)
  }

  lemma {:induction false} AssertionsHold(candidates: seq<Candidate>, mapping: Mapping, a: Assertion)
    ensures a in Assertions(candidates, mapping) <==> AssertedAt(candidates, mapping, a.rank, a.kind)
  {
    if candidates != [] {
      AssertionsHold(candidates[1..], mapping, a);
      assert candidates == [candidates[0]] + candidates[1..];
      hide IsClassificationLabel;
    }
  }

  lemma {:induction false} KindsAtHold(assertions: seq<Assertion>, rank: nat)
    ensures forall k :: k in KindsAt(assertions, rank) <==> Assertion(rank, k) in assertions
    ensures Ascending(AssertionLess, assertions) ==> Ascending(KindLess, KindsAt(assertions, rank))
  {
    if assertions != [] {
      KindsAtHold(assertions[1..], rank);
      assert assertions == [assertions[0]] + assertions[1..];
      if Ascending(AssertionLess, assertions) && assertions[0].rank == rank {
        var rest := KindsAt(assertions[1..], rank);
        forall j | 0 <= j < |rest| ensures !KindLess(rest[j], assertions[0].kind) {
          assert Assertion(rank, rest[j]) in assertions[1..];
          var i :| 0 <= i < |assertions[1..]| && assertions[1..][i] == Assertion(rank, rest[j]);
          assert !AssertionLess(assertions[i + 1], assertions[0]);
        }
      }
    }
  }

  lemma OrdersAreTotal()
    ensures StrictTotalOrder(KindLess) && StrictTotalOrder(AssertionLess)
  {
  }

  lemma NeitherLess(x: string, y: string, z: string)
    ensures !TextLess(x, z) && TextLess(y, z) ==> !TextLess(x, y)
  {
    TextLessIsTotal();
    hide TextLess;
  }

  lemma NeverLess(x: string)
    ensures !TextLess(x, x)
  {
    TextLessIsTotal();
    hide TextLess;
  }

  lemma {:induction false} WinnerWins(candidates: seq<Candidate>, mapping: Mapping, rank: nat, kind: TaskKind)
    ensures match Winner(candidates, mapping, rank, kind)
            case Some(w) => IsWinner(candidates, mapping, rank, kind, w)
            case None => forall c :: c in candidates ==>
              !(Rank(c.origin) == rank && Normalize(mapping, c.rawValue) == Some(kind))
  {
    hide TextLess, ProvenanceId;
    if candidates != [] {
      var n := |candidates| - 1;
      var front, c := candidates[..n], candidates[n];
      WinnerWins(front, mapping, rank, kind);
      assert candidates == front + [c];
      assert forall x :: x in candidates <==> x in front || x == c;
      var before, after := Winner(front, mapping, rank, kind), Winner(candidates, mapping, rank, kind);
      hide Winner;
      if after.Some? && after != before && before.Some? {
        forall x | x in front && Rank(x.origin) == rank && Normalize(mapping, x.rawValue) == Some(kind)
          ensures !TextLess(ProvenanceId(x.origin), ProvenanceId(c.origin))
        {
          NeitherLess(ProvenanceId(x.origin), ProvenanceId(c.origin), ProvenanceId(before.value));
        }
      }
      NeverLess(ProvenanceId(c.origin));
    }
  }

  /** The winner lookup never fails, and the resolution says what the candidates assert. */
  lemma ResolutionDecides(candidates: seq<Candidate>, mapping: Mapping)
    ensures Resolve(candidates, mapping).Some?
    ensures Decides(candidates, mapping, Resolve(candidates, mapping).value)
    ensures Resolve(candidates, mapping).value.evidence == RenderEvidence(candidates)
  {
    var asserted := Sort(AssertionLess, Assertions(candidates, mapping));
    SortedAssertions(candidates, mapping);
    hide Assertions, Sort, RenderEvidence, Winner, AssertionLess, Wins, AssertedAt, IsWinner, Ascending, Dedup, KindsAt;
    if asserted == [] {
      forall rank: nat, kind ensures !AssertedAt(candidates, mapping, rank, kind) {
        assert Assertion(rank, kind) !in asserted;
      }
    } else {
      var rank := asserted[0].rank;
      var distinct := Dedup(KindsAt(asserted, rank));
      DistinctKinds(candidates, mapping, asserted);
      LowestRankWins(candidates, mapping, asserted);
      assert forall k :: k in distinct ==> AssertedAt(candidates, mapping, rank, k);
      if |distinct| == 1 {
        AssertedHasWinner(candidates, mapping, rank, distinct[0]);
      } else {
        assert distinct[0] != distinct[1];
        assert AssertedAt(candidates, mapping, rank, distinct[0]) && AssertedAt(candidates, mapping, rank, distinct[1]);
      }
    }
  }

  lemma SortedAssertions(candidates: seq<Candidate>, mapping: Mapping)
    ensures Ascending(AssertionLess, Sort(AssertionLess, Assertions(candidates, mapping)))
    ensures forall a :: a in Sort(AssertionLess, Assertions(candidates, mapping)) <==>
      AssertedAt(candidates, mapping, a.rank, a.kind)
  {
    hide Assertions, Sort, AssertedAt;
    OrdersAreTotal();
    var raw := Assertions(candidates, mapping);
    SortSorts(AssertionLess, raw);
    forall a ensures a in raw <==> AssertedAt(candidates, mapping, a.rank, a.kind) {
      AssertionsHold(candidates, mapping, a);
    }
  }

  /** The kinds left after sorting and dropping repeats are those of the first rank, each once. */
  lemma DistinctKinds(candidates: seq<Candidate>, mapping: Mapping, asserted: seq<Assertion>)
    requires asserted != [] && Ascending(AssertionLess, asserted)
    requires forall a :: a in asserted <==> AssertedAt(candidates, mapping, a.rank, a.kind)
    ensures var rank := asserted[0].rank;
            var distinct := Dedup(KindsAt(asserted, rank));
            && distinct != []
            && (forall k :: k in distinct <==> AssertedAt(candidates, mapping, rank, k))
            && (|distinct| > 1 ==> distinct[0] != distinct[1])
  {
    hide AssertedAt, Dedup, KindsAt, AssertionLess;
    OrdersAreTotal();
    var rank := asserted[0].rank;
    var kinds := KindsAt(asserted, rank);
    KindsAtHold(asserted, rank);
    DedupOfSorted(KindLess, kinds);
    assert Assertion(rank, asserted[0].kind) in asserted;
    assert asserted[0].kind in kinds;
    assert forall k :: k in kinds <==> AssertedAt(candidates, mapping, rank, k) by {
      forall k ensures Assertion(rank, k) in asserted <==> AssertedAt(candidates, mapping, rank, k) {
      }
    }
  }

  lemma AssertedHasWinner(candidates: seq<Candidate>, mapping: Mapping, rank: nat, kind: TaskKind)
    requires AssertedAt(candidates, mapping, rank, kind)
    ensures Winner(candidates, mapping, rank, kind).Some?
    ensures IsWinner(candidates, mapping, rank, kind, Winner(candidates, mapping, rank, kind).value)
  {
    hide Winner, IsWinner;
    WinnerWins(candidates, mapping, rank, kind);
  }

  lemma LowestRankWins(candidates: seq<Candidate>, mapping: Mapping, asserted: seq<Assertion>)
    requires asserted != [] && Ascending(AssertionLess, asserted)
    requires forall a :: a in asserted <==> AssertedAt(candidates, mapping, a.rank, a.kind)
    ensures Wins(candidates, mapping, asserted[0].rank)
  {
    assert asserted[0] in asserted;
    forall r: nat, kind | AssertedAt(candidates, mapping, r, kind) ensures asserted[0].rank <= r {
      var i :| 0 <= i < |asserted| && asserted[i] == Assertion(r, kind);
      assert i == 0 || !AssertionLess(asserted[i], asserted[0]);
    }
  }

  // ---------------------------------------------------------------- order never matters

  lemma SameAssertions(a: seq<Candidate>, b: seq<Candidate>, mapping: Mapping)
    requires forall c :: c in a <==> c in b
    ensures forall rank: nat, kind :: AssertedAt(a, mapping, rank, kind) <==> AssertedAt(b, mapping, rank, kind)
    ensures forall rank: nat :: Wins(a, mapping, rank) <==> Wins(b, mapping, rank)
    ensures forall rank: nat, kind, w :: IsWinner(a, mapping, rank, kind, w) <==> IsWinner(b, mapping, rank, kind, w)
  {
    hide Asserts, TextLess, ProvenanceId;
  }

  lemma WinnersAgree(candidates: seq<Candidate>, mapping: Mapping, rank: nat, kind: TaskKind, v: Origin, w: Origin)
    requires IsWinner(candidates, mapping, rank, kind, v) && IsWinner(candidates, mapping, rank, kind, w)
    ensures v == w
  {
    TextLessIsTotal();
    hide TextLess;
    if ProvenanceId(v) == ProvenanceId(w) {
      ProvenanceInjective(v, w);
    }
  }

  lemma DecisionIsUnique(candidates: seq<Candidate>, mapping: Mapping, r: Resolution, s: Resolution)
    requires Decides(candidates, mapping, r) && Decides(candidates, mapping, s)
    ensures r.Unknown? == s.Unknown? && r.Conflict? == s.Conflict?
    ensures r.Resolved? ==> s.Resolved? && r.kind == s.kind && r.winner == s.winner
  {
    hide AssertedAt, IsWinner;
    if r.Resolved? && s.Resolved? {
      var p: nat :| Wins(candidates, mapping, p) && AssertedAt(candidates, mapping, p, r.kind)
        && (forall k :: AssertedAt(candidates, mapping, p, k) ==> k == r.kind)
        && IsWinner(candidates, mapping, p, r.kind, r.winner);
      var q: nat :| Wins(candidates, mapping, q) && AssertedAt(candidates, mapping, q, s.kind)
        && (forall k :: AssertedAt(candidates, mapping, q, k) ==> k == s.kind)
        && IsWinner(candidates, mapping, q, s.kind, s.winner);
      assert p == q;
      WinnersAgree(candidates, mapping, p, r.kind, r.winner, s.winner);
    }
  }

  /** Lists that hold the same candidates, in whatever order and however often, resolve alike. */
  lemma OrderNeverMatters(a: seq<Candidate>, b: seq<Candidate>, mapping: Mapping)
    requires forall c :: c in a <==> c in b
    ensures Resolve(a, mapping) == Resolve(b, mapping)
  {
    ResolutionDecides(a, mapping);
    ResolutionDecides(b, mapping);
    SameAssertions(a, b, mapping);
    EvidenceIsOfTheSet(a, b);
    hide Resolve, RenderEvidence, AssertedAt, IsWinner, Wins;
    var r, s := Resolve(a, mapping).value, Resolve(b, mapping).value;
    assert Decides(a, mapping, s);
    DecisionIsUnique(a, mapping, r, s);
  }

  lemma SameTexts(a: seq<Candidate>, b: seq<Candidate>)
    requires forall c :: c in a <==> c in b
    ensures forall t :: t in EvidenceTexts(a) <==> t in EvidenceTexts(b)
  {
    TextsAreOfMembers(a);
    TextsAreOfMembers(b);
    hide EvidenceTexts, EvidenceText;
  }

  lemma TextsAreOfMembers(candidates: seq<Candidate>)
    ensures forall t :: t in EvidenceTexts(candidates) <==> exists c :: c in candidates && EvidenceText(c) == t
  {
    hide EvidenceText;
    forall c | c in candidates ensures EvidenceText(c) in EvidenceTexts(candidates) {
      var i :| 0 <= i < |candidates| && candidates[i] == c;
      assert EvidenceTexts(candidates)[i] == EvidenceText(c);
    }
  }

  lemma EvidenceIsOfTheSet(a: seq<Candidate>, b: seq<Candidate>)
    requires forall c :: c in a <==> c in b
    ensures RenderEvidence(a) == RenderEvidence(b)
  {
    TextLessIsTotal();
    SameTexts(a, b);
    SortedDistinctIsUnique(TextLess, EvidenceTexts(a), EvidenceTexts(b));
  }

  /** A task resolves exactly when something is asserted and all kinds asserted at the lowest
      asserting rank agree. */
  lemma ResolvesExactlyOnAgreement(candidates: seq<Candidate>, mapping: Mapping, rank: nat)
    requires Wins(candidates, mapping, rank)
    ensures (Resolve(candidates, mapping).Some? && Resolve(candidates, mapping).value.Resolved?) <==>
      forall k, l :: AssertedAt(candidates, mapping, rank, k) && AssertedAt(candidates, mapping, rank, l) ==> k == l
  {
    ResolutionDecides(candidates, mapping);
    hide Resolve, AssertedAt, IsWinner;
  }

  /** What a list of texts was before a separator joined them. */
  function SplitAt(separator: char, text: string): (parts: seq<string>)
    ensures parts != []
  {
    if text == [] then [""]
    else
      var rest := SplitAt(separator, text[1..]);
      if text[0] == separator then [""] + rest else [[text[0]] + rest[0]] + rest[1..]
  }

  lemma {:induction false} SplitStartsWith(separator: char, part: string, tail: string)
    requires separator !in part
    ensures SplitAt(separator, part + tail) == [part + SplitAt(separator, tail)[0]] + SplitAt(separator, tail)[1..]
  {
    if part == [] {
      assert part + tail == tail;
      assert part + SplitAt(separator, tail)[0] == SplitAt(separator, tail)[0];
    } else {
      SplitStartsWith(separator, part[1..], tail);
      assert (part + tail)[1..] == part[1..] + tail;
      var rest := SplitAt(separator, tail);
      assert part[0] in part && (part + tail)[0] == part[0];
      assert [part[0]] + (part[1..] + rest[0]) == part + rest[0];
    }
  }

  /** Texts without a semicolon are what splitting the joined text at its semicolons gives back. */
  lemma {:induction false} SemicolonsSplitBack(texts: seq<string>)
    requires forall i :: 0 <= i < |texts| ==> ';' !in texts[i]
    ensures if texts == [] then Semicolons(texts) == "" else SplitAt(';', Semicolons(texts)) == texts
  {
    if texts == [] {
    } else if |texts| == 1 {
      SplitStartsWith(';', texts[0], "");
      assert texts[0] + "" == texts[0];
    } else {
      var rest := Semicolons(texts[1..]);
      SemicolonsSplitBack(texts[1..]);
      SplitStartsWith(';', texts[0], ";" + rest);
      assert (";" + rest)[1..] == rest;
      assert texts[0] + (";" + rest) == texts[0] + ";" + rest;
      assert texts[0] + "" == texts[0];
    }
  }

  ghost predicate Classifies(raw: string) {
    || raw == "critical"
    || exists rest :: raw in {"size:" + rest, "difficulty:" + rest, "verify:" + rest, "spec:" + rest}
  }

  lemma ClassifiesExactlyWhen(raw: string)
    ensures IsClassificationLabel(raw) <==> Classifies(raw)
  {
    if "size:" <= raw { assert raw == "size:" + raw[|"size:"|..]; }
    if "difficulty:" <= raw { assert raw == "difficulty:" + raw[|"difficulty:"|..]; }
    if "verify:" <= raw { assert raw == "verify:" + raw[|"verify:"|..]; }
    if "spec:" <= raw { assert raw == "spec:" + raw[|"spec:"|..]; }
  }

  /** A lone value resolves to the kind it is mapped to, whatever its origin, unless it classifies
      the task in another way. */
  lemma LoneValueResolvesExactlyWhen(origin: Origin, raw: string, kind: TaskKind)
    ensures Resolve([Candidate(origin, raw)], map[raw := kind]) ==
      Some(if Classifies(raw) then Unknown(ProvenanceId(origin) + "=" + raw)
           else Resolved(kind, origin, ProvenanceId(origin) + "=" + raw))
  {
    var c, mapping := Candidate(origin, raw), map[raw := kind];
    ClassifiesExactlyWhen(raw);
    ResolutionDecides([c], mapping);
    LoneEvidence(c);
    hide Resolve, IsClassificationLabel, ProvenanceId, TextLess, Classifies, Rank, RenderEvidence;
    var r := Resolve([c], mapping).value;
    if Asserts(c, mapping, kind) {
      assert c in [c] && AssertedAt([c], mapping, Rank(origin), kind);
      assert forall x :: x in [c] ==> x == c;
    }
    assert r.Resolved? ==> r.winner == origin && r.kind == kind;
  }

  lemma LoneEvidence(c: Candidate)
    ensures RenderEvidence([c]) == EvidenceText(c)
  {
    var text := EvidenceText(c);
    assert EvidenceTexts([c]) == [text];
    assert Sort(TextLess, [text]) == Insert(TextLess, text, Sort(TextLess, [text][1..]));
    assert Sort(TextLess, [text][1..]) == [];
  }

  // ---------------------------------------------------------------- the winner's own value

  /** The winner's candidate is one that asserts the resolved kind. */
  ghost predicate WinnerAsserts(candidates: seq<Candidate>, mapping: Mapping)
    requires Resolve(candidates, mapping).Some?
  {
    var r := Resolve(candidates, mapping).value;
    r.Resolved? ==> exists c :: c in candidates && c.origin == r.winner && Asserts(c, mapping, r.kind)
  }

  /** What a tracker says of one of its records. */
  datatype TrackerRecord = TrackerRecord(issueType: string, labels: seq<string>)

  function LabelCandidates(labels: seq<string>): seq<Candidate> {
    if labels == [] then [] else [Candidate(TrackerLabel(labels[0]), labels[0])] + LabelCandidates(labels[1..])
  }

  /** One candidate from the categorical field, one a label; a label is its own origin. */
  function Emit(record: TrackerRecord): seq<Candidate> {
    [Candidate(TrackerField("issue_type"), record.issueType)] + LabelCandidates(record.labels)
  }

  /** The candidates the store holds once every reading of the record has been ingested: none is
      ever removed. */
  function Gather(readings: seq<TrackerRecord>): seq<Candidate> {
    if readings == [] then [] else Emit(readings[0]) + Gather(readings[1..])
  }

  predicate IsEmitted(c: Candidate) {
    c.origin == TrackerField("issue_type") || c.origin == TrackerLabel(c.rawValue)
  }

  lemma {:induction false} LabelsAreEmitted(labels: seq<string>)
    ensures forall c :: c in LabelCandidates(labels) <==> c.origin == TrackerLabel(c.rawValue) && c.rawValue in labels
  {
    if labels != [] {
      LabelsAreEmitted(labels[1..]);
      assert labels == [labels[0]] + labels[1..];
    }
  }

  lemma {:induction false} GatheredAreEmitted(readings: seq<TrackerRecord>)
    ensures forall c :: c in Gather(readings) ==> IsEmitted(c)
  {
    if readings != [] {
      LabelsAreEmitted(readings[0].labels);
      GatheredAreEmitted(readings[1..]);
      hide LabelCandidates;
    }
  }

  /** No classification label comes before an ordinary value of its kind. */
  ghost predicate OrdinaryFirst(mapping: Mapping) {
    forall marker, value | marker in mapping && value in mapping && mapping[marker] == mapping[value] ::
      IsClassificationLabel(marker) && !IsClassificationLabel(value) ==> !TextLess(marker, value)
  }

  lemma {:induction false} PrefixKeepsOrder(prefix: string, a: string, b: string)
    ensures TextLess(prefix + a, prefix + b) <==> TextLess(a, b)
  {
    if prefix == "" {
      assert prefix + a == a && prefix + b == b;
    } else {
      PrefixKeepsOrder(prefix[1..], a, b);
      assert (prefix + a)[1..] == prefix[1..] + a && (prefix + b)[1..] == prefix[1..] + b;
    }
  }

  /** The winner lookup forgets to skip classification labels. Over all that a tracker can say
      of a record, in one reading or many, the winner is a candidate that asserted the kind
      exactly under mappings in which no classification label comes before an ordinary value
      of the same kind. */
  lemma WinnersAssertExactlyWhen(mapping: Mapping)
    ensures (forall readings ::
               Resolve(Gather(readings), mapping).Some? && WinnerAsserts(Gather(readings), mapping))
       <==> OrdinaryFirst(mapping)
    ensures (forall record ::
               Resolve(Emit(record), mapping).Some? && WinnerAsserts(Emit(record), mapping))
       <==> OrdinaryFirst(mapping)
  {
    forall readings ensures Resolve(Gather(readings), mapping).Some? {
      ResolutionDecides(Gather(readings), mapping);
    }
    forall record ensures Resolve(Emit(record), mapping).Some? && Gather([record]) == Emit(record) {
      ResolutionDecides(Emit(record), mapping);
      assert Gather([record][1..]) == [];
    }
    hide Resolve, Emit, Gather, IsClassificationLabel, TextLess, WinnerAsserts;
    if OrdinaryFirst(mapping) {
      forall readings ensures WinnerAsserts(Gather(readings), mapping) {
        GatheredWinnerAsserts(readings, mapping);
      }
    } else {
      var marker, value :| marker in mapping && value in mapping && IsClassificationLabel(marker)
        && !IsClassificationLabel(value) && mapping[marker] == mapping[value] && TextLess(marker, value);
      var record := LabelWins(mapping, marker, value);
      assert !WinnerAsserts(Gather([record]), mapping);
    }
    forall record | OrdinaryFirst(mapping) ensures WinnerAsserts(Emit(record), mapping) {
      assert WinnerAsserts(Gather([record]), mapping);
    }
  }

  lemma GatheredWinnerAsserts(readings: seq<TrackerRecord>, mapping: Mapping)
    requires OrdinaryFirst(mapping) && Resolve(Gather(readings), mapping).Some?
    ensures WinnerAsserts(Gather(readings), mapping)
  {
    var candidates := Gather(readings);
    GatheredAreEmitted(readings);
    ResolutionDecides(candidates, mapping);
    hide Resolve, Gather, IsClassificationLabel, TextLess, ProvenanceId;
    var r := Resolve(candidates, mapping).value;
    if r.Resolved? {
      EmittedWinnerAsserts(candidates, mapping, r);
    }
  }

  lemma EmittedWinnerAsserts(candidates: seq<Candidate>, mapping: Mapping, r: Resolution)
    requires forall c :: c in candidates ==> IsEmitted(c)
    requires OrdinaryFirst(mapping) && r.Resolved? && Decides(candidates, mapping, r)
    ensures exists c :: c in candidates && c.origin == r.winner && Asserts(c, mapping, r.kind)
  {
    hide IsClassificationLabel, TextLess, ProvenanceId;
    var rank: nat :| Wins(candidates, mapping, rank) && AssertedAt(candidates, mapping, rank, r.kind)
      && IsWinner(candidates, mapping, rank, r.kind, r.winner);
    var asserting :| asserting in candidates && Rank(asserting.origin) == rank && Asserts(asserting, mapping, r.kind);
    var c :| c in candidates && c.origin == r.winner && Rank(r.winner) == rank
      && Normalize(mapping, c.rawValue) == Some(r.kind);
    LabelsInOrder(c.rawValue, asserting.rawValue);
    assert !TextLess(ProvenanceId(asserting.origin), ProvenanceId(r.winner));
    if rank == 1 {
      assert asserting.origin == r.winner;
    } else {
      assert !IsClassificationLabel(c.rawValue);
    }
  }

  lemma LabelsInOrder(a: string, b: string)
    ensures TextLess(ProvenanceId(TrackerLabel(a)), ProvenanceId(TrackerLabel(b))) <==> TextLess(a, b)
    ensures a == b || TextLess(a, b) || TextLess(b, a)
    ensures TextLess(ProvenanceId(TrackerLabel(b)), ProvenanceId(TrackerLabel(a))) <==> TextLess(b, a)
  {
    PrefixKeepsOrder("tracker_label:", a, b);
    PrefixKeepsOrder("tracker_label:", b, a);
    TextLessIsTotal();
    hide TextLess;
  }

  /** Some text is longer than every key. */
  lemma {:induction false} LongerThanAll(texts: set<string>) returns (longer: string)
    ensures forall t :: t in texts ==> |t| < |longer|
    decreases |texts|
  {
    longer := "x";
    if texts != {} {
      var t :| t in texts;
      var other := LongerThanAll(texts - {t});
      longer := other + t + "x";
      forall u | u in texts ensures |u| < |longer| {
        assert u == t || u in texts - {t};
      }
    }
  }

  /** A record of an unmapped type with both labels: the classification label wins although it
      asserts nothing. */
  lemma LabelWins(mapping: Mapping, marker: string, value: string) returns (record: TrackerRecord)
    requires marker in mapping && value in mapping && mapping[marker] == mapping[value]
    requires IsClassificationLabel(marker) && !IsClassificationLabel(value) && TextLess(marker, value)
    ensures Resolve(Emit(record), mapping).Some? && !WinnerAsserts(Emit(record), mapping)
  {
    var unmapped := LongerThanAll(mapping.Keys);
    record := TrackerRecord(unmapped, [marker, value]);
    var candidates := Emit(record);
    var field := Candidate(TrackerField("issue_type"), unmapped);
    var c, d := Candidate(TrackerLabel(marker), marker), Candidate(TrackerLabel(value), value);
    LabelsAreEmitted([marker, value]);
    assert unmapped !in mapping;
    hide LabelCandidates;
    assert forall x :: x in candidates <==> x == field || x == c || x == d;
    ResolutionDecides(candidates, mapping);
    LabelsInOrder(marker, value);
    hide Resolve, IsClassificationLabel, TextLess, Emit, ProvenanceId;
    LabelWinsAmong(candidates, mapping, field, c, d, Resolve(candidates, mapping).value);
  }

  lemma LabelWinsAmong(candidates: seq<Candidate>, mapping: Mapping, field: Candidate, c: Candidate, d: Candidate,
                       r: Resolution)
    requires forall x :: x in candidates <==> x == field || x == c || x == d
    requires field.origin.TrackerField? && c.origin.TrackerLabel? && d.origin.TrackerLabel?
    requires field.rawValue !in mapping && c.rawValue in mapping && d.rawValue in mapping
    requires mapping[c.rawValue] == mapping[d.rawValue]
    requires IsClassificationLabel(c.rawValue) && !IsClassificationLabel(d.rawValue)
    requires TextLess(ProvenanceId(c.origin), ProvenanceId(d.origin))
    requires Decides(candidates, mapping, r)
    ensures r.Resolved? && forall x :: x in candidates && x.origin == r.winner ==> !Asserts(x, mapping, r.kind)
  {
    hide IsClassificationLabel, TextLess, ProvenanceId;
    var kind := mapping[d.rawValue];
    assert d in candidates && c in candidates;
    assert AssertedAt(candidates, mapping, 2, kind);
    forall rank: nat, k | AssertedAt(candidates, mapping, rank, k) ensures rank == 2 && k == kind {
    }
    assert Wins(candidates, mapping, 2);
    assert r.Resolved? && r.kind == kind;
    assert IsWinner(candidates, mapping, 2, kind, r.winner);
    assert r.winner != d.origin;
  }

  // ---------------------------------------------------------------- the documented order

  /** The order evidence is documented in: rank, then provenance identifier, then raw value. */
  predicate Documented(c: Candidate, d: Candidate) {
    var p, q := ProvenanceId(c.origin), ProvenanceId(d.origin);
    || Rank(c.origin) < Rank(d.origin)
    || (Rank(c.origin) == Rank(d.origin) && (TextLess(p, q) || (p == q && TextLess(c.rawValue, d.rawValue))))
  }

  function DocumentedTexts(candidates: seq<Candidate>): seq<string> {
    EvidenceTexts(Dedup(Sort(Documented, candidates)))
  }

  lemma DocumentedIsTotal()
    ensures StrictTotalOrder(Documented)
  {
    TextLessIsTotal();
    hide TextLess, ProvenanceId;
    forall c: Candidate, d: Candidate ensures c == d || Documented(c, d) || Documented(d, c) {
      if ProvenanceId(c.origin) == ProvenanceId(d.origin) {
        ProvenanceInjective(c.origin, d.origin);
      }
    }
  }

  /** The label extended by another stays before it: the text after the shared part decides. */
  predicate ExtensionsInOrder(x: string, y: string) {
    x <= y && x != y ==> TextLess("=" + x, y[|x|..] + "=" + y)
  }

  lemma {:induction false} FirstDifferenceDecides(x: string, y: string, s: string, t: string)
    requires TextLess(x, y) && !(x <= y)
    ensures TextLess(x + s, y + t)
  {
    assert (x + s)[0] == x[0] && (y + t)[0] == y[0];
    if x[0] == y[0] {
      FirstDifferenceDecides(x[1..], y[1..], s, t);
      assert (x + s)[1..] == x[1..] + s && (y + t)[1..] == y[1..] + t;
    }
  }

  lemma LabelTextsInOrderExactlyWhen(x: string, y: string)
    requires TextLess(x, y)
    ensures TextLess(EvidenceText(Candidate(TrackerLabel(x), x)), EvidenceText(Candidate(TrackerLabel(y), y)))
       <==> ExtensionsInOrder(x, y)
  {
    var tag := "tracker_label:";
    NeverLess(x);
    assert EvidenceText(Candidate(TrackerLabel(x), x)) == tag + (x + ("=" + x));
    assert EvidenceText(Candidate(TrackerLabel(y), y)) == tag + (y + ("=" + y));
    PrefixKeepsOrder(tag, x + ("=" + x), y + ("=" + y));
    if x <= y {
      var rest := y[|x|..];
      assert y + ("=" + y) == x + (rest + "=" + y);
      PrefixKeepsOrder(x, "=" + x, rest + "=" + y);
    } else {
      FirstDifferenceDecides(x, y, "=" + x, "=" + y);
    }
    hide TextLess;
  }

  /** Whatever the values, a field's text comes before a label's: the ranks are always in order. */
  lemma RanksInOrder(c: Candidate, d: Candidate)
    requires Rank(c.origin) < Rank(d.origin)
    ensures TextLess(EvidenceText(c), EvidenceText(d))
  {
    var s, t := ":" + c.origin.name + "=" + c.rawValue, ":" + d.origin.name + "=" + d.rawValue;
    assert EvidenceText(c) == "tracker_" + ("field" + s) && EvidenceText(d) == "tracker_" + ("label" + t);
    PrefixKeepsOrder("tracker_", "field" + s, "label" + t);
  }

  lemma EmittedPairInOrderExactlyWhen(c: Candidate, d: Candidate)
    requires IsEmitted(c) && IsEmitted(d) && Documented(c, d)
    ensures TextLess(EvidenceText(c), EvidenceText(d)) <==>
      (c.origin.TrackerLabel? && d.origin.TrackerLabel? ==> ExtensionsInOrder(c.rawValue, d.rawValue))
  {
    if Rank(c.origin) < Rank(d.origin) {
      RanksInOrder(c, d);
    } else if c.origin.TrackerLabel? {
      LabelsInOrder(c.rawValue, d.rawValue);
      NeverLess(ProvenanceId(c.origin));
      hide TextLess;
      LabelTextsInOrderExactlyWhen(c.rawValue, d.rawValue);
    } else {
      var field := ProvenanceId(c.origin);
      NeverLess(field);
      PrefixKeepsOrder(field + "=", c.rawValue, d.rawValue);
    }
  }

  lemma DocumentedOrderSorts(candidates: seq<Candidate>)
    ensures
      var ordered := Dedup(Sort(Documented, candidates));
      StrictlyAscending(Documented, ordered) && forall c :: c in ordered <==> c in candidates
  {
    DocumentedIsTotal();
    hide Documented;
    SortSorts(Documented, candidates);
    DedupOfSorted(Documented, Sort(Documented, candidates));
  }

  lemma RenderedAscend(candidates: seq<Candidate>)
    ensures StrictlyAscending(TextLess, RenderedTexts(candidates))
    ensures forall t :: t in RenderedTexts(candidates) <==> t in EvidenceTexts(candidates)
  {
    TextLessIsTotal();
    hide TextLess, EvidenceTexts;
    SortSorts(TextLess, EvidenceTexts(candidates));
    DedupOfSorted(TextLess, Sort(TextLess, EvidenceTexts(candidates)));
  }

  /** The rendered texts are in the documented order exactly when documented pairs ascend as
      texts. */
  lemma RenderedAsDocumentedExactlyWhen(candidates: seq<Candidate>)
    ensures RenderedTexts(candidates) == DocumentedTexts(candidates) <==>
      forall c, d :: c in candidates && d in candidates && Documented(c, d) ==>
        TextLess(EvidenceText(c), EvidenceText(d))
  {
    var ordered := Dedup(Sort(Documented, candidates));
    DocumentedOrderSorts(candidates);
    RenderedAscend(candidates);
    SameTexts(candidates, ordered);
    var rendered, documented := RenderedTexts(candidates), DocumentedTexts(candidates);
    assert documented == EvidenceTexts(ordered);
    hide Sort, Dedup, TextLess, Documented, EvidenceText, RenderedTexts, DocumentedTexts, StrictlyAscending;
    if rendered == documented {
      forall c, d | c in candidates && d in candidates && Documented(c, d)
        ensures TextLess(EvidenceText(c), EvidenceText(d))
      {
        PlacedInOrder(ordered, c, d);
      }
    }
    if forall c, d :: c in candidates && d in candidates && Documented(c, d) ==>
         TextLess(EvidenceText(c), EvidenceText(d)) {
      TextsAscend(ordered);
      TextLessIsTotal();
      AscendingIsUnique(TextLess, rendered, documented);
    }
  }

  lemma TextsAscend(ordered: seq<Candidate>)
    requires StrictlyAscending(Documented, ordered)
    requires forall c, d :: c in ordered && d in ordered && Documented(c, d) ==>
      TextLess(EvidenceText(c), EvidenceText(d))
    ensures StrictlyAscending(TextLess, EvidenceTexts(ordered))
  {
    hide TextLess, Documented, EvidenceText;
  }

  lemma PlacedInOrder(ordered: seq<Candidate>, c: Candidate, d: Candidate)
    requires StrictlyAscending(Documented, ordered) && StrictlyAscending(TextLess, EvidenceTexts(ordered))
    requires c in ordered && d in ordered && Documented(c, d)
    ensures TextLess(EvidenceText(c), EvidenceText(d))
  {
    DocumentedIsTotal();
    hide TextLess, Documented, EvidenceText;
    var i :| 0 <= i < |ordered| && ordered[i] == c;
    var j :| 0 <= j < |ordered| && ordered[j] == d;
    assert i < j;
    assert EvidenceTexts(ordered)[i] == EvidenceText(c) && EvidenceTexts(ordered)[j] == EvidenceText(d);
  }

  /** The label is on some reading of the record. */
  ghost predicate Labelled(readings: seq<TrackerRecord>, name: string) {
    exists i :: 0 <= i < |readings| && name in readings[i].labels
  }

  lemma {:induction false} LabelsAreGathered(readings: seq<TrackerRecord>, name: string)
    ensures Candidate(TrackerLabel(name), name) in Gather(readings) <==> Labelled(readings, name)
  {
    if readings != [] {
      var first, rest := readings[0], readings[1..];
      LabelsAreGathered(rest, name);
      LabelsAreEmitted(first.labels);
      assert Labelled(readings, name) <==> name in first.labels || Labelled(rest, name) by {
        if Labelled(readings, name) && name !in first.labels {
          var i :| 0 <= i < |readings| && name in readings[i].labels;
          assert rest[i - 1] == readings[i];
        }
        if Labelled(rest, name) {
          var i :| 0 <= i < |rest| && name in rest[i].labels;
          assert readings[i + 1] == rest[i];
        }
      }
      hide LabelCandidates, Labelled;
    }
  }

  lemma {:induction false} PrefixIsLess(x: string, y: string)
    requires x <= y && x != y
    ensures TextLess(x, y)
  {
    if x != [] {
      PrefixIsLess(x[1..], y[1..]);
    }
  }

  /** The evidence of whatever a tracker says of a record is in the documented order exactly when
      every label that extends another still comes after it once the value is appended. */
  lemma EvidenceInOrderExactlyWhen(readings: seq<TrackerRecord>)
    ensures RenderedTexts(Gather(readings)) == DocumentedTexts(Gather(readings)) <==>
      forall x, y :: Labelled(readings, x) && Labelled(readings, y) ==> ExtensionsInOrder(x, y)
  {
    var candidates := Gather(readings);
    GatheredAreEmitted(readings);
    RenderedAsDocumentedExactlyWhen(candidates);
    forall c, d | c in candidates && d in candidates && Documented(c, d)
      ensures TextLess(EvidenceText(c), EvidenceText(d)) <==>
        (c.origin.TrackerLabel? && d.origin.TrackerLabel? ==> ExtensionsInOrder(c.rawValue, d.rawValue))
    {
      EmittedPairInOrderExactlyWhen(c, d);
    }
    forall x ensures Candidate(TrackerLabel(x), x) in candidates <==> Labelled(readings, x) {
      LabelsAreGathered(readings, x);
    }
    forall x, y | Labelled(readings, x) && Labelled(readings, y) && !ExtensionsInOrder(x, y)
      ensures Documented(Candidate(TrackerLabel(x), x), Candidate(TrackerLabel(y), y))
    {
      PrefixIsLess(x, y);
      LabelsInOrder(x, y);
    }
    hide RenderedTexts, DocumentedTexts, Gather, EvidenceText, Documented, TextLess, Labelled, ExtensionsInOrder;
  }

  /** A label that extends another with a character before the equals sign is rendered first. */
  lemma LongerLabelFirst(issueType: string)
    ensures
      var candidates := Emit(TrackerRecord(issueType, ["a", "a!"]));
      && Documented(candidates[1], candidates[2])
      && TextLess(EvidenceText(candidates[2]), EvidenceText(candidates[1]))
      && RenderedTexts(candidates) != DocumentedTexts(candidates)
  {
    var shorter, longer := Candidate(TrackerLabel("a"), "a"), Candidate(TrackerLabel("a!"), "a!");
    var candidates := Emit(TrackerRecord(issueType, ["a", "a!"]));
    TwoLabels("a", "a!");
    assert candidates == [Candidate(TrackerField("issue_type"), issueType), shorter, longer];
    PrefixIsLess("a", "a!");
    LabelsInOrder("a", "a!");
    hide EvidenceText, ProvenanceId, TextLess, RenderedTexts, DocumentedTexts, Emit;
    LongerTextFirst();
    assert candidates[1] == shorter && candidates[2] == longer;
    PairOutOfOrder(candidates, shorter, longer);
  }

  lemma PairOutOfOrder(candidates: seq<Candidate>, c: Candidate, d: Candidate)
    requires c in candidates && d in candidates && Documented(c, d) && TextLess(EvidenceText(d), EvidenceText(c))
    ensures RenderedTexts(candidates) != DocumentedTexts(candidates)
  {
    RenderedAsDocumentedExactlyWhen(candidates);
    TextLessIsTotal();
    hide EvidenceText, TextLess, RenderedTexts, DocumentedTexts, Documented;
    assert !TextLess(EvidenceText(c), EvidenceText(d));
  }

  lemma TwoLabels(x: string, y: string)
    ensures LabelCandidates([x, y]) == [Candidate(TrackerLabel(x), x), Candidate(TrackerLabel(y), y)]
  {
    assert [x, y][1..] == [y];
    assert LabelCandidates([y]) == [Candidate(TrackerLabel(y), y)];
  }

  lemma LongerTextFirst()
    ensures TextLess(EvidenceText(Candidate(TrackerLabel("a!"), "a!")), EvidenceText(Candidate(TrackerLabel("a"), "a")))
  {
    var shared := "tracker_label:a";
    PrefixKeepsOrder(shared, "!=a!", "=a");
    assert EvidenceText(Candidate(TrackerLabel("a!"), "a!")) == shared + "!=a!";
    assert EvidenceText(Candidate(TrackerLabel("a"), "a")) == shared + "=a";
  }
}
