/**
 What deduplication means: it works one identity at a time, it conserves events, and every
 kept event is the largest snapshot of the round its identity is in.
 */
module DeduplicationLaws {
  import opened Common
  import opened UsageEvents
  import opened Deduplication

  // ---------------------------------------------------------------- conservation

  ghost predicate DistinctIdentities(events: seq<Event>) {
    forall i, j :: 0 <= i < j < |events| ==> IdentityOf(events[i]) != IdentityOf(events[j])
  }

  lemma StepKeepsDistinct(digest: Hash, st: Deduplicated, e: Event)
    requires DistinctIdentities(st.canonical)
    ensures DistinctIdentities(Step(digest, st, e).canonical)
  {
    StepCases(digest, st, e);
    hide IdentityOf, Payload, Step;
  }

  /** Every input event is kept, replayed, a strong collision, or one half of a quarantined
      pair; and no identity is kept twice. */
  lemma {:induction false} EventsAreConserved(digest: Hash, events: seq<Event>)
    ensures
      var d := Dedup(digest, events);
      && |events| == |d.canonical| + d.replayed + d.collisions + 2 * |d.heuristicCollisions|
      && DistinctIdentities(d.canonical)
  {
    if events != [] {
      var n := |events| - 1;
      EventsAreConserved(digest, events[..n]);
      StepKeepsDistinct(digest, Dedup(digest, events[..n]), events[n]);
      StepCases(digest, Dedup(digest, events[..n]), events[n]);
      assert Dedup(digest, events) == Step(digest, Dedup(digest, events[..n]), events[n]);
      hide IdentityOf, Payload, Step, Dedup;
    }
  }

  // ---------------------------------------------------------------- one identity at a time

  /** The events whose identity is in `ids`, or, with `inside` false, the others. */
  function Selected(ids: set<Identity>, inside: bool, events: seq<Event>): seq<Event> {
    if events == [] then []
    else
      Selected(ids, inside, events[..|events| - 1])
      + (if (IdentityOf(events[|events| - 1]) in ids) == inside then [events[|events| - 1]] else [])
  }

  function SelectedCollisions(ids: set<Identity>, inside: bool, cs: seq<HeuristicKeyCollision>)
    : seq<HeuristicKeyCollision>
  {
    if cs == [] then []
    else
      var c := cs[|cs| - 1];
      SelectedCollisions(ids, inside, cs[..|cs| - 1])
      + (if (Heuristic(c.parserVersion, c.heuristicKey) in ids) == inside then [c] else [])
  }

  lemma {:induction false} SelectedConcat(ids: set<Identity>, inside: bool, a: seq<Event>, b: seq<Event>)
    ensures Selected(ids, inside, a + b) == Selected(ids, inside, a) + Selected(ids, inside, b)
  {
    hide IdentityOf;
    if b == [] {
      assert a + b == a;
    } else {
      var n := |b| - 1;
      SelectedConcat(ids, inside, a, b[..n]);
      assert (a + b)[..|a + b| - 1] == a + b[..n];
      assert (a + b)[|a + b| - 1] == b[n];
    }
  }

  lemma SelectedOne(ids: set<Identity>, inside: bool, e: Event)
    ensures Selected(ids, inside, [e]) == if (IdentityOf(e) in ids) == inside then [e] else []
  {
    assert [e][..0] == [];
  }

  lemma {:induction false} SelectedIsPart(ids: set<Identity>, inside: bool, events: seq<Event>)
    ensures forall e :: e in Selected(ids, inside, events) ==> e in events
  {
    if events != [] {
      SelectedIsPart(ids, inside, events[..|events| - 1]);
    }
  }

  /** Around the slot of a selected identity, selection keeps the slot and what surrounds it. */
  lemma SelectedAround(ids: set<Identity>, inside: bool, canonical: seq<Event>, k: nat, e: Event)
    requires k < |canonical|
    requires IdentityOf(canonical[k]) == IdentityOf(e)
    ensures
      var front := Selected(ids, inside, canonical[..k]);
      var back := Selected(ids, inside, canonical[k + 1..]);
      if (IdentityOf(e) in ids) == inside then
        && Selected(ids, inside, canonical) == front + [canonical[k]] + back
        && Selected(ids, inside, canonical[k := e]) == front + [e] + back
        && Selected(ids, inside, canonical[..k] + canonical[k + 1..]) == front + back
      else
        && Selected(ids, inside, canonical) == front + back
        && Selected(ids, inside, canonical[k := e]) == front + back
        && Selected(ids, inside, canonical[..k] + canonical[k + 1..]) == front + back
  {
    hide IdentityOf;
    assert canonical == canonical[..k] + [canonical[k]] + canonical[k + 1..];
    assert canonical[k := e] == canonical[..k] + [e] + canonical[k + 1..];
    SelectedConcat(ids, inside, canonical[..k] + [canonical[k]], canonical[k + 1..]);
    SelectedConcat(ids, inside, canonical[..k] + [e], canonical[k + 1..]);
    SelectedConcat(ids, inside, canonical[..k], [canonical[k]]);
    SelectedConcat(ids, inside, canonical[..k], [e]);
    SelectedConcat(ids, inside, canonical[..k], canonical[k + 1..]);
    SelectedOne(ids, inside, e);
    SelectedOne(ids, inside, canonical[k]);
  }

  /** Selection does not change where the first event of a selected identity stands among
      the selected ones. */
  lemma SelectedIndex(ids: set<Identity>, inside: bool, canonical: seq<Event>, id: Identity)
    requires (id in ids) == inside
    ensures
      match IndexOf(canonical, id)
      case None => IndexOf(Selected(ids, inside, canonical), id) == None
      case Some(k) =>
        IndexOf(Selected(ids, inside, canonical), id) == Some(|Selected(ids, inside, canonical[..k])|)
  {
    hide *;
    var chosen := Selected(ids, inside, canonical);
    if IndexOf(canonical, id).Some? {
      var k := IndexOf(canonical, id).value;
      var front := Selected(ids, inside, canonical[..k]);
      SelectedAround(ids, inside, canonical, k, canonical[k]);
      SelectedIsPart(ids, inside, canonical[..k]);
      assert chosen[|front|] == canonical[k];
      forall j | 0 <= j < |front| ensures IdentityOf(chosen[j]) != id {
        assert chosen[j] == front[j] && front[j] in front;
        assert front[j] in canonical[..k];
      }
      FoundFirst(chosen, id, |front|);
    } else {
      SelectedIsPart(ids, inside, canonical);
      forall j | 0 <= j < |chosen| ensures IdentityOf(chosen[j]) != id {
        assert chosen[j] in chosen;
        assert chosen[j] in canonical;
      }
      FoundNowhere(chosen, id);
    }
  }

  lemma FoundFirst(events: seq<Event>, id: Identity, k: nat)
    requires k < |events| && IdentityOf(events[k]) == id
    requires forall j :: 0 <= j < k ==> IdentityOf(events[j]) != id
    ensures IndexOf(events, id) == Some(k)
  {
    hide *;
    assert IndexOf(events, id).Some?;
  }

  lemma FoundNowhere(events: seq<Event>, id: Identity)
    requires forall j :: 0 <= j < |events| ==> IdentityOf(events[j]) != id
    ensures IndexOf(events, id) == None
  {
    hide *;
    assert !IndexOf(events, id).Some?;
  }

  lemma SelectedCollisionsPush(ids: set<Identity>, inside: bool, cs: seq<HeuristicKeyCollision>,
                               c: HeuristicKeyCollision)
    ensures SelectedCollisions(ids, inside, cs + [c]) ==
      SelectedCollisions(ids, inside, cs)
      + (if (Heuristic(c.parserVersion, c.heuristicKey) in ids) == inside then [c] else [])
  {
    assert (cs + [c])[..|cs|] == cs;
  }

  /** `part` holds what `st` holds of the selected identities. */
  ghost predicate PartOf(ids: set<Identity>, inside: bool, st: Deduplicated, part: Deduplicated) {
    && part.canonical == Selected(ids, inside, st.canonical)
    && part.heuristicCollisions == SelectedCollisions(ids, inside, st.heuristicCollisions)
  }

  lemma StepInside(digest: Hash, ids: set<Identity>, inside: bool, st: Deduplicated, part: Deduplicated, e: Event)
    requires part.canonical == Selected(ids, inside, st.canonical)
    requires part.heuristicCollisions == SelectedCollisions(ids, inside, st.heuristicCollisions)
    requires (IdentityOf(e) in ids) == inside
    ensures Step(digest, part, e).canonical == Selected(ids, inside, Step(digest, st, e).canonical)
    ensures Step(digest, part, e).heuristicCollisions
         == SelectedCollisions(ids, inside, Step(digest, st, e).heuristicCollisions)
    ensures Step(digest, st, e).replayed - st.replayed == Step(digest, part, e).replayed - part.replayed
    ensures Step(digest, st, e).collisions - st.collisions == Step(digest, part, e).collisions - part.collisions
    ensures Step(digest, st, e).withoutIdentity - st.withoutIdentity
         == Step(digest, part, e).withoutIdentity - part.withoutIdentity
  {
    hide *;
    var id := IdentityOf(e);
    StepCases(digest, st, e);
    StepCases(digest, part, e);
    SelectedIndex(ids, inside, st.canonical, id);
    if IndexOf(st.canonical, id).None? {
      SelectedConcat(ids, inside, st.canonical, [e]);
      SelectedOne(ids, inside, e);
    } else {
      var k := IndexOf(st.canonical, id).value;
      var kept := st.canonical[k];
      var larger := if e.usage.output > kept.usage.output then e else kept;
      var front := Selected(ids, inside, st.canonical[..k]);
      var back := Selected(ids, inside, st.canonical[k + 1..]);
      SelectedAround(ids, inside, st.canonical, k, larger);
      SlotInside(front, kept, back, larger);
      if id.Heuristic? {
        SelectedCollisionsPush(ids, inside, st.heuristicCollisions, HeuristicKeyCollision(
          id.parser, id.key, kept, e, digest(Payload(kept)), digest(Payload(e))));
      }
    }
  }

  lemma SlotInside(front: seq<Event>, kept: Event, back: seq<Event>, larger: Event)
    ensures
      var s := front + [kept] + back;
      && s[|front|] == kept
      && s[|front| := larger] == front + [larger] + back
      && s[..|front|] + s[|front| + 1..] == front + back
  {
  }

  lemma StepOutside(digest: Hash, ids: set<Identity>, inside: bool, st: Deduplicated, part: Deduplicated, e: Event)
    requires part.canonical == Selected(ids, inside, st.canonical)
    requires part.heuristicCollisions == SelectedCollisions(ids, inside, st.heuristicCollisions)
    requires (IdentityOf(e) in ids) != inside
    ensures part.canonical == Selected(ids, inside, Step(digest, st, e).canonical)
    ensures part.heuristicCollisions
         == SelectedCollisions(ids, inside, Step(digest, st, e).heuristicCollisions)
  {
    var id := IdentityOf(e);
    StepCases(digest, st, e);
    hide *;
    if IndexOf(st.canonical, id).None? {
      SelectedConcat(ids, inside, st.canonical, [e]);
      SelectedOne(ids, inside, e);
    } else {
      var k := IndexOf(st.canonical, id).value;
      var kept := st.canonical[k];
      SelectedAround(ids, inside, st.canonical, k, if e.usage.output > kept.usage.output then e else kept);
      if id.Heuristic? {
        SelectedCollisionsPush(ids, inside, st.heuristicCollisions, HeuristicKeyCollision(
          id.parser, id.key, kept, e, digest(Payload(kept)), digest(Payload(e))));
      }
    }
  }

  /** Deduplicating a batch is deduplicating any set of identities and the rest apart: the
      kept events, the quarantined pairs and every counter are those of the two parts. With
      one identity in `ids` it says that no identity's outcome depends on the others, whatever
      was removed from the middle of the vector on the way. */
  lemma {:induction false} DecomposesByIdentity(digest: Hash, events: seq<Event>, ids: set<Identity>)
    ensures
      var whole := Dedup(digest, events);
      var these := Dedup(digest, Selected(ids, true, events));
      var others := Dedup(digest, Selected(ids, false, events));
      && PartOf(ids, true, whole, these) && PartOf(ids, false, whole, others)
      && whole.replayed == these.replayed + others.replayed
      && whole.collisions == these.collisions + others.collisions
      && whole.withoutIdentity == these.withoutIdentity + others.withoutIdentity
  {
    if events != [] {
      var n := |events| - 1;
      var e := events[n];
      var inside := IdentityOf(e) in ids;
      DecomposesByIdentity(digest, events[..n], ids);
      var before := Dedup(digest, events[..n]);
      var these := Selected(ids, inside, events[..n]);
      DedupPush(digest, these, e);
      StepInside(digest, ids, inside, before, Dedup(digest, these), e);
      StepOutside(digest, ids, !inside, before, Dedup(digest, Selected(ids, !inside, events[..n])), e);
      assert Dedup(digest, events) == Step(digest, before, e);
      assert Selected(ids, inside, events) == these + [e];
      assert Selected(ids, !inside, events) == Selected(ids, !inside, events[..n]);
      hide IdentityOf, Step, Dedup, Selected, SelectedCollisions;
    }
  }

  lemma DedupPush(digest: Hash, events: seq<Event>, e: Event)
    ensures Dedup(digest, events + [e]) == Step(digest, Dedup(digest, events), e)
  {
    assert (events + [e])[..|events|] == events;
  }

  // ---------------------------------------------------------------- rounds

  /** Where the round an identity is in began: its first event after the last dispute. An
      event disputes a round when its payload differs from that of the round's first event;
      a strong identity is in one round for ever. */
  function RoundStart(digest: Hash, events: seq<Event>, id: Identity): (start: Option<nat>)
    ensures start.Some? ==> start.value < |events| && IdentityOf(events[start.value]) == id
  {
    if events == [] then None
    else
      var n := |events| - 1;
      var before := RoundStart(digest, events[..n], id);
      if IdentityOf(events[n]) != id then before
      else
        match before
        case None => Some(n)
        case Some(s) => if Disputed(digest, events[s], events[n]) then None else before
  }

  /** `kept` is the first event of largest output in its identity's current round, which
      began at `start`, and its payload is the round's. */
  ghost predicate LargestOfRound(digest: Hash, events: seq<Event>, kept: Event, start: nat) {
    var id := IdentityOf(kept);
    && RoundStart(digest, events, id) == Some(start)
    && (id.Heuristic? ==> PayloadDigest(digest, kept) == PayloadDigest(digest, events[start]))
    && exists m :: start <= m < |events| && events[m] == kept && LeadsFrom(events, id, start, m)
  }

  ghost predicate LeadsFrom(events: seq<Event>, id: Identity, start: nat, m: nat)
    requires m < |events|
  {
    forall j :: start <= j < |events| && IdentityOf(events[j]) == id ==>
      && events[j].usage.output <= events[m].usage.output
      && (j < m ==> events[j].usage.output < events[m].usage.output)
  }

  ghost predicate Increasing(starts: seq<nat>) {
    forall i, j :: 0 <= i < j < |starts| ==> starts[i] < starts[j]
  }

  ghost predicate AllLargest(digest: Hash, events: seq<Event>, canonical: seq<Event>, starts: seq<nat>)
    requires |starts| == |canonical|
  {
    forall i :: 0 <= i < |canonical| ==> LargestOfRound(digest, events, canonical[i], starts[i])
  }

  /** Exactly the identities with an open round are kept, each by the largest event of its
      round, in the order the rounds began. */
  ghost predicate KeptByRound(digest: Hash, events: seq<Event>, canonical: seq<Event>, starts: seq<nat>) {
    && |starts| == |canonical|
    && AllLargest(digest, events, canonical, starts)
    && Increasing(starts)
    && forall id :: RoundStart(digest, events, id).Some? ==> IndexOf(canonical, id).Some?
  }

  lemma RoundOfAnother(digest: Hash, events: seq<Event>, e: Event, kept: Event, start: nat)
    requires IdentityOf(kept) != IdentityOf(e)
    requires LargestOfRound(digest, events, kept, start)
    ensures LargestOfRound(digest, events + [e], kept, start)
  {
    var longer := events + [e];
    var id := IdentityOf(kept);
    assert longer[..|events|] == events;
    var m :| start <= m < |events| && events[m] == kept && LeadsFrom(events, id, start, m);
    assert longer[m] == kept;
    assert LeadsFrom(longer, id, start, m);
  }

  lemma RoundOpens(digest: Hash, events: seq<Event>, e: Event)
    requires RoundStart(digest, events, IdentityOf(e)).None?
    ensures LargestOfRound(digest, events + [e], e, |events|)
  {
    var longer := events + [e];
    assert longer[..|events|] == events;
    assert longer[|events|] == e && LeadsFrom(longer, IdentityOf(e), |events|, |events|);
  }

  lemma RoundGoesOn(digest: Hash, events: seq<Event>, e: Event, kept: Event, start: nat)
    requires IdentityOf(kept) == IdentityOf(e) && LargestOfRound(digest, events, kept, start)
    requires !Disputed(digest, kept, e)
    ensures LargestOfRound(digest, events + [e], Larger(kept, e), start)
  {
    var longer := events + [e];
    var id := IdentityOf(e);
    assert longer[..|events|] == events;
    var m :| start <= m < |events| && events[m] == kept && LeadsFrom(events, id, start, m);
    var m' := if e.usage.output > kept.usage.output then |events| else m;
    assert longer[m'] == Larger(kept, e);
    assert LeadsFrom(longer, id, start, m');
  }

  lemma RoundCloses(digest: Hash, events: seq<Event>, e: Event, kept: Event, start: nat)
    requires IdentityOf(kept) == IdentityOf(e) && LargestOfRound(digest, events, kept, start)
    requires Disputed(digest, kept, e)
    ensures RoundStart(digest, events + [e], IdentityOf(e)).None?
  {
    assert (events + [e])[..|events|] == events;
  }

  lemma RoundOfOtherIdentity(digest: Hash, events: seq<Event>, e: Event, id: Identity)
    requires id != IdentityOf(e)
    ensures RoundStart(digest, events + [e], id) == RoundStart(digest, events, id)
  {
    assert (events + [e])[..|events|] == events;
  }

  lemma StartOfLargest(digest: Hash, events: seq<Event>, kept: Event, start: nat)
    requires LargestOfRound(digest, events, kept, start)
    ensures start < |events| && RoundStart(digest, events, IdentityOf(kept)) == Some(start)
  {
  }

  lemma OthersGoOn(digest: Hash, events: seq<Event>, c: seq<Event>, starts: seq<nat>, e: Event, i: nat)
    requires |starts| == |c| && AllLargest(digest, events, c, starts) && Increasing(starts)
    requires i < |c| && (IndexOf(c, IdentityOf(e)).Some? ==> i != IndexOf(c, IdentityOf(e)).value)
    ensures LargestOfRound(digest, events + [e], c[i], starts[i])
    ensures IdentityOf(c[i]) != IdentityOf(e)
  {
    hide IdentityOf, Payload, RoundStart, LargestOfRound;
    StartOfLargest(digest, events, c[i], starts[i]);
    if IndexOf(c, IdentityOf(e)).Some? {
      var k := IndexOf(c, IdentityOf(e)).value;
      StartOfLargest(digest, events, c[k], starts[k]);
    }
    RoundOfAnother(digest, events, e, c[i], starts[i]);
  }

  /** What one more event does to the starts: it opens a round, closes one, or leaves them. */
  ghost function StartsAfter(digest: Hash, events: seq<Event>, c: seq<Event>, starts: seq<nat>, e: Event): seq<nat>
    requires |starts| == |c|
  {
    match IndexOf(c, IdentityOf(e))
    case None => starts + [|events|]
    case Some(k) => if Disputed(digest, c[k], e) then starts[..k] + starts[k + 1..] else starts
  }

  ghost function KeptAfter(digest: Hash, c: seq<Event>, e: Event): seq<Event> {
    match IndexOf(c, IdentityOf(e))
    case None => c + [e]
    case Some(k) => if Disputed(digest, c[k], e) then c[..k] + c[k + 1..] else c[k := Larger(c[k], e)]
  }

  lemma StartsStayIncreasing(digest: Hash, events: seq<Event>, c: seq<Event>, starts: seq<nat>, e: Event)
    requires |starts| == |c| && AllLargest(digest, events, c, starts) && Increasing(starts)
    ensures Increasing(StartsAfter(digest, events, c, starts, e))
  {
    hide IdentityOf, Payload, RoundStart, LargestOfRound, Disputed;
    forall i | 0 <= i < |c| ensures starts[i] < |events| {
      StartOfLargest(digest, events, c[i], starts[i]);
    }
  }

  /** With no round open for the event, it opens one after the others. */
  lemma OpenedStayLargest(digest: Hash, events: seq<Event>, c: seq<Event>, starts: seq<nat>, e: Event, i: nat)
    requires KeptByRound(digest, events, c, starts) && IndexOf(c, IdentityOf(e)).None? && i <= |c|
    ensures LargestOfRound(digest, events + [e], (c + [e])[i], (starts + [|events|])[i])
  {
    hide IdentityOf, Payload, RoundStart, LargestOfRound, IndexOf, Increasing;
    if i < |c| {
      OthersGoOn(digest, events, c, starts, e, i);
    } else {
      RoundOpensAtEnd(digest, events, c, starts, e);
    }
  }

  /** Removing the disputed event leaves the others as they were. */
  lemma UndisputedStayLargest(digest: Hash, events: seq<Event>, c: seq<Event>, starts: seq<nat>, e: Event, k: nat,
                              i: nat)
    requires KeptByRound(digest, events, c, starts) && IndexOf(c, IdentityOf(e)) == Some(k) && k < |c| && i < |c| - 1
    ensures LargestOfRound(digest, events + [e], (c[..k] + c[k + 1..])[i], (starts[..k] + starts[k + 1..])[i])
  {
    hide IdentityOf, Payload, RoundStart, LargestOfRound, IndexOf, Increasing;
    OthersGoOn(digest, events, c, starts, e, if i < k then i else i + 1);
  }

  /** A replay keeps the larger of the two in its place. */
  lemma ReplayedStayLargest(digest: Hash, events: seq<Event>, c: seq<Event>, starts: seq<nat>, e: Event, k: nat, i: nat)
    requires KeptByRound(digest, events, c, starts) && IndexOf(c, IdentityOf(e)) == Some(k) && k < |c| && i < |c|
    requires IdentityOf(c[k]) == IdentityOf(e) && !Disputed(digest, c[k], e)
    ensures LargestOfRound(digest, events + [e], c[k := Larger(c[k], e)][i], starts[i])
  {
    hide IdentityOf, Payload, RoundStart, LargestOfRound, IndexOf, Increasing, Disputed, Larger;
    if i != k {
      OthersGoOn(digest, events, c, starts, e, i);
    } else {
      RoundGoesOn(digest, events, e, c[k], starts[k]);
    }
  }

  lemma StaysLargest(digest: Hash, events: seq<Event>, c: seq<Event>, starts: seq<nat>, e: Event, i: nat)
    requires KeptByRound(digest, events, c, starts)
    requires i < |KeptAfter(digest, c, e)| == |StartsAfter(digest, events, c, starts, e)|
    ensures LargestOfRound(digest, events + [e],
                           KeptAfter(digest, c, e)[i], StartsAfter(digest, events, c, starts, e)[i])
  {
    hide IdentityOf, RoundStart, LargestOfRound, Disputed, IndexOf, Larger, KeptByRound;
    var at := IndexOf(c, IdentityOf(e));
    if at.None? {
      OpenedStayLargest(digest, events, c, starts, e, i);
    } else if Disputed(digest, c[at.value], e) {
      UndisputedStayLargest(digest, events, c, starts, e, at.value, i);
    } else {
      ReplayedStayLargest(digest, events, c, starts, e, at.value, i);
    }
  }

  lemma RoundOpensAtEnd(digest: Hash, events: seq<Event>, c: seq<Event>, starts: seq<nat>, e: Event)
    requires |starts| == |c| && IndexOf(c, IdentityOf(e)).None?
    requires RoundStart(digest, events, IdentityOf(e)).None?
    ensures LargestOfRound(digest, events + [e], e, |events|)
  {
    hide *;
    RoundOpens(digest, events, e);
  }

  lemma AllStayLargest(digest: Hash, events: seq<Event>, c: seq<Event>, starts: seq<nat>, e: Event)
    requires KeptByRound(digest, events, c, starts)
    ensures |StartsAfter(digest, events, c, starts, e)| == |KeptAfter(digest, c, e)|
    ensures AllLargest(digest, events + [e], KeptAfter(digest, c, e), StartsAfter(digest, events, c, starts, e))
  {
    hide IdentityOf, Payload, RoundStart, LargestOfRound, Disputed, IndexOf, Larger, Increasing;
    var next, after := KeptAfter(digest, c, e), StartsAfter(digest, events, c, starts, e);
    assert |next| == |after|;
    forall i | 0 <= i < |next| ensures LargestOfRound(digest, events + [e], next[i], after[i]) {
      StaysLargest(digest, events, c, starts, e, i);
    }
  }

  lemma HeldIsFound(canonical: seq<Event>, i: nat)
    requires i < |canonical|
    ensures IndexOf(canonical, IdentityOf(canonical[i])).Some?
  {
    hide IdentityOf;
  }

  lemma OwnRoundIsKept(digest: Hash, events: seq<Event>, c: seq<Event>, starts: seq<nat>, e: Event)
    requires |starts| == |c| && AllLargest(digest, events, c, starts)
    requires RoundStart(digest, events + [e], IdentityOf(e)).Some?
    ensures IndexOf(KeptAfter(digest, c, e), IdentityOf(e)).Some?
  {
    hide IdentityOf, Payload, RoundStart, Disputed, LargestOfRound;
    var next := KeptAfter(digest, c, e);
    var at := IndexOf(c, IdentityOf(e));
    if at.None? {
      assert next[|c|] == e;
      HeldIsFound(next, |c|);
    } else if Disputed(digest, c[at.value], e) {
      RoundCloses(digest, events, e, c[at.value], starts[at.value]);
    } else {
      assert next[at.value] == Larger(c[at.value], e);
      HeldIsFound(next, at.value);
    }
  }

  lemma OtherKeptStays(digest: Hash, c: seq<Event>, e: Event, p: nat)
    requires p < |c| && IdentityOf(c[p]) != IdentityOf(e)
    ensures IndexOf(KeptAfter(digest, c, e), IdentityOf(c[p])).Some?
  {
    hide IdentityOf, Payload, Disputed;
    var next := KeptAfter(digest, c, e);
    var at := IndexOf(c, IdentityOf(e));
    var q := if at.Some? && Disputed(digest, c[at.value], e) && p > at.value then p - 1 else p;
    assert next[q] == c[p];
    HeldIsFound(next, q);
  }

  lemma OpenRoundsAreKept(digest: Hash, events: seq<Event>, c: seq<Event>, starts: seq<nat>, e: Event, id: Identity)
    requires KeptByRound(digest, events, c, starts)
    requires RoundStart(digest, events + [e], id).Some?
    ensures IndexOf(KeptAfter(digest, c, e), id).Some?
  {
    if id == IdentityOf(e) {
      OwnRoundIsKept(digest, events, c, starts, e);
    } else {
      RoundOfOtherIdentity(digest, events, e, id);
      hide IdentityOf, Payload, RoundStart, KeptAfter, AllLargest;
      OtherKeptStays(digest, c, e, IndexOf(c, id).value);
    }
  }

  lemma StepIsKeptAfter(digest: Hash, st: Deduplicated, e: Event)
    ensures Step(digest, st, e).canonical == KeptAfter(digest, st.canonical, e)
  {
    hide IdentityOf, Payload;
  }

  /** One more event keeps the list so described. */
  lemma KeptByRoundGoesOn(digest: Hash, events: seq<Event>, c: seq<Event>, starts: seq<nat>, e: Event)
    requires KeptByRound(digest, events, c, starts)
    ensures |starts| == |c|
    ensures KeptByRound(digest, events + [e], KeptAfter(digest, c, e), StartsAfter(digest, events, c, starts, e))
  {
    hide IdentityOf, RoundStart, KeptAfter, StartsAfter, AllLargest, Increasing, IndexOf;
    StartsStayIncreasing(digest, events, c, starts, e);
    AllStayLargest(digest, events, c, starts, e);
    forall id | RoundStart(digest, events + [e], id).Some? ensures IndexOf(KeptAfter(digest, c, e), id).Some? {
      OpenRoundsAreKept(digest, events, c, starts, e, id);
    }
  }

  lemma NothingKept(digest: Hash)
    ensures KeptByRound(digest, [], Dedup(digest, []).canonical, [])
  {
  }

  /** The canonical list is exactly: for each identity whose round is open at the end of the
      batch, the first event of largest output in that round, ordered by where the rounds
      began. */
  lemma {:induction false} CanonicalByRound(digest: Hash, events: seq<Event>)
    ensures exists starts :: KeptByRound(digest, events, Dedup(digest, events).canonical, starts)
  {
    hide *;
    if events == [] {
      NothingKept(digest);
      assert KeptByRound(digest, events, Dedup(digest, events).canonical, []);
    } else {
      var n := |events| - 1;
      var front, e := events[..n], events[n];
      CanonicalByRound(digest, front);
      var c := Dedup(digest, front).canonical;
      var starts :| KeptByRound(digest, front, c, starts);
      KeptByRoundGoesOn(digest, front, c, starts, e);
      StepIsKeptAfter(digest, Dedup(digest, front), e);
      DedupPush(digest, front, e);
      assert front + [e] == events;
      assert KeptByRound(digest, events, KeptAfter(digest, c, e), StartsAfter(digest, front, c, starts, e));
    }
  }

  // ---------------------------------------------------------------- strong identities

  /** A strong identity's round begins at its first event and never closes. */
  lemma {:induction false} StrongRoundNeverCloses(digest: Hash, events: seq<Event>, id: Identity)
    requires id.Strong?
    ensures
      match RoundStart(digest, events, id)
      case None => forall j :: 0 <= j < |events| ==> IdentityOf(events[j]) != id
      case Some(s) => forall j :: 0 <= j < s ==> IdentityOf(events[j]) != id
  {
    if events != [] {
      StrongRoundNeverCloses(digest, events[..|events| - 1], id);
      hide IdentityOf;
    }
  }

  /** So a strong identity that occurs at all is kept, by an occurrence of largest output over
      the whole batch. */
  lemma StrongIdentityKeepsLargest(digest: Hash, events: seq<Event>, id: Identity)
    requires id.Strong? && exists j :: 0 <= j < |events| && IdentityOf(events[j]) == id
    ensures
      var canonical := Dedup(digest, events).canonical;
      exists i :: 0 <= i < |canonical| && IdentityOf(canonical[i]) == id && canonical[i] in events
        && forall j :: 0 <= j < |events| && IdentityOf(events[j]) == id ==>
             events[j].usage.output <= canonical[i].usage.output
  {
    var canonical := Dedup(digest, events).canonical;
    CanonicalByRound(digest, events);
    StrongRoundNeverCloses(digest, events, id);
    hide IdentityOf, Dedup, RoundStart, Payload;
    var starts :| KeptByRound(digest, events, canonical, starts);
    var i := IndexOf(canonical, id).value;
    assert LargestOfRound(digest, events, canonical[i], starts[i]);
    var m :| starts[i] <= m < |events| && events[m] == canonical[i] && LeadsFrom(events, id, starts[i], m);
  }

  // ---------------------------------------------------------------- a second pass

  function Anonymous(events: seq<Event>): nat {
    if events == [] then 0
    else Anonymous(events[..|events| - 1]) + (if IdentityOf(events[|events| - 1]).Heuristic? then 1 else 0)
  }

  /** An event of an identity not kept is kept as it is. */
  lemma NewEventIsKept(digest: Hash, events: seq<Event>, e: Event)
    requires IndexOf(events, IdentityOf(e)).None?
    ensures Step(digest, Deduplicated(events, 0, 0, [], Anonymous(events)), e)
         == Deduplicated(events + [e], 0, 0, [], Anonymous(events + [e]))
  {
    hide IdentityOf, Payload, Disputed;
    assert (events + [e])[..|events|] == events;
  }

  lemma LastIsNew(events: seq<Event>)
    requires events != [] && DistinctIdentities(events)
    ensures
      var n := |events| - 1;
      DistinctIdentities(events[..n]) && IndexOf(events[..n], IdentityOf(events[n])).None?
  {
    hide IdentityOf;
  }

  lemma {:induction false} DistinctEventsAreKept(digest: Hash, events: seq<Event>)
    requires DistinctIdentities(events)
    ensures Dedup(digest, events) == Deduplicated(events, 0, 0, [], Anonymous(events))
  {
    if events != [] {
      var n := |events| - 1;
      assert events[..n] + [events[n]] == events;
      hide *;
      LastIsNew(events);
      DistinctEventsAreKept(digest, events[..n]);
      NewEventIsKept(digest, events[..n], events[n]);
      DedupPush(digest, events[..n], events[n]);
    } else {
      hide IdentityOf, Step;
    }
  }

  /** Deduplicating the canonical list changes nothing and finds nothing. */
  lemma DeduplicationIsIdempotent(digest: Hash, events: seq<Event>)
    ensures
      var canonical := Dedup(digest, events).canonical;
      Dedup(digest, canonical) == Deduplicated(canonical, 0, 0, [], Anonymous(canonical))
  {
    EventsAreConserved(digest, events);
    DistinctEventsAreKept(digest, Dedup(digest, events).canonical);
  }

  // ---------------------------------------------------------------- what is reported

  /** The events counted as without identity are those that carry no strong one. */
  lemma {:induction false} WithoutIdentityCounts(digest: Hash, events: seq<Event>)
    ensures Dedup(digest, events).withoutIdentity == Anonymous(events)
  {
    if events != [] {
      var n := |events| - 1;
      WithoutIdentityCounts(digest, events[..n]);
      StepCases(digest, Dedup(digest, events[..n]), events[n]);
      assert Dedup(digest, events) == Step(digest, Dedup(digest, events[..n]), events[n]);
      hide IdentityOf, Payload, Step, Dedup;
    }
  }

  ghost predicate InOrder(events: seq<Event>, a: Event, b: Event) {
    exists i, j :: 0 <= i < j < |events| && events[i] == a && events[j] == b
  }

  /** Two events of the batch, the earlier first, under the heuristic identity the record names, and
      the digests of their payloads, which differ. */
  ghost predicate IsDispute(digest: Hash, events: seq<Event>, c: HeuristicKeyCollision) {
    && InOrder(events, c.first, c.second)
    && IdentityOf(c.first) == IdentityOf(c.second) == Heuristic(c.parserVersion, c.heuristicKey)
    && c.firstDigest == digest(Payload(c.first)) && c.secondDigest == digest(Payload(c.second))
    && c.firstDigest != c.secondDigest
  }

  /** Every recorded collision is such a pair. */
  lemma {:induction false} CollisionsAreDisputes(digest: Hash, events: seq<Event>)
    ensures forall c :: c in Dedup(digest, events).heuristicCollisions ==> IsDispute(digest, events, c)
  {
    if events != [] {
      var n := |events| - 1;
      var front, e := events[..n], events[n];
      assert front + [e] == events;
      CollisionsAreDisputes(digest, front);
      CanonicalIsPart(digest, front);
      DedupPush(digest, front, e);
      hide Dedup, Step;
      StepDisputes(digest, front, Dedup(digest, front), e);
    }
  }

  lemma StepDisputes(digest: Hash, events: seq<Event>, st: Deduplicated, e: Event)
    requires forall x :: x in st.canonical ==> x in events
    requires forall c :: c in st.heuristicCollisions ==> IsDispute(digest, events, c)
    ensures forall c :: c in Step(digest, st, e).heuristicCollisions ==> IsDispute(digest, events + [e], c)
  {
    StepCases(digest, st, e);
    hide IdentityOf, Payload, Step, IndexOf, InOrder;
    forall c | c in Step(digest, st, e).heuristicCollisions ensures IsDispute(digest, events + [e], c) {
      if c in st.heuristicCollisions {
        StillInOrder(events, e, c.first, c.second);
      } else {
        var k := IndexOf(st.canonical, IdentityOf(e)).value;
        assert c.first == st.canonical[k] && c.second == e;
        LastInOrder(events, e, c.first);
      }
    }
  }

  lemma StillInOrder(events: seq<Event>, e: Event, a: Event, b: Event)
    requires InOrder(events, a, b)
    ensures InOrder(events + [e], a, b)
  {
    var i, j :| 0 <= i < j < |events| && events[i] == a && events[j] == b;
    assert (events + [e])[i] == a && (events + [e])[j] == b;
  }

  lemma LastInOrder(events: seq<Event>, e: Event, a: Event)
    requires a in events
    ensures InOrder(events + [e], a, e)
  {
    var i :| 0 <= i < |events| && events[i] == a;
    assert (events + [e])[i] == a && (events + [e])[|events|] == e;
  }

  // ---------------------------------------------------------------- strong replays and collisions

  /** The usages agree in all but what a message still being streamed changes. */
  predicate AlikeButOutput(a: Usage, b: Usage) {
    a.(output := b.output, coverage := b.coverage, quality := b.quality) == b
  }

  /** Meeting the kept event of its strong identity, an event is counted once: a replay when the
      two agree in all but the output count, coverage and quality, a collision otherwise. */
  lemma StrongMeetingCounts(digest: Hash, events: seq<Event>, e: Event, kept: Event)
    requires IdentityOf(e).Strong? && IdentityOf(kept) == IdentityOf(e)
    requires kept in Dedup(digest, events).canonical
    ensures
      var before, after := Dedup(digest, events), Dedup(digest, events + [e]);
      && after.replayed == before.replayed + (if AlikeButOutput(kept.usage, e.usage) then 1 else 0)
      && after.collisions == before.collisions + (if AlikeButOutput(kept.usage, e.usage) then 0 else 1)
      && after.heuristicCollisions == before.heuristicCollisions && |after.canonical| == |before.canonical|
  {
    EventsAreConserved(digest, events);
    DedupPush(digest, events, e);
    StepCases(digest, Dedup(digest, events), e);
    hide IdentityOf, Payload, Step, Dedup;
    var canonical := Dedup(digest, events).canonical;
    var i :| 0 <= i < |canonical| && canonical[i] == kept;
    assert canonical[IndexOf(canonical, IdentityOf(e)).value] == kept;
  }

  ghost predicate StrongAlike(events: seq<Event>) {
    forall i, j :: 0 <= i < j < |events| && IdentityOf(events[i]).Strong?
      && IdentityOf(events[i]) == IdentityOf(events[j])
      ==> AlikeButOutput(events[i].usage, events[j].usage)
  }

  lemma StrongAlikeGrows(events: seq<Event>, e: Event)
    ensures StrongAlike(events + [e]) <==>
      && StrongAlike(events)
      && (IdentityOf(e).Strong? ==> forall x :: x in events && IdentityOf(x) == IdentityOf(e) ==>
            AlikeButOutput(x.usage, e.usage))
  {
    hide IdentityOf, AlikeButOutput;
    var longer := events + [e];
    if StrongAlike(longer) {
      assert forall i, j :: 0 <= i < j < |events| ==> longer[i] == events[i] && longer[j] == events[j];
      forall x | x in events && IdentityOf(x) == IdentityOf(e) && IdentityOf(e).Strong?
        ensures AlikeButOutput(x.usage, e.usage)
      {
        var i :| 0 <= i < |events| && events[i] == x;
        assert longer[i] == x && longer[|events|] == e;
      }
    }
  }

  lemma StepIsPart(digest: Hash, st: Deduplicated, e: Event)
    ensures forall x :: x in Step(digest, st, e).canonical ==> x in st.canonical || x == e
  {
    hide IdentityOf, Payload, Disputed, IndexOf;
  }

  lemma {:induction false} CanonicalIsPart(digest: Hash, events: seq<Event>)
    ensures forall x :: x in Dedup(digest, events).canonical ==> x in events
  {
    if events != [] {
      var n := |events| - 1;
      assert events[..n] + [events[n]] == events;
      assert forall x :: x in events <==> x in events[..n] || x == events[n];
      CanonicalIsPart(digest, events[..n]);
      DedupPush(digest, events[..n], events[n]);
      hide Step, Dedup;
      StepIsPart(digest, Dedup(digest, events[..n]), events[n]);
    }
  }

  /** An event of a strong identity that occurred before meets the event kept for it. */
  lemma StrongIsKept(digest: Hash, events: seq<Event>, x: Event) returns (kept: Event)
    requires x in events && IdentityOf(x).Strong?
    ensures kept in Dedup(digest, events).canonical && kept in events && IdentityOf(kept) == IdentityOf(x)
  {
    hide IdentityOf, Dedup;
    var j :| 0 <= j < |events| && events[j] == x;
    StrongIdentityKeepsLargest(digest, events, IdentityOf(x));
    var canonical := Dedup(digest, events).canonical;
    var i :| 0 <= i < |canonical| && IdentityOf(canonical[i]) == IdentityOf(x) && canonical[i] in events;
    kept := canonical[i];
  }

  /** An event of an identity not kept raises neither counter, nor does a heuristic one raise
      the collisions. */
  lemma NoStrongMeeting(digest: Hash, events: seq<Event>, e: Event)
    requires IdentityOf(e).Strong? ==> forall x :: x in events ==> IdentityOf(x) != IdentityOf(e)
    ensures Dedup(digest, events + [e]).collisions == Dedup(digest, events).collisions
  {
    CanonicalIsPart(digest, events);
    DedupPush(digest, events, e);
    StepCases(digest, Dedup(digest, events), e);
    hide IdentityOf, Payload, Step, Dedup;
  }

  /** A batch has no strong collision exactly when events of one strong identity differ only in
      output count, coverage and quality. */
  lemma {:induction false} NoCollisionExactlyWhenAlike(digest: Hash, events: seq<Event>)
    ensures Dedup(digest, events).collisions == 0 <==> StrongAlike(events)
  {
    if events == [] {
      hide IdentityOf;
    } else {
      var n := |events| - 1;
      var front, e := events[..n], events[n];
      assert front + [e] == events;
      hide *;
      NoCollisionExactlyWhenAlike(digest, front);
      StrongAlikeGrows(front, e);
      if IdentityOf(e).Strong? && exists x :: x in front && IdentityOf(x) == IdentityOf(e) {
        var x :| x in front && IdentityOf(x) == IdentityOf(e);
        var kept := StrongIsKept(digest, front, x);
        StrongMeetingCounts(digest, front, e, kept);
        if StrongAlike(front) && AlikeButOutput(kept.usage, e.usage) {
          forall y | y in front && IdentityOf(y) == IdentityOf(e) ensures AlikeButOutput(y.usage, e.usage) {
            AlikeThrough(front, y, kept, e);
          }
        }
      } else {
        NoStrongMeeting(digest, front, e);
      }
    }
  }

  lemma AlikeThrough(events: seq<Event>, y: Event, kept: Event, e: Event)
    requires StrongAlike(events) && y in events && kept in events && AlikeButOutput(kept.usage, e.usage)
    requires IdentityOf(y).Strong? && IdentityOf(y) == IdentityOf(kept)
    ensures AlikeButOutput(y.usage, e.usage)
  {
    hide IdentityOf;
    var i :| 0 <= i < |events| && events[i] == y;
    var j :| 0 <= j < |events| && events[j] == kept;
    if i < j {
      assert AlikeButOutput(y.usage, kept.usage);
    } else if j < i {
      assert AlikeButOutput(kept.usage, y.usage);
    }
  }
}
