/**
 Replay deduplication: the loop over a vector and two index maps, the fold it computes, and
 what that fold means one identity at a time. `digest` stands for the hash of a payload text;
 nothing here depends on which function it is.
 */
module Deduplication {
  import opened Common
  import opened UsageEvents

  type Hash = string -> string

  datatype HeuristicKeyCollision = HeuristicKeyCollision(
    parserVersion: string, heuristicKey: string,
    first: Event, second: Event, firstDigest: string, secondDigest: string)

  datatype Deduplicated = Deduplicated(
    canonical: seq<Event>, replayed: nat, collisions: nat,
    heuristicCollisions: seq<HeuristicKeyCollision>, withoutIdentity: nat)

  function PayloadDigest(digest: Hash, e: Event): string {
    digest(Payload(e))
  }

  /** Everything but the output count agrees. */
  predicate SameMessage(kept: Event, other: Event) {
    && kept.usage.input == other.usage.input
    && kept.usage.cacheRead == other.usage.cacheRead
    && kept.usage.cacheWrite == other.usage.cacheWrite
    && kept.usage.unknown == other.usage.unknown
  }

  function Larger(kept: Event, other: Event): Event {
    if other.usage.output > kept.usage.output then other else kept
  }

  /** Two occurrences under one heuristic key whose payloads differ. A strong identity is
      never disputed. */
  predicate Disputed(digest: Hash, kept: Event, other: Event) {
    IdentityOf(other).Heuristic? && PayloadDigest(digest, kept) != PayloadDigest(digest, other)
  }

  function CollisionOf(digest: Hash, kept: Event, other: Event): HeuristicKeyCollision
    requires IdentityOf(other).Heuristic?
  {
    HeuristicKeyCollision(
      IdentityOf(other).parser, IdentityOf(other).key,
      kept, other, PayloadDigest(digest, kept), PayloadDigest(digest, other))
  }

  // ---------------------------------------------------------------- the fold

  /** Where the event kept for an identity stands. */
  function IndexOf(canonical: seq<Event>, id: Identity): (at: Option<nat>)
    ensures at.Some? ==> at.value < |canonical| && IdentityOf(canonical[at.value]) == id
    ensures at.Some? ==> forall j :: 0 <= j < at.value ==> IdentityOf(canonical[j]) != id
    ensures at.None? ==> forall j :: 0 <= j < |canonical| ==> IdentityOf(canonical[j]) != id
  {
    if canonical == [] then None
    else if IdentityOf(canonical[0]) == id then Some(0)
    else
      match IndexOf(canonical[1..], id)
      case None => None
      case Some(k) => Some(k + 1)
  }

  function Step(digest: Hash, st: Deduplicated, e: Event): Deduplicated {
    var id := IdentityOf(e);
    var anonymous := if id.Heuristic? then 1 else 0;
    match IndexOf(st.canonical, id)
    case None => st.(canonical := st.canonical + [e], withoutIdentity := st.withoutIdentity + anonymous)
    case Some(k) =>
      var kept := st.canonical[k];
      if Disputed(digest, kept, e) then
        st.(canonical := st.canonical[..k] + st.canonical[k + 1..],
            heuristicCollisions := st.heuristicCollisions + [CollisionOf(digest, kept, e)],
            withoutIdentity := st.withoutIdentity + anonymous)
      else
        var replay := id.Heuristic? || SameMessage(kept, e);
        st.(canonical := st.canonical[k := Larger(kept, e)],
            replayed := st.replayed + (if replay then 1 else 0),
            collisions := st.collisions + (if replay then 0 else 1),
            withoutIdentity := st.withoutIdentity + anonymous)
  }

  const NOTHING := Deduplicated([], 0, 0, [], 0)

  function Dedup(digest: Hash, events: seq<Event>): Deduplicated {
    if events == [] then NOTHING
    else Step(digest, Dedup(digest, events[..|events| - 1]), events[|events| - 1])
  }

  // ---------------------------------------------------------------- the loop

  /** The strong identifier of each kept event, where it has one. */
  ghost function Natives(canonical: seq<Event>): (s: seq<Option<string>>)
    ensures |s| == |canonical|
  {
    seq(|canonical|, i requires 0 <= i < |canonical| => NativeOf(IdentityOf(canonical[i])))
  }

  /** The parser-scoped heuristic key of each kept event, where it has one. */
  ghost function Keys(canonical: seq<Event>): (s: seq<Option<(string, string)>>)
    ensures |s| == |canonical|
  {
    seq(|canonical|, i requires 0 <= i < |canonical| => KeyOf(IdentityOf(canonical[i])))
  }

  function NativeOf(id: Identity): Option<string> {
    if id.Strong? then Some(id.native) else None
  }

  function KeyOf(id: Identity): Option<(string, string)> {
    if id.Heuristic? then Some((id.parser, id.key)) else None
  }

  /** The index names exactly the slots that hold a key, each key by its slot. */
  ghost predicate Exact<K>(slots: seq<Option<K>>, index: map<K, nat>) {
    && (forall k :: 0 <= k < |slots| && slots[k].Some? ==> slots[k].value in index && index[slots[k].value] == k)
    && (forall q :: q in index ==> index[q] < |slots| && slots[index[q]] == Some(q))
  }

  ghost predicate Indexed(canonical: seq<Event>, strong: map<string, nat>, heuristic: map<(string, string), nat>) {
    Exact(Natives(canonical), strong) && Exact(Keys(canonical), heuristic)
  }

  lemma IndexedFinds(canonical: seq<Event>, strong: map<string, nat>, heuristic: map<(string, string), nat>,
                     id: Identity)
    requires Indexed(canonical, strong, heuristic)
    ensures IndexOf(canonical, id) ==
      match id
      case Strong(s) => if s in strong then Some(strong[s]) else None
      case Heuristic(p, k) => if (p, k) in heuristic then Some(heuristic[(p, k)]) else None
  {
    hide IdentityOf;
    var at := IndexOf(canonical, id);
    if at.Some? {
      assert Natives(canonical)[at.value] == NativeOf(id);
      assert Keys(canonical)[at.value] == KeyOf(id);
    }
  }

  function Shifted(slot: nat, removedAt: nat): nat {
    if slot > removedAt then slot - 1 else slot
  }

  /** Decrements every index above a removed slot. */
  method ReindexAfterRemoval<K(==)>(index: map<K, nat>, removedAt: nat) returns (shifted: map<K, nat>)
    ensures shifted.Keys == index.Keys
    ensures forall k :: k in index ==> shifted[k] == Shifted(index[k], removedAt)
  {
    shifted := index;
    var pending := index.Keys;
    while pending != {}
      invariant pending <= index.Keys && shifted.Keys == index.Keys
      invariant forall k :: k in index ==>
        shifted[k] == if k in pending then index[k] else Shifted(index[k], removedAt)
      decreases pending
    {
      var k :| k in pending;
      if shifted[k] > removedAt {
        shifted := shifted[k := shifted[k] - 1];
      }
      pending := pending - {k};
    }
  }

  /** Removing a slot, renumbering, and freeing the removed key keeps an index exact. */
  lemma ExactAfterRemoval<K>(slots: seq<Option<K>>, index: map<K, nat>, k: nat, index': map<K, nat>)
    requires Exact(slots, index) && k < |slots|
    requires forall q :: q in index' <==> q in index && index[q] != k
    requires forall q :: q in index' ==> index'[q] == Shifted(index[q], k)
    ensures Exact(slots[..k] + slots[k + 1..], index')
  {
    var rest := slots[..k] + slots[k + 1..];
    forall j | 0 <= j < |rest| && rest[j].Some? ensures rest[j].value in index' && index'[rest[j].value] == j {
      var was := if j < k then j else j + 1;
      assert rest[j] == slots[was];
    }
  }

  lemma SlotsAfterRemoval(canonical: seq<Event>, k: nat)
    requires k < |canonical|
    ensures Natives(canonical[..k] + canonical[k + 1..]) == Natives(canonical)[..k] + Natives(canonical)[k + 1..]
    ensures Keys(canonical[..k] + canonical[k + 1..]) == Keys(canonical)[..k] + Keys(canonical)[k + 1..]
  {
    hide IdentityOf;
  }

  lemma IndexedAfterRemoval(canonical: seq<Event>, strong: map<string, nat>, heuristic: map<(string, string), nat>,
                            k: nat, key: (string, string),
                            shifted: map<string, nat>, shifted': map<(string, string), nat>)
    requires Indexed(canonical, strong, heuristic)
    requires k < |canonical| && key in heuristic && heuristic[key] == k
    requires shifted.Keys == strong.Keys && forall q :: q in strong ==> shifted[q] == Shifted(strong[q], k)
    requires shifted'.Keys == heuristic.Keys - {key}
    requires forall q :: q in shifted' ==> shifted'[q] == Shifted(heuristic[q], k)
    ensures Indexed(canonical[..k] + canonical[k + 1..], shifted, shifted')
  {
    hide IdentityOf;
    assert Keys(canonical)[k] == Some(key);
    assert Natives(canonical)[k] == None;
    ExactAfterRemoval(Natives(canonical), strong, k, shifted);
    ExactAfterRemoval(Keys(canonical), heuristic, k, shifted');
    SlotsAfterRemoval(canonical, k);
  }

  lemma IndexedAfterPush(canonical: seq<Event>, strong: map<string, nat>, heuristic: map<(string, string), nat>,
                         e: Event)
    requires Indexed(canonical, strong, heuristic)
    ensures IdentityOf(e).Strong? && IdentityOf(e).native !in strong ==>
      Indexed(canonical + [e], strong[IdentityOf(e).native := |canonical|], heuristic)
    ensures IdentityOf(e).Heuristic? && (IdentityOf(e).parser, IdentityOf(e).key) !in heuristic ==>
      Indexed(canonical + [e], strong, heuristic[(IdentityOf(e).parser, IdentityOf(e).key) := |canonical|])
  {
    hide IdentityOf;
    assert Natives(canonical + [e]) == Natives(canonical) + [NativeOf(IdentityOf(e))];
    assert Keys(canonical + [e]) == Keys(canonical) + [KeyOf(IdentityOf(e))];
  }

  lemma IndexedAfterUpdate(canonical: seq<Event>, strong: map<string, nat>, heuristic: map<(string, string), nat>,
                           k: nat, e: Event)
    requires Indexed(canonical, strong, heuristic) && k < |canonical|
    requires IdentityOf(e) == IdentityOf(canonical[k])
    ensures Indexed(canonical[k := e], strong, heuristic)
  {
    hide IdentityOf;
    assert Natives(canonical[k := e]) == Natives(canonical);
    assert Keys(canonical[k := e]) == Keys(canonical);
  }

  lemma DedupUnfolds(digest: Hash, events: seq<Event>, i: nat)
    requires i < |events|
    ensures Dedup(digest, events[..i + 1]) == Step(digest, Dedup(digest, events[..i]), events[i])
  {
    assert events[..i + 1][..i] == events[..i];
  }

  lemma IdentityByOrder(e: Event)
    ensures StrongIdentity(e.sources).Some? ==> IdentityOf(e) == Strong(StrongIdentity(e.sources).value)
    ensures StrongIdentity(e.sources).None? ==> IdentityOf(e) == Heuristic(e.parserVersion, HeuristicKey(e))
  {
  }

  /** The three things the fold does with one more event. */
  lemma StepCases(digest: Hash, st: Deduplicated, e: Event)
    ensures
      var anonymous := if IdentityOf(e).Heuristic? then 1 else 0;
      match IndexOf(st.canonical, IdentityOf(e))
      case None =>
        Step(digest, st, e)
          == st.(canonical := st.canonical + [e], withoutIdentity := st.withoutIdentity + anonymous)
      case Some(k) =>
        var kept := st.canonical[k];
        var counted := st.(withoutIdentity := st.withoutIdentity + anonymous,
                           canonical := st.canonical[k := if e.usage.output > kept.usage.output then e else kept]);
        if IdentityOf(e).Strong? then
          Step(digest, st, e) == (if SameMessage(kept, e) then counted.(replayed := st.replayed + 1)
                                  else counted.(collisions := st.collisions + 1))
        else if digest(Payload(kept)) == digest(Payload(e)) then
          Step(digest, st, e) == counted.(replayed := st.replayed + 1)
        else
          Step(digest, st, e) ==
            st.(withoutIdentity := st.withoutIdentity + 1,
                canonical := st.canonical[..k] + st.canonical[k + 1..],
                heuristicCollisions := st.heuristicCollisions + [HeuristicKeyCollision(
                  IdentityOf(e).parser, IdentityOf(e).key, kept, e, digest(Payload(kept)), digest(Payload(e)))])
  {
    hide IdentityOf, Payload;
  }

  /** The strong domain's turn of the loop. */
  method AbsorbStrong(digest: Hash, acc: Deduplicated, indexByStrong: map<string, nat>,
                      ghost indexByHeuristic: map<(string, string), nat>, identity: string, event: Event)
    returns (acc': Deduplicated, indexByStrong': map<string, nat>)
    requires Indexed(acc.canonical, indexByStrong, indexByHeuristic)
    requires IdentityOf(event) == Strong(identity)
    ensures acc' == Step(digest, acc, event)
    ensures Indexed(acc'.canonical, indexByStrong', indexByHeuristic)
  {
    StepCases(digest, acc, event);
    IndexedFinds(acc.canonical, indexByStrong, indexByHeuristic, IdentityOf(event));
    hide *;
    acc', indexByStrong' := acc, indexByStrong;
    if identity !in indexByStrong {
      IndexedAfterPush(acc.canonical, indexByStrong, indexByHeuristic, event);
      indexByStrong' := indexByStrong[identity := |acc.canonical|];
      acc' := acc.(canonical := acc.canonical + [event]);
    } else {
      var keptAt := indexByStrong[identity];
      var kept := acc.canonical[keptAt];
      if SameMessage(kept, event) {
        acc' := acc'.(replayed := acc.replayed + 1);
      } else {
        acc' := acc'.(collisions := acc.collisions + 1);
      }
      assert acc.canonical[keptAt := kept] == acc.canonical;
      if event.usage.output > kept.usage.output {
        IndexedAfterUpdate(acc.canonical, indexByStrong, indexByHeuristic, keptAt, event);
        acc' := acc'.(canonical := acc.canonical[keptAt := event]);
      }
    }
  }

  /** Takes the disputed event from the middle of the list, renumbers both indexes and frees its
      key. */
  method RemoveDisputed(canonical: seq<Event>, indexByStrong: map<string, nat>,
                        indexByHeuristic: map<(string, string), nat>, keptAt: nat, key: (string, string))
    returns (without: seq<Event>, indexByStrong': map<string, nat>, indexByHeuristic': map<(string, string), nat>)
    requires Indexed(canonical, indexByStrong, indexByHeuristic)
    requires keptAt < |canonical| && key in indexByHeuristic && indexByHeuristic[key] == keptAt
    ensures without == canonical[..keptAt] + canonical[keptAt + 1..]
    ensures Indexed(without, indexByStrong', indexByHeuristic')
  {
    hide Indexed;
    indexByStrong' := ReindexAfterRemoval(indexByStrong, keptAt);
    indexByHeuristic' := ReindexAfterRemoval(indexByHeuristic, keptAt);
    indexByHeuristic' := indexByHeuristic' - {key};
    IndexedAfterRemoval(canonical, indexByStrong, indexByHeuristic, keptAt, key, indexByStrong', indexByHeuristic');
    without := canonical[..keptAt] + canonical[keptAt + 1..];
  }

  /** The heuristic domain's turn of the loop. */
  method AbsorbHeuristic(digest: Hash, acc: Deduplicated, indexByStrong: map<string, nat>,
                         indexByHeuristic: map<(string, string), nat>, key: (string, string), event: Event)
    returns (acc': Deduplicated, indexByStrong': map<string, nat>, indexByHeuristic': map<(string, string), nat>)
    requires Indexed(acc.canonical, indexByStrong, indexByHeuristic)
    requires IdentityOf(event) == Heuristic(key.0, key.1)
    ensures acc' == Step(digest, acc, event)
    ensures Indexed(acc'.canonical, indexByStrong', indexByHeuristic')
  {
    hide *;
    StepCases(digest, acc, event);
    IndexedFinds(acc.canonical, indexByStrong, indexByHeuristic, IdentityOf(event));
    indexByStrong', indexByHeuristic' := indexByStrong, indexByHeuristic;
    acc' := acc.(withoutIdentity := acc.withoutIdentity + 1);
    if key !in indexByHeuristic {
      IndexedAfterPush(acc.canonical, indexByStrong, indexByHeuristic, event);
      indexByHeuristic' := indexByHeuristic[key := |acc.canonical|];
      acc' := acc'.(canonical := acc.canonical + [event]);
    } else {
      var keptAt := indexByHeuristic[key];
      var kept := acc.canonical[keptAt];
      var keptPayload := CanonicalPayload(kept);
      var challengerPayload := CanonicalPayload(event);
      var keptDigest, challengerDigest := digest(keptPayload), digest(challengerPayload);
      if keptDigest == challengerDigest {
        acc' := acc'.(replayed := acc.replayed + 1);
        assert acc.canonical[keptAt := kept] == acc.canonical;
        if event.usage.output > kept.usage.output {
          IndexedAfterUpdate(acc.canonical, indexByStrong, indexByHeuristic, keptAt, event);
          acc' := acc'.(canonical := acc.canonical[keptAt := event]);
        }
      } else {
        var without;
        without, indexByStrong', indexByHeuristic' :=
          RemoveDisputed(acc.canonical, indexByStrong, indexByHeuristic, keptAt, key);
        acc' := acc'.(
          canonical := without,
          heuristicCollisions := acc.heuristicCollisions
            + [HeuristicKeyCollision(key.0, key.1, kept, event, keptDigest, challengerDigest)]);
      }
    }
  }

  method Deduplicate(digest: Hash, events: seq<Event>) returns (result: Deduplicated)
    ensures result == Dedup(digest, events)
  {
    result := NOTHING;
    var indexByStrong: map<string, nat> := map[];
    var indexByHeuristic: map<(string, string), nat> := map[];
    assert events[..|events|] == events;
    for i := 0 to |events|
      invariant Indexed(result.canonical, indexByStrong, indexByHeuristic)
      invariant result == Dedup(digest, events[..i])
    {
      hide *;
      var event := events[i];
      DedupUnfolds(digest, events, i);
      IdentityByOrder(event);
      var strong := StrongIdentity(event.sources);
      if strong.Some? {
        result, indexByStrong :=
          AbsorbStrong(digest, result, indexByStrong, indexByHeuristic, strong.value, event);
      } else {
        var fingerprint := ComputeHeuristicKey(event);
        result, indexByStrong, indexByHeuristic := AbsorbHeuristic(
          digest, result, indexByStrong, indexByHeuristic, (event.parserVersion, fingerprint), event);
      }
    }
  }
}
