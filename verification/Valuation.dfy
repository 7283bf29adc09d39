/**
 Picking the card that prices an instant. The lookup reads a card's last date as still in force,
 where the book's ambiguity check reads it as the first date out of force; this module says when
 the two readings price alike.
 */
module Valuation {
  import opened Common
  import opened RateBook

  /** A stored card: the book's draft and what the store adds. */
  datatype Card = Card(id: int, importedAt: int, draft: Draft)

  /** What is asked: the names are already folded. */
  datatype Query = Query(vendor: string, model: string, tokenClass: TokenClass, at: Instant)

  /** The lookup's reading of a card's dates: the end is inclusive. */
  predicate InForceOn(d: Draft, date: int) {
    d.start <= date && (d.end.None? || date <= d.end.value)
  }

  predicate DateMatch(d: Draft, q: Query, fold: string -> string) {
    && d.basis == PerMillionTokens
    && fold(d.vendor) == q.vendor && fold(d.model) == q.model && d.tokenClass == q.tokenClass
    && InForceOn(d, q.at.date)
  }

  /** The lookup considers the card for the query. */
  predicate Applies(d: Draft, q: Query, fold: string -> string) {
    DateMatch(d, q, fold) && (d.schedule.None? || Contains(d.schedule.value, WeekdayOf(q.at.date), q.at.minute))
  }

  function Width(s: Schedule): int {
    s.endMinutes - s.startMinutes
  }

  predicate LaterRevision(a: Card, b: Card) {
    || a.draft.start > b.draft.start
    || (a.draft.start == b.draft.start && (a.id > b.id || (a.id == b.id && a.importedAt > b.importedAt)))
  }

  predicate NarrowerOrLater(a: Card, b: Card)
    requires a.draft.schedule.Some? && b.draft.schedule.Some?
  {
    var wide, wider := Width(a.draft.schedule.value), Width(b.draft.schedule.value);
    wide < wider || (wide == wider && LaterRevision(a, b))
  }

  /** `a` is preferred to `b`: scheduled before unscheduled, the narrower window first, then the
      later revision. */
  predicate Outranks(a: Card, b: Card) {
    match (a.draft.schedule, b.draft.schedule)
    case (Some(_), None) => true
    case (None, Some(_)) => false
    case (None, None) => LaterRevision(a, b)
    case (Some(_), Some(_)) => NarrowerOrLater(a, b)
  }

  ghost predicate BestAmong(cards: seq<Card>, eligible: Card -> bool, best: Option<Card>) {
    && (best.None? ==> forall c :: c in cards ==> !eligible(c))
    && (best.Some? ==> best.value in cards && eligible(best.value))
    && (best.Some? ==> forall c :: c in cards && eligible(c) ==> !Outranks(c, best.value))
  }

  ghost function Scheduled(q: Query, fold: string -> string): Card -> bool {
    (c: Card) => Applies(c.draft, q, fold) && c.draft.schedule.Some?
  }

  ghost function Unscheduled(q: Query, fold: string -> string): Card -> bool {
    (c: Card) => Applies(c.draft, q, fold) && c.draft.schedule.None?
  }

  ghost function Applicable(q: Query, fold: string -> string): Card -> bool {
    (c: Card) => Applies(c.draft, q, fold)
  }

  lemma OutrankingChains(a: Card, b: Card, c: Card)
    requires Outranks(a, b) && Outranks(b, c)
    ensures Outranks(a, c)
  {
  }

  /** The better of the best so far and the next card is the best of both. */
  lemma BestStep(cards: seq<Card>, i: nat, eligible: Card -> bool, best: Option<Card>, next: Option<Card>)
    requires i < |cards| && BestAmong(cards[..i], eligible, best)
    requires next ==
      if eligible(cards[i]) && (best.None? || Outranks(cards[i], best.value)) then Some(cards[i]) else best
    ensures BestAmong(cards[..i + 1], eligible, next)
  {
    hide Outranks;
    var card := cards[i];
    assert cards[..i + 1] == cards[..i] + [card];
    if next == Some(card) {
      forall c | c in cards[..i + 1] && eligible(c) ensures !Outranks(c, card) {
        if Outranks(c, card) {
          if best.Some? && Outranks(card, best.value) {
            OutrankingChains(c, card, best.value);
          }
          NeverOutranksItself(card);
        }
      }
    }
  }

  lemma NeverOutranksItself(card: Card)
    ensures !Outranks(card, card)
  {
  }

  /** One pass over the cards keeps the best default and the best scheduled card; a scheduled
      card wins. */
  method FindRate(cards: seq<Card>, q: Query, fold: string -> string) returns (found: Option<Card>)
    ensures BestAmong(cards, Applicable(q, fold), found)
  {
    var bestDefault: Option<Card> := None;
    var bestScheduled: Option<(Card, int)> := None;
    for i := 0 to |cards|
      invariant BestAmong(cards[..i], Unscheduled(q, fold), bestDefault)
      invariant bestScheduled.Some? ==>
        && bestScheduled.value.0.draft.schedule.Some?
        && bestScheduled.value.1 == Width(bestScheduled.value.0.draft.schedule.value)
      invariant BestAmong(cards[..i], Scheduled(q, fold), First(bestScheduled))
    {
      var card := cards[i];
      ghost var oldDefault, oldScheduled := bestDefault, First(bestScheduled);
      if !DateMatch(card.draft, q, fold) {
        BestStep(cards, i, Unscheduled(q, fold), oldDefault, oldDefault);
        BestStep(cards, i, Scheduled(q, fold), oldScheduled, oldScheduled);
        continue;
      }
      match card.draft.schedule
      case None =>
        if bestDefault.None? || LaterRevision(card, bestDefault.value) {
          bestDefault := Some(card);
        }
      case Some(schedule) =>
        if !Contains(schedule, WeekdayOf(q.at.date), q.at.minute) {
          BestStep(cards, i, Unscheduled(q, fold), oldDefault, oldDefault);
          BestStep(cards, i, Scheduled(q, fold), oldScheduled, oldScheduled);
          continue;
        }
        var width := Width(schedule);
        if bestScheduled.None? || width < bestScheduled.value.1
           || (width == bestScheduled.value.1 && LaterRevision(card, bestScheduled.value.0)) {
          bestScheduled := Some((card, width));
        }
      BestStep(cards, i, Unscheduled(q, fold), oldDefault, bestDefault);
      BestStep(cards, i, Scheduled(q, fold), oldScheduled, First(bestScheduled));
    }
    assert cards[..|cards|] == cards;
    found := if bestScheduled.Some? then Some(bestScheduled.value.0) else bestDefault;
  }

  function First(pair: Option<(Card, int)>): Option<Card> {
    if pair.Some? then Some(pair.value.0) else None
  }

  /** The default card of the query's date, scheduled cards ignored. */
  method FindDefaultRate(cards: seq<Card>, q: Query, fold: string -> string) returns (found: Option<Card>)
    ensures BestAmong(cards, Unscheduled(q, fold), found)
  {
    found := None;
    for i := 0 to |cards|
      invariant BestAmong(cards[..i], Unscheduled(q, fold), found)
    {
      var card := cards[i];
      assert cards[..i + 1] == cards[..i] + [card];
      if card.draft.schedule.Some? {
        continue;
      }
      if !DateMatch(card.draft, q, fold) {
        continue;
      }
      if found.None? || LaterRevision(card, found.value) {
        found := Some(card);
      }
    }
    assert cards[..|cards|] == cards;
  }

  /** Of two cards the later revision is the one first in force later; of one start, the one of
      the higher row identifier; of one row, the one imported later. */
  ghost predicate RevisedAfter(a: Card, b: Card) {
    || a.draft.start > b.draft.start
    || (a.draft.start == b.draft.start && a.id > b.id)
    || (a.draft.start == b.draft.start && a.id == b.id && a.importedAt > b.importedAt)
  }

  /** The default that is found began no earlier than any other applicable one, and of those that
      began with it has the highest identifier. */
  lemma FoundDefaultIsLatest(cards: seq<Card>, q: Query, fold: string -> string, found: Option<Card>, c: Card)
    requires BestAmong(cards, Unscheduled(q, fold), found)
    requires c in cards && Applies(c.draft, q, fold) && c.draft.schedule.None?
    ensures found.Some? && found.value in cards && found.value.draft.schedule.None?
    ensures !RevisedAfter(c, found.value)
  {
    assert Unscheduled(q, fold)(c);
    hide Applies;
  }

  /** The rate that is found is scheduled when any applicable card is, has then the fewest minutes a
      day, and of equally narrow ones began last and has the highest identifier. */
  lemma FoundRateIsNarrowest(cards: seq<Card>, q: Query, fold: string -> string, found: Option<Card>, c: Card)
    requires BestAmong(cards, Applicable(q, fold), found)
    requires c in cards && Applies(c.draft, q, fold) && c.draft.schedule.Some?
    ensures found.Some? && found.value in cards && found.value.draft.schedule.Some?
    ensures
      var s, t := found.value.draft.schedule.value, c.draft.schedule.value;
      var least, most := s.endMinutes - s.startMinutes, t.endMinutes - t.startMinutes;
      least < most || (least == most && !RevisedAfter(c, found.value))
  {
    assert Applicable(q, fold)(c);
    hide Applies;
  }

  // ---------------------------------------------------------------- the two readings

  function Drafts(cards: seq<Card>): (ds: seq<Draft>)
    ensures |ds| == |cards|
  {
    seq(|cards|, i requires 0 <= i < |cards| => cards[i].draft)
  }

  /** What reading the file guarantees of a card. */
  predicate Parsed(d: Draft) {
    && (d.basis == PerMillionTokens ==> d.window.None?)
    && (d.schedule.Some? ==> ValidSchedule(d.schedule.value))
  }

  ghost predicate AllParsed(cards: seq<Card>) {
    forall i :: 0 <= i < |cards| ==> Parsed(cards[i].draft)
  }

  /** Row identifiers are the store's primary key. */
  ghost predicate DistinctIds(cards: seq<Card>) {
    forall c, d :: c in cards && d in cards && c.id == d.id ==> c == d
  }

  /** The card prices the query by the book's reading of its dates. */
  predicate PricesQuery(c: Card, q: Query, fold: string -> string) {
    Applies(c.draft, q, fold) && Effective(c.draft, q.at.date)
  }

  // ---------------------------------------------------------------- one price a query

  /** The card as the lookup compares it. */
  function Folded(d: Draft, fold: string -> string): Draft {
    d.(vendor := fold(d.vendor), model := fold(d.model))
  }

  predicate ClashFolded(a: Draft, b: Draft, fold: string -> string) {
    a.basis == PerMillionTokens && b.basis == PerMillionTokens && Clash(Folded(a, fold), Folded(b, fold))
  }

  ghost predicate BothPrice(c: Card, d: Card, fold: string -> string) {
    exists q :: PricesQuery(c, q, fold) && PricesQuery(d, q, fold)
  }

  /** Two cards, both scheduled or both not, price one query exactly when they are money cards
      that clash once their names are folded. */
  lemma BothPriceExactlyWhen(c: Card, d: Card, fold: string -> string)
    requires Parsed(c.draft) && Parsed(d.draft) && c.draft.schedule.Some? == d.draft.schedule.Some?
    ensures BothPrice(c, d, fold) <==> ClashFolded(c.draft, d.draft, fold)
  {
    var a, b := Folded(c.draft, fold), Folded(d.draft, fold);
    assert ValidSchedules([a, b]) by { assert [a, b][0] == a && [a, b][1] == b; }
    hide Contains, ValidSchedule, Effective, Meet, Overlaps;
    if BothPrice(c, d, fold) {
      var q :| PricesQuery(c, q, fold) && PricesQuery(d, q, fold);
      assert SameKey(a, b);
      assert Prices(a, q.at) && Prices(b, q.at);
      ShareAnInstantExactlyWhen(a, b);
    }
    if ClashFolded(c.draft, d.draft, fold) {
      ShareAnInstantExactlyWhen(a, b);
      var at :| Prices(a, at) && Prices(b, at);
      var q := Query(a.vendor, a.model, a.tokenClass, at);
      EffectiveIsInForce(c.draft, at.date);
      EffectiveIsInForce(d.draft, at.date);
      assert PricesQuery(c, q, fold) && PricesQuery(d, q, fold);
    }
  }

  lemma EffectiveIsInForce(d: Draft, date: int)
    requires Effective(d, date)
    ensures InForceOn(d, date)
  {
  }

  /** No two money cards clash once their names are folded. */
  ghost predicate FoldedApart(cards: seq<Card>, fold: string -> string) {
    forall i, j :: 0 <= j < i < |cards| ==> !ClashFolded(cards[i].draft, cards[j].draft, fold)
  }

  /** Every query is priced by at most one default and at most one scheduled card. */
  ghost predicate OnePriceEach(cards: seq<Card>, fold: string -> string) {
    forall i, j :: 0 <= j < i < |cards| && cards[i].draft.schedule.Some? == cards[j].draft.schedule.Some?
                   ==> !BothPrice(cards[i], cards[j], fold)
  }

  /** A book leaves no query with two prices of a kind exactly when no two of its money cards
      clash once their names are folded. */
  lemma OnePriceExactlyWhenFoldedApart(cards: seq<Card>, fold: string -> string)
    requires AllParsed(cards)
    ensures OnePriceEach(cards, fold) <==> FoldedApart(cards, fold)
  {
    hide BothPrice, Parsed, Meet, Effective, Overlaps;
    forall i, j | 0 <= j < i < |cards| && cards[i].draft.schedule.Some? == cards[j].draft.schedule.Some?
      ensures BothPrice(cards[i], cards[j], fold) <==> ClashFolded(cards[i].draft, cards[j].draft, fold)
    {
      BothPriceExactlyWhen(cards[i], cards[j], fold);
    }
  }

  /** No two money cards conflict once their names are folded: what the import's check would
      ask of the folded book. */
  ghost predicate FoldedConsistent(cards: seq<Card>, fold: string -> string) {
    forall i, j :: 0 <= i < |cards| && 0 <= j < |cards| && i != j
      && cards[i].draft.basis == PerMillionTokens && cards[j].draft.basis == PerMillionTokens
      ==> !Conflicts(Folded(cards[i].draft, fold), Folded(cards[j].draft, fold))
  }

  /** Names that fold alike are spelled alike. */
  ghost predicate NamesApart(cards: seq<Card>, fold: string -> string) {
    forall i, j :: 0 <= i < |cards| && 0 <= j < |cards|
      && fold(cards[i].draft.vendor) == fold(cards[j].draft.vendor)
      && fold(cards[i].draft.model) == fold(cards[j].draft.model)
      ==> cards[i].draft.vendor == cards[j].draft.vendor && cards[i].draft.model == cards[j].draft.model
  }

  /** Acceptance gives this for a book whose names fold apart: every query then has one price
      of a kind. */
  lemma AcceptedAndNamesApart(cards: seq<Card>, fold: string -> string)
    requires AllParsed(cards) && Consistent(Drafts(cards)) && NamesApart(cards, fold)
    ensures FoldedConsistent(cards, fold) && FoldedApart(cards, fold) && OnePriceEach(cards, fold)
  {
    hide EffectiveOverlap, SchedulesConflict, Meet;
    forall i, j | 0 <= i < |cards| && 0 <= j < |cards| && i != j
      ensures !Conflicts(Folded(cards[i].draft, fold), Folded(cards[j].draft, fold))
    {
      assert Drafts(cards)[i] == cards[i].draft && Drafts(cards)[j] == cards[j].draft;
      ConflictIsSymmetric(cards[i].draft, cards[j].draft);
      assert !Conflicts(cards[i].draft, cards[j].draft);
      FoldingKeepsConflicts(cards[i].draft, cards[j].draft, fold);
    }
    OnePriceExactlyWhenFoldedApart(cards, fold);
  }

  lemma FoldingKeepsConflicts(a: Draft, b: Draft, fold: string -> string)
    requires fold(a.vendor) == fold(b.vendor) && fold(a.model) == fold(b.model) ==>
      a.vendor == b.vendor && a.model == b.model
    ensures Conflicts(Folded(a, fold), Folded(b, fold)) ==> Conflicts(a, b)
  {
  }

  lemma OnePrices(cards: seq<Card>, c: Card, d: Card, q: Query, fold: string -> string)
    requires AllParsed(cards) && FoldedApart(cards, fold)
    requires c in cards && d in cards && PricesQuery(c, q, fold) && PricesQuery(d, q, fold)
    requires c.draft.schedule.Some? == d.draft.schedule.Some?
    ensures c == d
  {
    OnePriceExactlyWhenFoldedApart(cards, fold);
    hide PricesQuery, FoldedApart;
    var i :| 0 <= i < |cards| && cards[i] == c;
    var j :| 0 <= j < |cards| && cards[j] == d;
    assert BothPrice(c, d, fold) && BothPrice(d, c, fold);
    assert i == j;
  }

  // ---------------------------------------------------------------- the governing card

  /** The card the book says prices the query: a scheduled one, or a default no schedule beats. */
  ghost predicate Governs(cards: seq<Card>, c: Card, q: Query, fold: string -> string) {
    && c in cards && PricesQuery(c, q, fold)
    && (c.draft.schedule.None? ==> forall d :: d in cards && PricesQuery(d, q, fold) ==> d.draft.schedule.None?)
  }

  /** A card on its last date by the lookup's reading, already out of force by the book's. */
  predicate Stale(c: Card, q: Query, fold: string -> string) {
    Applies(c.draft, q, fold) && !Effective(c.draft, q.at.date)
  }

  /** A query has a governing card exactly when some card prices it, and only one when the
      folded cards are apart. */
  lemma GovernedExactlyWhenPriced(cards: seq<Card>, q: Query, fold: string -> string)
    ensures (exists g :: Governs(cards, g, q, fold)) <==> exists c :: c in cards && PricesQuery(c, q, fold)
    ensures AllParsed(cards) && FoldedApart(cards, fold) ==>
      forall c, d :: Governs(cards, c, q, fold) && Governs(cards, d, q, fold) ==> c == d
  {
    hide PricesQuery, AllParsed, FoldedApart;
    if c :| c in cards && PricesQuery(c, q, fold) {
      if d :| d in cards && PricesQuery(d, q, fold) && d.draft.schedule.Some? {
        assert Governs(cards, d, q, fold);
      } else {
        assert Governs(cards, c, q, fold);
      }
    }
    if AllParsed(cards) && FoldedApart(cards, fold) {
      forall c, d | Governs(cards, c, q, fold) && Governs(cards, d, q, fold) ensures c == d {
        OnePrices(cards, c, d, q, fold);
      }
    }
  }

  /** The lookup answers as the book reads. */
  ghost predicate AnswersByTheBook(cards: seq<Card>, found: Option<Card>, q: Query, fold: string -> string) {
    match found
    case Some(c) => Governs(cards, c, q, fold)
    case None => forall c :: c in cards ==> !Governs(cards, c, q, fold)
  }

  lemma RanksDiffer(a: Card, b: Card)
    requires a.id != b.id
    ensures Outranks(a, b) || Outranks(b, a)
  {
  }

  /** Whatever the book, the lookup answers by it exactly when every card on its last date is
      outranked by a governing card. */
  lemma LookupFollowsTheBookExactlyWhen(cards: seq<Card>, found: Option<Card>, q: Query, fold: string -> string)
    requires DistinctIds(cards) && BestAmong(cards, Applicable(q, fold), found)
    ensures AnswersByTheBook(cards, found, q, fold) <==>
      forall c :: c in cards && Stale(c, q, fold) ==> exists g :: Governs(cards, g, q, fold) && Outranks(g, c)
  {
    hide NarrowerOrLater, LaterRevision;
    assert forall c :: c in cards && Applies(c.draft, q, fold) ==> Applicable(q, fold)(c);
    if AnswersByTheBook(cards, found, q, fold) {
      forall c | c in cards && Stale(c, q, fold) ensures exists g :: Governs(cards, g, q, fold) && Outranks(g, c) {
        assert Applicable(q, fold)(c) && !Outranks(c, found.value);
        RanksDiffer(found.value, c);
      }
    } else if found.Some? {
      assert Applicable(q, fold)(found.value);
      assert forall c :: c in cards && Applies(c.draft, q, fold) ==> !Outranks(c, found.value);
      assert Stale(found.value, q, fold);
    }
  }

  /** Scheduled before unscheduled, and of two scheduled cards the one no wider. */
  predicate NoWider(g: Card, c: Card) {
    match (g.draft.schedule, c.draft.schedule)
    case (Some(s), Some(t)) => Width(s) <= Width(t)
    case (Some(_), None) => true
    case (None, None) => true
    case (None, Some(_)) => false
  }

  /** A card on its last date began no later than the governing card of the same footing, when no
      two folded money cards conflict; and on the same date only if it was never in force. */
  lemma StaleBeganNoLater(cards: seq<Card>, g: Card, stale: Card, q: Query, fold: string -> string)
    requires AllParsed(cards) && FoldedConsistent(cards, fold)
    requires g in cards && stale in cards && PricesQuery(g, q, fold) && Stale(stale, q, fold)
    requires g.draft.schedule.Some? == stale.draft.schedule.Some?
    ensures stale.draft.start <= g.draft.start
    ensures NonEmpty(stale.draft) ==> stale.draft.start < g.draft.start
  {
    var i :| 0 <= i < |cards| && cards[i] == stale;
    var j :| 0 <= j < |cards| && cards[j] == g;
    var a, b := Folded(stale.draft, fold), Folded(g.draft, fold);
    if a.schedule.Some? {
      hide HasDay, WeekdayOf;
      OverlapIsCommonMinute(a.schedule.value, b.schedule.value);
      assert Contains(a.schedule.value, WeekdayOf(q.at.date), q.at.minute);
    }
    hide Overlaps, Contains;
    assert i != j;
    assert !Conflicts(a, b) by {
      ConflictIsSymmetric(a, b);
    }
    assert SameKey(a, b) && SchedulesConflict(a.schedule, b.schedule);
  }

  /** Of the same footing and width, and begun on the same date: revisions alone tell them apart. */
  predicate Tied(g: Card, c: Card) {
    && g.draft.start == c.draft.start
    && match (g.draft.schedule, c.draft.schedule)
       case (Some(s), Some(t)) => Width(s) == Width(t)
       case (None, None) => true
       case _ => false
  }

  /** On a book whose folded cards are consistent, a governing card outranks a card on its last
      date exactly when it is scheduled and no wider, or both are defaults, and, should the other
      have begun on the same date, it is the later revision. */
  lemma WidthDecides(cards: seq<Card>, g: Card, stale: Card, q: Query, fold: string -> string)
    requires AllParsed(cards) && FoldedConsistent(cards, fold)
    requires Governs(cards, g, q, fold) && stale in cards && Stale(stale, q, fold)
    ensures Outranks(g, stale) <==> NoWider(g, stale) && (Tied(g, stale) ==> LaterRevision(g, stale))
    ensures Tied(g, stale) ==> !NonEmpty(stale.draft)
  {
    hide AllParsed, FoldedConsistent, PricesQuery, Stale, NonEmpty;
    if g.draft.schedule.Some? == stale.draft.schedule.Some? {
      StaleBeganNoLater(cards, g, stale, q, fold);
    }
  }

  /** The default lookup finds the default in force by the book exactly when no default on its
      last date outranks it; one that was ever in force never does on a consistent book. */
  lemma DefaultLookupHandsOver(cards: seq<Card>, found: Option<Card>, g: Card, q: Query, fold: string -> string)
    requires AllParsed(cards) && FoldedApart(cards, fold) && DistinctIds(cards)
    requires BestAmong(cards, Unscheduled(q, fold), found)
    requires g in cards && PricesQuery(g, q, fold) && g.draft.schedule.None?
    ensures found == Some(g) <==>
      forall c :: c in cards && Stale(c, q, fold) && c.draft.schedule.None? ==> !Outranks(c, g)
    ensures FoldedConsistent(cards, fold) && (forall c :: c in cards ==> NonEmpty(c.draft)) ==> found == Some(g)
  {
    assert forall c :: c in cards && Applies(c.draft, q, fold) && c.draft.schedule.None? ==> Unscheduled(q, fold)(c);
    assert Unscheduled(q, fold)(found.value);
    hide AllParsed, FoldedApart, FoldedConsistent, NonEmpty, Effective;
    var best := found.value;
    if best != g {
      RanksDiffer(best, g);
      if PricesQuery(best, q, fold) {
        OnePrices(cards, best, g, q, fold);
      }
      if FoldedConsistent(cards, fold) && NonEmpty(best.draft) {
        StaleBeganNoLater(cards, g, best, q, fold);
      }
    }
  }

  // ---------------------------------------------------------------- where the readings part

  function DayDraft(start: int, end: int, schedule: Option<Schedule>): Draft {
    Draft("v", "m", Input, PerMillionTokens, None, start, Some(end), schedule)
  }

  /** On its last date a peak card still outranks the default that alone is in force. */
  lemma ExpiredPeakStillPrices(found: Option<Card>)
    ensures
      var peak := Schedule(127, 0, 60);
      var cards := [Card(1, 0, DayDraft(0, 10, None)), Card(2, 0, DayDraft(0, 5, Some(peak)))];
      var q := Query("v", "m", Input, Instant(5, 30));
      && AllParsed(cards) && Consistent(Drafts(cards)) && DistinctIds(cards) && NamesApart(cards, x => x)
      && Governs(cards, cards[0], q, x => x)
      && (BestAmong(cards, Applicable(q, x => x), found) ==> found == Some(cards[1]))
  {
    var peak := Schedule(127, 0, 60);
    var fold := (x: string) => x;
    var cards := [Card(1, 0, DayDraft(0, 10, None)), Card(2, 0, DayDraft(0, 5, Some(peak)))];
    var q := Query("v", "m", Input, Instant(5, 30));
    assert Drafts(cards) == [DayDraft(0, 10, None), DayDraft(0, 5, Some(peak))];
    assert HasDay(127, 2) && WeekdayOf(5) == 2;
    assert Applies(cards[0].draft, q, fold) && Applies(cards[1].draft, q, fold);
    if BestAmong(cards, Applicable(q, fold), found) {
      assert Applicable(q, fold)(cards[1]) && Outranks(cards[1], cards[0]);
    }
  }

  /** A default that was never in force is picked over the governing default of its one date when
      it is the later revision. */
  lemma EmptyCardStillPrices(found: Option<Card>)
    ensures
      var cards := [Card(1, 0, DayDraft(5, 10, None)), Card(2, 0, DayDraft(5, 5, None))];
      var q := Query("v", "m", Input, Instant(5, 30));
      && AllParsed(cards) && Consistent(Drafts(cards)) && FoldedConsistent(cards, x => x)
      && Governs(cards, cards[0], q, x => x)
      && (BestAmong(cards, Applicable(q, x => x), found) ==> found == Some(cards[1]))
  {
    var fold := (x: string) => x;
    var cards := [Card(1, 0, DayDraft(5, 10, None)), Card(2, 0, DayDraft(5, 5, None))];
    var q := Query("v", "m", Input, Instant(5, 30));
    assert Drafts(cards) == [DayDraft(5, 10, None), DayDraft(5, 5, None)];
    assert !Conflicts(cards[0].draft, cards[1].draft) && !Conflicts(cards[1].draft, cards[0].draft);
    if BestAmong(cards, Applicable(q, fold), found) {
      assert Applicable(q, fold)(cards[1]) && Outranks(cards[1], cards[0]);
    }
  }

  /** Names that differ only in what folding removes slip past the check: two defaults then
      price one instant. */
  lemma FoldedNamesBothPrice(fold: string -> string)
    requires fold("a") == fold("A")
    ensures
      var cards := [Card(1, 0, DayDraft(0, 10, None).(vendor := "a")),
                    Card(2, 0, DayDraft(0, 10, None).(vendor := "A"))];
      var q := Query(fold("a"), fold("m"), Input, Instant(5, 30));
      && AllParsed(cards) && Consistent(Drafts(cards))
      && Governs(cards, cards[0], q, fold) && Governs(cards, cards[1], q, fold)
  {
    var cards := [Card(1, 0, DayDraft(0, 10, None).(vendor := "a")), Card(2, 0, DayDraft(0, 10, None).(vendor := "A"))];
    var q := Query(fold("a"), fold("m"), Input, Instant(5, 30));
    assert Drafts(cards) == [cards[0].draft, cards[1].draft];
    assert cards[0].draft.vendor[0] != cards[1].draft.vendor[0];
  }
}
