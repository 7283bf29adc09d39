/** The rate book: schedules, effective dates, and the ambiguity check an imported book must pass. */
module RateBook {
  import opened Common

  datatype TokenClass = Input | Output | CacheRead | CacheWrite5m | CacheWrite1h

  datatype Basis = PerMillionTokens | PercentOfWindowPerMillionTokens

  datatype QuotaWindow = FiveHour | SevenDay

  /** A weekly time-of-day window: bit 0 of `days` is Monday; minutes are half-open. */
  datatype Schedule = Schedule(days: bv8, startMinutes: nat, endMinutes: nat)

  /** A card as the book states it. Dates are day numbers. */
  datatype Draft = Draft(vendor: string, model: string, tokenClass: TokenClass, basis: Basis,
                         window: Option<QuotaWindow>, start: int, end: Option<int>,
                         schedule: Option<Schedule>)

  // ---------------------------------------------------------------- schedules

  const MINUTES_PER_DAY := 24 * 60

  predicate HasDay(days: bv8, weekday: nat)
    requires 1 <= weekday <= 7
  {
    (days >> (weekday - 1)) & 1 == 1
  }

  predicate Contains(s: Schedule, weekday: nat, minute: nat) {
    1 <= weekday <= 7 && HasDay(s.days, weekday) && s.startMinutes <= minute < s.endMinutes
  }

  predicate Overlaps(a: Schedule, b: Schedule) {
    a.days & b.days != 0 && a.startMinutes < b.endMinutes && b.startMinutes < a.endMinutes
  }

  predicate ValidSchedule(s: Schedule) {
    s.days < 128 && s.startMinutes < s.endMinutes <= MINUTES_PER_DAY
  }

  lemma OneDay(added: nat, weekday: nat)
    requires 1 <= added <= 7 && 1 <= weekday <= 7
    ensures (1 as bv8) << (added - 1) < 128
    ensures HasDay((1 as bv8) << (added - 1), weekday) <==> weekday == added
  {
    var day := (1 as bv8) << (added - 1);
    assert day == 1 || day == 2 || day == 4 || day == 8 || day == 16 || day == 32 || day == 64;
  }

  lemma AddingADay(days: bv8, added: nat, weekday: nat)
    requires 1 <= added <= 7 && 1 <= weekday <= 7 && days < 128
    ensures (days | ((1 as bv8) << (added - 1))) < 128
    ensures HasDay(days | ((1 as bv8) << (added - 1)), weekday) <==> HasDay(days, weekday) || weekday == added
  {
    OneDay(added, weekday);
    var day := (1 as bv8) << (added - 1);
    assert HasDay(days | day, weekday) <==> HasDay(days, weekday) || HasDay(day, weekday);
  }

  /** A schedule from ISO weekdays and a minute window; it contains exactly the named days. */
  method NewSchedule(daysIso: seq<nat>, startMinutes: nat, endMinutes: nat) returns (s: Option<Schedule>)
    ensures s.None? <==> daysIso == [] || startMinutes >= endMinutes || endMinutes > MINUTES_PER_DAY
                         || exists d :: d in daysIso && !(1 <= d <= 7)
    ensures s.Some? ==> ValidSchedule(s.value)
    ensures s.Some? ==> forall weekday: nat, minute: nat :: Contains(s.value, weekday, minute)
                          <==> weekday in daysIso && startMinutes <= minute < endMinutes
  {
    if daysIso == [] || startMinutes >= endMinutes || endMinutes > MINUTES_PER_DAY {
      return None;
    }
    var days: bv8 := 0;
    assert forall weekday :: 1 <= weekday <= 7 ==> !HasDay(days, weekday);
    for i := 0 to |daysIso|
      invariant days < 128
      invariant forall d :: d in daysIso[..i] ==> 1 <= d <= 7
      invariant forall weekday :: 1 <= weekday <= 7 ==> (HasDay(days, weekday) <==> weekday in daysIso[..i])
    {
      var day := daysIso[i];
      assert day in daysIso;
      if !(1 <= day <= 7) {
        return None;
      }
      assert daysIso[..i + 1] == daysIso[..i] + [day];
      forall weekday | 1 <= weekday <= 7 ensures
        HasDay(days | ((1 as bv8) << (day - 1)), weekday) <==> HasDay(days, weekday) || weekday == day
      {
        AddingADay(days, day, weekday);
      }
      AddingADay(days, day, 1);
      days := days | ((1 as bv8) << (day - 1));
    }
    assert daysIso[..|daysIso|] == daysIso;
    s := Some(Schedule(days, startMinutes, endMinutes));
  }

  lemma SharedDay(a: bv8, b: bv8, weekday: nat)
    requires 1 <= weekday <= 7
    ensures HasDay(a & b, weekday) <==> HasDay(a, weekday) && HasDay(b, weekday)
  {
  }

  lemma SomeDay(days: bv8)
    requires 0 < days < 128
    ensures exists d :: 1 <= d <= 7 && HasDay(days, d)
  {
    assert HasDay(days, 1) || HasDay(days, 2) || HasDay(days, 3) || HasDay(days, 4)
        || HasDay(days, 5) || HasDay(days, 6) || HasDay(days, 7);
  }

  lemma NoDays()
    ensures forall weekday :: 1 <= weekday <= 7 ==> !HasDay(0, weekday)
  {
  }

  lemma CommonDay(a: bv8, b: bv8)
    requires a < 128 && b < 128
    ensures a & b != 0 <==> exists d :: 1 <= d <= 7 && HasDay(a, d) && HasDay(b, d)
  {
    hide HasDay;
    var both := a & b;
    forall d: nat | 1 <= d <= 7 ensures HasDay(both, d) <==> HasDay(a, d) && HasDay(b, d) {
      SharedDay(a, b, d);
    }
    NoDays();
    if both != 0 {
      SomeDay(both);
    } else {
      assert forall d :: 1 <= d <= 7 ==> !HasDay(both, d);
    }
  }

  /** Two schedules overlap exactly when some weekday and minute lies in both. */
  lemma OverlapIsCommonMinute(a: Schedule, b: Schedule)
    requires ValidSchedule(a) && ValidSchedule(b)
    ensures Overlaps(a, b) <==>
      exists weekday: nat, minute: nat :: Contains(a, weekday, minute) && Contains(b, weekday, minute)
  {
    hide HasDay;
    CommonDay(a.days, b.days);
    if Overlaps(a, b) {
      var d :| 1 <= d <= 7 && HasDay(a.days, d) && HasDay(b.days, d);
      var minute := if a.startMinutes < b.startMinutes then b.startMinutes else a.startMinutes;
      assert Contains(a, d, minute) && Contains(b, d, minute);
    }
  }

  // ---------------------------------------------------------------- effective dates

  /** The book's reading of a card's dates: the end is exclusive. */
  predicate Effective(d: Draft, date: int) {
    d.start <= date && (d.end.None? || date < d.end.value)
  }

  predicate EffectiveOverlap(a: Draft, b: Draft) {
    && (b.end.None? || a.start < b.end.value)
    && (a.end.None? || b.start < a.end.value)
  }

  predicate NonEmpty(d: Draft) {
    d.end.None? || d.start < d.end.value
  }

  /** The interval test and two intervals that are not empty are what a common date takes. */
  lemma OverlapIsCommonDate(a: Draft, b: Draft)
    ensures (exists date :: Effective(a, date) && Effective(b, date))
       <==> EffectiveOverlap(a, b) && NonEmpty(a) && NonEmpty(b)
  {
    if EffectiveOverlap(a, b) && NonEmpty(a) && NonEmpty(b) {
      var date := if a.start < b.start then b.start else a.start;
      assert Effective(a, date) && Effective(b, date);
    }
  }

  // ---------------------------------------------------------------- the consistency check

  predicate SameKey(a: Draft, b: Draft) {
    && a.vendor == b.vendor && a.model == b.model && a.tokenClass == b.tokenClass
    && a.basis == b.basis && a.window == b.window
  }

  predicate SchedulesConflict(a: Option<Schedule>, b: Option<Schedule>) {
    match (a, b)
    case (None, None) => true
    case (Some(first), Some(second)) => Overlaps(first, second)
    case _ => false
  }

  predicate Conflicts(a: Draft, b: Draft) {
    SameKey(a, b) && EffectiveOverlap(a, b) && SchedulesConflict(a.schedule, b.schedule)
  }

  /** Only cards that agree in all but their dates and hours conflict, and of those the ones whose
      dates and hours meet. */
  lemma ConflictsExactlyWhen(a: Draft, b: Draft)
    ensures Conflicts(a, b) <==>
      && a.(start := b.start, end := b.end, schedule := b.schedule) == b
      && EffectiveOverlap(a, b) && SchedulesConflict(a.schedule, b.schedule)
  {
  }

  datatype Verdict = Accepted | Refused(later: nat, earlier: nat)

  ghost predicate Consistent(cards: seq<Draft>) {
    forall i, j :: 0 <= j < i < |cards| ==> !Conflicts(cards[i], cards[j])
  }

  /** Compares every card with every earlier one and refuses at the first conflict. */
  method CheckConsistency(cards: seq<Draft>) returns (verdict: Verdict)
    ensures verdict.Accepted? <==> Consistent(cards)
    ensures verdict.Refused? ==>
      && verdict.earlier < verdict.later < |cards|
      && Conflicts(cards[verdict.later], cards[verdict.earlier])
      && Consistent(cards[..verdict.later])
      && forall j :: 0 <= j < verdict.earlier ==> !Conflicts(cards[verdict.later], cards[j])
  {
    for later := 0 to |cards|
      invariant forall i, j :: 0 <= j < i < later ==> !Conflicts(cards[i], cards[j])
    {
      var card := cards[later];
      for earlier := 0 to later
        invariant forall j :: 0 <= j < earlier ==> !Conflicts(card, cards[j])
      {
        var other := cards[earlier];
        if card.vendor != other.vendor || card.model != other.model || card.tokenClass != other.tokenClass {
          continue;
        }
        if card.basis != other.basis || card.window != other.window {
          continue;
        }
        if !EffectiveOverlap(card, other) {
          continue;
        }
        if SchedulesConflict(card.schedule, other.schedule) {
          return Refused(later, earlier);
        }
      }
    }
    verdict := Accepted;
  }

  lemma ConflictIsSymmetric(a: Draft, b: Draft)
    ensures Conflicts(a, b) == Conflicts(b, a)
  {
    if a.schedule.Some? && b.schedule.Some? {
      assert a.schedule.value.days & b.schedule.value.days == b.schedule.value.days & a.schedule.value.days;
    }
  }

  lemma {:induction false} TwiceIn(cards: seq<Draft>, x: Draft)
    ensures multiset(cards)[x] >= 2 <==> exists i, j :: 0 <= j < i < |cards| && cards[i] == x && cards[j] == x
  {
    if cards != [] {
      var n := |cards| - 1;
      var front := cards[..n];
      TwiceIn(front, x);
      assert cards == front + [cards[n]];
      if cards[n] == x && multiset(cards)[x] >= 2 {
        assert x in front;
        var j :| 0 <= j < n && front[j] == x;
        assert cards[j] == x;
      }
      if multiset(front)[x] >= 2 {
        var i, j :| 0 <= j < i < n && front[i] == x && front[j] == x;
        assert cards[i] == x && cards[j] == x;
      }
      if i, j :| 0 <= j < i < |cards| && cards[i] == x && cards[j] == x {
        assert front[j] == x;
        if i < n { assert front[i] == x; }
      }
    }
  }

  /** Acceptance said of the cards as a bag, without positions. */
  ghost predicate ConsistentBag(bag: multiset<Draft>) {
    && (forall x, y :: x in bag && y in bag && x != y ==> !Conflicts(x, y))
    && (forall x :: bag[x] >= 2 ==> !Conflicts(x, x))
  }

  lemma ConsistencyIsOfTheBag(cards: seq<Draft>)
    ensures Consistent(cards) <==> ConsistentBag(multiset(cards))
  {
    hide Conflicts;
    if Consistent(cards) {
      forall x, y | x in cards && y in cards && x != y ensures !Conflicts(x, y) {
        var i :| 0 <= i < |cards| && cards[i] == x;
        var j :| 0 <= j < |cards| && cards[j] == y;
        ConflictIsSymmetric(x, y);
        assert i != j;
      }
      forall x | multiset(cards)[x] >= 2 ensures !Conflicts(x, x) {
        TwiceIn(cards, x);
      }
    }
    if ConsistentBag(multiset(cards)) {
      forall i, j | 0 <= j < i < |cards| ensures !Conflicts(cards[i], cards[j]) {
        assert cards[i] in multiset(cards) && cards[j] in multiset(cards);
        TwiceIn(cards, cards[i]);
      }
    }
  }

  /** The verdict does not depend on the order of the cards in the file. */
  lemma VerdictIgnoresOrder(a: seq<Draft>, b: seq<Draft>)
    requires multiset(a) == multiset(b)
    ensures Consistent(a) <==> Consistent(b)
  {
    ConsistencyIsOfTheBag(a);
    ConsistencyIsOfTheBag(b);
  }

  // ---------------------------------------------------------------- what acceptance promises

  /** A date and a minute of it; the weekday follows from the date. */
  datatype Instant = Instant(date: int, minute: nat)

  /** The ISO weekday of a day number; day zero was a Thursday. */
  function WeekdayOf(date: int): (weekday: nat)
    ensures 1 <= weekday <= 7
  {
    (date + 3) % 7 + 1
  }

  /** The card states a price for the instant, by the book's own reading. */
  predicate Prices(d: Draft, at: Instant) {
    Effective(d, at.date) && (d.schedule.None? || Contains(d.schedule.value, WeekdayOf(at.date), at.minute))
  }

  predicate ValidSchedules(cards: seq<Draft>) {
    forall i :: 0 <= i < |cards| && cards[i].schedule.Some? ==> ValidSchedule(cards[i].schedule.value)
  }

  /** In an accepted book at most one unscheduled and at most one scheduled card of a key
      price any instant. */
  lemma AcceptedBookIsUnambiguous(cards: seq<Draft>, at: Instant, i: nat, j: nat)
    requires Consistent(cards) && ValidSchedules(cards)
    requires i < |cards| && j < |cards| && SameKey(cards[i], cards[j])
    requires Prices(cards[i], at) && Prices(cards[j], at)
    requires cards[i].schedule.Some? == cards[j].schedule.Some?
    ensures i == j
  {
    var a, b := cards[i], cards[j];
    OverlapIsCommonDate(a, b);
    if a.schedule.Some? {
      OverlapIsCommonMinute(a.schedule.value, b.schedule.value);
    }
    ConflictIsSymmetric(a, b);
    assert Conflicts(a, b);
  }

  /** A pair of cards with dates is refused exactly when they share a key, a date, and either
      no schedule or a weekday minute. */
  lemma RefusalMeansSharing(a: Draft, b: Draft)
    requires NonEmpty(a) && NonEmpty(b) && ValidSchedules([a, b])
    ensures Conflicts(a, b) <==>
      && SameKey(a, b)
      && (exists date :: Effective(a, date) && Effective(b, date))
      && ((a.schedule.None? && b.schedule.None?)
          || (a.schedule.Some? && b.schedule.Some?
              && exists weekday: nat, minute: nat ::
                   Contains(a.schedule.value, weekday, minute) && Contains(b.schedule.value, weekday, minute)))
  {
    assert [a, b][0] == a && [a, b][1] == b;
    OverlapIsCommonDate(a, b);
    if a.schedule.Some? && b.schedule.Some? {
      OverlapIsCommonMinute(a.schedule.value, b.schedule.value);
    }
    hide Contains, Effective, Overlaps, EffectiveOverlap;
  }

  // ---------------------------------------------------------------- cards that share an instant

  predicate OnDay(d: Draft, date: int) {
    Effective(d, date) && (d.schedule.None? || HasDay(d.schedule.value.days, WeekdayOf(date)))
  }

  /** Both are in force on one of the first seven days on which both have begun. */
  predicate Meet(a: Draft, b: Draft) {
    exists offset :: 0 <= offset < 7 && MeetAfter(a, b, offset)
  }

  predicate MeetAfter(a: Draft, b: Draft, offset: nat) {
    OnDay(a, Max(a.start, b.start) + offset) && OnDay(b, Max(a.start, b.start) + offset)
  }

  /** The conflict, and a date on which it comes about. */
  predicate Clash(a: Draft, b: Draft) {
    Conflicts(a, b) && Meet(a, b)
  }

  lemma {:induction false} WeekLater(date: int, weeks: nat)
    ensures WeekdayOf(date + 7 * weeks) == WeekdayOf(date)
  {
    if weeks > 0 {
      WeekLater(date, weeks - 1);
      assert WeekdayOf(date + 7 * (weeks - 1) + 7) == WeekdayOf(date + 7 * (weeks - 1));
    }
  }

  /** Cards on the same footing that are both in force on some date are so within a week. */
  lemma MeetWithinAWeek(a: Draft, b: Draft, date: int)
    requires OnDay(a, date) && OnDay(b, date)
    ensures Meet(a, b)
  {
    var from := Max(a.start, b.start);
    var offset := (date - from) % 7;
    WeekLater(from + offset, (date - from) / 7);
    assert from + offset + 7 * ((date - from) / 7) == date;
    hide HasDay, WeekdayOf;
    assert MeetAfter(a, b, offset);
  }

  /** Two cards of one key, both scheduled or both not, state a price for one instant exactly
      when they conflict and meet on one of seven dates. */
  lemma ShareAnInstantExactlyWhen(a: Draft, b: Draft)
    requires ValidSchedules([a, b]) && SameKey(a, b) && a.schedule.Some? == b.schedule.Some?
    ensures (exists at :: Prices(a, at) && Prices(b, at)) <==> Clash(a, b)
  {
    assert [a, b][0] == a && [a, b][1] == b;
    hide HasDay, WeekdayOf;
    if at :| Prices(a, at) && Prices(b, at) {
      MeetWithinAWeek(a, b, at.date);
      if a.schedule.Some? {
        OverlapIsCommonMinute(a.schedule.value, b.schedule.value);
        assert Contains(a.schedule.value, WeekdayOf(at.date), at.minute);
        assert Contains(b.schedule.value, WeekdayOf(at.date), at.minute);
      }
    }
    if Clash(a, b) {
      var offset :| 0 <= offset < 7 && MeetAfter(a, b, offset);
      var minute := if a.schedule.Some? then Max(a.schedule.value.startMinutes, b.schedule.value.startMinutes) else 0;
      var at := Instant(Max(a.start, b.start) + offset, minute);
      assert Prices(a, at) && Prices(b, at);
    }
  }

  /** The check refuses more than it must: it asks for a common date and a common weekday, not
      for a common date of that weekday. Both cards price something, never the same instant. */
  lemma ConservativeRefusal()
    ensures exists a, b ::
      && ValidSchedules([a, b]) && Conflicts(a, b)
      && (exists at :: Prices(a, at)) && (exists at :: Prices(b, at))
      && forall at :: !(Prices(a, at) && Prices(b, at))
  {
    var monday, mondayAndThursday: bv8 := 1, 9;
    var a := Draft("v", "m", Input, PerMillionTokens, None, 0, Some(8), Some(Schedule(monday, 0, 60)));
    var b := Draft("v", "m", Input, PerMillionTokens, None, 0, Some(1), Some(Schedule(mondayAndThursday, 0, 60)));
    assert HasDay(monday, 1) && !HasDay(monday, 4) && HasDay(mondayAndThursday, 4);
    assert WeekdayOf(0) == 4 && WeekdayOf(4) == 1;
    assert Prices(a, Instant(4, 0)) && Prices(b, Instant(0, 0));
    assert [a, b][0] == a && [a, b][1] == b;
    assert ValidSchedules([a, b]) && Conflicts(a, b);
    forall at ensures !(Prices(a, at) && Prices(b, at)) {
      assert Effective(b, at.date) ==> at.date == 0;
    }
  }

  /** A card whose interval is empty prices nothing, yet can refuse a book. */
  lemma EmptyIntervalRefuses()
    ensures exists a, b :: Conflicts(a, b) && forall date :: !Effective(a, date)
  {
    var b := Draft("v", "m", Input, PerMillionTokens, None, 0, Some(10), None);
    var a := b.(start := 5, end := Some(5));
    assert Conflicts(a, b) && forall date :: !Effective(a, date);
  }
}
