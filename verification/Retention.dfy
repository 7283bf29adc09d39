/**
 Tiered backup retention: which archives a prune keeps, and why pruning again keeps the same.
 A destination root is a map from archive basename to manifest.
 */
module Retention {
  import opened Common
  import opened Decimals
  import opened Orders

  datatype Manifest = Manifest(createdAt: int, generation: nat, verified: bool)

  datatype Entry = Entry(name: string, createdAt: int, generation: nat, verified: bool)

  type Archives = map<string, Manifest>

  function EntryOf(name: string, m: Manifest): Entry {
    Entry(name, m.createdAt, m.generation, m.verified)
  }

  datatype Keep = Keep(daily: nat, weekly: nat, monthly: nat, yearly: nat)

  /** The calendar month and year an instant falls in, as texts. */
  datatype Calendar = Calendar(month: int -> string, year: int -> string)

  const NANOS_PER_DAY := 86_400_000_000_000

  function DayOf(createdAt: int): int {
    createdAt / NANOS_PER_DAY
  }

  function DayPeriod(createdAt: int): string {
    SignedDecimal(DayOf(createdAt))
  }

  function MondayOf(at: int): int {
    DayOf(at) - (DayOf(at) + 3) % 7
  }

  /** The week, named by its Monday. */
  function WeekPeriod(createdAt: int): string {
    SignedDecimal(MondayOf(createdAt))
  }

  const DAY: int := 24 * 60 * 60 * 1_000_000_000

  lemma SignedDecimalInjective(m: int, n: int)
    requires SignedDecimal(m) == SignedDecimal(n)
    ensures m == n
  {
    DecimalRoundTrip(if m < 0 then -m else m);
    DecimalRoundTrip(if n < 0 then -n else n);
    hide Decimal, DecimalValue;
    if m < 0 {
      assert SignedDecimal(m)[0] == '-' && SignedDecimal(m)[1..] == Decimal(-m);
    }
    if n < 0 {
      assert SignedDecimal(n)[0] == '-' && SignedDecimal(n)[1..] == Decimal(-n);
    }
  }

  lemma WholeDays(at: int, day: int)
    ensures DayOf(at) == day <==> day * DAY <= at < (day + 1) * DAY
  {
  }

  /** Two instants are in one period exactly when they are on one UTC day. */
  lemma SameDayExactlyWhen(a: int, b: int)
    ensures DayPeriod(a) == DayPeriod(b)
      <==> exists day: int :: day * DAY <= a < (day + 1) * DAY && day * DAY <= b < (day + 1) * DAY
  {
    if DayPeriod(a) == DayPeriod(b) {
      SignedDecimalInjective(DayOf(a), DayOf(b));
      WholeDays(a, DayOf(a));
      WholeDays(b, DayOf(a));
    }
    if day: int :| day * DAY <= a < (day + 1) * DAY && day * DAY <= b < (day + 1) * DAY {
      WholeDays(a, day);
      WholeDays(b, day);
    }
  }

  /** Day 4 is the first Monday. */
  ghost predicate InWeek(at: int, week: int) {
    (4 + 7 * week) * DAY <= at < (4 + 7 * (week + 1)) * DAY
  }

  lemma WeekOfMonday(at: int, week: int)
    ensures InWeek(at, week) <==> MondayOf(at) == 4 + 7 * week
  {
    var day := DayOf(at);
    WholeDays(at, day);
    assert day * DAY <= at < (day + 1) * DAY;
    assert InWeek(at, week) <==> 4 + 7 * week <= day < 4 + 7 * (week + 1);
    assert day + 3 == 7 * ((day + 3) / 7) + (day + 3) % 7;
  }

  /** Two instants are in one period exactly when they are in one week from Monday. */
  lemma SameWeekExactlyWhen(a: int, b: int)
    ensures WeekPeriod(a) == WeekPeriod(b) <==> exists week :: InWeek(a, week) && InWeek(b, week)
  {
    hide SignedDecimal, InWeek, DayOf;
    if WeekPeriod(a) == WeekPeriod(b) {
      SignedDecimalInjective(MondayOf(a), MondayOf(b));
      var week := (MondayOf(a) - 4) / 7;
      assert MondayOf(a) == 4 + 7 * week;
      WeekOfMonday(a, week);
      WeekOfMonday(b, week);
    }
    if week :| InWeek(a, week) && InWeek(b, week) {
      WeekOfMonday(a, week);
      WeekOfMonday(b, week);
    }
  }

  // ---------------------------------------------------------------- age

  /** Later creation first, then higher generation, then greater name. */
  predicate Newer(a: Entry, b: Entry) {
    || a.createdAt > b.createdAt
    || (a.createdAt == b.createdAt && a.generation > b.generation)
    || (a.createdAt == b.createdAt && a.generation == b.generation && TextLess(b.name, a.name))
  }

  lemma NewerIsWeakOrder()
    ensures StrictWeakOrder(Newer)
  {
    TextLessIsTotal();
  }

  /** Entries with different names are never equally old. */
  lemma NewerIsTotal(a: Entry, b: Entry)
    ensures a.name != b.name ==> Newer(a, b) || Newer(b, a)
    ensures !(Newer(a, b) && Newer(b, a))
  {
    TextLessIsTotal();
  }

  /** Created no earlier; of one instant, from no lower generation; of one generation, under no
      lesser name. */
  ghost predicate NoEarlier(a: Entry, b: Entry) {
    && a.createdAt >= b.createdAt
    && (a.createdAt == b.createdAt ==> a.generation >= b.generation)
    && (a.createdAt == b.createdAt && a.generation == b.generation ==> !TextLess(a.name, b.name))
  }

  lemma NewerIsNoEarlier(a: Entry, b: Entry)
    ensures Newer(a, b) ==> NoEarlier(a, b)
    ensures a.createdAt > b.createdAt ==> Newer(a, b) && !Newer(b, a)
  {
    TextLessIsTotal();
  }

  // ---------------------------------------------------------------- what one bucket keeps

  /** The periods of the verified archives newer than `e`. */
  ghost function NewerPeriods(archives: Archives, period: int -> string, e: Entry): set<string> {
    set n | n in archives && archives[n].verified && Newer(EntryOf(n, archives[n]), e) :: period(archives[n].createdAt)
  }

  /** A bucket keeps the newest verified archive of each of its `keep` most recent periods. */
  ghost predicate BucketKeeps(archives: Archives, keep: nat, period: int -> string, e: Entry) {
    && e.verified
    && period(e.createdAt) !in NewerPeriods(archives, period, e)
    && |NewerPeriods(archives, period, e)| < keep
  }

  function PeriodsOf(entries: seq<Entry>, period: int -> string): set<string> {
    set e | e in entries :: period(e.createdAt)
  }

  /** The bucket's names, reading the entries newest first. */
  function BucketNames(entries: seq<Entry>, keep: nat, period: int -> string): set<string> {
    if entries == [] then {}
    else
      var n := |entries| - 1;
      var seen := PeriodsOf(entries[..n], period);
      BucketNames(entries[..n], keep, period)
      + (if |seen| < keep && period(entries[n].createdAt) !in seen then {entries[n].name} else {})
  }

  ghost predicate DistinctNames(entries: seq<Entry>) {
    forall i, j :: 0 <= i < j < |entries| ==> entries[i].name != entries[j].name
  }

  lemma PeriodsPush(entries: seq<Entry>, e: Entry, period: int -> string)
    ensures PeriodsOf(entries + [e], period) == PeriodsOf(entries, period) + {period(e.createdAt)}
  {
    assert forall x :: x in entries + [e] <==> x in entries || x == e;
  }

  lemma BucketPush(front: seq<Entry>, e: Entry, keep: nat, period: int -> string)
    ensures
      var seen := PeriodsOf(front, period);
      BucketNames(front + [e], keep, period) ==
        BucketNames(front, keep, period) + (if |seen| < keep && period(e.createdAt) !in seen then {e.name} else {})
  {
    assert (front + [e])[..|front|] == front;
  }

  lemma {:induction false} BucketStopsWhenFull(entries: seq<Entry>, keep: nat, period: int -> string, k: nat)
    requires k <= |entries| && |PeriodsOf(entries[..k], period)| >= keep
    ensures BucketNames(entries, keep, period) == BucketNames(entries[..k], keep, period)
    ensures |PeriodsOf(entries, period)| >= keep
    decreases |entries|
  {
    hide *;
    if k == |entries| {
      assert entries[..k] == entries;
    } else {
      var n := |entries| - 1;
      assert entries[..n][..k] == entries[..k];
      BucketStopsWhenFull(entries[..n], keep, period, k);
      assert entries[..n] + [entries[n]] == entries;
      BucketPush(entries[..n], entries[n], keep, period);
      PeriodsPush(entries[..n], entries[n], period);
      SubsetIsSmaller(PeriodsOf(entries[..n], period), PeriodsOf(entries, period));
    }
  }

  method RetainBucket(verifiedNewestFirst: seq<Entry>, keep: nat, period: int -> string, retained: set<string>)
    returns (retained': set<string>)
    ensures retained' == retained + BucketNames(verifiedNewestFirst, keep, period)
  {
    retained' := retained;
    if keep == 0 {
      BucketStopsWhenFull(verifiedNewestFirst, 0, period, 0);
      return;
    }
    var seen: set<string> := {};
    for i := 0 to |verifiedNewestFirst|
      invariant seen == PeriodsOf(verifiedNewestFirst[..i], period)
      invariant retained' == retained + BucketNames(verifiedNewestFirst[..i], keep, period)
    {
      if |seen| >= keep {
        BucketStopsWhenFull(verifiedNewestFirst, keep, period, i);
        return;
      }
      var entry := verifiedNewestFirst[i];
      assert verifiedNewestFirst[..i + 1] == verifiedNewestFirst[..i] + [entry];
      PeriodsPush(verifiedNewestFirst[..i], entry, period);
      var key := period(entry.createdAt);
      if key !in seen {
        retained' := retained' + {entry.name};
      }
      seen := seen + {key};
    }
    assert verifiedNewestFirst[..|verifiedNewestFirst|] == verifiedNewestFirst;
  }

  function Names(entries: seq<Entry>): set<string> {
    set e | e in entries :: e.name
  }

  lemma NamesPush(front: seq<Entry>, e: Entry)
    ensures Names(front + [e]) == Names(front) + {e.name}
    ensures DistinctNames(front + [e]) ==> DistinctNames(front) && e.name !in Names(front)
  {
    var entries := front + [e];
    assert forall x :: x in entries <==> x in front || x == e;
    if DistinctNames(entries) {
      forall i, j | 0 <= i < j < |front| ensures front[i].name != front[j].name {
        assert entries[i].name != entries[j].name;
      }
      forall i | 0 <= i < |front| ensures front[i].name != e.name {
        assert entries[i].name != entries[|front|].name;
      }
    }
  }

  lemma AddOne(s: set<string>, x: string)
    ensures |s + {x}| == |s| + if x in s then 0 else 1
  {
    if x in s {
      assert s + {x} == s;
    }
  }

  lemma EmptyBucket(keep: nat, period: int -> string)
    ensures BucketNames([], keep, period) == {} && PeriodsOf([], period) == {} && Names([]) == {}
  {
  }

  /** A bucket keeps one archive a period, and as many as it may. */
  lemma {:induction false} BucketSize(entries: seq<Entry>, keep: nat, period: int -> string)
    requires DistinctNames(entries)
    ensures BucketNames(entries, keep, period) <= Names(entries)
    ensures |BucketNames(entries, keep, period)| ==
      if |PeriodsOf(entries, period)| < keep then |PeriodsOf(entries, period)| else keep
  {
    if entries == [] {
      EmptyBucket(keep, period);
    } else {
      var n := |entries| - 1;
      var front, e := entries[..n], entries[n];
      assert front + [e] == entries;
      NamesPush(front, e);
      hide *;
      BucketSize(front, keep, period);
      BucketPush(front, e, keep, period);
      PeriodsPush(front, e, period);
      AddOne(PeriodsOf(front, period), period(e.createdAt));
      AddOne(BucketNames(front, keep, period), e.name);
    }
  }

  // ---------------------------------------------------------------- selection

  /** The entries of a root. */
  ghost predicate Lists(entries: seq<Entry>, archives: Archives) {
    && DistinctNames(entries)
    && (forall e :: e in entries <==> e.name in archives && EntryOf(e.name, archives[e.name]) == e)
  }

  /** The pointer's archive when it is verified, otherwise the newest verified archive. */
  function NewestVerified(entries: seq<Entry>, pointer: Option<string>): Option<string> {
    if pointer.Some? && exists i :: 0 <= i < |entries| && entries[i].name == pointer.value && entries[i].verified
    then pointer
    else
      match MaxVerified(entries)
      case Some(e) => Some(e.name)
      case None => None
  }

  function MaxVerified(entries: seq<Entry>): Option<Entry> {
    if entries == [] then None
    else
      var last := entries[|entries| - 1];
      match MaxVerified(entries[..|entries| - 1])
      case None => if last.verified then Some(last) else None
      case Some(e) => if last.verified && !Newer(e, last) then Some(last) else Some(e)
  }

  /** Which verified archive a prune must never delete. */
  ghost predicate IsNewestVerified(archives: Archives, pointer: Option<string>, newest: Option<string>) {
    if pointer.Some? && pointer.value in archives && archives[pointer.value].verified then
      newest == pointer
    else
      match newest
      case None => forall n :: n in archives ==> !archives[n].verified
      case Some(name) =>
        && name in archives && archives[name].verified
        && forall n :: n in archives && archives[n].verified && n != name ==>
             Newer(EntryOf(name, archives[name]), EntryOf(n, archives[n]))
  }

  lemma {:induction false} MaxVerifiedIsNewest(entries: seq<Entry>)
    requires DistinctNames(entries)
    ensures match MaxVerified(entries)
            case None => forall e :: e in entries ==> !e.verified
            case Some(m) =>
              m in entries && m.verified && forall e :: e in entries && e.verified && e != m ==> Newer(m, e)
  {
    NewerIsWeakOrder();
    if entries != [] {
      var n := |entries| - 1;
      assert entries[..n] + [entries[n]] == entries;
      NamesPush(entries[..n], entries[n]);
      MaxVerifiedIsNewest(entries[..n]);
      if MaxVerified(entries[..n]).Some? {
        NewerIsTotal(MaxVerified(entries[..n]).value, entries[n]);
      }
      hide Newer, TextLess;
    }
  }

  lemma NewestVerifiedIsNewest(entries: seq<Entry>, archives: Archives, pointer: Option<string>)
    requires Lists(entries, archives)
    ensures IsNewestVerified(archives, pointer, NewestVerified(entries, pointer))
  {
    MaxVerifiedIsNewest(entries);
    if pointer.Some? && pointer.value in archives {
      assert EntryOf(pointer.value, archives[pointer.value]) in entries;
    }
    forall n | n in archives && archives[n].verified ensures EntryOf(n, archives[n]) in entries {
    }
    hide Newer, MaxVerified;
  }

  lemma NewestIsUnique(archives: Archives, pointer: Option<string>, a: Option<string>, b: Option<string>)
    requires IsNewestVerified(archives, pointer, a) && IsNewestVerified(archives, pointer, b)
    ensures a == b
  {
    if a.Some? && b.Some? && a.value in archives && b.value in archives {
      NewerIsTotal(EntryOf(a.value, archives[a.value]), EntryOf(b.value, archives[b.value]));
    }
  }

  /** What the selection keeps: the newest verified archive, and whatever some bucket keeps.
      Unverified archives are not selected; a prune passes them over. */
  ghost predicate Retained(archives: Archives, keep: Keep, calendar: Calendar, newest: Option<string>, e: Entry) {
    || newest == Some(e.name)
    || BucketKeeps(archives, keep.daily, DayPeriod, e)
    || BucketKeeps(archives, keep.weekly, WeekPeriod, e)
    || BucketKeeps(archives, keep.monthly, calendar.month, e)
    || BucketKeeps(archives, keep.yearly, calendar.year, e)
  }

  ghost predicate InPeriod(archives: Archives, period: int -> string, name: string, e: Entry) {
    name in archives && archives[name].verified && period(archives[name].createdAt) == period(e.createdAt)
  }

  /** A bucket keeps no archive that is earlier than another verified one of its period. */
  lemma BucketKeepsTheLatest(archives: Archives, keep: nat, period: int -> string, e: Entry)
    requires BucketKeeps(archives, keep, period, e)
    ensures e.verified && keep > 0
    ensures forall n :: InPeriod(archives, period, n, e) && n != e.name ==> NoEarlier(e, EntryOf(n, archives[n]))
  {
    forall n | InPeriod(archives, period, n, e) && n != e.name ensures NoEarlier(e, EntryOf(n, archives[n]))
    {
      NewerIsTotal(e, EntryOf(n, archives[n]));
      NewerIsNoEarlier(e, EntryOf(n, archives[n]));
    }
  }

  ghost predicate DistinctInstants(archives: Archives) {
    forall m, n :: m in archives && n in archives && archives[m].verified && archives[n].verified && m != n
                   ==> archives[m].createdAt != archives[n].createdAt
  }

  /** The periods in which some verified archive was created after the instant. */
  ghost function PeriodsAfter(archives: Archives, period: int -> string, at: int): set<string> {
    set n | n in archives && archives[n].verified && archives[n].createdAt > at :: period(archives[n].createdAt)
  }

  /** Of archives created at different instants a bucket keeps exactly the latest of each of the
      latest periods. */
  lemma BucketByInstantExactlyWhen(archives: Archives, keep: nat, period: int -> string, name: string)
    requires DistinctInstants(archives) && name in archives && archives[name].verified
    ensures
      var at := archives[name].createdAt;
      BucketKeeps(archives, keep, period, EntryOf(name, archives[name])) <==>
        period(at) !in PeriodsAfter(archives, period, at) && |PeriodsAfter(archives, period, at)| < keep
  {
    var e := EntryOf(name, archives[name]);
    forall n | n in archives && archives[n].verified
      ensures Newer(EntryOf(n, archives[n]), e) <==> archives[n].createdAt > e.createdAt
    {
      NewerIsTotal(e, EntryOf(n, archives[n]));
      NewerIsNoEarlier(e, EntryOf(n, archives[n]));
      NewerIsNoEarlier(EntryOf(n, archives[n]), e);
    }
    hide Newer;
    assert NewerPeriods(archives, period, e) == PeriodsAfter(archives, period, e.createdAt);
  }

  /** Each count keeps its own period's archives, and together they keep what each would. */
  lemma EachCountKeepsItsPeriod(archives: Archives, keep: Keep, calendar: Calendar, e: Entry)
    ensures Retained(archives, Keep(keep.daily, 0, 0, 0), calendar, None, e)
      <==> BucketKeeps(archives, keep.daily, DayPeriod, e)
    ensures Retained(archives, Keep(0, keep.weekly, 0, 0), calendar, None, e)
      <==> BucketKeeps(archives, keep.weekly, WeekPeriod, e)
    ensures Retained(archives, Keep(0, 0, keep.monthly, 0), calendar, None, e)
       <==> BucketKeeps(archives, keep.monthly, calendar.month, e)
    ensures Retained(archives, Keep(0, 0, 0, keep.yearly), calendar, None, e)
       <==> BucketKeeps(archives, keep.yearly, calendar.year, e)
    ensures Retained(archives, keep, calendar, None, e) <==>
      || Retained(archives, Keep(keep.daily, 0, 0, 0), calendar, None, e)
      || Retained(archives, Keep(0, keep.weekly, 0, 0), calendar, None, e)
      || Retained(archives, Keep(0, 0, keep.monthly, 0), calendar, None, e)
      || Retained(archives, Keep(0, 0, 0, keep.yearly), calendar, None, e)
    ensures forall newest :: Retained(archives, keep, calendar, newest, e) <==>
      newest == Some(e.name) || Retained(archives, keep, calendar, None, e)
  {
    hide NewerPeriods, DayPeriod, WeekPeriod;
  }

  // ---------------------------------------------------------------- the selection is by age

  lemma {:induction false} BucketNamesByIndex(entries: seq<Entry>, keep: nat, period: int -> string, name: string)
    ensures name in BucketNames(entries, keep, period) <==>
      exists i :: 0 <= i < |entries| && entries[i].name == name && KeptAt(entries, keep, period, i)
  {
    if entries != [] {
      var n := |entries| - 1;
      BucketNamesByIndex(entries[..n], keep, period, name);
      assert entries[..n] + [entries[n]] == entries;
      BucketPush(entries[..n], entries[n], keep, period);
      forall i | 0 <= i < n ensures KeptAt(entries, keep, period, i) == KeptAt(entries[..n], keep, period, i) {
        assert entries[..n][..i] == entries[..i];
      }
      hide BucketNames, PeriodsOf;
    }
  }

  /** The `i`th entry is the first of its period and fewer than `keep` periods come before. */
  ghost predicate KeptAt(entries: seq<Entry>, keep: nat, period: int -> string, i: nat)
    requires i < |entries|
  {
    period(entries[i].createdAt) !in PeriodsOf(entries[..i], period) && |PeriodsOf(entries[..i], period)| < keep
  }

  ghost predicate ListsVerified(entries: seq<Entry>, archives: Archives) {
    && StrictlyAscending(Newer, entries)
    && (forall e :: e in entries <==>
          e.verified && e.name in archives && EntryOf(e.name, archives[e.name]) == e)
  }

  /** Newest first, the periods before an entry are those of the newer verified archives. */
  lemma PeriodsAreNewer(entries: seq<Entry>, archives: Archives, period: int -> string, i: nat)
    requires ListsVerified(entries, archives) && i < |entries|
    ensures PeriodsOf(entries[..i], period) == NewerPeriods(archives, period, entries[i])
  {
    forall p | p in PeriodsOf(entries[..i], period) ensures p in NewerPeriods(archives, period, entries[i]) {
      var e :| e in entries[..i] && period(e.createdAt) == p;
      var j :| 0 <= j < i && entries[j] == e;
      assert Newer(entries[j], entries[i]) && e in entries;
      assert e.name in archives && Newer(EntryOf(e.name, archives[e.name]), entries[i]);
    }
    forall p | p in NewerPeriods(archives, period, entries[i]) ensures p in PeriodsOf(entries[..i], period) {
      var n :| n in archives && archives[n].verified && Newer(EntryOf(n, archives[n]), entries[i])
               && period(archives[n].createdAt) == p;
      var e := EntryOf(n, archives[n]);
      assert e in entries;
      var j :| 0 <= j < |entries| && entries[j] == e;
      NewerIsTotal(entries[j], entries[i]);
      assert forall k :: i < k < |entries| ==> Newer(entries[i], entries[k]);
      assert j < i && entries[..i][j] == e;
    }
  }

  /** The loop over the sorted entries keeps exactly what the bucket should by age. */
  lemma BucketIsByAge(entries: seq<Entry>, archives: Archives, keep: nat, period: int -> string, e: Entry)
    requires ListsVerified(entries, archives) && e.name in archives && EntryOf(e.name, archives[e.name]) == e
    ensures e.name in BucketNames(entries, keep, period) <==> BucketKeeps(archives, keep, period, e)
  {
    BucketNamesByIndex(entries, keep, period, e.name);
    forall i | 0 <= i < |entries| && entries[i].name == e.name
      ensures KeptAt(entries, keep, period, i) <==> BucketKeeps(archives, keep, period, e)
    {
      PeriodsAreNewer(entries, archives, period, i);
      assert entries[i] in entries;
    }
    if e.verified {
      assert e in entries;
      var i :| 0 <= i < |entries| && entries[i] == e;
    }
    hide BucketNames, PeriodsOf, NewerPeriods, Newer;
  }

  function VerifiedOf(entries: seq<Entry>): seq<Entry> {
    if entries == [] then []
    else VerifiedOf(entries[..|entries| - 1])
         + (if entries[|entries| - 1].verified then [entries[|entries| - 1]] else [])
  }

  lemma {:induction false} VerifiedOfKeeps(entries: seq<Entry>)
    ensures forall e :: e in VerifiedOf(entries) <==> e in entries && e.verified
    ensures StrictlyAscending(Newer, entries) ==> StrictlyAscending(Newer, VerifiedOf(entries))
  {
    if entries != [] {
      VerifiedOfKeeps(entries[..|entries| - 1]);
      assert entries == entries[..|entries| - 1] + [entries[|entries| - 1]];
      hide Newer;
      if StrictlyAscending(Newer, entries) {
        var front := entries[..|entries| - 1];
        forall e | e in front ensures Newer(e, entries[|entries| - 1]) {
          var i :| 0 <= i < |front| && front[i] == e;
        }
      }
    }
  }

  lemma SortedListing(entries: seq<Entry>, archives: Archives)
    requires Lists(entries, archives)
    ensures StrictlyAscending(Newer, Sort(Newer, entries))
    ensures ListsVerified(VerifiedOf(Sort(Newer, entries)), archives)
  {
    var sorted := Sort(Newer, entries);
    NewerIsWeakOrder();
    SortSorts(Newer, entries);
    SortedStaysDistinct(entries);
    VerifiedOfKeeps(sorted);
    forall i, j | 0 <= i < j < |sorted| ensures Newer(sorted[i], sorted[j]) {
      NewerIsTotal(sorted[i], sorted[j]);
      assert !Newer(sorted[j], sorted[i]);
    }
    hide Sort, Newer;
  }

  lemma SortedStaysDistinct(entries: seq<Entry>)
    requires DistinctNames(entries)
    ensures DistinctNames(Sort(Newer, entries))
  {
    NewerIsWeakOrder();
    SortSorts(Newer, entries);
    var sorted := Sort(Newer, entries);
    hide Sort, Newer;
    forall i, j | 0 <= i < j < |sorted| ensures sorted[i].name != sorted[j].name {
      if sorted[i].name == sorted[j].name {
        assert sorted[i] in entries && sorted[j] in entries;
        CountTwice(sorted, i, j);
        CountOnce(entries, sorted[i]);
      }
    }
  }

  lemma CountTwice(s: seq<Entry>, i: nat, j: nat)
    requires i < j < |s| && s[i] == s[j]
    ensures multiset(s)[s[i]] >= 2
  {
    assert s == s[..i] + [s[i]] + s[i + 1..j] + [s[j]] + s[j + 1..];
  }

  lemma CountOnce(s: seq<Entry>, e: Entry)
    requires DistinctNames(s) && e in s
    ensures multiset(s)[e] == 1
  {
    var i :| 0 <= i < |s| && s[i] == e;
    assert s == s[..i] + [e] + s[i + 1..];
    assert e !in s[..i] && e !in s[i + 1..];
  }

  /** The selection keeps exactly the retained archives. */
  method SelectRetained(entries: seq<Entry>, keep: Keep, calendar: Calendar, newest: Option<string>,
                        ghost archives: Archives)
    returns (retained: set<string>)
    requires Lists(entries, archives)
    ensures forall e :: e in entries ==> (e.name in retained <==> Retained(archives, keep, calendar, newest, e))
  {
    var sorted := Sort(Newer, entries);
    SortedListing(entries, archives);
    retained := {};
    if newest.Some? && exists i :: 0 <= i < |entries| && entries[i].name == newest.value {
      retained := {newest.value};
    }
    var verified := VerifiedOf(sorted);
    forall e | e in entries
      ensures e.name in BucketNames(verified, keep.daily, DayPeriod)
         <==> BucketKeeps(archives, keep.daily, DayPeriod, e)
      ensures e.name in BucketNames(verified, keep.weekly, WeekPeriod)
         <==> BucketKeeps(archives, keep.weekly, WeekPeriod, e)
      ensures e.name in BucketNames(verified, keep.monthly, calendar.month)
         <==> BucketKeeps(archives, keep.monthly, calendar.month, e)
      ensures e.name in BucketNames(verified, keep.yearly, calendar.year)
         <==> BucketKeeps(archives, keep.yearly, calendar.year, e)
    {
      BucketIsByAge(verified, archives, keep.daily, DayPeriod, e);
      BucketIsByAge(verified, archives, keep.weekly, WeekPeriod, e);
      BucketIsByAge(verified, archives, keep.monthly, calendar.month, e);
      BucketIsByAge(verified, archives, keep.yearly, calendar.year, e);
    }
    hide Sort, VerifiedOf, BucketNames, BucketKeeps, DayPeriod, WeekPeriod, ListsVerified, Lists;
    retained := RetainBucket(verified, keep.daily, DayPeriod, retained);
    retained := RetainBucket(verified, keep.weekly, WeekPeriod, retained);
    retained := RetainBucket(verified, keep.monthly, calendar.month, retained);
    retained := RetainBucket(verified, keep.yearly, calendar.year, retained);
  }
}
