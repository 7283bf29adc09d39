/**
 The backup series: creating, pruning and pointing, step by step, with a crash possible between
 any two steps. The pointer write counts as one step.
 */
module BackupSeries {
  import opened Common
  import opened Orders
  import opened Retention

  // ---------------------------------------------------------------- what a prune does

  /** Some archive is verified. */
  ghost predicate HasVerified(archives: Archives) {
    exists n :: n in archives && archives[n].verified
  }

  /** The verified archives a prune deletes. */
  ghost predicate Doomed(archives: Archives, pointer: Option<string>, keep: Keep, calendar: Calendar, name: string) {
    && name in archives && archives[name].verified
    && exists newest :: IsNewestVerified(archives, pointer, newest)
                     && !Retained(archives, keep, calendar, newest, EntryOf(name, archives[name]))
  }

  ghost function DoomedSet(archives: Archives, pointer: Option<string>, keep: Keep, calendar: Calendar): set<string> {
    set n | n in archives && Doomed(archives, pointer, keep, calendar, n)
  }

  ghost function Pruned(archives: Archives, pointer: Option<string>, keep: Keep, calendar: Calendar): Archives {
    archives - DoomedSet(archives, pointer, keep, calendar)
  }

  /** The archives in some order, as the directory would list them. */
  lemma {:induction false} SomeListing(archives: Archives) returns (entries: seq<Entry>)
    ensures Lists(entries, archives)
    decreases |archives|
  {
    if archives == map[] {
      entries := [];
    } else {
      var name :| name in archives;
      var rest := archives - {name};
      var front := SomeListing(rest);
      var last := EntryOf(name, archives[name]);
      entries := front + [last];
      forall e ensures e in entries <==> e.name in archives && EntryOf(e.name, archives[e.name]) == e {
        assert e in entries <==> e in front || e == last;
      }
      forall i | 0 <= i < |front| ensures front[i].name != name {
        assert front[i] in front;
      }
    }
  }

  /** A newest verified archive exists whenever some archive is verified, and it is one. */
  lemma NewestExists(archives: Archives, pointer: Option<string>, entries: seq<Entry>)
    requires Lists(entries, archives)
    ensures IsNewestVerified(archives, pointer, NewestVerified(entries, pointer))
    ensures HasVerified(archives) <==> NewestVerified(entries, pointer).Some?
    ensures NewestVerified(entries, pointer).Some? ==>
      NewestVerified(entries, pointer).value in archives && archives[NewestVerified(entries, pointer).value].verified
  {
    NewestVerifiedIsNewest(entries, archives, pointer);
    hide NewestVerified, Newer;
  }

  /** The newest verified archive, and the pointer's archive whatever its state, are never
      doomed; nor is any unverified archive. */
  lemma NeverDoomed(archives: Archives, pointer: Option<string>, keep: Keep, calendar: Calendar, newest: Option<string>)
    requires IsNewestVerified(archives, pointer, newest)
    ensures newest.Some? ==> !Doomed(archives, pointer, keep, calendar, newest.value)
    ensures pointer.Some? ==> !Doomed(archives, pointer, keep, calendar, pointer.value)
    ensures forall n :: n in archives && !archives[n].verified ==> !Doomed(archives, pointer, keep, calendar, n)
  {
    forall other | IsNewestVerified(archives, pointer, other) ensures other == newest {
      NewestIsUnique(archives, pointer, other, newest);
    }
    hide BucketKeeps, Newer;
  }

  // ---------------------------------------------------------------- fewer archives

  lemma FewerNewerPeriods(archives: Archives, fewer: Archives, period: int -> string, e: Entry)
    requires forall n :: n in fewer ==> n in archives && archives[n] == fewer[n]
    ensures NewerPeriods(fewer, period, e) <= NewerPeriods(archives, period, e)
    ensures |NewerPeriods(fewer, period, e)| <= |NewerPeriods(archives, period, e)|
  {
    hide Newer;
    assert NewerPeriods(fewer, period, e) <= NewerPeriods(archives, period, e);
    SubsetIsSmaller(NewerPeriods(fewer, period, e), NewerPeriods(archives, period, e));
  }

  /** Deleting archives never makes a bucket give up one it kept, and a larger bucket never
      keeps less. */
  lemma RetainedStays(archives: Archives, fewer: Archives, keep: Keep, more: Keep, calendar: Calendar,
                      newest: Option<string>, e: Entry)
    requires forall n :: n in fewer ==> n in archives && archives[n] == fewer[n]
    requires keep.daily <= more.daily && keep.weekly <= more.weekly
          && keep.monthly <= more.monthly && keep.yearly <= more.yearly
    requires Retained(archives, keep, calendar, newest, e)
    ensures Retained(fewer, more, calendar, newest, e)
  {
    FewerNewerPeriods(archives, fewer, DayPeriod, e);
    FewerNewerPeriods(archives, fewer, WeekPeriod, e);
    FewerNewerPeriods(archives, fewer, calendar.month, e);
    FewerNewerPeriods(archives, fewer, calendar.year, e);
    hide NewerPeriods, DayPeriod, WeekPeriod;
  }

  lemma NewestStays(archives: Archives, fewer: Archives, pointer: Option<string>, newest: Option<string>)
    requires forall n :: n in fewer ==> n in archives && archives[n] == fewer[n]
    requires forall n :: n in archives && !archives[n].verified ==> n in fewer
    requires IsNewestVerified(archives, pointer, newest)
    requires newest.Some? ==> newest.value in fewer
    ensures IsNewestVerified(fewer, pointer, newest)
  {
    hide Newer;
  }

  // ---------------------------------------------------------------- pruning again after a crash

  /** The first archive of each of the bucket's periods is still there. */
  ghost predicate KeepsFirsts(archives: Archives, fewer: Archives, keep: nat, period: int -> string) {
    && (forall n :: n in fewer ==> n in archives && archives[n] == fewer[n])
    && (forall n :: n in archives && BucketKeeps(archives, keep, period, EntryOf(n, archives[n])) ==> n in fewer)
  }

  /** Whatever else is deleted, an entry has as many newer periods left as the bucket counts. */
  lemma {:induction false} PeriodsLeft(archives: Archives, fewer: Archives, entries: seq<Entry>, keep: nat,
                                       period: int -> string, i: nat)
    requires ListsVerified(entries, archives) && KeepsFirsts(archives, fewer, keep, period) && i < |entries|
    ensures
      var all, left := NewerPeriods(archives, period, entries[i]), NewerPeriods(fewer, period, entries[i]);
      |left| >= (if |all| < keep then |all| else keep)
    decreases i
  {
    if i > 0 {
      PeriodsLeft(archives, fewer, entries, keep, period, i - 1);
      NextPeriods(archives, entries, period, i);
      PeriodsOfNext(archives, fewer, entries, keep, period, i);
    } else {
      PeriodsAreNewer(entries, archives, period, 0);
      assert entries[..0] == [];
    }
  }

  /** From one entry to the next older one, one more period is newer. */
  lemma NextPeriods(archives: Archives, entries: seq<Entry>, period: int -> string, i: nat)
    requires ListsVerified(entries, archives) && 0 < i < |entries|
    ensures NewerPeriods(archives, period, entries[i])
         == NewerPeriods(archives, period, entries[i - 1]) + {period(entries[i - 1].createdAt)}
  {
    PeriodsAreNewer(entries, archives, period, i - 1);
    PeriodsAreNewer(entries, archives, period, i);
    assert entries[..i] == entries[..i - 1] + [entries[i - 1]];
    PeriodsPush(entries[..i - 1], entries[i - 1], period);
  }

  lemma PeriodsOfNext(archives: Archives, fewer: Archives, entries: seq<Entry>, keep: nat, period: int -> string,
                      i: nat)
    requires ListsVerified(entries, archives) && KeepsFirsts(archives, fewer, keep, period) && 0 < i < |entries|
    ensures
      var before, after := NewerPeriods(fewer, period, entries[i - 1]), NewerPeriods(fewer, period, entries[i]);
      && |before| <= |after|
      && (BucketKeeps(archives, keep, period, entries[i - 1]) ==> |before| + 1 <= |after|)
  {
    var newer, e := entries[i - 1], entries[i];
    assert newer in entries && Newer(newer, e);
    NewerIsWeakOrder();
    var before, after := NewerPeriods(fewer, period, newer), NewerPeriods(fewer, period, e);
    assert before <= after;
    SubsetIsSmaller(before, after);
    FewerNewerPeriods(archives, fewer, period, newer);
    if BucketKeeps(archives, keep, period, newer) {
      assert newer.name in fewer && period(newer.createdAt) in after;
      SubsetIsSmaller(before + {period(newer.createdAt)}, after);
    }
  }

  /** So a bucket keeps of the rest what it kept of all. */
  lemma BucketStays(archives: Archives, fewer: Archives, entries: seq<Entry>, keep: nat, period: int -> string,
                    name: string)
    requires ListsVerified(entries, archives) && KeepsFirsts(archives, fewer, keep, period)
    requires name in fewer
    ensures BucketKeeps(fewer, keep, period, EntryOf(name, archives[name]))
       <==> BucketKeeps(archives, keep, period, EntryOf(name, archives[name]))
  {
    var e := EntryOf(name, archives[name]);
    if e.verified {
      assert e in entries;
      var i :| 0 <= i < |entries| && entries[i] == e;
      PeriodsLeft(archives, fewer, entries, keep, period, i);
      FewerNewerPeriods(archives, fewer, period, e);
      hide NewerPeriods, ListsVerified, KeepsFirsts;
      SubsetOfSameSize(NewerPeriods(fewer, period, e), NewerPeriods(archives, period, e));
    }
  }

  lemma SubsetOfSameSize(a: set<string>, b: set<string>)
    requires a <= b
    ensures |a| >= |b| ==> a == b
  {
    if exists x :: x in b && x !in a {
      var x :| x in b && x !in a;
      SubsetIsSmaller(a + {x}, b);
    }
  }

  /** What is left of a prune that stopped after any of its deletions. */
  lemma LeftByPartOfAPrune(archives: Archives, pointer: Option<string>, keep: Keep, calendar: Calendar,
                           gone: set<string>, newest: Option<string>)
    requires IsNewestVerified(archives, pointer, newest)
    requires gone <= DoomedSet(archives, pointer, keep, calendar)
    ensures IsNewestVerified(archives - gone, pointer, newest)
    ensures KeepsFirsts(archives, archives - gone, keep.daily, DayPeriod)
    ensures KeepsFirsts(archives, archives - gone, keep.weekly, WeekPeriod)
    ensures KeepsFirsts(archives, archives - gone, keep.monthly, calendar.month)
    ensures KeepsFirsts(archives, archives - gone, keep.yearly, calendar.year)
  {
    NeverDoomed(archives, pointer, keep, calendar, newest);
    forall n | n in archives && Retained(archives, keep, calendar, newest, EntryOf(n, archives[n]))
      ensures n in archives - gone
    {
      DoomedByNewest(archives, pointer, keep, calendar, newest, n);
    }
    hide BucketKeeps, Doomed;
    NewestStays(archives, archives - gone, pointer, newest);
  }

  /** The selection keeps of the rest what it kept of all. */
  lemma RetainedAlike(archives: Archives, fewer: Archives, entries: seq<Entry>, keep: Keep, calendar: Calendar,
                      newest: Option<string>, name: string)
    requires ListsVerified(entries, archives) && name in fewer
    requires KeepsFirsts(archives, fewer, keep.daily, DayPeriod)
    requires KeepsFirsts(archives, fewer, keep.weekly, WeekPeriod)
    requires KeepsFirsts(archives, fewer, keep.monthly, calendar.month)
    requires KeepsFirsts(archives, fewer, keep.yearly, calendar.year)
    ensures Retained(fewer, keep, calendar, newest, EntryOf(name, archives[name]))
       <==> Retained(archives, keep, calendar, newest, EntryOf(name, archives[name]))
  {
    BucketStays(archives, fewer, entries, keep.daily, DayPeriod, name);
    BucketStays(archives, fewer, entries, keep.weekly, WeekPeriod, name);
    BucketStays(archives, fewer, entries, keep.monthly, calendar.month, name);
    BucketStays(archives, fewer, entries, keep.yearly, calendar.year, name);
    hide KeepsFirsts, ListsVerified, BucketKeeps, DayPeriod, WeekPeriod;
  }

  /** A prune of the rest deletes of it what a prune of all would. */
  lemma DoomedAlike(archives: Archives, fewer: Archives, entries: seq<Entry>, pointer: Option<string>, keep: Keep,
                    calendar: Calendar, newest: Option<string>, name: string)
    requires IsNewestVerified(archives, pointer, newest) && IsNewestVerified(fewer, pointer, newest)
    requires ListsVerified(entries, archives) && name in archives && name in fewer && fewer[name] == archives[name]
    requires KeepsFirsts(archives, fewer, keep.daily, DayPeriod)
    requires KeepsFirsts(archives, fewer, keep.weekly, WeekPeriod)
    requires KeepsFirsts(archives, fewer, keep.monthly, calendar.month)
    requires KeepsFirsts(archives, fewer, keep.yearly, calendar.year)
    ensures Doomed(fewer, pointer, keep, calendar, name) <==> Doomed(archives, pointer, keep, calendar, name)
  {
    hide *;
    DoomedByNewest(archives, pointer, keep, calendar, newest, name);
    DoomedByNewest(fewer, pointer, keep, calendar, newest, name);
    RetainedAlike(archives, fewer, entries, keep, calendar, newest, name);
  }

  lemma ListingAndNewest(archives: Archives, pointer: Option<string>)
    returns (entries: seq<Entry>, newest: Option<string>)
    ensures ListsVerified(entries, archives) && IsNewestVerified(archives, pointer, newest)
  {
    hide *;
    var listed := SomeListing(archives);
    SortedListing(listed, archives);
    NewestExists(archives, pointer, listed);
    entries, newest := VerifiedOf(Sort(Newer, listed)), NewestVerified(listed, pointer);
  }

  lemma SamePruned(archives: Archives, fewer: Archives, gone: set<string>, pointer: Option<string>, keep: Keep,
                   calendar: Calendar)
    requires gone <= DoomedSet(archives, pointer, keep, calendar) && fewer == archives - gone
    requires forall n :: n in fewer ==>
      (Doomed(fewer, pointer, keep, calendar, n) <==> Doomed(archives, pointer, keep, calendar, n))
    ensures Pruned(fewer, pointer, keep, calendar) == Pruned(archives, pointer, keep, calendar)
  {
    hide Doomed;
  }

  /** A prune that stopped after any of its deletions and is run again under the same retention
      ends where the uninterrupted prune does. */
  lemma InterruptedPruneConverges(archives: Archives, pointer: Option<string>, keep: Keep, calendar: Calendar,
                                  gone: set<string>)
    requires gone <= DoomedSet(archives, pointer, keep, calendar)
    ensures Pruned(archives - gone, pointer, keep, calendar) == Pruned(archives, pointer, keep, calendar)
  {
    hide *;
    var entries, newest := ListingAndNewest(archives, pointer);
    var fewer := archives - gone;
    LeftByPartOfAPrune(archives, pointer, keep, calendar, gone, newest);
    forall n | n in fewer
      ensures Doomed(fewer, pointer, keep, calendar, n) <==> Doomed(archives, pointer, keep, calendar, n)
    {
      DoomedAlike(archives, fewer, entries, pointer, keep, calendar, newest, n);
    }
    SamePruned(archives, fewer, gone, pointer, keep, calendar);
  }

  /** A second prune under the same retention deletes nothing. */
  lemma PruningIsStable(archives: Archives, pointer: Option<string>, keep: Keep, calendar: Calendar)
    ensures
      var pruned := Pruned(archives, pointer, keep, calendar);
      Pruned(pruned, pointer, keep, calendar) == pruned
  {
    InterruptedPruneConverges(archives, pointer, keep, calendar, DoomedSet(archives, pointer, keep, calendar));
  }

  /** The verified archive that is newest by age survives a prune exactly when some bucket keeps
      anything at all or the pointer does not name another verified archive. */
  lemma NewestByAgeSurvives(archives: Archives, pointer: Option<string>, keep: Keep, calendar: Calendar, name: string)
    requires name in archives && archives[name].verified
    requires forall n :: n in archives && archives[n].verified && n != name ==>
      Newer(EntryOf(name, archives[name]), EntryOf(n, archives[n]))
    ensures name in Pruned(archives, pointer, keep, calendar) <==>
      || keep != Keep(0, 0, 0, 0)
      || !(pointer.Some? && pointer.value != name && pointer.value in archives && archives[pointer.value].verified)
  {
    var e := EntryOf(name, archives[name]);
    var newest := if pointer.Some? && pointer.value in archives && archives[pointer.value].verified
                  then pointer else Some(name);
    assert IsNewestVerified(archives, pointer, newest);
    DoomedByNewest(archives, pointer, keep, calendar, newest, name);
    NothingIsNewer(archives, DayPeriod, e);
    NothingIsNewer(archives, WeekPeriod, e);
    NothingIsNewer(archives, calendar.month, e);
    NothingIsNewer(archives, calendar.year, e);
    hide NewerPeriods, Newer, Doomed, IsNewestVerified, DayPeriod, WeekPeriod;
  }

  /** In instants: the verified archive created last survives exactly so. */
  lemma LatestSurvivesExactlyWhen(archives: Archives, pointer: Option<string>, keep: Keep, calendar: Calendar,
                                  name: string)
    requires name in archives && archives[name].verified
    requires forall n :: n in archives && archives[n].verified && n != name ==>
      archives[n].createdAt < archives[name].createdAt
    ensures name in Pruned(archives, pointer, keep, calendar) <==>
      || keep.daily > 0 || keep.weekly > 0 || keep.monthly > 0 || keep.yearly > 0
      || !(pointer.Some? && pointer.value != name && pointer.value in archives && archives[pointer.value].verified)
  {
    forall n | n in archives && archives[n].verified && n != name
      ensures Newer(EntryOf(name, archives[name]), EntryOf(n, archives[n]))
    {
      NewerIsNoEarlier(EntryOf(name, archives[name]), EntryOf(n, archives[n]));
    }
    hide Newer, Pruned;
    NewestByAgeSurvives(archives, pointer, keep, calendar, name);
  }

  /** With a count of days alone and no pointer, a prune of archives created at different instants
      keeps of the verified ones exactly the last and the last of each of so many days. */
  lemma DailyPruneExactlyWhen(archives: Archives, days: nat, calendar: Calendar, name: string)
    requires DistinctInstants(archives) && name in archives && archives[name].verified
    ensures
      var at := archives[name].createdAt;
      name in Pruned(archives, None, Keep(days, 0, 0, 0), calendar) <==>
        || (forall n :: n in archives && archives[n].verified ==> archives[n].createdAt <= at)
        || (DayPeriod(at) !in PeriodsAfter(archives, DayPeriod, at) && |PeriodsAfter(archives, DayPeriod, at)| < days)
  {
    var keep, e := Keep(days, 0, 0, 0), EntryOf(name, archives[name]);
    var entries := SomeListing(archives);
    var newest := NewestVerified(entries, None);
    NewestExists(archives, None, entries);
    DoomedByNewest(archives, None, keep, calendar, newest, name);
    EachCountKeepsItsPeriod(archives, keep, calendar, e);
    BucketByInstantExactlyWhen(archives, days, DayPeriod, name);
    NewestIsLatest(archives, newest, name);
    hide Doomed, Retained, BucketKeeps, NewestVerified, IsNewestVerified, PeriodsAfter, DayPeriod, Lists;
  }

  /** Without a pointer the newest verified archive is the one created last. */
  lemma NewestIsLatest(archives: Archives, newest: Option<string>, name: string)
    requires DistinctInstants(archives) && name in archives && archives[name].verified
    requires IsNewestVerified(archives, None, newest)
    ensures newest == Some(name) <==>
      forall n :: n in archives && archives[n].verified ==> archives[n].createdAt <= archives[name].createdAt
  {
    var e := EntryOf(name, archives[name]);
    forall n | n in archives && archives[n].verified && n != name
      ensures Newer(e, EntryOf(n, archives[n])) <==> archives[n].createdAt <= e.createdAt
    {
      NewerIsTotal(e, EntryOf(n, archives[n]));
      NewerIsNoEarlier(e, EntryOf(n, archives[n]));
      NewerIsNoEarlier(EntryOf(n, archives[n]), e);
    }
    if newest.Some? && newest.value != name {
      NewerIsTotal(e, EntryOf(newest.value, archives[newest.value]));
    }
    hide Newer;
  }

  lemma NothingIsNewer(archives: Archives, period: int -> string, e: Entry)
    requires forall n :: n in archives && archives[n].verified && n != e.name ==> Newer(e, EntryOf(n, archives[n]))
    requires e.name in archives && e == EntryOf(e.name, archives[e.name])
    ensures NewerPeriods(archives, period, e) == {}
  {
    forall n | n in archives && archives[n].verified ensures !Newer(EntryOf(n, archives[n]), e) {
      NewerIsTotal(EntryOf(n, archives[n]), e);
    }
    hide Newer;
  }

  /** Raising any keep count only grows what a prune leaves. */
  lemma KeepingMoreKeepsMore(archives: Archives, pointer: Option<string>, keep: Keep, more: Keep, calendar: Calendar)
    requires keep.daily <= more.daily && keep.weekly <= more.weekly
          && keep.monthly <= more.monthly && keep.yearly <= more.yearly
    ensures Pruned(archives, pointer, keep, calendar).Keys <= Pruned(archives, pointer, more, calendar).Keys
  {
    forall n | n in archives && Doomed(archives, pointer, more, calendar, n)
      ensures Doomed(archives, pointer, keep, calendar, n)
    {
      var newest :| IsNewestVerified(archives, pointer, newest)
                 && !Retained(archives, more, calendar, newest, EntryOf(n, archives[n]));
      if Retained(archives, keep, calendar, newest, EntryOf(n, archives[n])) {
        RetainedStays(archives, archives, keep, more, calendar, newest, EntryOf(n, archives[n]));
      }
    }
  }

  // ---------------------------------------------------------------- every reachable state

  /** Where a run stands: between runs, after the rename, or part-way through a prune that has
      still to delete `doomed`. A crash at any point ends the run there. */
  datatype Run = Idle | Landed(name: string) | Pruning(doomed: set<string>)

  datatype State = State(archives: Archives, pointer: Option<string>, run: Run)

  datatype Action =
    | AdoptFailed(name: string, manifest: Manifest)
    | Rename(name: string, manifest: Manifest)
    | Point(keep: Keep)
    | BeginPrune(keep: Keep)
    | Delete(name: string)
    | Finish
    | Reverify(name: string, verified: bool)
    | Crash

  ghost predicate Takes(s: State, a: Action, t: State, calendar: Calendar) {
    match a
    case AdoptFailed(name, manifest) =>
      && s.run.Idle? && name !in s.archives
      && t == s.(archives := s.archives[name := manifest])
    case Rename(name, manifest) =>
      && s.run.Idle? && name !in s.archives && manifest.verified
      && t == s.(archives := s.archives[name := manifest], run := Landed(name))
    case Point(keep) =>
      && s.run.Landed?
      && t == s.(pointer := Some(s.run.name), run := Pruning(DoomedSet(s.archives, Some(s.run.name), keep, calendar)))
    case BeginPrune(keep) =>
      && s.run.Idle? && HasVerified(s.archives)
      && t == s.(run := Pruning(DoomedSet(s.archives, s.pointer, keep, calendar)))
    case Delete(name) =>
      && s.run.Pruning? && name in s.run.doomed
      && t == s.(archives := s.archives - {name}, run := Pruning(s.run.doomed - {name}))
    case Finish =>
      s.run.Pruning? && s.run.doomed == {} && t == s.(run := Idle)
    case Reverify(name, verified) =>
      && s.run.Idle? && name in s.archives
      && t == s.(archives := s.archives[name := s.archives[name].(verified := verified)])
    case Crash =>
      t == s.(run := Idle)
  }

  ghost predicate Safe(s: State) {
    && (s.pointer.Some? ==> s.pointer.value in s.archives)
    && (s.run.Landed? ==> s.run.name in s.archives && s.archives[s.run.name].verified)
    && (s.run.Pruning? ==> forall n :: n in s.run.doomed ==> n in s.archives && s.archives[n].verified)
    && (s.run.Pruning? && s.pointer.Some? ==> s.pointer.value !in s.run.doomed)
    && (s.run.Pruning? ==> exists n :: n in s.archives && s.archives[n].verified && n !in s.run.doomed)
  }

  /** Starting a prune dooms neither the pointer's archive nor the newest verified one. */
  lemma PruneStartsSafely(archives: Archives, pointer: Option<string>, keep: Keep, calendar: Calendar)
    requires HasVerified(archives)
    ensures pointer.Some? ==> pointer.value !in DoomedSet(archives, pointer, keep, calendar)
    ensures exists n :: n in archives && archives[n].verified && n !in DoomedSet(archives, pointer, keep, calendar)
  {
    var entries := SomeListing(archives);
    NewestExists(archives, pointer, entries);
    var newest := NewestVerified(entries, pointer);
    hide Doomed, IsNewestVerified, NewestVerified;
    NeverDoomed(archives, pointer, keep, calendar, newest);
    assert newest.value in archives && newest.value !in DoomedSet(archives, pointer, keep, calendar);
  }

  lemma StepIsSafe(s: State, a: Action, t: State, calendar: Calendar)
    requires Safe(s) && Takes(s, a, t, calendar)
    ensures Safe(t)
  {
    match a
    case Point(keep) =>
      assert HasVerified(s.archives);
      PruneStartsSafely(s.archives, Some(s.run.name), keep, calendar);
      hide Doomed;
    case BeginPrune(keep) =>
      PruneStartsSafely(s.archives, s.pointer, keep, calendar);
      hide Doomed;
    case Delete(name) =>
      var n :| n in s.archives && s.archives[n].verified && n !in s.run.doomed;
      assert n in t.archives;
    case _ =>
  }

  /** A history of the root: consecutive states, each reached by the action between. */
  ghost predicate History(states: seq<State>, actions: seq<Action>, calendar: Calendar) {
    && |states| == |actions| + 1
    && forall i :: 0 <= i < |actions| ==> Takes(states[i], actions[i], states[i + 1], calendar)
  }

  /** In every state reachable from an empty root, whatever runs failed or crashed between two
      steps and whatever retention each run was given, a present pointer names an existing
      archive, and a prune in progress spares it and leaves a verified archive. */
  lemma {:induction false} EveryReachableStateIsSafe(states: seq<State>, actions: seq<Action>, calendar: Calendar)
    requires History(states, actions, calendar)
    requires states[0] == State(map[], None, Idle)
    ensures forall i :: 0 <= i < |states| ==> Safe(states[i])
    decreases |actions|
  {
    if actions != [] {
      var n := |actions| - 1;
      assert states[..n + 1][0] == states[0];
      forall i | 0 <= i < n ensures Takes(states[..n + 1][i], actions[..n][i], states[..n + 1][i + 1], calendar) {
        assert Takes(states[i], actions[i], states[i + 1], calendar);
      }
      EveryReachableStateIsSafe(states[..n + 1], actions[..n], calendar);
      assert Safe(states[..n + 1][n]);
      assert Takes(states[n], actions[n], states[n + 1], calendar);
      StepIsSafe(states[n], actions[n], states[n + 1], calendar);
      forall i | 0 <= i < |states| ensures Safe(states[i]) {
        if i <= n { assert states[i] == states[..n + 1][i]; }
      }
    }
  }

  /** The steps of prunes under one retention, crashed or not. */
  predicate Prunes(a: Action, keep: Keep) {
    a == BeginPrune(keep) || a.Delete? || a.Finish? || a.Crash?
  }

  /** Part-way through such prunes: pruning from here ends where pruning from the start would. */
  ghost predicate OnTheWay(s: State, archives: Archives, pointer: Option<string>, keep: Keep, calendar: Calendar) {
    && s.pointer == pointer && !s.run.Landed?
    && Pruned(s.archives, pointer, keep, calendar) == Pruned(archives, pointer, keep, calendar)
    && (s.run.Pruning? ==> s.run.doomed == DoomedSet(s.archives, pointer, keep, calendar))
  }

  lemma PruneStepStaysOnTheWay(archives: Archives, pointer: Option<string>, keep: Keep, calendar: Calendar,
                               s: State, a: Action, t: State)
    requires OnTheWay(s, archives, pointer, keep, calendar) && Prunes(a, keep) && Takes(s, a, t, calendar)
    ensures OnTheWay(t, archives, pointer, keep, calendar)
    ensures a.Finish? ==> t.archives == Pruned(archives, pointer, keep, calendar)
  {
    hide Doomed, HasVerified;
    if a.Delete? {
      InterruptedPruneConverges(s.archives, pointer, keep, calendar, {a.name});
      DoomedIsTheRest(s.archives, pointer, keep, calendar);
      DoomedIsTheRest(t.archives, pointer, keep, calendar);
    }
  }

  lemma DoomedIsTheRest(archives: Archives, pointer: Option<string>, keep: Keep, calendar: Calendar)
    ensures DoomedSet(archives, pointer, keep, calendar)
         == archives.Keys - Pruned(archives, pointer, keep, calendar).Keys
  {
    hide Doomed;
  }

  /** However often prunes under one retention crash between deletions and are begun again, the
      first that finishes leaves what one uninterrupted prune would have. */
  lemma {:induction false} InterruptedPrunesConverge(states: seq<State>, actions: seq<Action>, keep: Keep,
                                                     calendar: Calendar)
    requires History(states, actions, calendar) && states[0].run.Idle?
    requires forall i :: 0 <= i < |actions| ==> Prunes(actions[i], keep)
    ensures OnTheWay(states[|actions|], states[0].archives, states[0].pointer, keep, calendar)
    ensures forall i :: 0 <= i < |actions| && actions[i].Finish? ==>
      states[i + 1].archives == Pruned(states[0].archives, states[0].pointer, keep, calendar)
    decreases |actions|
  {
    if actions != [] {
      var n := |actions| - 1;
      var front, before := states[..n + 1], actions[..n];
      forall i | 0 <= i < n ensures Takes(front[i], before[i], front[i + 1], calendar) {
        assert Takes(states[i], actions[i], states[i + 1], calendar);
      }
      InterruptedPrunesConverge(front, before, keep, calendar);
      assert Takes(states[n], actions[n], states[n + 1], calendar);
      hide Takes, OnTheWay;
      PruneStepStaysOnTheWay(states[0].archives, states[0].pointer, keep, calendar,
                             states[n], actions[n], states[n + 1]);
      forall i | 0 <= i < |actions| && actions[i].Finish?
        ensures states[i + 1].archives == Pruned(states[0].archives, states[0].pointer, keep, calendar)
      {
        if i < n {
          assert before[i].Finish? && front[i + 1] == states[i + 1];
        }
      }
    }
  }

  /** No step removes an unverified archive, and only its re-verification changes one; none but
      a re-verification takes the last verified archive away, none but the pointer write moves
      the pointer, and none but a prune deletes. */
  lemma StepsPreserve(s: State, a: Action, t: State, calendar: Calendar)
    requires Safe(s) && Takes(s, a, t, calendar)
    ensures forall n :: n in s.archives && !s.archives[n].verified ==>
      n in t.archives && t.archives[n] == s.archives[n].(verified := a.Reverify? && a.name == n && a.verified)
    ensures HasVerified(s.archives) && !HasVerified(t.archives) ==> a.Reverify? && !a.verified
    ensures !a.Point? ==> t.pointer == s.pointer
    ensures !a.Delete? ==> forall n :: n in s.archives ==>
      n in t.archives && (t.archives[n] == s.archives[n] || (a.Reverify? && a.name == n))
  {
    hide Doomed;
    if HasVerified(s.archives) {
      if a.Delete? {
        var n :| n in s.archives && s.archives[n].verified && n !in s.run.doomed;
        assert n in t.archives && t.archives[n].verified;
      } else if !a.Reverify? {
        var n :| n in s.archives && s.archives[n].verified;
        assert n in t.archives && t.archives[n].verified;
      } else if a.verified {
        assert a.name in t.archives && t.archives[a.name].verified;
      }
    }
  }

  // ---------------------------------------------------------------- runs as histories

  /** A history leads from one state to the other. */
  ghost predicate Leads(s: State, t: State, calendar: Calendar) {
    exists states, actions :: History(states, actions, calendar) && states[0] == s && states[|actions|] == t
  }

  lemma LeadsNowhere(s: State, calendar: Calendar)
    ensures Leads(s, s, calendar)
  {
    var none: seq<Action> := [];
    assert History([s], none, calendar) && [s][0] == s && [s][|none|] == s;
  }

  lemma LeadsOn(s: State, t: State, a: Action, u: State, calendar: Calendar)
    requires Leads(s, t, calendar) && Takes(t, a, u, calendar)
    ensures Leads(s, u, calendar)
  {
    hide Takes;
    var states, actions :| History(states, actions, calendar) && states[0] == s && states[|actions|] == t;
    var n := |actions|;
    var longer, more := states + [u], actions + [a];
    forall i | 0 <= i < |more| ensures Takes(longer[i], more[i], longer[i + 1], calendar) {
      if i < n {
        assert longer[i] == states[i] && longer[i + 1] == states[i + 1] && more[i] == actions[i];
      }
    }
    assert History(longer, more, calendar) && longer[0] == s && longer[|more|] == u;
  }

  /** Deleting what is doomed, one archive at a time, and finishing. */
  lemma {:induction false} DeletesLead(s: State, archives: Archives, pointer: Option<string>, doomed: set<string>,
                                       calendar: Calendar)
    requires Leads(s, State(archives, pointer, Pruning(doomed)), calendar)
    ensures Leads(s, State(archives - doomed, pointer, Idle), calendar)
    decreases |doomed|
  {
    var t := State(archives, pointer, Pruning(doomed));
    if doomed == {} {
      assert archives - doomed == archives;
      LeadsOn(s, t, Finish, t.(run := Idle), calendar);
    } else {
      var name :| name in doomed;
      var rest := doomed - {name};
      assert archives - doomed == archives - {name} - rest;
      LeadsOn(s, t, Delete(name), State(archives - {name}, pointer, Pruning(rest)), calendar);
      DeletesLead(s, archives - {name}, pointer, rest, calendar);
    }
  }

  /** A prune is the history that begins it, deletes and finishes. */
  lemma PruneLeads(archives: Archives, pointer: Option<string>, keep: Keep, calendar: Calendar)
    requires HasVerified(archives)
    ensures Leads(State(archives, pointer, Idle),
                  State(Pruned(archives, pointer, keep, calendar), pointer, Idle), calendar)
  {
    hide Doomed, HasVerified, Leads;
    var s, doomed := State(archives, pointer, Idle), DoomedSet(archives, pointer, keep, calendar);
    LeadsNowhere(s, calendar);
    LeadsOn(s, s, BeginPrune(keep), s.(run := Pruning(doomed)), calendar);
    DeletesLead(s, archives, pointer, doomed, calendar);
  }

  /** A completed run is the history that renames, points, deletes and finishes. */
  lemma CreateLeads(archives: Archives, pointer: Option<string>, name: string, manifest: Manifest, keep: Keep,
                    calendar: Calendar)
    requires name !in archives && manifest.verified
    ensures Leads(State(archives, pointer, Idle),
                  State(Pruned(archives[name := manifest], Some(name), keep, calendar), Some(name), Idle), calendar)
  {
    hide Doomed, Leads;
    var s, landed := State(archives, pointer, Idle), archives[name := manifest];
    var doomed := DoomedSet(landed, Some(name), keep, calendar);
    LeadsNowhere(s, calendar);
    LeadsOn(s, s, Rename(name, manifest), State(landed, pointer, Landed(name)), calendar);
    LeadsOn(s, State(landed, pointer, Landed(name)), Point(keep), State(landed, Some(name), Pruning(doomed)), calendar);
    DeletesLead(s, landed, Some(name), doomed, calendar);
  }

  lemma AdoptLeads(archives: Archives, pointer: Option<string>, name: string, manifest: Manifest, calendar: Calendar)
    requires name !in archives
    ensures Leads(State(archives, pointer, Idle), State(archives[name := manifest], pointer, Idle), calendar)
  {
    hide Leads;
    var s := State(archives, pointer, Idle);
    LeadsNowhere(s, calendar);
    LeadsOn(s, s, AdoptFailed(name, manifest), State(archives[name := manifest], pointer, Idle), calendar);
  }

  // ---------------------------------------------------------------- the destination root

  datatype Report = Report(retained: set<string>, pruned: set<string>)

  /** How a cut ended: before it wrote a manifest, failed after it wrote one, or verified. A cut
      whose last write fails can leave a manifest that already says verified. */
  datatype Cut =
    | NoManifest
    | Broken(name: string, manifest: Manifest)
    | Verified(name: string, createdAt: int, generation: nat)

  datatype Outcome = Failed | Refused | Completed(report: Report)

  class DestinationRoot {
    var archives: Archives
    var pointer: Option<string>

    /** Between runs. */
    ghost function Standing(): State
      reads this
    {
      State(archives, pointer, Idle)
    }

    /** The archives, newest first, whatever order the directory yields them in. */
    method ListArchives() returns (entries: seq<Entry>)
      ensures Lists(entries, archives) && StrictlyAscending(Newer, entries)
      ensures forall i, j :: 0 <= i < j < |entries| ==> NoEarlier(entries[i], entries[j])
    {
      var listed: seq<Entry> := [];
      var pending := archives.Keys;
      while pending != {}
        invariant pending <= archives.Keys
        invariant DistinctNames(listed)
        invariant forall e :: e in listed <==>
          e.name in archives && e.name !in pending && EntryOf(e.name, archives[e.name]) == e
        decreases pending
      {
        var name :| name in pending;
        ghost var before := listed;
        listed := listed + [EntryOf(name, archives[name])];
        pending := pending - {name};
        assert forall e :: e in listed <==> e in before || e == EntryOf(name, archives[name]);
        forall i | 0 <= i < |before| ensures before[i].name != name {
          assert before[i] in before;
        }
      }
      NewerIsWeakOrder();
      SortSorts(Newer, listed);
      SortedStaysDistinct(listed);
      SortedListing(listed, archives);
      entries := Sort(Newer, listed);
      forall i, j | 0 <= i < j < |entries| ensures NoEarlier(entries[i], entries[j]) {
        NewerIsNoEarlier(entries[i], entries[j]);
      }
    }

    /** The prune's loop over the listing. */
    method DeleteUnretained(entries: seq<Entry>, retained: set<string>, newest: Option<string>,
                            ghost doomed: set<string>)
      returns (report: Report)
      requires Lists(entries, archives) && doomed <= archives.Keys
      requires forall e :: e in entries ==>
        (e.name in doomed <==> e.verified && e.name !in retained && newest != Some(e.name))
      modifies this`archives
      ensures archives == old(archives) - doomed
      ensures report == Report(archives.Keys, doomed)
    {
      var kept, gone: set<string> := {}, {};
      ListedNames(entries, archives);
      hide Lists;
      for i := 0 to |entries|
        invariant gone == Names(entries[..i]) * doomed && kept == Names(entries[..i]) - doomed
        invariant archives == old(archives) - gone
      {
        var entry := entries[i];
        assert entries[..i + 1] == entries[..i] + [entry];
        NamesPush(entries[..i], entry);
        OneMore(Names(entries[..i]), doomed, entry.name, old(archives));
        hide Names;
        if !entry.verified || entry.name in retained || Some(entry.name) == newest {
          kept := kept + {entry.name};
        } else {
          archives := archives - {entry.name};
          gone := gone + {entry.name};
        }
      }
      assert entries[..|entries|] == entries;
      report := Report(kept, gone);
    }

    /** Deletes every verified archive retention does not keep; refuses when none is verified. */
    method Prune(keep: Keep, calendar: Calendar) returns (report: Option<Report>)
      modifies this`archives
      ensures report.None? <==> !old(HasVerified(archives))
      ensures report.None? ==> archives == old(archives)
      ensures report.Some? ==>
        && archives == Pruned(old(archives), pointer, keep, calendar)
        && report == Some(Report(archives.Keys, DoomedSet(old(archives), pointer, keep, calendar)))
      ensures Leads(old(Standing()), Standing(), calendar)
    {
      hide Leads;
      LeadsNowhere(Standing(), calendar);
      var entries := ListArchives();
      NewestExists(archives, pointer, entries);
      var newest := NewestVerified(entries, pointer);
      if newest.None? {
        return None;
      }
      var retained := SelectRetained(entries, keep, calendar, newest, archives);
      forall e | e in entries
        ensures Doomed(archives, pointer, keep, calendar, e.name)
           <==> e.verified && e.name !in retained && newest != Some(e.name)
      {
        DoomedByNewest(archives, pointer, keep, calendar, newest, e.name);
        KeptIsNotDoomed(archives, pointer, keep, calendar, newest, e.name);
      }
      PruneLeads(archives, pointer, keep, calendar);
      hide Doomed, IsNewestVerified, Retained, NewestVerified;
      var deleted := DeleteUnretained(entries, retained, newest, DoomedSet(archives, pointer, keep, calendar));
      report := Some(deleted);
    }

    /** A whole run: a failed cut is adopted under its dated name, or leaves nothing; a verified
        one is renamed into place unless the name is taken, then pointed to, and only then are
        older archives pruned. */
    method Create(cut: Cut, keep: Keep, calendar: Calendar) returns (outcome: Outcome)
      modifies this
      ensures !cut.Verified? || cut.name in old(archives) ==>
        && !outcome.Completed? && pointer == old(pointer)
        && archives == (if cut.Broken? && cut.name !in old(archives)
                        then old(archives)[cut.name := cut.manifest]
                        else old(archives))
      ensures cut.Verified? && cut.name !in old(archives) ==>
        && outcome.Completed? && pointer == Some(cut.name)
        && cut.name in archives && archives[cut.name] == Manifest(cut.createdAt, cut.generation, true)
        && archives == Pruned(old(archives)[cut.name := Manifest(cut.createdAt, cut.generation, true)],
                              pointer, keep, calendar)
      ensures Leads(old(Standing()), Standing(), calendar)
    {
      hide Leads;
      LeadsNowhere(Standing(), calendar);
      match cut
      case NoManifest =>
        outcome := Failed;
      case Broken(name, manifest) =>
        if name !in archives {
          AdoptLeads(archives, pointer, name, manifest, calendar);
          archives := archives[name := manifest];
        }
        outcome := Failed;
      case Verified(name, createdAt, generation) =>
        if name in archives {
          return Refused;
        }
        CreateLeads(archives, pointer, name, Manifest(createdAt, generation, true), keep, calendar);
        archives := archives[name := Manifest(createdAt, generation, true)];
        pointer := Some(name);
        assert archives[name].verified;
        NeverDoomed(archives, pointer, keep, calendar, pointer);
        var report := Prune(keep, calendar);
        outcome := Completed(report.value);
    }
  }

  lemma DoomedByNewest(archives: Archives, pointer: Option<string>, keep: Keep, calendar: Calendar,
                       newest: Option<string>, name: string)
    requires IsNewestVerified(archives, pointer, newest) && name in archives
    ensures Doomed(archives, pointer, keep, calendar, name) <==>
      archives[name].verified && !Retained(archives, keep, calendar, newest, EntryOf(name, archives[name]))
  {
    forall other | IsNewestVerified(archives, pointer, other) ensures other == newest {
      NewestIsUnique(archives, pointer, other, newest);
    }
    hide Retained, IsNewestVerified;
  }

  lemma KeptIsNotDoomed(archives: Archives, pointer: Option<string>, keep: Keep, calendar: Calendar,
                        newest: Option<string>, name: string)
    requires IsNewestVerified(archives, pointer, newest)
    ensures newest == Some(name) ==> !Doomed(archives, pointer, keep, calendar, name)
  {
    NeverDoomed(archives, pointer, keep, calendar, newest);
  }

  lemma ListedNames(entries: seq<Entry>, archives: Archives)
    requires Lists(entries, archives)
    ensures Names(entries) == archives.Keys
  {
    forall n | n in archives ensures n in Names(entries) {
      assert EntryOf(n, archives[n]) in entries;
    }
  }

  /** One more name, doomed or not. */
  lemma OneMore(names: set<string>, doomed: set<string>, name: string, archives: Archives)
    ensures name in doomed ==>
      (names + {name}) * doomed == names * doomed + {name} && (names + {name}) - doomed == names - doomed
    ensures name !in doomed ==>
      (names + {name}) * doomed == names * doomed && (names + {name}) - doomed == names - doomed + {name}
    ensures archives - names * doomed - {name} == archives - (names * doomed + {name})
  {
  }
}
