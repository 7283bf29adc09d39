/**
 The silences between attempts: the gaps of an interval, the longest of them, and the gaps that
 span a quota reset. Instants are nanoseconds.
 */
module SamplingGaps {
  import opened Common
  import opened Orders
  import opened Coverage

  datatype Gap = Gap(start: int, end: int)

  function Duration(g: Gap): nat {
    if g.end < g.start then 0 else g.end - g.start
  }

  predicate Spans(g: Gap, at: int) {
    g.start <= at <= g.end
  }

  // ---------------------------------------------------------------- the gaps of an interval

  function GapsFrom(start: int, end: int, times: seq<int>): seq<Gap>
    decreases times
  {
    if times == [] then [Gap(start, end)] else [Gap(start, times[0])] + GapsFrom(times[0], end, times[1..])
  }

  method Gaps(start: int, end: int, times: seq<int>) returns (gaps: seq<Gap>)
    ensures gaps == GapsFrom(start, end, times)
  {
    gaps := [];
    var prev := start;
    assert times[0..] == times;
    for i := 0 to |times|
      invariant gaps + GapsFrom(prev, end, times[i..]) == GapsFrom(start, end, times)
    {
      assert times[i..][0] == times[i] && times[i..][1..] == times[i + 1..];
      gaps := gaps + [Gap(prev, times[i])];
      prev := times[i];
    }
    assert times[|times|..] == [];
    gaps := gaps + [Gap(prev, end)];
  }

  ghost predicate WithinInterval(start: int, end: int, times: seq<int>) {
    && start <= end
    && (forall i :: 0 <= i < |times| ==> start <= times[i] <= end)
    && (forall i, j :: 0 <= i < j < |times| ==> times[i] <= times[j])
  }

  function TotalDuration(gaps: seq<Gap>): nat {
    if gaps == [] then 0 else Duration(gaps[0]) + TotalDuration(gaps[1..])
  }

  /** The gaps tile the interval, and their boundaries are its ends and the instants. */
  lemma {:induction false} GapsTile(start: int, end: int, times: seq<int>)
    requires WithinInterval(start, end, times)
    ensures var gaps := GapsFrom(start, end, times);
            && |gaps| == |times| + 1
            && gaps[0].start == start && gaps[|times|].end == end
            && (forall i :: 0 <= i < |times| ==> gaps[i].end == times[i] && gaps[i + 1].start == times[i])
            && (forall i :: 0 <= i <= |times| ==> gaps[i].start <= gaps[i].end)
            && TotalDuration(gaps) == end - start
    decreases times
  {
    if times != [] {
      GapsTile(times[0], end, times[1..]);
    }
  }

  /** The longest gap; of equally long ones the last. */
  function LongestGap(gaps: seq<Gap>): (longest: Option<Gap>)
    ensures longest.None? <==> gaps == []
    ensures longest.Some? ==> longest.value in gaps && forall g :: g in gaps ==> Duration(g) <= Duration(longest.value)
  {
    if gaps == [] then None
    else
      var n := |gaps| - 1;
      assert gaps == gaps[..n] + [gaps[n]];
      match LongestGap(gaps[..n])
      case None => Some(gaps[n])
      case Some(longest) => if Duration(gaps[n]) >= Duration(longest) then Some(gaps[n]) else Some(longest)
  }

  /** Of equally long gaps the last is taken. */
  lemma {:induction false} LongestIsLast(gaps: seq<Gap>) returns (at: nat)
    requires gaps != []
    ensures at < |gaps| && LongestGap(gaps) == Some(gaps[at])
    ensures forall j :: at < j < |gaps| ==> Duration(gaps[j]) < Duration(gaps[at])
  {
    var n := |gaps| - 1;
    if n > 0 && LongestGap(gaps) != Some(gaps[n]) {
      at := LongestIsLast(gaps[..n]);
      assert gaps[..n] != [];
    } else {
      at := n;
      assert gaps[..0] == [];
    }
  }

  /** A gap spans its own ends and nothing beyond, and one that ends before it starts lasts no time. */
  lemma GapEnds(g: Gap)
    ensures g.start <= g.end ==> Spans(g, g.start) && Spans(g, g.end) && Duration(g) == g.end - g.start
    ensures g.end <= g.start ==> Duration(g) == 0
    ensures !Spans(g, g.start - 1) && !Spans(g, g.end + 1)
  {
  }

  /** No instant lies strictly inside the stretch. */
  ghost predicate Silent(times: seq<int>, a: int, b: int) {
    forall i :: 0 <= i < |times| ==> !(a < times[i] < b)
  }

  lemma {:induction false} SilenceIsInOneGap(start: int, end: int, times: seq<int>, a: int, b: int) returns (g: Gap)
    requires WithinInterval(start, end, times) && start <= a < b <= end && Silent(times, a, b)
    ensures g in GapsFrom(start, end, times) && g.start <= a && b <= g.end
    decreases times
  {
    if times == [] {
      g := Gap(start, end);
    } else if b <= times[0] {
      g := Gap(start, times[0]);
      assert GapsFrom(start, end, times)[0] == g;
    } else {
      assert times[0] <= a;
      g := SilenceIsInOneGap(times[0], end, times[1..], a, b);
    }
  }

  /** No instant lies strictly between neighbours of a sorted list. */
  lemma NothingInside(times: seq<int>, k: nat, from: int, to: int)
    requires k <= |times| && forall i, j :: 0 <= i < j < |times| ==> times[i] <= times[j]
    requires k > 0 ==> from == times[k - 1]
    requires k < |times| ==> to == times[k]
    ensures Silent(times, from, to)
  {
    forall i | 0 <= i < |times| ensures !(from < times[i] < to) {
      if i < k { assert i == k - 1 || times[i] <= times[k - 1]; }
      if i >= k { assert i == k || times[k] <= times[i]; }
    }
  }

  lemma GapIsSilent(start: int, end: int, times: seq<int>, g: Gap)
    requires WithinInterval(start, end, times) && g in GapsFrom(start, end, times)
    ensures start <= g.start <= g.end <= end && Silent(times, g.start, g.end)
  {
    hide GapsFrom, Silent, TotalDuration;
    GapsTile(start, end, times);
    var gaps := GapsFrom(start, end, times);
    var k :| 0 <= k < |gaps| && gaps[k] == g;
    if k > 0 { assert gaps[k - 1 + 1].start == times[k - 1]; }
    NothingInside(times, k, g.start, g.end);
  }

  /** The longest gap is as long as the longest silence of the interval. */
  lemma LongestGapIsLongestSilence(start: int, end: int, times: seq<int>)
    requires WithinInterval(start, end, times)
    ensures var longest := LongestGap(GapsFrom(start, end, times));
            && longest.Some?
            && start <= longest.value.start <= longest.value.end <= end
            && Silent(times, longest.value.start, longest.value.end)
            && forall a, b :: start <= a < b <= end && Silent(times, a, b) ==> b - a <= Duration(longest.value)
  {
    var gaps := GapsFrom(start, end, times);
    assert gaps != [];
    hide GapsFrom, LongestGap, Silent, WithinInterval;
    var longest := LongestGap(gaps).value;
    GapIsSilent(start, end, times, longest);
    forall a, b | start <= a < b <= end && Silent(times, a, b) ensures b - a <= Duration(longest) {
      var g := SilenceIsInOneGap(start, end, times, a, b);
    }
  }

  // ---------------------------------------------------------------- resets

  const RESET_DEDUP_WINDOW: nat := 5_000_000_000
  const HOLE_TOLERANCE: nat := 60_000_000_000

  /** Keeps an instant unless it lies within the window after the last one kept. */
  function KeptAfter(last: Option<int>, sorted: seq<int>): seq<int>
    decreases sorted
  {
    if sorted == [] then []
    else if last.Some? && sorted[0] - last.value <= RESET_DEDUP_WINDOW then KeptAfter(last, sorted[1..])
    else [sorted[0]] + KeptAfter(Some(sorted[0]), sorted[1..])
  }

  function Kept(resets: seq<int>): seq<int> {
    KeptAfter(None, Sort(IntLess, resets))
  }

  method DedupResets(resets: seq<int>) returns (kept: seq<int>)
    ensures kept == Kept(resets)
  {
    var sorted := Sort(IntLess, resets);
    kept := [];
    assert sorted[0..] == sorted;
    for i := 0 to |sorted|
      invariant kept + KeptAfter(LastOf(kept), sorted[i..]) == KeptAfter(None, sorted)
    {
      assert sorted[i..][0] == sorted[i] && sorted[i..][1..] == sorted[i + 1..];
      var duplicate := kept != [] && sorted[i] - kept[|kept| - 1] <= RESET_DEDUP_WINDOW;
      if !duplicate {
        kept := kept + [sorted[i]];
      }
    }
    assert sorted[|sorted|..] == [];
  }

  function LastOf(s: seq<int>): Option<int> {
    if s == [] then None else Some(s[|s| - 1])
  }

  /** The instant is one of the list's, or follows one of them within the window. */
  ghost predicate Near(kept: seq<int>, at: int) {
    exists i :: 0 <= i < |kept| && kept[i] <= at <= kept[i] + RESET_DEDUP_WINDOW
  }

  lemma NearAt(kept: seq<int>, i: nat, at: int)
    requires i < |kept| && kept[i] <= at <= kept[i] + RESET_DEDUP_WINDOW
    ensures Near(kept, at)
  {
  }

  lemma NearTo(kept: seq<int>, at: int) returns (i: nat)
    requires Near(kept, at)
    ensures i < |kept| && kept[i] <= at <= kept[i] + RESET_DEDUP_WINDOW
  {
    i :| 0 <= i < |kept| && kept[i] <= at <= kept[i] + RESET_DEDUP_WINDOW;
  }

  ghost predicate Spaced(kept: seq<int>) {
    forall i, j :: 0 <= i < j < |kept| ==> kept[j] > kept[i] + RESET_DEDUP_WINDOW
  }

  /** Resets that lie apart by more than the window and leave no reset further than the window
      behind one of them. */
  ghost predicate Represents(kept: seq<int>, resets: seq<int>) {
    && Spaced(kept)
    && (forall i :: 0 <= i < |kept| ==> kept[i] in resets)
    && (forall x :: x in resets ==> Near(kept, x))
  }

  /** What holds of the instants kept after `last` out of the sorted ones. */
  ghost predicate KeepsApart(last: Option<int>, sorted: seq<int>, kept: seq<int>) {
    && Spaced(kept)
    && (forall i :: 0 <= i < |kept| ==> kept[i] in sorted)
    && (last.Some? && kept != [] ==> kept[0] > last.value + RESET_DEDUP_WINDOW)
    && (forall x :: x in sorted ==> Near((if last.Some? then [last.value] else []) + kept, x))
  }

  lemma {:induction false} KeptAfterHolds(last: Option<int>, sorted: seq<int>)
    requires Ascending(IntLess, sorted)
    requires last.Some? && sorted != [] ==> last.value <= sorted[0]
    ensures KeepsApart(last, sorted, KeptAfter(last, sorted))
    decreases sorted
  {
    if sorted == [] {
      NothingIsSpaced();
    } else {
      assert sorted[1..] != [] ==> !IntLess(sorted[1], sorted[0]);
      hide KeepsApart;
      if last.Some? && sorted[0] - last.value <= RESET_DEDUP_WINDOW {
        KeptAfterHolds(last, sorted[1..]);
        DropsNear(last, sorted, KeptAfter(last, sorted[1..]));
      } else {
        KeptAfterHolds(Some(sorted[0]), sorted[1..]);
        KeepsFar(last, sorted, KeptAfter(Some(sorted[0]), sorted[1..]));
        KeepsFirst(last, sorted);
      }
    }
  }

  lemma DropsNear(last: Option<int>, sorted: seq<int>, kept: seq<int>)
    requires sorted != [] && last.Some? && last.value <= sorted[0] <= last.value + RESET_DEDUP_WINDOW
    requires KeepsApart(last, sorted[1..], kept)
    ensures KeepsApart(last, sorted, kept)
  {
    hide Spaced, Near;
    assert sorted == [sorted[0]] + sorted[1..];
    NearAt([last.value] + kept, 0, sorted[0]);
  }

  lemma KeepsFar(last: Option<int>, sorted: seq<int>, later: seq<int>)
    requires sorted != [] && KeepsApart(Some(sorted[0]), sorted[1..], later)
    requires last.Some? ==> sorted[0] > last.value + RESET_DEDUP_WINDOW
    ensures KeepsApart(last, sorted, [sorted[0]] + later)
  {
    hide Spaced, Near;
    var kept := [sorted[0]] + later;
    var before := if last.Some? then [last.value] else [];
    assert sorted == [sorted[0]] + sorted[1..];
    SpacedCons(sorted[0], later);
    NearAt(kept, 0, sorted[0]);
    forall x | x in sorted ensures Near(before + kept, x) {
      var i := NearTo(kept, x);
      NearAt(before + kept, |before| + i, x);
    }
  }

  lemma NothingIsSpaced()
    ensures Spaced([])
  {
  }

  lemma KeepsFirst(last: Option<int>, sorted: seq<int>)
    requires sorted != [] && !(last.Some? && sorted[0] - last.value <= RESET_DEDUP_WINDOW)
    ensures KeptAfter(last, sorted) == [sorted[0]] + KeptAfter(Some(sorted[0]), sorted[1..])
  {
  }

  lemma SpacedCons(first: int, later: seq<int>)
    requires Spaced(later) && (later != [] ==> later[0] > first + RESET_DEDUP_WINDOW)
    ensures Spaced([first] + later)
  {
  }

  lemma ApartRepresents(resets: seq<int>, sorted: seq<int>, kept: seq<int>)
    requires KeepsApart(None, sorted, kept)
    requires forall x :: x in sorted <==> x in resets
    ensures Represents(kept, resets)
  {
    hide Near, Spaced;
    assert [] + kept == kept;
    forall i | 0 <= i < |kept| ensures kept[i] in resets {
      var x := kept[i];
      assert x in sorted;
    }
    forall x | x in resets ensures Near(kept, x) {
      assert x in sorted;
    }
  }

  /** What is kept represents the resets. */
  lemma KeptRepresents(resets: seq<int>)
    ensures Represents(Kept(resets), resets)
  {
    var sorted := Sort(IntLess, resets);
    SortSorts(IntLess, resets);
    hide Sort, KeptAfter, KeepsApart, Represents;
    KeptAfterHolds(None, sorted);
    ApartRepresents(resets, sorted, KeptAfter(None, sorted));
  }

  /** After the same beginning the next representative is not later in one list than another. */
  lemma SameNext(resets: seq<int>, a: seq<int>, b: seq<int>, m: nat)
    requires Represents(a, resets) && Represents(b, resets) && m < |a| && m <= |b|
    requires forall j :: 0 <= j < m ==> a[j] == b[j]
    ensures m < |b| && b[m] <= a[m]
  {
    hide Near;
    assert a[m] in resets;
    var i := NearTo(b, a[m]);
    assert i >= m;
  }

  lemma {:induction false} RepresentativesAgree(resets: seq<int>, a: seq<int>, b: seq<int>, n: nat)
    requires Represents(a, resets) && Represents(b, resets) && n <= |a| && n <= |b|
    ensures forall j :: 0 <= j < n ==> a[j] == b[j]
  {
    hide Represents;
    if n > 0 {
      var m := n - 1;
      RepresentativesAgree(resets, a, b, m);
      assert m < |a| && m < |b|;
      SameNext(resets, a, b, m);
      SameNext(resets, b, a, m);
      assert a[m] == b[m];
    }
  }

  /** Only one list represents the resets. */
  lemma RepresentativesAreUnique(resets: seq<int>, a: seq<int>, b: seq<int>)
    requires Represents(a, resets) && Represents(b, resets)
    ensures a == b
  {
    hide Represents;
    var n := if |a| < |b| then |a| else |b|;
    RepresentativesAgree(resets, a, b, n);
    if |a| < |b| {
      SameNext(resets, b, a, n);
    } else if |b| < |a| {
      SameNext(resets, a, b, n);
    }
  }

  lemma RepresentsSame(kept: seq<int>, a: seq<int>, b: seq<int>)
    requires Represents(kept, a) && forall x :: x in a <==> x in b
    ensures Represents(kept, b)
  {
    hide Near, Spaced;
    forall i | 0 <= i < |kept| ensures kept[i] in b {
      assert kept[i] in a;
      var x: int := kept[i];
      assert x in a && x in b;
    }
  }

  /** The same instants, in whatever order and however often, keep the same representatives. */
  lemma KeptIgnoresOrder(a: seq<int>, b: seq<int>)
    requires forall x :: x in a <==> x in b
    ensures Kept(a) == Kept(b)
  {
    KeptRepresents(a);
    KeptRepresents(b);
    RepresentsSame(Kept(b), b, a);
    hide Kept, Represents;
    RepresentativesAreUnique(a, Kept(a), Kept(b));
  }

  // ---------------------------------------------------------------- gaps that span a reset

  /** Longer than the cadence in force at the reset allows; an unknown cadence is no hole. */
  predicate IsSamplingHole(g: Gap, at: int, snapshots: seq<PolicySnapshot>) {
    match CadenceAt(snapshots, at)
    case Some(cadence) => Duration(g) > cadence + HOLE_TOLERANCE
    case None => false
  }

  lemma PairSorted(a: int, b: int)
    requires a <= b
    ensures Sort(IntLess, [a, b]) == [a, b]
  {
    assert [a, b][1..] == [b] && [b][1..] == [];
    assert Sort(IntLess, [b]) == Insert(IntLess, b, Sort(IntLess, []));
    assert Sort(IntLess, [b]) == [b];
  }

  /** A gap is a hole from a minute beyond the cadence on, and two resets are one up to five
      seconds apart. */
  lemma TolerancesInSeconds(g: Gap, policy: PolicySnapshot, at: int, later: int)
    ensures policy.effectiveAt <= at && g.start <= g.end ==>
      (IsSamplingHole(g, at, [policy]) <==> g.end - g.start > policy.cadence + 60 * 1_000_000_000)
    ensures policy.effectiveAt > at || g.end <= g.start ==> !IsSamplingHole(g, at, [policy])
    ensures at <= later ==>
      Kept([at, later]) == if later - at <= 5 * 1_000_000_000 then [at] else [at, later]
  {
    assert [policy][..0] == [];
    if at <= later {
      PairSorted(at, later);
      assert [at, later][1..] == [later] && [later][1..] == [];
      assert KeptAfter(Some(at), [later]) == if later - at <= 5 * 1_000_000_000 then [] else [later];
      assert KeptAfter(None, [at, later]) == [at] + KeptAfter(Some(at), [later]);
    }
  }

  predicate Unobserved(g: Gap, resets: seq<int>, snapshots: seq<PolicySnapshot>) {
    exists i :: 0 <= i < |resets| && Spans(g, resets[i]) && IsSamplingHole(g, resets[i], snapshots)
  }

  /** The gaps, in order, that are a hole at one of the instants they span. */
  function SpanningOf(resets: seq<int>, gaps: seq<Gap>, snapshots: seq<PolicySnapshot>): seq<Gap> {
    if gaps == [] then []
    else
      var n := |gaps| - 1;
      SpanningOf(resets, gaps[..n], snapshots) + (if Unobserved(gaps[n], resets, snapshots) then [gaps[n]] else [])
  }

  /** The gaps that are reported: those of the kept resets. */
  function ResetSpanning(resets: seq<int>, gaps: seq<Gap>, snapshots: seq<PolicySnapshot>): seq<Gap> {
    SpanningOf(Kept(resets), gaps, snapshots)
  }

  lemma {:induction false} SpanningHolds(resets: seq<int>, gaps: seq<Gap>, snapshots: seq<PolicySnapshot>, g: Gap)
    ensures g in SpanningOf(resets, gaps, snapshots) <==> g in gaps && Unobserved(g, resets, snapshots)
  {
    hide Unobserved;
    if gaps != [] {
      var n := |gaps| - 1;
      SpanningHolds(resets, gaps[..n], snapshots, g);
      assert gaps == gaps[..n] + [gaps[n]];
    }
  }

  /** A kept reset stands in for `at` and does not itself make the gap a hole. */
  ghost predicate Hidden(g: Gap, kept: seq<int>, at: int, snapshots: seq<PolicySnapshot>) {
    exists i :: 0 <= i < |kept| && kept[i] < at <= kept[i] + RESET_DEDUP_WINDOW
                && (kept[i] < g.start || !IsSamplingHole(g, kept[i], snapshots))
  }

  ghost predicate SeenHole(g: Gap, kept: seq<int>, at: int, snapshots: seq<PolicySnapshot>) {
    Spans(g, at) && IsSamplingHole(g, at, snapshots) && !Hidden(g, kept, at, snapshots)
  }

  lemma SpacedApart(kept: seq<int>)
    requires Spaced(kept)
    ensures forall i, j :: 0 <= i < |kept| && 0 <= j < |kept| && kept[i] < kept[j] ==>
      kept[j] > kept[i] + RESET_DEDUP_WINDOW
  {
    assert forall i, j :: 0 <= j <= i < |kept| ==> kept[j] <= kept[i];
  }

  lemma KeptIsSeen(g: Gap, kept: seq<int>, i: nat, snapshots: seq<PolicySnapshot>)
    requires Spaced(kept) && i < |kept| && Spans(g, kept[i]) && IsSamplingHole(g, kept[i], snapshots)
    ensures SeenHole(g, kept, kept[i], snapshots)
  {
    hide IsSamplingHole;
    SpacedApart(kept);
  }

  lemma SeenIsKept(g: Gap, kept: seq<int>, at: int, snapshots: seq<PolicySnapshot>)
    requires Near(kept, at) && SeenHole(g, kept, at, snapshots)
    ensures Unobserved(g, kept, snapshots)
  {
    hide IsSamplingHole;
    var i := NearTo(kept, at);
    assert Spans(g, kept[i]) && IsSamplingHole(g, kept[i], snapshots);
  }

  /** A gap is reported exactly when it is a hole at some reset it spans that no kept reset
      hides: collapsing reports nothing more, and passes over a hole only behind a kept reset,
      shortly before it, that lies before the gap or under a slower cadence. */
  lemma ReportedExactly(resets: seq<int>, gaps: seq<Gap>, snapshots: seq<PolicySnapshot>, g: Gap)
    ensures g in ResetSpanning(resets, gaps, snapshots) <==>
      g in gaps && exists x :: x in resets && SeenHole(g, Kept(resets), x, snapshots)
  {
    KeptRepresents(resets);
    SpanningHolds(Kept(resets), gaps, snapshots, g);
    hide Kept, SpanningOf, SeenHole, Near, Spaced, IsSamplingHole;
    var kept := Kept(resets);
    if Unobserved(g, kept, snapshots) {
      var i :| 0 <= i < |kept| && Spans(g, kept[i]) && IsSamplingHole(g, kept[i], snapshots);
      KeptIsSeen(g, kept, i, snapshots);
      var x: int := kept[i];
      assert x in resets && SeenHole(g, kept, x, snapshots);
    }
    if x :| x in resets && SeenHole(g, kept, x, snapshots) {
      SeenIsKept(g, kept, x, snapshots);
    }
  }

  // ---------------------------------------------------------------- when collapsing is harmless

  /** No two different resets lie within the window. */
  ghost predicate Apart(resets: seq<int>) {
    forall x, y :: x in resets && y in resets && x < y ==> y > x + RESET_DEDUP_WINDOW
  }

  /** Whatever the attempts of an interval and the policies over it, the same gaps are reported
      as without collapsing. */
  ghost predicate Harmless(resets: seq<int>) {
    forall start, end, times, snapshots ::
      WithinInterval(start, end, times) && Chronological(snapshots) && PositiveCadences(snapshots)
      ==> ResetSpanning(resets, GapsFrom(start, end, times), snapshots)
          == SpanningOf(resets, GapsFrom(start, end, times), snapshots)
  }

  /** Collapsing nearby resets never changes a report exactly when there are none to collapse. */
  lemma HarmlessExactlyWhenApart(resets: seq<int>)
    ensures Harmless(resets) <==> Apart(resets)
  {
    KeptRepresents(resets);
    hide Kept, Near, Spaced, GapsFrom, WithinInterval, Chronological, PositiveCadences;
    if Apart(resets) {
      ApartKeepsAll(resets, Kept(resets));
      forall start, end, times, snapshots |
        WithinInterval(start, end, times) && Chronological(snapshots) && PositiveCadences(snapshots)
        ensures ResetSpanning(resets, GapsFrom(start, end, times), snapshots)
             == SpanningOf(resets, GapsFrom(start, end, times), snapshots)
      {
        SameResetsSpanAlike(Kept(resets), resets, GapsFrom(start, end, times), snapshots);
      }
    } else {
      var z := DroppedReset(resets, Kept(resets));
      DroppedResetMatters(resets, z);
    }
  }

  lemma ApartKeepsAll(resets: seq<int>, kept: seq<int>)
    requires Apart(resets) && Represents(kept, resets)
    ensures forall x :: x in kept <==> x in resets
  {
    hide Near, Spaced;
    forall x ensures x in kept <==> x in resets {
      if x in kept {
        var i :| 0 <= i < |kept| && kept[i] == x;
        assert kept[i] in resets;
      }
      if x in resets {
        var i := NearTo(kept, x);
        assert kept[i] in resets;
        var k: int := kept[i];
        assert k in resets && k == x;
      }
    }
  }

  lemma {:induction false} SameResetsSpanAlike(a: seq<int>, b: seq<int>, gaps: seq<Gap>, snapshots: seq<PolicySnapshot>)
    requires forall x :: x in a <==> x in b
    ensures SpanningOf(a, gaps, snapshots) == SpanningOf(b, gaps, snapshots)
  {
    if gaps != [] {
      var n := |gaps| - 1;
      SameResetsSpanAlike(a, b, gaps[..n], snapshots);
      SameResetsHole(a, b, gaps[n], snapshots);
      SameResetsHole(b, a, gaps[n], snapshots);
      hide Unobserved;
    }
  }

  lemma SameResetsHole(a: seq<int>, b: seq<int>, g: Gap, snapshots: seq<PolicySnapshot>)
    requires forall x :: x in a ==> x in b
    ensures Unobserved(g, a, snapshots) ==> Unobserved(g, b, snapshots)
  {
    hide IsSamplingHole;
    if Unobserved(g, a, snapshots) {
      var i :| 0 <= i < |a| && Spans(g, a[i]) && IsSamplingHole(g, a[i], snapshots);
      var x: int := a[i];
      assert x in a;
      var j :| 0 <= j < |b| && b[j] == x;
    }
  }

  lemma DroppedReset(resets: seq<int>, kept: seq<int>) returns (z: int)
    requires !Apart(resets) && Represents(kept, resets)
    ensures z in resets && z !in kept
  {
    hide Near;
    var x, y :| x in resets && y in resets && x < y <= x + RESET_DEDUP_WINDOW;
    z := if x in kept then y else x;
    SpacedApart(kept);
    assert !(x in kept && y in kept);
  }

  /** A fast policy at `z` that turns slow right after. */
  function TurningSlow(z: int): seq<PolicySnapshot> {
    [PolicySnapshot(z, 1, None, None), PolicySnapshot(z + 1, HOLE_TOLERANCE + 2, None, None)]
  }

  lemma HoleOnlyAtTheTurn(z: int)
    ensures Chronological(TurningSlow(z)) && PositiveCadences(TurningSlow(z))
    ensures var g := Gap(z, z + HOLE_TOLERANCE + 2);
            IsSamplingHole(g, z, TurningSlow(z)) && forall k :: z < k ==> !IsSamplingHole(g, k, TurningSlow(z))
  {
    FirstPolicy(TurningSlow(z), z);
    forall k | z < k ensures CadenceAt(TurningSlow(z), k) == Some(HOLE_TOLERANCE + 2) {
    }
    hide CadenceAt;
  }

  lemma OneGap(resets: seq<int>, g: Gap, snapshots: seq<PolicySnapshot>)
    ensures SpanningOf(resets, [g], snapshots) == if Unobserved(g, resets, snapshots) then [g] else []
  {
    assert [g][..0] == [];
    assert SpanningOf(resets, [], snapshots) == [];
    hide Unobserved;
  }

  /** An interval that opens at a dropped reset under a policy that soon turns slow: its one
      silence is a hole there and at no kept reset. */
  lemma DroppedResetMatters(resets: seq<int>, z: int)
    requires z in resets && z !in Kept(resets)
    ensures !Harmless(resets)
  {
    hide IsSamplingHole, CadenceAt, Kept, SpanningOf, TurningSlow, Chronological, PositiveCadences;
    var end := z + HOLE_TOLERANCE + 2;
    var snapshots, g, kept := TurningSlow(z), Gap(z, end), Kept(resets);
    HoleOnlyAtTheTurn(z);
    var i :| 0 <= i < |resets| && resets[i] == z;
    assert Spans(g, resets[i]);
    forall j | 0 <= j < |kept| && Spans(g, kept[j]) ensures !IsSamplingHole(g, kept[j], snapshots) {
      assert kept[j] in kept;
    }
    OneGap(resets, g, snapshots);
    OneGap(kept, g, snapshots);
    assert GapsFrom(z, end, []) == [g] && WithinInterval(z, end, []);
  }

  lemma FirstPolicy(snapshots: seq<PolicySnapshot>, at: int)
    requires |snapshots| == 2 && snapshots[0].effectiveAt <= at < snapshots[1].effectiveAt
    ensures CadenceAt(snapshots, at) == Some(snapshots[0].cadence)
  {
    assert snapshots[..1] == [snapshots[0]];
  }

  /** An attempt between two close resets: the silence after it contains the second reset, but
      only the first is kept, and nothing is reported. */
  lemma CollapsingHidesAHole(snapshots: seq<PolicySnapshot>, at: int, end: int)
    requires CadenceAt(snapshots, at + 2).Some?
    requires end - (at + 1) > CadenceAt(snapshots, at + 2).value + HOLE_TOLERANCE
    ensures var g := Gap(at + 1, end);
            Unobserved(g, [at, at + 2], snapshots) && g !in ResetSpanning([at, at + 2], [g], snapshots)
  {
    var resets := [at, at + 2];
    var g := Gap(at + 1, end);
    assert Spans(g, resets[1]) && IsSamplingHole(g, resets[1], snapshots);
    assert Represents([at], resets) by {
      hide *;
      FirstRepresents(at);
    }
    hide Kept, IsSamplingHole, Represents, SpanningOf;
    KeptRepresents(resets);
    SpanningHolds(Kept(resets), [g], snapshots, g);
    RepresentativesAreUnique(resets, Kept(resets), [at]);
  }

  lemma FirstRepresents(at: int)
    ensures Represents([at], [at, at + 2])
  {
    NearAt([at], 0, at);
    NearAt([at], 0, at + 2);
    hide Near;
  }
}
