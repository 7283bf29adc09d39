/**
 The coverage denominator: which spans were postponed, how they merge, and how many sampling
 opportunities the policies owed over an interval. Instants are nanoseconds.
 */
module Coverage {
  import opened Common
  import opened Orders
  import opened TimeMeasure

  /** A resolved policy, with the two ceilings its back-off text records. */
  datatype PolicySnapshot = PolicySnapshot(
    effectiveAt: int, cadence: nat, retryCap: Option<nat>, authBackoff: Option<AuthBackoff>)

  datatype AuthBackoff = AuthBackoff(threshold: nat, cap: nat)

  datatype AttemptResult = AttemptResult(finishedAt: int, retryAfter: Option<nat>, isAuthRequired: bool)

  datatype Attempt = Attempt(startedAt: int, result: Option<AttemptResult>, credentialChanged: bool)

  const U32_MAX: nat := 0xFFFF_FFFF
  const U64_MAX: nat := 0xFFFF_FFFF_FFFF_FFFF

  // ---------------------------------------------------------------- the policy in force

  ghost predicate Chronological(snapshots: seq<PolicySnapshot>) {
    forall i, j :: 0 <= i < j < |snapshots| ==> snapshots[i].effectiveAt <= snapshots[j].effectiveAt
  }

  /** The last snapshot effective at or before `at`. */
  function InForce(snapshots: seq<PolicySnapshot>, at: int): (k: Option<nat>)
    ensures k.Some? ==> k.value < |snapshots| && snapshots[k.value].effectiveAt <= at
    ensures k.Some? ==> forall j :: k.value < j < |snapshots| ==> snapshots[j].effectiveAt > at
    ensures k.None? ==> forall j :: 0 <= j < |snapshots| ==> snapshots[j].effectiveAt > at
  {
    if snapshots == [] then None
    else if snapshots[|snapshots| - 1].effectiveAt <= at then Some(|snapshots| - 1)
    else InForce(snapshots[..|snapshots| - 1], at)
  }

  function CadenceAt(snapshots: seq<PolicySnapshot>, at: int): Option<nat> {
    match InForce(snapshots, at)
    case None => None
    case Some(k) => Some(snapshots[k].cadence)
  }

  // ---------------------------------------------------------------- merging

  predicate PostponementLess(a: Postponement, b: Postponement) {
    a.start < b.start || (a.start == b.start && a.end < b.end)
  }

  /** Extends the last interval when `interval` overlaps or touches it, appends it otherwise. */
  function Absorb(merged: seq<Postponement>, interval: Postponement): seq<Postponement> {
    if merged != [] && interval.start <= merged[|merged| - 1].end then
      var last := merged[|merged| - 1];
      merged[..|merged| - 1] + [Postponement(last.start, Max(last.end, interval.end))]
    else
      merged + [interval]
  }

  lemma AbsorbCovers(merged: seq<Postponement>, interval: Postponement, t: int)
    requires merged != [] ==> merged[|merged| - 1].start <= interval.start
    ensures Covered(Absorb(merged, interval), t) <==> Covered(merged, t) || Covers(interval, t)
  {
    if merged != [] && interval.start <= merged[|merged| - 1].end {
      var n := |merged| - 1;
      assert merged == merged[..n] + [merged[n]];
      CoveredParts(merged[..n], merged[n], t);
      CoveredParts(merged[..n], Postponement(merged[n].start, Max(merged[n].end, interval.end)), t);
    } else {
      CoveredParts(merged, interval, t);
    }
  }

  lemma AbsorbSeparates(merged: seq<Postponement>, interval: Postponement)
    requires Separated(merged)
    requires merged != [] ==> merged[|merged| - 1].start <= interval.start
    ensures Separated(Absorb(merged, interval))
  {
    if merged != [] && interval.start > merged[|merged| - 1].end {
      var n := |merged| - 1;
      forall i | 0 <= i < n ensures merged[i].end < interval.start {
        assert merged[i].end < merged[n].start;
      }
    }
  }

  method MergePostponements(intervals: seq<Postponement>) returns (merged: seq<Postponement>)
    ensures Separated(merged)
    ensures forall t :: Covered(merged, t) <==> Covered(intervals, t)
  {
    var sorted := Sort(PostponementLess, intervals);
    SortSorts(PostponementLess, intervals);
    SameElementsCoverSame(sorted, intervals);
    merged := [];
    for i := 0 to |sorted|
      invariant Separated(merged)
      invariant merged != [] ==> i > 0 && merged[|merged| - 1].start <= sorted[i - 1].start
      invariant forall t :: Covered(merged, t) <==> Covered(sorted[..i], t)
    {
      var interval := sorted[i];
      assert i > 0 ==> !PostponementLess(sorted[i], sorted[i - 1]);
      assert sorted[..i + 1] == sorted[..i] + [interval];
      forall t ensures Covered(Absorb(merged, interval), t) <==> Covered(sorted[..i + 1], t) {
        CoveredParts(sorted[..i], interval, t);
        AbsorbCovers(merged, interval, t);
      }
      AbsorbSeparates(merged, interval);
      if merged != [] && interval.start <= merged[|merged| - 1].end {
        var last := merged[|merged| - 1];
        merged := merged[..|merged| - 1] + [Postponement(last.start, Max(last.end, interval.end))];
      } else {
        merged := merged + [interval];
      }
    }
    assert sorted[..|sorted|] == sorted;
  }

  lemma SameElementsCoverSame(ps: seq<Postponement>, qs: seq<Postponement>)
    requires forall p :: p in ps <==> p in qs
    ensures forall t :: Covered(ps, t) <==> Covered(qs, t)
  {
    forall t ensures Covered(ps, t) <==> Covered(qs, t) {
      if Covered(ps, t) {
        var i :| 0 <= i < |ps| && Covers(ps[i], t);
        assert ps[i] in qs;
      }
      if Covered(qs, t) {
        var i :| 0 <= i < |qs| && Covers(qs[i], t);
        assert qs[i] in ps;
      }
    }
  }

  /** The summed overlap of a span with separated intervals is the number of covered
      instants in it, so it never exceeds the span. */
  method PostponementOverlap(a: int, b: int, postponements: seq<Postponement>) returns (total: nat)
    requires Separated(postponements)
    ensures total == CoveredNanos(postponements, a, b)
    ensures a <= b ==> total <= b - a
  {
    total := 0;
    for i := 0 to |postponements|
      invariant total == ClippedSum(postponements[..i], a, b)
    {
      var p := postponements[i];
      assert postponements[..i + 1][..i] == postponements[..i];
      var overlapStart, overlapEnd := Max(a, p.start), Min(b, p.end);
      if overlapEnd > overlapStart {
        total := total + (overlapEnd - overlapStart);
      }
    }
    assert postponements[..|postponements|] == postponements;
    ClippedSumIsMeasure(postponements, a, b);
    if a <= b {
      MeasureIsBounded(postponements, a, b);
    }
  }

  lemma ProductIsMonotone(d: nat, x: nat, y: nat)
    requires x <= y
    ensures d * x <= d * y
  {
  }

  // ---------------------------------------------------------------- what was postponed

  function Pow2(n: nat): (p: nat)
    ensures p >= 1
  {
    if n == 0 then 1 else 2 * Pow2(n - 1)
  }

  /** The doubling delay of an authentication back-off, capped; nothing below the threshold. */
  function AuthBackoffDelay(cadence: nat, threshold: nat, cap: nat, streak: nat): Option<nat> {
    if threshold == 0 || streak < threshold then None
    else
      var excess := streak - threshold;
      var shift := if excess + 1 < 30 then excess + 1 else 30;
      var grown := if cadence * Pow2(shift) < U64_MAX then cadence * Pow2(shift) else U64_MAX;
      var delay := if grown < cap then grown else cap;
      if delay == 0 then None else Some(delay)
  }

  lemma {:induction false} Pow2IsMonotone(m: nat, n: nat)
    requires m <= n
    ensures Pow2(m) <= Pow2(n)
    decreases n
  {
    if m < n {
      Pow2IsMonotone(m, n - 1);
    }
  }

  function BackoffNanos(cadence: nat, threshold: nat, cap: nat, streak: nat): nat {
    var delay := AuthBackoffDelay(cadence, threshold, cap, streak);
    if delay.Some? then delay.value else 0
  }

  /** The back-off waits two cadences at the threshold, twice as long after each further
      rejection, thirty doublings at most and never beyond its cap. */
  lemma BackoffDoubles(cadence: nat, threshold: nat, cap: nat, streak: nat)
    requires cap <= 0xFFFF_FFFF_FFFF_FFFF
    ensures AuthBackoffDelay(cadence, threshold, cap, streak) != Some(0)
    ensures streak < threshold || threshold == 0 ==> BackoffNanos(cadence, threshold, cap, streak) == 0
    ensures threshold > 0 ==> BackoffNanos(cadence, threshold, cap, threshold) == Min(2 * cadence, cap)
    ensures 0 < threshold <= streak < threshold + 29 ==>
      BackoffNanos(cadence, threshold, cap, streak + 1) == Min(2 * BackoffNanos(cadence, threshold, cap, streak), cap)
    ensures threshold + 29 <= streak ==>
      BackoffNanos(cadence, threshold, cap, streak) == BackoffNanos(cadence, threshold, cap, threshold + 29)
  {
    assert Pow2(1) == 2 * Pow2(0);
    if threshold <= streak < threshold + 29 {
      var shift := streak - threshold + 1;
      assert Pow2(shift + 1) == 2 * Pow2(shift);
      assert cadence * Pow2(shift + 1) == 2 * (cadence * Pow2(shift));
    }
  }

  /** A longer streak never waits less, and no streak waits beyond the cap. */
  lemma LongerStreakWaitsLonger(cadence: nat, threshold: nat, cap: nat, shorter: nat, longer: nat)
    requires shorter <= longer && AuthBackoffDelay(cadence, threshold, cap, shorter).Some?
    ensures AuthBackoffDelay(cadence, threshold, cap, longer).Some?
    ensures AuthBackoffDelay(cadence, threshold, cap, shorter).value
         <= AuthBackoffDelay(cadence, threshold, cap, longer).value <= cap
  {
    var s := if shorter - threshold + 1 < 30 then shorter - threshold + 1 else 30;
    var l := if longer - threshold + 1 < 30 then longer - threshold + 1 else 30;
    Pow2IsMonotone(s, l);
    ProductIsMonotone(cadence, Pow2(s), Pow2(l));
  }

  /** The trailing run of authentication rejections after `n` attempts, as the loop keeps it. */
  function Streak(attempts: seq<Attempt>, n: nat): (streak: nat)
    requires n <= |attempts|
    ensures streak <= 0xFFFF_FFFF
  {
    if n == 0 then 0
    else
      var attempt := attempts[n - 1];
      if attempt.result.None? || !attempt.result.value.isAuthRequired then 0
      else
        var before := if attempt.credentialChanged then 0 else Streak(attempts, n - 1);
        if before < U32_MAX then before + 1 else U32_MAX
  }

  ghost predicate Rejected(a: Attempt) {
    a.result.Some? && a.result.value.isAuthRequired
  }

  /** The last `k` of the first `n` attempts were all rejected, with one credential. */
  ghost predicate RejectedRun(attempts: seq<Attempt>, n: nat, k: nat)
    requires n <= |attempts|
  {
    && k <= n
    && (forall j :: n - k <= j < n ==> Rejected(attempts[j]))
    && (forall j :: n - k < j < n ==> !attempts[j].credentialChanged)
  }

  /** The streak reaches `k` exactly when the last `k` attempts form such a run. */
  lemma {:induction false} StreakIsRun(attempts: seq<Attempt>, n: nat, k: nat)
    requires n <= |attempts| && k <= 0xFFFF_FFFF
    ensures Streak(attempts, n) >= k <==> RejectedRun(attempts, n, k)
  {
    if n > 0 && k > 0 {
      StreakIsRun(attempts, n - 1, k - 1);
      var last := attempts[n - 1];
      if RejectedRun(attempts, n, k) {
        assert Rejected(attempts[n - 1]);
        assert RejectedRun(attempts, n - 1, k - 1);
      } else if Rejected(last) && k > 1 && !last.credentialChanged {
        assert !RejectedRun(attempts, n - 1, k - 1);
      }
    }
  }

  /** What one finished attempt postpones: a `Retry-After` delay, capped, and a back-off after
      repeated rejections, each only when longer than the cadence in force. */
  function HoldsOf(result: AttemptResult, streak: nat, snapshots: seq<PolicySnapshot>): seq<Postponement> {
    match InForce(snapshots, result.finishedAt)
    case None => []
    case Some(k) => RetryHold(result, snapshots[k]) + AuthHold(result, streak, snapshots[k])
  }

  function Hold(from: int, length: nat, cadence: nat): seq<Postponement> {
    if length > cadence then [Postponement(from, from + length)] else []
  }

  function RetryHold(result: AttemptResult, policy: PolicySnapshot): seq<Postponement> {
    match result.retryAfter
    case None => []
    case Some(delay) =>
      Hold(result.finishedAt,
           if policy.retryCap.Some? && policy.retryCap.value < delay then policy.retryCap.value else delay,
           policy.cadence)
  }

  function AuthHold(result: AttemptResult, streak: nat, policy: PolicySnapshot): seq<Postponement> {
    if !result.isAuthRequired || policy.authBackoff.None? then []
    else
      match AuthBackoffDelay(policy.cadence, policy.authBackoff.value.threshold, policy.authBackoff.value.cap, streak)
      case None => []
      case Some(delay) => Hold(result.finishedAt, delay, policy.cadence)
  }

  /** Every hold of the first `n` attempts. */
  function Holds(attempts: seq<Attempt>, snapshots: seq<PolicySnapshot>, n: nat): seq<Postponement>
    requires n <= |attempts|
  {
    if n == 0 then []
    else
      Holds(attempts, snapshots, n - 1)
      + (if attempts[n - 1].result.None? then []
         else HoldsOf(attempts[n - 1].result.value, Streak(attempts, n), snapshots))
  }

  /** An attempt that finished under a policy still postpones `t`: its `Retry-After` has not run
      out, or the back-off its rejections earned has not; neither counts when no longer than the
      cadence. */
  ghost predicate StillHolds(attempts: seq<Attempt>, snapshots: seq<PolicySnapshot>, i: nat, t: int)
    requires i < |attempts|
  {
    && attempts[i].result.Some?
    && var result := attempts[i].result.value;
       var elapsed := t - result.finishedAt;
       && elapsed >= 0 && InForce(snapshots, result.finishedAt).Some?
       && var p := snapshots[InForce(snapshots, result.finishedAt).value];
          var longest := Max(elapsed, p.cadence);
          || (result.retryAfter.Some? && longest < result.retryAfter.value
              && (p.retryCap.Some? ==> longest < p.retryCap.value))
          || (result.isAuthRequired && p.authBackoff.Some?
              && longest < BackoffNanos(p.cadence, p.authBackoff.value.threshold, p.authBackoff.value.cap,
                                        Streak(attempts, i + 1)))
  }

  lemma HoldsOfCover(attempts: seq<Attempt>, snapshots: seq<PolicySnapshot>, i: nat, t: int)
    requires i < |attempts|
    ensures StillHolds(attempts, snapshots, i, t) <==>
      attempts[i].result.Some? && Covered(HoldsOf(attempts[i].result.value, Streak(attempts, i + 1), snapshots), t)
  {
    hide InForce, Streak, AuthBackoffDelay;
    if attempts[i].result.Some? {
      var result, streak := attempts[i].result.value, Streak(attempts, i + 1);
      if k :| InForce(snapshots, result.finishedAt) == Some(k) {
        var retry, auth := RetryHold(result, snapshots[k]), AuthHold(result, streak, snapshots[k]);
        assert Covered(retry, t) <==> retry != [] && Covers(retry[0], t);
        assert Covered(auth, t) <==> auth != [] && Covers(auth[0], t);
        BothCover(retry, auth, t);
      } else {
        assert !Covered([], t);
      }
    }
  }

  lemma BothCover(a: seq<Postponement>, b: seq<Postponement>, t: int)
    ensures Covered(a + b, t) <==> Covered(a, t) || Covered(b, t)
  {
    var both := a + b;
    if i :| 0 <= i < |a| && Covers(a[i], t) {
      assert both[i] == a[i];
    }
    if i :| 0 <= i < |b| && Covers(b[i], t) {
      assert both[|a| + i] == b[i];
    }
  }

  lemma NextHolds(attempts: seq<Attempt>, snapshots: seq<PolicySnapshot>, n: nat, t: int)
    requires n < |attempts|
    ensures Covered(Holds(attempts, snapshots, n + 1), t) <==>
      Covered(Holds(attempts, snapshots, n), t) || StillHolds(attempts, snapshots, n, t)
  {
    HoldsOfCover(attempts, snapshots, n, t);
    hide StillHolds, HoldsOf, Streak, Covered;
    var before := Holds(attempts, snapshots, n);
    if attempts[n].result.Some? {
      BothCover(before, HoldsOf(attempts[n].result.value, Streak(attempts, n + 1), snapshots), t);
    } else {
      assert before + [] == before;
    }
  }

  ghost predicate SomeHolds(attempts: seq<Attempt>, snapshots: seq<PolicySnapshot>, n: nat, t: int)
    requires n <= |attempts|
  {
    exists i :: 0 <= i < n && StillHolds(attempts, snapshots, i, t)
  }

  lemma OneMoreHolds(attempts: seq<Attempt>, snapshots: seq<PolicySnapshot>, n: nat, t: int)
    requires n < |attempts|
    ensures SomeHolds(attempts, snapshots, n + 1, t) <==>
      SomeHolds(attempts, snapshots, n, t) || StillHolds(attempts, snapshots, n, t)
  {
    hide StillHolds;
  }

  lemma NothingHoldsAtFirst(attempts: seq<Attempt>, snapshots: seq<PolicySnapshot>, t: int)
    ensures !Covered(Holds(attempts, snapshots, 0), t) && !SomeHolds(attempts, snapshots, 0, t)
  {
    hide StillHolds;
    assert Holds(attempts, snapshots, 0) == [];
  }

  /** An instant is postponed exactly when some finished attempt still holds then. */
  lemma {:induction false} PostponedExactlyWhen(attempts: seq<Attempt>, snapshots: seq<PolicySnapshot>, n: nat, t: int)
    requires n <= |attempts|
    ensures Covered(Holds(attempts, snapshots, n), t) <==> SomeHolds(attempts, snapshots, n, t)
  {
    hide *;
    if n == 0 {
      NothingHoldsAtFirst(attempts, snapshots, t);
    } else {
      PostponedExactlyWhen(attempts, snapshots, n - 1, t);
      NextHolds(attempts, snapshots, n - 1, t);
      OneMoreHolds(attempts, snapshots, n - 1, t);
    }
  }

  /** The part of the loop that reads one finished attempt. */
  method PushHolds(out: seq<Postponement>, result: AttemptResult, authStreak: nat, snapshots: seq<PolicySnapshot>)
    returns (extended: seq<Postponement>)
    ensures extended == out + HoldsOf(result, authStreak, snapshots)
  {
    extended := out;
    var policy := InForce(snapshots, result.finishedAt);
    hide InForce, AuthBackoffDelay;
    if policy.None? {
      return;
    }
    var p := snapshots[policy.value];
    if result.retryAfter.Some? {
      var effective := result.retryAfter.value;
      if p.retryCap.Some? && p.retryCap.value < effective {
        effective := p.retryCap.value;
      }
      if effective > p.cadence {
        extended := extended + [Postponement(result.finishedAt, result.finishedAt + effective)];
      }
    }
    assert extended == out + RetryHold(result, p);
    if result.isAuthRequired && p.authBackoff.Some? {
      var delay := AuthBackoffDelay(p.cadence, p.authBackoff.value.threshold, p.authBackoff.value.cap, authStreak);
      if delay.Some? && delay.value > p.cadence {
        extended := extended + [Postponement(result.finishedAt, result.finishedAt + delay.value)];
      }
    }
  }

  method Postponements(attempts: seq<Attempt>, snapshots: seq<PolicySnapshot>) returns (merged: seq<Postponement>)
    ensures Separated(merged)
    ensures forall t :: Covered(merged, t) <==> Covered(Holds(attempts, snapshots, |attempts|), t)
  {
    var out: seq<Postponement> := [];
    var authStreak: nat := 0;
    hide HoldsOf, Covered;
    for i := 0 to |attempts|
      invariant authStreak == Streak(attempts, i)
      invariant out == Holds(attempts, snapshots, i)
    {
      var attempt := attempts[i];
      if attempt.result.None? {
        authStreak := 0;
        continue;
      }
      var result := attempt.result.value;
      if attempt.credentialChanged {
        authStreak := 0;
      }
      if result.isAuthRequired {
        authStreak := if authStreak < U32_MAX then authStreak + 1 else U32_MAX;
      } else {
        authStreak := 0;
      }
      out := PushHolds(out, result, authStreak, snapshots);
    }
    merged := MergePostponements(out);
  }

  // ---------------------------------------------------------------- what was owed

  ghost predicate Charged(snapshots: seq<PolicySnapshot>, ps: seq<Postponement>, k: nat, t: int) {
    InForce(snapshots, t) == Some(k) && !Covered(ps, t)
  }

  ghost function ChargedTo(snapshots: seq<PolicySnapshot>, ps: seq<Postponement>, k: nat): int -> bool {
    t => Charged(snapshots, ps, k, t)
  }

  /** How many instants of `[a, b)` are charged to snapshot `k`: those at which it is the
      policy in force and no postponement holds. */
  ghost function ChargedNanos(snapshots: seq<PolicySnapshot>, ps: seq<Postponement>, k: nat, a: int, b: int): nat {
    Count(ChargedTo(snapshots, ps, k), a, b)
  }

  ghost predicate PositiveCadences(snapshots: seq<PolicySnapshot>) {
    forall k :: 0 <= k < |snapshots| ==> snapshots[k].cadence > 0
  }

  /** The whole cadences that fit in a time. */
  function WholeCadences(time: nat, cadence: nat): nat
    requires cadence > 0
  {
    time / cadence
  }

  /** The opportunities the first `n` snapshots owe over `[a, b)`: each the whole cadences
      that fit in the time charged to it. */
  ghost function Owed(snapshots: seq<PolicySnapshot>, ps: seq<Postponement>, a: int, b: int, n: nat): nat
    requires PositiveCadences(snapshots) && n <= |snapshots|
  {
    if n == 0 then 0
    else
      Owed(snapshots, ps, a, b, n - 1)
      + WholeCadences(ChargedNanos(snapshots, ps, n - 1, a, b), snapshots[n - 1].cadence)
  }

  /** `n` cadences fit in the time, and one more does not. */
  ghost predicate Fits(n: nat, time: nat, cadence: nat) {
    n * cadence <= time < (n + 1) * cadence
  }

  lemma WholeCadencesFit(time: nat, cadence: nat, n: nat)
    requires cadence > 0
    ensures Fits(n, time, cadence) <==> n == WholeCadences(time, cadence)
  {
    var q := time / cadence;
    assert time == cadence * q + time % cadence;
    if n < q {
      ProductIsMonotone(cadence, n + 1, q);
    } else if n > q {
      ProductIsMonotone(cadence, q + 1, n);
    }
  }

  function Total(ns: seq<nat>): nat {
    if ns == [] then 0 else Total(ns[..|ns| - 1]) + ns[|ns| - 1]
  }

  /** How many times each snapshot's cadence fits in the time charged to it over `[a, b)`. */
  ghost predicate Shares(snapshots: seq<PolicySnapshot>, ps: seq<Postponement>, a: int, b: int, ns: seq<nat>) {
    && |ns| == |snapshots|
    && forall k :: 0 <= k < |ns| ==> Fits(ns[k], ChargedNanos(snapshots, ps, k, a, b), snapshots[k].cadence)
  }

  /** What is owed is the total of each snapshot's share. */
  ghost predicate OwesShares(snapshots: seq<PolicySnapshot>, ps: seq<Postponement>, a: int, b: int, owed: nat) {
    exists ns :: Shares(snapshots, ps, a, b, ns) && owed == Total(ns)
  }

  lemma {:induction false} SharesOfFirst(snapshots: seq<PolicySnapshot>, ps: seq<Postponement>, a: int, b: int, n: nat)
    returns (ns: seq<nat>)
    requires PositiveCadences(snapshots) && n <= |snapshots|
    ensures |ns| == n && Total(ns) == Owed(snapshots, ps, a, b, n)
    ensures forall k :: 0 <= k < n ==> Fits(ns[k], ChargedNanos(snapshots, ps, k, a, b), snapshots[k].cadence)
  {
    hide ChargedNanos, Fits, WholeCadences;
    if n == 0 {
      ns := [];
    } else {
      var front := SharesOfFirst(snapshots, ps, a, b, n - 1);
      var share := WholeCadences(ChargedNanos(snapshots, ps, n - 1, a, b), snapshots[n - 1].cadence);
      WholeCadencesFit(ChargedNanos(snapshots, ps, n - 1, a, b), snapshots[n - 1].cadence, share);
      ns := front + [share];
      assert ns[..n - 1] == front;
    }
  }

  lemma OwedIsShares(snapshots: seq<PolicySnapshot>, ps: seq<Postponement>, a: int, b: int)
    requires PositiveCadences(snapshots)
    ensures OwesShares(snapshots, ps, a, b, Owed(snapshots, ps, a, b, |snapshots|))
  {
    hide ChargedNanos, Fits, Owed;
    var ns := SharesOfFirst(snapshots, ps, a, b, |snapshots|);
    assert Shares(snapshots, ps, a, b, ns);
  }

  /** Under one policy the opportunities owed are the whole cadences of unpostponed time. */
  lemma OnePolicyOwes(policy: PolicySnapshot, ps: seq<Postponement>, a: int, b: int)
    requires policy.cadence > 0 && policy.effectiveAt <= a <= b
    ensures CoveredNanos(ps, a, b) <= b - a
    ensures Fits(Owed([policy], ps, a, b, 1), b - a - CoveredNanos(ps, a, b), policy.cadence)
  {
    var charged := ChargedTo([policy], ps, 0);
    assert forall t :: a <= t < b ==> InForce([policy], t) == Some(0) by {
      assert [policy][..0] == [];
    }
    MeasureIsBounded(ps, a, b);
    CountDisjoint(charged, CoveredBy(ps), t => true, a, b);
    CountAll(t => true, a, b);
    WholeCadencesFit(ChargedNanos([policy], ps, 0, a, b), policy.cadence, Owed([policy], ps, a, b, 1));
    assert Owed([policy], ps, a, b, 0) == 0;
  }

  function EffectiveWithin(snapshots: seq<PolicySnapshot>, a: int, b: int): seq<int> {
    if snapshots == [] then []
    else
      EffectiveWithin(snapshots[..|snapshots| - 1], a, b)
      + (var e := snapshots[|snapshots| - 1].effectiveAt; if a < e < b then [e] else [])
  }

  lemma {:induction false} EffectiveWithinHolds(snapshots: seq<PolicySnapshot>, a: int, b: int)
    ensures forall k :: 0 <= k < |snapshots| && a < snapshots[k].effectiveAt < b ==>
      snapshots[k].effectiveAt in EffectiveWithin(snapshots, a, b)
    ensures forall e :: e in EffectiveWithin(snapshots, a, b) ==>
      a < e < b && exists k :: 0 <= k < |snapshots| && snapshots[k].effectiveAt == e
  {
    if snapshots != [] {
      EffectiveWithinHolds(snapshots[..|snapshots| - 1], a, b);
    }
  }

  function Earliest(times: seq<int>): (t: int)
    requires times != []
    ensures t in times && forall x :: x in times ==> t <= x
  {
    if |times| == 1 then times[0]
    else
      assert times == [times[0]] + times[1..];
      var rest := Earliest(times[1..]);
      if times[0] <= rest then times[0] else rest
  }

  /** The instant a policy covers the interval from. */
  function PolicyCoveredStart(start: int, end: int, snapshots: seq<PolicySnapshot>): Option<int> {
    if CadenceAt(snapshots, start).Some? then Some(start)
    else
      var later := EffectiveWithin(snapshots, start, end);
      if later == [] then None else Some(Earliest(later))
  }

  /** It is the first instant of the interval at which some policy is in force; there is none
      exactly when no policy is in force anywhere in the interval. */
  lemma CoveredStartIsFirst(start: int, end: int, snapshots: seq<PolicySnapshot>)
    requires start < end
    ensures match PolicyCoveredStart(start, end, snapshots)
            case None => forall t :: start <= t < end ==> InForce(snapshots, t).None?
            case Some(s) =>
              && start <= s < end && InForce(snapshots, s).Some?
              && forall t :: start <= t < s ==> InForce(snapshots, t).None?
  {
    EffectiveWithinHolds(snapshots, start, end);
    if CadenceAt(snapshots, start).None? {
      var later := EffectiveWithin(snapshots, start, end);
      forall t | start <= t < end && InForce(snapshots, t).Some?
        ensures later != [] && Earliest(later) <= t
      {
        assert snapshots[InForce(snapshots, t).value].effectiveAt in later;
      }
    }
  }

  predicate IntLess(a: int, b: int) {
    a < b
  }

  /** Between two consecutive boundaries one snapshot is in force throughout, and after them
      it never is again. */
  lemma SliceHasOnePolicy(snapshots: seq<PolicySnapshot>, x: int, y: int, end: int, k: nat)
    requires Chronological(snapshots) && x < y <= end
    requires InForce(snapshots, x) == Some(k)
    requires forall j :: 0 <= j < |snapshots| ==> !(x < snapshots[j].effectiveAt < y)
    requires y == end || exists j :: 0 <= j < |snapshots| && snapshots[j].effectiveAt == y
    ensures forall t :: x <= t < y ==> InForce(snapshots, t) == Some(k)
    ensures forall t :: y <= t < end ==> InForce(snapshots, t) != Some(k)
  {
    forall t | x <= t < y ensures InForce(snapshots, t) == Some(k) {
      assert snapshots[k].effectiveAt <= t;
      forall j | k < j < |snapshots| ensures snapshots[j].effectiveAt > t {
        assert snapshots[j].effectiveAt > x;
      }
    }
  }

  /** In a slice under one policy, that policy is charged every unpostponed instant and the
      others none. */
  lemma SliceCharge(snapshots: seq<PolicySnapshot>, ps: seq<Postponement>, x: int, y: int, end: int, k: nat, m: nat)
    requires x < y <= end
    requires forall t :: x <= t < y ==> InForce(snapshots, t) == Some(k)
    requires forall t :: y <= t < end ==> InForce(snapshots, t) != Some(k)
    ensures CoveredNanos(ps, x, y) <= y - x
    ensures m == k ==> ChargedNanos(snapshots, ps, m, x, end) == y - x - CoveredNanos(ps, x, y)
    ensures m == k ==> ChargedNanos(snapshots, ps, m, y, end) == 0
    ensures m != k ==> ChargedNanos(snapshots, ps, m, x, end) == ChargedNanos(snapshots, ps, m, y, end)
  {
    hide InForce;
    MeasureIsBounded(ps, x, y);
    var c := ChargedTo(snapshots, ps, m);
    CountSplit(c, x, y, end);
    if m == k {
      CountNone(c, y, end);
      CountDisjoint(c, CoveredBy(ps), t => true, x, y);
      CountAll(t => true, x, y);
    } else {
      CountNone(c, x, y);
    }
  }

  /** Charging a slice to the one policy in force there moves what is left to charge from the
      slice's start to its end. */
  lemma {:induction false} SliceIsCharged(snapshots: seq<PolicySnapshot>, ps: seq<Postponement>, x: int, y: int,
                                          end: int, k: nat, n: nat)
    requires PositiveCadences(snapshots) && n <= |snapshots| && k < |snapshots| && x < y <= end
    requires forall t :: x <= t < y ==> InForce(snapshots, t) == Some(k)
    requires forall t :: y <= t < end ==> InForce(snapshots, t) != Some(k)
    ensures CoveredNanos(ps, x, y) <= y - x
    ensures Owed(snapshots, ps, x, end, n) ==
      Owed(snapshots, ps, y, end, n)
      + if k < n then WholeCadences(y - x - CoveredNanos(ps, x, y), snapshots[k].cadence) else 0
  {
    MeasureIsBounded(ps, x, y);
    if n > 0 {
      SliceIsCharged(snapshots, ps, x, y, end, k, n - 1);
      SliceCharge(snapshots, ps, x, y, end, k, n - 1);
      hide InForce, ChargedNanos, CoveredNanos;
      if n - 1 == k {
        assert WholeCadences(0, snapshots[k].cadence) == 0;
      }
    }
  }

  lemma {:induction false} NothingOwedOverNothing(snapshots: seq<PolicySnapshot>, ps: seq<Postponement>, a: int, n: nat)
    requires PositiveCadences(snapshots) && n <= |snapshots|
    ensures Owed(snapshots, ps, a, a, n) == 0
  {
    if n > 0 {
      NothingOwedOverNothing(snapshots, ps, a, n - 1);
    }
  }

  datatype Expected = Expected(owed: nat, coveredSpan: nat)

  /** One turn of the loop over the boundaries: the slice has a cadence, what it owes is what
      moving on leaves uncharged, and the next boundary is again one with a policy in force
      or the end. */
  lemma SliceTurn(coveredStart: int, end: int, snapshots: seq<PolicySnapshot>, ps: seq<Postponement>,
                  boundaries: seq<int>, i: nat)
    requires Chronological(snapshots) && PositiveCadences(snapshots) && coveredStart <= end
    requires boundaries == Boundaries(coveredStart, end, EffectiveWithin(snapshots, coveredStart, end))
    requires i + 1 < |boundaries| && coveredStart <= boundaries[i]
    requires boundaries[i] == end || InForce(snapshots, boundaries[i]).Some?
    ensures boundaries[i] < boundaries[i + 1] <= end
    ensures boundaries[i + 1] == end || InForce(snapshots, boundaries[i + 1]).Some?
    ensures CadenceAt(snapshots, boundaries[i]).Some? && CadenceAt(snapshots, boundaries[i]).value > 0
    ensures
      var a, b := boundaries[i], boundaries[i + 1];
      && CoveredNanos(ps, a, b) <= b - a
      && Owed(snapshots, ps, a, end, |snapshots|) ==
           Owed(snapshots, ps, b, end, |snapshots|)
           + WholeCadences(b - a - CoveredNanos(ps, a, b), CadenceAt(snapshots, a).value)
  {
    var a, b := boundaries[i], boundaries[i + 1];
    BoundariesOfSpan(coveredStart, end, snapshots, boundaries);
    assert IntLess(a, b);
    assert b == end || IntLess(b, boundaries[|boundaries| - 1]);
    assert a in boundaries && b in boundaries;
    forall j | 0 <= j < |snapshots| ensures !(a < snapshots[j].effectiveAt < b) {
      if a < snapshots[j].effectiveAt < b {
        NothingBetween(boundaries, i, snapshots[j].effectiveAt);
      }
    }
    hide Boundaries, EffectiveWithin, Owed, CoveredNanos;
    var k := InForce(snapshots, a).value;
    SliceHasOnePolicy(snapshots, a, b, end, k);
    SliceIsCharged(snapshots, ps, a, b, end, k, |snapshots|);
  }

  lemma CoveredStartIsInside(start: int, end: int, snapshots: seq<PolicySnapshot>)
    requires start <= end && PolicyCoveredStart(start, end, snapshots).Some?
    ensures
      var s := PolicyCoveredStart(start, end, snapshots).value;
      start <= s <= end && (s == end || InForce(snapshots, s).Some?)
  {
    EffectiveWithinHolds(snapshots, start, end);
    if start < end {
      CoveredStartIsFirst(start, end, snapshots);
    }
  }

  /** What the loop makes of an interval that ends before it starts: one slice, walked from its
      end, under the policy in force at the end. */
  ghost function BackwardOwed(snapshots: seq<PolicySnapshot>, ps: seq<Postponement>, start: int, end: int): Option<nat>
    requires PositiveCadences(snapshots) && end < start
  {
    match InForce(snapshots, end)
    case None => None
    case Some(k) =>
      MeasureIsBounded(ps, end, start);
      Some(WholeCadences(start - end - CoveredNanos(ps, end, start), snapshots[k].cadence))
  }

  /** The cadence in force at the end fits so often in the unpostponed time back to it. */
  ghost predicate OwesBackward(snapshots: seq<PolicySnapshot>, ps: seq<Postponement>, start: int, end: int, owed: nat) {
    && InForce(snapshots, end).Some? && CoveredNanos(ps, end, start) <= start - end
    && Fits(owed, start - end - CoveredNanos(ps, end, start), snapshots[InForce(snapshots, end).value].cadence)
  }

  lemma BackwardFits(snapshots: seq<PolicySnapshot>, ps: seq<Postponement>, start: int, end: int)
    requires PositiveCadences(snapshots) && end < start
    ensures BackwardOwed(snapshots, ps, start, end).Some? ==>
      OwesBackward(snapshots, ps, start, end, BackwardOwed(snapshots, ps, start, end).value)
  {
    hide InForce, CoveredNanos, Fits, WholeCadences;
    if k :| InForce(snapshots, end) == Some(k) {
      MeasureIsBounded(ps, end, start);
      WholeCadencesFit(start - end - CoveredNanos(ps, end, start), snapshots[k].cadence,
                       BackwardOwed(snapshots, ps, start, end).value);
    }
  }

  /** An answer owes what the time charged to each snapshot comes to over the covered span. */
  ghost predicate OwesAsCharged(snapshots: seq<PolicySnapshot>, ps: seq<Postponement>, start: int, end: int,
                                expected: Option<Expected>)
  {
    expected.Some? ==>
      && (start <= end ==>
            OwesShares(snapshots, ps, end - expected.value.coveredSpan, end, expected.value.owed))
      && (end < start ==> OwesBackward(snapshots, ps, start, end, expected.value.owed))
  }

  /** The answer in terms of `Owed` owes as charged. */
  lemma OwedAsCharged(snapshots: seq<PolicySnapshot>, ps: seq<Postponement>, start: int, end: int,
                      expected: Option<Expected>)
    requires PositiveCadences(snapshots)
    requires expected.Some? && start <= end ==>
      && expected.value.owed
           == Owed(snapshots, ps, end - expected.value.coveredSpan, end, |snapshots|)
    requires expected.Some? && end < start ==>
      BackwardOwed(snapshots, ps, start, end) == Some(expected.value.owed)
    ensures OwesAsCharged(snapshots, ps, start, end, expected)
  {
    if expected.Some? {
      OwedIsShares(snapshots, ps, end - expected.value.coveredSpan, end);
      if end < start {
        BackwardFits(snapshots, ps, start, end);
      }
    }
    hide Owed, BackwardOwed, OwesShares, OwesBackward;
  }

  lemma BackwardBoundaries(start: int, end: int, snapshots: seq<PolicySnapshot>)
    requires end < start
    ensures Boundaries(start, end, EffectiveWithin(snapshots, start, end)) == [end, start]
  {
    var inner := EffectiveWithin(snapshots, start, end);
    EffectiveWithinHolds(snapshots, start, end);
    assert forall b :: b in inner ==> start < b < end;
    hide EffectiveWithin, Boundaries;
    BoundariesHold(start, end, inner);
    var boundaries := Boundaries(start, end, inner);
    assert forall b :: b in boundaries <==> b in [end, start];
    hide *;
    AscendingPair(boundaries, end, start);
  }

  lemma AscendingPair(s: seq<int>, lo: int, hi: int)
    requires lo < hi && StrictlyAscending(IntLess, s) && forall b :: b in s <==> b in [lo, hi]
    ensures s == [lo, hi]
  {
    forall i | 0 <= i < |s| ensures s[i] == lo || s[i] == hi {
      assert s[i] in s;
    }
    assert lo in s && hi in s;
    assert |s| > 2 ==> IntLess(s[0], s[1]) && IntLess(s[1], s[2]);
    assert |s| > 1 ==> IntLess(s[0], s[1]);
  }

  /** What the slices between the first `n + 1` boundaries owe; nothing is known once a slice
      has no policy. */
  ghost function SlicesOwed(snapshots: seq<PolicySnapshot>, ps: seq<Postponement>, boundaries: seq<int>,
                            n: nat): Option<nat>
    requires PositiveCadences(snapshots) && n < |boundaries|
  {
    if n == 0 then Some(0)
    else
      var a, b := boundaries[n - 1], boundaries[n];
      match (SlicesOwed(snapshots, ps, boundaries, n - 1), InForce(snapshots, a))
      case (Some(total), Some(k)) =>
        Some(total + WholeCadences(Max(Max(b - a, 0) - CoveredNanos(ps, a, b), 0), snapshots[k].cadence))
      case _ => None
  }

  /** Forward, the slices owe what moving on leaves uncharged. */
  lemma {:induction false} ForwardSlices(coveredStart: int, end: int, snapshots: seq<PolicySnapshot>,
                                         ps: seq<Postponement>, boundaries: seq<int>, n: nat)
    requires Chronological(snapshots) && PositiveCadences(snapshots) && coveredStart <= end
    requires coveredStart == end || InForce(snapshots, coveredStart).Some?
    requires boundaries == Boundaries(coveredStart, end, EffectiveWithin(snapshots, coveredStart, end))
    requires n < |boundaries|
    ensures coveredStart <= boundaries[n] <= end
    ensures boundaries[n] == end || InForce(snapshots, boundaries[n]).Some?
    ensures SlicesOwed(snapshots, ps, boundaries, n).Some?
    ensures SlicesOwed(snapshots, ps, boundaries, n).value + Owed(snapshots, ps, boundaries[n], end, |snapshots|)
         == Owed(snapshots, ps, coveredStart, end, |snapshots|)
  {
    hide Boundaries, EffectiveWithin, Owed, InForce, CoveredNanos, WholeCadences;
    if n == 0 {
      BoundariesOfSpan(coveredStart, end, snapshots, boundaries);
    } else {
      ForwardSlices(coveredStart, end, snapshots, ps, boundaries, n - 1);
      SliceTurn(coveredStart, end, snapshots, ps, boundaries, n - 1);
    }
  }

  /** The loop over consecutive boundaries. */
  method OwedOverSlices(snapshots: seq<PolicySnapshot>, postponements: seq<Postponement>, boundaries: seq<int>)
    returns (owed: Option<nat>)
    requires PositiveCadences(snapshots) && Separated(postponements) && boundaries != []
    ensures owed == SlicesOwed(snapshots, postponements, boundaries, |boundaries| - 1)
  {
    hide InForce, CoveredNanos, WholeCadences;
    var total: nat := 0;
    for i := 0 to |boundaries| - 1
      invariant SlicesOwed(snapshots, postponements, boundaries, i) == Some(total)
    {
      var a, b := boundaries[i], boundaries[i + 1];
      var cadence := CadenceAt(snapshots, a);
      if cadence.None? {
        LaterSlicesUnknown(snapshots, postponements, boundaries, i + 1, |boundaries| - 1);
        return None;
      }
      var duration := Max(b - a, 0);
      var overlap := PostponementOverlap(a, b, postponements);
      total := total + WholeCadences(Max(duration - overlap, 0), cadence.value);
    }
    owed := Some(total);
  }

  lemma {:induction false} LaterSlicesUnknown(snapshots: seq<PolicySnapshot>, ps: seq<Postponement>,
                                              boundaries: seq<int>, i: nat, n: nat)
    requires PositiveCadences(snapshots) && i <= n < |boundaries|
    requires SlicesOwed(snapshots, ps, boundaries, i).None?
    ensures SlicesOwed(snapshots, ps, boundaries, n).None?
  {
    if i < n {
      LaterSlicesUnknown(snapshots, ps, boundaries, i, n - 1);
    }
  }

  lemma SpanOwed(coveredStart: int, end: int, snapshots: seq<PolicySnapshot>, ps: seq<Postponement>,
                 boundaries: seq<int>)
    requires Chronological(snapshots) && PositiveCadences(snapshots)
    requires boundaries == Boundaries(coveredStart, end, EffectiveWithin(snapshots, coveredStart, end))
    ensures boundaries != []
    ensures coveredStart <= end && (coveredStart == end || InForce(snapshots, coveredStart).Some?) ==>
      SlicesOwed(snapshots, ps, boundaries, |boundaries| - 1)
        == Some(Owed(snapshots, ps, coveredStart, end, |snapshots|))
    ensures end < coveredStart ==>
      SlicesOwed(snapshots, ps, boundaries, |boundaries| - 1) == BackwardOwed(snapshots, ps, coveredStart, end)
  {
    hide Boundaries, EffectiveWithin, Owed, InForce, CoveredNanos, WholeCadences, SlicesOwed, BackwardOwed;
    BoundariesOfSpan(coveredStart, end, snapshots, boundaries);
    if end < coveredStart {
      BackwardBoundaries(coveredStart, end, snapshots);
      OneBackwardSlice(coveredStart, end, snapshots, ps);
    } else if coveredStart == end || InForce(snapshots, coveredStart).Some? {
      ForwardSlices(coveredStart, end, snapshots, ps, boundaries, |boundaries| - 1);
      NothingOwedOverNothing(snapshots, ps, end, |snapshots|);
    }
  }

  lemma OneBackwardSlice(start: int, end: int, snapshots: seq<PolicySnapshot>, ps: seq<Postponement>)
    requires PositiveCadences(snapshots) && end < start
    ensures SlicesOwed(snapshots, ps, [end, start], 1) == BackwardOwed(snapshots, ps, start, end)
  {
    hide InForce, CoveredNanos, WholeCadences;
    MeasureIsBounded(ps, end, start);
    assert SlicesOwed(snapshots, ps, [end, start], 0) == Some(0);
  }

  lemma BackwardStart(start: int, end: int, snapshots: seq<PolicySnapshot>)
    requires end < start
    ensures PolicyCoveredStart(start, end, snapshots) == if InForce(snapshots, start).Some? then Some(start) else None
  {
    EffectiveWithinHolds(snapshots, start, end);
    var later := EffectiveWithin(snapshots, start, end);
    assert later != [] ==> later[0] in later;
  }

  /** The answer over an interval: nothing when no policy covers it; otherwise what the policies owe
      from the covered start on, and the covered span. */
  ghost predicate IsExpected(snapshots: seq<PolicySnapshot>, ps: seq<Postponement>, start: int, end: int,
                             expected: Option<Expected>)
    requires PositiveCadences(snapshots)
  {
    if start <= end then
      match PolicyCoveredStart(start, end, snapshots)
      case None => expected.None?
      case Some(s) => s <= end && expected == Some(Expected(Owed(snapshots, ps, s, end, |snapshots|), end - s))
    else
      expected == if InForce(snapshots, start).None? then None
                  else match BackwardOwed(snapshots, ps, start, end)
                    case None => None
                    case Some(owed) => Some(Expected(owed, 0))
  }

  lemma ExpectedOwesAsCharged(snapshots: seq<PolicySnapshot>, ps: seq<Postponement>, start: int, end: int,
                              expected: Option<Expected>)
    requires PositiveCadences(snapshots) && IsExpected(snapshots, ps, start, end, expected)
    ensures OwesAsCharged(snapshots, ps, start, end, expected)
  {
    hide PolicyCoveredStart, Owed, InForce, BackwardOwed, OwesAsCharged;
    OwedAsCharged(snapshots, ps, start, end, expected);
  }

  lemma ExpectedByCoverage(snapshots: seq<PolicySnapshot>, ps: seq<Postponement>, qs: seq<Postponement>,
                           start: int, end: int, expected: Option<Expected>)
    requires PositiveCadences(snapshots) && IsExpected(snapshots, ps, start, end, expected)
    requires forall t :: Covered(ps, t) <==> Covered(qs, t)
    ensures IsExpected(snapshots, qs, start, end, expected)
  {
    hide PolicyCoveredStart, Owed, InForce, BackwardOwed, Covered;
    if end < start {
      BackwardByCoverage(snapshots, ps, qs, start, end);
    } else if expected.Some? {
      OwedByCoverage(snapshots, ps, qs, PolicyCoveredStart(start, end, snapshots).value, end, |snapshots|);
    }
  }

  /** The slice-by-slice reconstruction charges every instant of the covered span to the
      policy in force at that instant, and it never meets a slice without a policy. */
  method ExpectedOpportunities(start: int, end: int, snapshots: seq<PolicySnapshot>, postponements: seq<Postponement>)
    returns (expected: Option<Expected>)
    requires Chronological(snapshots) && PositiveCadences(snapshots) && Separated(postponements)
    ensures IsExpected(snapshots, postponements, start, end, expected)
    ensures OwesAsCharged(snapshots, postponements, start, end, expected)
  {
    var covered := PolicyCoveredStart(start, end, snapshots);
    if end < start {
      BackwardStart(start, end, snapshots);
    }
    if covered.None? {
      return None;
    }
    if start <= end {
      CoveredStartIsInside(start, end, snapshots);
    }
    hide PolicyCoveredStart, Owed, InForce, BackwardOwed, SlicesOwed, Boundaries, EffectiveWithin, OwesAsCharged;
    var coveredSpan := Max(end - covered.value, 0);
    var boundaries := Boundaries(covered.value, end, EffectiveWithin(snapshots, covered.value, end));
    SpanOwed(covered.value, end, snapshots, postponements, boundaries);
    var owed := OwedOverSlices(snapshots, postponements, boundaries);
    if owed.None? {
      return None;
    }
    expected := Some(Expected(owed.value, coveredSpan));
    ExpectedOwesAsCharged(snapshots, postponements, start, end, expected);
  }

  function Boundaries(coveredStart: int, end: int, inner: seq<int>): seq<int> {
    Dedup(Sort(IntLess, [coveredStart, end] + inner))
  }

  lemma BoundariesHold(coveredStart: int, end: int, inner: seq<int>)
    ensures StrictlyAscending(IntLess, Boundaries(coveredStart, end, inner))
    ensures forall b :: b in Boundaries(coveredStart, end, inner) <==> b == coveredStart || b == end || b in inner
  {
    var raw := [coveredStart, end] + inner;
    SortSorts(IntLess, raw);
    DedupOfSorted(IntLess, Sort(IntLess, raw));
    hide Sort, Dedup;
    assert forall b :: b in raw <==> b in [coveredStart, end] || b in inner;
  }

  lemma BoundariesOfSpan(coveredStart: int, end: int, snapshots: seq<PolicySnapshot>, boundaries: seq<int>)
    requires boundaries == Boundaries(coveredStart, end, EffectiveWithin(snapshots, coveredStart, end))
    ensures StrictlyAscending(IntLess, boundaries)
    ensures boundaries != []
    ensures coveredStart <= end ==> boundaries[0] == coveredStart && boundaries[|boundaries| - 1] == end
    ensures forall k :: 0 <= k < |snapshots| && coveredStart < snapshots[k].effectiveAt < end ==>
      snapshots[k].effectiveAt in boundaries
    ensures forall b :: b in boundaries && b != coveredStart && b != end ==>
      coveredStart < b < end && exists k :: 0 <= k < |snapshots| && snapshots[k].effectiveAt == b
  {
    EffectiveWithinHolds(snapshots, coveredStart, end);
    BoundariesHold(coveredStart, end, EffectiveWithin(snapshots, coveredStart, end));
    hide EffectiveWithin, Boundaries, StrictlyAscending;
    assert coveredStart in boundaries;
    if coveredStart <= end {
      LeastAndGreatest(boundaries, coveredStart, end);
    }
  }

  lemma LeastAndGreatest(s: seq<int>, lo: int, hi: int)
    requires StrictlyAscending(IntLess, s) && lo in s && hi in s
    requires forall x :: x in s ==> lo <= x <= hi
    ensures s[0] == lo && s[|s| - 1] == hi
  {
    var i :| 0 <= i < |s| && s[i] == lo;
    var j :| 0 <= j < |s| && s[j] == hi;
    assert s[0] in s && s[|s| - 1] in s;
    assert forall k :: 0 < k < |s| ==> IntLess(s[0], s[k]);
    assert forall k :: 0 <= k < |s| - 1 ==> IntLess(s[k], s[|s| - 1]);
  }

  lemma NothingBetween(boundaries: seq<int>, i: nat, e: int)
    requires StrictlyAscending(IntLess, boundaries) && i + 1 < |boundaries|
    requires e in boundaries
    ensures !(boundaries[i] < e < boundaries[i + 1])
  {
    var j :| 0 <= j < |boundaries| && boundaries[j] == e;
    assert j <= i ==> j == i || IntLess(boundaries[j], boundaries[i]);
    assert j >= i + 1 ==> j == i + 1 || IntLess(boundaries[i + 1], boundaries[j]);
  }

  /** Some snapshot before the `n`th is in force at `t`, and no postponement holds. */
  ghost function ChargeableTo(snapshots: seq<PolicySnapshot>, ps: seq<Postponement>, n: nat): int -> bool {
    t => InForce(snapshots, t).Some? && InForce(snapshots, t).value < n && !Covered(ps, t)
  }

  ghost function ChargedSum(snapshots: seq<PolicySnapshot>, ps: seq<Postponement>, a: int, b: int, n: nat): nat {
    if n == 0 then 0 else ChargedSum(snapshots, ps, a, b, n - 1) + ChargedNanos(snapshots, ps, n - 1, a, b)
  }

  /** Every unpostponed instant under a policy is charged to exactly one snapshot. */
  lemma {:induction false} ChargesPartition(snapshots: seq<PolicySnapshot>, ps: seq<Postponement>, a: int, b: int,
                                            n: nat)
    requires n <= |snapshots|
    ensures ChargedSum(snapshots, ps, a, b, n) == Count(ChargeableTo(snapshots, ps, n), a, b)
  {
    hide InForce, Covered;
    if n == 0 {
      CountNone(ChargeableTo(snapshots, ps, 0), a, b);
    } else {
      ChargesPartition(snapshots, ps, a, b, n - 1);
      CountDisjoint(ChargeableTo(snapshots, ps, n - 1), ChargedTo(snapshots, ps, n - 1),
                    ChargeableTo(snapshots, ps, n), a, b);
    }
  }

  lemma DivisionIsMonotone(x: nat, y: nat, d: nat)
    requires x <= y && d > 0
    ensures x / d <= y / d
  {
    var p, q := x / d, y / d;
    assert x == d * p + x % d && y == d * q + y % d;
    if p > q {
      ProductIsMonotone(d, q + 1, p);
    }
  }

  /** Postponing more never makes more owed. */
  lemma {:induction false} PostponingOwesLess(snapshots: seq<PolicySnapshot>, fewer: seq<Postponement>,
                                              more: seq<Postponement>, a: int, b: int, n: nat)
    requires PositiveCadences(snapshots) && n <= |snapshots|
    requires forall t :: a <= t < b && Covered(fewer, t) ==> Covered(more, t)
    ensures Owed(snapshots, more, a, b, n) <= Owed(snapshots, fewer, a, b, n)
  {
    if n > 0 {
      PostponingOwesLess(snapshots, fewer, more, a, b, n - 1);
      CountAtMost(ChargedTo(snapshots, more, n - 1), ChargedTo(snapshots, fewer, n - 1), a, b);
      DivisionIsMonotone(ChargedNanos(snapshots, more, n - 1, a, b),
                         ChargedNanos(snapshots, fewer, n - 1, a, b), snapshots[n - 1].cadence);
    }
  }

  lemma {:induction false} OwedByCoverage(snapshots: seq<PolicySnapshot>, ps: seq<Postponement>, qs: seq<Postponement>,
                                          a: int, b: int, n: nat)
    requires PositiveCadences(snapshots) && n <= |snapshots|
    requires forall t :: Covered(ps, t) <==> Covered(qs, t)
    ensures Owed(snapshots, ps, a, b, n) == Owed(snapshots, qs, a, b, n)
  {
    if n > 0 {
      OwedByCoverage(snapshots, ps, qs, a, b, n - 1);
      CountSame(ChargedTo(snapshots, ps, n - 1), ChargedTo(snapshots, qs, n - 1), a, b);
    }
  }

  lemma BackwardByCoverage(snapshots: seq<PolicySnapshot>, ps: seq<Postponement>, qs: seq<Postponement>, start: int,
                           end: int)
    requires PositiveCadences(snapshots) && end < start
    requires forall t :: Covered(ps, t) <==> Covered(qs, t)
    ensures BackwardOwed(snapshots, ps, start, end) == BackwardOwed(snapshots, qs, start, end)
  {
    CountSame(CoveredBy(ps), CoveredBy(qs), end, start);
    hide InForce, WholeCadences;
  }

  predicate EarlierPolicy(a: PolicySnapshot, b: PolicySnapshot) {
    a.effectiveAt < b.effectiveAt
  }

  predicate EarlierAttempt(a: Attempt, b: Attempt) {
    a.startedAt < b.startedAt
  }

  /** Attempts are read in the order they started, policies in the order they took effect, each of
      the records once. */
  lemma RecordsAreOrdered(records: seq<Attempt>, policySnapshots: seq<PolicySnapshot>)
    ensures
      var attempts := Sort(EarlierAttempt, records);
      && multiset(attempts) == multiset(records)
      && forall i, j :: 0 <= i < j < |attempts| ==> attempts[i].startedAt <= attempts[j].startedAt
    ensures multiset(Sort(EarlierPolicy, policySnapshots)) == multiset(policySnapshots)
    ensures
      var snapshots := Sort(EarlierPolicy, policySnapshots);
      forall i, j :: 0 <= i < j < |snapshots| ==> snapshots[i].effectiveAt <= snapshots[j].effectiveAt
  {
    SortSorts(EarlierAttempt, records);
    SortSorts(EarlierPolicy, policySnapshots);
    hide Sort;
    var attempts, snapshots := Sort(EarlierAttempt, records), Sort(EarlierPolicy, policySnapshots);
    forall i, j | 0 <= i < j < |attempts| ensures attempts[i].startedAt <= attempts[j].startedAt {
      assert !EarlierAttempt(attempts[j], attempts[i]);
    }
    forall i, j | 0 <= i < j < |snapshots| ensures snapshots[i].effectiveAt <= snapshots[j].effectiveAt {
      assert !EarlierPolicy(snapshots[j], snapshots[i]);
    }
  }

  lemma SortedSnapshots(policySnapshots: seq<PolicySnapshot>)
    requires PositiveCadences(policySnapshots)
    ensures Chronological(Sort(EarlierPolicy, policySnapshots))
    ensures PositiveCadences(Sort(EarlierPolicy, policySnapshots))
  {
    var snapshots := Sort(EarlierPolicy, policySnapshots);
    SortSorts(EarlierPolicy, policySnapshots);
    hide Sort;
    forall k | 0 <= k < |snapshots| ensures snapshots[k].cadence > 0 {
      assert snapshots[k] in policySnapshots;
    }
    forall i, j | 0 <= i < j < |snapshots| ensures snapshots[i].effectiveAt <= snapshots[j].effectiveAt {
      assert !EarlierPolicy(snapshots[j], snapshots[i]);
    }
  }

  /** The denominator of the coverage report, from records in any order: each whole cadence of
      time that a policy governed and no attempt's hold postponed. */
  method ExpectedFromRecords(start: int, end: int, policySnapshots: seq<PolicySnapshot>, records: seq<Attempt>)
    returns (expected: Option<Expected>)
    requires PositiveCadences(policySnapshots)
    ensures
      var snapshots := Sort(EarlierPolicy, policySnapshots);
      var attempts := Sort(EarlierAttempt, records);
      && PositiveCadences(snapshots)
      && IsExpected(snapshots, Holds(attempts, snapshots, |attempts|), start, end, expected)
      && OwesAsCharged(snapshots, Holds(attempts, snapshots, |attempts|), start, end, expected)
  {
    var snapshots := Sort(EarlierPolicy, policySnapshots);
    var attempts := Sort(EarlierAttempt, records);
    SortedSnapshots(policySnapshots);
    hide Sort, Holds, Covered, IsExpected, OwesAsCharged;
    var postponements := Postponements(attempts, snapshots);
    expected := ExpectedOpportunities(start, end, snapshots, postponements);
    ghost var holds := Holds(attempts, snapshots, |attempts|);
    ExpectedByCoverage(snapshots, postponements, holds, start, end, expected);
    ExpectedOwesAsCharged(snapshots, holds, start, end, expected);
  }
}
