/**
 The diagnostic patterns of a sequence of residuals, in micro-credits.
 */
module ResidualPatterns {
  import opened Reconciliation

  datatype Pattern = PersistentlyPositive | PersistentlyNegative | StepChange | AlternatingNetZero

  function Sum(s: seq<int>): int {
    if s == [] then 0 else s[0] + Sum(s[1..])
  }

  function Abs(x: int): nat {
    if x < 0 then -x else x
  }

  function AbsSum(s: seq<int>): nat {
    if s == [] then 0 else Abs(s[0]) + AbsSum(s[1..])
  }

  function Sign(x: int): int {
    if x > 0 then 1 else if x < 0 then -1 else 0
  }

  predicate AllPositive(s: seq<int>) {
    forall i :: 0 <= i < |s| ==> s[i] > 0
  }

  predicate AllNegative(s: seq<int>) {
    forall i :: 0 <= i < |s| ==> s[i] < 0
  }

  /** Neighbours are nonzero and of opposite sign. */
  ghost predicate Alternating(s: seq<int>) {
    forall i, j :: 0 <= i && j == i + 1 && j < |s| ==> Opposed(s[i], s[j])
  }

  predicate Opposed(x: int, y: int) {
    Sign(x) != 0 && Sign(y) != 0 && Sign(x) != Sign(y)
  }

  /** How far the mean of the second half is from that of the first, both truncated. */
  function Step(s: seq<int>): nat
    requires |s| >= 4
  {
    var mid := |s| / 2;
    Abs(TruncatedDiv(Sum(s[mid..]), |s| - mid) - TruncatedDiv(Sum(s[..mid]), mid))
  }

  ghost predicate NetsToZero(s: seq<int>) {
    |s| >= 4 && Alternating(s) && AbsSum(s) > 0 && Abs(Sum(s)) * 5 <= AbsSum(s)
  }

  ghost predicate Steps(s: seq<int>) {
    |s| >= 4 && !Alternating(s) && Step(s) > 0 && AbsSum(s) > 0 && Step(s) * |s| >= AbsSum(s)
  }

  ghost function Classify(s: seq<int>): seq<Pattern> {
    if |s| < 3 then []
    else
      (if AllPositive(s) then [PersistentlyPositive] else [])
      + (if AllNegative(s) then [PersistentlyNegative] else [])
      + (if NetsToZero(s) then [AlternatingNetZero] else [])
      + (if Steps(s) then [StepChange] else [])
  }

  method Alternates(residuals: seq<int>) returns (alternates: bool)
    requires residuals != []
    ensures alternates == Alternating(residuals)
  {
    alternates := true;
    for i := 1 to |residuals|
      invariant Alternating(residuals[..i])
    {
      var previous, current := Sign(residuals[i - 1]), Sign(residuals[i]);
      if previous == 0 || current == 0 || previous == current {
        assert !Opposed(residuals[i - 1], residuals[i]);
        return false;
      }
      assert Opposed(residuals[i - 1], residuals[i]);
    }
    assert residuals[..|residuals|] == residuals;
  }

  lemma {:induction false} SumsAdd(a: seq<int>, b: seq<int>)
    ensures Sum(a + b) == Sum(a) + Sum(b) && AbsSum(a + b) == AbsSum(a) + AbsSum(b)
  {
    if a == [] {
      assert a + b == b;
    } else {
      SumsAdd(a[1..], b);
      assert (a + b)[1..] == a[1..] + b;
    }
  }

  lemma RunningSum(s: seq<int>, k: nat)
    requires k < |s|
    ensures Sum(s[..k + 1]) - Sum(s[..k]) == s[k]
  {
    assert s[..k + 1] == s[..k] + [s[k]];
    SumsAdd(s[..k], [s[k]]);
    assert Sum([s[k]]) == s[k] + Sum([]);
  }

  /** The running total rises with every residual. */
  ghost predicate Rises(s: seq<int>) {
    forall k :: 0 <= k < |s| ==> Sum(s[..k]) < Sum(s[..k + 1])
  }

  ghost predicate Falls(s: seq<int>) {
    forall k :: 0 <= k < |s| ==> Sum(s[..k]) > Sum(s[..k + 1])
  }

  lemma RisingIsPositive(s: seq<int>)
    ensures Rises(s) <==> AllPositive(s)
    ensures Falls(s) <==> AllNegative(s)
  {
    forall k | 0 <= k < |s| ensures Sum(s[..k + 1]) - Sum(s[..k]) == s[k] {
      RunningSum(s, k);
    }
    hide Sum;
    if Rises(s) {
      forall k | 0 <= k < |s| ensures s[k] > 0 { assert Sum(s[..k]) < Sum(s[..k + 1]); }
    }
    if Falls(s) {
      forall k | 0 <= k < |s| ensures s[k] < 0 { assert Sum(s[..k]) > Sum(s[..k + 1]); }
    }
  }

  lemma PersistentExactlyWhen(s: seq<int>)
    ensures PersistentlyPositive in Classify(s) <==> |s| >= 3 && Rises(s)
    ensures PersistentlyNegative in Classify(s) <==> |s| >= 3 && Falls(s)
  {
    RisingIsPositive(s);
    hide Rises, Falls, AllPositive, AllNegative, NetsToZero, Steps;
  }

  lemma OppositeSigns(x: int, y: int)
    ensures Opposed(x, y) <==> x * y < 0
  {
  }

  ghost predicate SignsAlternate(s: seq<int>) {
    forall i :: 0 < i < |s| ==> s[i - 1] * s[i] < 0
  }

  lemma AlternatingExactlyWhen(s: seq<int>)
    ensures Alternating(s) <==> SignsAlternate(s)
  {
    hide Opposed;
    forall i | 0 < i < |s| ensures Opposed(s[i - 1], s[i]) <==> s[i - 1] * s[i] < 0 {
      OppositeSigns(s[i - 1], s[i]);
    }
    if Alternating(s) {
      forall i | 0 < i < |s| ensures s[i - 1] * s[i] < 0 {
        assert Opposed(s[i - 1], s[i]);
      }
    }
    if SignsAlternate(s) {
      forall i, j | 0 <= i && j == i + 1 && j < |s| ensures Opposed(s[i], s[j]) {
        assert s[j - 1] * s[j] < 0;
      }
    }
  }

  /** Alternation nets to zero when neighbours have opposite signs and the total is within a
      fifth of what moved. */
  lemma NetsToZeroExactlyWhen(s: seq<int>)
    ensures AlternatingNetZero in Classify(s) <==>
      |s| >= 4 && SignsAlternate(s) && -(AbsSum(s) as int) <= 5 * Sum(s) <= AbsSum(s)
  {
    AlternatingExactlyWhen(s);
    if |s| >= 4 && Alternating(s) {
      assert Opposed(s[0], s[1]);
      SomethingMoves(s);
    }
    hide Sum, AbsSum, Steps, AllPositive, AllNegative, Alternating, SignsAlternate;
  }

  lemma SomethingMoves(s: seq<int>)
    requires s != [] && s[0] != 0
    ensures AbsSum(s) > 0
  {
  }

  function Level(x: int, n: nat): (s: seq<int>)
    ensures |s| == n && forall i :: 0 <= i < n ==> s[i] == x
  {
    seq(n, i => x)
  }

  lemma {:induction false} LevelSums(x: int, n: nat)
    ensures Sum(Level(x, n)) == n * x && AbsSum(Level(x, n)) == n * Abs(x)
  {
    if n > 0 {
      LevelSums(x, n - 1);
      assert Level(x, n)[1..] == Level(x, n - 1);
    }
  }

  lemma WholeMean(x: int, n: nat)
    requires n > 0
    ensures TruncatedDiv(n * x, n) == x
  {
    if x >= 0 {
      MultipleDivides(x, n);
    } else {
      MultipleDivides(-x, n);
      assert -(n * x) == n * -x;
    }
  }

  lemma MultipleDivides(x: nat, n: nat)
    requires n > 0
    ensures n * x / n == x
  {
    var q := n * x / n;
    assert n * x == n * q + n * x % n;
    if q < x {
      LargerProduct(n, q + 1, x);
    } else if x < q {
      LargerProduct(n, x + 1, q);
    }
  }

  /** One level for the first half and another for the second is a step exactly when they are at
      least as far apart as the residuals are from zero on average. */
  lemma StepBetweenLevels(x: int, y: int, m: nat, n: nat)
    requires 2 <= m <= n <= m + 1
    ensures StepChange in Classify(Level(x, m) + Level(y, n)) <==>
      x != y && Abs(y - x) * (m + n) >= m * Abs(x) + n * Abs(y)
  {
    var s := Level(x, m) + Level(y, n);
    LevelSums(x, m);
    LevelSums(y, n);
    SumsAdd(Level(x, m), Level(y, n));
    StepOfLevels(x, y, m, n);
    if x != y {
      LevelsMove(x, y, m, n);
    }
    hide Sum, AbsSum, AllPositive, AllNegative, Alternating, NetsToZero, Level, Step;
  }

  lemma StepOfLevels(x: int, y: int, m: nat, n: nat)
    requires 2 <= m <= n <= m + 1
    ensures var s := Level(x, m) + Level(y, n); Step(s) == Abs(y - x) && !Alternating(s)
  {
    var s := Level(x, m) + Level(y, n);
    LevelSums(x, m);
    LevelSums(y, n);
    WholeMean(x, m);
    WholeMean(y, n);
    assert s[..m] == Level(x, m) && s[m..] == Level(y, n);
    assert !Opposed(s[0], s[1]);
    hide Sum, Level, TruncatedDiv, Opposed;
  }

  lemma LevelsMove(x: int, y: int, m: nat, n: nat)
    requires m > 0 && n > 0 && x != y
    ensures m * Abs(x) + n * Abs(y) > 0
  {
    if x != 0 {
      assert m * Abs(x) >= 1;
    } else {
      assert n * Abs(y) >= 1;
    }
  }

  method ClassifyPatterns(residuals: seq<int>) returns (patterns: seq<Pattern>)
    ensures patterns == Classify(residuals)
    ensures PersistentlyPositive in patterns <==> |residuals| >= 3 && Rises(residuals)
    ensures PersistentlyNegative in patterns <==> |residuals| >= 3 && Falls(residuals)
  {
    PersistentExactlyWhen(residuals);
    hide Rises, Falls, Alternating, Sum, AbsSum, Step, Abs, AllPositive, AllNegative;
    patterns := [];
    if |residuals| < 3 {
      return;
    }
    if AllPositive(residuals) {
      patterns := patterns + [PersistentlyPositive];
    }
    if AllNegative(residuals) {
      patterns := patterns + [PersistentlyNegative];
    }
    if |residuals| >= 4 {
      var step := Step(residuals);
      var alternates := Alternates(residuals);
      var totalSum, totalAbs := Sum(residuals), AbsSum(residuals);
      if alternates && totalAbs > 0 && Abs(totalSum) * 5 <= totalAbs {
        patterns := patterns + [AlternatingNetZero];
      }
      if !alternates && step > 0 && totalAbs > 0 && step * |residuals| >= totalAbs {
        patterns := patterns + [StepChange];
      }
    }
  }

  // ---------------------------------------------------------------- negation

  function Negated(s: seq<int>): (n: seq<int>)
    ensures |n| == |s| && forall i :: 0 <= i < |s| ==> n[i] == -s[i]
  {
    seq(|s|, i requires 0 <= i < |s| => -s[i])
  }

  function Mirrored(p: Pattern): Pattern {
    match p
    case PersistentlyPositive => PersistentlyNegative
    case PersistentlyNegative => PersistentlyPositive
    case StepChange => StepChange
    case AlternatingNetZero => AlternatingNetZero
  }

  function AllMirrored(ps: seq<Pattern>): seq<Pattern> {
    seq(|ps|, i requires 0 <= i < |ps| => Mirrored(ps[i]))
  }

  lemma {:induction false} NegatedSums(s: seq<int>)
    ensures Sum(Negated(s)) == -Sum(s) && AbsSum(Negated(s)) == AbsSum(s)
  {
    if s != [] {
      NegatedSums(s[1..]);
      assert Negated(s)[1..] == Negated(s[1..]);
    }
  }

  lemma TruncationIsOdd(a: int, b: int)
    requires b > 0
    ensures TruncatedDiv(-a, b) == -TruncatedDiv(a, b)
  {
  }

  lemma NegatedSteps(s: seq<int>)
    requires |s| >= 4
    ensures Step(Negated(s)) == Step(s)
  {
    var mid := |s| / 2;
    var n := Negated(s);
    assert n[..mid] == Negated(s[..mid]) && n[mid..] == Negated(s[mid..]);
    NegatedSums(s[..mid]);
    NegatedSums(s[mid..]);
    TruncationIsOdd(Sum(s[..mid]), mid);
    TruncationIsOdd(Sum(s[mid..]), |s| - mid);
  }

  lemma NegatedAlternates(s: seq<int>)
    ensures Alternating(Negated(s)) <==> Alternating(s)
  {
    var n := Negated(s);
    assert forall i :: 0 <= i < |s| ==> Sign(n[i]) == -Sign(s[i]);
  }

  lemma MirroredConcat(a: seq<Pattern>, b: seq<Pattern>)
    ensures AllMirrored(a + b) == AllMirrored(a) + AllMirrored(b)
  {
  }

  lemma MirroredOne(p: Pattern)
    ensures AllMirrored([p]) == [Mirrored(p)] && AllMirrored([]) == []
  {
  }

  lemma ShapesMirror(s: seq<int>)
    ensures NetsToZero(Negated(s)) == NetsToZero(s)
    ensures Steps(Negated(s)) == Steps(s)
  {
    NegatedSums(s);
    NegatedAlternates(s);
    if |s| >= 4 {
      NegatedSteps(s);
    }
    hide Sum, AbsSum, Step, Alternating;
  }

  /** Swapping what was spent with what was explained swaps the two persistent patterns and
      leaves the other two. */
  lemma NegationMirrors(s: seq<int>)
    ensures Classify(Negated(s)) == AllMirrored(Classify(s))
  {
    if |s| >= 3 {
      ShapesMirror(s);
      PersistenceMirrors(s);
      hide NetsToZero, Steps, AllPositive, AllNegative, AllMirrored;
      var positive := if AllPositive(s) then [PersistentlyPositive] else [];
      var negative := if AllNegative(s) then [PersistentlyNegative] else [];
      var alternating := if NetsToZero(s) then [AlternatingNetZero] else [];
      var stepping := if Steps(s) then [StepChange] else [];
      MirroredConcat(positive + negative + alternating, stepping);
      MirroredConcat(positive + negative, alternating);
      MirroredConcat(positive, negative);
      MirroredOne(PersistentlyPositive);
      MirroredOne(PersistentlyNegative);
      MirroredOne(AlternatingNetZero);
      MirroredOne(StepChange);
    } else {
      MirroredOne(StepChange);
    }
  }

  lemma PersistenceMirrors(s: seq<int>)
    requires s != []
    ensures AllPositive(Negated(s)) == AllNegative(s) && AllNegative(Negated(s)) == AllPositive(s)
    ensures !(AllPositive(s) && AllNegative(s))
  {
    var n := Negated(s);
    if AllPositive(n) {
      assert forall i :: 0 <= i < |s| ==> n[i] > 0;
    }
    if AllNegative(n) {
      assert forall i :: 0 <= i < |s| ==> n[i] < 0;
    }
    assert s[0] > 0 || !AllPositive(s);
  }

  /** The alternating pattern is reported alone, and no sequence is persistently both. */
  lemma PatternsExclude(s: seq<int>)
    ensures AlternatingNetZero in Classify(s) ==> Classify(s) == [AlternatingNetZero]
    ensures !(PersistentlyPositive in Classify(s) && PersistentlyNegative in Classify(s))
  {
    if |s| >= 3 {
      PersistenceMirrors(s);
      if NetsToZero(s) {
        assert Opposed(s[0], s[1]);
        assert !AllPositive(s) && !AllNegative(s);
      }
      hide Sum, AbsSum, Step, Alternating;
    }
  }

  // ---------------------------------------------------------------- the rolling verdict

  datatype Verdict =
    | NoIntervals
    | Suppressed(eligible: nat, minimum: nat)
    | ReconcilesWithinUncertainty
    | Discrepancy(patterns: seq<Pattern>)

  function Points(rs: seq<Residual>): (ps: seq<int>)
    ensures |ps| == |rs|
  {
    seq(|rs|, i requires 0 <= i < |rs| => rs[i].point)
  }

  /** The verdict over the recent eligible intervals: a discrepancy needs enough of them, a
      summed interval that excludes zero, and so at least one interval that does. */
  method RollingVerdict(rs: seq<Residual>, minimum: nat) returns (verdict: Verdict)
    ensures verdict.NoIntervals? <==> rs == []
    ensures verdict.Suppressed? <==> 0 < |rs| < minimum
    ensures verdict.Discrepancy? <==> rs != [] && |rs| >= minimum && !Contains(IntervalSum(rs), 0)
    ensures verdict.Discrepancy? ==>
      && verdict.patterns == Classify(Points(rs))
      && exists i :: 0 <= i < |rs| && !Contains(rs[i].interval, 0)
    ensures |rs| >= 3 && |rs| >= minimum && IntervalSum(rs).lower > 0 && (forall i :: 0 <= i < |rs| ==> rs[i].point > 0)
            ==> verdict.Discrepancy? && PersistentlyPositive in verdict.patterns
    ensures |rs| >= 3 && |rs| >= minimum && IntervalSum(rs).upper < 0 && (forall i :: 0 <= i < |rs| ==> rs[i].point < 0)
            ==> verdict.Discrepancy? && PersistentlyNegative in verdict.patterns
  {
    if rs == [] {
      return NoIntervals;
    }
    var rolling := rs[0].interval;
    assert rs[..1][..0] == [] && IntervalSum(rs[..1]) == rolling;
    for k := 1 to |rs|
      invariant rolling == IntervalSum(rs[..k])
    {
      assert rs[..k + 1][..k] == rs[..k];
      rolling := Interval(rolling.lower + rs[k].interval.lower, rolling.upper + rs[k].interval.upper);
    }
    assert rs[..|rs|] == rs;
    if |rs| < minimum {
      return Suppressed(|rs|, minimum);
    }
    if rolling.lower <= 0 && rolling.upper >= 0 {
      return ReconcilesWithinUncertainty;
    }
    RollingContains(rs);
    var patterns := ClassifyPatterns(Points(rs));
    verdict := Discrepancy(patterns);
  }
}
