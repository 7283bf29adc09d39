/**
 Reconciliation arithmetic: the residual interval that meter quantization, calibration
 uncertainty and timing put around a residual. Meter readings are parts per million of quota,
 credits are micro-credits.
 */
module Reconciliation {
  import opened Common

  datatype Interval = Interval(lower: int, upper: int)

  ghost predicate Contains(i: Interval, x: int) {
    i.lower <= x <= i.upper
  }

  ghost predicate Within(inner: Interval, outer: Interval) {
    outer.lower <= inner.lower && inner.upper <= outer.upper
  }

  // ---------------------------------------------------------------- quantization

  datatype Quantization = Exact | RoundedToNearest | RoundedDown | RoundedUp | Unknown

  datatype Observation = Observation(reading: nat, resolution: nat, quantization: Quantization)

  /** The values a reading admits. */
  function QuantizedBounds(o: Observation): Interval {
    match o.quantization
    case Exact => Interval(o.reading, o.reading)
    case RoundedToNearest =>
      var below := o.resolution / 2;
      Interval(o.reading - below, o.reading + (o.resolution - below))
    case RoundedDown => Interval(o.reading, o.reading + o.resolution)
    case RoundedUp => Interval(o.reading - o.resolution, o.reading)
    case Unknown => Interval(o.reading - o.resolution, o.reading + o.resolution)
  }

  /** A coarser resolution admits more, unknown semantics admit most, and the reading itself is
      always admitted. */
  lemma QuantizationWidens(o: Observation, coarser: nat)
    requires o.resolution <= coarser
    ensures Contains(QuantizedBounds(o), o.reading)
    ensures Within(QuantizedBounds(o), QuantizedBounds(o.(resolution := coarser)))
    ensures Within(QuantizedBounds(o), QuantizedBounds(o.(quantization := Unknown)))
  {
  }

  /** The multiple of `r` at or below `x`. */
  function Floored(x: int, r: int): int
    requires r > 0
  {
    x / r * r
  }

  /** The reading is what a meter that rounds so would report of the true value. */
  ghost predicate Reports(o: Observation, x: int) {
    if o.resolution == 0 then o.reading == x
    else
      var r := o.resolution;
      match o.quantization
      case Exact => o.reading == x
      case RoundedDown => o.reading == Floored(x, r)
      case RoundedUp => o.reading == Floored(x + r - 1, r)
      case RoundedToNearest => o.reading == Floored(x + r / 2, r)
      case Unknown =>
        o.reading == Floored(x, r) || o.reading == Floored(x + r - 1, r) || o.reading == Floored(x + r / 2, r)
  }

  lemma FlooredIs(x: int, r: int, multiple: int)
    requires r > 0
    ensures Floored(x, r) <= x < Floored(x, r) + r
    ensures multiple % r == 0 ==> (Floored(x, r) == multiple <==> multiple <= x < multiple + r)
  {
    FlooredBounds(x, r);
    if multiple % r == 0 {
      FlooredBounds(multiple, r);
      MultiplesApart(x / r, multiple / r, r);
    }
  }

  lemma FlooredBounds(x: int, r: int)
    requires r > 0
    ensures Floored(x, r) == r * (x / r) && Floored(x, r) <= x < Floored(x, r) + r
    ensures x % r == 0 ==> Floored(x, r) == x
  {
    assert x == r * (x / r) + x % r;
  }

  /** Different multiples lie at least the factor apart. */
  lemma MultiplesApart(q: int, m: int, r: int)
    requires r > 0
    ensures m < q ==> r * m + r <= r * q
    ensures q < m ==> r * q + r <= r * m
  {
    if m < q {
      LargerProduct(r, m + 1, q);
    } else if q < m {
      LargerProduct(r, q + 1, m);
    }
  }

  lemma LargerProduct(r: int, m: int, n: int)
    requires r > 0 && m <= n
    ensures r * m <= r * n
  {
    assert r * n == r * m + r * (n - m);
  }

  /** The band holds every true value the reading can have been reported of. */
  lemma BandHoldsTheTruth(o: Observation, x: int)
    requires Reports(o, x)
    ensures Contains(QuantizedBounds(o), x)
  {
    if o.resolution > 0 {
      FlooredIs(x, o.resolution, 0);
      FlooredIs(x + o.resolution - 1, o.resolution, 0);
      FlooredIs(x + o.resolution / 2, o.resolution, 0);
      hide Floored;
    }
  }

  /** And no more than it has to: of a rounded reading exactly the values inside the band, with
      the end that would have rounded to the next reading left out. */
  lemma BandIsWhatRounds(o: Observation, x: int)
    requires o.resolution > 0 && o.reading % o.resolution == 0
    ensures
      var band := QuantizedBounds(o);
      Reports(o, x) <==>
        && Contains(band, x)
        && (o.quantization in {RoundedDown, RoundedToNearest, Unknown} ==> x != band.upper)
        && (o.quantization in {RoundedUp, Unknown} ==> x != band.lower)
    ensures
      var band := QuantizedBounds(o);
      band.upper - band.lower ==
        if o.quantization == Exact then 0 else if o.quantization == Unknown then 2 * o.resolution else o.resolution
  {
    FlooredIs(x, o.resolution, o.reading);
    FlooredIs(x + o.resolution - 1, o.resolution, o.reading);
    FlooredIs(x + o.resolution / 2, o.resolution, o.reading);
    hide Floored;
  }

  // ---------------------------------------------------------------- four corners

  /** The least and the greatest product of endpoints. */
  function Corners(a: Interval, b: Interval): Interval {
    var p, q, r, s := a.lower * b.lower, a.lower * b.upper, a.upper * b.lower, a.upper * b.upper;
    Interval(Min(Min(p, q), Min(r, s)), Max(Max(p, q), Max(r, s)))
  }

  lemma ProductBetween(x: int, lo: int, hi: int, y: int)
    requires lo <= x <= hi
    ensures Min(lo * y, hi * y) <= x * y <= Max(lo * y, hi * y)
  {
    if y >= 0 {
      assert lo * y <= x * y <= hi * y;
    } else {
      assert hi * y <= x * y <= lo * y;
    }
  }

  /** Every product of two contained numbers, of any signs, lies between the corners. */
  lemma CornersContain(a: Interval, b: Interval, x: int, y: int)
    requires Contains(a, x) && Contains(b, y)
    ensures Contains(Corners(a, b), x * y)
  {
    ProductBetween(x, a.lower, a.upper, y);
    ProductBetween(y, b.lower, b.upper, a.lower);
    ProductBetween(y, b.lower, b.upper, a.upper);
    Commute(y, a.lower);
    Commute(y, a.upper);
    Commute(b.lower, a.lower);
    Commute(b.upper, a.lower);
    Commute(b.lower, a.upper);
    Commute(b.upper, a.upper);
  }

  lemma Commute(x: int, y: int)
    ensures x * y == y * x
  {
  }

  lemma CornersWiden(a: Interval, b: Interval, a': Interval, b': Interval)
    requires a.lower <= a.upper && b.lower <= b.upper
    requires Within(a, a') && Within(b, b')
    ensures Within(Corners(a, b), Corners(a', b'))
    ensures Corners(a, b).lower <= Corners(a, b).upper
  {
    CornersContain(a', b', a.lower, b.lower);
    CornersContain(a', b', a.lower, b.upper);
    CornersContain(a', b', a.upper, b.lower);
    CornersContain(a', b', a.upper, b.upper);
  }

  // ---------------------------------------------------------------- the residual interval

  const I64_MIN := -0x8000_0000_0000_0000
  const I64_MAX := 0x7FFF_FFFF_FFFF_FFFF

  function Saturate(x: int): int {
    if x < I64_MIN then I64_MIN else if x > I64_MAX then I64_MAX else x
  }

  function CreditsInterval(lower: int, upper: int): (r: Interval)
    requires lower <= upper
    ensures r.lower <= r.upper
  {
    Interval(Saturate(lower), Saturate(upper))
  }

  /** The nearest amount that fits sixty-four bits; the amount itself when it does. */
  lemma SaturateIsNearest(x: int, y: int)
    requires -0x8000_0000_0000_0000 <= y < 0x8000_0000_0000_0000
    ensures -0x8000_0000_0000_0000 <= Saturate(x) < 0x8000_0000_0000_0000
    ensures x <= y ==> x <= Saturate(x) <= y
    ensures y <= x ==> y <= Saturate(x) <= x
  {
  }

  /** One interval's readings, the stated uncertainty of the fitted coefficient, the locally
      explained credits and the timing half-width. */
  datatype Candidate = Candidate(
    start: Observation, end: Observation, coefficient: Interval, explained: int, timing: nat)

  /** The widest and narrowest meter movement both readings admit. */
  function DeltaBounds(c: Candidate): Interval {
    var s, e := QuantizedBounds(c.start), QuantizedBounds(c.end);
    Interval(e.lower - s.upper, e.upper - s.lower)
  }

  lemma DeltaIsOrdered(c: Candidate)
    ensures DeltaBounds(c).lower <= DeltaBounds(c).upper
  {
  }

  function ResidualInterval(c: Candidate): Interval
    requires c.coefficient.lower <= c.coefficient.upper
  {
    DeltaIsOrdered(c);
    CornersWiden(c.coefficient, DeltaBounds(c), c.coefficient, DeltaBounds(c));
    var credits := Corners(c.coefficient, DeltaBounds(c));
    CreditsInterval(credits.lower - c.explained - c.timing, credits.upper - c.explained + c.timing)
  }

  /** A residual the evidence admits: a coefficient within its uncertainty, true readings within
      their quantization bands, and a timing shift within its half-width. */
  ghost predicate Admits(c: Candidate, coefficient: int, trueStart: int, trueEnd: int, shift: int) {
    && Contains(c.coefficient, coefficient)
    && Contains(QuantizedBounds(c.start), trueStart) && Contains(QuantizedBounds(c.end), trueEnd)
    && -(c.timing as int) <= shift <= c.timing
  }

  /** The interval contains every admitted residual that a credit amount can hold. */
  lemma ResidualIsContained(c: Candidate, coefficient: int, trueStart: int, trueEnd: int, shift: int)
    requires c.coefficient.lower <= c.coefficient.upper
    requires Admits(c, coefficient, trueStart, trueEnd, shift)
    requires I64_MIN <= coefficient * (trueEnd - trueStart) - c.explained + shift <= I64_MAX
    ensures Contains(ResidualInterval(c), coefficient * (trueEnd - trueStart) - c.explained + shift)
  {
    hide QuantizedBounds;
    CornersContain(c.coefficient, DeltaBounds(c), coefficient, trueEnd - trueStart);
    hide Corners;
  }

  /** So it contains the residual of the true readings, whatever rounding reported them. */
  lemma TrueResidualIsContained(c: Candidate, coefficient: int, trueStart: int, trueEnd: int, shift: int)
    requires Contains(c.coefficient, coefficient) && -(c.timing as int) <= shift <= c.timing
    requires Reports(c.start, trueStart) && Reports(c.end, trueEnd)
    requires I64_MIN <= coefficient * (trueEnd - trueStart) - c.explained + shift <= I64_MAX
    ensures Contains(ResidualInterval(c), coefficient * (trueEnd - trueStart) - c.explained + shift)
  {
    BandHoldsTheTruth(c.start, trueStart);
    BandHoldsTheTruth(c.end, trueEnd);
    ResidualIsContained(c, coefficient, trueStart, trueEnd, shift);
  }

  /** In particular the point residual: the fitted coefficient times the reported movement, less
      what is explained. */
  lemma PointResidualIsContained(c: Candidate, fitted: int)
    requires c.coefficient.lower <= c.coefficient.upper && Contains(c.coefficient, fitted)
    requires I64_MIN <= fitted * (c.end.reading - c.start.reading) - c.explained <= I64_MAX
    ensures Contains(ResidualInterval(c), fitted * (c.end.reading - c.start.reading) - c.explained)
  {
    QuantizationWidens(c.start, c.start.resolution);
    QuantizationWidens(c.end, c.end.resolution);
    ResidualIsContained(c, fitted, c.start.reading, c.end.reading, 0);
  }

  /** Unless it saturates, the interval is no wider than it has to be: both endpoints are
      admitted residuals. */
  lemma EndpointsAreAdmitted(c: Candidate)
    returns (low: (int, int, int), high: (int, int, int))
    requires c.coefficient.lower <= c.coefficient.upper
    ensures Admits(c, low.0, low.1, low.2, -(c.timing as int))
    ensures Admits(c, high.0, high.1, high.2, c.timing)
    ensures ResidualInterval(c).lower == Saturate(low.0 * (low.2 - low.1) - c.explained - c.timing)
    ensures ResidualInterval(c).upper == Saturate(high.0 * (high.2 - high.1) - c.explained + c.timing)
  {
    var s, e := QuantizedBounds(c.start), QuantizedBounds(c.end);
    var k, d := c.coefficient, DeltaBounds(c);
    var bounds := Corners(k, d);
    QuantizationWidens(c.start, c.start.resolution);
    QuantizationWidens(c.end, c.end.resolution);
    hide QuantizedBounds, Corners;
    var x, y := CornerAttained(k, d, bounds.lower);
    var x', y' := CornerAttained(k, d, bounds.upper);
    low := (x, if y == d.lower then s.upper else s.lower, if y == d.lower then e.lower else e.upper);
    high := (x', if y' == d.lower then s.upper else s.lower, if y' == d.lower then e.lower else e.upper);
    assert low.2 - low.1 == y && high.2 - high.1 == y';
    hide DeltaBounds;
    assert low.0 * (low.2 - low.1) == bounds.lower && high.0 * (high.2 - high.1) == bounds.upper;
  }

  lemma CornerAttained(a: Interval, b: Interval, p: int) returns (x: int, y: int)
    requires p == Corners(a, b).lower || p == Corners(a, b).upper
    ensures (x == a.lower || x == a.upper) && (y == b.lower || y == b.upper) && x * y == p
  {
    if p == a.lower * b.lower {
      x, y := a.lower, b.lower;
    } else if p == a.lower * b.upper {
      x, y := a.lower, b.upper;
    } else if p == a.upper * b.lower {
      x, y := a.upper, b.lower;
    } else {
      x, y := a.upper, b.upper;
    }
  }

  /** Coarser readings, a less certain coefficient or a wider timing band never narrow the
      interval, for coefficients and movements of either sign. */
  lemma WideningNeverNarrows(c: Candidate, wider: Candidate)
    requires c.coefficient.lower <= c.coefficient.upper
    requires wider.start == c.start.(resolution := wider.start.resolution)
      && c.start.resolution <= wider.start.resolution
    requires wider.end == c.end.(resolution := wider.end.resolution) && c.end.resolution <= wider.end.resolution
    requires Within(c.coefficient, wider.coefficient) && c.timing <= wider.timing && c.explained == wider.explained
    ensures Within(ResidualInterval(c), ResidualInterval(wider))
  {
    QuantizationWidens(c.start, wider.start.resolution);
    QuantizationWidens(c.end, wider.end.resolution);
    DeltaIsOrdered(c);
    hide QuantizedBounds;
    CornersWiden(c.coefficient, DeltaBounds(c), wider.coefficient, DeltaBounds(wider));
    hide Corners, DeltaBounds;
  }

  // ---------------------------------------------------------------- the rolling residual

  datatype Residual = Residual(point: int, interval: Interval)

  function PointSum(rs: seq<Residual>): int {
    if rs == [] then 0 else PointSum(rs[..|rs| - 1]) + rs[|rs| - 1].point
  }

  function IntervalSum(rs: seq<Residual>): Interval {
    if rs == [] then Interval(0, 0)
    else
      var front := IntervalSum(rs[..|rs| - 1]);
      Interval(front.lower + rs[|rs| - 1].interval.lower, front.upper + rs[|rs| - 1].interval.upper)
  }

  /** Sums add up: of one residual they are its own, and of two runs those of the parts together. */
  lemma {:induction false} RollingSumsAdd(a: seq<Residual>, b: seq<Residual>, r: Residual)
    ensures IntervalSum([r]) == r.interval && PointSum([r]) == r.point
    ensures PointSum(a + b) == PointSum(a) + PointSum(b)
    ensures IntervalSum(a + b).lower == IntervalSum(a).lower + IntervalSum(b).lower
    ensures IntervalSum(a + b).upper == IntervalSum(a).upper + IntervalSum(b).upper
  {
    assert [r][..0] == [];
    if b == [] {
      assert a + b == a;
    } else {
      RollingSumsAdd(a, b[..|b| - 1], r);
      assert (a + b)[..|a + b| - 1] == a + b[..|b| - 1];
    }
  }

  /** The rolling interval contains the rolling residual when each interval contains its own,
      and contains zero when each does: only an interval that excludes zero can make the
      rolling verdict a discrepancy. */
  lemma {:induction false} RollingContains(rs: seq<Residual>)
    ensures (forall i :: 0 <= i < |rs| ==> Contains(rs[i].interval, rs[i].point)) ==>
      Contains(IntervalSum(rs), PointSum(rs))
    ensures (forall i :: 0 <= i < |rs| ==> Contains(rs[i].interval, 0)) ==> Contains(IntervalSum(rs), 0)
  {
    if rs != [] {
      RollingContains(rs[..|rs| - 1]);
    }
  }

  // ---------------------------------------------------------------- explained movement

  /** Division that truncates toward zero. */
  function TruncatedDiv(a: int, b: int): int
    requires b > 0
  {
    if a >= 0 then a / b else -((-a) / b)
  }

  /** The explained movement: credits over the coefficient, rounded half away from zero. */
  function ExplainedPoints(credits: int, microsPerPoint: int): int
    requires microsPerPoint > 0
  {
    var half := microsPerPoint / 2;
    if credits >= 0 then TruncatedDiv(credits + half, microsPerPoint)
    else TruncatedDiv(credits - half, microsPerPoint)
  }

  /** It is a nearest whole number of points, and changes sign with the credits. */
  lemma ExplainedIsNearest(credits: int, microsPerPoint: int)
    requires microsPerPoint > 0
    ensures -microsPerPoint
         <= 2 * (ExplainedPoints(credits, microsPerPoint) * microsPerPoint - credits)
         <= microsPerPoint
    ensures ExplainedPoints(-credits, microsPerPoint) == -ExplainedPoints(credits, microsPerPoint)
  {
    hide *;
    ExplainedBySign(credits, microsPerPoint);
    ExplainedBySign(-credits, microsPerPoint);
    var magnitude: nat := if credits >= 0 then credits else -credits;
    RoundedQuotient(magnitude, microsPerPoint);
    var q := Rounded(magnitude, microsPerPoint);
    NegatedProduct(q, microsPerPoint);
    if credits >= 0 {
      assert ExplainedPoints(credits, microsPerPoint) == q;
    } else {
      assert ExplainedPoints(credits, microsPerPoint) == -q;
    }
  }

  function Rounded(magnitude: nat, d: int): int
    requires d > 0
  {
    (magnitude + d / 2) / d
  }

  lemma NegatedProduct(q: int, d: int)
    ensures (-q) * d == -(q * d)
  {
  }

  lemma ExplainedBySign(credits: int, d: int)
    requires d > 0
    ensures credits >= 0 ==> ExplainedPoints(credits, d) == Rounded(credits, d)
    ensures credits <= 0 ==> ExplainedPoints(credits, d) == -Rounded(-credits, d)
  {
    if credits == 0 {
      assert d / 2 < d;
    }
  }

  lemma RoundedQuotient(magnitude: nat, d: int)
    requires d > 0
    ensures -d <= 2 * (Rounded(magnitude, d) * d - magnitude) <= d
  {
    var n := magnitude + d / 2;
    DividesBack(n, d);
  }

  lemma DividesBack(n: int, d: int)
    requires d > 0
    ensures n / d * d == n - n % d && 0 <= n % d < d
  {
    assert n == d * (n / d) + n % d;
  }

  const MAX_POINTS: int := 1_000_000

  /** The explained movement as reported: clamped to the points a meter can move, and nothing
      when the coefficient is not positive. */
  function ExplainedChange(credits: int, microsPerPoint: int): int {
    if microsPerPoint > 0 then Max(-MAX_POINTS, Min(MAX_POINTS, ExplainedPoints(credits, microsPerPoint))) else 0
  }

  function Distance(x: int, y: int): nat {
    if x < y then y - x else x - y
  }

  lemma FurtherMultiple(d: int, k: int)
    requires d > 0
    ensures k >= 1 ==> k * d >= d
    ensures k <= -1 ==> k * d <= -d
  {
    if k >= 1 {
      assert k * d == d + (k - 1) * d;
    } else if k <= -1 {
      assert k * d == -d + (k + 1) * d;
    }
  }

  /** No movement a meter can make explains the credits better than the reported one. */
  lemma ExplainedChangeIsBest(credits: int, microsPerPoint: int, points: int)
    requires microsPerPoint > 0 && -1_000_000 <= points <= 1_000_000
    ensures -1_000_000 <= ExplainedChange(credits, microsPerPoint) <= 1_000_000
    ensures Distance(ExplainedChange(credits, microsPerPoint) * microsPerPoint, credits)
         <= Distance(points * microsPerPoint, credits)
  {
    var d, r := microsPerPoint, ExplainedPoints(credits, microsPerPoint);
    ExplainedIsNearest(credits, d);
    hide ExplainedPoints;
    var e := ExplainedChange(credits, d);
    Apart(points, e, d);
    Apart(r, e, d);
    FurtherMultiple(d, points - e);
    FurtherMultiple(d, r - e);
  }

  /** Without a positive coefficient nothing is explained. */
  lemma NoCoefficientExplainsNothing(credits: int, microsPerPoint: int)
    requires microsPerPoint <= 0
    ensures ExplainedChange(credits, microsPerPoint) == 0
  {
  }

  lemma Apart(p: int, q: int, d: int)
    ensures p * d == q * d + (p - q) * d
  {
  }
}
