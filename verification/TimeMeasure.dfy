/**
 Counting instants: how many nanoseconds of a half-open span a set of half-open intervals
 covers.
 */
module TimeMeasure {
  import opened Common

  /** The half-open span `[start, end)`; nothing when `end` is not after `start`. */
  datatype Postponement = Postponement(start: int, end: int)

  ghost predicate Covers(p: Postponement, t: int) {
    p.start <= t < p.end
  }

  ghost predicate Covered(ps: seq<Postponement>, t: int) {
    exists i :: 0 <= i < |ps| && Covers(ps[i], t)
  }

  /** Each interval ends strictly before any later one starts. */
  ghost predicate Separated(ps: seq<Postponement>) {
    forall i, j :: 0 <= i < j < |ps| ==> ps[i].end < ps[j].start
  }

  /** The number of instants of `[a, b)` that `p` accepts. */
  ghost function Count(p: int -> bool, a: int, b: int): nat
    decreases b - a
  {
    if a >= b then 0 else (if p(a) then 1 else 0) + Count(p, a + 1, b)
  }

  ghost function CoveredBy(ps: seq<Postponement>): int -> bool {
    t => Covered(ps, t)
  }

  ghost function CoveredNanos(ps: seq<Postponement>, a: int, b: int): nat {
    Count(CoveredBy(ps), a, b)
  }

  lemma {:induction false} CountSplit(p: int -> bool, a: int, b: int, c: int)
    requires a <= b <= c
    ensures Count(p, a, c) == Count(p, a, b) + Count(p, b, c)
    decreases b - a
  {
    if a < b {
      CountSplit(p, a + 1, b, c);
    }
  }

  lemma {:induction false} CountAtMost(p: int -> bool, q: int -> bool, a: int, b: int)
    requires forall t :: a <= t < b && p(t) ==> q(t)
    ensures Count(p, a, b) <= Count(q, a, b)
    decreases b - a
  {
    if a < b {
      CountAtMost(p, q, a + 1, b);
    }
  }

  lemma CountSame(p: int -> bool, q: int -> bool, a: int, b: int)
    requires forall t :: a <= t < b ==> p(t) == q(t)
    ensures Count(p, a, b) == Count(q, a, b)
  {
    CountAtMost(p, q, a, b);
    CountAtMost(q, p, a, b);
  }

  lemma {:induction false} CountAll(p: int -> bool, a: int, b: int)
    requires a <= b && forall t :: a <= t < b ==> p(t)
    ensures Count(p, a, b) == b - a
    decreases b - a
  {
    if a < b {
      CountAll(p, a + 1, b);
    }
  }

  lemma {:induction false} CountNone(p: int -> bool, a: int, b: int)
    requires forall t :: a <= t < b ==> !p(t)
    ensures Count(p, a, b) == 0
    decreases b - a
  {
    if a < b {
      CountNone(p, a + 1, b);
    }
  }

  /** Disjoint conditions count apart. */
  lemma {:induction false} CountDisjoint(p: int -> bool, q: int -> bool, both: int -> bool, a: int, b: int)
    requires forall t :: a <= t < b ==> !(p(t) && q(t)) && (both(t) == (p(t) || q(t)))
    ensures Count(both, a, b) == Count(p, a, b) + Count(q, a, b)
    decreases b - a
  {
    if a < b {
      CountDisjoint(p, q, both, a + 1, b);
    }
  }

  /** The length of the part of `p` inside `[a, b)`. */
  function Clipped(p: Postponement, a: int, b: int): nat {
    var from, to := Max(a, p.start), Min(b, p.end);
    if to > from then to - from else 0
  }

  lemma CountOfOne(p: Postponement, a: int, b: int)
    ensures CoveredNanos([p], a, b) == Clipped(p, a, b)
  {
    var c := CoveredBy([p]);
    assert forall t :: c(t) <==> Covers(p, t) by {
      forall t ensures c(t) <==> Covers(p, t) {
        if Covers(p, t) { assert Covers([p][0], t); }
      }
    }
    var from, to := Max(a, p.start), Min(b, p.end);
    if to > from {
      CountSplit(c, a, from, b);
      CountSplit(c, from, to, b);
      CountNone(c, a, from);
      CountAll(c, from, to);
      CountNone(c, to, b);
    } else {
      CountNone(c, a, b);
    }
  }

  function ClippedSum(ps: seq<Postponement>, a: int, b: int): nat {
    if ps == [] then 0 else ClippedSum(ps[..|ps| - 1], a, b) + Clipped(ps[|ps| - 1], a, b)
  }

  /** For separated intervals the sum of the clipped lengths is the number of covered
      instants. */
  lemma {:induction false} ClippedSumIsMeasure(ps: seq<Postponement>, a: int, b: int)
    requires Separated(ps)
    ensures ClippedSum(ps, a, b) == CoveredNanos(ps, a, b)
  {
    if ps == [] {
      CountNone(CoveredBy(ps), a, b);
    } else {
      var n := |ps| - 1;
      var front, last := ps[..n], ps[n];
      ClippedSumIsMeasure(front, a, b);
      CountOfOne(last, a, b);
      forall t | a <= t < b
        ensures !(Covered(front, t) && Covered([last], t))
        ensures Covered(ps, t) == (Covered(front, t) || Covered([last], t))
      {
        CoveredParts(front, last, t);
        assert ps == front + [last];
        if Covered(front, t) {
          var i :| 0 <= i < |front| && Covers(front[i], t);
          assert ps[i].end < ps[n].start;
        }
      }
      CountDisjoint(CoveredBy(front), CoveredBy([last]), CoveredBy(ps), a, b);
    }
  }

  lemma CoveredParts(front: seq<Postponement>, last: Postponement, t: int)
    ensures Covered(front + [last], t) <==> Covered(front, t) || Covers(last, t)
    ensures Covered([last], t) <==> Covers(last, t)
  {
    var ps := front + [last];
    assert ps[|front|] == last && [last][0] == last;
    if Covered(front, t) {
      var i :| 0 <= i < |front| && Covers(front[i], t);
      assert Covers(ps[i], t);
    }
  }

  lemma MeasureIsBounded(ps: seq<Postponement>, a: int, b: int)
    requires a <= b
    ensures CoveredNanos(ps, a, b) <= b - a
  {
    CountAtMost(CoveredBy(ps), t => true, a, b);
    CountAll(t => true, a, b);
  }
}
