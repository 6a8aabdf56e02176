/**
 Stress analyses and the statistics derived from them: counts, the rounded
 stress percentage, the rolling seven-day window and the newest analysis.
 */
module Analytics {
  import opened Wrappers
  import Calendar
  import Sequences

  /** One stored eye-stress analysis of a user. */
  datatype Analysis = Analysis(
    id: nat,
    username: string,
    hasStress: bool,
    createdAt: int,
    imageUrl: Option<string>)

  /** Count of analyses, count of those with stress, and the stress percentage. */
  datatype Stats = Stats(total: nat, stressCount: nat, percentage: nat)

  /**
   The percentage `part` is of `whole`, rounded to the nearest integer with
   halves rounded up; zero for an empty whole.
   */
  function RoundPercent(part: nat, whole: nat): (r: nat)
    ensures whole == 0 ==> r == 0
    ensures whole > 0 ==> 2 * whole * r <= 200 * part + whole < 2 * whole * (r + 1)
    ensures part <= whole ==> r <= 100
    ensures r == 0 <==> (whole == 0 || 200 * part < whole)
  {
    if whole == 0 then 0
    else
      var q := (200 * part + whole) / (2 * whole);
      RoundPercentBounds(part, whole, q);
      q
  }

  lemma RoundPercentBounds(part: nat, whole: nat, q: int)
    requires whole > 0
    requires q == (200 * part + whole) / (2 * whole)
    ensures 0 <= q
    ensures 2 * whole * q <= 200 * part + whole < 2 * whole * (q + 1)
    ensures part <= whole ==> q <= 100
    ensures q == 0 <==> 200 * part < whole
  {
    var n, d := 200 * part + whole, 2 * whole;
    DivBracket(n, d, q);
    if q < 0 {
      MulMonotone(d, q + 1, 0);
      assert false;
    }
    if part <= whole && q > 100 {
      MulMonotone(d, 101, q);
      assert false;
    }
    if q >= 1 {
      MulMonotone(d, 1, q);
    }
  }

  lemma DivBracket(n: int, d: int, q: int)
    requires d > 0 && q == n / d
    ensures d * q <= n < d * (q + 1)
  {
    assert n == d * q + n % d;
  }

  lemma MulMonotone(d: int, a: int, b: int)
    requires d > 0 && a <= b
    ensures d * a <= d * b
  {
    assert d * b - d * a == d * (b - a);
  }

  /** The invariant every statistic record keeps. */
  predicate ValidStats(s: Stats)
  {
    && s.stressCount <= s.total
    && s.percentage <= 100
    && s.percentage == RoundPercent(s.stressCount, s.total)
  }

  /** Number of analyses in `xs` that detected stress. */
  function StressCount(xs: seq<Analysis>): (n: nat)
    ensures n <= |xs|
  {
    if xs == [] then 0
    else (if xs[0].hasStress then 1 else 0) + StressCount(xs[1..])
  }

  /** Statistics over all of `xs`. */
  function StatsOf(xs: seq<Analysis>): (s: Stats)
    ensures ValidStats(s)
    ensures s.total == |xs| && s.stressCount == StressCount(xs)
  {
    var stress := StressCount(xs);
    Stats(|xs|, stress, RoundPercent(stress, |xs|))
  }

  /** An analysis created at or after `cutoff`. */
  function CreatedSince(cutoff: int): Analysis -> bool
  {
    (a: Analysis) => a.createdAt >= cutoff
  }

  /** The analyses of `xs` created at or after `cutoff`, in their original order. */
  function Since(xs: seq<Analysis>, cutoff: int): seq<Analysis>
  {
    Sequences.Filter(xs, CreatedSince(cutoff))
  }

  /** First instant of the rolling window that ends at `now`. */
  function WindowStart(now: int): int
  {
    now - Calendar.WindowDays * Calendar.MsPerDay
  }

  /** Statistics over the analyses created in the last seven days before `now`. */
  function WindowStats(xs: seq<Analysis>, now: int): (s: Stats)
    ensures ValidStats(s)
    ensures s.total <= |xs|
  {
    StatsOf(Since(xs, WindowStart(now)))
  }

  /**
   Analyses older than the window change neither window count, wherever they
   sit in the history.
   */
  lemma WindowIgnoresOld(xs: seq<Analysis>, olds: seq<Analysis>, ys: seq<Analysis>, now: int)
    requires forall i :: 0 <= i < |olds| ==> olds[i].createdAt < WindowStart(now)
    ensures WindowStats(xs + olds + ys, now) == WindowStats(xs + ys, now)
  {
    var c := WindowStart(now);
    Sequences.FilterConcat(xs + olds, ys, CreatedSince(c));
    Sequences.FilterConcat(xs, olds, CreatedSince(c));
    Sequences.FilterConcat(xs, ys, CreatedSince(c));
    Sequences.FilterNone(olds, CreatedSince(c));
    assert Since(xs, c) + [] == Since(xs, c);
  }

  /** A single analysis inside the window adds one to the total and its own stress flag to the stress count. */
  lemma WindowCountsRecent(xs: seq<Analysis>, a: Analysis, now: int)
    requires a.createdAt >= WindowStart(now)
    ensures WindowStats(xs + [a], now).total == WindowStats(xs, now).total + 1
    ensures WindowStats(xs + [a], now).stressCount
         == WindowStats(xs, now).stressCount + (if a.hasStress then 1 else 0)
  {
    var c := WindowStart(now);
    Sequences.FilterConcat(xs, [a], CreatedSince(c));
    assert Since([a], c) == [a];
    StressCountConcat(Since(xs, c), [a]);
  }

  lemma {:induction false} StressCountConcat(xs: seq<Analysis>, ys: seq<Analysis>)
    ensures StressCount(xs + ys) == StressCount(xs) + StressCount(ys)
  {
    if xs == [] {
      assert xs + ys == ys;
    } else {
      assert (xs + ys)[0] == xs[0];
      assert (xs + ys)[1..] == xs[1..] + ys;
      StressCountConcat(xs[1..], ys);
    }
  }

  /**
   Three analyses one, three and ten days old, the first and last stressed:
   the window holds the two recent ones, one stressed (50%); the whole
   history holds two stressed of three (67%).
   */
  lemma ThreeAnalysesScenario(name: string, now: int)
    ensures var day := Calendar.MsPerDay;
      var xs := [Analysis(0, name, true, now - day, None),
                 Analysis(1, name, false, now - 3 * day, None),
                 Analysis(2, name, true, now - 10 * day, None)];
      && WindowStats(xs, now) == Stats(2, 1, 50)
      && StatsOf(xs) == Stats(3, 2, 67)
  {
    var day := Calendar.MsPerDay;
    var c := WindowStart(now);
    var a0 := Analysis(0, name, true, now - day, None);
    var a1 := Analysis(1, name, false, now - 3 * day, None);
    var a2 := Analysis(2, name, true, now - 10 * day, None);
    var xs := [a0, a1, a2];
    assert [a2][1..] == [] && [a1, a2][1..] == [a2] && xs[1..] == [a1, a2];
    assert Since([a2], c) == [];
    assert Since([a1, a2], c) == [a1];
    assert Since(xs, c) == [a0, a1];
    assert [a1][1..] == [] && [a0, a1][1..] == [a1];
    assert StressCount([a0, a1]) == 1;
    assert StressCount([a1, a2]) == 1;
    assert StressCount(xs) == 2;
  }

  /**
   Index of the newest analysis of a non-empty history: no analysis is newer,
   and on a tie the earliest stored one is chosen.
   */
  function LatestIndex(xs: seq<Analysis>): (i: nat)
    requires |xs| > 0
    ensures i < |xs|
    ensures forall k :: 0 <= k < |xs| ==> xs[k].createdAt <= xs[i].createdAt
    ensures forall k :: 0 <= k < i ==> xs[k].createdAt < xs[i].createdAt
  {
    if |xs| == 1 then 0
    else
      var j := LatestIndex(xs[..|xs| - 1]);
      if xs[|xs| - 1].createdAt > xs[j].createdAt then |xs| - 1 else j
  }
}
