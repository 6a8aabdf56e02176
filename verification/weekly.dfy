/**
 The weekly trend of a user's history: every analysis goes into the
 Sunday-based week that contains it, each week counts its analyses and the
 stressed ones, gets a rounded percentage, and the weeks are listed oldest
 first.
 */
module Weekly {
  import opened Wrappers
  import opened Analytics
  import Calendar
  import Sequences

  /** One week of the trend, identified by the day number of its Sunday. */
  datatype WeekBucket = WeekBucket(week: int, total: nat, stressDetected: nat, percentage: nat)

  function BucketWeek(b: WeekBucket): int { b.week }
  function BucketTotal(b: WeekBucket): nat { b.total }
  function BucketStress(b: WeekBucket): nat { b.stressDetected }

  /** The week an analysis belongs to: its own day minus that day's weekday. */
  function WeekKey(a: Analysis): int
  {
    Calendar.WeekOf(a.createdAt)
  }

  /** Some bucket of `g` is for week `w`. */
  predicate HasWeek(g: seq<WeekBucket>, w: int)
  {
    exists i :: 0 <= i < |g| && g[i].week == w
  }

  /** An analysis that falls in week `w`. */
  function OfWeek(w: int): Analysis -> bool
  {
    (a: Analysis) => WeekKey(a) == w
  }

  /** The analyses of `xs` that fall in week `w`, in their original order. */
  function InWeek(xs: seq<Analysis>, w: int): seq<Analysis>
  {
    Sequences.Filter(xs, OfWeek(w))
  }

  /** Position of the bucket for week `w`, if there is one. */
  function FindWeek(g: seq<WeekBucket>, w: int): (r: Option<nat>)
    ensures r.Some? ==> r.value < |g| && g[r.value].week == w
    ensures r.None? ==> !HasWeek(g, w)
  {
    if g == [] then None
    else if g[0].week == w then Some(0)
    else
      match FindWeek(g[1..], w)
      case None => None
      case Some(i) => Some(i + 1)
  }

  /** Counts one analysis into its week, opening the week with zero counts if it is new. */
  function AddAnalysis(g: seq<WeekBucket>, a: Analysis): (r: seq<WeekBucket>)
    ensures |g| <= |r| <= |g| + 1
    ensures forall j :: 0 <= j < |g| ==> r[j].week == g[j].week
    ensures HasWeek(r, WeekKey(a))
    ensures |r| == |g| + 1 <==> !HasWeek(g, WeekKey(a))
  {
    var w := WeekKey(a);
    var stress := if a.hasStress then 1 else 0;
    match FindWeek(g, w)
    case Some(i) => g[i := g[i].(total := g[i].total + 1, stressDetected := g[i].stressDetected + stress)]
    case None =>
      var r := g + [WeekBucket(w, 1, stress, 0)];
      assert r[|g|].week == w;
      r
  }

  /** The weekly counts of `xs`, in order of first appearance, before percentages are set. */
  function Group(xs: seq<Analysis>): seq<WeekBucket>
  {
    if xs == [] then []
    else AddAnalysis(Group(xs[..|xs| - 1]), xs[|xs| - 1])
  }

  /** Sets each bucket's percentage from its own counts. */
  function WithPercentages(g: seq<WeekBucket>): (r: seq<WeekBucket>)
    ensures |r| == |g|
    ensures forall i :: 0 <= i < |g| ==>
      r[i] == g[i].(percentage := RoundPercent(g[i].stressDetected, g[i].total))
  {
    if g == [] then []
    else [g[0].(percentage := RoundPercent(g[0].stressDetected, g[0].total))] + WithPercentages(g[1..])
  }

  /** The weekly trend of a history: counted weeks with percentages, oldest week first. */
  function WeeklyTrends(xs: seq<Analysis>): seq<WeekBucket>
  {
    Sequences.SortBy(WithPercentages(Group(xs)), BucketWeek)
  }

  /** The buckets of `g` count exactly the analyses of `xs` in their week. */
  predicate CountsMatch(xs: seq<Analysis>, g: seq<WeekBucket>)
  {
    forall i :: 0 <= i < |g| ==>
      && g[i].total == |InWeek(xs, g[i].week)|
      && g[i].stressDetected == StressCount(InWeek(xs, g[i].week))
  }

  /** Every analysis of `xs` has a bucket for its week in `g`. */
  predicate Covers(xs: seq<Analysis>, g: seq<WeekBucket>)
  {
    forall k :: 0 <= k < |xs| ==> HasWeek(g, WeekKey(xs[k]))
  }

  /** The bucket totals of `g` add up to the size of `xs`, and likewise for stress. */
  predicate SumsMatch(xs: seq<Analysis>, g: seq<WeekBucket>)
  {
    && Sequences.SumOf(g, BucketTotal) == |xs|
    && Sequences.SumOf(g, BucketStress) == StressCount(xs)
  }

  /** What grouping keeps true after every analysis it has counted. */
  predicate GroupInvariant(xs: seq<Analysis>, g: seq<WeekBucket>)
  {
    && Sequences.DistinctKeys(g, BucketWeek)
    && (forall i :: 0 <= i < |g| ==> g[i].total >= 1)
    && CountsMatch(xs, g)
    && Covers(xs, g)
    && SumsMatch(xs, g)
  }

  /** No analysis falls in a week that has no bucket. */
  lemma InWeekEmpty(xs: seq<Analysis>, g: seq<WeekBucket>, w: int)
    requires Covers(xs, g)
    requires !HasWeek(g, w)
    ensures InWeek(xs, w) == []
  {
    forall i | 0 <= i < |xs|
      ensures !OfWeek(w)(xs[i])
    {
      assert HasWeek(g, WeekKey(xs[i]));
    }
    Sequences.FilterNone(xs, OfWeek(w));
  }

  /** A new analysis leaves every other week's analyses as they were. */
  lemma InWeekOther(xs: seq<Analysis>, a: Analysis, v: int)
    requires v != WeekKey(a)
    ensures InWeek(xs + [a], v) == InWeek(xs, v)
  {
    Sequences.FilterConcat(xs, [a], OfWeek(v));
    assert InWeek([a], v) == [];
    assert InWeek(xs, v) + [] == InWeek(xs, v);
  }

  /** A new analysis joins the end of its own week. */
  lemma InWeekOwn(xs: seq<Analysis>, a: Analysis)
    ensures InWeek(xs + [a], WeekKey(a)) == InWeek(xs, WeekKey(a)) + [a]
    ensures StressCount(InWeek(xs + [a], WeekKey(a)))
         == StressCount(InWeek(xs, WeekKey(a))) + (if a.hasStress then 1 else 0)
  {
    Sequences.FilterConcat(xs, [a], OfWeek(WeekKey(a)));
    assert InWeek([a], WeekKey(a)) == [a];
    StressCountConcat(InWeek(xs, WeekKey(a)), [a]);
    assert StressCount([a]) == (if a.hasStress then 1 else 0);
  }

  /** Counting an analysis keeps the weeks distinct. */
  lemma AddKeepsDistinct(g: seq<WeekBucket>, a: Analysis)
    requires Sequences.DistinctKeys(g, BucketWeek)
    ensures Sequences.DistinctKeys(AddAnalysis(g, a), BucketWeek)
  {
    var g' := AddAnalysis(g, a);
    if |g'| == |g| + 1 {
      forall j | 0 <= j < |g|
        ensures g'[j].week != g'[|g|].week
      {
        assert !HasWeek(g, g'[|g|].week);
      }
    }
  }

  /** Counting an analysis keeps every analysis covered. */
  lemma AddKeepsCovered(xs: seq<Analysis>, a: Analysis, g: seq<WeekBucket>, xs': seq<Analysis>)
    requires xs' == xs + [a]
    requires Covers(xs, g)
    ensures Covers(xs', AddAnalysis(g, a))
  {
    var g' := AddAnalysis(g, a);
    forall k | 0 <= k < |xs'|
      ensures HasWeek(g', WeekKey(xs'[k]))
    {
      if k < |xs| {
        assert xs'[k] == xs[k];
        var j :| 0 <= j < |g| && g[j].week == WeekKey(xs[k]);
        assert g'[j].week == g[j].week;
      }
    }
  }

  /** Counting an analysis keeps every bucket equal to the count of its week. */
  lemma AddKeepsCounts(xs: seq<Analysis>, a: Analysis, g: seq<WeekBucket>, xs': seq<Analysis>)
    requires xs' == xs + [a]
    requires Sequences.DistinctKeys(g, BucketWeek) && CountsMatch(xs, g) && Covers(xs, g)
    ensures CountsMatch(xs', AddAnalysis(g, a))
  {
    var w := WeekKey(a);
    var g' := AddAnalysis(g, a);
    InWeekOwn(xs, a);
    match FindWeek(g, w)
    case Some(i) =>
      forall j | 0 <= j < |g'|
        ensures g'[j].total == |InWeek(xs', g'[j].week)|
        ensures g'[j].stressDetected == StressCount(InWeek(xs', g'[j].week))
      {
        if j != i {
          assert g[j].week != g[i].week;
          InWeekOther(xs, a, g[j].week);
        }
      }
    case None =>
      InWeekEmpty(xs, g, w);
      forall j | 0 <= j < |g'|
        ensures g'[j].total == |InWeek(xs', g'[j].week)|
        ensures g'[j].stressDetected == StressCount(InWeek(xs', g'[j].week))
      {
        if j < |g| {
          assert g[j].week != w;
          InWeekOther(xs, a, g[j].week);
        }
      }
  }

  /** Counting an analysis adds one to the total sum and its stress flag to the stress sum. */
  lemma AddKeepsSums(xs: seq<Analysis>, a: Analysis, g: seq<WeekBucket>, xs': seq<Analysis>)
    requires xs' == xs + [a]
    requires SumsMatch(xs, g)
    ensures SumsMatch(xs', AddAnalysis(g, a))
  {
    var w := WeekKey(a);
    var stress: nat := if a.hasStress then 1 else 0;
    StressCountConcat(xs, [a]);
    assert StressCount([a]) == stress;
    match FindWeek(g, w)
    case Some(i) =>
      var b := g[i].(total := g[i].total + 1, stressDetected := g[i].stressDetected + stress);
      Sequences.SumOfUpdate(g, i, b, BucketTotal);
      Sequences.SumOfUpdate(g, i, b, BucketStress);
    case None =>
      var b := WeekBucket(w, 1, stress, 0);
      Sequences.SumOfConcat(g, [b], BucketTotal);
      Sequences.SumOfConcat(g, [b], BucketStress);
      assert Sequences.SumOf([b], BucketTotal) == 1;
      assert Sequences.SumOf([b], BucketStress) == stress;
  }

  /** Counting the last analysis of `xs` on top of its prefix's grouping keeps the grouping invariant. */
  lemma AddKeepsInvariant(xs: seq<Analysis>, g: seq<WeekBucket>)
    requires xs != []
    requires GroupInvariant(xs[..|xs| - 1], g)
    ensures GroupInvariant(xs, AddAnalysis(g, xs[|xs| - 1]))
  {
    var prefix, a := xs[..|xs| - 1], xs[|xs| - 1];
    assert xs == prefix + [a];
    AddKeepsDistinct(g, a);
    AddKeepsCovered(prefix, a, g, xs);
    AddKeepsCounts(prefix, a, g, xs);
    AddKeepsSums(prefix, a, g, xs);
    AddKeepsPositive(g, a);
  }

  /** Counting an analysis never leaves a bucket empty. */
  lemma AddKeepsPositive(g: seq<WeekBucket>, a: Analysis)
    requires forall i :: 0 <= i < |g| ==> g[i].total >= 1
    ensures var g' := AddAnalysis(g, a); forall i :: 0 <= i < |g'| ==> g'[i].total >= 1
  {
  }

  /** Grouping a whole history satisfies the invariant. */
  lemma {:induction false} GroupCorrect(xs: seq<Analysis>)
    ensures GroupInvariant(xs, Group(xs))
  {
    if xs == [] {
      assert Group(xs) == [];
      assert StressCount(xs) == 0;
    } else {
      GroupCorrect(xs[..|xs| - 1]);
      AddKeepsInvariant(xs, Group(xs[..|xs| - 1]));
    }
  }

  /** What the summary promises of one emitted week of the history `xs`. */
  predicate WeekFacts(xs: seq<Analysis>, b: WeekBucket)
  {
    && Calendar.Weekday(b.week) == 0
    && b.total >= 1
    && b.total == |InWeek(xs, b.week)|
    && b.stressDetected == StressCount(InWeek(xs, b.week))
    && b.stressDetected <= b.total
    && b.percentage == RoundPercent(b.stressDetected, b.total)
    && b.percentage <= 100
  }

  /** Setting the percentages keeps the counts, weeks and sums and makes every bucket meet `WeekFacts`. */
  lemma WithPercentagesCorrect(xs: seq<Analysis>, g: seq<WeekBucket>)
    requires GroupInvariant(xs, g)
    ensures var p := WithPercentages(g);
      && Sequences.DistinctKeys(p, BucketWeek)
      && (forall i :: 0 <= i < |p| ==> WeekFacts(xs, p[i]))
      && Covers(xs, p)
      && SumsMatch(xs, p)
  {
    var p := WithPercentages(g);
    Sequences.SumOfPointwise(p, g, BucketTotal);
    Sequences.SumOfPointwise(p, g, BucketStress);
    forall i | 0 <= i < |p|
      ensures WeekFacts(xs, p[i])
    {
      var v := InWeek(xs, p[i].week);
      assert v[0] in xs && WeekKey(v[0]) == p[i].week;
    }
    forall k | 0 <= k < |xs|
      ensures HasWeek(p, WeekKey(xs[k]))
    {
      var j :| 0 <= j < |g| && g[j].week == WeekKey(xs[k]);
      assert p[j].week == g[j].week;
    }
  }

  /**
   The weekly trend partitions the history: each emitted week counts exactly
   the analyses whose own week it is, is non-empty, has a stress count within
   its total and the rounded percentage; the weeks are strictly ascending (so
   no week appears twice); every analysis has its week listed; and the totals
   and stress counts add up to those of the whole history.
   */
  lemma {:induction false} WeeklyTrendsCorrect(xs: seq<Analysis>)
    ensures var r := WeeklyTrends(xs);
      && (forall i :: 0 <= i < |r| ==> WeekFacts(xs, r[i]))
      && (forall i, j :: 0 <= i < j < |r| ==> r[i].week < r[j].week)
      && Covers(xs, r)
      && Sequences.SumOf(r, BucketTotal) == |xs|
      && Sequences.SumOf(r, BucketStress) == StressCount(xs)
  {
    var g := Group(xs);
    GroupCorrect(xs);
    var p := WithPercentages(g);
    WithPercentagesCorrect(xs, g);
    var r := Sequences.SortBy(p, BucketWeek);
    Sequences.SortByStrict(p, BucketWeek);
    Sequences.SumOfPermutation(r, p, BucketTotal);
    Sequences.SumOfPermutation(r, p, BucketStress);
    PermutationKeepsFacts(xs, p, r);
    PermutationKeepsCovers(xs, p, r);
  }

  lemma PermutationKeepsFacts(xs: seq<Analysis>, p: seq<WeekBucket>, r: seq<WeekBucket>)
    requires multiset(r) == multiset(p)
    requires forall i :: 0 <= i < |p| ==> WeekFacts(xs, p[i])
    ensures forall i :: 0 <= i < |r| ==> WeekFacts(xs, r[i])
  {
    forall i | 0 <= i < |r|
      ensures WeekFacts(xs, r[i])
    {
      assert r[i] in multiset(p);
    }
  }

  lemma PermutationKeepsCovers(xs: seq<Analysis>, p: seq<WeekBucket>, r: seq<WeekBucket>)
    requires multiset(r) == multiset(p)
    requires Covers(xs, p)
    ensures Covers(xs, r)
  {
    forall k | 0 <= k < |xs|
      ensures HasWeek(r, WeekKey(xs[k]))
    {
      var j :| 0 <= j < |p| && p[j].week == WeekKey(xs[k]);
      assert p[j] in multiset(r);
      var i :| 0 <= i < |r| && r[i] == p[j];
    }
  }

  /** Every analysis is counted in exactly one emitted week: the Sunday on or before its own day. */
  lemma ExactlyOneWeek(xs: seq<Analysis>, k: nat)
    requires k < |xs|
    ensures var r := WeeklyTrends(xs);
      exists i :: 0 <= i < |r| && r[i].week == Calendar.WeekStart(Calendar.DayOf(xs[k].createdAt))
        && (forall j :: 0 <= j < |r| && r[j].week == r[i].week ==> j == i)
  {
    WeeklyTrendsCorrect(xs);
    var r := WeeklyTrends(xs);
    assert HasWeek(r, WeekKey(xs[k]));
    var i :| 0 <= i < |r| && r[i].week == WeekKey(xs[k]);
    forall j | 0 <= j < |r| && r[j].week == r[i].week
      ensures j == i
    {
    }
    assert r[i].week == Calendar.WeekStart(Calendar.DayOf(xs[k].createdAt));
  }
}
