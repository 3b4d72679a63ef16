/** The daily, weekly and monthly activity windows of the progress view: a
    fixed number of consecutive buckets ending at the current period, each
    counting the sessions, correct answers and answers of the attempts whose
    bucket key it carries. Recomputed from the full history on every call. */
module Activity {
  import opened Types
  import opened Calendar

  datatype Granularity = Daily | Weekly | Monthly

  /** One bucket. `period` is the bucket key: a day number for daily buckets,
      the day number of the bucket's Monday for weekly ones, and a month index
      for monthly ones. */
  datatype ActivityPoint = ActivityPoint(period: int, sessions: nat, correct: nat, total: nat)

  /** The key of the bucket a day belongs to. */
  function PeriodOfDay(g: Granularity, day: int): int {
    match g
    case Daily => day
    case Weekly => StartOfWeek(day)
    case Monthly => MonthIndex(day)
  }

  /** The key of the bucket an attempt belongs to, from its timestamp. */
  function BucketOf(g: Granularity, a: QuizAttempt): (key: int)
    ensures g == Daily ==> key * MsPerDay <= a.timestamp < (key + 1) * MsPerDay
    ensures g == Weekly ==> Weekday(key) == 1 && key <= DayOf(a.timestamp) <= key + 6
    ensures g == Monthly ==> key == MonthIndex(DayOf(a.timestamp))
  {
    PeriodOfDay(g, DayOf(a.timestamp))
  }

  /** Distance between the keys of consecutive buckets. */
  function Stride(g: Granularity): int {
    if g == Weekly then 7 else 1
  }

  /** A loop `for (i = n - 1; i >= 0; i--)` runs `n` times, or never when `n` is negative. */
  function WindowSize(n: int): nat {
    if n < 0 then 0 else n
  }

  /** The keys of the window, oldest first, the last being the current period. */
  function WindowKeys(g: Granularity, today: int, n: int): (keys: seq<int>)
    ensures |keys| == WindowSize(n)
    ensures forall j :: 0 <= j < |keys| ==> keys[j] == PeriodOfDay(g, today) - Stride(g) * (|keys| - 1 - j)
  {
    var len := WindowSize(n);
    seq(len, j requires 0 <= j < len => PeriodOfDay(g, today) - Stride(g) * (len - 1 - j))
  }

  function EmptyPoints(keys: seq<int>): (points: seq<ActivityPoint>)
    ensures |points| == |keys|
    ensures forall j :: 0 <= j < |keys| ==> points[j] == ActivityPoint(keys[j], 0, 0, 0)
  {
    seq(|keys|, j requires 0 <= j < |keys| => ActivityPoint(keys[j], 0, 0, 0))
  }

  /** Counts one attempt into a bucket. */
  function Tally(p: ActivityPoint, a: QuizAttempt): ActivityPoint {
    ActivityPoint(p.period, p.sessions + 1, p.correct + CorrectCount(a.results), p.total + |a.results|)
  }

  /** Counts one attempt into the bucket whose key is `key`; when no bucket
      carries that key the points are unchanged. */
  function Record(points: seq<ActivityPoint>, key: int, a: QuizAttempt): (r: seq<ActivityPoint>)
    ensures |r| == |points|
    ensures forall j :: 0 <= j < |r| ==> r[j].period == points[j].period
  {
    seq(|points|, j requires 0 <= j < |points| => if points[j].period == key then Tally(points[j], a) else points[j])
  }

  /** `attempts.forEach(...)`: counts every attempt in history order. */
  function Accumulate(points: seq<ActivityPoint>, g: Granularity, attempts: seq<QuizAttempt>): (r: seq<ActivityPoint>)
    ensures |r| == |points|
    ensures forall j :: 0 <= j < |r| ==> r[j].period == points[j].period
    ensures forall j :: 0 <= j < |r| ==>
              r[j].correct - points[j].correct <= r[j].total - points[j].total
              && points[j].total <= r[j].total && points[j].correct <= r[j].correct
    decreases |attempts|
  {
    if |attempts| == 0 then points
    else
      var a := attempts[|attempts| - 1];
      Record(Accumulate(points, g, attempts[..|attempts| - 1]), BucketOf(g, a), a)
  }

  /** The activity window of `n` buckets ending at the period containing `today`. */
  function Series(g: Granularity, attempts: seq<QuizAttempt>, today: int, n: int): (r: seq<ActivityPoint>)
    ensures |r| == WindowSize(n)
    ensures |r| > 0 ==> r[|r| - 1].period == PeriodOfDay(g, today)
    ensures forall j :: 0 < j < |r| ==> r[j].period == r[j - 1].period + Stride(g)
    ensures forall j :: 0 <= j < |r| ==> r[j].correct <= r[j].total
    ensures attempts == [] ==> forall j :: 0 <= j < |r| ==> r[j].sessions == r[j].correct == r[j].total == 0
  {
    Accumulate(EmptyPoints(WindowKeys(g, today, n)), g, attempts)
  }

  // ---------------------------------------------------------------------------
  // A reference definition of a bucket's content, and its agreement with the fold

  /** The attempts of a bucket, in history order. */
  function InBucket(g: Granularity, attempts: seq<QuizAttempt>, key: int): (r: seq<QuizAttempt>)
    ensures |r| <= |attempts|
    ensures forall a :: a in r <==> a in attempts && BucketOf(g, a) == key
    decreases |attempts|
  {
    if |attempts| == 0 then []
    else
      var a := attempts[|attempts| - 1];
      var rest := InBucket(g, attempts[..|attempts| - 1], key);
      assert attempts == attempts[..|attempts| - 1] + [a];
      if BucketOf(g, a) == key then rest + [a] else rest
  }

  /** Every bucket after the fold holds its starting counts plus the sessions,
      correct answers and answers of exactly the attempts keyed to it. */
  lemma {:induction false} AccumulateCounts(points: seq<ActivityPoint>, g: Granularity, attempts: seq<QuizAttempt>, j: int)
    requires 0 <= j < |points|
    ensures var p := Accumulate(points, g, attempts)[j];
            var inb := InBucket(g, attempts, points[j].period);
            && p.sessions == points[j].sessions + |inb|
            && p.correct == points[j].correct + CorrectSum(inb)
            && p.total == points[j].total + ResultSum(inb)
    decreases |attempts|
  {
    if |attempts| > 0 {
      var a := attempts[|attempts| - 1];
      var prefix := attempts[..|attempts| - 1];
      AccumulateCounts(points, g, prefix, j);
      var inb := InBucket(g, prefix, points[j].period);
      if BucketOf(g, a) == points[j].period {
        assert (inb + [a])[..|inb + [a]| - 1] == inb;
      }
    }
  }

  /** Each bucket of the window counts exactly the attempts whose bucket key it
      carries: one session each, their correct answers and their answers. */
  lemma SeriesCounts(g: Granularity, attempts: seq<QuizAttempt>, today: int, n: int, j: int)
    requires 0 <= j < WindowSize(n)
    ensures var p := Series(g, attempts, today, n)[j];
            var inb := InBucket(g, attempts, p.period);
            p.sessions == |inb| && p.correct == CorrectSum(inb) && p.total == ResultSum(inb)
  {
    AccumulateCounts(EmptyPoints(WindowKeys(g, today, n)), g, attempts, j);
  }

  /** Appending an attempt adds it to the one bucket carrying its key and
      leaves every other bucket as it was. */
  lemma SeriesAppend(g: Granularity, attempts: seq<QuizAttempt>, a: QuizAttempt, today: int, n: int, j: int)
    requires 0 <= j < WindowSize(n)
    ensures var before := Series(g, attempts, today, n)[j];
            var after := Series(g, attempts + [a], today, n)[j];
            after == if before.period == BucketOf(g, a) then Tally(before, a) else before
  {
    assert (attempts + [a])[..|attempts + [a]| - 1] == attempts;
  }

  /** An attempt outside the window changes no bucket. */
  lemma OutOfWindowIgnored(g: Granularity, attempts: seq<QuizAttempt>, a: QuizAttempt, today: int, n: int)
    requires forall j :: 0 <= j < WindowSize(n) ==> Series(g, attempts, today, n)[j].period != BucketOf(g, a)
    ensures Series(g, attempts + [a], today, n) == Series(g, attempts, today, n)
  {
    forall j | 0 <= j < WindowSize(n)
      ensures Series(g, attempts + [a], today, n)[j] == Series(g, attempts, today, n)[j]
    {
      SeriesAppend(g, attempts, a, today, n, j);
    }
  }

  // ---------------------------------------------------------------------------
  // The three windows of the progress view

  /** Daily window (14 days by default): one bucket per day, ending today. */
  function ComputeDailyActivity(attempts: seq<QuizAttempt>, today: int, days: int): (r: seq<ActivityPoint>)
    ensures |r| == WindowSize(days)
    ensures forall j :: 0 <= j < |r| ==> r[j].period == today - (|r| - 1 - j)
  {
    Series(Daily, attempts, today, days)
  }

  /** Weekly window (8 weeks by default): one bucket per Monday-based week,
      keyed by its Monday, ending with the current week. */
  function ComputeWeeklyActivity(attempts: seq<QuizAttempt>, today: int, weeks: int): (r: seq<ActivityPoint>)
    ensures |r| == WindowSize(weeks)
    ensures forall j :: 0 <= j < |r| ==> r[j].period == StartOfWeek(today) - 7 * (|r| - 1 - j)
    ensures forall j :: 0 <= j < |r| ==> Weekday(r[j].period) == 1
  {
    var r := Series(Weekly, attempts, today, weeks);
    forall j | 0 <= j < |r|
      ensures Weekday(r[j].period) == 1
    {
      MondaysAWeekApart(StartOfWeek(today), |r| - 1 - j);
    }
    r
  }

  /** Monthly window (6 months by default): one bucket per calendar month,
      keyed by its month index, ending with the current month. */
  function ComputeMonthlyActivity(attempts: seq<QuizAttempt>, today: int, months: int): (r: seq<ActivityPoint>)
    ensures |r| == WindowSize(months)
    ensures forall j :: 0 <= j < |r| ==> r[j].period == MonthIndex(today) - (|r| - 1 - j)
  {
    Series(Monthly, attempts, today, months)
  }

  lemma MondaysAWeekApart(monday: int, k: nat)
    requires Weekday(monday) == 1
    ensures Weekday(monday - 7 * k) == 1
  {
    assert (monday - 7 * k + 4) % 7 == (monday + 4) % 7;
  }

  /** An attempt lands in the weekly bucket keyed by Monday `m` exactly when it
      falls on one of the seven days from `m` to the following Sunday. */
  lemma WeeklyBucketIsItsWeek(a: QuizAttempt, m: int)
    requires Weekday(m) == 1
    ensures BucketOf(Weekly, a) == m <==> m <= DayOf(a.timestamp) <= m + 6
  {
    var d := DayOf(a.timestamp);
    if m <= d <= m + 6 {
      StartOfWeekOfMonday(m);
      SameWeekSameStart(m, d);
    }
  }
}
