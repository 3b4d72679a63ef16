/** The current-day streak: how many consecutive days, walking back from today,
    hold at least one attempt. A day without attempts today does not break the
    streak (it may still be extended later today) but is not counted either. */
module Streak {
  import opened Types
  import opened Calendar

  /** The walk looks at no more than this many days. */
  const WalkCap: nat := 365

  /** The distinct days on which some attempt was made. */
  function ActiveDays(attempts: seq<QuizAttempt>): set<int> {
    set i | 0 <= i < |attempts| :: DayOf(attempts[i].timestamp)
  }

  /** `k` consecutive active days `today - from`, `today - from - 1`, … and the
      run cannot be extended within the cap: the next day back is inactive or
      the cap is reached. */
  ghost predicate MaximalRun(active: set<int>, today: int, from: nat, k: nat) {
    && from + k <= WalkCap
    && (forall d :: today - (from + k) < d <= today - from ==> d in active)
    && (from + k == WalkCap || today - (from + k) !in active)
  }

  /** The loop `for (i = 0; i < 365; i++)` from step `i` on. */
  function Walk(active: set<int>, today: int, i: nat): (k: nat)
    requires i <= WalkCap
    ensures i == 0 && today !in active ==> MaximalRun(active, today, 1, k)
    ensures i > 0 || today in active ==> MaximalRun(active, today, i, k)
    decreases WalkCap - i
  {
    if i == WalkCap then 0
    else if i == 0 && today - i !in active then Walk(active, today, 1)
    else if today - i in active then 1 + Walk(active, today, i + 1)
    else 0
  }

  /** The streak ending today, or ending yesterday when today has no attempt
      yet; 0 for an empty history and never more than 365. */
  function ComputeCurrentStreak(attempts: seq<QuizAttempt>, today: int): (streak: nat)
    ensures |attempts| == 0 ==> streak == 0
    ensures streak <= WalkCap
    ensures var active := ActiveDays(attempts);
            MaximalRun(active, today, if today in active then 0 else 1, streak)
  {
    if |attempts| == 0 then 0
    else Walk(ActiveDays(attempts), today, 0)
  }

  /** A maximal run from a given start has one length only, so the contract of
      `ComputeCurrentStreak` determines its value. */
  lemma MaximalRunUnique(active: set<int>, today: int, from: nat, k1: nat, k2: nat)
    requires MaximalRun(active, today, from, k1) && MaximalRun(active, today, from, k2)
    ensures k1 == k2
  {
  }

  function AttemptOnDay(day: int): QuizAttempt {
    QuizAttempt("a", "q", day * MsPerDay, None, 0, [])
  }

  lemma DayOfMidnight(day: int)
    ensures DayOf(day * MsPerDay) == day
  {
  }

  /** Attempts today and yesterday only: a streak of 2. */
  lemma TodayAndYesterday(today: int)
    ensures ComputeCurrentStreak([AttemptOnDay(today), AttemptOnDay(today - 1)], today) == 2
  {
    DayOfMidnight(today);
    DayOfMidnight(today - 1);
    var atts := [AttemptOnDay(today), AttemptOnDay(today - 1)];
    assert DayOf(atts[0].timestamp) == today && DayOf(atts[1].timestamp) == today - 1;
    assert ActiveDays(atts) == {today, today - 1};
    var s := ComputeCurrentStreak(atts, today);
    MaximalRunUnique(ActiveDays(atts), today, 0, s, 2);
  }

  /** Attempts yesterday and the day before, none today: still a streak of 2. */
  lemma YesterdayAndTheDayBefore(today: int)
    ensures ComputeCurrentStreak([AttemptOnDay(today - 1), AttemptOnDay(today - 2)], today) == 2
  {
    DayOfMidnight(today - 1);
    DayOfMidnight(today - 2);
    var atts := [AttemptOnDay(today - 1), AttemptOnDay(today - 2)];
    assert DayOf(atts[0].timestamp) == today - 1 && DayOf(atts[1].timestamp) == today - 2;
    assert ActiveDays(atts) == {today - 1, today - 2};
    var s := ComputeCurrentStreak(atts, today);
    MaximalRunUnique(ActiveDays(atts), today, 1, s, 2);
  }

  /** An attempt two days ago only, nothing since: the streak is broken. */
  lemma OnlyTwoDaysAgo(today: int)
    ensures ComputeCurrentStreak([AttemptOnDay(today - 2)], today) == 0
  {
    DayOfMidnight(today - 2);
    var atts := [AttemptOnDay(today - 2)];
    assert DayOf(atts[0].timestamp) == today - 2;
    assert ActiveDays(atts) == {today - 2};
  }
}
