/** A whole session followed through the store into the activity window: a
    three-question quiz where the multiple-choice question is answered right
    (it has no Submit button, so the countdown submits it), the fill-in
    question wrong, and the ordering question runs out of time. This timing
    assumes a countdown restarted for each question
    (`Countdown.NewQuestionRestarted`). With the page's own clock, which is
    not restarted, the fill-in question would already expire on its first
    frame once the multiple-choice countdown has run out
    (`Countdown.LaterQuestionExpiresAtOnce`), so the learner could not type
    an answer there. */
module EndToEnd {
  import opened Types
  import opened Text
  import opened Calendar
  import Activity
  import QuizRunner
  import Storage
  import QuizService

  /** A three-question quiz; the fill-in question's reference answer is
      `answer`. */
  function SampleQuiz(answer: string): Quiz {
    Quiz("quiz1", "Basics", None, [
      McQuestion("m1", "Pick b", None, [McOption("a", "A"), McOption("b", "B")], "b"),
      FillInQuestion("f1", "Animal", Some("v1"), answer),
      OrderingQuestion("o1", "Build it", None, ["I", "am"])
    ])
  }

  /** The learner picks "b" and waits for the countdown, types `typed` and
      presses Submit, and lets the countdown run out on the ordering question. */
  function Events(tick: QuizRunner.Clock, finish: QuizRunner.Clock, typed: string): seq<QuizRunner.Event> {
    FirstEvents(tick) + (SecondEvents(tick, typed) + ThirdEvents(finish))
  }

  function FirstEvents(tick: QuizRunner.Clock): seq<QuizRunner.Event> {
    [QuizRunner.ChooseOption("b"), QuizRunner.TimerExpired, QuizRunner.PressNext(tick)]
  }

  function SecondEvents(tick: QuizRunner.Clock, typed: string): seq<QuizRunner.Event> {
    [QuizRunner.TypeText(typed), QuizRunner.PressSubmit, QuizRunner.PressNext(tick)]
  }

  function ThirdEvents(finish: QuizRunner.Clock): seq<QuizRunner.Event> {
    [QuizRunner.TimerExpired, QuizRunner.PressNext(finish)]
  }

  /** Two answers without blanks at their ends that begin with different
      letters, case aside, normalise differently. */
  lemma FirstLetterDiffers(s: string, t: string)
    requires |s| > 0 && !IsSpace(s[0]) && !IsSpace(s[|s| - 1])
    requires |t| > 0 && !IsSpace(t[0]) && !IsSpace(t[|t| - 1])
    requires LowerChar(s[0]) != LowerChar(t[0])
    ensures Normalize(s) != Normalize(t)
  {
    TrimOfTrimmed(s);
    TrimOfTrimmed(t);
    assert Normalize(s)[0] != Normalize(t)[0];
  }

  /** "dog" is a wrong answer to the animal question. */
  lemma DogIsNotCat()
    ensures Wrong("dog", "cat")
  {
    var d, c := "dog", "cat";
    assert d[0] == 'd' && d[2] == 'g' && |d| == 3;
    assert c[0] == 'c' && c[2] == 't' && |c| == 3;
    FirstLetterDiffers(d, c);
  }

  /** Running two event lists in a row is running their concatenation. */
  lemma {:induction false} RunConcat(quiz: Quiz, s: QuizRunner.Session, a: seq<QuizRunner.Event>, b: seq<QuizRunner.Event>)
    ensures QuizRunner.Run(quiz, s, a + b) == QuizRunner.Run(quiz, QuizRunner.Run(quiz, s, a), b)
    decreases |a|
  {
    if |a| == 0 {
      assert a + b == b;
    } else {
      assert (a + b)[0] == a[0];
      assert (a + b)[1..] == a[1..] + b;
      RunConcat(quiz, QuizRunner.Apply(quiz, s, a[0]), a[1..], b);
    }
  }

  lemma RunCons(quiz: Quiz, s: QuizRunner.Session, e: QuizRunner.Event, rest: seq<QuizRunner.Event>)
    ensures QuizRunner.Run(quiz, s, [e] + rest) == QuizRunner.Run(quiz, QuizRunner.Apply(quiz, s, e), rest)
  {
    assert ([e] + rest)[0] == e;
    assert ([e] + rest)[1..] == rest;
  }

  function R1(): QuizRunner.Runner {
    QuizRunner.Runner(1, 1, [QuestionResult("m1", true, Some(""), Some("b"))], false, QuizRunner.Idle, None, "", [])
  }

  function R2(typed: string): QuizRunner.Runner {
    QuizRunner.Runner(2, 1, R1().results + [QuestionResult("f1", false, Some(typed), None)],
                      false, QuizRunner.Idle, None, "", [])
  }

  function R2Submitted(typed: string): QuizRunner.Runner {
    QuizRunner.Runner(1, 1, R2(typed).results, true, QuizRunner.Incorrect, None, typed, [])
  }

  function FinalAttempt(finish: QuizRunner.Clock, typed: string): QuizAttempt {
    QuizAttempt(finish.attemptId, "quiz1", finish.timestamp, finish.durationSec, 1,
                R2(typed).results + [QuestionResult("o1", false, Some(""), None)])
  }

  /** The multiple-choice question answered right and submitted by the
      countdown. */
  lemma FirstQuestion(answer: string, tick: QuizRunner.Clock)
    ensures QuizRunner.Run(SampleQuiz(answer), QuizRunner.Running(QuizRunner.Start()),
                           [QuizRunner.ChooseOption("b"), QuizRunner.TimerExpired, QuizRunner.PressNext(tick)])
            == QuizRunner.Running(R1())
  {
    var quiz := SampleQuiz(answer);
    var s0 := QuizRunner.Running(QuizRunner.Start());
    var s1 := QuizRunner.Running(QuizRunner.Start().(mcSelected := Some("b")));
    var s2 := QuizRunner.Running(QuizRunner.Runner(0, 1, R1().results, true, QuizRunner.Correct, Some("b"), "", []));
    assert QuizRunner.Apply(quiz, s0, QuizRunner.ChooseOption("b")) == s1;
    assert QuizRunner.Apply(quiz, s1, QuizRunner.TimerExpired) == s2;
    assert QuizRunner.Apply(quiz, s2, QuizRunner.PressNext(tick)) == QuizRunner.Running(R1());
    RunCons(quiz, s0, QuizRunner.ChooseOption("b"), [QuizRunner.TimerExpired, QuizRunner.PressNext(tick)]);
    RunCons(quiz, s1, QuizRunner.TimerExpired, [QuizRunner.PressNext(tick)]);
    RunCons(quiz, s2, QuizRunner.PressNext(tick), []);
  }

  /** A typed answer that does not normalise to the reference answer. */
  predicate Wrong(typed: string, answer: string) {
    Normalize(typed) != Normalize(answer)
  }

  /** The answer typed into the fill-in question. */
  lemma SecondType(answer: string, typed: string)
    ensures QuizRunner.Apply(SampleQuiz(answer), QuizRunner.Running(R1()), QuizRunner.TypeText(typed))
            == QuizRunner.Running(R1().(text := typed))
  {
  }

  /** The result recorded for a wrong typed answer to the fill-in question. */
  lemma SecondVerdict(answer: string, typed: string)
    requires Wrong(typed, answer)
    ensures QuizRunner.ResultFor(SampleQuiz(answer).questions[1], R1().(text := typed))
            == QuestionResult("f1", false, Some(typed), None)
  {
    var q := SampleQuiz(answer).questions[1];
    assert q == FillInQuestion("f1", "Animal", Some("v1"), answer);
    assert !QuizRunner.IsCorrect(q, None, typed, []);
  }

  /** Submitting a wrong answer to the fill-in question records it as wrong. */
  lemma SecondSubmit(answer: string, typed: string)
    requires Wrong(typed, answer)
    ensures QuizRunner.Apply(SampleQuiz(answer), QuizRunner.Running(R1().(text := typed)), QuizRunner.PressSubmit)
            == QuizRunner.Running(R2Submitted(typed))
  {
    var quiz := SampleQuiz(answer);
    var s := R1().(text := typed);
    SecondVerdict(answer, typed);
    var res := QuestionResult("f1", false, Some(typed), None);
    assert |quiz.questions| == 3;
    QuizRunner.SubmitWrong(quiz, s, res);
    assert QuizRunner.SubmitOffered(quiz, s);
    assert QuizRunner.Apply(quiz, QuizRunner.Running(s), QuizRunner.PressSubmit) == QuizRunner.Running(QuizRunner.Submit(quiz, s));
  }

  /** Moving on to the ordering question. */
  lemma SecondAdvance(answer: string, tick: QuizRunner.Clock, typed: string)
    ensures QuizRunner.Apply(SampleQuiz(answer), QuizRunner.Running(R2Submitted(typed)), QuizRunner.PressNext(tick))
            == QuizRunner.Running(R2(typed))
  {
  }

  /** The fill-in question answered wrong. */
  lemma SecondQuestion(answer: string, tick: QuizRunner.Clock, typed: string)
    requires Wrong(typed, answer)
    ensures QuizRunner.Run(SampleQuiz(answer), QuizRunner.Running(R1()),
                           [QuizRunner.TypeText(typed), QuizRunner.PressSubmit, QuizRunner.PressNext(tick)])
            == QuizRunner.Running(R2(typed))
  {
    var quiz := SampleQuiz(answer);
    var s0 := QuizRunner.Running(R1());
    var s1 := QuizRunner.Running(R1().(text := typed));
    var s2 := QuizRunner.Running(R2Submitted(typed));
    SecondType(answer, typed);
    SecondSubmit(answer, typed);
    SecondAdvance(answer, tick, typed);
    RunCons(quiz, s0, QuizRunner.TypeText(typed), [QuizRunner.PressSubmit, QuizRunner.PressNext(tick)]);
    RunCons(quiz, s1, QuizRunner.PressSubmit, [QuizRunner.PressNext(tick)]);
    RunCons(quiz, s2, QuizRunner.PressNext(tick), []);
  }

  /** The ordering question left untouched until the countdown ends. */
  lemma ThirdQuestion(answer: string, finish: QuizRunner.Clock, typed: string)
    ensures QuizRunner.Run(SampleQuiz(answer), QuizRunner.Running(R2(typed)),
                           [QuizRunner.TimerExpired, QuizRunner.PressNext(finish)])
            == QuizRunner.Completed(FinalAttempt(finish, typed))
  {
    var quiz := SampleQuiz(answer);
    var s0 := QuizRunner.Running(R2(typed));
    var s1 := QuizRunner.Running(QuizRunner.Runner(2, 1, FinalAttempt(finish, typed).results, true, QuizRunner.Incorrect, None, "", []));
    assert Join(["I", "am"]) == "I" + " " + "am";
    assert !QuizRunner.IsCorrect(quiz.questions[2], None, "", []);
    assert QuizRunner.Apply(quiz, s0, QuizRunner.TimerExpired) == s1;
    assert QuizRunner.Apply(quiz, s1, QuizRunner.PressNext(finish)) == QuizRunner.Completed(FinalAttempt(finish, typed));
    RunCons(quiz, s0, QuizRunner.TimerExpired, [QuizRunner.PressNext(finish)]);
    RunCons(quiz, s1, QuizRunner.PressNext(finish), []);
  }

  /** With a wrong typed answer the session completes with one attempt of
      the quiz scoring 1 out of 3, stamped with the finishing clock. */
  lemma SessionOutcome(answer: string, tick: QuizRunner.Clock, finish: QuizRunner.Clock, typed: string)
    requires Wrong(typed, answer)
    ensures var s := QuizRunner.Run(SampleQuiz(answer), QuizRunner.Running(QuizRunner.Start()), Events(tick, finish, typed));
            && s.Completed?
            && s.attempt.score == 1
            && |s.attempt.results| == 3
            && CorrectCount(s.attempt.results) == 1
            && s.attempt.timestamp == finish.timestamp
            && s.attempt.id == finish.attemptId
            && s.attempt.quizId == "quiz1"
  {
    var quiz := SampleQuiz(answer);
    var a, b, c := FirstEvents(tick), SecondEvents(tick, typed), ThirdEvents(finish);
    RunConcat(quiz, QuizRunner.Running(QuizRunner.Start()), a, b + c);
    FirstQuestion(answer, tick);
    RunConcat(quiz, QuizRunner.Running(R1()), b, c);
    SecondQuestion(answer, tick, typed);
    ThirdQuestion(answer, finish, typed);
    FinalScore(finish, typed);
  }

  /** The final attempt holds one correct result out of three. */
  lemma FinalScore(finish: QuizRunner.Clock, typed: string)
    ensures |FinalAttempt(finish, typed).results| == 3
    ensures CorrectCount(FinalAttempt(finish, typed).results) == 1
  {
    var f1 := QuestionResult("f1", false, Some(typed), None);
    var o1 := QuestionResult("o1", false, Some(""), None);
    CorrectCountAppend(R1().results, [f1]);
    CorrectCountAppend(R2(typed).results, [o1]);
  }

  /** Stored and aggregated on the day it finished, the attempt adds one
      session, one correct answer and three answers to today's bucket. */
  lemma TodaysBucketGrows(store: Storage.Store, tick: QuizRunner.Clock, finish: QuizRunner.Clock, answer: string, typed: string, today: int, days: int)
    requires Wrong(typed, answer)
    requires DayOf(finish.timestamp) == today && days >= 1
    ensures var s := QuizRunner.Run(SampleQuiz(answer), QuizRunner.Running(QuizRunner.Start()), Events(tick, finish, typed));
            s.Completed? &&
            var store' := QuizService.AddQuizAttempt(store, s.attempt).store;
            var before := Activity.ComputeDailyActivity(Storage.ReadAttempts(store), today, days)[days - 1];
            var after := Activity.ComputeDailyActivity(Storage.ReadAttempts(store'), today, days)[days - 1];
            && after.period == today
            && after.sessions == before.sessions + 1
            && after.correct == before.correct + 1
            && after.total == before.total + 3
  {
    SessionOutcome(answer, tick, finish, typed);
    var s := QuizRunner.Run(SampleQuiz(answer), QuizRunner.Running(QuizRunner.Start()), Events(tick, finish, typed));
    StoredAttemptCountsToday(store, s.attempt, today, days);
  }

  /** Any attempt stored on the day it was made is counted in the last bucket
      of the daily window. */
  lemma StoredAttemptCountsToday(store: Storage.Store, a: QuizAttempt, today: int, days: int)
    requires DayOf(a.timestamp) == today && days >= 1
    ensures var before := Activity.ComputeDailyActivity(Storage.ReadAttempts(store), today, days)[days - 1];
            var after := Activity.ComputeDailyActivity(Storage.ReadAttempts(QuizService.AddQuizAttempt(store, a).store), today, days)[days - 1];
            && after.period == today
            && after.sessions == before.sessions + 1
            && after.correct == before.correct + CorrectCount(a.results)
            && after.total == before.total + |a.results|
  {
    var xs := Storage.ReadAttempts(store);
    assert Storage.ReadAttempts(QuizService.AddQuizAttempt(store, a).store) == xs + [a];
    var before := Activity.ComputeDailyActivity(xs, today, days)[days - 1];
    assert before.period == today;
    assert Activity.BucketOf(Activity.Daily, a) == today;
    Activity.SeriesAppend(Activity.Daily, xs, a, today, days, days - 1);
  }
}
