/** The records the quiz trainer stores and exchanges: questions of four kinds,
    per-question results, finished attempts, progress entries and achievements.
    Timestamps are milliseconds since the Unix epoch (UTC). */
module Types {

  /** An optional value; `None` stands for a missing or `undefined` field. */
  datatype Option<+T> = None | Some(value: T)

  datatype McOption = McOption(id: string, text: string)

  /** The closed union of question kinds. Every kind has an id, a prompt and an
      optional link to the vocabulary item it drills. */
  datatype QuizQuestion =
    | McQuestion(id: string, prompt: string, relatedVocabId: Option<string>,
                 options: seq<McOption>, correctOptionId: string)
    | FillInQuestion(id: string, prompt: string, relatedVocabId: Option<string>,
                     answer: string)
    | ListeningQuestion(id: string, prompt: string, relatedVocabId: Option<string>,
                        audioUrl: string, answer: string)
    | OrderingQuestion(id: string, prompt: string, relatedVocabId: Option<string>,
                       words: seq<string>)

  datatype Quiz = Quiz(id: string, title: string, level: Option<string>, questions: seq<QuizQuestion>)

  datatype QuestionResult = QuestionResult(
    questionId: string,
    correct: bool,
    userAnswer: Option<string>,
    selectedOptionId: Option<string>)

  datatype QuizAttempt = QuizAttempt(
    id: string,
    quizId: string,
    timestamp: int,
    durationSec: Option<int>,
    score: int,
    results: seq<QuestionResult>)

  datatype ProgressEntry = ProgressEntry(id: string, date: string, wordsReviewed: int, quizzesCompleted: int)

  datatype AchievementCriteria =
    | StreakDays(target: int)
    | QuizzesCompleted(target: int)
    | WordsMastered(target: int)
      /** A criterion kind outside the three known ones, as stored data may carry. */
    | UnknownCriterion(kind: string, target: int)

  datatype Achievement = Achievement(
    id: string,
    title: string,
    description: string,
    icon: Option<string>,
    criteria: AchievementCriteria)

  /** Number of results marked correct. */
  function CorrectCount(results: seq<QuestionResult>): (n: nat)
    ensures n <= |results|
    ensures n == 0 <==> forall k :: 0 <= k < |results| ==> !results[k].correct
    ensures n == |results| <==> forall k :: 0 <= k < |results| ==> results[k].correct
  {
    if |results| == 0 then 0
    else CorrectCount(results[..|results| - 1]) + (if results[|results| - 1].correct then 1 else 0)
  }

  lemma {:induction false} CorrectCountAppend(xs: seq<QuestionResult>, ys: seq<QuestionResult>)
    ensures CorrectCount(xs + ys) == CorrectCount(xs) + CorrectCount(ys)
    decreases |ys|
  {
    if |ys| == 0 {
      assert xs + ys == xs;
    } else {
      var ys' := ys[..|ys| - 1];
      assert (xs + ys)[..|xs + ys| - 1] == xs + ys';
      CorrectCountAppend(xs, ys');
    }
  }

  /** Correct answers over a list of attempts. */
  function CorrectSum(attempts: seq<QuizAttempt>): (n: nat)
    ensures n <= ResultSum(attempts)
    decreases |attempts|
  {
    if |attempts| == 0 then 0
    else CorrectSum(attempts[..|attempts| - 1]) + CorrectCount(attempts[|attempts| - 1].results)
  }

  /** Answers over a list of attempts. */
  function ResultSum(attempts: seq<QuizAttempt>): nat
    decreases |attempts|
  {
    if |attempts| == 0 then 0
    else ResultSum(attempts[..|attempts| - 1]) + |attempts[|attempts| - 1].results|
  }
}
