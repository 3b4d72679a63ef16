/** The remaining folds of the analytics engine: the question-to-vocabulary
    index, the count of words mastered, the accuracy percentage of a window and
    the achievement unlock evaluation. */
module Analytics {
  import opened Types
  import Activity

  // ---------------------------------------------------------------------------
  // Question-to-vocabulary index

  /** All questions of all quizzes, quiz by quiz, in order. */
  function AllQuestions(quizzes: seq<Quiz>): (qs: seq<QuizQuestion>)
    decreases |quizzes|
  {
    if |quizzes| == 0 then [] else AllQuestions(quizzes[..|quizzes| - 1]) + quizzes[|quizzes| - 1].questions
  }

  /** Indexes questions in order; a later question with the same id overwrites
      an earlier one. */
  function IndexQuestions(qs: seq<QuizQuestion>): (m: map<string, Option<string>>)
    decreases |qs|
  {
    if |qs| == 0 then map[]
    else
      var q := qs[|qs| - 1];
      IndexQuestions(qs[..|qs| - 1])[q.id := q.relatedVocabId]
  }

  /** An id has an entry exactly when some question carries it. */
  lemma {:induction false} IndexKey(qs: seq<QuizQuestion>, id: string)
    ensures id in IndexQuestions(qs) <==> exists i :: 0 <= i < |qs| && qs[i].id == id
    decreases |qs|
  {
    if |qs| > 0 {
      var n := |qs| - 1;
      var prefix := qs[..n];
      IndexKey(prefix, id);
      if id in IndexQuestions(qs) && id != qs[n].id {
        var i :| 0 <= i < |prefix| && prefix[i].id == id;
        assert qs[i] == prefix[i];
      }
      if exists i :: 0 <= i < |qs| && qs[i].id == id {
        var i :| 0 <= i < |qs| && qs[i].id == id;
        if i < n {
          assert prefix[i] == qs[i];
        }
      }
    }
  }

  /** The last question carrying an id decides its entry. */
  lemma {:induction false} IndexValue(qs: seq<QuizQuestion>, i: int)
    requires 0 <= i < |qs|
    requires forall j :: i < j < |qs| ==> qs[j].id != qs[i].id
    ensures qs[i].id in IndexQuestions(qs) && IndexQuestions(qs)[qs[i].id] == qs[i].relatedVocabId
    decreases |qs|
  {
    var n := |qs| - 1;
    if i < n {
      var prefix := qs[..n];
      assert prefix[i] == qs[i];
      assert forall j :: i < j < |prefix| ==> prefix[j] == qs[j];
      IndexValue(prefix, i);
    }
  }

  /** The index has an entry for exactly the ids of the questions, and each
      entry holds the vocabulary link of the last question carrying that id. */
  lemma IndexQuestionsContents(qs: seq<QuizQuestion>)
    ensures forall id :: id in IndexQuestions(qs) <==> exists i :: 0 <= i < |qs| && qs[i].id == id
    ensures forall i :: 0 <= i < |qs| && (forall j :: i < j < |qs| ==> qs[j].id != qs[i].id) ==>
              IndexQuestions(qs)[qs[i].id] == qs[i].relatedVocabId
  {
    forall id ensures id in IndexQuestions(qs) <==> exists i :: 0 <= i < |qs| && qs[i].id == id {
      IndexKey(qs, id);
    }
    forall i | 0 <= i < |qs| && (forall j :: i < j < |qs| ==> qs[j].id != qs[i].id)
      ensures IndexQuestions(qs)[qs[i].id] == qs[i].relatedVocabId
    {
      IndexValue(qs, i);
    }
  }

  /** Maps every question id of every quiz to the vocabulary item it drills
      (`None` when it has no link); the last question with an id wins. */
  function BuildQuestionToVocabIndex(quizzes: seq<Quiz>): (m: map<string, Option<string>>)
    ensures var qs := AllQuestions(quizzes);
            forall id :: id in m <==> exists i :: 0 <= i < |qs| && qs[i].id == id
    ensures var qs := AllQuestions(quizzes);
            forall i :: 0 <= i < |qs| && (forall j :: i < j < |qs| ==> qs[j].id != qs[i].id) ==>
              m[qs[i].id] == qs[i].relatedVocabId
  {
    var qs := AllQuestions(quizzes);
    IndexQuestionsContents(qs);
    IndexQuestions(qs)
  }

  // ---------------------------------------------------------------------------
  // Words mastered

  /** The vocabulary id a question counts towards: its link in the index, or
      the question id itself when there is none. */
  function VocabKey(q2v: map<string, Option<string>>, questionId: string): (key: string)
    ensures key == questionId || (questionId in q2v && q2v[questionId] == Some(key))
    ensures questionId in q2v && q2v[questionId].Some? ==> q2v[questionId] == Some(key)
  {
    if questionId in q2v && q2v[questionId].Some? then q2v[questionId].value else questionId
  }

  /** Some correct result among `results` counts towards vocabulary id `x`. */
  ghost predicate AnsweredCorrectly(q2v: map<string, Option<string>>, results: seq<QuestionResult>, x: string) {
    exists k :: 0 <= k < |results| && results[k].correct && VocabKey(q2v, results[k].questionId) == x
  }

  lemma AnsweredCorrectlyExtend(q2v: map<string, Option<string>>, results: seq<QuestionResult>)
    requires |results| > 0
    ensures var n := |results| - 1;
            forall x :: AnsweredCorrectly(q2v, results, x) <==>
              AnsweredCorrectly(q2v, results[..n], x)
              || (results[n].correct && VocabKey(q2v, results[n].questionId) == x)
  {
    var n := |results| - 1;
    var prefix := results[..n];
    assert forall k :: 0 <= k < n ==> prefix[k] == results[k];
  }

  /** The words mastered by one attempt's results. */
  function ResultWords(q2v: map<string, Option<string>>, results: seq<QuestionResult>): (w: set<string>)
    ensures |w| <= CorrectCount(results)
    ensures forall x :: x in w <==> AnsweredCorrectly(q2v, results, x)
    decreases |results|
  {
    if |results| == 0 then {}
    else
      var r := results[|results| - 1];
      var prefix := results[..|results| - 1];
      var w := ResultWords(q2v, prefix);
      AnsweredCorrectlyExtend(q2v, results);
      if r.correct then
        UnionSize(w, {VocabKey(q2v, r.questionId)});
        w + {VocabKey(q2v, r.questionId)}
      else w
  }

  /** The distinct vocabulary ids answered correctly anywhere in the history. */
  function MasteredWords(attempts: seq<QuizAttempt>, q2v: map<string, Option<string>>): (w: set<string>)
    ensures |w| <= CorrectSum(attempts)
    decreases |attempts|
  {
    if |attempts| == 0 then {}
    else
      var w := MasteredWords(attempts[..|attempts| - 1], q2v);
      var v := ResultWords(q2v, attempts[|attempts| - 1].results);
      UnionSize(w, v);
      w + v
  }

  lemma {:induction false} UnionSize<T>(a: set<T>, b: set<T>)
    ensures |a + b| <= |a| + |b|
    decreases |b|
  {
    if b != {} {
      var x :| x in b;
      UnionSize(a, b - {x});
      assert a + b == (a + (b - {x})) + {x};
    }
  }

  /** The number of distinct vocabulary items answered correctly at least once. */
  function ComputeUniqueWordsMastered(attempts: seq<QuizAttempt>, q2v: map<string, Option<string>>): (n: nat)
    ensures n <= CorrectSum(attempts)
    ensures attempts == [] ==> n == 0
  {
    |MasteredWords(attempts, q2v)|
  }

  /** A vocabulary id is mastered exactly when some correct result in some
      attempt counts towards it. */
  lemma {:induction false} MasteredWordsMembership(attempts: seq<QuizAttempt>, q2v: map<string, Option<string>>, x: string)
    ensures x in MasteredWords(attempts, q2v) <==>
            exists i :: 0 <= i < |attempts| && AnsweredCorrectly(q2v, attempts[i].results, x)
    decreases |attempts|
  {
    if |attempts| > 0 {
      var n := |attempts| - 1;
      var prefix := attempts[..n];
      var last := attempts[n].results;
      MasteredWordsMembership(prefix, q2v, x);
      assert MasteredWords(attempts, q2v) == MasteredWords(prefix, q2v) + ResultWords(q2v, last);
      if x in MasteredWords(attempts, q2v) {
        if x in MasteredWords(prefix, q2v) {
          var i :| 0 <= i < n && AnsweredCorrectly(q2v, prefix[i].results, x);
          assert prefix[i] == attempts[i];
        } else {
          assert AnsweredCorrectly(q2v, attempts[n].results, x);
        }
      }
      if exists i :: 0 <= i < |attempts| && AnsweredCorrectly(q2v, attempts[i].results, x) {
        var i :| 0 <= i < |attempts| && AnsweredCorrectly(q2v, attempts[i].results, x);
        if i < n {
          assert prefix[i] == attempts[i];
          assert x in MasteredWords(prefix, q2v);
        } else {
          assert i == n;
          assert AnsweredCorrectly(q2v, last, x);
          assert x in ResultWords(q2v, last);
        }
      }
    }
  }

  /** Appending attempts never lowers the count of words mastered. */
  lemma WordsMasteredMonotone(attempts: seq<QuizAttempt>, more: seq<QuizAttempt>, q2v: map<string, Option<string>>)
    ensures ComputeUniqueWordsMastered(attempts, q2v) <= ComputeUniqueWordsMastered(attempts + more, q2v)
  {
    var all := attempts + more;
    forall x | x in MasteredWords(attempts, q2v)
      ensures x in MasteredWords(all, q2v)
    {
      MasteredWordsMembership(attempts, q2v, x);
      MasteredWordsMembership(all, q2v, x);
      var i :| 0 <= i < |attempts| && AnsweredCorrectly(q2v, attempts[i].results, x);
      assert all[i] == attempts[i];
    }
    SubsetSize(MasteredWords(attempts, q2v), MasteredWords(all, q2v));
  }

  lemma SubsetSize<T>(a: set<T>, b: set<T>)
    requires a <= b
    ensures |a| <= |b|
  {
    assert b == a + (b - a);
  }

  // ---------------------------------------------------------------------------
  // Accuracy

  /** `arr.reduce((a, b) => a + b, 0)`. */
  function Sum(xs: seq<int>): int
    decreases |xs|
  {
    if |xs| == 0 then 0 else Sum(xs[..|xs| - 1]) + xs[|xs| - 1]
  }

  /** The sum of a concatenation is the sum of the sums. */
  lemma {:induction false} SumAppend(xs: seq<int>, ys: seq<int>)
    ensures Sum(xs + ys) == Sum(xs) + Sum(ys)
    decreases |ys|
  {
    if |ys| == 0 {
      assert xs + ys == xs;
    } else {
      var ys' := ys[..|ys| - 1];
      assert (xs + ys)[..|xs + ys| - 1] == xs + ys';
      SumAppend(xs, ys');
    }
  }

  /** `reduce` as JavaScript runs it: from the front, adding each element to
      the accumulator. */
  function Reduce(acc: int, xs: seq<int>): int
    decreases |xs|
  {
    if |xs| == 0 then acc else Reduce(acc + xs[0], xs[1..])
  }

  /** Running the front-to-back `reduce` from 0 computes `Sum`. */
  lemma {:induction false} SumIsReduce(acc: int, xs: seq<int>)
    ensures Reduce(acc, xs) == acc + Sum(xs)
    ensures Reduce(0, xs) == Sum(xs)
    decreases |xs|
  {
    if |xs| > 0 {
      SumIsReduce(acc + xs[0], xs[1..]);
      SumIsReduce(xs[0], xs[1..]);
      assert xs == [xs[0]] + xs[1..];
      SumAppend([xs[0]], xs[1..]);
      assert Sum([xs[0]]) == xs[0] by {
        assert [xs[0]][..0] == [];
      }
    }
  }

  lemma {:induction false} SumNonNegative(xs: seq<int>)
    requires forall i :: 0 <= i < |xs| ==> 0 <= xs[i]
    ensures 0 <= Sum(xs)
    decreases |xs|
  {
    if |xs| > 0 {
      SumNonNegative(xs[..|xs| - 1]);
    }
  }

  /** Summing a pointwise-smaller sequence gives a smaller sum. */
  lemma {:induction false} SumMonotone(xs: seq<int>, ys: seq<int>)
    requires |xs| == |ys|
    requires forall i :: 0 <= i < |xs| ==> xs[i] <= ys[i]
    ensures Sum(xs) <= Sum(ys)
    decreases |xs|
  {
    if |xs| > 0 {
      SumMonotone(xs[..|xs| - 1], ys[..|ys| - 1]);
    }
  }

  function CorrectColumn(points: seq<Activity.ActivityPoint>): seq<int> {
    seq(|points|, i requires 0 <= i < |points| => points[i].correct as int)
  }

  function TotalColumn(points: seq<Activity.ActivityPoint>): seq<int> {
    seq(|points|, i requires 0 <= i < |points| => points[i].total as int)
  }

  /** `Math.round` of `100 * correct / total` for non-negative counts: the
      nearest integer, halves rounded up. */
  function RoundPercent(correct: int, total: int): (r: int)
    requires 0 <= correct && 0 < total
    ensures 2 * total * r <= 200 * correct + total < 2 * total * (r + 1)
    ensures correct <= total ==> 0 <= r <= 100
  {
    var r := (200 * correct + total) / (2 * total);
    DivBounds(200 * correct + total, 2 * total);
    PercentAtMostHundred(correct, total, r);
    r
  }

  lemma DivBounds(x: int, y: int)
    requires 0 <= x && 0 < y
    ensures y * (x / y) <= x < y * (x / y + 1)
  {
  }

  lemma PercentAtMostHundred(correct: int, total: int, r: int)
    requires 0 <= correct && 0 < total
    requires 2 * total * r <= 200 * correct + total < 2 * total * (r + 1)
    ensures correct <= total ==> 0 <= r <= 100
  {
    if correct <= total {
      if r < 0 {
        ScaleMonotone(2 * total, r + 1, 0);
      }
      if r > 100 {
        ScaleMonotone(2 * total, 101, r);
      }
    }
  }

  lemma ScaleMonotone(a: int, x: int, y: int)
    requires 0 <= a && x <= y
    ensures a * x <= a * y
  {
    assert a * y - a * x == a * (y - x);
  }

  lemma ColumnsOrdered(points: seq<Activity.ActivityPoint>)
    ensures (forall i :: 0 <= i < |points| ==> points[i].correct <= points[i].total)
            ==> Sum(CorrectColumn(points)) <= Sum(TotalColumn(points))
  {
    if forall i :: 0 <= i < |points| ==> points[i].correct <= points[i].total {
      SumMonotone(CorrectColumn(points), TotalColumn(points));
    }
  }

  /** Accuracy of a window as a whole percentage; 0 when it holds no answers. */
  function AverageAccuracy(points: seq<Activity.ActivityPoint>): (pct: int)
    ensures Sum(TotalColumn(points)) == 0 ==> pct == 0
    ensures Sum(TotalColumn(points)) != 0 ==>
              var c := Sum(CorrectColumn(points));
              var t := Sum(TotalColumn(points));
              2 * t * pct <= 200 * c + t < 2 * t * (pct + 1)
    ensures (forall i :: 0 <= i < |points| ==> points[i].correct <= points[i].total) ==> 0 <= pct <= 100
  {
    var correct := Sum(CorrectColumn(points));
    var total := Sum(TotalColumn(points));
    SumNonNegative(CorrectColumn(points));
    SumNonNegative(TotalColumn(points));
    ColumnsOrdered(points);
    if total == 0 then 0 else RoundPercent(correct, total)
  }

  // ---------------------------------------------------------------------------
  // Achievements

  datatype Stats = Stats(streak: int, quizzesCompleted: int, wordsMastered: int)

  datatype AchievementState = AchievementState(
    id: string,
    title: string,
    description: string,
    icon: Option<string>,
    unlocked: bool)

  /** Whether a criterion is met; a kind the engine does not know never is. */
  function Unlocked(c: AchievementCriteria, stats: Stats): bool {
    match c
    case StreakDays(target) => stats.streak >= target
    case QuizzesCompleted(target) => stats.quizzesCompleted >= target
    case WordsMastered(target) => stats.wordsMastered >= target
    case UnknownCriterion(_, _) => false
  }

  /** One state per achievement, in the same order and with the same
      identifying fields; unlocked exactly when the stat its criterion names has
      reached the target. */
  function EvaluateAchievements(achievements: seq<Achievement>, stats: Stats): (r: seq<AchievementState>)
    ensures |r| == |achievements|
    ensures forall i :: 0 <= i < |r| ==>
              && r[i].id == achievements[i].id
              && r[i].title == achievements[i].title
              && r[i].description == achievements[i].description
              && r[i].icon == achievements[i].icon
    ensures forall i :: 0 <= i < |r| ==>
              var c := achievements[i].criteria;
              r[i].unlocked <==> || (c.StreakDays? && stats.streak >= c.target)
                                 || (c.QuizzesCompleted? && stats.quizzesCompleted >= c.target)
                                 || (c.WordsMastered? && stats.wordsMastered >= c.target)
  {
    seq(|achievements|, i requires 0 <= i < |achievements| =>
      var a := achievements[i];
      AchievementState(a.id, a.title, a.description, a.icon, Unlocked(a.criteria, stats)))
  }

  /** An achievement's state depends only on the stat its criterion names:
      changing the other stats leaves it as it was. */
  lemma UnlockIgnoresOtherStats(achievements: seq<Achievement>, s1: Stats, s2: Stats, i: int)
    requires 0 <= i < |achievements|
    requires achievements[i].criteria.StreakDays? ==> s1.streak == s2.streak
    requires achievements[i].criteria.QuizzesCompleted? ==> s1.quizzesCompleted == s2.quizzesCompleted
    requires achievements[i].criteria.WordsMastered? ==> s1.wordsMastered == s2.wordsMastered
    ensures EvaluateAchievements(achievements, s1)[i] == EvaluateAchievements(achievements, s2)[i]
  {
  }
}
