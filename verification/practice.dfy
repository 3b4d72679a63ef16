/** The practice page's summary of past attempts: for each quiz, the score and
    time of its most recent attempt. */
module Practice {
  import opened Types

  datatype Latest = Latest(score: int, timestamp: int)

  function EntryOf(a: QuizAttempt): Latest {
    Latest(a.score, a.timestamp)
  }

  /** One step of the reduce: an attempt replaces the quiz's entry when there
      is none yet or when it is strictly later. */
  function Step(acc: map<string, Latest>, a: QuizAttempt): map<string, Latest> {
    if a.quizId !in acc || a.timestamp > acc[a.quizId].timestamp then acc[a.quizId := EntryOf(a)]
    else acc
  }

  /** `attempts.reduce(..., {})`, in history order. */
  function LatestByQuiz(attempts: seq<QuizAttempt>): (m: map<string, Latest>)
    ensures forall q :: q in m ==> exists i :: 0 <= i < |attempts| && attempts[i].quizId == q && m[q] == EntryOf(attempts[i])
    decreases |attempts|
  {
    if |attempts| == 0 then map[]
    else
      var n := |attempts| - 1;
      var prev := LatestByQuiz(attempts[..n]);
      assert forall i :: 0 <= i < n ==> attempts[..n][i] == attempts[i];
      Step(prev, attempts[n])
  }

  /** Attempt `i` is the first attempt of quiz `q` carrying the latest time
      among that quiz's attempts. */
  ghost predicate IsLatest(attempts: seq<QuizAttempt>, q: string, i: int) {
    && 0 <= i < |attempts|
    && attempts[i].quizId == q
    && (forall j :: 0 <= j < |attempts| && attempts[j].quizId == q ==> attempts[j].timestamp <= attempts[i].timestamp)
    && (forall j :: 0 <= j < i && attempts[j].quizId == q ==> attempts[j].timestamp < attempts[i].timestamp)
  }

  /** `m` has an entry exactly for the quizzes attempted in `attempts`, and
      each entry carries the score and time of the quiz's latest attempt, the
      first one listed on a tie. */
  ghost predicate Summarises(attempts: seq<QuizAttempt>, m: map<string, Latest>) {
    && (forall q :: q in m <==> exists i :: 0 <= i < |attempts| && attempts[i].quizId == q)
    && (forall q :: q in m ==> exists i :: IsLatest(attempts, q, i) && m[q] == EntryOf(attempts[i]))
  }

  lemma StepKeys(prefix: seq<QuizAttempt>, a: QuizAttempt, m: map<string, Latest>, q: string)
    requires Summarises(prefix, m)
    ensures var xs := prefix + [a];
            q in Step(m, a) <==> exists i :: 0 <= i < |xs| && xs[i].quizId == q
  {
    var xs := prefix + [a];
    if q in Step(m, a) && q != a.quizId {
      var i :| 0 <= i < |prefix| && prefix[i].quizId == q;
      assert xs[i] == prefix[i];
    }
    if q == a.quizId {
      assert xs[|prefix|] == a;
    }
    if exists i :: 0 <= i < |xs| && xs[i].quizId == q {
      var i :| 0 <= i < |xs| && xs[i].quizId == q;
      if i < |prefix| {
        assert prefix[i] == xs[i];
      }
    }
  }

  lemma StepEntry(prefix: seq<QuizAttempt>, a: QuizAttempt, m: map<string, Latest>, q: string)
    requires Summarises(prefix, m)
    requires q in Step(m, a)
    ensures exists i :: IsLatest(prefix + [a], q, i) && Step(m, a)[q] == EntryOf((prefix + [a])[i])
  {
    var xs := prefix + [a];
    var n := |prefix|;
    assert xs[n] == a;
    if q != a.quizId {
      var i :| IsLatest(prefix, q, i) && m[q] == EntryOf(prefix[i]);
      LatestSurvivesOther(prefix, a, q, i);
    } else if q !in m {
      FirstOfItsQuiz(prefix, a, m);
    } else {
      var i :| IsLatest(prefix, q, i) && m[q] == EntryOf(prefix[i]);
      if a.timestamp > m[q].timestamp {
        LaterReplaces(prefix, a, i);
      } else {
        NotLaterKeeps(prefix, a, i);
      }
    }
  }

  /** An attempt of another quiz does not disturb the latest attempt of `q`. */
  lemma LatestSurvivesOther(prefix: seq<QuizAttempt>, a: QuizAttempt, q: string, i: int)
    requires IsLatest(prefix, q, i) && a.quizId != q
    ensures IsLatest(prefix + [a], q, i)
  {
    var xs := prefix + [a];
    assert forall j :: 0 <= j < |prefix| ==> xs[j] == prefix[j];
  }

  /** The first attempt of a quiz is its latest so far. */
  lemma FirstOfItsQuiz(prefix: seq<QuizAttempt>, a: QuizAttempt, m: map<string, Latest>)
    requires Summarises(prefix, m) && a.quizId !in m
    ensures IsLatest(prefix + [a], a.quizId, |prefix|)
  {
    var xs := prefix + [a];
    forall j | 0 <= j < |prefix| ensures xs[j].quizId != a.quizId {
      assert xs[j] == prefix[j];
    }
  }

  /** A strictly later attempt takes over. */
  lemma LaterReplaces(prefix: seq<QuizAttempt>, a: QuizAttempt, i: int)
    requires IsLatest(prefix, a.quizId, i) && a.timestamp > prefix[i].timestamp
    ensures IsLatest(prefix + [a], a.quizId, |prefix|)
  {
    var xs := prefix + [a];
    assert forall j :: 0 <= j < |prefix| ==> xs[j] == prefix[j];
  }

  /** An attempt that is not strictly later leaves the earlier one in place. */
  lemma NotLaterKeeps(prefix: seq<QuizAttempt>, a: QuizAttempt, i: int)
    requires IsLatest(prefix, a.quizId, i) && a.timestamp <= prefix[i].timestamp
    ensures IsLatest(prefix + [a], a.quizId, i)
  {
    var xs := prefix + [a];
    assert forall j :: 0 <= j < |prefix| ==> xs[j] == prefix[j];
  }

  /** The reduce summarises the attempt history: an entry exactly for the
      quizzes attempted, each with the score and time of the quiz's latest
      attempt, the one listed first on a tie. */
  lemma {:induction false} LatestByQuizSpec(attempts: seq<QuizAttempt>)
    ensures Summarises(attempts, LatestByQuiz(attempts))
    decreases |attempts|
  {
    if |attempts| > 0 {
      var n := |attempts| - 1;
      var prefix := attempts[..n];
      var a := attempts[n];
      LatestByQuizSpec(prefix);
      var m := LatestByQuiz(prefix);
      assert attempts == prefix + [a];
      forall q ensures q in Step(m, a) <==> exists i :: 0 <= i < |attempts| && attempts[i].quizId == q {
        StepKeys(prefix, a, m, q);
      }
      forall q | q in Step(m, a)
        ensures exists i :: IsLatest(attempts, q, i) && Step(m, a)[q] == EntryOf(attempts[i])
      {
        StepEntry(prefix, a, m, q);
      }
    }
  }

  /** Two attempts of the same quiz at the same time: the one listed first is
      shown. */
  lemma TieKeepsFirst(a: QuizAttempt, b: QuizAttempt)
    requires a.quizId == b.quizId && a.timestamp == b.timestamp
    ensures LatestByQuiz([a, b]) == map[a.quizId := EntryOf(a)]
  {
    assert [a, b][..1] == [a];
    assert [a][..0] == [];
    assert LatestByQuiz([a]) == map[a.quizId := EntryOf(a)];
  }
}
