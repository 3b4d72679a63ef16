/** The attempt store: the list of finished quiz attempts under
    `ll_quiz_attempts`. Every mutator reads the current list, computes the new
    one, writes it and returns it. */
module QuizService {
  import opened Types
  import opened Lists
  import opened Storage

  /** `Partial<QuizAttempt>`: the fields a patch carries. */
  datatype AttemptPatch = AttemptPatch(
    id: Option<string>,
    quizId: Option<string>,
    timestamp: Option<int>,
    durationSec: Option<Option<int>>,
    score: Option<int>,
    results: Option<seq<QuestionResult>>)

  /** `{ ...a, ...patch }`: fields the patch carries replace those of `a`. */
  function MergeAttempt(a: QuizAttempt, p: AttemptPatch): (r: QuizAttempt)
    ensures p == AttemptPatch(None, None, None, None, None, None) ==> r == a
    ensures p.id.Some? && p.quizId.Some? && p.timestamp.Some? && p.durationSec.Some? && p.score.Some? && p.results.Some? ==>
              r == QuizAttempt(p.id.value, p.quizId.value, p.timestamp.value, p.durationSec.value, p.score.value, p.results.value)
    ensures p.id.Some? ==> r.id == p.id.value
    ensures p.id.None? ==> r.id == a.id
    ensures p.quizId.Some? ==> r.quizId == p.quizId.value
    ensures p.quizId.None? ==> r.quizId == a.quizId
    ensures p.timestamp.Some? ==> r.timestamp == p.timestamp.value
    ensures p.timestamp.None? ==> r.timestamp == a.timestamp
    ensures p.durationSec.Some? ==> r.durationSec == p.durationSec.value
    ensures p.durationSec.None? ==> r.durationSec == a.durationSec
    ensures p.score.Some? ==> r.score == p.score.value
    ensures p.score.None? ==> r.score == a.score
    ensures p.results.Some? ==> r.results == p.results.value
    ensures p.results.None? ==> r.results == a.results
  {
    QuizAttempt(
      if p.id.Some? then p.id.value else a.id,
      if p.quizId.Some? then p.quizId.value else a.quizId,
      if p.timestamp.Some? then p.timestamp.value else a.timestamp,
      if p.durationSec.Some? then p.durationSec.value else a.durationSec,
      if p.score.Some? then p.score.value else a.score,
      if p.results.Some? then p.results.value else a.results)
  }

  /** An empty patch changes nothing, and applying a patch twice is applying it once. */
  lemma MergeLaws(a: QuizAttempt, p: AttemptPatch)
    ensures MergeAttempt(a, AttemptPatch(None, None, None, None, None, None)) == a
    ensures MergeAttempt(MergeAttempt(a, p), p) == MergeAttempt(a, p)
  {
  }

  /** `getAttemptsByQuiz`: the stored attempts of one quiz, in stored order. */
  function GetAttemptsByQuiz(store: Store, quizId: string): (r: seq<QuizAttempt>)
    ensures forall k :: 0 <= k < |r| ==> r[k].quizId == quizId && r[k] in ReadAttempts(store)
    ensures forall k :: 0 <= k < |ReadAttempts(store)| && ReadAttempts(store)[k].quizId == quizId
              ==> ReadAttempts(store)[k] in r
    ensures exists idx :: SubseqAt(ReadAttempts(store), r, idx)
              && forall i :: 0 <= i < |ReadAttempts(store)| ==> (i in idx <==> ReadAttempts(store)[i].quizId == quizId)
  {
    var ofQuiz := (a: QuizAttempt) => a.quizId == quizId;
    KeepInOrder(ReadAttempts(store), ofQuiz);
    Keep(ReadAttempts(store), ofQuiz)
  }

  /** `addQuizAttempt`: the new attempt goes at the end. */
  function AddQuizAttempt(store: Store, attempt: QuizAttempt): (w: Written<QuizAttempt>)
    ensures w.list == ReadAttempts(store) + [attempt]
    ensures ReadAttempts(w.store) == w.list
    ensures ReadProgress(w.store) == ReadProgress(store) && ReadIds(w.store) == ReadIds(store)
    ensures OnlyKeyChanged(store, w.store, AttemptsKey)
  {
    var next := ReadAttempts(store) + [attempt];
    Written(WriteAttempts(store, next), next)
  }

  /** `updateQuizAttempt`: every attempt with the id gets the patch, every
      other attempt stays where and as it was. */
  function UpdateQuizAttempt(store: Store, id: string, patch: AttemptPatch): (w: Written<QuizAttempt>)
    ensures var prev := ReadAttempts(store);
            && |w.list| == |prev|
            && (forall k :: 0 <= k < |prev| && prev[k].id != id ==> w.list[k] == prev[k])
            && (forall k :: 0 <= k < |prev| && prev[k].id == id ==> w.list[k] == MergeAttempt(prev[k], patch))
    ensures ReadAttempts(w.store) == w.list
    ensures ReadProgress(w.store) == ReadProgress(store) && ReadIds(w.store) == ReadIds(store)
    ensures OnlyKeyChanged(store, w.store, AttemptsKey)
  {
    var next := UpdateWhere(ReadAttempts(store), (a: QuizAttempt) => a.id == id,
                            (a: QuizAttempt) => MergeAttempt(a, patch));
    Written(WriteAttempts(store, next), next)
  }

  /** `removeQuizAttempt`: drops every attempt with the id and keeps the
      others, each once and in stored order. */
  function RemoveQuizAttempt(store: Store, id: string): (w: Written<QuizAttempt>)
    ensures forall k :: 0 <= k < |w.list| ==> w.list[k].id != id && w.list[k] in ReadAttempts(store)
    ensures forall k :: 0 <= k < |ReadAttempts(store)| && ReadAttempts(store)[k].id != id
              ==> ReadAttempts(store)[k] in w.list
    ensures (forall k :: 0 <= k < |ReadAttempts(store)| ==> ReadAttempts(store)[k].id != id)
              ==> w.list == ReadAttempts(store)
    ensures exists idx :: SubseqAt(ReadAttempts(store), w.list, idx)
              && forall i :: 0 <= i < |ReadAttempts(store)| ==> (i in idx <==> ReadAttempts(store)[i].id != id)
    ensures ReadAttempts(w.store) == w.list
    ensures ReadProgress(w.store) == ReadProgress(store) && ReadIds(w.store) == ReadIds(store)
    ensures OnlyKeyChanged(store, w.store, AttemptsKey)
  {
    var other := (a: QuizAttempt) => a.id != id;
    KeepInOrder(ReadAttempts(store), other);
    var next := Keep(ReadAttempts(store), other);
    Written(WriteAttempts(store, next), next)
  }

  /** `clearQuizAttempts`: the stored list is empty afterwards. */
  function ClearQuizAttempts(store: Store): (r: Store)
    ensures ReadAttempts(r) == []
    ensures ReadProgress(r) == ReadProgress(store) && ReadIds(r) == ReadIds(store)
    ensures OnlyKeyChanged(store, r, AttemptsKey)
  {
    WriteAttempts(store, [])
  }

  /** After adding an attempt, the attempts of its quiz are the earlier ones
      followed by it; other quizzes' lists are unchanged. */
  lemma ByQuizAfterAdd(store: Store, attempt: QuizAttempt, quizId: string)
    ensures GetAttemptsByQuiz(AddQuizAttempt(store, attempt).store, quizId)
            == GetAttemptsByQuiz(store, quizId) + (if attempt.quizId == quizId then [attempt] else [])
  {
    KeepAppend(ReadAttempts(store), [attempt], (a: QuizAttempt) => a.quizId == quizId);
  }

  /** Removing an attempt that was just added leaves what removing it before
      would have left. */
  lemma RemoveUndoesAdd(store: Store, attempt: QuizAttempt)
    ensures RemoveQuizAttempt(AddQuizAttempt(store, attempt).store, attempt.id).list
            == RemoveQuizAttempt(store, attempt.id).list
  {
    KeepAppend(ReadAttempts(store), [attempt], (a: QuizAttempt) => a.id != attempt.id);
  }

  /** Removing twice is removing once. */
  lemma RemoveIdempotent(store: Store, id: string)
    ensures RemoveQuizAttempt(RemoveQuizAttempt(store, id).store, id).list == RemoveQuizAttempt(store, id).list
  {
    KeepIdempotent(ReadAttempts(store), (a: QuizAttempt) => a.id != id);
  }

  /** Updating an id that no attempt carries rewrites the same list. */
  lemma UpdateAbsentId(store: Store, id: string, patch: AttemptPatch)
    requires forall k :: 0 <= k < |ReadAttempts(store)| ==> ReadAttempts(store)[k].id != id
    ensures UpdateQuizAttempt(store, id, patch).list == ReadAttempts(store)
  {
  }
}
