/** The quiz session: answer evaluation for the four question kinds, and the
    per-question state machine of the quiz page (answer input, submission by
    the learner or by the countdown, advancing, and assembling the attempt at
    the end). The page's React state is the record `Runner`; every handler is a
    pure transition on it. */
module QuizRunner {
  import opened Types
  import opened Text

  /** The countdown each question starts with; expiry arrives as an event. */
  const SecondsPerQuestion: nat := 20

  // ---------------------------------------------------------------------------
  // Shuffle

  /** Fisher–Yates: for `i` from the last index down to 1, swap element `i`
      with element `draws[i]`, a random index in `[0, i]` supplied by the caller
      in place of `Math.random`. */
  method Shuffle<T>(arr: seq<T>, draws: seq<int>) returns (r: seq<T>)
    requires |draws| == |arr|
    requires forall i :: 0 <= i < |draws| ==> 0 <= draws[i] <= i
    ensures |r| == |arr|
    ensures multiset(r) == multiset(arr)
    ensures (forall i :: 0 <= i < |draws| ==> draws[i] == i) ==> r == arr
  {
    r := arr;
    var i := |r| - 1;
    while i > 0
      invariant -1 <= i < |arr|
      invariant |r| == |arr|
      invariant multiset(r) == multiset(arr)
      invariant (forall k :: 0 <= k < |draws| ==> draws[k] == k) ==> r == arr
    {
      var j := draws[i];
      r := r[i := r[j]][j := r[i]];
      i := i - 1;
    }
  }

  // ---------------------------------------------------------------------------
  // Answer evaluation

  /** Whether the answer in progress is right: the chosen option for a
      multiple-choice question, the normalised text for fill-in and listening
      questions, and the space-joined sentence for ordering questions, always
      compared with the question's own (unshuffled) word list. */
  function IsCorrect(q: QuizQuestion, mcSelected: Option<string>, text: string, ordered: seq<string>): (ok: bool)
    ensures q.McQuestion? ==> (ok <==> mcSelected == Some(q.correctOptionId))
    ensures q.McQuestion? && mcSelected == None ==> !ok
    ensures (q.FillInQuestion? || q.ListeningQuestion?) ==> (ok <==> Normalize(text) == Normalize(q.answer))
    ensures q.OrderingQuestion? ==> (ok <==> Join(ordered) == Join(q.words))
  {
    match q
    case McQuestion(_, _, _, _, correctOptionId) => mcSelected == Some(correctOptionId)
    case FillInQuestion(_, _, _, answer) => Normalize(text) == Normalize(answer)
    case ListeningQuestion(_, _, _, _, answer) => Normalize(text) == Normalize(answer)
    case OrderingQuestion(_, _, _, words) => Join(ordered) == Join(words)
  }

  /** A typed answer is judged on its normal form alone: case and surrounding
      blanks do not matter, the normal form of the reference answer is always
      accepted, and a text whose normal form differs from the answer's is
      always rejected. */
  lemma TypedAnswerNormalForm(q: QuizQuestion, mcSelected: Option<string>, text: string, ordered: seq<string>)
    requires q.FillInQuestion? || q.ListeningQuestion?
    ensures IsCorrect(q, mcSelected, text, ordered) == IsCorrect(q, mcSelected, Normalize(text), ordered)
    ensures IsCorrect(q, mcSelected, Normalize(q.answer), ordered)
    ensures Normalize(text) != Normalize(q.answer) ==> !IsCorrect(q, mcSelected, text, ordered)
  {
    NormalizeIdempotent(text);
    NormalizeIdempotent(q.answer);
  }

  /** The original word order is accepted whatever shuffled order was shown. */
  lemma OriginalOrderAccepted(q: QuizQuestion, mcSelected: Option<string>, text: string)
    requires q.OrderingQuestion?
    ensures IsCorrect(q, mcSelected, text, q.words)
  {
  }

  /** With space-free words, any other arrangement of as many words is
      rejected: the join tells different orders apart. */
  lemma OtherOrderRejected(q: QuizQuestion, mcSelected: Option<string>, text: string, ordered: seq<string>)
    requires q.OrderingQuestion?
    requires forall i :: 0 <= i < |q.words| ==> !HasSpace(q.words[i])
    requires forall i :: 0 <= i < |ordered| ==> !HasSpace(ordered[i])
    requires |ordered| == |q.words| && ordered != q.words
    ensures !IsCorrect(q, mcSelected, text, ordered)
  {
    if Join(ordered) == Join(q.words) {
      JoinInjective(ordered, q.words);
    }
  }

  // ---------------------------------------------------------------------------
  // Session state

  datatype Feedback = Idle | Correct | Incorrect

  /** The quiz page's state: current question, running score, recorded
      results, whether the current question was submitted, the feedback shown,
      and the answer in progress for each input kind. */
  datatype Runner = Runner(
    idx: nat,
    score: int,
    results: seq<QuestionResult>,
    submitted: bool,
    feedback: Feedback,
    mcSelected: Option<string>,
    text: string,
    ordered: seq<string>)

  /** The per-question reset that runs whenever the question index changes
      (including on the first render, for question 0). */
  function EnterQuestion(s: Runner, idx: nat): (r: Runner)
    ensures r.idx == idx && !r.submitted && r.feedback == Idle
    ensures r.mcSelected == None && r.text == "" && r.ordered == []
    ensures r.score == s.score && r.results == s.results
  {
    Runner(idx, s.score, s.results, false, Idle, None, "", [])
  }

  /** The state a new session starts in. */
  function Start(): Runner {
    EnterQuestion(Runner(0, 0, [], false, Idle, None, "", []), 0)
  }

  /** Choosing an option; the options are disabled once submitted. */
  function SelectOption(s: Runner, id: string): (r: Runner)
    ensures s.submitted ==> r == s
    ensures !s.submitted ==> r == s.(mcSelected := Some(id))
  {
    if s.submitted then s else s.(mcSelected := Some(id))
  }

  /** Editing the text answer; the field is disabled once submitted.
      `EditOrder` below is the same guarded update for the ordering buffer:
      the page keeps the two answers in separate state, reset separately. */
  function EditText(s: Runner, text: string): (r: Runner)
    ensures s.submitted ==> r == s
    ensures !s.submitted ==> r == s.(text := text)
  {
    if s.submitted then s else s.(text := text)
  }

  /** Replacing the ordering buffer; the builder is disabled once submitted. */
  function EditOrder(s: Runner, ordered: seq<string>): (r: Runner)
    ensures s.submitted ==> r == s
    ensures !s.submitted ==> r == s.(ordered := ordered)
  {
    if s.submitted then s else s.(ordered := ordered)
  }

  /** The result recorded for question `q`: the verdict, the typed text (or the
      joined sentence for ordering questions), and the chosen option for
      multiple-choice questions. */
  function ResultFor(q: QuizQuestion, s: Runner): (res: QuestionResult)
    ensures res.questionId == q.id
    ensures res.correct == IsCorrect(q, s.mcSelected, s.text, s.ordered)
    ensures res.selectedOptionId.Some? ==> q.McQuestion?
    ensures q.McQuestion? ==> res.selectedOptionId == s.mcSelected
    ensures q.OrderingQuestion? ==> res.userAnswer == Some(Join(s.ordered))
    ensures !q.OrderingQuestion? ==> res.userAnswer == Some(s.text)
  {
    QuestionResult(
      q.id,
      IsCorrect(q, s.mcSelected, s.text, s.ordered),
      Some(if q.OrderingQuestion? then Join(s.ordered) else s.text),
      if q.McQuestion? then s.mcSelected else None)
  }

  /** `handleSubmit`: once per question. A second call, or a call with no
      current question, changes nothing; otherwise the question is marked
      submitted, exactly one result is appended, and the score goes up by one
      exactly when the answer is right. */
  function Submit(quiz: Quiz, s: Runner): (r: Runner)
    ensures s.idx >= |quiz.questions| || s.submitted ==> r == s
    ensures s.idx < |quiz.questions| && !s.submitted ==>
              var res := ResultFor(quiz.questions[s.idx], s);
              && r.submitted && r.idx == s.idx
              && r.results == s.results + [res]
              && r.score == s.score + (if res.correct then 1 else 0)
              && r.feedback == (if res.correct then Correct else Incorrect)
              && r.mcSelected == s.mcSelected && r.text == s.text && r.ordered == s.ordered
  {
    if s.idx >= |quiz.questions| || s.submitted then s
    else
      var res := ResultFor(quiz.questions[s.idx], s);
      s.(submitted := true,
         feedback := if res.correct then Correct else Incorrect,
         results := s.results + [res],
         score := if res.correct then s.score + 1 else s.score)
  }

  /** A submitted wrong answer: the result is appended, the score stays and
      the feedback shows the mistake. */
  lemma SubmitWrong(quiz: Quiz, s: Runner, res: QuestionResult)
    requires s.idx < |quiz.questions| && !s.submitted
    requires ResultFor(quiz.questions[s.idx], s) == res && !res.correct
    ensures Submit(quiz, s) == s.(submitted := true, feedback := Incorrect, results := s.results + [res])
  {
  }

  /** `onExpire`: the countdown reaching zero submits the answer in progress,
      unless the question was already submitted. */
  function Expire(quiz: Quiz, s: Runner): (r: Runner)
    ensures s.submitted ==> r == s
  {
    if s.submitted then s else Submit(quiz, s)
  }

  /** Expiry and a manual submit with the same input produce the same state. */
  lemma ExpireIsSubmit(quiz: Quiz, s: Runner)
    ensures Expire(quiz, s) == Submit(quiz, s)
  {
  }

  /** Submitting is idempotent: a second submission changes nothing. */
  lemma SubmitIdempotent(quiz: Quiz, s: Runner)
    ensures Submit(quiz, Submit(quiz, s)) == Submit(quiz, s)
  {
  }

  /** A question left unanswered until the countdown ends is recorded as
      wrong: always for multiple choice, and for the other kinds whenever the
      reference answer is not itself blank. */
  lemma UnansweredExpiryIsWrong(quiz: Quiz, s: Runner)
    requires s.idx < |quiz.questions| && !s.submitted
    requires s.mcSelected == None && s.text == "" && s.ordered == []
    requires var q := quiz.questions[s.idx];
             && ((q.FillInQuestion? || q.ListeningQuestion?) ==> Normalize(q.answer) != "")
             && (q.OrderingQuestion? ==> Join(q.words) != "")
    ensures var r := Expire(quiz, s);
            r.submitted && !r.results[|r.results| - 1].correct && r.score == s.score
  {
    assert Trim("") == "";
  }

  /** What the final `next` hands to the attempt store: the identifier, the
      finishing instant and the rounded duration, all read from clocks. */
  datatype Clock = Clock(attemptId: string, timestamp: int, durationSec: Option<int>)

  datatype Step = Advance(state: Runner) | Finish(attempt: QuizAttempt)

  /** `next`: before the last question, moves on and resets the per-question
      state; at the last question, builds the one attempt of the session from
      the running score and results. */
  function Next(quiz: Quiz, s: Runner, clock: Clock): (step: Step)
    ensures s.idx + 1 < |quiz.questions| ==>
              step.Advance? && step.state.idx == s.idx + 1 && step.state.idx < |quiz.questions|
              && !step.state.submitted && step.state.feedback == Idle
              && step.state.mcSelected == None && step.state.text == "" && step.state.ordered == []
              && step.state.score == s.score && step.state.results == s.results
    ensures s.idx + 1 >= |quiz.questions| ==>
              step.Finish? && step.attempt.quizId == quiz.id
              && step.attempt.score == s.score && step.attempt.results == s.results
              && step.attempt.id == clock.attemptId && step.attempt.timestamp == clock.timestamp
              && step.attempt.durationSec == clock.durationSec
  {
    if s.idx < |quiz.questions| - 1 then Advance(EnterQuestion(s, s.idx + 1))
    else Finish(QuizAttempt(clock.attemptId, quiz.id, clock.timestamp, clock.durationSec, s.score, s.results))
  }

  // ---------------------------------------------------------------------------
  // The session invariant

  /** The state of a session in progress on question `idx`: the score counts
      the correct results, there is one result per question answered so far,
      in question order, and the feedback shows the latest verdict. */
  ghost predicate Valid(quiz: Quiz, s: Runner) {
    && s.idx < |quiz.questions|
    && s.score == CorrectCount(s.results)
    && |s.results| == s.idx + (if s.submitted then 1 else 0)
    && (forall k :: 0 <= k < |s.results| ==> s.results[k].questionId == quiz.questions[k].id)
    && (!s.submitted ==> s.feedback == Idle)
    && (s.submitted ==> s.feedback == (if s.results[|s.results| - 1].correct then Correct else Incorrect))
  }

  /** The attempt a completed session produces: one result per question in
      question order, and a score equal to the number of correct results. */
  ghost predicate CompleteAttempt(quiz: Quiz, a: QuizAttempt) {
    && a.quizId == quiz.id
    && a.score == CorrectCount(a.results)
    && |a.results| == |quiz.questions|
    && (forall k :: 0 <= k < |a.results| ==> a.results[k].questionId == quiz.questions[k].id)
  }

  /** What the learner and the countdown can do on the quiz page. The Next
      button is shown only after the current question was submitted; a
      Submit press only counts where the page offers one (`SubmitOffered`). */
  datatype Event =
    | ChooseOption(optionId: string)
    | TypeText(text: string)
    | BuildOrder(ordered: seq<string>)
    | PressSubmit
    | TimerExpired
    | PressNext(clock: Clock)

  datatype Session = Running(state: Runner) | Completed(attempt: QuizAttempt)

  /** Whether the page shows an enabled Submit control for the current
      question: fill-in and listening questions have a button and the Enter
      key, an ordering question's button is enabled once the answer has as
      many words as the question, and a multiple-choice question has none (only
      the countdown submits it). Once submitted, every control is disabled,
      which `Submit` itself already ignores. */
  predicate SubmitOffered(quiz: Quiz, s: Runner) {
    && s.idx < |quiz.questions|
    && match quiz.questions[s.idx]
       case McQuestion(_, _, _, _, _) => false
       case OrderingQuestion(_, _, _, words) => |s.ordered| == |words|
       case _ => true
  }

  /** One event; a completed session ignores further events (the page has
      navigated away). */
  function Apply(quiz: Quiz, session: Session, e: Event): Session {
    match session
    case Completed(_) => session
    case Running(s) =>
      match e
      case ChooseOption(id) => Running(SelectOption(s, id))
      case TypeText(t) => Running(EditText(s, t))
      case BuildOrder(ws) => Running(EditOrder(s, ws))
      case PressSubmit => if SubmitOffered(quiz, s) then Running(Submit(quiz, s)) else session
      case TimerExpired => Running(Expire(quiz, s))
      case PressNext(clock) =>
        if !s.submitted then session
        else
          match Next(quiz, s, clock)
          case Advance(t) => Running(t)
          case Finish(a) => Completed(a)
  }

  /** A sequence of events, in order. */
  function Run(quiz: Quiz, session: Session, events: seq<Event>): Session
    decreases |events|
  {
    if |events| == 0 then session else Run(quiz, Apply(quiz, session, events[0]), events[1..])
  }

  /** How one event moves a session: a completed session stays as it is; a
      session completes only when Next is pressed on the submitted last
      question, handing over the recorded results; while it runs, the question
      index moves only forward by one, and recorded results are only ever
      added to. A Submit press the page does not offer changes nothing. */
  lemma ApplyMovesForward(quiz: Quiz, session: Session, e: Event)
    ensures var r := Apply(quiz, session, e);
            && (session.Completed? ==> r == session)
            && (session.Running? && r.Completed? ==>
                  e.PressNext? && session.state.submitted && session.state.idx + 1 >= |quiz.questions|
                  && r.attempt.results == session.state.results && r.attempt.quizId == quiz.id)
            && (session.Running? && r.Running? ==>
                  && session.state.results <= r.state.results
                  && (r.state.idx == session.state.idx
                      || (e.PressNext? && session.state.submitted && r.state.idx == session.state.idx + 1)))
            && (session.Running? && e.PressSubmit? && !SubmitOffered(quiz, session.state) ==> r == session)
  {
  }

  /** A completed session stays as it is under any events; a session still
      running afterwards was running all along, on the same or a later
      question, with the earlier results kept as a prefix. */
  lemma {:induction false} RunMovesForward(quiz: Quiz, session: Session, events: seq<Event>)
    ensures var r := Run(quiz, session, events);
            && (session.Completed? ==> r == session)
            && (r.Running? ==>
                  && session.Running?
                  && session.state.idx <= r.state.idx
                  && session.state.results <= r.state.results)
    decreases |events|
  {
    if |events| > 0 {
      ApplyMovesForward(quiz, session, events[0]);
      RunMovesForward(quiz, Apply(quiz, session, events[0]), events[1..]);
    }
  }

  ghost predicate SessionOk(quiz: Quiz, session: Session) {
    match session
    case Running(s) => Valid(quiz, s)
    case Completed(a) => CompleteAttempt(quiz, a)
  }

  lemma StartValid(quiz: Quiz)
    requires |quiz.questions| > 0
    ensures Valid(quiz, Start())
  {
  }

  lemma SubmitKeepsValid(quiz: Quiz, s: Runner)
    requires Valid(quiz, s)
    ensures Valid(quiz, Submit(quiz, s))
  {
    if !s.submitted {
      var res := ResultFor(quiz.questions[s.idx], s);
      CountOneMore(s.results, res);
      IdsOneMore(quiz, s.results, res);
      var r := Submit(quiz, s);
      assert r.results == s.results + [res] && r.results[|r.results| - 1] == res;
      assert r.submitted && r.idx == s.idx;
    }
  }

  /** One more result adds one to the correct count exactly when it is right. */
  lemma CountOneMore(rs: seq<QuestionResult>, res: QuestionResult)
    ensures CorrectCount(rs + [res]) == CorrectCount(rs) + (if res.correct then 1 else 0)
  {
    CorrectCountAppend(rs, [res]);
    assert CorrectCount([res]) == if res.correct then 1 else 0;
  }

  /** A result for the next question keeps results and questions aligned. */
  lemma IdsOneMore(quiz: Quiz, rs: seq<QuestionResult>, res: QuestionResult)
    requires |rs| < |quiz.questions|
    requires forall k :: 0 <= k < |rs| ==> rs[k].questionId == quiz.questions[k].id
    requires res.questionId == quiz.questions[|rs|].id
    ensures forall k :: 0 <= k < |rs + [res]| ==> (rs + [res])[k].questionId == quiz.questions[k].id
  {
    forall k | 0 <= k < |rs + [res]|
      ensures (rs + [res])[k].questionId == quiz.questions[k].id
    {
      if k < |rs| {
        assert (rs + [res])[k] == rs[k];
      }
    }
  }

  /** Every event keeps the session invariant; a session completes only from
      the last question, after it was submitted, with a complete attempt. */
  lemma ApplyKeepsOk(quiz: Quiz, session: Session, e: Event)
    requires SessionOk(quiz, session)
    ensures SessionOk(quiz, Apply(quiz, session, e))
  {
    if session.Running? {
      var s := session.state;
      match e
      case ChooseOption(id) =>
        InputKeepsValid(quiz, s, SelectOption(s, id));
        assert Apply(quiz, session, e) == Running(SelectOption(s, id));
      case TypeText(t) =>
        InputKeepsValid(quiz, s, EditText(s, t));
        assert Apply(quiz, session, e) == Running(EditText(s, t));
      case BuildOrder(ws) =>
        InputKeepsValid(quiz, s, EditOrder(s, ws));
        assert Apply(quiz, session, e) == Running(EditOrder(s, ws));
      case PressSubmit =>
        if SubmitOffered(quiz, s) {
          SubmitKeepsValid(quiz, s);
          assert Apply(quiz, session, e) == Running(Submit(quiz, s));
        } else {
          assert Apply(quiz, session, e) == session;
        }
      case TimerExpired =>
        SubmitKeepsValid(quiz, s);
        assert Apply(quiz, session, e) == Running(Expire(quiz, s));
      case PressNext(clock) =>
        NextKeepsOk(quiz, s, clock);
    }
  }

  /** Changing only the answer in progress keeps a session valid. */
  lemma InputKeepsValid(quiz: Quiz, s: Runner, r: Runner)
    requires Valid(quiz, s)
    requires r.idx == s.idx && r.score == s.score && r.results == s.results
    requires r.submitted == s.submitted && r.feedback == s.feedback
    ensures Valid(quiz, r)
  {
  }

  /** Next on a valid session either stays, moves to a valid next question,
      or completes with a complete attempt. */
  lemma NextKeepsOk(quiz: Quiz, s: Runner, clock: Clock)
    requires Valid(quiz, s)
    ensures SessionOk(quiz, Apply(quiz, Running(s), PressNext(clock)))
  {
    if s.submitted {
      match Next(quiz, s, clock)
      case Advance(t) =>
        assert Apply(quiz, Running(s), PressNext(clock)) == Running(t);
        assert t.idx == s.idx + 1 && t.results == s.results && !t.submitted;
      case Finish(a) =>
        assert Apply(quiz, Running(s), PressNext(clock)) == Completed(a);
        assert a.results == s.results && a.score == s.score;
    }
  }

  /** Any sequence of events from a fresh session on a non-empty quiz keeps
      the session invariant; in particular the one attempt a completed session
      hands to the store has a result for every question and a score equal to
      its number of correct results. */
  lemma {:induction false} RunKeepsOk(quiz: Quiz, session: Session, events: seq<Event>)
    requires SessionOk(quiz, session)
    ensures SessionOk(quiz, Run(quiz, session, events))
    decreases |events|
  {
    if |events| > 0 {
      ApplyKeepsOk(quiz, session, events[0]);
      RunKeepsOk(quiz, Apply(quiz, session, events[0]), events[1..]);
    }
  }

  lemma SessionFromStart(quiz: Quiz, events: seq<Event>)
    requires |quiz.questions| > 0
    ensures SessionOk(quiz, Run(quiz, Running(Start()), events))
  {
    StartValid(quiz);
    RunKeepsOk(quiz, Running(Start()), events);
  }

  /** A quiz without questions shows no question: nothing can be submitted,
      no result is recorded and the session never completes. */
  lemma {:induction false} EmptyQuizNeverCompletes(quiz: Quiz, s: Runner, events: seq<Event>)
    requires |quiz.questions| == 0
    requires s.idx == 0 && !s.submitted && s.results == []
    ensures var r := Run(quiz, Running(s), events);
            r.Running? && !r.state.submitted && r.state.results == [] && r.state.score == s.score
    decreases |events|
  {
    if |events| > 0 {
      var next := Apply(quiz, Running(s), events[0]);
      assert next.Running? && next.state.idx == 0 && !next.state.submitted && next.state.results == [];
      EmptyQuizNeverCompletes(quiz, next.state, events[1..]);
    }
  }
}
