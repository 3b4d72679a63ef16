/** The question countdown's clock. The timer remembers the timestamp of the
    first animation frame it sees and fires once 20 seconds have passed since
    then. It forgets that timestamp only when its `seconds` property changes,
    and the quiz page always passes the same 20 and never remounts the timer,
    so the clock started on the quiz's first frame serves every question.
    `NewQuestion` is that behaviour; `NewQuestionRestarted` is the evidently
    intended one, which starts a fresh countdown for each question.
    Timestamps are integer milliseconds. */
module Countdown {
  import opened Types
  import QuizRunner

  /** `startedRef`: the timestamp of the first frame, once one was seen. */
  datatype Clock = Clock(started: Option<int>)

  datatype Tick = Tick(clock: Clock, expired: bool)

  /** Whether the clock has a start; a start of 0 is falsy and treated as none. */
  predicate Started(c: Clock) {
    c.started.Some? && c.started.value != 0
  }

  /** One animation frame at time `ts`: the start is taken from this frame when
      none is set, and the timer fires when the elapsed time has reached
      `seconds`. */
  function Frame(c: Clock, ts: int, seconds: nat): (t: Tick)
    ensures Started(c) ==> t.clock == c
    ensures !Started(c) ==> t.clock == Clock(Some(ts)) && (t.expired <==> seconds == 0)
    ensures Started(c) ==> (t.expired <==> ts - c.started.value >= seconds * 1000)
  {
    var start := if Started(c) then c.started.value else ts;
    Tick(Clock(Some(start)), ts - start >= seconds * 1000)
  }

  /** Moving to another question, as the page does it: `seconds` stays 20, so
      the reset effect does not run and the clock is kept. */
  function NewQuestion(c: Clock): (r: Clock)
    ensures Started(c) ==> Started(r) && r.started == c.started
  {
    c
  }

  /** Moving to another question with a restarted countdown. */
  function NewQuestionRestarted(c: Clock): (r: Clock)
    ensures !Started(r)
  {
    Clock(None)
  }

  /** As written: once 20 seconds have passed since the quiz's first frame,
      the first frame of any later question already fires, so that question
      is submitted with whatever answer is in progress (usually none). */
  lemma LaterQuestionExpiresAtOnce(first: int, ts: int)
    requires first > 0
    requires ts >= first + QuizRunner.SecondsPerQuestion * 1000
    ensures var c := Frame(Clock(None), first, QuizRunner.SecondsPerQuestion).clock;
            Frame(NewQuestion(c), ts, QuizRunner.SecondsPerQuestion).expired
  {
  }

  /** Restarted: the first frame of a question never fires, and a later frame
      fires exactly when 20 seconds have passed since that first frame,
      whatever the clock held before. */
  lemma RestartedCountdownIsPerQuestion(c: Clock, first: int, ts: int)
    requires first > 0
    ensures !Frame(NewQuestionRestarted(c), first, QuizRunner.SecondsPerQuestion).expired
    ensures var c1 := Frame(NewQuestionRestarted(c), first, QuizRunner.SecondsPerQuestion).clock;
            Frame(c1, ts, QuizRunner.SecondsPerQuestion).expired <==> ts - first >= QuizRunner.SecondsPerQuestion * 1000
  {
  }
}
