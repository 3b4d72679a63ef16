/** The sentence builder of ordering questions. The learner taps word buttons
    to append words to the answer, can remove the last word or start over, and
    can submit once the answer has as many words as the question. A word that
    is already in the answer cannot be tapped again; words are told apart by
    their text alone. */
module Ordering {
  import opened Types
  import opened Text
  import opened Lists
  import QuizRunner

  /** The distinct entries of a sequence. */
  function Elems(xs: seq<string>): set<string> {
    set x | x in xs
  }

  /** `onTokenClick(w)`: appends `w` unless the builder is disabled or `w` is
      already in the answer. */
  function TokenClick(value: seq<string>, disabled: bool, w: string): (r: seq<string>)
    ensures disabled || w in value ==> r == value
    ensures !disabled && w !in value ==> r == value + [w]
  {
    if disabled then value
    else if w in value then value
    else value + [w]
  }

  /** `removeLast`: `value.slice(0, -1)`, which leaves an empty answer empty. */
  function RemoveLast(value: seq<string>, disabled: bool): (r: seq<string>)
    ensures disabled ==> r == value
    ensures !disabled && |value| > 0 ==> r + [value[|value| - 1]] == value
    ensures !disabled && |value| == 0 ==> r == []
  {
    if disabled then value
    else if |value| == 0 then []
    else value[..|value| - 1]
  }

  /** `reset`: starts over with an empty answer. */
  function Reset(value: seq<string>, disabled: bool): (r: seq<string>)
    ensures disabled ==> r == value
    ensures !disabled ==> r == []
  {
    if disabled then value else []
  }

  /** Whether the Submit button is enabled. */
  predicate SubmitEnabled(words: seq<string>, value: seq<string>, disabled: bool) {
    !disabled && |value| == |words|
  }

  /** The quiz page counts a Submit press on an ordering question exactly
      when this button is enabled: the buttons show a shuffle of the
      question's words, as many as the question has. */
  lemma SubmitOfferedIsButton(quiz: Quiz, s: QuizRunner.Runner, shown: seq<string>)
    requires s.idx < |quiz.questions| && quiz.questions[s.idx].OrderingQuestion?
    requires |shown| == |quiz.questions[s.idx].words|
    ensures !s.submitted ==> (QuizRunner.SubmitOffered(quiz, s) <==> SubmitEnabled(shown, s.ordered, s.submitted))
  {
  }

  /** The builder's events. A tap names the position of the button pressed;
      there is one button per entry of `words`. */
  datatype Event = Tap(position: nat) | Backspace | StartOver

  function Apply(words: seq<string>, value: seq<string>, disabled: bool, e: Event): seq<string> {
    match e
    case Tap(i) => if i < |words| then TokenClick(value, disabled, words[i]) else value
    case Backspace => RemoveLast(value, disabled)
    case StartOver => Reset(value, disabled)
  }

  function Run(words: seq<string>, value: seq<string>, disabled: bool, events: seq<Event>): seq<string>
    decreases |events|
  {
    if |events| == 0 then value else Run(words, Apply(words, value, disabled, events[0]), disabled, events[1..])
  }

  /** The answer holds no word twice and only words of the question. */
  ghost predicate Sound(words: seq<string>, value: seq<string>) {
    NoDups(value) && forall k :: 0 <= k < |value| ==> value[k] in words
  }

  lemma ApplyKeepsSound(words: seq<string>, value: seq<string>, disabled: bool, e: Event)
    requires Sound(words, value)
    ensures Sound(words, Apply(words, value, disabled, e))
  {
    match e
    case Tap(i) =>
      if i < |words| && !disabled && words[i] !in value {
        AppendFresh(value, words[i]);
      }
    case Backspace =>
      if !disabled && |value| > 0 {
        var r := value[..|value| - 1];
        assert forall k :: 0 <= k < |r| ==> r[k] == value[k];
      }
    case StartOver =>
  }

  /** Whatever the learner does, starting from an empty answer, the answer
      never holds a word twice and holds only words of the question. */
  lemma {:induction false} RunKeepsSound(words: seq<string>, value: seq<string>, disabled: bool, events: seq<Event>)
    requires Sound(words, value)
    ensures Sound(words, Run(words, value, disabled, events))
    decreases |events|
  {
    if |events| > 0 {
      ApplyKeepsSound(words, value, disabled, events[0]);
      RunKeepsSound(words, Apply(words, value, disabled, events[0]), disabled, events[1..]);
    }
  }

  // ---------------------------------------------------------------------------
  // Counting: an answer is no longer than the number of distinct words

  lemma {:induction false} ElemsSize(xs: seq<string>)
    ensures |Elems(xs)| <= |xs|
    ensures NoDups(xs) ==> |Elems(xs)| == |xs|
    decreases |xs|
  {
    if |xs| > 0 {
      var init := xs[..|xs| - 1];
      var last := xs[|xs| - 1];
      ElemsSize(init);
      assert xs == init + [last];
      assert Elems(xs) == Elems(init) + {last};
      if NoDups(xs) {
        assert NoDups(init);
        assert last !in Elems(init) by {
          forall k | 0 <= k < |init| ensures init[k] != last {
            assert init[k] == xs[k];
          }
        }
      }
    }
  }

  /** A sequence with a repeated entry has fewer distinct entries than entries. */
  lemma RepeatShrinksElems(xs: seq<string>, i: nat, j: nat)
    requires i < j < |xs| && xs[i] == xs[j]
    ensures |Elems(xs)| < |xs|
  {
    var rest := xs[..j] + xs[j + 1..];
    assert Elems(xs) == Elems(rest) by {
      assert xs == xs[..j] + [xs[j]] + xs[j + 1..];
      assert rest[i] == xs[j];
    }
    ElemsSize(rest);
  }

  /** The answer is no longer than the number of distinct words offered. */
  lemma SoundIsBounded(words: seq<string>, value: seq<string>)
    requires Sound(words, value)
    ensures |value| <= |Elems(words)|
  {
    ElemsSize(value);
    assert Elems(value) <= Elems(words);
    SubsetCard(Elems(value), Elems(words));
  }

  lemma {:induction false} SubsetCard(a: set<string>, b: set<string>)
    requires a <= b
    ensures |a| <= |b|
    decreases |a|
  {
    if a != {} {
      var x :| x in a;
      SubsetCard(a - {x}, b - {x});
    }
  }

  // ---------------------------------------------------------------------------
  // Finding: a repeated word makes the question unanswerable

  /** With a word offered twice, the answer never reaches the question's
      length, so Submit is never enabled. */
  lemma RepeatedWordBlocksSubmit(words: seq<string>, disabled: bool, events: seq<Event>, i: nat, j: nat)
    requires i < j < |words| && words[i] == words[j]
    ensures !SubmitEnabled(words, Run(words, [], disabled, events), disabled)
  {
    RunKeepsSound(words, [], disabled, events);
    SoundIsBounded(words, Run(words, [], disabled, events));
    RepeatShrinksElems(words, i, j);
  }

  /** The question "the cat saw the dog" offers "the" twice: no sequence of
      taps builds an answer that can be submitted, and the answer the
      countdown eventually submits is always judged wrong. */
  lemma RepeatedWordNeverAccepted(q: QuizQuestion, shown: seq<string>, events: seq<Event>, i: nat, j: nat)
    requires q.OrderingQuestion?
    requires forall k :: 0 <= k < |q.words| ==> !HasSpace(q.words[k])
    requires multiset(shown) == multiset(q.words)
    requires i < j < |q.words| && q.words[i] == q.words[j]
    ensures var value := Run(shown, [], false, events);
            && !SubmitEnabled(shown, value, false)
            && !QuizRunner.IsCorrect(q, None, "", value)
  {
    var value := Run(shown, [], false, events);
    RunKeepsSound(shown, [], false, events);
    SoundIsBounded(shown, value);
    assert Elems(shown) == Elems(q.words) by {
      assert forall x :: x in shown <==> x in multiset(shown);
      assert forall x :: x in q.words <==> x in multiset(q.words);
    }
    RepeatShrinksElems(q.words, i, j);
    ElemsSize(q.words);
    assert |shown| == |q.words| by {
      assert |multiset(shown)| == |multiset(q.words)|;
    }
    assert forall k :: 0 <= k < |value| ==> !HasSpace(value[k]) by {
      forall k | 0 <= k < |value| ensures !HasSpace(value[k]) {
        assert value[k] in Elems(q.words);
      }
    }
    JoinOfFewerWordsDiffers(value, q.words);
  }

  /** The sentence of the finding, in the model's terms. */
  lemma TheCatSawTheDog(shown: seq<string>, events: seq<Event>)
    requires multiset(shown) == multiset(["the", "cat", "saw", "the", "dog"])
    ensures !SubmitEnabled(shown, Run(shown, [], false, events), false)
  {
    var q := OrderingQuestion("q1", "Build the sentence", None, ["the", "cat", "saw", "the", "dog"]);
    assert q.words[0] == q.words[3];
    forall k | 0 <= k < |q.words| ensures !HasSpace(q.words[k]) {
      assert q.words[k] in {"the", "cat", "saw", "dog"};
    }
    RepeatedWordNeverAccepted(q, shown, events, 0, 3);
  }

  // ---------------------------------------------------------------------------
  // Corrected builder: the answer records the positions tapped

  /** A tap at position `i` is refused only when that same button was already
      used, so repeated words can each be placed once. */
  function TapAt(shown: seq<string>, picks: seq<nat>, disabled: bool, i: nat): (r: seq<nat>)
    ensures disabled || i >= |shown| || i in picks ==> r == picks
    ensures !disabled && i < |shown| && i !in picks ==> r == picks + [i]
  {
    if disabled || i >= |shown| || i in picks then picks else picks + [i]
  }

  /** Backspace and start-over act on the positions as before on the words. */
  function ApplyAt(shown: seq<string>, picks: seq<nat>, disabled: bool, e: Event): seq<nat> {
    match e
    case Tap(i) => TapAt(shown, picks, disabled, i)
    case Backspace => if disabled || |picks| == 0 then picks else picks[..|picks| - 1]
    case StartOver => if disabled then picks else []
  }

  function RunAt(shown: seq<string>, picks: seq<nat>, disabled: bool, events: seq<Event>): seq<nat>
    decreases |events|
  {
    if |events| == 0 then picks else RunAt(shown, ApplyAt(shown, picks, disabled, events[0]), disabled, events[1..])
  }

  /** Tapped positions are distinct and name buttons that exist. */
  ghost predicate SoundAt(shown: seq<string>, picks: seq<nat>) {
    NoDups(picks) && forall k :: 0 <= k < |picks| ==> picks[k] < |shown|
  }

  /** The answer the corrected builder hands to the quiz: the words at the
      tapped positions, in tapping order. */
  function ValueAt(shown: seq<string>, picks: seq<nat>): (value: seq<string>)
    requires forall k :: 0 <= k < |picks| ==> picks[k] < |shown|
    ensures |value| == |picks|
    ensures forall k :: 0 <= k < |picks| ==> value[k] == shown[picks[k]]
  {
    seq(|picks|, k requires 0 <= k < |picks| => shown[picks[k]])
  }

  lemma ApplyAtKeepsSound(shown: seq<string>, picks: seq<nat>, disabled: bool, e: Event)
    requires SoundAt(shown, picks)
    ensures SoundAt(shown, ApplyAt(shown, picks, disabled, e))
  {
    match e
    case Tap(i) =>
      if !disabled && i < |shown| && i !in picks {
        AppendFresh(picks, i);
      }
    case Backspace =>
      if !disabled && |picks| > 0 {
        var r := picks[..|picks| - 1];
        assert forall k :: 0 <= k < |r| ==> r[k] == picks[k];
      }
    case StartOver =>
  }

  lemma {:induction false} RunAtKeepsSound(shown: seq<string>, picks: seq<nat>, disabled: bool, events: seq<Event>)
    requires SoundAt(shown, picks)
    ensures SoundAt(shown, RunAt(shown, picks, disabled, events))
    decreases |events|
  {
    if |events| > 0 {
      ApplyAtKeepsSound(shown, picks, disabled, events[0]);
      RunAtKeepsSound(shown, ApplyAt(shown, picks, disabled, events[0]), disabled, events[1..]);
    }
  }

  function Taps(order: seq<nat>): (events: seq<Event>)
    ensures |events| == |order|
    ensures forall k :: 0 <= k < |order| ==> events[k] == Tap(order[k])
  {
    seq(|order|, k requires 0 <= k < |order| => Tap(order[k]))
  }

  /** Tapping distinct existing positions records exactly those positions. */
  lemma {:induction false} TapsRecordOrder(shown: seq<string>, picks: seq<nat>, order: seq<nat>)
    requires NoDups(picks + order)
    requires forall k :: 0 <= k < |order| ==> order[k] < |shown|
    ensures RunAt(shown, picks, false, Taps(order)) == picks + order
    decreases |order|
  {
    if |order| > 0 {
      var i := order[0];
      assert (picks + order)[|picks|] == i;
      assert i !in picks by {
        forall k | 0 <= k < |picks| ensures picks[k] != i {
          assert (picks + order)[k] == picks[k];
        }
      }
      assert Taps(order)[1..] == Taps(order[1..]);
      assert picks + order == (picks + [i]) + order[1..];
      TapsRecordOrder(shown, picks + [i], order[1..]);
    }
  }

  /** With the corrected builder every question is answerable: tapping the
      buttons that show the question's words in sentence order enables Submit
      and builds the right answer, repeated words included. */
  lemma CorrectedBuilderAnswers(q: QuizQuestion, shown: seq<string>, order: seq<nat>)
    requires q.OrderingQuestion?
    requires |order| == |shown| == |q.words|
    requires NoDups(order)
    requires forall k :: 0 <= k < |order| ==> order[k] < |shown| && shown[order[k]] == q.words[k]
    ensures RunAt(shown, [], false, Taps(order)) == order
    ensures ValueAt(shown, order) == q.words
    ensures QuizRunner.IsCorrect(q, None, "", ValueAt(shown, order))
  {
    assert [] + order == order;
    TapsRecordOrder(shown, [], order);
    ValueSpellsWords(q.words, shown, order);
    QuizRunner.OriginalOrderAccepted(q, None, "");
  }

  /** Positions that show the words in order spell the words. */
  lemma ValueSpellsWords(words: seq<string>, shown: seq<string>, order: seq<nat>)
    requires |order| == |words|
    requires forall k :: 0 <= k < |order| ==> order[k] < |shown| && shown[order[k]] == words[k]
    ensures ValueAt(shown, order) == words
  {
  }

  /** The finding's sentence is answerable with the corrected builder. */
  lemma TheCatSawTheDogCorrected()
    ensures var q := OrderingQuestion("q1", "Build the sentence", None, ["the", "cat", "saw", "the", "dog"]);
            var shown := ["dog", "the", "saw", "the", "cat"];
            var order: seq<nat> := [1, 4, 2, 3, 0];
            && RunAt(shown, [], false, Taps(order)) == order
            && |order| == |shown|
            && QuizRunner.IsCorrect(q, None, "", ValueAt(shown, order))
  {
    var q := OrderingQuestion("q1", "Build the sentence", None, ["the", "cat", "saw", "the", "dog"]);
    var shown := ["dog", "the", "saw", "the", "cat"];
    var order: seq<nat> := [1, 4, 2, 3, 0];
    assert NoDups(order);
    CorrectedBuilderAnswers(q, shown, order);
  }
}
