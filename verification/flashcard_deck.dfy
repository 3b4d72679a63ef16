/** The flashcard deck's position: an index into the current items, restored
    from the last session, moved by the Prev/Next buttons and by swipes, and
    pulled back when the item list shrinks. */
module FlashcardDeck {

  /** `Math.max(0, items.length - 1)`: the last index, or 0 for an empty deck. */
  function MaxIndex(len: nat): (m: nat)
    ensures len == 0 ==> m == 0
    ensures len > 0 ==> m + 1 == len
  {
    if len == 0 then 0 else len - 1
  }

  /** `Math.min(stored, maxIndex)`: the remembered position, capped. */
  function InitialIndex(stored: int, len: nat): (i: int)
    ensures i <= MaxIndex(len)
    ensures stored <= MaxIndex(len) ==> i == stored
    ensures stored >= MaxIndex(len) ==> i == MaxIndex(len)
    ensures stored >= 0 ==> 0 <= i
  {
    if stored < MaxIndex(len) then stored else MaxIndex(len)
  }

  /** `next`: one card on, never past the last. */
  function Next(i: int, len: nat): (r: int)
    ensures r <= MaxIndex(len)
    ensures i < MaxIndex(len) ==> r == i + 1
    ensures i >= MaxIndex(len) ==> r == MaxIndex(len)
  {
    if i + 1 < MaxIndex(len) then i + 1 else MaxIndex(len)
  }

  /** `prev`: one card back, never before the first. */
  function Prev(i: int): (r: int)
    ensures r >= 0
    ensures i > 0 ==> r == i - 1
    ensures i <= 0 ==> r == 0
  {
    if i - 1 > 0 then i - 1 else 0
  }

  datatype Direction = Left | Right

  /** `onSwipe`: a left swipe shows the next card, any other swipe the previous one. */
  function OnSwipe(i: int, len: nat, dir: Direction): int {
    if dir == Left then Next(i, len) else Prev(i)
  }

  /** The effect that runs when `maxIndex` changes: the index is capped again. */
  function Reclamp(i: int, len: nat): (r: int)
    ensures r <= MaxIndex(len)
    ensures i <= MaxIndex(len) ==> r == i
    ensures i >= MaxIndex(len) ==> r == MaxIndex(len)
    ensures i >= 0 ==> r >= 0
  {
    if i < MaxIndex(len) then i else MaxIndex(len)
  }

  datatype Deck = Deck(index: int, len: nat)

  datatype Event = PressNext | PressPrev | Swipe(dir: Direction) | ItemsChanged(newLen: nat)

  function Apply(d: Deck, e: Event): Deck {
    match e
    case PressNext => d.(index := Next(d.index, d.len))
    case PressPrev => d.(index := Prev(d.index))
    case Swipe(dir) => d.(index := OnSwipe(d.index, d.len, dir))
    case ItemsChanged(n) => Deck(Reclamp(d.index, n), n)
  }

  function Run(d: Deck, events: seq<Event>): Deck
    decreases |events|
  {
    if |events| == 0 then d else Run(Apply(d, events[0]), events[1..])
  }

  /** The index names a card of the deck (or 0 when it is empty). */
  predicate InRange(d: Deck) {
    0 <= d.index <= MaxIndex(d.len)
  }

  /** The deck opens in range whenever the remembered index is not negative. */
  lemma OpensInRange(stored: int, len: nat)
    requires stored >= 0
    ensures InRange(Deck(InitialIndex(stored, len), len))
  {
  }

  /** A remembered negative index is kept as it is: the deck then shows no
      card until the learner moves. */
  lemma NegativeStoredIndexKept(stored: int, len: nat)
    requires stored < 0
    ensures InitialIndex(stored, len) == stored
  {
  }

  /** Every event keeps the index in range. */
  lemma {:induction false} RunKeepsInRange(d: Deck, events: seq<Event>)
    requires InRange(d)
    ensures InRange(Run(d, events))
    decreases |events|
  {
    if |events| > 0 {
      RunKeepsInRange(Apply(d, events[0]), events[1..]);
    }
  }

  /** Next and Prev undo each other away from the ends of the deck. */
  lemma NextPrevInverse(i: int, len: nat)
    ensures 0 <= i < MaxIndex(len) ==> Prev(Next(i, len)) == i
    ensures 0 < i <= MaxIndex(len) ==> Next(Prev(i), len) == i
  {
  }

  /** Swipes behave exactly as the buttons. */
  lemma SwipesAreButtons(d: Deck)
    ensures Apply(d, Swipe(Left)) == Apply(d, PressNext)
    ensures Apply(d, Swipe(Right)) == Apply(d, PressPrev)
  {
  }
}
