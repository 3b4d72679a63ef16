/** The browser key-value store the services persist to, after parsing: each
    key holds one of the lists the application writes, or text that does not
    parse. A missing key, or one that does not hold the expected list, reads as
    the empty fallback list. */
module Storage {
  import opened Types

  const AttemptsKey: string := "ll_quiz_attempts"
  const ProgressKey: string := "ll_progress_history"
  const FavoritesKey: string := "ll_favorites"

  datatype Stored =
    | AttemptList(attempts: seq<QuizAttempt>)
    | ProgressList(entries: seq<ProgressEntry>)
    | IdList(ids: seq<string>)
      /** Text that is not valid JSON. */
    | Unparsable

  type Store = map<string, Stored>

  /** What a mutating service call leaves behind: the new store, and the list
      it wrote and returns to its caller. */
  datatype Written<T> = Written(store: Store, list: seq<T>)

  /** `readJSON(key, [])` for the attempt list. */
  function ReadAttempts(store: Store): (xs: seq<QuizAttempt>)
    ensures xs != [] ==> AttemptsKey in store && store[AttemptsKey] == AttemptList(xs)
  {
    if AttemptsKey in store && store[AttemptsKey].AttemptList? then store[AttemptsKey].attempts else []
  }

  /** `readJSON(key, [])` for the progress history. */
  function ReadProgress(store: Store): (xs: seq<ProgressEntry>)
    ensures xs != [] ==> ProgressKey in store && store[ProgressKey] == ProgressList(xs)
  {
    if ProgressKey in store && store[ProgressKey].ProgressList? then store[ProgressKey].entries else []
  }

  /** `readJSON(key, [])` for the favourite ids. */
  function ReadIds(store: Store): (xs: seq<string>)
    ensures xs != [] ==> FavoritesKey in store && store[FavoritesKey] == IdList(xs)
  {
    if FavoritesKey in store && store[FavoritesKey].IdList? then store[FavoritesKey].ids else []
  }

  /** The stores differ at most at `key`, which `after` holds. */
  ghost predicate OnlyKeyChanged(before: Store, after: Store, key: string) {
    && after.Keys == before.Keys + {key}
    && forall k :: k in before && k != key ==> after[k] == before[k]
  }

  /** `writeJSON` of the attempt list. */
  function WriteAttempts(store: Store, xs: seq<QuizAttempt>): (r: Store)
    ensures ReadAttempts(r) == xs
    ensures ReadProgress(r) == ReadProgress(store) && ReadIds(r) == ReadIds(store)
    ensures OnlyKeyChanged(store, r, AttemptsKey)
  {
    store[AttemptsKey := AttemptList(xs)]
  }

  /** `writeJSON` of the progress history. */
  function WriteProgress(store: Store, xs: seq<ProgressEntry>): (r: Store)
    ensures ReadProgress(r) == xs
    ensures ReadAttempts(r) == ReadAttempts(store) && ReadIds(r) == ReadIds(store)
    ensures OnlyKeyChanged(store, r, ProgressKey)
  {
    store[ProgressKey := ProgressList(xs)]
  }

  /** `writeJSON` of the favourite ids. */
  function WriteIds(store: Store, xs: seq<string>): (r: Store)
    ensures ReadIds(r) == xs
    ensures ReadAttempts(r) == ReadAttempts(store) && ReadProgress(r) == ReadProgress(store)
    ensures OnlyKeyChanged(store, r, FavoritesKey)
  {
    store[FavoritesKey := IdList(xs)]
  }

  /** Missing and unparsable keys read as the empty list. */
  lemma FallbackReads(store: Store)
    requires AttemptsKey !in store || store[AttemptsKey] == Unparsable
    requires ProgressKey !in store || store[ProgressKey] == Unparsable
    requires FavoritesKey !in store || store[FavoritesKey] == Unparsable
    ensures ReadAttempts(store) == [] && ReadProgress(store) == [] && ReadIds(store) == []
  {
  }
}
