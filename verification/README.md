# Quiz and vocabulary trainer — a Dafny model of its core

This project models the logic at the heart of a browser-based quiz and
vocabulary trainer. A learner works through a quiz, one question at a time:
multiple choice, fill-in, listening or word ordering. Each question is
answered, submitted (or timed out), and then the learner moves on. The
finished attempt is stored in the browser's local storage. The progress pages
then fold the stored attempts into daily, weekly and monthly activity series,
a current-day streak, an average accuracy, a count of distinct words mastered
and a list of unlocked achievements. The model also covers:

- the storage services for attempts, progress entries and favourite words;
- the word-ordering answer builder;
- the windowing arithmetic of the virtual list;
- the position of the flashcard deck;
- the styling of multiple-choice options;
- the practice page's "latest attempt per quiz" summary.

Everything is written as pure functions over immutable datatypes. The only
method is the Fisher–Yates shuffle.

| file | module | models |
|---|---|---|
| types.dfy | Types | the records of `src/types/mock.ts`: questions, quizzes, results, attempts, progress entries, achievements; correct-answer counts |
| text.dfy | Text | `trim`, `toLowerCase` and `join(' ')` as the answer check uses them |
| calendar.dfy | Calendar | day numbers, weekdays, week starts and month indices of millisecond timestamps |
| activity.dfy | Activity | `computeDailyActivity`, `computeWeeklyActivity`, `computeMonthlyActivity` |
| streak.dfy | Streak | `computeCurrentStreak` |
| analytics.dfy | Analytics | the question-to-word index, words mastered, `sum`, `averageAccuracy`, `evaluateAchievements` |
| quiz_runner.dfy | QuizRunner | the quiz page: `shuffle`, `isCorrect`, `handleSubmit`, `onExpire`, `next`, as a state machine driven by events |
| lists.dfy | Lists | `filter`, `map` with a replacement, and `Array.from(new Set(...))` |
| storage.dfy | Storage | `readJSON` and `writeJSON` over a key–value store |
| quiz_service.dfy | QuizService | the attempt store |
| progress_service.dfy | ProgressService | the progress-history store |
| favorites_service.dfy | FavoritesService | the favourite-word store |
| ordering.dfy | Ordering | the ordering answer builder, as written and corrected |
| virtual_list.dfy | VirtualList | the rows a virtual list renders |
| flashcard_deck.dfy | FlashcardDeck | the deck's index |
| multiple_choice.dfy | MultipleChoice | the option variant and colour |
| practice.dfy | Practice | the `latestByQuiz` reduce |
| countdown.dfy | Countdown | the question timer's clock: when a frame fires the expiry |
| end_to_end.dfy | EndToEnd | one three-question session, from the first tap to the stored attempt and the day's activity bucket |

## Modelling decisions

**Time.**
- A timestamp is an integer count of milliseconds since the Unix epoch.
- A day is `timestamp / 86 400 000`, a UTC day number.
- Day 0, 1 January 1970, was a Thursday, so the weekday of day `d` is
  `(d + 4) % 7`, with 0 for Sunday as in `Date.getDay`.
- A week starts on Monday, as in `startOfWeek`.
- The month index `12 * year + month - 1` is computed from the civil date of
  the day, using Howard Hinnant's days-to-civil algorithm.
- Buckets are keyed by day number, Monday day number or month index rather
  than by their ISO date strings. Two attempts share a string key exactly
  when they share the number.

**Reads, clocks and ids.**
- `Date.now()`, `new Date()`, `performance.now()` and the attempt id are not
  read by the model. They come in as a `Clock` value carried by the event
  that finishes the quiz.
- `Math.random` draws for the shuffle are a parameter of `Shuffle`.

**Time-outs and storage.**
- The timer's expiry is an event, `TimerExpired`, that may arrive at any
  moment while the question is unsubmitted. This covers the page's real
  timing, whose clock is modelled on its own in `Countdown`.
- Local storage is a map from key to stored value. The stored value is
  absent, unparsable, or one of the three lists the services write. A key
  that holds a list of another kind reads as the empty list.

**Submitting.** A `PressSubmit` event counts only where the page offers a
submit control (`QuizRunner.SubmitOffered`):
- fill-in and listening questions have a Submit button and the Enter key;
- the ordering builder's Submit button is enabled only once the answer has
  as many words as the question;
- a multiple-choice question has no submit control, so only the countdown
  submits it.

Anywhere else `PressSubmit` leaves the session unchanged.

**Validity of a session.** `QuizRunner.Valid` states the invariant of a
running session:
- the index names a question;
- one result exists per question already left behind, plus one for the
  current question once it is submitted, and each result names its question;
- the score equals the number of correct results.

`QuizRunner.CompleteAttempt` states what a finished attempt holds: one result
per question, in quiz order, with the score equal to the number of correct
ones.

**Edge cases, as the code has them.** The streak
walk stops after 365 days. An achievement with an unknown criterion
kind never unlocks. `averageAccuracy` rounds half up.

## Model

| member | source | states |
|---|---|---|
| Types.CorrectCount | src/utils/analytics.ts:89 | the number of correct results never exceeds the number of results; it is 0 exactly when no result is correct and equals the result count exactly when every result is correct |
| Types.CorrectCountAppend | src/utils/analytics.ts:89 | counting correct results distributes over concatenating two result lists |
| Text.Trim | src/pages/QuizRunner.tsx:99-100 | the trimmed answer is a contiguous piece of the input and neither starts nor ends with white space |
| Text.Lower | src/pages/QuizRunner.tsx:99-100 | lower-casing keeps the length and maps every character through the same per-character lowering |
| Text.TrimOfTrimmed | src/pages/QuizRunner.tsx:99-100 | a string with no white space at either end is its own trim |
| Text.LowerOfLowered | src/pages/QuizRunner.tsx:99-100 | lower-casing an already lower-cased string changes nothing |
| Text.NormalizeIdempotent | src/pages/QuizRunner.tsx:99-100 | trimming and lower-casing an answer twice gives the same as doing it once |
| Text.Join | src/pages/QuizRunner.tsx:101 | joining no words gives the empty string, and joining one word gives that word |
| Text.JoinSpaces | src/pages/QuizRunner.tsx:101 | joining n space-free words yields exactly n-1 spaces |
| Text.JoinInjective | src/pages/QuizRunner.tsx:101 | two equally long lists of space-free words with the same joined string are the same list |
| Text.JoinInjectiveNonEmpty | src/pages/QuizRunner.tsx:101 | two non-empty lists of space-free words with the same joined string are the same list, whatever their lengths |
| Text.JoinOfFewerWordsDiffers | src/pages/QuizRunner.tsx:101 | a list of space-free words never joins to the same string as a longer list of at least two such words |
| Text.SpacedTokensCollide | src/pages/QuizRunner.tsx:101 | once a token contains a space, two different orders can join to the same sentence |
| Calendar.DayOf | src/utils/analytics.ts:86 | a timestamp falls inside the 24-hour span of its day number |
| Calendar.Weekday | src/utils/analytics.ts:22-28 | the weekday is one of seven values |
| Calendar.WeekdayCycle | src/utils/analytics.ts:22-28 | 1 January 1970 is a Thursday (4), each day's weekday is the previous one's plus one, Saturday (6) is followed by Sunday (0), and the numbering repeats every seven days, as `getDay` numbers UTC days |
| Calendar.StartOfWeek | src/utils/analytics.ts:22-28 | the start of a day's week is a Monday, on or at most six days before that day |
| Calendar.StartOfWeekOfMonday | src/utils/analytics.ts:22-28 | a Monday is the start of its own week |
| Calendar.SameWeekSameStart | src/utils/analytics.ts:22-28 | every day of a week has the same week start |
| Calendar.FirstMondayOf2024 | src/utils/analytics.ts:22-28 | 1 January 2024 (day 19723) is a Monday and starts the week of 7 January 2024 |
| Calendar.CivilFromDays | src/utils/analytics.ts:30-35 | every day number has a date whose month is 1 to 12 and whose day is 1 to 31 |
| Calendar.DayOfYearRange | src/utils/analytics.ts:30-35 | every day of a 400-year era lies in one of its 400 years, at day 0 to 365 of that year |
| Calendar.CivilRoundTrip | src/utils/analytics.ts:30-35 | converting a day number to its date and back gives the same day number, so distinct days have distinct dates |
| Calendar.MonthIndex | src/utils/analytics.ts:137-140 | the month index of a day decodes to the year and the month of its date |
| Calendar.EpochIsJanuaryFirst1970 | src/utils/analytics.ts:30-35 | day 0 is 1 January 1970, in month index 1970 * 12 |
| Calendar.LeapDay2024 | src/utils/analytics.ts:30-35 | day 19782 is 29 February 2024 |
| Calendar.DayBeforeEpoch | src/utils/analytics.ts:30-35 | day -1 is 31 December 1969 |
| Activity.WindowKeys | src/utils/analytics.ts:76-83 | the window holds n period keys, the last one the current period, each one stride after the previous |
| Activity.BucketOf | src/utils/analytics.ts:86-140 | an attempt's daily key is the day containing its timestamp, its weekly key the Monday of that day's week, its monthly key the month index of that day |
| Activity.EmptyPoints | src/utils/analytics.ts:79-83 | every bucket of a fresh window is zero, one per key, in order |
| Activity.Record | src/utils/analytics.ts:85-91 | recording an attempt keeps the number of buckets and their periods |
| Activity.Accumulate | src/utils/analytics.ts:85-91 | folding attempts keeps the buckets' periods, and each count can only grow, with correct answers growing no faster than answers |
| Activity.InBucket | src/utils/analytics.ts:86-87 | the reference definition: an attempt belongs to a bucket exactly when it occurs in the history and its period key is the bucket's |
| Activity.AccumulateCounts | src/utils/analytics.ts:85-91 | after the fold, each bucket's sessions, correct and total equal its starting values plus exactly the counts of the attempts keyed to it |
| Activity.Series | src/utils/analytics.ts:73-94 | a series has one bucket per requested period, ending at the current period, one stride apart; correct never exceeds total; an empty history gives all zeros |
| Activity.SeriesCounts | src/utils/analytics.ts:85-91 | each bucket of a series counts exactly the attempts whose period is that bucket's |
| Activity.SeriesAppend | src/utils/analytics.ts:85-91 | storing one more attempt adds one session and its counts to its own bucket and to no other |
| Activity.OutOfWindowIgnored | src/utils/analytics.ts:87 | an attempt whose period lies outside the window changes nothing |
| Activity.ComputeDailyActivity | src/utils/analytics.ts:73-94 | the daily series covers the last `days` days ending today |
| Activity.ComputeWeeklyActivity | src/utils/analytics.ts:96-119 | the weekly series is keyed by Mondays, one week apart, ending with this week's Monday |
| Activity.ComputeMonthlyActivity | src/utils/analytics.ts:121-148 | the monthly series covers consecutive months ending with this month |
| Activity.MondaysAWeekApart | src/utils/analytics.ts:100-102 | stepping back whole weeks from a Monday lands on a Monday |
| Activity.WeeklyBucketIsItsWeek | src/utils/analytics.ts:108-112 | an attempt is counted in the week of Monday m exactly when its day lies between m and the following Sunday |
| Streak.Walk | src/utils/analytics.ts:155-164 | the walk returns the length of the maximal run of active days going back from today, or from yesterday when today is inactive, within 365 days |
| Streak.ComputeCurrentStreak | src/utils/analytics.ts:150-165 | an empty history has streak 0; otherwise the streak is the maximal run of consecutive active days ending today, or ending yesterday when today has no attempt, at most 365 |
| Streak.MaximalRunUnique | src/utils/analytics.ts:155-164 | a maximal run from a given start has only one length, so the streak is determined by the active days |
| Streak.DayOfMidnight | src/utils/analytics.ts:152 | a timestamp at the start of a day maps back to that day |
| Streak.TodayAndYesterday | src/utils/analytics.ts:155-164 | attempts today and yesterday give a streak of 2 |
| Streak.YesterdayAndTheDayBefore | src/utils/analytics.ts:155-164 | no attempt yet today does not break a streak: attempts yesterday and the day before give 2 |
| Streak.OnlyTwoDaysAgo | src/utils/analytics.ts:155-164 | a gap yesterday ends the streak: an attempt only two days ago gives 0 |
| Analytics.IndexKey | src/utils/analytics.ts:47-56 | an id is a key of the question index exactly when some question carries that id |
| Analytics.IndexValue | src/utils/analytics.ts:47-56 | a question whose id is not repeated later in the list is indexed to its own related word |
| Analytics.VocabKey | src/utils/analytics.ts:66 | a correct answer counts for the question's related word when the index names one, and for the question id itself otherwise |
| Analytics.IndexQuestionsContents | src/utils/analytics.ts:47-56 | the index has a key exactly for each question id, and a question whose id is not repeated later maps to its own word id |
| Analytics.BuildQuestionToVocabIndex | src/utils/analytics.ts:47-56 | the index over all quizzes' questions has a key exactly per question id, and a question whose id is not repeated later maps to its own word id |
| Analytics.ResultWords | src/utils/analytics.ts:64-68 | the words of one attempt are exactly those answered correctly, counted by word id or else by question id, and there are no more of them than correct answers |
| Analytics.MasteredWords | src/utils/analytics.ts:58-71 | the mastered words never outnumber the correct answers in the history |
| Analytics.MasteredWordsMembership | src/utils/analytics.ts:58-71 | a word is mastered exactly when some attempt answered it correctly |
| Analytics.ComputeUniqueWordsMastered | src/utils/analytics.ts:58-71 | the count is 0 for an empty history and at most the number of correct answers |
| Analytics.WordsMasteredMonotone | src/utils/analytics.ts:58-71 | more attempts never lower the words-mastered count |
| Analytics.SumNonNegative | src/utils/analytics.ts:167 | the sum of non-negative numbers is non-negative |
| Analytics.SumMonotone | src/utils/analytics.ts:167 | summing is monotone in each element |
| Analytics.SumAppend | src/utils/analytics.ts:167 | the sum of a concatenation is the sum of the sums |
| Analytics.SumIsReduce | src/utils/analytics.ts:167 | the front-to-back `reduce` from 0 computes the sum, and from any start value adds the sum to it |
| Analytics.RoundPercent | src/utils/analytics.ts:173 | the result is the nearest integer to 100 * correct / total, with halves rounded up, and lies in 0..100 when correct does not exceed total |
| Analytics.ColumnsOrdered | src/utils/analytics.ts:170-171 | when every bucket's correct count is at most its total, so is the sum of the correct counts at most the sum of the totals |
| Analytics.AverageAccuracy | src/utils/analytics.ts:169-174 | 0 when there are no answers; otherwise the rounded percentage of correct answers over all buckets, between 0 and 100 when each bucket is consistent |
| Analytics.EvaluateAchievements | src/utils/analytics.ts:176-188 | one state per achievement, in order, unlocked exactly when its criterion's statistic reaches the threshold (never for an unknown kind), with the achievement's other fields kept |
| Analytics.UnlockIgnoresOtherStats | src/utils/analytics.ts:181-185 | an achievement's state depends only on the statistic its criterion names |
| QuizRunner.Shuffle | src/pages/QuizRunner.tsx:36-43 | the shuffle returns a permutation of its input, and draws that never swap leave it unchanged |
| QuizRunner.IsCorrect | src/pages/QuizRunner.tsx:96-103 | a multiple-choice answer is correct exactly when the selected option is the correct one, and wrong without a selection; a typed answer exactly when its trimmed lower-case form equals the reference answer's; an ordering exactly when the joined words equal the question's joined words |
| QuizRunner.TypedAnswerNormalForm | src/pages/QuizRunner.tsx:99-100 | a typed answer is judged on its trimmed lower-case form alone: the reference answer in normal form is always accepted, and a text whose normal form differs from the answer's is always rejected |
| QuizRunner.OriginalOrderAccepted | src/pages/QuizRunner.tsx:101 | placing the words in the question's original order is correct |
| QuizRunner.OtherOrderRejected | src/pages/QuizRunner.tsx:101 | with space-free words, any other arrangement of the same number of words is wrong |
| QuizRunner.EnterQuestion | src/pages/QuizRunner.tsx:82-89 | entering a question clears the selection, the typed text, the ordering, the submitted flag and the feedback, and keeps the score and results |
| QuizRunner.SelectOption | src/pages/QuizRunner.tsx:176-182 | choosing an option changes only the selection, and nothing once submitted |
| QuizRunner.EditText | src/pages/QuizRunner.tsx:184-200 | typing changes only the text, and nothing once submitted |
| QuizRunner.EditOrder | src/pages/QuizRunner.tsx:202-209 | building the order changes only the ordering, and nothing once submitted |
| QuizRunner.ResultFor | src/pages/QuizRunner.tsx:109-114 | the result names the current question, records whether the answer is correct, records the joined words for an ordering question and the typed text otherwise, and carries the chosen option exactly for multiple choice |
| QuizRunner.Submit | src/pages/QuizRunner.tsx:105-117 | submitting a pending question appends its result, adds one to the score exactly when correct, and sets the feedback; otherwise nothing changes |
| QuizRunner.Expire | src/pages/QuizRunner.tsx:119-122 | the timer does nothing once the question is submitted |
| QuizRunner.ExpireIsSubmit | src/pages/QuizRunner.tsx:119-122 | the timer's expiry has exactly the effect of pressing submit |
| QuizRunner.SubmitIdempotent | src/pages/QuizRunner.tsx:105-106 | a second submit of the same question changes nothing |
| QuizRunner.UnansweredExpiryIsWrong | src/pages/QuizRunner.tsx:105-122 | when time runs out on an untouched question whose answer is not blank, a wrong result is recorded and the score is unchanged |
| QuizRunner.Next | src/pages/QuizRunner.tsx:124-141 | before the last question, next enters the following question; after the last, it finishes with an attempt holding the quiz id, the score, the results, and the clock's time, id and quiz duration |
| QuizRunner.StartValid | src/pages/QuizRunner.tsx:56-63 | a quiz with questions starts in a valid state |
| QuizRunner.SubmitKeepsValid | src/pages/QuizRunner.tsx:105-117 | submitting keeps a session valid |
| QuizRunner.ApplyKeepsOk | src/pages/QuizRunner.tsx:105-141 | every event keeps a running session valid, and a finished session holds a complete attempt |
| QuizRunner.ApplyMovesForward | src/pages/QuizRunner.tsx:105-209 | an event never reopens a finished quiz, never moves back or rewrites results; only Next on the last submitted question finishes, with the collected results; a submit the page does not offer changes nothing |
| QuizRunner.RunMovesForward | src/pages/QuizRunner.tsx:105-209 | over any sequence of events the question index only grows, the results only grow at the end, and a finished quiz stays finished |
| QuizRunner.InputKeepsValid | src/pages/QuizRunner.tsx:174-209 | editing the current answer keeps a session valid |
| QuizRunner.NextKeepsOk | src/pages/QuizRunner.tsx:124-141 | Next keeps a valid session valid or finishes it with a complete attempt |
| QuizRunner.RunKeepsOk | src/pages/QuizRunner.tsx:105-141 | any sequence of events keeps the session sound |
| QuizRunner.SessionFromStart | src/pages/QuizRunner.tsx:124-139 | whatever the learner does, the attempt handed to storage has one result per question, in quiz order, with the score equal to the number of correct results |
| QuizRunner.EmptyQuizNeverCompletes | src/pages/QuizRunner.tsx:105-107 | a quiz with no questions records no result and never finishes |
| Lists.Keep | src/services/quizService.ts:11 | the filtered list holds only elements of the input that pass, every passing element of the input appears in it, and a list whose elements all pass is kept whole |
| Lists.KeepInOrder | src/services/quizService.ts:11 | `filter` returns the input read at the positions whose entry passes, in increasing order |
| Lists.KeepLength | src/services/quizService.ts:11 | the filtered list is exactly as long as the number of passing elements |
| Lists.KeepAppend | src/services/quizService.ts:11 | filtering distributes over concatenation |
| Lists.KeepIdempotent | src/services/quizService.ts:27-29 | filtering twice by the same test is filtering once |
| Lists.UpdateWhere | src/services/quizService.ts:21 | the patched list has the same length; matching elements are replaced by their patched form and the rest are unchanged |
| Lists.Dedup | src/services/favoritesService.ts:12 | de-duplication keeps exactly the same elements, without repeats, and never lengthens the list |
| Lists.DedupInOrder | src/services/favoritesService.ts:12 | `Array.from(new Set(xs))` is `xs` read at the positions whose entry does not occur earlier, in increasing order |
| Lists.DedupOfDistinct | src/services/favoritesService.ts:12 | a list without repeats is its own de-duplication |
| Lists.KeepDistinct | src/services/favoritesService.ts:22 | filtering a list without repeats leaves it without repeats |
| Storage.WriteAttempts | src/services/storage.ts:49-56 | after writing, the attempts read back as written, and every other key is unchanged |
| Storage.WriteProgress | src/services/storage.ts:49-56 | after writing, the progress history reads back as written, and every other key is unchanged |
| Storage.WriteIds | src/services/storage.ts:49-56 | after writing, the favourites read back as written, and every other key is unchanged |
| Storage.FallbackReads | src/services/storage.ts:39-47 | a missing or unparsable value reads as the empty list |
| Storage.ReadAttempts | src/services/storage.ts:39-47 | a non-empty attempt list read back is the list stored under the attempts key |
| Storage.ReadProgress | src/services/storage.ts:39-47 | a non-empty progress list read back is the list stored under the progress key |
| Storage.ReadIds | src/services/storage.ts:39-47 | a non-empty favourites list read back is the list stored under the favourites key |
| QuizService.MergeLaws | src/services/quizService.ts:21 | an empty patch changes nothing, and applying a patch twice is the same as once |
| QuizService.MergeAttempt | src/services/quizService.ts:21 | the spread `{ ...a, ...patch }`: every field the patch carries replaces the attempt's, and every field it leaves out keeps the attempt's value |
| QuizService.GetAttemptsByQuiz | src/services/quizService.ts:10-12 | the quiz's attempts are exactly the stored attempts with that quiz id, in stored order |
| QuizService.AddQuizAttempt | src/services/quizService.ts:14-18 | the new attempt is appended to the stored list, which is returned and persisted; the other stores are untouched |
| QuizService.UpdateQuizAttempt | src/services/quizService.ts:20-24 | attempts with the id are patched and the rest are kept, positions preserved; the other stores are untouched |
| QuizService.RemoveQuizAttempt | src/services/quizService.ts:26-30 | exactly the attempts with other ids remain, in stored order, and an absent id changes nothing |
| QuizService.ClearQuizAttempts | src/services/quizService.ts:32-34 | no attempts remain, and the other stores are untouched |
| QuizService.ByQuizAfterAdd | src/services/quizService.ts:10-18 | after adding, the quiz's attempts gain the new one at the end when it belongs to the quiz, and are unchanged otherwise |
| QuizService.RemoveUndoesAdd | src/services/quizService.ts:14-30 | removing a freshly added attempt whose id is new restores the previous list |
| QuizService.RemoveIdempotent | src/services/quizService.ts:26-30 | removing the same id twice is removing it once |
| QuizService.UpdateAbsentId | src/services/quizService.ts:20-24 | updating an id that is not stored changes nothing |
| ProgressService.MergeLaws | src/services/progressService.ts:20 | an empty patch changes nothing, and applying a patch twice is the same as once |
| ProgressService.MergeEntry | src/services/progressService.ts:20 | the spread `{ ...e, ...patch }`: every field the patch carries replaces the entry's, and every field it leaves out keeps the entry's value |
| ProgressService.AddProgressEntry | src/services/progressService.ts:10-14 | the new entry is appended to the stored history, which is returned and persisted; the other stores are untouched |
| ProgressService.UpdateProgressEntry | src/services/progressService.ts:16-23 | entries with the id are patched and the rest are kept, positions preserved; the other stores are untouched |
| ProgressService.RemoveProgressEntry | src/services/progressService.ts:25-29 | exactly the entries with other ids remain, in stored order, and an absent id changes nothing |
| ProgressService.ClearProgressHistory | src/services/progressService.ts:31-33 | no entries remain, and the other stores are untouched |
| ProgressService.RemoveUndoesAdd | src/services/progressService.ts:10-29 | removing a freshly added entry whose id is new restores the previous history |
| ProgressService.RemoveIdempotent | src/services/progressService.ts:25-29 | removing the same id twice is removing it once |
| ProgressService.UpdateAbsentId | src/services/progressService.ts:16-23 | updating an id that is not stored changes nothing |
| FavoritesService.SetFavorites | src/services/favoritesService.ts:11-13 | the stored favourites hold each given id once, and a list without repeats is stored as given |
| FavoritesService.SetFavoritesInOrder | src/services/favoritesService.ts:11-13 | the stored list keeps the first occurrence of each given id, in the given order |
| FavoritesService.AddFavorite | src/services/favoritesService.ts:15-19 | the id becomes a favourite, the others stay, nothing is repeated, and adding a present id to a list without repeats changes nothing |
| FavoritesService.AddContents | src/services/favoritesService.ts:15-19 | adding keeps every earlier favourite and brings in only the new id |
| FavoritesService.AddAbsent | src/services/favoritesService.ts:15-19 | a new id is appended at the end of a list without repeats |
| FavoritesService.RemoveFavorite | src/services/favoritesService.ts:21-25 | the id is no longer a favourite and every other favourite stays |
| FavoritesService.RemoveFavoriteInOrder | src/services/favoritesService.ts:21-25 | the remaining favourites keep their stored order |
| FavoritesService.ToggleFavorite | src/services/favoritesService.ts:27-30 | toggling flips the id's membership and leaves every other id's membership alone, in the stored list and in the returned list that the favourites hook renders; for a duplicate-free stored list the two are equal |
| FavoritesService.ClearFavorites | src/services/favoritesService.ts:36-38 | no favourites remain, and the other stores are untouched |
| FavoritesService.IsFavorite | src/services/favoritesService.ts:32-34 | an id is a favourite exactly when it occurs in the stored list |
| FavoritesService.IsFavoriteAfterAdd | src/services/favoritesService.ts:15-34 | after adding an id it is a favourite, and every other id keeps its status |
| FavoritesService.IsFavoriteAfterRemove | src/services/favoritesService.ts:21-34 | after removing an id it is no favourite, and every other id keeps its status |
| FavoritesService.IsFavoriteAfterToggle | src/services/favoritesService.ts:27-34 | toggling flips the id's status and keeps every other id's |
| FavoritesService.IsFavoriteAfterClear | src/services/favoritesService.ts:32-38 | after clearing no id is a favourite |
| FavoritesService.ToggleTwice | src/services/favoritesService.ts:27-30 | toggling twice restores the set of favourites |
| FavoritesService.AddIdempotent | src/services/favoritesService.ts:15-19 | adding the same id twice is adding it once |
| Ordering.TokenClick | src/components/quiz/Ordering.tsx:16-20 | tapping a word appends it unless the builder is disabled or the same word is already placed |
| Ordering.RemoveLast | src/components/quiz/Ordering.tsx:22-25 | undo drops exactly the last placed word, unless disabled |
| Ordering.Reset | src/components/quiz/Ordering.tsx:27-30 | reset empties the answer, unless disabled |
| Ordering.ApplyKeepsSound | src/components/quiz/Ordering.tsx:16-30 | every action keeps the answer made of offered words, each placed at most once |
| Ordering.RunKeepsSound | src/components/quiz/Ordering.tsx:16-30 | any sequence of actions keeps the answer made of distinct offered words |
| Ordering.SoundIsBounded | src/components/quiz/Ordering.tsx:16-20 | the answer is never longer than the number of distinct offered words |
| Ordering.RepeatedWordBlocksSubmit | src/components/quiz/Ordering.tsx:71 | when a word is offered twice, the answer never becomes long enough to submit |
| Ordering.SubmitOfferedIsButton | src/components/quiz/Ordering.tsx:71 | on an ordering question the session accepts a submit exactly when the builder's Submit button is enabled |
| Ordering.RepeatedWordNeverAccepted | src/components/quiz/Ordering.tsx:16-20 | a question with a repeated word can never be answered correctly through the builder |
| Ordering.TheCatSawTheDog | src/components/quiz/Ordering.tsx:16-20 | "the cat saw the dog" can never be submitted, whatever the shuffled order and the taps |
| Ordering.TapAt | src/components/quiz/Ordering.tsx:49-62 | corrected builder: tapping a button records its position unless it is disabled, out of range or already used |
| Ordering.ValueAt | src/components/quiz/Ordering.tsx:49-62 | corrected builder: the answer is the words at the recorded positions, in tap order |
| Ordering.ApplyAtKeepsSound | src/components/quiz/Ordering.tsx:16-30 | corrected builder: every action keeps the recorded positions distinct and in range |
| Ordering.RunAtKeepsSound | src/components/quiz/Ordering.tsx:16-30 | corrected builder: any sequence of actions keeps the recorded positions distinct and in range |
| Ordering.TapsRecordOrder | src/components/quiz/Ordering.tsx:16-20 | corrected builder: tapping unused buttons records exactly those positions, in tap order |
| Ordering.CorrectedBuilderAnswers | src/components/quiz/Ordering.tsx:16-20 | corrected builder: tapping the buttons that spell the sentence builds exactly the sentence, and the answer is accepted |
| Ordering.TheCatSawTheDogCorrected | src/components/quiz/Ordering.tsx:16-20 | corrected builder: "the cat saw the dog" can be built and is accepted |
| VirtualList.FloorDiv | src/components/VirtualList.tsx:34 | the quotient is the largest integer whose multiple of the divisor does not exceed the dividend |
| VirtualList.CeilDiv | src/components/VirtualList.tsx:36 | the quotient is the smallest integer whose multiple of the divisor reaches the dividend |
| VirtualList.JsSlice | src/components/VirtualList.tsx:41 | within bounds, the slice is the ordinary subsequence; crossed bounds give nothing |
| VirtualList.ComputeWindow | src/components/VirtualList.tsx:33-40 | the spacer is as tall as all rows; the window starts at the row under the scroll position, offset by whole rows, and ends at the last row or exactly a viewport plus the overscan further on, whichever comes first; a negative scroll position starts at the first row |
| VirtualList.VisibleRows | src/components/VirtualList.tsx:41-55 | the i-th rendered item is row startIndex + i, and at most a viewport's worth of rows plus the overscan plus one are rendered |
| VirtualList.ViewportCovered | src/components/VirtualList.tsx:33-41 | every row the viewport overlaps is rendered |
| VirtualList.ScrollByRows | src/components/VirtualList.tsx:34 | scrolling down by k rows moves the window start by k |
| VirtualList.FloorUnique | src/components/VirtualList.tsx:34 | the row under a scroll position is the only one whose span contains it |
| VirtualList.FirstWindowSamples | src/__tests__/virtual-list.test.tsx:9-26 | unscrolled, the window starts at the first row, and the 1000-row list renders rows 0 to 14 |
| VirtualList.ScrolledWindowSample | src/__tests__/virtual-list.test.tsx:28-51 | scrolled to 200 pixels, the 100-row list renders rows 10 to 24 at offset 200, so the row labelled "Item 10" is not rendered |
| VirtualList.ScrolledWindowLabels | src/__tests__/virtual-list.test.tsx:28-51 | at that scroll the rendered labels are "Item 11" to "Item 25", in order |
| Countdown.Frame | src/components/quiz/Timer.tsx:27-38 | a started clock keeps its start; an unstarted one (or one started at 0) starts at this frame; the frame fires exactly when the time since the start has reached the countdown |
| Countdown.NewQuestion | src/components/quiz/Timer.tsx:16-19 | moving to another question keeps a started clock's start, because the page's `seconds` never changes |
| Countdown.NewQuestionRestarted | src/components/quiz/Timer.tsx:16-19 | the restarted countdown clears the start on every question |
| Countdown.LaterQuestionExpiresAtOnce | src/components/quiz/Timer.tsx:16-38 | as written, 20 seconds after the quiz's first frame, the first frame of the next question fires the expiry |
| Countdown.RestartedCountdownIsPerQuestion | src/components/quiz/Timer.tsx:16-38 | restarted, a question's first frame never fires, and a later frame fires exactly 20 seconds after it |
| FlashcardDeck.MaxIndex | src/components/FlashcardDeck.tsx:15 | the last index is one less than the card count, or 0 for an empty deck |
| FlashcardDeck.InitialIndex | src/components/FlashcardDeck.tsx:16-17 | the opening index is the remembered one when it is at most the last index, and the last index otherwise |
| FlashcardDeck.Next | src/components/FlashcardDeck.tsx:31 | next moves one card on, but never past the last |
| FlashcardDeck.Prev | src/components/FlashcardDeck.tsx:32 | prev moves one card back, but never before the first |
| FlashcardDeck.Reclamp | src/components/FlashcardDeck.tsx:23-25 | when the list changes, an index past the new last card is pulled back to it and any other is kept |
| FlashcardDeck.OpensInRange | src/components/FlashcardDeck.tsx:15-17 | a remembered index that is not negative opens the deck on a valid card |
| FlashcardDeck.NegativeStoredIndexKept | src/components/FlashcardDeck.tsx:16-17 | a remembered negative index is not corrected on opening |
| FlashcardDeck.RunKeepsInRange | src/components/FlashcardDeck.tsx:23-37 | buttons, swipes and list changes keep a valid index valid |
| FlashcardDeck.NextPrevInverse | src/components/FlashcardDeck.tsx:31-32 | away from the ends, next and prev undo each other |
| FlashcardDeck.SwipesAreButtons | src/components/FlashcardDeck.tsx:34-37 | a left swipe is next and a right swipe is prev |
| MultipleChoice.StylingCases | src/components/quiz/MultipleChoice.tsx:16-32 | before the reveal only the chosen option is filled and all are brand-coloured; after it the right option is filled green, a wrong choice is outlined red and the rest outlined grey |
| MultipleChoice.GetVariant | src/components/quiz/MultipleChoice.tsx:16-23 | an option is filled exactly when it is the chosen one before the reveal, or the right one after it |
| MultipleChoice.GetColor | src/components/quiz/MultipleChoice.tsx:25-32 | brand exactly before the reveal; after it green exactly for the right option and red exactly for a wrong choice |
| MultipleChoice.SolidIffGreen | src/components/quiz/MultipleChoice.tsx:16-32 | after the reveal an option is filled exactly when it is green |
| MultipleChoice.Coloured | src/components/quiz/MultipleChoice.tsx:25-32 | the set holds exactly the positions of the options with the given colour |
| MultipleChoice.OneGreenAfterReveal | src/components/quiz/MultipleChoice.tsx:25-32 | with distinct option ids, exactly one option is green and at most one red, and exactly one red when a wrong offered option was chosen |
| Practice.LatestByQuizSpec | src/pages/Practice.tsx:11-15 | the summary has an entry exactly for each attempted quiz, carrying the score and time of its latest attempt, the first listed on a tie |
| Practice.LatestByQuiz | src/pages/Practice.tsx:11-15 | every summary entry is the score and time of some attempt of that quiz |
| Practice.LatestSurvivesOther | src/pages/Practice.tsx:13 | an attempt of another quiz does not displace a quiz's latest attempt |
| Practice.FirstOfItsQuiz | src/pages/Practice.tsx:12-13 | a quiz's first attempt becomes its latest |
| Practice.LaterReplaces | src/pages/Practice.tsx:13 | a strictly later attempt takes over |
| Practice.NotLaterKeeps | src/pages/Practice.tsx:13 | an attempt at the same time or earlier leaves the previous latest in place |
| Practice.TieKeepsFirst | src/pages/Practice.tsx:13 | of two attempts of one quiz at the same time, the first listed is shown |
| EndToEnd.DogIsNotCat | src/pages/QuizRunner.tsx:99-100 | "dog" typed for the answer "cat" is judged wrong |
| EndToEnd.SessionOutcome | src/pages/QuizRunner.tsx:105-139 | a right choice, a wrong typed answer and a timed-out ordering produce a completed attempt with score 1, three results, one correct, stamped with the finishing clock |
| EndToEnd.StoredAttemptCountsToday | src/utils/analytics.ts:85-91 | storing any attempt stamped today adds one session, its correct answers and its answers to the last daily bucket, which stays today's |
| EndToEnd.TodaysBucketGrows | src/utils/analytics.ts:85-91 | storing that attempt adds one session, one correct answer and three answers to today's daily bucket |

## Left out

- Local storage is a map of parsed values. The JSON text, `JSON.parse` and
  `JSON.stringify` are not modelled.
- Storage.ReadAttempts, Storage.ReadProgress and Storage.ReadIds read a
  wrong-kind value as the empty list, unlike the source. A stored value that
  parses but has the wrong shape (another kind of list, JSON `null`, a
  number, an object) is returned unchecked by `readJSON`. The model has only
  the three list kinds, and only unparsable text beyond them.
- Writes that throw, such as a full quota, are ignored by `writeJSON`. In the
  model every write succeeds.
- The server-side branch where `window` is undefined is not modelled: reads
  always see the store.
- The `storage` event that reloads favourites in other tabs is not modelled,
  because it is browser I/O.
- The clock, `performance.now`, the attempt id, the quiz's duration (from
  entering the first question to finishing) and `Math.random` are inputs:
  the `Clock` value and the shuffle's draws.
- The timer's `requestAnimationFrame` loop is modelled only as the clock
  arithmetic of `Countdown`; the session takes expiry as the event
  `TimerExpired` at any moment. The page's countdown starts on the quiz's
  first frame and is not restarted for later questions (see Findings), so
  once 20 seconds have passed every later question expires on its first
  frame. The session model allows that sequence and others besides. The
  remaining seconds shown by the timer are not part of the state.
- Fetching the seed quizzes and vocabulary, routing, "Quiz not found",
  React hooks, navigation after finishing, audio, charts and all
  presentation are not modelled. The quiz is a parameter.
- `QuizRunner.Shuffle`: the quiz page shuffles each ordering question's
  words once per quiz. The model takes the shown order as any permutation
  of the question's words rather than recomputing it.
- Timestamps are stored as ISO strings. The model uses integer
  milliseconds, and an attempt's day is `DayOf` its timestamp. The daily
  buckets and the streak never parse the string: they take its first ten
  characters (src/utils/analytics.ts:86, 152). Those equal the UTC day only
  for the canonical `toISOString` form that the quiz page writes
  (src/pages/QuizRunner.tsx:134), and the model assumes every stored
  timestamp has that form. The weekly and monthly buckets parse it with
  `new Date`, and for an unparsable one `toISOString` throws a `RangeError`
  (src/utils/analytics.ts:109-111, 138-140). That exception is not
  modelled.
- The activity functions mix the UTC date key (`toISOString`) with
  local-time week and month starts (`setHours`, `setDate`). The model uses
  one UTC day numbering throughout, which agrees with the source when the
  browser runs in UTC.
- `Streak.ComputeCurrentStreak`: the source steps back through days with
  local-time `setDate`. The model steps back by whole UTC days, which
  agrees with the source when the browser runs in UTC.
- `Calendar.CivilFromDays` is the standard days-to-civil conversion. Its
  agreement with JavaScript's `Date` is proved on sample dates only: 1 January
  1970, 31 December 1969 and 29 February 2024. In general the model proves
  the ranges of month and day and the round trip through the inverse
  conversion.
- `formatLabel` and the `label`/`date` strings of each activity point are
  not modelled, because they are display formatting. A point carries its
  numeric period key.
- `Analytics.AverageAccuracy`: the source computes
  `Math.round((correct / total) * 100)` in floating point. The model rounds
  the exact rational value, half up. When `correct / total` is not exactly
  representable, the float product can land just below a half and round
  down where the model rounds up.
- Text handling is ASCII only. `trim` strips only the ASCII white-space
  characters (space, tab, line feed, vertical tab, form feed, carriage
  return). `toLowerCase` lowers only A–Z. Unicode white space and Unicode
  case mapping are out of scope.
- `QuizService.UpdateQuizAttempt`: a patch is a record of optional fields,
  and a field given as `undefined` in the source's spread is not modelled.
  The optional `durationSec` is the exception: it can be set or cleared.
  `ProgressService.UpdateProgressEntry` works the same way.
- `FavoritesService.RemoveFavorite`: the source stores the de-duplicated
  list but returns the filtered one. The two differ only when the stored
  list already held a repeated id, which the service's own writes never
  produce. The contract states both lists exactly.
- `VirtualList.ComputeWindow` requires `itemHeight > 0`. With 0 the source
  divides by zero and renders nothing useful. Pixel quantities are
  integers, whereas the browser's `scrollTop` and heights may be
  fractional.
- `VirtualList.VisibleRows` requires the viewport height and the overscan
  to be non-negative. The component's props are never negative.
- The flashcard deck's persistence of its index through `writeJSON`
  (src/components/FlashcardDeck.tsx:19-21) is not modelled. Only the
  restored value is an input.
- The deck's disabled Prev/Next buttons at the ends are not modelled as
  disabled. Pressing them there leaves the index unchanged anyway.
- `Practice.LatestByQuiz` keys a map by quiz id, whereas the source's
  accumulator is a plain object, so a quiz id that names an
  `Object.prototype` member (such as `constructor` or `toString`) finds an
  inherited function there. The date comparison with that function is then
  false, and the source never gives such a quiz an entry
  (src/pages/Practice.tsx:12-13). The model matches the source only for
  quiz ids that are not prototype member names.
- `Analytics.VocabKey` looks up a map, whereas the source's index is a
  plain object: for a question id that names an `Object.prototype` member,
  `q2v[id] ?? id` yields the inherited function rather than the id
  (src/utils/analytics.ts:66). The model matches the source only for
  question ids that are not prototype member names.
- `Streak.Walk` is bounded by the same 365-day cap as the source loop, so
  nothing is lost.
- The React state batching and effect scheduling of the quiz page are not
  modelled. Each event applies its whole state update at once, as React
  does between renders.

## Findings

| source | as written | input that shows it | evidently intended | confidence | as-written member | corrected member |
|---|---|---|---|---|---|---|
| src/components/quiz/Timer.tsx:16-38 | the timer's start time is cleared only when its `seconds` property changes; the quiz page always passes 20 and never remounts it (src/pages/QuizRunner.tsx:172), so one countdown, started on the quiz's first frame, serves every question | a quiz whose first question is left for its full 20 seconds: the next question's first frame already fires the expiry, submitting an empty answer | each question gets its own 20-second countdown from its first frame | not executed | Countdown.LaterQuestionExpiresAtOnce | Countdown.RestartedCountdownIsPerQuestion |
| src/__tests__/virtual-list.test.tsx:45-50 | after scrolling to 200 pixels the test expects the row labelled "Item 10", which the component does not render: its window then starts at index 10, labelled "Item 11" | 100 rows of 20 pixels in a 200-pixel viewport, scrolled to 200 pixels | the test expects "Item 11", the first row of the scrolled window | not executed | VirtualList.ScrolledWindowSample | VirtualList.ScrolledWindowLabels |
| src/components/quiz/Ordering.tsx:16-20 | a word button is refused when a word with the same text is already in the answer, so a sentence that repeats a word can never be completed or submitted | an ordering question with words ["the", "cat", "saw", "the", "dog"] | each button can be used once, so repeated words can be placed and the sentence built | not executed | Ordering.RepeatedWordNeverAccepted | Ordering.CorrectedBuilderAnswers |
