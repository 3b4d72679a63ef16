/** The progress history: the list of progress entries under
    `ll_progress_history`. Every mutator reads the current list, computes the
    new one, writes it and returns it. */
module ProgressService {
  import opened Types
  import opened Lists
  import opened Storage

  /** `Partial<ProgressEntry>`: the fields a patch carries. */
  datatype EntryPatch = EntryPatch(
    id: Option<string>,
    date: Option<string>,
    wordsReviewed: Option<int>,
    quizzesCompleted: Option<int>)

  /** `{ ...a, ...patch }`: fields the patch carries replace those of `a`. */
  function MergeEntry(e: ProgressEntry, p: EntryPatch): (r: ProgressEntry)
    ensures p == EntryPatch(None, None, None, None) ==> r == e
    ensures p.id.Some? && p.date.Some? && p.wordsReviewed.Some? && p.quizzesCompleted.Some? ==>
              r == ProgressEntry(p.id.value, p.date.value, p.wordsReviewed.value, p.quizzesCompleted.value)
    ensures p.id.Some? ==> r.id == p.id.value
    ensures p.id.None? ==> r.id == e.id
    ensures p.date.Some? ==> r.date == p.date.value
    ensures p.date.None? ==> r.date == e.date
    ensures p.wordsReviewed.Some? ==> r.wordsReviewed == p.wordsReviewed.value
    ensures p.wordsReviewed.None? ==> r.wordsReviewed == e.wordsReviewed
    ensures p.quizzesCompleted.Some? ==> r.quizzesCompleted == p.quizzesCompleted.value
    ensures p.quizzesCompleted.None? ==> r.quizzesCompleted == e.quizzesCompleted
  {
    ProgressEntry(
      if p.id.Some? then p.id.value else e.id,
      if p.date.Some? then p.date.value else e.date,
      if p.wordsReviewed.Some? then p.wordsReviewed.value else e.wordsReviewed,
      if p.quizzesCompleted.Some? then p.quizzesCompleted.value else e.quizzesCompleted)
  }

  /** An empty patch changes nothing, and applying a patch twice is applying it once. */
  lemma MergeLaws(e: ProgressEntry, p: EntryPatch)
    ensures MergeEntry(e, EntryPatch(None, None, None, None)) == e
    ensures MergeEntry(MergeEntry(e, p), p) == MergeEntry(e, p)
  {
  }

  /** `addProgressEntry`: the new entry goes at the end. */
  function AddProgressEntry(store: Store, entry: ProgressEntry): (w: Written<ProgressEntry>)
    ensures w.list == ReadProgress(store) + [entry]
    ensures ReadProgress(w.store) == w.list
    ensures ReadAttempts(w.store) == ReadAttempts(store) && ReadIds(w.store) == ReadIds(store)
    ensures OnlyKeyChanged(store, w.store, ProgressKey)
  {
    var next := ReadProgress(store) + [entry];
    Written(WriteProgress(store, next), next)
  }

  /** `updateProgressEntry`: every entry with the id gets the patch, every
      other entry stays where and as it was. */
  function UpdateProgressEntry(store: Store, id: string, patch: EntryPatch): (w: Written<ProgressEntry>)
    ensures var prev := ReadProgress(store);
            && |w.list| == |prev|
            && (forall k :: 0 <= k < |prev| && prev[k].id != id ==> w.list[k] == prev[k])
            && (forall k :: 0 <= k < |prev| && prev[k].id == id ==> w.list[k] == MergeEntry(prev[k], patch))
    ensures ReadProgress(w.store) == w.list
    ensures ReadAttempts(w.store) == ReadAttempts(store) && ReadIds(w.store) == ReadIds(store)
    ensures OnlyKeyChanged(store, w.store, ProgressKey)
  {
    var next := UpdateWhere(ReadProgress(store), (e: ProgressEntry) => e.id == id,
                            (e: ProgressEntry) => MergeEntry(e, patch));
    Written(WriteProgress(store, next), next)
  }

  /** `removeProgressEntry`: drops every entry with the id and keeps the
      others, each once and in stored order. */
  function RemoveProgressEntry(store: Store, id: string): (w: Written<ProgressEntry>)
    ensures forall k :: 0 <= k < |w.list| ==> w.list[k].id != id && w.list[k] in ReadProgress(store)
    ensures forall k :: 0 <= k < |ReadProgress(store)| && ReadProgress(store)[k].id != id
              ==> ReadProgress(store)[k] in w.list
    ensures (forall k :: 0 <= k < |ReadProgress(store)| ==> ReadProgress(store)[k].id != id)
              ==> w.list == ReadProgress(store)
    ensures exists idx :: SubseqAt(ReadProgress(store), w.list, idx)
              && forall i :: 0 <= i < |ReadProgress(store)| ==> (i in idx <==> ReadProgress(store)[i].id != id)
    ensures ReadProgress(w.store) == w.list
    ensures ReadAttempts(w.store) == ReadAttempts(store) && ReadIds(w.store) == ReadIds(store)
    ensures OnlyKeyChanged(store, w.store, ProgressKey)
  {
    var other := (e: ProgressEntry) => e.id != id;
    KeepInOrder(ReadProgress(store), other);
    var next := Keep(ReadProgress(store), other);
    Written(WriteProgress(store, next), next)
  }

  /** `clearProgressHistory`: the stored list is empty afterwards. */
  function ClearProgressHistory(store: Store): (r: Store)
    ensures ReadProgress(r) == []
    ensures ReadAttempts(r) == ReadAttempts(store) && ReadIds(r) == ReadIds(store)
    ensures OnlyKeyChanged(store, r, ProgressKey)
  {
    WriteProgress(store, [])
  }

  /** Removing an entry that was just added leaves what removing it before
      would have left. */
  lemma RemoveUndoesAdd(store: Store, entry: ProgressEntry)
    ensures RemoveProgressEntry(AddProgressEntry(store, entry).store, entry.id).list
            == RemoveProgressEntry(store, entry.id).list
  {
    KeepAppend(ReadProgress(store), [entry], (e: ProgressEntry) => e.id != entry.id);
  }

  /** Removing twice is removing once. */
  lemma RemoveIdempotent(store: Store, id: string)
    ensures RemoveProgressEntry(RemoveProgressEntry(store, id).store, id).list == RemoveProgressEntry(store, id).list
  {
    KeepIdempotent(ReadProgress(store), (e: ProgressEntry) => e.id != id);
  }

  /** Updating an id that no entry carries rewrites the same list. */
  lemma UpdateAbsentId(store: Store, id: string, patch: EntryPatch)
    requires forall k :: 0 <= k < |ReadProgress(store)| ==> ReadProgress(store)[k].id != id
    ensures UpdateProgressEntry(store, id, patch).list == ReadProgress(store)
  {
  }
}
