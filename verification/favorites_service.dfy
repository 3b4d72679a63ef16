/** The favourite vocabulary ids under `ll_favorites`. Every write goes
    through `setFavorites`, which stores the list without duplicates, first
    occurrences first. */
module FavoritesService {
  import opened Lists
  import opened Storage

  /** `setFavorites`: stores the ids de-duplicated, keeping first occurrences
      in order. */
  function SetFavorites(store: Store, ids: seq<string>): (r: Store)
    ensures NoDups(ReadIds(r))
    ensures forall x :: x in ReadIds(r) <==> x in ids
    ensures NoDups(ids) ==> ReadIds(r) == ids
    ensures ReadAttempts(r) == ReadAttempts(store) && ReadProgress(r) == ReadProgress(store)
    ensures OnlyKeyChanged(store, r, FavoritesKey)
  {
    DistinctUnchanged(ids);
    WriteIds(store, Dedup(ids))
  }

  /** `setFavorites` keeps the first occurrence of each id in its original
      order: the stored list is `ids` read at the positions whose id does not
      occur earlier. */
  lemma SetFavoritesInOrder(store: Store, ids: seq<string>)
    ensures SubseqAt(ids, ReadIds(SetFavorites(store, ids)), Firsts(ids))
    ensures forall i :: 0 <= i < |ids| ==> (i in Firsts(ids) <==> ids[i] !in ids[..i])
  {
    DedupInOrder(ids);
  }

  lemma DistinctUnchanged(ids: seq<string>)
    ensures NoDups(ids) ==> Dedup(ids) == ids
  {
    if NoDups(ids) {
      DedupOfDistinct(ids);
    }
  }

  /** `addFavorite`: the previous favourites with the id added once. */
  function AddFavorite(store: Store, id: string): (w: Written<string>)
    ensures id in w.list
    ensures forall x :: x in w.list <==> x in ReadIds(store) || x == id
    ensures NoDups(w.list)
    ensures NoDups(ReadIds(store)) && id in ReadIds(store) ==> w.list == ReadIds(store)
    ensures NoDups(ReadIds(store)) && id !in ReadIds(store) ==> w.list == ReadIds(store) + [id]
    ensures ReadIds(w.store) == w.list
    ensures ReadAttempts(w.store) == ReadAttempts(store) && ReadProgress(w.store) == ReadProgress(store)
  {
    var cur := ReadIds(store);
    var next := Dedup(cur + [id]);
    AddContents(cur, id);
    AddPresent(cur, id);
    AddAbsent(cur, id);
    Written(SetFavorites(store, next), next)
  }

  lemma AddContents(cur: seq<string>, id: string)
    ensures var next := Dedup(cur + [id]);
            id in next && NoDups(next) && forall x :: x in next <==> x in cur || x == id
  {
    var xs := cur + [id];
    var next := Dedup(xs);
    assert xs[|cur|] == id;
    forall x | x in next ensures x in cur || x == id {
      var k :| 0 <= k < |next| && next[k] == x;
    }
    forall x | x in cur ensures x in next {
      var k :| 0 <= k < |cur| && cur[k] == x;
      assert xs[k] == x;
    }
  }

  /** De-duplicating a duplicate-free list with one of its own entries appended
      gives the list back. */
  lemma AddPresent(cur: seq<string>, id: string)
    ensures NoDups(cur) && id in cur ==> Dedup(cur + [id]) == cur
  {
    if NoDups(cur) && id in cur {
      assert (cur + [id])[..|cur|] == cur;
      DedupOfDistinct(cur);
    }
  }

  /** De-duplicating a duplicate-free list with a new entry appended leaves
      the list with the entry at the end. */
  lemma AddAbsent(cur: seq<string>, id: string)
    ensures NoDups(cur) && id !in cur ==> Dedup(cur + [id]) == cur + [id]
  {
    if NoDups(cur) && id !in cur {
      AppendFresh(cur, id);
      DedupOfDistinct(cur + [id]);
    }
  }

  /** `removeFavorite`: the previous favourites without the id, in order. The
      returned list is what was filtered; the store receives it
      de-duplicated, and the two agree whenever the stored list had no
      duplicates, which every write through this service ensures. */
  function RemoveFavorite(store: Store, id: string): (w: Written<string>)
    ensures id !in w.list
    ensures forall x :: x in w.list <==> x in ReadIds(store) && x != id
    ensures ReadIds(w.store) == Dedup(w.list)
    ensures NoDups(ReadIds(store)) ==> ReadIds(w.store) == w.list
    ensures ReadAttempts(w.store) == ReadAttempts(store) && ReadProgress(w.store) == ReadProgress(store)
  {
    var cur := ReadIds(store);
    var next := Keep(cur, (x: string) => x != id);
    RemoveKeepsDistinct(cur, id);
    Written(SetFavorites(store, next), next)
  }

  /** `removeFavorite` keeps every other id in its original order: the
      returned list is the stored one read at the positions whose id differs. */
  lemma RemoveFavoriteInOrder(store: Store, id: string)
    ensures var cur, other := ReadIds(store), (x: string) => x != id;
            && SubseqAt(cur, RemoveFavorite(store, id).list, Passing(cur, other))
            && forall i :: 0 <= i < |cur| ==> (i in Passing(cur, other) <==> cur[i] != id)
  {
    KeepInOrder(ReadIds(store), (x: string) => x != id);
  }

  lemma RemoveKeepsDistinct(cur: seq<string>, id: string)
    ensures NoDups(cur) ==> Dedup(Keep(cur, (x: string) => x != id)) == Keep(cur, (x: string) => x != id)
  {
    if NoDups(cur) {
      KeepDistinct(cur, (x: string) => x != id);
      DedupOfDistinct(Keep(cur, (x: string) => x != id));
    }
  }

  /** `toggleFavorite`: removes the id when present, adds it otherwise. */
  function ToggleFavorite(store: Store, id: string): (w: Written<string>)
    ensures id in ReadIds(w.store) <==> id !in ReadIds(store)
    ensures forall x :: x != id ==> (x in ReadIds(w.store) <==> x in ReadIds(store))
    ensures forall x :: x in w.list <==> (if x == id then id !in ReadIds(store) else x in ReadIds(store))
    ensures NoDups(ReadIds(store)) ==> ReadIds(w.store) == w.list
  {
    if id in ReadIds(store) then RemoveFavorite(store, id) else AddFavorite(store, id)
  }

  /** `isFavorite`. */
  function IsFavorite(store: Store, id: string): (b: bool)
    ensures b <==> exists k :: 0 <= k < |ReadIds(store)| && ReadIds(store)[k] == id
  {
    id in ReadIds(store)
  }

  /** `clearFavorites`: stores the empty list. */
  function ClearFavorites(store: Store): (r: Store)
    ensures ReadIds(r) == []
    ensures ReadAttempts(r) == ReadAttempts(store) && ReadProgress(r) == ReadProgress(store)
  {
    SetFavorites(store, [])
  }

  /** What `isFavorite(x)` reports after `addFavorite(id)`: true for `id`,
      unchanged for every other id. */
  lemma IsFavoriteAfterAdd(store: Store, id: string, x: string)
    ensures IsFavorite(AddFavorite(store, id).store, x) == (x == id || IsFavorite(store, x))
  {
    AddedMembership(store, id, x);
  }

  /** What `isFavorite(x)` reports after `removeFavorite(id)`: false for `id`,
      unchanged for every other id. */
  lemma IsFavoriteAfterRemove(store: Store, id: string, x: string)
    ensures IsFavorite(RemoveFavorite(store, id).store, x) == (x != id && IsFavorite(store, x))
  {
    RemovedMembership(store, id, x);
  }

  /** What `isFavorite(x)` reports after `toggleFavorite(id)`: flipped for
      `id`, unchanged for every other id. */
  lemma IsFavoriteAfterToggle(store: Store, id: string, x: string)
    ensures IsFavorite(ToggleFavorite(store, id).store, x)
            == (if x == id then !IsFavorite(store, x) else IsFavorite(store, x))
  {
    ToggledMembership(store, id, x);
  }

  /** After `clearFavorites` no id is a favourite. */
  lemma IsFavoriteAfterClear(store: Store, x: string)
    ensures !IsFavorite(ClearFavorites(store), x)
  {
    assert ReadIds(ClearFavorites(store)) == [];
  }

  /** After `addFavorite(id)` the stored favourites are the earlier ones and `id`. */
  lemma AddedMembership(store: Store, id: string, x: string)
    ensures x in ReadIds(AddFavorite(store, id).store) <==> x in ReadIds(store) || x == id
  {
    var w := AddFavorite(store, id);
    assert ReadIds(w.store) == w.list;
  }

  /** After `removeFavorite(id)` the stored favourites are the earlier ones but `id`. */
  lemma RemovedMembership(store: Store, id: string, x: string)
    ensures x in ReadIds(RemoveFavorite(store, id).store) <==> x in ReadIds(store) && x != id
  {
    var w := RemoveFavorite(store, id);
    assert ReadIds(w.store) == Dedup(w.list);
    assert x in Dedup(w.list) <==> x in w.list;
  }

  /** Toggling twice restores the set of favourites. */
  lemma ToggleTwice(store: Store, id: string)
    ensures forall x :: x in ReadIds(ToggleFavorite(ToggleFavorite(store, id).store, id).store) <==> x in ReadIds(store)
  {
    forall x ensures x in ReadIds(ToggleFavorite(ToggleFavorite(store, id).store, id).store) <==> x in ReadIds(store) {
      ToggleTwiceAt(store, id, x);
    }
  }

  lemma ToggleTwiceAt(store: Store, id: string, x: string)
    ensures x in ReadIds(ToggleFavorite(ToggleFavorite(store, id).store, id).store) <==> x in ReadIds(store)
  {
    var once := ToggleFavorite(store, id).store;
    ToggledMembership(store, id, x);
    ToggledMembership(once, id, x);
  }

  /** After `toggleFavorite(id)`, `id` has flipped and every other id stays. */
  lemma ToggledMembership(store: Store, id: string, x: string)
    ensures x in ReadIds(ToggleFavorite(store, id).store) <==> (if x == id then x !in ReadIds(store) else x in ReadIds(store))
  {
    var after := ToggleFavorite(store, id).store;
    if x == id {
      assert id in ReadIds(after) <==> id !in ReadIds(store);
    } else {
      assert x in ReadIds(after) <==> x in ReadIds(store);
    }
  }

  /** Adding is idempotent: adding the same id again returns and stores the
      same list. */
  lemma AddIdempotent(store: Store, id: string)
    ensures var once := AddFavorite(store, id);
            AddFavorite(once.store, id).list == once.list
  {
  }
}
