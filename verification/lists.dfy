/** Sequence operations the services are built from: order-preserving
    filtering, patching the entries that match a key, and de-duplication that
    keeps first occurrences (what `Array.from(new Set(xs))` does). */
module Lists {

  /** `xs.filter(keep)`: the entries satisfying `keep`, in their original order. */
  function Keep<T>(xs: seq<T>, keep: T -> bool): (r: seq<T>)
    ensures |r| <= |xs|
    ensures forall k :: 0 <= k < |r| ==> r[k] in xs && keep(r[k])
    ensures forall k :: 0 <= k < |xs| && keep(xs[k]) ==> xs[k] in r
    ensures (forall k :: 0 <= k < |xs| ==> keep(xs[k])) ==> r == xs
    decreases |xs|
  {
    if |xs| == 0 then []
    else
      var init := Keep(xs[..|xs| - 1], keep);
      var last := xs[|xs| - 1];
      assert xs == xs[..|xs| - 1] + [last];
      if keep(last) then init + [last] else init
  }

  /** `r` lists the entries of `xs` at the strictly increasing positions
      `idx`: a subsequence of `xs`, in the order of `xs`. */
  ghost predicate SubseqAt<T>(xs: seq<T>, r: seq<T>, idx: seq<nat>) {
    && |idx| == |r|
    && (forall i, j :: 0 <= i < j < |idx| ==> idx[i] < idx[j])
    && (forall k :: 0 <= k < |idx| ==> idx[k] < |xs| && r[k] == xs[idx[k]])
  }

  /** The positions of the entries satisfying `keep`, in increasing order. */
  ghost function Passing<T>(xs: seq<T>, keep: T -> bool): seq<nat>
    decreases |xs|
  {
    if |xs| == 0 then []
    else Passing(xs[..|xs| - 1], keep) + (if keep(xs[|xs| - 1]) then [|xs| - 1] else [])
  }

  /** The passing positions are exactly those whose entry satisfies `keep`. */
  ghost predicate PassingExact<T>(xs: seq<T>, keep: T -> bool) {
    forall i :: 0 <= i < |xs| ==> (i in Passing(xs, keep) <==> keep(xs[i]))
  }

  /** Filtering keeps exactly the entries that pass, each once and in their
      original order: the result is `xs` read at the passing positions. */
  lemma {:induction false} KeepInOrder<T>(xs: seq<T>, keep: T -> bool)
    ensures SubseqAt(xs, Keep(xs, keep), Passing(xs, keep))
    ensures forall i :: 0 <= i < |xs| ==> (i in Passing(xs, keep) <==> keep(xs[i]))
    decreases |xs|
  {
    if |xs| > 0 {
      KeepInOrder(xs[..|xs| - 1], keep);
      KeepSubseqStep(xs, keep);
      PassingExactStep(xs, keep);
    }
  }

  lemma KeepSubseqStep<T>(xs: seq<T>, keep: T -> bool)
    requires |xs| > 0
    requires SubseqAt(xs[..|xs| - 1], Keep(xs[..|xs| - 1], keep), Passing(xs[..|xs| - 1], keep))
    ensures SubseqAt(xs, Keep(xs, keep), Passing(xs, keep))
  {
    var n := |xs| - 1;
    var init := xs[..n];
    var r0, idx0 := Keep(init, keep), Passing(init, keep);
    SubseqExtend(xs, r0, idx0);
    if keep(xs[n]) {
      assert Keep(xs, keep) == r0 + [xs[n]] && Passing(xs, keep) == idx0 + [n];
    } else {
      assert Keep(xs, keep) == r0 && Passing(xs, keep) == idx0;
    }
  }

  lemma PassingExactStep<T>(xs: seq<T>, keep: T -> bool)
    requires |xs| > 0
    requires PassingExact(xs[..|xs| - 1], keep)
    requires SubseqAt(xs[..|xs| - 1], Keep(xs[..|xs| - 1], keep), Passing(xs[..|xs| - 1], keep))
    ensures PassingExact(xs, keep)
  {
    SubseqExtend(xs, Keep(xs[..|xs| - 1], keep), Passing(xs[..|xs| - 1], keep));
    forall i | 0 <= i < |xs| ensures (i in Passing(xs, keep) <==> keep(xs[i])) {
      if i < |xs| - 1 {
        assert xs[..|xs| - 1][i] == xs[i];
      }
      PassingUnfold(xs, keep, i);
    }
  }

  /** The passing positions of `xs` are those of all but its last entry, and
      the last position when its entry passes. */
  lemma PassingUnfold<T>(xs: seq<T>, keep: T -> bool, i: int)
    requires |xs| > 0
    ensures i in Passing(xs, keep) <==>
            i in Passing(xs[..|xs| - 1], keep) || (i == |xs| - 1 && keep(xs[|xs| - 1]))
  {
    var n := |xs| - 1;
    var extra: seq<nat> := if keep(xs[n]) then [n] else [];
    assert Passing(xs, keep) == Passing(xs[..n], keep) + extra;
    InAppend(Passing(xs[..n], keep), extra, i);
  }

  /** Membership in a concatenation of position lists. */
  lemma InAppend(a: seq<nat>, b: seq<nat>, x: int)
    ensures x in a + b <==> x in a || x in b
  {
  }

  /** A subsequence of all but the last entry is a subsequence of the whole,
      and stays one with the last entry appended; the last position was not
      used before. */
  lemma SubseqExtend<T>(xs: seq<T>, r: seq<T>, idx: seq<nat>)
    requires |xs| > 0 && SubseqAt(xs[..|xs| - 1], r, idx)
    ensures SubseqAt(xs, r, idx)
    ensures SubseqAt(xs, r + [xs[|xs| - 1]], idx + [|xs| - 1])
    ensures |xs| - 1 !in idx
  {
    var n := |xs| - 1;
    forall k | 0 <= k < |idx| ensures idx[k] < n && r[k] == xs[idx[k]] {
      assert xs[..n][idx[k]] == xs[idx[k]];
    }
  }

  /** Number of entries satisfying `p`. */
  function Count<T>(xs: seq<T>, p: T -> bool): (n: nat)
    ensures n <= |xs|
    decreases |xs|
  {
    if |xs| == 0 then 0
    else Count(xs[..|xs| - 1], p) + (if p(xs[|xs| - 1]) then 1 else 0)
  }

  /** Filtering drops exactly the entries that fail the test. */
  lemma {:induction false} KeepLength<T>(xs: seq<T>, keep: T -> bool)
    ensures |Keep(xs, keep)| == Count(xs, keep)
    decreases |xs|
  {
    if |xs| > 0 {
      KeepLength(xs[..|xs| - 1], keep);
    }
  }

  /** Filtering distributes over concatenation, so the relative order of the
      kept entries is that of the input. */
  lemma {:induction false} KeepAppend<T>(xs: seq<T>, ys: seq<T>, keep: T -> bool)
    ensures Keep(xs + ys, keep) == Keep(xs, keep) + Keep(ys, keep)
    decreases |ys|
  {
    if |ys| == 0 {
      assert xs + ys == xs;
    } else {
      var ys' := ys[..|ys| - 1];
      assert (xs + ys)[..|xs + ys| - 1] == xs + ys';
      KeepAppend(xs, ys', keep);
    }
  }

  /** Filtering twice with the same test is filtering once. */
  lemma {:induction false} KeepIdempotent<T>(xs: seq<T>, keep: T -> bool)
    ensures Keep(Keep(xs, keep), keep) == Keep(xs, keep)
  {
    var r := Keep(xs, keep);
    assert forall k :: 0 <= k < |r| ==> r[k] in r;
  }

  /** `xs.map(x => matches(x) ? patch(x) : x)`. */
  function UpdateWhere<T>(xs: seq<T>, matches: T -> bool, patch: T -> T): (r: seq<T>)
    ensures |r| == |xs|
    ensures forall k :: 0 <= k < |xs| && !matches(xs[k]) ==> r[k] == xs[k]
    ensures forall k :: 0 <= k < |xs| && matches(xs[k]) ==> r[k] == patch(xs[k])
  {
    seq(|xs|, k requires 0 <= k < |xs| => if matches(xs[k]) then patch(xs[k]) else xs[k])
  }

  /** No entry occurs twice. */
  ghost predicate NoDups<T>(xs: seq<T>) {
    forall i, j :: 0 <= i < j < |xs| ==> xs[i] != xs[j]
  }

  /** `Array.from(new Set(xs))`: each distinct entry once, at the position of
      its first occurrence. */
  function Dedup<T(==)>(xs: seq<T>): (r: seq<T>)
    ensures |r| <= |xs|
    ensures forall k :: 0 <= k < |r| ==> r[k] in xs
    ensures forall k :: 0 <= k < |xs| ==> xs[k] in r
    ensures NoDups(r)
    decreases |xs|
  {
    if |xs| == 0 then []
    else
      var init := Dedup(xs[..|xs| - 1]);
      var last := xs[|xs| - 1];
      assert xs == xs[..|xs| - 1] + [last];
      if last in init then init else init + [last]
  }

  /** The positions holding the first occurrence of their entry, in
      increasing order. */
  ghost function Firsts<T>(xs: seq<T>): seq<nat>
    decreases |xs|
  {
    if |xs| == 0 then []
    else Firsts(xs[..|xs| - 1]) + (if xs[|xs| - 1] in xs[..|xs| - 1] then [] else [|xs| - 1])
  }

  /** The first-occurrence positions are exactly those whose entry does not
      occur earlier. */
  ghost predicate FirstsExact<T>(xs: seq<T>) {
    forall i :: 0 <= i < |xs| ==> (i in Firsts(xs) <==> xs[i] !in xs[..i])
  }

  /** De-duplication keeps exactly the first occurrence of each entry, in the
      original order: the result is `xs` read at the positions `i` whose entry
      does not occur in `xs[..i]`. */
  lemma {:induction false} DedupInOrder<T>(xs: seq<T>)
    ensures SubseqAt(xs, Dedup(xs), Firsts(xs))
    ensures forall i :: 0 <= i < |xs| ==> (i in Firsts(xs) <==> xs[i] !in xs[..i])
    decreases |xs|
  {
    if |xs| > 0 {
      DedupInOrder(xs[..|xs| - 1]);
      DedupSubseqStep(xs);
      FirstsExactStep(xs);
    }
  }

  lemma DedupSubseqStep<T>(xs: seq<T>)
    requires |xs| > 0
    requires SubseqAt(xs[..|xs| - 1], Dedup(xs[..|xs| - 1]), Firsts(xs[..|xs| - 1]))
    ensures SubseqAt(xs, Dedup(xs), Firsts(xs))
  {
    var n := |xs| - 1;
    var init := xs[..n];
    var r0, idx0 := Dedup(init), Firsts(init);
    SubseqExtend(xs, r0, idx0);
    DedupStep(xs);
    if xs[n] in init {
      assert Firsts(xs) == idx0;
    } else {
      assert Firsts(xs) == idx0 + [n];
    }
  }

  lemma FirstsExactStep<T>(xs: seq<T>)
    requires |xs| > 0
    requires FirstsExact(xs[..|xs| - 1])
    ensures FirstsExact(xs)
  {
    var n := |xs| - 1;
    var init := xs[..n];
    FirstsBelow(init);
    assert n !in Firsts(init);
    forall i | 0 <= i < |xs| ensures (i in Firsts(xs) <==> xs[i] !in xs[..i]) {
      if i < n {
        assert i in Firsts(init) <==> init[i] !in init[..i];
        assert init[i] == xs[i] && init[..i] == xs[..i];
      }
      FirstsUnfold(xs, i);
    }
  }

  /** De-duplicating one more entry appends it exactly when it is new. */
  lemma DedupStep<T>(xs: seq<T>)
    requires |xs| > 0
    ensures var init := xs[..|xs| - 1];
            Dedup(xs) == if xs[|xs| - 1] in init then Dedup(init) else Dedup(init) + [xs[|xs| - 1]]
  {
    var init := xs[..|xs| - 1];
    assert xs[|xs| - 1] in Dedup(init) <==> xs[|xs| - 1] in init;
  }

  /** The first-occurrence positions of `xs` are those of all but its last
      entry, and the last position when its entry is new. */
  lemma FirstsUnfold<T>(xs: seq<T>, i: int)
    requires |xs| > 0
    ensures i in Firsts(xs) <==>
            i in Firsts(xs[..|xs| - 1]) || (i == |xs| - 1 && xs[|xs| - 1] !in xs[..|xs| - 1])
  {
    var n := |xs| - 1;
    var extra: seq<nat> := if xs[n] in xs[..n] then [] else [n];
    assert Firsts(xs) == Firsts(xs[..n]) + extra;
    InAppend(Firsts(xs[..n]), extra, i);
  }

  /** Every first-occurrence position is a position of the list. */
  lemma {:induction false} FirstsBelow<T>(xs: seq<T>)
    ensures forall k :: 0 <= k < |Firsts(xs)| ==> Firsts(xs)[k] < |xs|
    decreases |xs|
  {
    if |xs| > 0 {
      FirstsBelow(xs[..|xs| - 1]);
    }
  }

  /** A list without duplicates is left as it is. */
  lemma {:induction false} DedupOfDistinct<T>(xs: seq<T>)
    requires NoDups(xs)
    ensures Dedup(xs) == xs
    decreases |xs|
  {
    if |xs| > 0 {
      var init := xs[..|xs| - 1];
      assert NoDups(init);
      DedupOfDistinct(init);
      assert xs[|xs| - 1] !in init by {
        forall k | 0 <= k < |init| ensures init[k] != xs[|xs| - 1] {
          assert init[k] == xs[k];
        }
      }
      assert xs == init + [xs[|xs| - 1]];
    }
  }

  /** Appending a new entry to a duplicate-free list keeps it duplicate-free. */
  lemma AppendFresh<T>(xs: seq<T>, x: T)
    requires NoDups(xs) && x !in xs
    ensures NoDups(xs + [x])
  {
    var ys := xs + [x];
    forall i, j | 0 <= i < j < |ys| ensures ys[i] != ys[j] {
      if j == |xs| {
        assert ys[i] == xs[i];
      } else {
        assert ys[i] == xs[i] && ys[j] == xs[j];
      }
    }
  }

  /** A filtered duplicate-free list is duplicate-free. */
  lemma {:induction false} KeepDistinct<T>(xs: seq<T>, keep: T -> bool)
    requires NoDups(xs)
    ensures NoDups(Keep(xs, keep))
    decreases |xs|
  {
    if |xs| > 0 {
      var init := xs[..|xs| - 1];
      var last := xs[|xs| - 1];
      assert NoDups(init);
      KeepDistinct(init, keep);
      if keep(last) {
        assert last !in init by {
          forall k | 0 <= k < |init| ensures init[k] != last {
            assert init[k] == xs[k];
          }
        }
        AppendFresh(Keep(init, keep), last);
      }
    }
  }
}
