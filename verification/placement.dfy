/** Where `combineImageList` (scripts/utility.js:488-542) puts each entry,
    stated as an independent reference merge that consumes both lists from
    the front, and what follows from it: when the lists agree on the order of
    their shared entries, the merge is a common supersequence of both. */
module Placement {
  import opened Seqs
  import opened Merge

  /** The entries of `o` in front of the first occurrence of `x` (all of
      `o` when there is none). */
  function Before(o: seq<string>, x: string): seq<string> {
    if |o| == 0 || o[0] == x then [] else [o[0]] + Before(o[1..], x)
  }

  /** The entries of `o` behind the first occurrence of `x` (none when there
      is none). */
  function After(o: seq<string>, x: string): seq<string> {
    if |o| == 0 then [] else if o[0] == x then o[1..] else After(o[1..], x)
  }

  /** The reference merge, consuming `newList` from the front. `pending`
      holds the new entries met since the last anchor. A new entry that
      occurs in the remaining `oldList` is an anchor: the old entries in
      front of it, the pending run and the anchor are written, and the merge
      goes on with the old entries behind it. Any other new entry joins the
      pending run. When `newList` runs out, the remaining old entries come
      first, then the pending run. */
  function Interleave(newList: seq<string>, oldList: seq<string>, pending: seq<string>): seq<string>
    decreases |newList|
  {
    if |newList| == 0 then oldList + pending
    else if newList[0] !in oldList then Interleave(newList[1..], oldList, pending + [newList[0]])
    else Before(oldList, newList[0]) + pending + [newList[0]] + Interleave(newList[1..], After(oldList, newList[0]), [])
  }

  /** The cursors of the pass over a duplicate-free `oldList`: an old entry
      has been written iff it lies before `oldLast`, and the pending run
      holds no entry of the unwritten old tail. */
  predicate Placed(newList: seq<string>, oldList: seq<string>, st: Pass) {
    && st.left <= st.right <= |newList|
    && st.oldLast <= |oldList|
    && (!st.trailing ==> st.left == st.right)
    && (forall y :: y in oldList ==> (y in st.combined <==> y in oldList[..st.oldLast]))
    && (forall j :: st.left <= j < st.right ==> newList[j] !in oldList[st.oldLast..])
  }

  /** What the pass still has to write, by the reference merge: the new
      entries from `right` on against the old entries from `oldLast` on,
      with the run `newList[left..right]` pending. */
  function Remaining(newList: seq<string>, oldList: seq<string>, st: Pass): seq<string>
    requires st.left <= st.right <= |newList| && st.oldLast <= |oldList|
  {
    Interleave(newList[st.right..], oldList[st.oldLast..], newList[st.left..st.right])
  }

  /** In a duplicate-free list an entry of the tail from `lo` on is not in
      the prefix before `lo`, and is first found behind it. */
  lemma TailEntry(oldList: seq<string>, lo: nat, x: string)
    requires NoDups(oldList)
    requires lo <= |oldList| && x in oldList[lo..]
    ensures x !in oldList[..lo]
    ensures var i := IndexOf(oldList, x);
      lo <= i < |oldList| && oldList[i] == x && x !in oldList[lo..i]
  {
    var t :| 0 <= t < |oldList[lo..]| && oldList[lo..][t] == x;
    assert oldList[lo + t] == x;
    assert forall j :: 0 <= j < lo ==> oldList[..lo][j] == oldList[j];
    IndexOfFirst(oldList, x, lo + t);
    assert oldList[lo..lo + t] == oldList[..lo + t][lo..];
  }

  /** An entry that is not an anchor only joins the pending run. */
  lemma SkipPlaces(newList: seq<string>, oldList: seq<string>, st: Pass)
    requires Placed(newList, oldList, st)
    requires st.right < |newList| && newList[st.right] !in oldList[st.oldLast..]
    ensures Step(newList, oldList, st) == st.(right := st.right + 1, trailing := true)
    ensures Placed(newList, oldList, Step(newList, oldList, st))
  {
    assert oldList == oldList[..st.oldLast] + oldList[st.oldLast..];
  }

  /** Past an entry that is not an anchor the reference merge only grows
      its pending run. */
  lemma SkipConsumes(newList: seq<string>, oldList: seq<string>, st: Pass)
    requires st.left <= st.right < |newList| && st.oldLast <= |oldList|
    requires newList[st.right] !in oldList[st.oldLast..]
    ensures Remaining(newList, oldList, st.(right := st.right + 1, trailing := true)) == Remaining(newList, oldList, st)
  {
    var n := newList[st.right..];
    assert n[0] == newList[st.right] && n[1..] == newList[st.right + 1..];
    assert newList[st.left..st.right] + [n[0]] == newList[st.left..st.right + 1];
  }

  /** After a flush at `oldList[i]` the old entries written are those up to
      and including `i`. */
  lemma FlushWritten(newList: seq<string>, oldList: seq<string>, st: Pass, i: nat)
    requires Placed(newList, oldList, st)
    requires st.right < |newList| && st.oldLast <= i < |oldList| && newList[st.right] == oldList[i]
    ensures forall y :: y in oldList ==>
      (y in st.combined + oldList[st.oldLast..i] + newList[st.left..st.right + 1] <==> y in oldList[..i + 1])
  {
    var c, gap, run := st.combined, oldList[st.oldLast..i], newList[st.left..st.right + 1];
    assert oldList[..i + 1] == oldList[..st.oldLast] + gap + [oldList[i]];
    assert oldList == oldList[..st.oldLast] + oldList[st.oldLast..];
    assert run == newList[st.left..st.right] + [oldList[i]];
    forall y | y in newList[st.left..st.right] && y in oldList ensures y in oldList[..st.oldLast] {
      var j :| 0 <= j < st.right - st.left && newList[st.left..st.right][j] == y;
      assert newList[st.left + j] == y;
    }
  }

  /** Around the first occurrence `o[m]` of `x`, `Before` and `After` are
      the slices on either side. */
  lemma {:induction false} SplitAt(o: seq<string>, x: string, m: nat)
    requires m < |o| && o[m] == x && x !in o[..m]
    ensures Before(o, x) == o[..m] && After(o, x) == o[m + 1..]
    decreases m
  {
    if m > 0 {
      assert o[0] in o[..m];
      assert o[1..][..m - 1] == o[1..m];
      SplitAt(o[1..], x, m - 1);
      assert o[..m] == [o[0]] + o[1..m];
      assert o[1..][m..] == o[m + 1..];
    }
  }

  /** The reference merge at an anchor `n[0] == o[m]`: the old entries in
      front of it come first. */
  lemma InterleaveAtAnchor(n: seq<string>, o: seq<string>, pending: seq<string>, m: nat)
    requires 0 < |n| && m < |o| && o[m] == n[0] && n[0] !in o[..m]
    ensures Interleave(n, o, pending) == o[..m] + (pending + [n[0]]) + Interleave(n[1..], o[m + 1..], [])
  {
    SplitAt(o, n[0], m);
  }

  /** The flush at the anchor `oldList[i]` consumes the front of the
      reference merge. */
  lemma FlushConsumes(newList: seq<string>, oldList: seq<string>, st: Pass, i: nat)
    requires st.left <= st.right < |newList| && st.oldLast <= i < |oldList|
    requires oldList[i] == newList[st.right] && newList[st.right] !in oldList[st.oldLast..i]
    ensures Remaining(newList, oldList, st)
      == oldList[st.oldLast..i] + newList[st.left..st.right + 1] + Interleave(newList[st.right + 1..], oldList[i + 1..], [])
  {
    var n, o, pending := newList[st.right..], oldList[st.oldLast..], newList[st.left..st.right];
    var m := i - st.oldLast;
    assert n[0] == newList[st.right] && o[m] == oldList[i];
    assert o[..m] == oldList[st.oldLast..i];
    InterleaveAtAnchor(n, o, pending, m);
    assert pending + [n[0]] == newList[st.left..st.right + 1];
    assert n[1..] == newList[st.right + 1..];
    assert o[m + 1..] == oldList[i + 1..];
  }

  /** What is written plus what the reference merge has left is the same
      before and after a flush at the anchor `oldList[i]`. */
  lemma FlushKeepsTotal(newList: seq<string>, oldList: seq<string>, st: Pass, i: nat)
    requires st.left <= st.right < |newList| && st.oldLast <= i < |oldList|
    requires oldList[i] == newList[st.right] && newList[st.right] !in oldList[st.oldLast..i]
    ensures var st' := Flushed(newList, oldList, st, i);
      st.combined + Remaining(newList, oldList, st) == st'.combined + Remaining(newList, oldList, st')
  {
    var st' := Flushed(newList, oldList, st, i);
    assert Remaining(newList, oldList, st') == Interleave(newList[st.right + 1..], oldList[i + 1..], []) by {
      assert newList[st'.left..st'.right] == [];
    }
    FlushConsumes(newList, oldList, st, i);
  }

  /** A flush at an anchor in the unwritten old tail keeps the cursors
      placed. */
  lemma FlushPlaced(newList: seq<string>, oldList: seq<string>, st: Pass, i: nat)
    requires Placed(newList, oldList, st)
    requires st.right < |newList| && st.oldLast <= i < |oldList| && newList[st.right] == oldList[i]
    ensures Placed(newList, oldList, Flushed(newList, oldList, st, i))
  {
    FlushWritten(newList, oldList, st, i);
  }

  /** An anchor in the unwritten old tail is found behind `oldLast`, has
      not been written, and makes the step a flush up to it. */
  lemma AnchorFlushes(newList: seq<string>, oldList: seq<string>, st: Pass)
    requires NoDups(oldList)
    requires Placed(newList, oldList, st)
    requires st.right < |newList| && newList[st.right] in oldList[st.oldLast..]
    ensures var i := IndexOf(oldList, newList[st.right]);
      && st.oldLast <= i < |oldList|
      && oldList[i] == newList[st.right]
      && newList[st.right] !in oldList[st.oldLast..i]
      && Step(newList, oldList, st) == Flushed(newList, oldList, st, i)
  {
    var x := newList[st.right];
    TailEntry(oldList, st.oldLast, x);
    AnchorStep(newList, oldList, st);
  }

  /** An anchor flushes, keeps the cursors placed, and consumes the front of
      the reference merge. */
  lemma AnchorPlaces(newList: seq<string>, oldList: seq<string>, st: Pass)
    requires NoDups(oldList)
    requires Placed(newList, oldList, st)
    requires st.right < |newList| && newList[st.right] in oldList[st.oldLast..]
    ensures var st' := Step(newList, oldList, st);
      && Placed(newList, oldList, st')
      && st.combined + Remaining(newList, oldList, st) == st'.combined + Remaining(newList, oldList, st')
  {
    AnchorFlushes(newList, oldList, st);
    var i := IndexOf(oldList, newList[st.right]);
    FlushPlaced(newList, oldList, st, i);
    FlushKeepsTotal(newList, oldList, st, i);
  }

  /** After the loop the old tail and the pending run are what the
      reference merge has left. */
  lemma FinishPlaces(newList: seq<string>, oldList: seq<string>, st: Pass)
    requires Placed(newList, oldList, st) && st.right == |newList|
    ensures Finish(newList, oldList, st) == st.combined + Remaining(newList, oldList, st)
  {
    assert newList[st.right..] == [];
    assert newList[st.left..st.right] == newList[st.left..];
  }

  /** The pass from any placed cursors writes what the reference merge has
      left. */
  lemma {:induction false} ScanPlaces(newList: seq<string>, oldList: seq<string>, st: Pass)
    requires NoDups(oldList)
    requires Placed(newList, oldList, st)
    ensures Finish(newList, oldList, Scan(newList, oldList, st)) == st.combined + Remaining(newList, oldList, st)
    decreases |newList| - st.right
  {
    if st.right == |newList| {
      FinishPlaces(newList, oldList, st);
    } else if newList[st.right] in oldList[st.oldLast..] {
      AnchorPlaces(newList, oldList, st);
      ScanPlaces(newList, oldList, Step(newList, oldList, st));
    } else {
      SkipPlaces(newList, oldList, st);
      SkipConsumes(newList, oldList, st);
      ScanPlaces(newList, oldList, Step(newList, oldList, st));
    }
  }

  /** For a duplicate-free `oldList` the cursor pass fills its array with the
      reference merge. */
  lemma FillIsInterleave(newList: seq<string>, oldList: seq<string>)
    requires NoDups(oldList)
    ensures Fill(newList, oldList) == Interleave(newList, oldList, [])
  {
    assert newList[0..] == newList && oldList[0..] == oldList && newList[0..0] == [];
    ScanPlaces(newList, oldList, Start());
  }

  /** The placement of every entry: for a duplicate-free `oldList` the merge
      is the reference merge with empty entries dropped and duplicates
      removed. */
  lemma CombineIsInterleave(newList: seq<string>, oldList: seq<string>)
    requires NoDups(oldList)
    ensures Combine(newList, oldList) == Dedup(Filter(Truthy, Interleave(newList, oldList, [])))
  {
    FillIsInterleave(newList, oldList);
  }

  /** The entries the two lists share come in the same order in both: an
      entry of `newList` that occurs in `oldList` never occurs there in
      front of the entry of an earlier position of `newList`. */
  predicate SameOrder(newList: seq<string>, oldList: seq<string>) {
    forall j1, j2, k1, k2 ::
      (0 <= j1 < j2 < |newList| && 0 <= k1 < |oldList| && 0 <= k2 < |oldList|
       && newList[j1] == oldList[k1] && newList[j2] == oldList[k2]) ==> k1 <= k2
  }

  /** Agreement on the order survives dropping a prefix of either list. */
  lemma SameOrderSuffix(n: seq<string>, o: seq<string>, a: nat, b: nat)
    requires SameOrder(n, o) && a <= |n| && b <= |o|
    ensures SameOrder(n[a..], o[b..])
  {
    forall j1, j2, k1, k2 | 0 <= j1 < j2 < |n| - a && 0 <= k1 < |o| - b && 0 <= k2 < |o| - b
      && n[a..][j1] == o[b..][k1] && n[a..][j2] == o[b..][k2]
      ensures k1 <= k2
    {
      assert n[a + j1] == o[b + k1] && n[a + j2] == o[b + k2];
    }
  }

  /** At the anchor `o[m] == n[0]`, no old entry in front of it is still
      to come in `n`, so none of them is one of the entries `N` tracks. */
  lemma GapNotAhead(n: seq<string>, o: seq<string>, m: nat, tracked: seq<string>)
    requires NoDups(o) && SameOrder(n, o)
    requires 0 < |n| && m < |o| && o[m] == n[0]
    requires forall y :: y in o && y in tracked ==> y in n
    ensures forall y :: y in o[..m] ==> y !in tracked
  {
    forall k, j | 0 <= k < m && 0 <= j < |n| ensures o[k] != n[j] {
      if j == 0 {
        assert o[k] != o[m];
      }
    }
  }

  /** Behind the anchor `o[m] == n[0]`, the tracked old entries are still to
      come in `n[1..]`. */
  lemma TailAhead(n: seq<string>, o: seq<string>, m: nat, tracked: seq<string>)
    requires NoDups(o)
    requires 0 < |n| && m < |o| && o[m] == n[0]
    requires forall y :: y in o && y in tracked ==> y in n
    ensures forall y :: y in o[m + 1..] && y in tracked ==> y in n[1..]
  {
    forall t | m < t < |o| ensures o[t] != n[0] {
      assert o[m] != o[t];
    }
    assert n == [n[0]] + n[1..];
  }

  /** Filtered down to the `tracked` entries, which take in every new entry
      and the pending run and no old entry that is not still to come, the
      reference merge is the pending run followed by `n`: it lists the new
      entries in their own order, provided the two lists agree on the order
      of the entries they share. */
  lemma {:induction false} InterleaveKeepsNew(n: seq<string>, o: seq<string>, pending: seq<string>, tracked: seq<string>)
    requires NoDups(o) && SameOrder(n, o)
    requires forall y :: y in n ==> y in tracked
    requires forall y :: y in pending ==> y in tracked
    requires forall y :: y in o && y in tracked ==> y in n
    ensures Filter(In(tracked), Interleave(n, o, pending)) == pending + n
    decreases |n|
  {
    var p := In(tracked);
    if |n| == 0 {
      FilterDropsAll(p, o);
      FilterKeepsAll(p, pending);
      FilterAppend(p, o, pending);
      assert Filter(p, o + pending) == pending;
    } else if n[0] !in o {
      assert Filter(p, Interleave(n[1..], o, pending + [n[0]])) == pending + [n[0]] + n[1..] by {
        assert o[0..] == o;
        SameOrderSuffix(n, o, 1, 0);
        InterleaveKeepsNew(n[1..], o, pending + [n[0]], tracked);
      }
      PendingThenRest(pending, n);
    } else {
      var m :| 0 <= m < |o| && o[m] == n[0];
      assert Filter(p, Interleave(n[1..], o[m + 1..], [])) == n[1..] by {
        AnchorKeepsNew(n, o, tracked, m);
        InterleaveKeepsNew(n[1..], o[m + 1..], [], tracked);
        assert [] + n[1..] == n[1..];
      }
      AnchorFiltered(n, o, pending, tracked, m);
      PendingThenRest(pending, n);
    }
  }

  /** The pending run, the head and the tail of `n` make up the pending run
      and `n`. */
  lemma PendingThenRest(pending: seq<string>, n: seq<string>)
    requires 0 < |n|
    ensures pending + [n[0]] + n[1..] == pending + n
  {
    assert n == [n[0]] + n[1..];
  }

  /** The anchor step of `InterleaveKeepsNew`: the rest of the merge
      satisfies the lemma's requirements. */
  lemma AnchorKeepsNew(n: seq<string>, o: seq<string>, tracked: seq<string>, m: nat)
    requires NoDups(o) && SameOrder(n, o)
    requires forall y :: y in n ==> y in tracked
    requires forall y :: y in o && y in tracked ==> y in n
    requires 0 < |n| && m < |o| && o[m] == n[0]
    ensures SameOrder(n[1..], o[m + 1..])
    ensures forall y :: y in n[1..] ==> y in tracked
    ensures forall y :: y in o[m + 1..] && y in tracked ==> y in n[1..]
  {
    TailAhead(n, o, m, tracked);
    SameOrderSuffix(n, o, 1, m + 1);
  }

  /** The anchor step of `InterleaveKeepsNew`: the filtered gap in front of
      the anchor is empty. */
  lemma AnchorFiltered(n: seq<string>, o: seq<string>, pending: seq<string>, tracked: seq<string>, m: nat)
    requires NoDups(o) && SameOrder(n, o)
    requires forall y :: y in n ==> y in tracked
    requires forall y :: y in pending ==> y in tracked
    requires forall y :: y in o && y in tracked ==> y in n
    requires 0 < |n| && m < |o| && o[m] == n[0]
    ensures Filter(In(tracked), Interleave(n, o, pending))
      == pending + [n[0]] + Filter(In(tracked), Interleave(n[1..], o[m + 1..], []))
  {
    assert n[0] !in o[..m] by {
      forall k | 0 <= k < m ensures o[k] != n[0] {
        assert o[k] != o[m];
      }
    }
    InterleaveAtAnchor(n, o, pending, m);
    GapNotAhead(n, o, m, tracked);
    GapFiltered(o[..m], pending + [n[0]], Interleave(n[1..], o[m + 1..], []), tracked);
  }

  /** A gap of untracked entries in front of a tracked run vanishes under
      the filter. */
  lemma GapFiltered(gap: seq<string>, run: seq<string>, rest: seq<string>, tracked: seq<string>)
    requires forall y :: y in gap ==> y !in tracked
    requires forall y :: y in run ==> y in tracked
    ensures Filter(In(tracked), gap + run + rest) == run + Filter(In(tracked), rest)
  {
    var p := In(tracked);
    FilterDropsAll(p, gap);
    FilterKeepsAll(p, run);
    FilterAppend(p, gap, run);
    assert Filter(p, gap + run) == run;
    FilterAppend(p, gap + run, rest);
  }

  /** Restricted to the new entries, the merge of two lists that agree on
      the order of the entries they share is the new list with empty entries
      dropped and first occurrences kept. */
  lemma CombineKeepsNewOrder(newList: seq<string>, oldList: seq<string>)
    requires NoDups(oldList) && SameOrder(newList, oldList)
    ensures Filter(In(newList), Combine(newList, oldList)) == Dedup(Filter(Truthy, newList))
  {
    var merged := Interleave(newList, oldList, []);
    assert Filter(In(newList), merged) == newList by {
      InterleaveKeepsNew(newList, oldList, [], newList);
    }
    CombineIsInterleave(newList, oldList);
    CleanRestricted(In(newList), merged, newList);
  }

  /** Cleaning commutes with a restriction: if restricting `merged` gives
      `n`, restricting the cleaned `merged` gives the cleaned `n`. */
  lemma CleanRestricted(p: string -> bool, merged: seq<string>, n: seq<string>)
    requires Filter(p, merged) == n
    ensures Filter(p, Dedup(Filter(Truthy, merged))) == Dedup(Filter(Truthy, n))
  {
    FilterDedup(p, Filter(Truthy, merged));
    FilterCommute(p, Truthy, merged);
  }

  /** When the two lists agree on the order of the entries they share, the
      merge keeps both orders: restricted to the new entries it is the new
      list, restricted to the old entries it is the old list (empty entries
      dropped, first occurrences kept), so it is a common supersequence of
      both. */
  lemma CombineKeepsBothOrders(newList: seq<string>, oldList: seq<string>)
    requires NoDups(oldList) && SameOrder(newList, oldList)
    ensures Filter(In(newList), Combine(newList, oldList)) == Dedup(Filter(Truthy, newList))
    ensures Filter(In(oldList), Combine(newList, oldList)) == Filter(Truthy, oldList)
    ensures Subseq(Dedup(Filter(Truthy, newList)), Combine(newList, oldList))
    ensures Subseq(Filter(Truthy, oldList), Combine(newList, oldList))
  {
    CombineKeepsNewOrder(newList, oldList);
    CombineProperties(newList, oldList);
    FilterIsSubseq(In(newList), Combine(newList, oldList));
    FilterIsSubseq(In(oldList), Combine(newList, oldList));
  }
}
