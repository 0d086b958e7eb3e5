/** The positional list merge `combineImageList` (scripts/utility.js:488-542):
    a freshly sampled, document-ordered URL list `newList` is reconciled with
    the previously published list `oldList` in one forward pass over `newList`.

    An *anchor* is an entry of `newList` that occurs in `oldList` and is not
    yet in the output. On an anchor the pass flushes the old entries in front
    of it, then the pending run of new entries up to and including it. After
    the pass the old tail is flushed, then the trailing new run, and finally
    empty strings are dropped and duplicates removed by first occurrence.

    Entries are URL strings; the only falsy string is "". */
module Merge {
  import opened Seqs

  /** The cursors of the forward pass: `combined` is the filled part of
      `combinedImageList`, `left`/`right` are `leftIndex`/`rightIndex` into
      `newList`, `oldLast` is `oldArrayLastIndex` into `oldList`, and
      `trailing` records whether the last entry examined was not an anchor
      (the test repeated after the loop, :533). */
  datatype Pass = Pass(combined: seq<string>, left: nat, right: nat, oldLast: nat, trailing: bool)

  /** The cursors before the loop (:489-497); `indexAtOldArray` starts at -1,
      so the trailing test holds when no entry was examined. */
  function Start(): Pass {
    Pass([], 0, 0, 0, true)
  }

  /** JavaScript truthiness of a string entry (`filter(Boolean)`). */
  predicate Truthy(u: string) {
    u != ""
  }

  /** Membership in `s`, as a predicate value for `Filter`. */
  function In(s: seq<string>): string -> bool {
    u => u in s
  }

  /** Non-membership in `s`, as a predicate value for `Filter`. */
  function NotIn(s: seq<string>): string -> bool {
    u => u !in s
  }

  /** One iteration of the `while` loop (:500-523). The first inner loop runs
      `indexAtOldArray - oldArrayLastIndex` times, so it copies nothing when
      that distance is negative; the `else` arms below model that case,
      which `AnchorIsAhead` shows never arises. */
  function Step(newList: seq<string>, oldList: seq<string>, st: Pass): (r: Pass)
    requires st.left <= st.right < |newList|
    ensures r.left <= r.right == st.right + 1
  {
    var right := newList[st.right];
    var atOld := IndexOf(oldList, right);
    var atCombined := IndexOf(st.combined, right);
    if atOld == -1 || atCombined != -1 then
      st.(right := st.right + 1, trailing := true)
    else
      var gap := if st.oldLast <= atOld then oldList[st.oldLast..atOld] else [];
      var oldLast := if st.oldLast <= atOld then atOld else st.oldLast;
      Pass(st.combined + gap + newList[st.left..st.right + 1], st.right + 1, st.right + 1, oldLast + 1, false)
  }

  /** The whole `while` loop, from cursors `st` until `newList` is exhausted. */
  function Scan(newList: seq<string>, oldList: seq<string>, st: Pass): (r: Pass)
    requires st.left <= st.right <= |newList|
    ensures r.left <= r.right == |newList|
    ensures st.combined <= r.combined
    ensures forall y :: y in r.combined ==> y in st.combined || y in oldList || y in newList
    decreases |newList| - st.right
  {
    if st.right == |newList| then st
    else Scan(newList, oldList, Step(newList, oldList, st))
  }

  /** The filled `combinedImageList` after the trailing flushes (:526-539). */
  function Fill(newList: seq<string>, oldList: seq<string>): (r: seq<string>)
    ensures forall y :: y in r ==> y in newList || y in oldList
  {
    Finish(newList, oldList, Scan(newList, oldList, Start()))
  }

  /** The flushes after the loop: the old tail (:526-530), then the trailing
      new run if the last entry examined was not an anchor (:532-539). */
  function Finish(newList: seq<string>, oldList: seq<string>, st: Pass): (r: seq<string>)
    requires st.left <= |newList|
    ensures st.combined <= r
    ensures forall y :: y in r ==> y in st.combined || y in oldList || (st.trailing && y in newList)
    ensures st.oldLast <= |oldList| ==> forall y :: y in oldList[st.oldLast..] ==> y in r
    ensures st.trailing ==> forall y :: y in newList[st.left..] ==> y in r
  {
    var withOld := st.combined + (if st.oldLast <= |oldList| then oldList[st.oldLast..] else []);
    if st.trailing then withOld + newList[st.left..] else withOld
  }

  /** `combineImageList(newList, oldList)` (:541): drop falsy entries, then
      keep first occurrences. */
  function Combine(newList: seq<string>, oldList: seq<string>): (r: seq<string>)
    ensures NoDups(r)
    ensures forall y :: y in r ==> Truthy(y)
  {
    Dedup(Filter(Truthy, Fill(newList, oldList)))
  }

  /** The cursors stay in range, a finished run leaves nothing pending, and
      the preallocated array (:489) is never overrun. */
  predicate Cursors(newList: seq<string>, oldList: seq<string>, st: Pass) {
    && st.left <= st.right <= |newList|
    && st.oldLast <= |oldList|
    && (!st.trailing ==> st.left == st.right)
    && |st.combined| <= st.left + st.oldLast
  }

  /** Everything behind the cursors has been written, a pending entry that
      occurs in `oldList` was skipped as already written, and nothing is
      invented. */
  ghost predicate Covered(newList: seq<string>, oldList: seq<string>, st: Pass)
    requires Cursors(newList, oldList, st)
  {
    && (forall y :: y in oldList[..st.oldLast] ==> y in st.combined)
    && (forall y :: y in newList[..st.left] ==> y in st.combined)
    && (forall y :: y in newList[st.left..st.right] && y in oldList ==> y in st.combined)
    && (forall y :: y in st.combined ==> y in oldList || y in newList)
  }

  /** Entries new to `oldList` are written exactly in `newList` order. */
  ghost predicate NewOrder(newList: seq<string>, oldList: seq<string>, st: Pass)
    requires Cursors(newList, oldList, st)
  {
    Filter(NotIn(oldList), st.combined) == Filter(NotIn(oldList), newList[..st.left])
  }

  /** The first occurrences of old entries follow `oldList`. */
  ghost predicate OldOrder(newList: seq<string>, oldList: seq<string>, st: Pass)
    requires Cursors(newList, oldList, st)
  {
    NoDups(oldList) ==> Dedup(Filter(In(oldList), st.combined)) == oldList[..st.oldLast]
  }

  /** What holds of the cursors between iterations. */
  ghost predicate Inv(newList: seq<string>, oldList: seq<string>, st: Pass) {
    && Cursors(newList, oldList, st)
    && Covered(newList, oldList, st)
    && NewOrder(newList, oldList, st)
    && OldOrder(newList, oldList, st)
  }

  lemma StartInv(newList: seq<string>, oldList: seq<string>)
    ensures Inv(newList, oldList, Start())
  {
    assert newList[..0] == [];
    assert oldList[..0] == [];
  }

  /** The old entries flushed in front of an anchor are new to the output. */
  lemma GapIsFresh(oldList: seq<string>, a: seq<string>, lo: nat, hi: nat)
    requires NoDups(oldList)
    requires lo <= hi <= |oldList|
    requires Dedup(a) == oldList[..lo]
    ensures NoDups(oldList[lo..hi])
    ensures forall y :: y in oldList[lo..hi] ==> y !in a
    ensures Dedup(a + oldList[lo..hi]) == oldList[..hi]
  {
    var gap := oldList[lo..hi];
    forall y | y in gap ensures y !in a {
      var k :| 0 <= k < |gap| && gap[k] == y;
      assert oldList[lo + k] == y;
    }
    assert NoDups(gap) by {
      forall i, j | 0 <= i < j < |gap| ensures gap[i] != gap[j] {
        assert gap[i] == oldList[lo + i] && gap[j] == oldList[lo + j];
      }
    }
    DedupAppendFresh(a, gap);
    assert oldList[..lo] + gap == oldList[..hi];
  }

  /** An anchor is never behind `oldArrayLastIndex`: the first inner loop's
      distance (:512) is never negative. */
  lemma AnchorIsAhead(oldList: seq<string>, c: seq<string>, lo: nat, x: string)
    requires lo <= |oldList|
    requires forall y :: y in oldList[..lo] ==> y in c
    requires x in oldList && x !in c
    ensures lo <= IndexOf(oldList, x)
  {
    assert forall j :: 0 <= j < lo ==> oldList[..lo][j] == oldList[j];
  }

  /** Unfolds `Step` at an anchor whose old index is not behind the cursor
      into `Flushed`; a proof step, not a property of its own. */
  lemma AnchorStep(newList: seq<string>, oldList: seq<string>, st: Pass)
    requires st.left <= st.right < |newList|
    requires newList[st.right] in oldList && newList[st.right] !in st.combined
    requires st.oldLast <= IndexOf(oldList, newList[st.right])
    ensures Step(newList, oldList, st) == Flushed(newList, oldList, st, IndexOf(oldList, newList[st.right]))
  {
  }

  /** Flushing `oldList[lo..i]` and the run `newList[left..right]` that ends in
      the anchor `oldList[i]` writes everything up to both new cursors and
      invents nothing. */
  lemma FlushCovers(newList: seq<string>, oldList: seq<string>, c: seq<string>, lo: nat, i: nat, left: nat, right: nat)
    requires lo <= i < |oldList| && left <= right < |newList|
    requires newList[right] == oldList[i]
    requires forall y :: y in oldList[..lo] ==> y in c
    requires forall y :: y in newList[..left] ==> y in c
    requires forall y :: y in c ==> y in oldList || y in newList
    ensures var c' := c + oldList[lo..i] + newList[left..right + 1];
      && (forall y :: y in oldList[..i + 1] ==> y in c')
      && (forall y :: y in newList[..right + 1] ==> y in c')
      && (forall y :: y in c' ==> y in oldList || y in newList)
  {
    var gap := oldList[lo..i];
    var run := newList[left..right + 1];
    assert oldList[..i + 1] == oldList[..lo] + gap + [run[right - left]];
    assert newList[..right + 1] == newList[..left] + run;
    assert forall y :: y in gap ==> y in oldList;
    assert forall y :: y in run ==> y in newList;
  }

  /** Flushing old entries and then the run `newList[left..hi]` keeps the
      entries new to `oldList` in `newList` order. */
  lemma FlushKeepsNewOrderTo(newList: seq<string>, oldList: seq<string>, c: seq<string>, lo: nat, i: nat, left: nat, hi: nat)
    requires lo <= i <= |oldList| && left <= hi <= |newList|
    requires Filter(NotIn(oldList), c) == Filter(NotIn(oldList), newList[..left])
    ensures Filter(NotIn(oldList), c + oldList[lo..i] + newList[left..hi]) == Filter(NotIn(oldList), newList[..hi])
  {
    var out := NotIn(oldList);
    var gap := oldList[lo..i];
    var run := newList[left..hi];
    assert forall x :: x in gap ==> x in oldList;
    calc {
      Filter(out, c + gap + run);
      { FilterAppend(out, c + gap, run); }
      Filter(out, c + gap) + Filter(out, run);
      { FilterAppend(out, c, gap); FilterDropsAll(out, gap); }
      (Filter(out, c) + []) + Filter(out, run);
      { assert Filter(out, c) + [] == Filter(out, c); }
      Filter(out, newList[..left]) + Filter(out, run);
      { FilterAppend(out, newList[..left], run); }
      Filter(out, newList[..left] + run);
      { assert newList[..hi] == newList[..left] + run; }
      Filter(out, newList[..hi]);
    }
  }

  /** The old entries of a flush: the previous ones, the gap, the old entries
      of the pending run, and the anchor. */
  lemma FlushSplitsOld(newList: seq<string>, oldList: seq<string>, c: seq<string>, lo: nat, i: nat, left: nat, right: nat)
    requires lo <= i < |oldList| && left <= right < |newList|
    requires newList[right] == oldList[i]
    ensures Filter(In(oldList), c + oldList[lo..i] + newList[left..right + 1])
         == ((Filter(In(oldList), c) + oldList[lo..i]) + Filter(In(oldList), newList[left..right])) + [oldList[i]]
  {
    var inn := In(oldList);
    var x := oldList[i];
    var gap := oldList[lo..i];
    var pending := newList[left..right];
    var run := newList[left..right + 1];
    assert run == pending + [x];
    assert forall y :: y in gap ==> y in oldList;
    assert Filter(inn, [x]) == [x];
    calc {
      Filter(inn, c + gap + run);
      { FilterAppend(inn, c + gap, run); }
      Filter(inn, c + gap) + Filter(inn, run);
      { FilterAppend(inn, c, gap); FilterKeepsAll(inn, gap); }
      (Filter(inn, c) + gap) + Filter(inn, run);
      { FilterAppend(inn, pending, [x]); }
      (Filter(inn, c) + gap) + (Filter(inn, pending) + [x]);
    }
  }

  /** The old entries flushed before an anchor are fresh, the old entries of
      the pending run are already written, and the anchor itself is new. */
  lemma FlushOldParts(newList: seq<string>, oldList: seq<string>, c: seq<string>, lo: nat, i: nat, left: nat, right: nat)
    requires NoDups(oldList)
    requires lo <= i < |oldList| && left <= right < |newList|
    requires oldList[i] !in c
    requires Dedup(Filter(In(oldList), c)) == oldList[..lo]
    requires forall y :: y in newList[left..right] && y in oldList ==> y in c
    ensures var a := Filter(In(oldList), c);
      && oldList[i] !in a
      && oldList[i] !in oldList[lo..i]
      && (forall y :: y in Filter(In(oldList), newList[left..right]) ==> y in a)
      && Dedup(a + oldList[lo..i]) == oldList[..i]
  {
    GapIsFresh(oldList, Filter(In(oldList), c), lo, i);
    NotBefore(oldList, lo, i);
  }

  /** Flushing keeps the first occurrences of old entries in `oldList` order. */
  lemma FlushKeepsOldOrder(newList: seq<string>, oldList: seq<string>, c: seq<string>, lo: nat, i: nat, left: nat, right: nat)
    requires lo <= i < |oldList| && left <= right < |newList|
    requires newList[right] == oldList[i] && oldList[i] !in c
    requires NoDups(oldList) ==> Dedup(Filter(In(oldList), c)) == oldList[..lo]
    requires forall y :: y in newList[left..right] && y in oldList ==> y in c
    ensures NoDups(oldList) ==> Dedup(Filter(In(oldList), c + oldList[lo..i] + newList[left..right + 1])) == oldList[..i + 1]
  {
    if NoDups(oldList) {
      FlushOldParts(newList, oldList, c, lo, i, left, right);
      FlushSplitsOld(newList, oldList, c, lo, i, left, right);
      SliceSnoc(oldList, i);
      SettledThenFresh(Filter(In(oldList), c), oldList[lo..i], Filter(In(oldList), newList[left..right]), oldList[i],
        Filter(In(oldList), c + oldList[lo..i] + newList[left..right + 1]), oldList[..i], oldList[..i + 1]);
    }
  }

  /** A flush never overruns the preallocated array, and leaves no pending run. */
  lemma FlushSize(newList: seq<string>, oldList: seq<string>, c: seq<string>, lo: nat, i: nat, left: nat, right: nat)
    requires lo <= i < |oldList| && left <= right < |newList|
    requires |c| <= left + lo
    ensures |c + oldList[lo..i] + newList[left..right + 1]| <= (right + 1) + (i + 1)
    ensures newList[right + 1..right + 1] == []
  {
  }

  /** The cursors after an anchor at old index `i`, spelled out. */
  function Flushed(newList: seq<string>, oldList: seq<string>, st: Pass, i: nat): Pass
    requires st.left <= st.right < |newList| && st.oldLast <= i <= |oldList|
  {
    Pass(st.combined + oldList[st.oldLast..i] + newList[st.left..st.right + 1], st.right + 1, st.right + 1, i + 1, false)
  }

  lemma AnchorCursors(newList: seq<string>, oldList: seq<string>, st: Pass, i: nat)
    requires Cursors(newList, oldList, st)
    requires st.right < |newList| && st.oldLast <= i < |oldList|
    ensures Cursors(newList, oldList, Flushed(newList, oldList, st, i))
  {
    FlushSize(newList, oldList, st.combined, st.oldLast, i, st.left, st.right);
  }

  lemma AnchorCovered(newList: seq<string>, oldList: seq<string>, st: Pass, i: nat)
    requires Cursors(newList, oldList, st) && Covered(newList, oldList, st)
    requires st.right < |newList| && st.oldLast <= i < |oldList|
    requires newList[st.right] == oldList[i]
    requires Cursors(newList, oldList, Flushed(newList, oldList, st, i))
    ensures Covered(newList, oldList, Flushed(newList, oldList, st, i))
  {
    FlushCovers(newList, oldList, st.combined, st.oldLast, i, st.left, st.right);
    FlushSize(newList, oldList, st.combined, st.oldLast, i, st.left, st.right);
  }

  lemma AnchorNewOrder(newList: seq<string>, oldList: seq<string>, st: Pass, i: nat)
    requires Cursors(newList, oldList, st) && NewOrder(newList, oldList, st)
    requires st.right < |newList| && st.oldLast <= i < |oldList|
    requires Cursors(newList, oldList, Flushed(newList, oldList, st, i))
    ensures NewOrder(newList, oldList, Flushed(newList, oldList, st, i))
  {
    FlushKeepsNewOrderTo(newList, oldList, st.combined, st.oldLast, i, st.left, st.right + 1);
  }

  lemma AnchorOldOrder(newList: seq<string>, oldList: seq<string>, st: Pass, i: nat)
    requires Cursors(newList, oldList, st) && Covered(newList, oldList, st) && OldOrder(newList, oldList, st)
    requires st.right < |newList| && st.oldLast <= i < |oldList|
    requires newList[st.right] == oldList[i] && oldList[i] !in st.combined
    requires Cursors(newList, oldList, Flushed(newList, oldList, st, i))
    ensures OldOrder(newList, oldList, Flushed(newList, oldList, st, i))
  {
    FlushKeepsOldOrder(newList, oldList, st.combined, st.oldLast, i, st.left, st.right);
    OldOrderOfFlushed(newList, oldList, st, i);
  }

  /** `OldOrder` of the cursors after a flush, spelled out. */
  lemma OldOrderOfFlushed(newList: seq<string>, oldList: seq<string>, st: Pass, i: nat)
    requires st.left <= st.right < |newList| && st.oldLast <= i < |oldList|
    requires Cursors(newList, oldList, Flushed(newList, oldList, st, i))
    requires NoDups(oldList) ==> Dedup(Filter(In(oldList), st.combined + oldList[st.oldLast..i] + newList[st.left..st.right + 1])) == oldList[..i + 1]
    ensures OldOrder(newList, oldList, Flushed(newList, oldList, st, i))
  {
    var st' := Flushed(newList, oldList, st, i);
    assert st'.combined == st.combined + oldList[st.oldLast..i] + newList[st.left..st.right + 1];
    assert st'.oldLast == i + 1;
  }

  /** An anchor at old index `i` keeps the invariant. */
  lemma AnchorInv(newList: seq<string>, oldList: seq<string>, st: Pass, i: nat)
    requires Inv(newList, oldList, st)
    requires st.right < |newList| && st.oldLast <= i < |oldList|
    requires newList[st.right] == oldList[i] && oldList[i] !in st.combined
    ensures Inv(newList, oldList, Flushed(newList, oldList, st, i))
  {
    AnchorCursors(newList, oldList, st, i);
    AnchorCovered(newList, oldList, st, i);
    AnchorNewOrder(newList, oldList, st, i);
    AnchorOldOrder(newList, oldList, st, i);
  }

  /** An entry that is not an anchor only joins the pending run. */
  lemma SkipCovered(newList: seq<string>, oldList: seq<string>, st: Pass)
    requires Cursors(newList, oldList, st) && Covered(newList, oldList, st)
    requires st.right < |newList|
    requires newList[st.right] in oldList ==> newList[st.right] in st.combined
    ensures Cursors(newList, oldList, st.(right := st.right + 1, trailing := true))
    ensures Covered(newList, oldList, st.(right := st.right + 1, trailing := true))
  {
    SliceSnoc(newList[st.left..], st.right - st.left);
    assert newList[st.left..][..st.right - st.left] == newList[st.left..st.right];
    assert newList[st.left..][..st.right + 1 - st.left] == newList[st.left..st.right + 1];
  }

  /** Moving only `rightIndex` leaves what was written untouched. */
  lemma SkipKeepsOrder(newList: seq<string>, oldList: seq<string>, st: Pass, st': Pass)
    requires Cursors(newList, oldList, st) && Cursors(newList, oldList, st')
    requires st'.combined == st.combined && st'.left == st.left && st'.oldLast == st.oldLast
    ensures NewOrder(newList, oldList, st') == NewOrder(newList, oldList, st)
    ensures OldOrder(newList, oldList, st') == OldOrder(newList, oldList, st)
  {
  }

  lemma SkipInv(newList: seq<string>, oldList: seq<string>, st: Pass)
    requires Inv(newList, oldList, st)
    requires st.right < |newList|
    requires newList[st.right] in oldList ==> newList[st.right] in st.combined
    ensures Inv(newList, oldList, st.(right := st.right + 1, trailing := true))
  {
    SkipCovered(newList, oldList, st);
    SkipKeepsOrder(newList, oldList, st, st.(right := st.right + 1, trailing := true));
  }

  /** One iteration keeps the invariant. */
  lemma StepInv(newList: seq<string>, oldList: seq<string>, st: Pass)
    requires Inv(newList, oldList, st)
    requires st.right < |newList|
    ensures Inv(newList, oldList, Step(newList, oldList, st))
  {
    if newList[st.right] in oldList && newList[st.right] !in st.combined {
      AnchorIsAhead(oldList, st.combined, st.oldLast, newList[st.right]);
      AnchorStep(newList, oldList, st);
      AnchorInv(newList, oldList, st, IndexOf(oldList, newList[st.right]));
    } else {
      SkipInv(newList, oldList, st);
    }
  }

  lemma {:induction false} ScanInv(newList: seq<string>, oldList: seq<string>, st: Pass)
    requires Inv(newList, oldList, st)
    ensures Inv(newList, oldList, Scan(newList, oldList, st))
    decreases |newList| - st.right
  {
    if st.right < |newList| {
      StepInv(newList, oldList, st);
      ScanInv(newList, oldList, Step(newList, oldList, st));
    }
  }

  /** After the loop the array is the written part, the old tail and the
      trailing new run (:526-539). */
  lemma FillShape(newList: seq<string>, oldList: seq<string>)
    ensures var st := Scan(newList, oldList, Start());
      && Inv(newList, oldList, st)
      && Fill(newList, oldList) == st.combined + oldList[st.oldLast..] + newList[st.left..]
  {
    StartInv(newList, oldList);
    ScanInv(newList, oldList, Start());
  }

  /** The tail flush writes every remaining entry and invents nothing. */
  lemma TailCovers(newList: seq<string>, oldList: seq<string>, c: seq<string>, lo: nat, left: nat)
    requires lo <= |oldList| && left <= |newList|
    requires forall y :: y in oldList[..lo] ==> y in c
    requires forall y :: y in newList[..left] ==> y in c
    requires forall y :: y in c ==> y in oldList || y in newList
    ensures forall x :: x in c + oldList[lo..] + newList[left..] <==> x in oldList || x in newList
  {
    assert oldList == oldList[..lo] + oldList[lo..];
    assert newList == newList[..left] + newList[left..];
  }

  /** The tail flush fills the preallocated array at most. */
  lemma TailSize(newList: seq<string>, oldList: seq<string>, c: seq<string>, lo: nat, left: nat)
    requires lo <= |oldList| && left <= |newList|
    requires |c| <= left + lo
    ensures |c + oldList[lo..] + newList[left..]| <= |newList| + |oldList|
  {
  }

  /** The tail flush keeps the entries new to `oldList` in `newList` order. */
  lemma TailKeepsNewOrder(newList: seq<string>, oldList: seq<string>, c: seq<string>, lo: nat, left: nat)
    requires lo <= |oldList| && left <= |newList|
    requires Filter(NotIn(oldList), c) == Filter(NotIn(oldList), newList[..left])
    ensures Filter(NotIn(oldList), c + oldList[lo..] + newList[left..]) == Filter(NotIn(oldList), newList)
  {
    assert newList[..|newList|] == newList;
    FlushKeepsNewOrderTo(newList, oldList, c, lo, |oldList|, left, |newList|);
    assert oldList[lo..|oldList|] == oldList[lo..];
  }

  /** The tail flush completes `oldList`. */
  lemma TailKeepsOldOrder(newList: seq<string>, oldList: seq<string>, c: seq<string>, lo: nat, left: nat)
    requires NoDups(oldList)
    requires lo <= |oldList| && left <= |newList|
    requires Dedup(Filter(In(oldList), c)) == oldList[..lo]
    requires forall y :: y in newList[left..|newList|] && y in oldList ==> y in c
    ensures Dedup(Filter(In(oldList), c + oldList[lo..] + newList[left..])) == oldList
  {
    WholeSlices(newList, left);
    TailSplitsOld(newList, oldList, c, lo, left);
    GapIsFresh(oldList, Filter(In(oldList), c), lo, |oldList|);
    WholeSlices(oldList, lo);
    DedupAppendCovered(Filter(In(oldList), c) + oldList[lo..], Filter(In(oldList), newList[left..]));
  }

  /** The old entries of the tail flush. */
  lemma TailSplitsOld(newList: seq<string>, oldList: seq<string>, c: seq<string>, lo: nat, left: nat)
    requires lo <= |oldList| && left <= |newList|
    ensures Filter(In(oldList), c + oldList[lo..] + newList[left..])
         == (Filter(In(oldList), c) + oldList[lo..]) + Filter(In(oldList), newList[left..])
  {
    assert forall y :: y in oldList[lo..] ==> y in oldList;
    FilterAppend(In(oldList), c + oldList[lo..], newList[left..]);
    FilterAppend(In(oldList), c, oldList[lo..]);
    FilterKeepsAll(In(oldList), oldList[lo..]);
  }


  /** The facts about the filled array `f` of a finished pass `st`. */
  lemma TailFacts(newList: seq<string>, oldList: seq<string>, st: Pass, f: seq<string>)
    requires Inv(newList, oldList, st) && st.right == |newList|
    requires f == st.combined + oldList[st.oldLast..] + newList[st.left..]
    ensures forall x :: x in f <==> x in oldList || x in newList
    ensures |f| <= |newList| + |oldList|
    ensures Filter(NotIn(oldList), f) == Filter(NotIn(oldList), newList)
    ensures NoDups(oldList) ==> Dedup(Filter(In(oldList), f)) == oldList
  {
    TailCovers(newList, oldList, st.combined, st.oldLast, st.left);
    TailSize(newList, oldList, st.combined, st.oldLast, st.left);
    TailKeepsNewOrder(newList, oldList, st.combined, st.oldLast, st.left);
    if NoDups(oldList) {
      TailKeepsOldOrder(newList, oldList, st.combined, st.oldLast, st.left);
    }
  }

  /** The facts about the filled array that the merge properties rest on. */
  lemma FillFacts(newList: seq<string>, oldList: seq<string>)
    ensures forall x :: x in Fill(newList, oldList) <==> x in oldList || x in newList
    ensures |Fill(newList, oldList)| <= |newList| + |oldList|
    ensures Filter(NotIn(oldList), Fill(newList, oldList)) == Filter(NotIn(oldList), newList)
    ensures NoDups(oldList) ==> Dedup(Filter(In(oldList), Fill(newList, oldList))) == oldList
  {
    FillShape(newList, oldList);
    TailFacts(newList, oldList, Scan(newList, oldList, Start()), Fill(newList, oldList));
  }

  /** The merge contract: no duplicates, no empty entries, exactly the
      non-empty entries of both lists, the entries new to `oldList` in the
      order of their first occurrence in `newList`, and (for a duplicate-free
      `oldList`) the old entries in their old order. */
  lemma CombineProperties(newList: seq<string>, oldList: seq<string>)
    ensures var r := Combine(newList, oldList);
      && NoDups(r)
      && (forall x :: x in r <==> Truthy(x) && (x in newList || x in oldList))
      && |r| <= |newList| + |oldList|
      && Filter(NotIn(oldList), r) == Dedup(Filter(Truthy, Filter(NotIn(oldList), newList)))
      && (NoDups(oldList) ==> Filter(In(oldList), r) == Filter(Truthy, oldList))
  {
    FillFacts(newList, oldList);
    var f := Fill(newList, oldList);
    var out := NotIn(oldList);
    FilterDedup(out, Filter(Truthy, f));
    FilterCommute(out, Truthy, f);
    if NoDups(oldList) {
      var inn := In(oldList);
      FilterDedup(inn, Filter(Truthy, f));
      FilterCommute(inn, Truthy, f);
      FilterDedup(Truthy, Filter(inn, f));
    }
  }

  /** While no entry from `st.right` on occurs in `oldList`, the pass only
      advances `rightIndex`. */
  lemma {:induction false} ScanWithoutAnchors(newList: seq<string>, oldList: seq<string>, st: Pass)
    requires st.left <= st.right <= |newList|
    requires forall j :: st.right <= j < |newList| ==> newList[j] !in oldList
    ensures Scan(newList, oldList, st) == st.(right := |newList|, trailing := st.trailing || st.right < |newList|)
    decreases |newList| - st.right
  {
    if st.right < |newList| {
      ScanWithoutAnchors(newList, oldList, Step(newList, oldList, st));
    }
  }

  /** Re-scanning a list that only grew at its end: every old entry is an
      anchor met in order, so the pass rebuilds `oldList` one entry at a time. */
  lemma {:induction false} ScanExtension(prev: seq<string>, tail: seq<string>, k: nat)
    requires NoDups(prev + tail)
    requires k <= |prev|
    ensures Scan(prev + tail, prev, Pass(prev[..k], k, k, k, k == 0))
         == Pass(prev, |prev|, |prev + tail|, |prev|, |prev| == 0 || |tail| > 0)
    decreases |prev| - k
  {
    var n := prev + tail;
    var st := Pass(prev[..k], k, k, k, k == 0);
    if k < |prev| {
      var x := prev[k];
      assert n[k] == x;
      assert IndexOf(prev, x) == k by {
        var i := IndexOf(prev, x);
        assert n[i] == n[k];
      }
      assert x !in prev[..k];
      assert prev[k..k] == [];
      assert n[k..k + 1] == [x];
      assert prev[..k] + [] + [x] == prev[..k + 1];
      assert Step(n, prev, st) == Pass(prev[..k + 1], k + 1, k + 1, k + 1, false);
      ScanExtension(prev, tail, k + 1);
    } else {
      assert prev[..k] == prev;
      forall j | |prev| <= j < |n| ensures n[j] !in prev {
        forall i | 0 <= i < |prev| ensures prev[i] != n[j] {
          assert prev[i] == n[i];
        }
      }
      ScanWithoutAnchors(n, prev, st);
    }
  }

  /** Infinite scroll: when the new scan is the prev list followed by fresh
      entries, the merge is exactly the new scan. With no fresh entries this
      is `combine(L, L) == L`. */
  lemma ExtensionIsKept(prev: seq<string>, tail: seq<string>)
    requires NoDups(prev + tail)
    requires forall x :: x in prev + tail ==> Truthy(x)
    ensures Combine(prev + tail, prev) == prev + tail
  {
    ScanExtension(prev, tail, 0);
    assert prev[..0] == [];
    assert prev[|prev|..] == [];
    assert (prev + tail)[|prev|..] == tail;
    assert Fill(prev + tail, prev) == prev + tail;
    FilterKeepsAll(Truthy, prev + tail);
    DedupOfNoDups(prev + tail);
  }

  /** `combine(L, L) == L` for a duplicate-free list of non-empty URLs. */
  lemma SameListIsFixed(l: seq<string>)
    requires NoDups(l)
    requires forall x :: x in l ==> Truthy(x)
    ensures Combine(l, l) == l
  {
    assert l + [] == l;
    ExtensionIsKept(l, []);
  }

  /** With no shared entry there is no anchor: the old list comes first and
      the whole new list is appended after it, then the result is cleaned. */
  lemma DisjointListsAppend(newList: seq<string>, oldList: seq<string>)
    requires forall x :: x in newList ==> x !in oldList
    ensures Combine(newList, oldList) == Dedup(Filter(Truthy, oldList + newList))
  {
    assert [] + oldList + newList == oldList + newList;
    assert Fill(newList, oldList) == [] + oldList + newList by {
      ScanWithoutAnchors(newList, oldList, Start());
      assert oldList[0..] == oldList;
      assert newList[0..] == newList;
    }
  }

  /** With no shared entry and nothing to clean, the merge is the old list
      followed by the new list. */
  lemma DisjointCleanListsAppend(newList: seq<string>, oldList: seq<string>)
    requires NoDups(oldList + newList)
    requires forall x :: x in oldList + newList ==> Truthy(x)
    ensures Combine(newList, oldList) == oldList + newList
  {
    forall i, j | 0 <= i < |oldList| && 0 <= j < |newList| ensures oldList[i] != newList[j] {
      assert (oldList + newList)[i] == oldList[i];
      assert (oldList + newList)[|oldList| + j] == newList[j];
    }
    DisjointListsAppend(newList, oldList);
    FilterKeepsAll(Truthy, oldList + newList);
    DedupOfNoDups(oldList + newList);
  }

  /** Five distinct URLs. */
  predicate Distinct5(a: string, b: string, c: string, d: string, x: string) {
    && a != b && a != c && a != d && a != x && b != c
    && b != d && b != x && c != d && c != x && d != x
  }

  /** Scroll example, first anchor `b`: the old `a` in front of it is flushed. */
  lemma StabilityStep1(a: string, b: string, c: string, d: string, x: string)
    requires Distinct5(a, b, c, d, x)
    ensures Step([b, c, x, d], [a, b, c, d], Start()) == Pass([a, b], 1, 1, 2, false)
  {
    assert [a, b, c, d][..1] == [a];
    IndexOfFirst([a, b, c, d], b, 1);
    assert [a, b, c, d][0..1] + [b, c, x, d][0..1] == [a, b];
  }

  /** Scroll example, second anchor `c`: it directly follows `b`. */
  lemma StabilityStep2(a: string, b: string, c: string, d: string, x: string)
    requires Distinct5(a, b, c, d, x)
    ensures Step([b, c, x, d], [a, b, c, d], Pass([a, b], 1, 1, 2, false)) == Pass([a, b, c], 2, 2, 3, false)
  {
    assert [a, b, c, d][..2] == [a, b];
    IndexOfFirst([a, b, c, d], c, 2);
    assert [a, b] + [a, b, c, d][2..2] + [b, c, x, d][1..2] == [a, b, c];
  }

  /** Scroll example, `x` is fresh: it becomes pending. */
  lemma StabilityStep3(a: string, b: string, c: string, d: string, x: string)
    requires Distinct5(a, b, c, d, x)
    ensures Step([b, c, x, d], [a, b, c, d], Pass([a, b, c], 2, 2, 3, false)) == Pass([a, b, c], 2, 3, 3, true)
  {
    assert x !in [a, b, c, d];
  }

  /** Scroll example, last anchor `d`: the pending `x` is written with it. */
  lemma StabilityStep4(a: string, b: string, c: string, d: string, x: string)
    requires Distinct5(a, b, c, d, x)
    ensures Step([b, c, x, d], [a, b, c, d], Pass([a, b, c], 2, 3, 3, true)) == Pass([a, b, c, x, d], 4, 4, 4, false)
  {
    assert [a, b, c, d][..3] == [a, b, c];
    IndexOfFirst([a, b, c, d], d, 3);
    assert d !in [a, b, c];
    assert [a, b, c] + [a, b, c, d][3..3] + [b, c, x, d][2..4] == [a, b, c, x, d];
  }

  /** Scroll example: the whole pass. */
  lemma StabilityScan(a: string, b: string, c: string, d: string, x: string)
    requires Distinct5(a, b, c, d, x)
    ensures Scan([b, c, x, d], [a, b, c, d], Start()) == Pass([a, b, c, x, d], 4, 4, 4, false)
  {
    var n, o := [b, c, x, d], [a, b, c, d];
    StabilityStep1(a, b, c, d, x);
    StabilityStep2(a, b, c, d, x);
    StabilityStep3(a, b, c, d, x);
    StabilityStep4(a, b, c, d, x);
    calc {
      Scan(n, o, Start());
      Scan(n, o, Pass([a, b], 1, 1, 2, false));
      Scan(n, o, Pass([a, b, c], 2, 2, 3, false));
      Scan(n, o, Pass([a, b, c], 2, 3, 3, true));
      Scan(n, o, Pass([a, b, c, x, d], 4, 4, 4, false));
      Pass([a, b, c, x, d], 4, 4, 4, false);
    }
  }

  /** Scroll example: the filled array. */
  lemma StabilityFill(a: string, b: string, c: string, d: string, x: string)
    requires Distinct5(a, b, c, d, x)
    ensures Fill([b, c, x, d], [a, b, c, d]) == [a, b, c, x, d]
  {
    StabilityScan(a, b, c, d, x);
    assert [a, b, c, d][4..] == [];
  }

  lemma Distinct5NoDups(a: string, b: string, c: string, d: string, x: string)
    requires Distinct5(a, b, c, d, x)
    ensures NoDups([a, b, c, x, d])
  {
  }

  /** The scroll example: old `[a, b, c, d]` and new `[b, c, x, d]` give
      `[a, b, c, x, d]`; `a` stays in front although it left the page, and the
      fresh `x` is written with its anchor `d`. */
  lemma StabilityExample(a: string, b: string, c: string, d: string, x: string)
    requires Truthy(a) && Truthy(b) && Truthy(c) && Truthy(d) && Truthy(x)
    requires Distinct5(a, b, c, d, x)
    ensures Combine([b, c, x, d], [a, b, c, d]) == [a, b, c, x, d]
  {
    calc {
      Combine([b, c, x, d], [a, b, c, d]);
      { StabilityFill(a, b, c, d, x); }
      Dedup(Filter(Truthy, [a, b, c, x, d]));
      { FilterKeepsAll(Truthy, [a, b, c, x, d]); }
      Dedup([a, b, c, x, d]);
      { Distinct5NoDups(a, b, c, d, x); DedupOfNoDups([a, b, c, x, d]); }
      [a, b, c, x, d];
    }
  }

  /** The disjoint example: old `[a, b]` and new `[x, y]` give `[a, b, x, y]`. */
  lemma DisjointExample(a: string, b: string, x: string, y: string)
    requires Truthy(a) && Truthy(b) && Truthy(x) && Truthy(y)
    requires a != b && a != x && a != y && b != x && b != y && x != y
    ensures Combine([x, y], [a, b]) == [a, b, x, y]
  {
    assert [a, b] + [x, y] == [a, b, x, y];
    assert NoDups([a, b, x, y]);
    DisjointCleanListsAppend([x, y], [a, b]);
  }

  /** Copies `src[from..to]` onto the end of `combined` one entry at a time,
      as the `distance` loops of :512-521 and :527-530 do; nothing is copied
      when `to < from`. */
  method CopyRun(combined: seq<string>, src: seq<string>, from: nat, to: int) returns (r: seq<string>, next: nat)
    requires to <= |src|
    ensures from <= to ==> r == combined + src[from..to] && next == to
    ensures to < from ==> r == combined && next == from
  {
    r, next := combined, from;
    if from <= to {
      while next < to
        invariant from <= next <= to
        invariant r == combined + src[from..next]
      {
        r := r + [src[next]];
        next := next + 1;
      }
    }
  }

  /** One iteration of the `while` loop (:499-523) on the cursor variables. */
  method Iterate(newList: seq<string>, oldList: seq<string>, combined: seq<string>, left: nat, right: nat, oldLast: nat, trailing: bool)
    returns (combined': seq<string>, left': nat, right': nat, oldLast': nat, trailing': bool)
    requires left <= right < |newList|
    ensures Pass(combined', left', right', oldLast', trailing') == Step(newList, oldList, Pass(combined, left, right, oldLast, trailing))
  {
    var atOld := IndexOf(oldList, newList[right]);
    var atCombined := IndexOf(combined, newList[right]);
    if atOld == -1 || atCombined != -1 {
      // not an anchor
      combined', left', right', oldLast', trailing' := combined, left, right + 1, oldLast, true;
    } else {
      // old entries in front of the anchor, then the pending run and the anchor
      combined', oldLast' := CopyRun(combined, oldList, oldLast, atOld);
      combined', left' := CopyRun(combined', newList, left, right + 1);
      right' := left';
      oldLast' := oldLast' + 1;
      trailing' := false;
    }
  }

  /** The flushing loops after the `while` loop (:526-539). */
  method FinishCombined(newList: seq<string>, oldList: seq<string>, combined: seq<string>, left: nat, oldLast: nat, trailing: bool)
    returns (r: seq<string>)
    requires left <= |newList|
    ensures r == Finish(newList, oldList, Pass(combined, left, |newList|, oldLast, trailing))
  {
    var l, o := left, oldLast;
    r := combined;
    if o <= |oldList| {
      r, o := CopyRun(r, oldList, o, |oldList|);
      assert oldList[oldLast..|oldList|] == oldList[oldLast..];
    }
    if trailing {
      r, l := CopyRun(r, newList, l, |newList|);
      assert newList[left..|newList|] == newList[left..];
    }
  }

  /** The cursor loops of `combineImageList` (:489-539): the three cursors,
      the two flushing inner loops, then the old tail and the trailing run. */
  method FillCombined(newList: seq<string>, oldList: seq<string>) returns (combined: seq<string>)
    ensures combined == Fill(newList, oldList)
    ensures forall x :: x in combined <==> x in oldList || x in newList
    ensures |combined| <= |newList| + |oldList|
  {
    combined := [];
    var left: nat, right: nat, oldLast: nat := 0, 0, 0;
    var trailing := true;
    while right < |newList|
      invariant left <= right <= |newList|
      invariant Scan(newList, oldList, Pass(combined, left, right, oldLast, trailing))
             == Scan(newList, oldList, Start())
      decreases |newList| - right
    {
      combined, left, right, oldLast, trailing := Iterate(newList, oldList, combined, left, right, oldLast, trailing);
    }
    combined := FinishCombined(newList, oldList, combined, left, oldLast, trailing);
    FillFacts(newList, oldList);
  }

  /** One more entry of the set-based de-duplication: it is kept iff it is
      truthy and not yet kept. */
  lemma KeepStep(combined: seq<string>, k: nat)
    requires k < |combined|
    ensures Dedup(Filter(Truthy, combined[..k + 1]))
         == if Truthy(combined[k]) && combined[k] !in Dedup(Filter(Truthy, combined[..k]))
            then Dedup(Filter(Truthy, combined[..k])) + [combined[k]]
            else Dedup(Filter(Truthy, combined[..k]))
  {
    var u := combined[k];
    assert combined[..k + 1] == combined[..k] + [u];
    FilterAppend(Truthy, combined[..k], [u]);
    if Truthy(u) {
      assert Filter(Truthy, [u]) == [u];
      DedupSnoc(Filter(Truthy, combined[..k]), u);
    } else {
      assert Filter(Truthy, [u]) == [];
      assert Filter(Truthy, combined[..k]) + [] == Filter(Truthy, combined[..k]);
    }
  }

  /** Adds `u` to the kept list and the `Set` unless it is falsy or already
      kept. */
  method Keep(merged: seq<string>, seen: set<string>, u: string) returns (merged': seq<string>, seen': set<string>)
    requires forall x :: x in seen <==> x in merged
    ensures merged' == if Truthy(u) && u !in merged then merged + [u] else merged
    ensures forall x :: x in seen' <==> x in merged'
  {
    merged', seen' := merged, seen;
    if Truthy(u) && u !in seen {
      merged' := merged + [u];
      seen' := seen + {u};
    }
  }

  /** `[...new Set(list.filter(Boolean))]` (:541): one pass with a set of the
      values already kept. */
  method KeepFirstTruthy(combined: seq<string>) returns (merged: seq<string>)
    ensures merged == Dedup(Filter(Truthy, combined))
  {
    merged := [];
    var seen: set<string> := {};
    var k := 0;
    while k < |combined|
      invariant k <= |combined|
      invariant merged == Dedup(Filter(Truthy, combined[..k]))
      invariant forall x :: x in seen <==> x in merged
    {
      KeepStep(combined, k);
      merged, seen := Keep(merged, seen, combined[k]);
      k := k + 1;
    }
    WholeSlices(combined, 0);
  }

  /** `combineImageList(newList, oldList)` as written. */
  method CombineImageList(newList: seq<string>, oldList: seq<string>) returns (merged: seq<string>)
    ensures merged == Combine(newList, oldList)
    ensures NoDups(merged)
    ensures forall x :: x in merged <==> Truthy(x) && (x in newList || x in oldList)
    ensures Filter(NotIn(oldList), merged) == Dedup(Filter(Truthy, Filter(NotIn(oldList), newList)))
    ensures NoDups(oldList) ==> Filter(In(oldList), merged) == Filter(Truthy, oldList)
  {
    var combined := FillCombined(newList, oldList);
    merged := KeepFirstTruthy(combined);
    CombineProperties(newList, oldList);
  }
}
