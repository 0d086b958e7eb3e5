/** Generic sequence vocabulary shared by the whole model: filtering, mapping,
    first-occurrence lookup and first-occurrence de-duplication, with the
    algebraic facts the merge and scanner proofs rely on. */
module Seqs {

  /** An optional value. */
  datatype Option<T> = None | Some(value: T)

  /** No value occurs twice. */
  predicate NoDups<T(==)>(s: seq<T>) {
    forall i, j :: 0 <= i < j < |s| ==> s[i] != s[j]
  }

  /** The elements of `s` satisfying `p`, in order (JavaScript `Array.prototype.filter`). */
  function Filter<T(!new)>(p: T -> bool, s: seq<T>): (r: seq<T>)
    ensures |r| <= |s|
    ensures forall x :: x in r <==> x in s && p(x)
  {
    if |s| == 0 then []
    else (if p(s[0]) then [s[0]] else []) + Filter(p, s[1..])
  }

  /** Point-wise image of `s` under `f` (JavaScript `Array.prototype.map`). */
  function Map<T, U>(f: T -> U, s: seq<T>): (r: seq<U>)
    ensures |r| == |s|
    ensures forall i :: 0 <= i < |s| ==> r[i] == f(s[i])
    ensures forall y :: y in r ==> exists x :: x in s && y == f(x)
  {
    seq(|s|, i requires 0 <= i < |s| => f(s[i]))
  }

  /** Index of the first occurrence of `x` in `s`, or -1 (JavaScript `indexOf`). */
  function IndexOf<T(==)>(s: seq<T>, x: T): (i: int)
    ensures -1 <= i < |s|
    ensures i == -1 <==> x !in s
    ensures 0 <= i ==> s[i] == x && x !in s[..i]
  {
    if |s| == 0 then -1
    else if s[0] == x then 0
    else
      var j := IndexOf(s[1..], x);
      assert j >= 0 ==> s[..j + 1] == [s[0]] + s[1..][..j];
      if j == -1 then -1 else j + 1
  }

  /** First-occurrence de-duplication: the value set of `s` in the order of
      first appearance (JavaScript `[...new Set(s)]`). */
  function Dedup<T(==,!new)>(s: seq<T>): (r: seq<T>)
    ensures NoDups(r)
    ensures forall x :: x in r <==> x in s
    ensures |r| <= |s|
  {
    if |s| == 0 then []
    else
      var init := s[..|s| - 1];
      assert s == init + [s[|s| - 1]];
      var d := Dedup(init);
      if s[|s| - 1] in d then d else d + [s[|s| - 1]]
  }

  lemma {:induction false} FilterAppend<T(!new)>(p: T -> bool, a: seq<T>, b: seq<T>)
    ensures Filter(p, a + b) == Filter(p, a) + Filter(p, b)
    decreases |a|
  {
    if |a| == 0 {
      assert a + b == b;
    } else {
      assert (a + b)[1..] == a[1..] + b;
      FilterAppend(p, a[1..], b);
    }
  }

  /** Filtering with a predicate every element meets changes nothing. */
  lemma {:induction false} FilterKeepsAll<T(!new)>(p: T -> bool, s: seq<T>)
    requires forall x :: x in s ==> p(x)
    ensures Filter(p, s) == s
    decreases |s|
  {
    if |s| > 0 {
      assert forall x :: x in s[1..] ==> x in s;
      FilterKeepsAll(p, s[1..]);
    }
  }

  /** Filtering with a predicate no element meets leaves nothing. */
  lemma {:induction false} FilterDropsAll<T(!new)>(p: T -> bool, s: seq<T>)
    requires forall x :: x in s ==> !p(x)
    ensures Filter(p, s) == []
    decreases |s|
  {
    if |s| > 0 {
      assert forall x :: x in s[1..] ==> x in s;
      FilterDropsAll(p, s[1..]);
    }
  }

  /** Two filters commute. */
  lemma {:induction false} FilterCommute<T(!new)>(p: T -> bool, q: T -> bool, s: seq<T>)
    ensures Filter(p, Filter(q, s)) == Filter(q, Filter(p, s))
    decreases |s|
  {
    if |s| > 0 {
      var h := [s[0]];
      assert s == h + s[1..];
      FilterAppend(q, h, s[1..]);
      FilterAppend(p, h, s[1..]);
      FilterAppend(p, Filter(q, h), Filter(q, s[1..]));
      FilterAppend(q, Filter(p, h), Filter(p, s[1..]));
      FilterCommute(p, q, s[1..]);
    }
  }

  /** One step of `Dedup`: a trailing value is kept iff it is new. */
  lemma DedupSnoc<T(!new)>(s: seq<T>, x: T)
    ensures x in s ==> Dedup(s + [x]) == Dedup(s)
    ensures x !in s ==> Dedup(s + [x]) == Dedup(s) + [x]
  {
    assert (s + [x])[..|s + [x]| - 1] == s;
    if x in Dedup(s) {
      var k :| 0 <= k < |Dedup(s)| && Dedup(s)[k] == x;
      assert Dedup(s)[k] in s;
    }
  }

  /** Appending values that already occur changes no first occurrence. */
  lemma {:induction false} DedupAppendCovered<T(!new)>(a: seq<T>, b: seq<T>)
    requires forall x :: x in b ==> x in a
    ensures Dedup(a + b) == Dedup(a)
    decreases |b|
  {
    if |b| == 0 {
      assert a + b == a;
    } else {
      var b' := b[..|b| - 1];
      var x := b[|b| - 1];
      assert a + b == (a + b') + [x];
      assert forall y :: y in b' ==> y in b;
      DedupAppendCovered(a, b');
      assert x in a + b';
      DedupSnoc(a + b', x);
    }
  }

  /** Dropping the last element of a duplicate-free sequence of values new
      to `a` keeps both properties, and the dropped value is new to the rest. */
  lemma FreshPrefix<T(!new)>(a: seq<T>, b: seq<T>)
    requires |b| > 0
    requires NoDups(b)
    requires forall x :: x in b ==> x !in a
    ensures NoDups(b[..|b| - 1])
    ensures forall y :: y in b[..|b| - 1] ==> y !in a
    ensures b[|b| - 1] !in a + b[..|b| - 1]
  {
    var b' := b[..|b| - 1];
    forall y | y in b' ensures y !in a {
      var k :| 0 <= k < |b'| && b'[k] == y;
      assert b[k] == y;
    }
  }

  /** Re-association used when peeling the last element off a suffix. */
  lemma SnocSplit<T>(d: seq<T>, b: seq<T>)
    requires |b| > 0
    ensures d + b == (d + b[..|b| - 1]) + [b[|b| - 1]]
  {
    assert b == b[..|b| - 1] + [b[|b| - 1]];
  }

  /** Appending distinct values that are new keeps them all, in order. */
  lemma {:induction false} DedupAppendFresh<T(!new)>(a: seq<T>, b: seq<T>)
    requires NoDups(b)
    requires forall x :: x in b ==> x !in a
    ensures Dedup(a + b) == Dedup(a) + b
    decreases |b|
  {
    if |b| == 0 {
      assert a + b == a;
    } else {
      var b' := b[..|b| - 1];
      var x := b[|b| - 1];
      FreshPrefix(a, b);
      DedupAppendFresh(a, b');
      DedupSnoc(a + b', x);
      SnocSplit(a, b);
      SnocSplit(Dedup(a), b);
    }
  }

  /** A duplicate-free sequence is its own de-duplication. */
  lemma DedupOfNoDups<T(!new)>(s: seq<T>)
    requires NoDups(s)
    ensures Dedup(s) == s
  {
    DedupAppendFresh([], s);
    assert [] + s == s;
  }

  /** Filtering commutes with first-occurrence de-duplication. */
  lemma {:induction false} FilterDedup<T(!new)>(p: T -> bool, s: seq<T>)
    ensures Filter(p, Dedup(s)) == Dedup(Filter(p, s))
    decreases |s|
  {
    if |s| > 0 {
      var init := s[..|s| - 1];
      var x := s[|s| - 1];
      assert s == init + [x];
      FilterDedup(p, init);
      FilterAppend(p, init, [x]);
      var d := Dedup(init);
      if x in d {
        assert Dedup(s) == d;
        if p(x) {
          assert Filter(p, [x]) == [x];
          assert x in Filter(p, init);
          DedupAppendCovered(Filter(p, init), [x]);
        } else {
          assert Filter(p, [x]) == [];
          assert Filter(p, init) + [] == Filter(p, init);
        }
      } else {
        assert Dedup(s) == d + [x];
        FilterAppend(p, d, [x]);
        if p(x) {
          assert Filter(p, [x]) == [x];
          assert x !in Filter(p, init);
          DedupAppendFresh(Filter(p, init), [x]);
        } else {
          assert Filter(p, [x]) == [];
          assert Filter(p, init) + [] == Filter(p, init);
          assert Filter(p, d) + [] == Filter(p, d);
        }
      }
    }
  }

  /** Values already present, then one new value: only the new one survives
      de-duplication. */
  lemma SettledThenFresh<T(!new)>(a: seq<T>, g: seq<T>, b: seq<T>, x: T, f: seq<T>, d: seq<T>, d': seq<T>)
    requires forall y :: y in b ==> y in a
    requires x !in a && x !in g
    requires f == (a + g + b) + [x]
    requires Dedup(a + g) == d && d + [x] == d'
    ensures Dedup(f) == d'
  {
    DedupAppendCovered(a + g, b);
    DedupSnoc(a + g + b, x);
  }

  /** The first occurrence is where `x` occurs with no earlier copy. */
  lemma IndexOfFirst<T>(s: seq<T>, x: T, i: nat)
    requires i < |s| && s[i] == x && x !in s[..i]
    ensures IndexOf(s, x) == i
  {
  }

  /** Slices that reach the end of a sequence. */
  lemma WholeSlices<T>(s: seq<T>, lo: nat)
    requires lo <= |s|
    ensures s[lo..|s|] == s[lo..] && s[..|s|] == s
  {
  }

  /** A prefix extended by the next element. */
  lemma SliceSnoc<T>(s: seq<T>, i: nat)
    requires i < |s|
    ensures s[..i] + [s[i]] == s[..i + 1]
  {
  }

  /** In a duplicate-free sequence an element does not occur before its index. */
  lemma NotBefore<T>(s: seq<T>, lo: nat, i: nat)
    requires NoDups(s)
    requires lo <= i < |s|
    ensures s[i] !in s[lo..i]
  {
    assert forall j :: 0 <= j < i - lo ==> s[lo..i][j] == s[lo + j];
  }

  /** The defined results of `f` over `s`, in order (a filter and a map in
      one pass). */
  function Choose<T, U>(f: T -> Option<U>, s: seq<T>): (r: seq<U>)
    ensures |r| <= |s|
    ensures forall x :: x in s && f(x).Some? ==> f(x).value in r
    ensures forall y :: y in r ==> exists x :: x in s && f(x) == Some(y)
  {
    if |s| == 0 then []
    else
      var rest := Choose(f, s[1..]);
      assert forall x :: x in s[1..] ==> x in s;
      (if f(s[0]).Some? then [f(s[0]).value] else []) + rest
  }

  /** `a` is `b` with some elements left out: an order-preserving
      subsequence. */
  predicate Subseq<T(==)>(a: seq<T>, b: seq<T>)
    decreases |b|
  {
    if |a| == 0 then true
    else if |b| == 0 then false
    else if a[|a| - 1] == b[|b| - 1] then Subseq(a[..|a| - 1], b[..|b| - 1])
    else Subseq(a, b[..|b| - 1])
  }

  /** Dropping the last element keeps a subsequence. */
  lemma {:induction false} SubseqDropLast<T>(a: seq<T>, b: seq<T>)
    requires |a| > 0 && Subseq(a, b)
    ensures Subseq(a[..|a| - 1], b)
    decreases |b|, 0
  {
    var a' := a[..|a| - 1];
    if |a'| > 0 {
      if a[|a| - 1] == b[|b| - 1] {
        SubseqSnoc(a', b[..|b| - 1], b[|b| - 1]);
        assert b[..|b| - 1] + [b[|b| - 1]] == b;
      } else {
        SubseqDropLast(a, b[..|b| - 1]);
        SubseqSnoc(a', b[..|b| - 1], b[|b| - 1]);
        assert b[..|b| - 1] + [b[|b| - 1]] == b;
      }
    }
  }

  /** A subsequence stays one when the sequence grows. */
  lemma {:induction false} SubseqSnoc<T>(a: seq<T>, b: seq<T>, x: T)
    requires Subseq(a, b)
    ensures Subseq(a, b + [x])
    decreases |b|, 1
  {
    assert (b + [x])[..|b|] == b;
    if |a| > 0 && a[|a| - 1] == x {
      SubseqDropLast(a, b);
    }
  }

  /** A value already present keeps its first index when the sequence grows. */
  lemma IndexOfSnoc<T>(s: seq<T>, x: T, y: T)
    requires y in s
    ensures IndexOf(s + [x], y) == IndexOf(s, y)
  {
    var i := IndexOf(s, y);
    assert (s + [x])[..i] == s[..i];
    IndexOfFirst(s + [x], y, i);
  }

  /** Mapping distributes over appending one element. */
  lemma MapSnoc<T, U>(f: T -> U, s: seq<T>, x: T)
    ensures Map(f, s + [x]) == Map(f, s) + [f(x)]
  {
  }

  /** Filtering distributes over appending one element. */
  lemma FilterSnoc<T(!new)>(p: T -> bool, s: seq<T>, x: T)
    ensures Filter(p, s + [x]) == if p(x) then Filter(p, s) + [x] else Filter(p, s)
  {
    FilterAppend(p, s, [x]);
    assert Filter(p, [x]) == (if p(x) then [x] else []) + Filter(p, []);
  }

  /** The elements of a subsequence occur in the sequence. */
  lemma {:induction false} SubseqMembers<T>(a: seq<T>, b: seq<T>)
    requires Subseq(a, b)
    ensures forall x :: x in a ==> x in b
    decreases |b|
  {
    if |a| > 0 {
      var b' := b[..|b| - 1];
      if a[|a| - 1] == b[|b| - 1] {
        SubseqMembers(a[..|a| - 1], b');
        assert a == a[..|a| - 1] + [a[|a| - 1]];
      } else {
        SubseqMembers(a, b');
      }
      assert forall x :: x in b' ==> x in b;
    }
  }

  /** Every element's image occurs in the mapped sequence. */
  lemma MapCovers<T, U>(f: T -> U, s: seq<T>)
    ensures forall x :: x in s ==> f(x) in Map(f, s)
  {
    forall x | x in s ensures f(x) in Map(f, s) {
      var k :| 0 <= k < |s| && s[k] == x;
      assert Map(f, s)[k] == f(x);
    }
  }

  /** Mapping preserves inclusion of element sets. */
  lemma MapMonotone<T, U>(f: T -> U, a: seq<T>, b: seq<T>)
    requires forall x :: x in a ==> x in b
    ensures forall y :: y in Map(f, a) ==> y in Map(f, b)
  {
    forall y | y in Map(f, a) ensures y in Map(f, b) {
      var k :| 0 <= k < |a| && Map(f, a)[k] == y;
      assert a[k] in a;
      var m :| 0 <= m < |b| && b[m] == a[k];
      assert Map(f, b)[m] == y;
    }
  }

  /** `Choose` preserves inclusion of element sets. */
  lemma ChooseMonotone<T, U>(f: T -> Option<U>, a: seq<T>, b: seq<T>)
    requires forall x :: x in a ==> x in b
    ensures forall y :: y in Choose(f, a) ==> y in Choose(f, b)
  {
    forall y | y in Choose(f, a) ensures y in Choose(f, b) {
      var x :| x in a && f(x) == Some(y);
      assert x in b;
    }
  }

  /** Filtering with a stronger predicate keeps fewer elements. */
  lemma FilterStronger<T(!new)>(p: T -> bool, q: T -> bool, s: seq<T>)
    requires forall x :: p(x) ==> q(x)
    ensures forall x :: x in Filter(p, s) ==> x in Filter(q, s)
  {
  }

  /** Filtering out a delimiter that wraps elements that all pass. */
  lemma FilterUnwrap<T(!new)>(p: T -> bool, e: T, x: seq<T>)
    requires !p(e) && forall y :: y in x ==> p(y)
    ensures Filter(p, [e] + x + [e]) == x
  {
    FilterAppend(p, [e] + x, [e]);
    FilterAppend(p, [e], x);
    FilterKeepsAll(p, x);
    assert Filter(p, [e]) == [];
  }

  /** Extending both sequences by the same element keeps a subsequence. */
  lemma SubseqBoth<T>(a: seq<T>, b: seq<T>, x: T)
    requires Subseq(a, b)
    ensures Subseq(a + [x], b + [x])
  {
    assert (a + [x])[..|a|] == a;
    assert (b + [x])[..|b|] == b;
  }

  /** Extending only the longer sequence keeps a subsequence. */
  lemma SubseqGrow<T>(a: seq<T>, b: seq<T>, y: seq<T>)
    requires Subseq(a, b) && |y| <= 1
    ensures Subseq(a, b + y)
  {
    if |y| == 0 {
      assert b + y == b;
    } else {
      assert y == [y[0]];
      SubseqSnoc(a, b, y[0]);
    }
  }

  /** A filter keeps an order-preserving subsequence. */
  lemma {:induction false} FilterIsSubseq<T(!new)>(p: T -> bool, s: seq<T>)
    ensures Subseq(Filter(p, s), s)
    decreases |s|
  {
    if |s| > 0 {
      var init, x := s[..|s| - 1], s[|s| - 1];
      FilterIsSubseq(p, init);
      assert s == init + [x];
      FilterSnoc(p, init, x);
      if p(x) {
        SubseqBoth(Filter(p, init), init, x);
      } else {
        SubseqSnoc(Filter(p, init), init, x);
      }
    }
  }
}
