/** The JavaScript string operations the scanner relies on, counting
    positions in characters: `indexOf` on substrings, `split(', ')[0]`,
    `substring` (which clamps and then swaps its arguments) and the global
    quote removal `replace(/['"]/g, '')`. */
module Text {
  import opened Seqs

  /** `p` occurs in `s` starting at index `j`. */
  predicate OccursAt(s: string, p: string, j: int) {
    0 <= j && j + |p| <= |s| && s[j..j + |p|] == p
  }

  /** `s.indexOf(p, i)` for `i <= |s|`: the first occurrence at or after `i`. */
  function FindFrom(s: string, p: string, i: nat): (r: int)
    requires i <= |s|
    ensures r == -1 || (i <= r && OccursAt(s, p, r))
    ensures r == -1 ==> forall j :: i <= j ==> !OccursAt(s, p, j)
    ensures r != -1 ==> forall j :: i <= j < r ==> !OccursAt(s, p, j)
    decreases |s| - i
  {
    if i + |p| > |s| then -1
    else if s[i..i + |p|] == p then i
    else FindFrom(s, p, i + 1)
  }

  /** `s.indexOf(p)`: the index of the first occurrence of `p`, or -1;
      `s.indexOf(p) === 0` is exactly `s.startsWith(p)`. */
  function Find(s: string, p: string): (r: int)
    ensures r == -1 || OccursAt(s, p, r)
    ensures r == -1 <==> forall j :: !OccursAt(s, p, j)
    ensures r != -1 ==> forall j :: j < r ==> !OccursAt(s, p, j)
    ensures r == 0 <==> |p| <= |s| && s[..|p|] == p
  {
    FindFrom(s, p, 0)
  }

  /** `s.includes(p)`. */
  predicate Contains(s: string, p: string) {
    Find(s, p) != -1
  }

  /** The first occurrence is where `p` occurs with no earlier copy. */
  lemma FindIs(s: string, p: string, i: int)
    requires OccursAt(s, p, i)
    requires forall j :: j < i ==> !OccursAt(s, p, j)
    ensures Find(s, p) == i
  {
  }

  /** `s.split(', ')[0]`: everything before the first `", "`. */
  function FirstLayer(s: string): (r: string)
    ensures |r| <= |s| && s[..|r|] == r
    ensures !Contains(r, ", ")
    ensures r == s || OccursAt(s, ", ", |r|)
  {
    var i := Find(s, ", ");
    if i == -1 then s
    else
      NoEarlierInPrefix(s, ", ", i);
      s[..i]
  }

  /** No occurrence in a prefix that ends before the first occurrence. */
  lemma NoEarlierInPrefix(s: string, p: string, i: int)
    requires 0 < |p| && 0 <= i <= |s|
    requires forall j :: j < i ==> !OccursAt(s, p, j)
    ensures forall j :: !OccursAt(s[..i], p, j)
  {
    forall j ensures !OccursAt(s[..i], p, j) {
      if 0 <= j && j + |p| <= i {
        assert !OccursAt(s, p, j);
        assert s[..i][j..j + |p|] == s[j..j + |p|];
      }
    }
  }

  /** Layers after the first one never matter. */
  lemma FirstLayerOfLayers(l: string, rest: string)
    ensures FirstLayer(l + ", " + rest) == FirstLayer(l)
  {
    var s := l + ", " + rest;
    var i := Find(l, ", ");
    if i == -1 {
      assert s[|l|..|l| + 2] == ", ";
      forall j | j < |l| ensures !OccursAt(s, ", ", j) {
        if 0 <= j && j + 2 <= |l| {
          assert !OccursAt(l, ", ", j);
          assert l[j..j + 2] == s[j..j + 2];
        } else if 0 <= j {
          assert s[j..j + 2][1] == ',';
        }
      }
      FindIs(s, ", ", |l|);
      assert s[..|l|] == l;
    } else {
      assert s[i..i + 2] == l[i..i + 2];
      forall j | 0 <= j < i ensures !OccursAt(s, ", ", j) {
        assert !OccursAt(l, ", ", j);
        assert l[j..j + 2] == s[j..j + 2];
      }
      FindIs(s, ", ", i);
      assert s[..i] == l[..i];
    }
  }

  /** JavaScript's clamping of a `substring` argument to `[0, len]`. */
  function Clamp(k: int, len: nat): (r: nat)
    ensures r <= len
    ensures 0 <= k <= len ==> r == k
  {
    if k < 0 then 0 else if k > len then len else k
  }

  /** `s.substring(start, end)`: both arguments are clamped to the string,
      then swapped if `start > end`, so it never fails. */
  function JsSubstring(s: string, start: int, end: int): (r: string)
    ensures 0 <= start <= end <= |s| ==> r == s[start..end]
    ensures 0 <= end < start <= |s| ==> r == s[end..start]
    ensures |r| <= |s|
  {
    var a, b := Clamp(start, |s|), Clamp(end, |s|);
    if a <= b then s[a..b] else s[b..a]
  }

  /** Not a quote character. */
  predicate Unquoted(c: char) {
    c != '\'' && c != '"'
  }

  /** `s.replace(/['"]/g, '')`. */
  function RemoveQuotes(s: string): (r: string)
    ensures |r| <= |s|
    ensures forall c :: c in r <==> c in s && Unquoted(c)
  {
    Filter(Unquoted, s)
  }

  /** Quote removal works character by character: it distributes over
      concatenation, and a single character is kept iff it is not a quote.
      So the result is the input with exactly its quotes deleted, in order. */
  lemma RemoveQuotesPointwise(a: string, b: string, c: char)
    ensures RemoveQuotes(a + b) == RemoveQuotes(a) + RemoveQuotes(b)
    ensures RemoveQuotes([c]) == if Unquoted(c) then [c] else []
  {
    FilterAppend(Unquoted, a, b);
    assert [c][1..] == [];
  }
}
