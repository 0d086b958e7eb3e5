/** Iframe re-anchoring (scripts/utility.js:303-338): candidates reported from
    inside an iframe carry that frame's address instead of an element; they
    are re-attached to the iframe element whose redirected address matches,
    and after sorting every candidate is published as a URL, or as the pair
    `[url, iframeSrc]` when its anchor is an iframe. */
module Frames {
  import opened Seqs
  import opened Items

  /** An element-anchored candidate. */
  predicate IsDomAnchored(c: Candidate) {
    c.anchor.Dom?
  }

  /** The fate of one candidate when the page has iframes: an element-anchored
      one passes, an address-anchored one moves to the first iframe whose
      redirected address is its anchor, or is dropped. */
  function Reanchor(c: Candidate, iframes: seq<Node>, redirects: seq<string>): (r: seq<Candidate>)
    requires |redirects| == |iframes|
    ensures |r| <= 1
    ensures c.anchor.Dom? ==> r == [c]
    ensures c.anchor.Address? ==> (|r| == 1 <==> c.anchor.src in redirects)
    ensures |r| == 1 ==> r[0].url == c.url && r[0].anchor.Dom?
  {
    match c.anchor
    case Dom(_) => [c]
    case Address(src) =>
      var k := IndexOf(redirects, src);
      if k == -1 then [] else [Candidate(c.url, Dom(iframes[k]))]
  }

  /** The loop of `mapSrcToIframe` over all candidates. */
  function ReanchorAll(data: seq<Candidate>, iframes: seq<Node>, redirects: seq<string>): (r: seq<Candidate>)
    requires |redirects| == |iframes|
    ensures |r| <= |data|
    ensures forall i :: 0 <= i < |r| ==> r[i].anchor.Dom?
    ensures forall c :: c in data && c.anchor.Dom? ==> c in r
  {
    if |data| == 0 then []
    else ReanchorAll(data[..|data| - 1], iframes, redirects) + Reanchor(data[|data| - 1], iframes, redirects)
  }

  /** `mapSrcToIframe(dataList)` (:303-323), with the iframe elements and the
      redirected iframe addresses (one per iframe, in the same order) as
      inputs: without iframes the list is returned as it is. */
  function MapSrcToIframe(data: seq<Candidate>, iframes: seq<Node>, redirects: seq<string>): (r: seq<Candidate>)
    requires |redirects| == |iframes|
    ensures |r| <= |data|
    ensures |iframes| == 0 ==> r == data
    ensures |iframes| > 0 ==> forall c :: c in r ==> IsDomAnchored(c)
  {
    if |iframes| == 0 then data
    else
      AllDomAnchored(data, iframes, redirects);
      ReanchorAll(data, iframes, redirects)
  }

  /** After re-anchoring every candidate is attached to an element. */
  lemma {:induction false} AllDomAnchored(data: seq<Candidate>, iframes: seq<Node>, redirects: seq<string>)
    requires |redirects| == |iframes|
    ensures forall c :: c in ReanchorAll(data, iframes, redirects) ==> IsDomAnchored(c)
    decreases |data|
  {
    if |data| > 0 {
      AllDomAnchored(data[..|data| - 1], iframes, redirects);
    }
  }

  /** Re-anchoring treats candidates one by one: it distributes over
      concatenation. */
  lemma {:induction false} ReanchorAppend(a: seq<Candidate>, b: seq<Candidate>, iframes: seq<Node>, redirects: seq<string>)
    requires |redirects| == |iframes|
    ensures ReanchorAll(a + b, iframes, redirects)
      == ReanchorAll(a, iframes, redirects) + ReanchorAll(b, iframes, redirects)
    decreases |b|
  {
    if |b| == 0 {
      assert a + b == a;
    } else {
      var b', x := b[..|b| - 1], b[|b| - 1];
      assert (a + b)[..|a + b| - 1] == a + b';
      assert (a + b)[|a + b| - 1] == x;
      ReanchorAppend(a, b', iframes, redirects);
    }
  }

  /** What happens to a single candidate when the page has iframes: an
      element-anchored one is kept as it is; an address-anchored one is kept
      iff its address occurs among the redirected addresses, attached to the
      iframe at the first such position. */
  lemma ReanchorOne(c: Candidate, iframes: seq<Node>, redirects: seq<string>)
    requires |redirects| == |iframes| > 0
    ensures c.anchor.Dom? ==> MapSrcToIframe([c], iframes, redirects) == [c]
    ensures c.anchor.Address? && c.anchor.src !in redirects ==>
      MapSrcToIframe([c], iframes, redirects) == []
    ensures c.anchor.Address? && c.anchor.src in redirects ==>
      0 <= IndexOf(redirects, c.anchor.src) < |iframes| &&
      redirects[IndexOf(redirects, c.anchor.src)] == c.anchor.src &&
      MapSrcToIframe([c], iframes, redirects)
        == [Candidate(c.url, Dom(iframes[IndexOf(redirects, c.anchor.src)]))]
  {
    assert [c][..0] == [];
  }

  /** Element-anchored candidates all pass through, unchanged and in order. */
  lemma {:induction false} DomAnchoredKept(data: seq<Candidate>, iframes: seq<Node>, redirects: seq<string>)
    requires |redirects| == |iframes|
    ensures Subseq(Filter(IsDomAnchored, data), MapSrcToIframe(data, iframes, redirects))
    decreases |data|
  {
    if |iframes| == 0 {
      FilterIsSubseq(IsDomAnchored, data);
    } else if |data| > 0 {
      DomAnchoredKept(data[..|data| - 1], iframes, redirects);
      DomAnchoredStep(data[..|data| - 1], data[|data| - 1], data, iframes, redirects);
    }
  }

  /** One step of `DomAnchoredKept`. */
  lemma DomAnchoredStep(init: seq<Candidate>, c: Candidate, data: seq<Candidate>, iframes: seq<Node>, redirects: seq<string>)
    requires |redirects| == |iframes| > 0
    requires data == init + [c]
    requires Subseq(Filter(IsDomAnchored, init), ReanchorAll(init, iframes, redirects))
    ensures Subseq(Filter(IsDomAnchored, data), ReanchorAll(data, iframes, redirects))
  {
    ReanchorSnoc(init, c, data, iframes, redirects);
    FilterSnoc(IsDomAnchored, init, c);
    if c.anchor.Dom? {
      SubseqBoth(Filter(IsDomAnchored, init), ReanchorAll(init, iframes, redirects), c);
    } else {
      SubseqGrow(Filter(IsDomAnchored, init), ReanchorAll(init, iframes, redirects), Reanchor(c, iframes, redirects));
    }
  }

  /** `ReanchorAll` on a list with one more candidate. */
  lemma ReanchorSnoc(init: seq<Candidate>, c: Candidate, data: seq<Candidate>, iframes: seq<Node>, redirects: seq<string>)
    requires |redirects| == |iframes|
    requires data == init + [c]
    ensures ReanchorAll(data, iframes, redirects)
      == ReanchorAll(init, iframes, redirects) + Reanchor(c, iframes, redirects)
  {
    assert data[..|data| - 1] == init;
  }

  /** The published entry of a sorted candidate (:329-336): an iframe anchor
      gives `[url, iframe.src]`, any other anchor the bare URL. */
  function Project(c: Candidate): (r: Entry)
    ensures Key(r) == c.url
    ensures r.Tuple? <==> c.anchor.Dom? && c.anchor.node.tag == "IFRAME"
    ensures r.Tuple? ==> r.rest == [c.anchor.node.src]
  {
    match c.anchor
    case Dom(n) => if n.tag == "IFRAME" then Tuple(c.url, [n.src]) else Url(c.url)
    case Address(_) => Url(c.url)
  }

  /** The published list looks up exactly like the candidate URLs it came
      from. */
  lemma ProjectedLookup(cs: seq<Candidate>, u: string)
    ensures ImageInfoIndex(Map(Project, cs), Url(u)) == IndexOf(Urls(cs), u)
  {
    var entries := Map(Project, cs);
    assert Map(Key, entries) == Urls(cs);
    var r := ImageInfoIndex(entries, Url(u));
    if u in Urls(cs) {
      var k :| 0 <= k < |cs| && Urls(cs)[k] == u;
      assert Key(entries[k]) == u;
      assert forall j :: 0 <= j < r ==> Urls(cs)[..r][j] == Urls(cs)[j];
      IndexOfFirst(Urls(cs), u, r);
    }
  }

  /** One iteration of the loop of `mapSrcToIframe` (:312-321). */
  method ReanchorStep(c: Candidate, iframes: seq<Node>, redirects: seq<string>)
    returns (moved: seq<Candidate>)
    requires |redirects| == |iframes|
    ensures moved == Reanchor(c, iframes, redirects)
  {
    moved := [];
    match c.anchor {
      case Dom(_) =>
        moved := [c];
      case Address(src) =>
        var k := IndexOf(redirects, src);
        if k != -1 {
          moved := [Candidate(c.url, Dom(iframes[k]))];
        }
    }
  }

  /** `mapSrcToIframe` as the loop it is written as. */
  method MapSrcToIframeLoop(data: seq<Candidate>, iframes: seq<Node>, redirects: seq<string>)
    returns (r: seq<Candidate>)
    requires |redirects| == |iframes|
    ensures r == MapSrcToIframe(data, iframes, redirects)
  {
    if |iframes| == 0 {
      return data;
    }
    r := [];
    var i := 0;
    while i < |data|
      invariant 0 <= i <= |data|
      invariant r == ReanchorAll(data[..i], iframes, redirects)
    {
      r := ReanchorNext(data, i, r, iframes, redirects);
      i := i + 1;
    }
    assert data[..i] == data;
  }

  /** One pass of the loop: the result so far extended by the next
      candidate's re-anchoring. */
  method ReanchorNext(data: seq<Candidate>, i: nat, r: seq<Candidate>, iframes: seq<Node>, redirects: seq<string>)
    returns (r': seq<Candidate>)
    requires |redirects| == |iframes| && i < |data|
    requires r == ReanchorAll(data[..i], iframes, redirects)
    ensures r' == ReanchorAll(data[..i + 1], iframes, redirects)
  {
    ReanchorSnoc(data[..i], data[i], data[..i + 1], iframes, redirects);
    var moved := ReanchorStep(data[i], iframes, redirects);
    r' := r + moved;
  }
}
