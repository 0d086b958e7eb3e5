/** Candidate discovery (scripts/utility.js:225-302): the unlazied `<img>`
    elements, every element's CSS background image and every `<video poster>`
    become `[url, element]` candidates; in filtered mode each is first checked
    against the inclusive size thresholds; then unusable URLs are dropped and
    the first candidate of each URL is kept. */
module Scanner {
  import opened Seqs
  import opened Text
  import opened Items

  /** The scan options that matter here. */
  datatype Options = Options(minWidth: real, minHeight: real, svgFilter: bool)

  /** A page element as the scan sees it: its identity, `currentSrc` (for an
      `<img>`), `poster` (for a `<video>`), computed `backgroundImage`, its
      client box and whether it carries the `ImageViewerLastDom` class. */
  datatype Element = Element(
    node: Node,
    currentSrc: string,
    poster: string,
    backgroundImage: string,
    width: real,
    height: real,
    lastDom: bool)

  /** The three element queries, in document order: `img.simpleUnlazy`, `*`
      and `video[poster]`. */
  datatype Page = Page(images: seq<Element>, elements: seq<Element>, videos: seq<Element>)

  /** The URL of one background layer: `bg.substring(4, bg.length - 1)` with
      every quote removed, i.e. `url(` and the last character stripped. A
      layer of at most four characters is clamped and swapped by `substring`
      down to its last character. */
  function LayerUrl(bg: string): (r: string)
    ensures forall c :: c in r ==> Unquoted(c)
    ensures |bg| >= 5 ==> r == RemoveQuotes(bg[4..|bg| - 1])
    ensures 1 <= |bg| <= 4 ==> r == RemoveQuotes([bg[|bg| - 1]])
    ensures |bg| == 0 ==> r == []
  {
    RemoveQuotes(JsSubstring(bg, 4, |bg| - 1))
  }

  /** The background URL the scan takes from a computed `backgroundImage`
      (:232-237): none for `"none"`; otherwise only the first layer counts, it
      must begin with `url` and must not mention `.svg` (whatever the
      `svgFilter` option says). */
  function BackgroundUrl(bi: string): (r: Option<string>)
    ensures r.Some? <==>
      bi != "none" && StartsWith(FirstLayer(bi), "url") && !Contains(FirstLayer(bi), ".svg")
    ensures r.Some? ==> forall c :: c in r.value ==> Unquoted(c)
  {
    if bi == "none" then None
    else
      var bg := FirstLayer(bi);
      if Find(bg, "url") == 0 && Find(bg, ".svg") == -1 then Some(LayerUrl(bg)) else None
  }

  /** `getDomUrl(dom)` (:340-347): the URL an anchor element shows. For an
      element that is neither an image nor a video it reads back the
      background URL the scan extracted. */
  function DomUrl(e: Element): (r: string)
    ensures e.node.tag != "IMG" && e.node.tag != "VIDEO" && BackgroundUrl(e.backgroundImage).Some? ==>
      r == BackgroundUrl(e.backgroundImage).value
  {
    if e.node.tag == "IMG" then e.currentSrc
    else if e.node.tag == "VIDEO" then e.poster
    else LayerUrl(FirstLayer(e.backgroundImage))
  }

  /** Only the first layer of a multi-layer background is ever looked at. */
  lemma BackgroundFirstLayerOnly(l: string, rest: string)
    ensures BackgroundUrl(l + ", " + rest) == BackgroundUrl(l)
  {
    FirstLayerOfLayers(l, rest);
    var s := l + ", " + rest;
    assert s[|l|] == ',';
    assert s != "none";
  }

  /** `url("X")` yields `X` when `X` has no quotes, no commas and no `.svg`. */
  lemma QuotedUrlYieldsItself(x: string)
    requires forall c :: c in x ==> Unquoted(c) && c != ','
    requires !Contains(x, ".svg")
    ensures BackgroundUrl("url(\"" + x + "\")") == Some(x)
  {
    QuotedIsOneLayer(x, "url(\"" + x + "\")");
    QuotedHasNoSvg(x, "url(\"" + x + "\")");
    QuotedLayerUrl(x, "url(\"" + x + "\")");
    assert ("url(\"" + x + "\")")[..3] == "url";
  }

  /** The characters of `url("X")`. */
  predicate QuotedShape(x: string, s: string) {
    |s| == |x| + 7
    && s[0] == 'u' && s[1] == 'r' && s[2] == 'l' && s[3] == '(' && s[4] == '"'
    && s[|x| + 5] == '"' && s[|x| + 6] == ')'
    && forall k :: 0 <= k < |x| ==> s[5 + k] == x[k]
  }

  lemma QuotedShapeHolds(x: string, s: string)
    requires s == "url(\"" + x + "\")"
    ensures QuotedShape(x, s)
  {
  }

  /** `url("X")` is a single layer when `X` has no comma. */
  lemma QuotedIsOneLayer(x: string, s: string)
    requires forall c :: c in x ==> c != ','
    requires s == "url(\"" + x + "\")"
    ensures FirstLayer(s) == s
  {
    QuotedShapeHolds(x, s);
    forall j | 0 <= j && j + 2 <= |s| ensures !OccursAt(s, ", ", j) {
      assert s[j..j + 2][0] == s[j];
      if 5 <= j < 5 + |x| {
        assert s[j] == x[j - 5];
        assert x[j - 5] in x;
      }
    }
  }

  /** `url("X")` mentions `.svg` only if `X` does. */
  lemma QuotedHasNoSvg(x: string, s: string)
    requires !Contains(x, ".svg")
    requires s == "url(\"" + x + "\")"
    ensures !Contains(s, ".svg")
  {
    QuotedShapeHolds(x, s);
    var n := |x|;
    forall j | 0 <= j && j + 4 <= |s| ensures !OccursAt(s, ".svg", j) {
      assert s[j..j + 4][0] == s[j];
      if 5 <= j && j + 4 <= 5 + n {
        assert !OccursAt(x, ".svg", j - 5);
        assert x[j - 5..j - 1] == s[j..j + 4];
      } else if 5 <= j < 5 + n {
        assert s[j..j + 4][5 + n - j] == s[5 + n];
      }
    }
  }

  /** Stripping `url(`, the last character and the quotes from `url("X")`
      leaves a quote-free `X`. */
  lemma QuotedLayerUrl(x: string, s: string)
    requires forall c :: c in x ==> Unquoted(c)
    requires s == "url(\"" + x + "\")"
    ensures LayerUrl(s) == x
  {
    SliceMiddle("url(", "\"" + x + "\"", ")", s);
    StripQuotes(x, "\"" + x + "\"");
  }

  /** The middle part of a concatenation, by position. */
  lemma SliceMiddle(a: string, m: string, b: string, s: string)
    requires |a| == 4 && |b| == 1 && s == a + m + b
    ensures JsSubstring(s, 4, |s| - 1) == m
  {
    assert s[4..|s| - 1] == m;
  }

  /** Quote removal strips the quotes around a quote-free string. */
  lemma StripQuotes(x: string, q: string)
    requires forall c :: c in x ==> Unquoted(c)
    requires q == "\"" + x + "\""
    ensures RemoveQuotes(q) == x
  {
    FilterUnwrap(Unquoted, '"', x);
  }

  /** The candidate of an unlazied image. */
  function ImageCandidate(e: Element): Candidate {
    Candidate(e.currentSrc, Dom(e.node))
  }

  /** The candidate of a video poster. */
  function PosterCandidate(e: Element): Candidate {
    Candidate(e.poster, Dom(e.node))
  }

  /** The candidate of an element's background image, if it has a usable one. */
  function BackgroundCandidate(e: Element): Option<Candidate> {
    match BackgroundUrl(e.backgroundImage)
    case None => None
    case Some(u) => Some(Candidate(u, Dom(e.node)))
  }

  /** All candidates of `getImageListWithoutFilter` before the clean-up
      (:226-242): exactly every unlazied image, every element's usable
      background and every video poster. */
  function RawUnfiltered(page: Page): (r: seq<Candidate>)
    ensures forall c :: c in r <==>
      || (exists e :: e in page.images && c == ImageCandidate(e))
      || (exists e :: e in page.elements && BackgroundCandidate(e) == Some(c))
      || (exists e :: e in page.videos && c == PosterCandidate(e))
  {
    MapCovers(ImageCandidate, page.images);
    MapCovers(PosterCandidate, page.videos);
    Map(ImageCandidate, page.images)
    + Choose(BackgroundCandidate, page.elements)
    + Map(PosterCandidate, page.videos)
  }

  /** The element's box meets both thresholds (inclusive). */
  predicate Fits(o: Options, e: Element) {
    e.width >= o.minWidth && e.height >= o.minHeight
  }

  /** An image is kept if it fits, or if it is the last viewed element. */
  predicate ImageShown(o: Options, e: Element) {
    Fits(o, e) || e.lastDom
  }

  /** All candidates of `getImageList` in filtered mode before the clean-up
      (:262-288): the same three queries, each element checked against the
      thresholds first. Every candidate comes from a shown image, the
      background of a fitting element, or the poster of a fitting video. */
  function RawFiltered(page: Page, o: Options): (r: seq<Candidate>)
    ensures forall c :: c in r ==>
      || (exists e :: e in page.images && ImageShown(o, e) && c == ImageCandidate(e))
      || (exists e :: e in page.elements && Fits(o, e) && BackgroundCandidate(e) == Some(c))
      || (exists e :: e in page.videos && Fits(o, e) && c == PosterCandidate(e))
  {
    Map(ImageCandidate, Filter(e => ImageShown(o, e), page.images))
    + Choose(BackgroundCandidate, Filter(e => Fits(o, e), page.elements))
    + Map(PosterCandidate, Filter(e => Fits(o, e), page.videos))
  }

  /** `badImage` (:244, :290): empty, `about:blank`, or, with the svg filter
      on, anything mentioning `.svg`. */
  predicate IsBad(url: string, svg: bool) {
    url == "" || url == "about:blank" || (svg && Contains(url, ".svg"))
  }

  /** The URL is usable, as a function value. */
  function Good(svg: bool): string -> bool {
    u => !IsBad(u, svg)
  }

  /** The clean-up both scans end with: skip bad URLs, keep the first
      candidate of every URL. */
  function Unique(s: seq<Candidate>, svg: bool): (r: seq<Candidate>)
    ensures |r| <= |s|
    ensures forall c :: c in r ==> !IsBad(c.url, svg)
  {
    if |s| == 0 then []
    else
      var d := Unique(s[..|s| - 1], svg);
      var c := s[|s| - 1];
      if IsBad(c.url, svg) || c.url in Urls(d) then d else d + [c]
  }

  /** `Unique` on a sequence with one more candidate. */
  lemma UniqueSnoc(init: seq<Candidate>, c: Candidate, s: seq<Candidate>, svg: bool)
    requires s == init + [c]
    ensures Unique(s, svg) ==
      if IsBad(c.url, svg) || c.url in Urls(Unique(init, svg)) then Unique(init, svg)
      else Unique(init, svg) + [c]
  {
    assert s[..|s| - 1] == init;
  }

  /** What the scan returns: the mode switch at :258-260 sends zero
      thresholds to the unfiltered scan. */
  function ImageList(page: Page, o: Options): (r: seq<Candidate>)
    ensures NoDups(Urls(r))
    ensures forall c :: c in r ==> !IsBad(c.url, o.svgFilter)
    ensures o.minWidth == 0.0 && o.minHeight == 0.0 ==> forall c :: c in r ==> c in RawUnfiltered(page)
    ensures o.minWidth != 0.0 || o.minHeight != 0.0 ==> forall c :: c in r ==> c in RawFiltered(page, o)
  {
    var raw := if o.minWidth == 0.0 && o.minHeight == 0.0 then RawUnfiltered(page) else RawFiltered(page, o);
    UniqueProperties(raw, o.svgFilter);
    Unique(raw, o.svgFilter)
  }

  /** The clean-up's URLs are the usable URLs of the input, de-duplicated by
      first occurrence. */
  lemma {:induction false} UniqueUrls(s: seq<Candidate>, svg: bool)
    ensures Urls(Unique(s, svg)) == Dedup(Filter(Good(svg), Urls(s)))
    decreases |s|
  {
    if |s| > 0 {
      UniqueUrls(s[..|s| - 1], svg);
      UniqueUrlsStep(s[..|s| - 1], s[|s| - 1], s, svg);
    }
  }

  /** One step of `UniqueUrls`. */
  lemma UniqueUrlsStep(init: seq<Candidate>, c: Candidate, s: seq<Candidate>, svg: bool)
    requires s == init + [c]
    requires Urls(Unique(init, svg)) == Dedup(Filter(Good(svg), Urls(init)))
    ensures Urls(Unique(s, svg)) == Dedup(Filter(Good(svg), Urls(s)))
  {
    UniqueSnoc(init, c, s, svg);
    MapSnoc(UrlOf, init, c);
    MapSnoc(UrlOf, Unique(init, svg), c);
    FilterSnoc(Good(svg), Urls(init), c.url);
    DedupSnoc(Filter(Good(svg), Urls(init)), c.url);
  }

  /** What the clean-up keeps: candidates of the input with usable URLs, no
      URL twice, and every usable URL of the input represented. */
  lemma UniqueProperties(s: seq<Candidate>, svg: bool)
    ensures NoDups(Urls(Unique(s, svg)))
    ensures forall c :: c in Unique(s, svg) ==> c in s && !IsBad(c.url, svg)
    ensures forall c :: c in s && !IsBad(c.url, svg) ==> c.url in Urls(Unique(s, svg))
  {
    UniqueUrls(s, svg);
    UniqueIsSubseq(s, svg);
    SubseqMembers(Unique(s, svg), s);
    UrlsMembers(Unique(s, svg));
    UrlsMembers(s);
  }

  /** The URL of every candidate of a list is among its URLs. */
  lemma UrlsMembers(s: seq<Candidate>)
    ensures forall c :: c in s ==> c.url in Urls(s)
  {
    forall c | c in s ensures c.url in Urls(s) {
      var k :| 0 <= k < |s| && s[k] == c;
      assert Urls(s)[k] == c.url;
    }
  }

  /** The clean-up keeps its candidates in input order. */
  lemma {:induction false} UniqueIsSubseq(s: seq<Candidate>, svg: bool)
    ensures Subseq(Unique(s, svg), s)
    decreases |s|
  {
    if |s| > 0 {
      UniqueIsSubseq(s[..|s| - 1], svg);
      UniqueSubseqStep(s[..|s| - 1], s[|s| - 1], s, svg);
    }
  }

  /** One step of `UniqueIsSubseq`. */
  lemma UniqueSubseqStep(init: seq<Candidate>, c: Candidate, s: seq<Candidate>, svg: bool)
    requires s == init + [c]
    requires Subseq(Unique(init, svg), init)
    ensures Subseq(Unique(s, svg), s)
  {
    UniqueSnoc(init, c, s, svg);
    SubseqSnoc(Unique(init, svg), init, c);
    assert (Unique(init, svg) + [c])[..|Unique(init, svg)|] == Unique(init, svg);
  }

  /** Every kept candidate is the first candidate of the input with its URL. */
  lemma {:induction false} UniqueKeepsFirst(s: seq<Candidate>, svg: bool)
    ensures forall i :: 0 <= i < |Unique(s, svg)| ==>
      0 <= IndexOf(Urls(s), Unique(s, svg)[i].url) &&
      s[IndexOf(Urls(s), Unique(s, svg)[i].url)] == Unique(s, svg)[i]
    decreases |s|
  {
    if |s| > 0 {
      UniqueKeepsFirst(s[..|s| - 1], svg);
      UniqueFirstStep(s[..|s| - 1], s[|s| - 1], s, svg);
    }
  }

  /** One step of `UniqueKeepsFirst`. */
  lemma UniqueFirstStep(init: seq<Candidate>, c: Candidate, s: seq<Candidate>, svg: bool)
    requires s == init + [c]
    requires forall i :: 0 <= i < |Unique(init, svg)| ==>
      0 <= IndexOf(Urls(init), Unique(init, svg)[i].url) &&
      init[IndexOf(Urls(init), Unique(init, svg)[i].url)] == Unique(init, svg)[i]
    ensures forall i :: 0 <= i < |Unique(s, svg)| ==>
      0 <= IndexOf(Urls(s), Unique(s, svg)[i].url) &&
      s[IndexOf(Urls(s), Unique(s, svg)[i].url)] == Unique(s, svg)[i]
  {
    var u := Unique(init, svg);
    UniqueSnoc(init, c, s, svg);
    KeptStayFirst(init, c, s, svg);
    if !(IsBad(c.url, svg) || c.url in Urls(u)) {
      FreshIsFirst(init, c, s, svg);
      assert Unique(s, svg) == u + [c];
      forall i | 0 <= i < |u| + 1 ensures
        0 <= IndexOf(Urls(s), (u + [c])[i].url) && s[IndexOf(Urls(s), (u + [c])[i].url)] == (u + [c])[i]
      {
        if i < |u| {
          assert (u + [c])[i] == u[i];
        } else {
          assert (u + [c])[i] == c && s[|init|] == c;
        }
      }
    } else {
      assert Unique(s, svg) == u;
    }
  }

  /** Candidates kept earlier keep their first index as the input grows. */
  lemma KeptStayFirst(init: seq<Candidate>, c: Candidate, s: seq<Candidate>, svg: bool)
    requires s == init + [c]
    requires forall i :: 0 <= i < |Unique(init, svg)| ==>
      0 <= IndexOf(Urls(init), Unique(init, svg)[i].url) &&
      init[IndexOf(Urls(init), Unique(init, svg)[i].url)] == Unique(init, svg)[i]
    ensures forall i :: 0 <= i < |Unique(init, svg)| ==>
      0 <= IndexOf(Urls(s), Unique(init, svg)[i].url) &&
      s[IndexOf(Urls(s), Unique(init, svg)[i].url)] == Unique(init, svg)[i]
  {
    MapSnoc(UrlOf, init, c);
    forall i | 0 <= i < |Unique(init, svg)|
      ensures IndexOf(Urls(s), Unique(init, svg)[i].url) == IndexOf(Urls(init), Unique(init, svg)[i].url)
    {
      IndexOfSnoc(Urls(init), c.url, Unique(init, svg)[i].url);
    }
  }

  /** A newly kept candidate is the first of the input with its URL. */
  lemma FreshIsFirst(init: seq<Candidate>, c: Candidate, s: seq<Candidate>, svg: bool)
    requires s == init + [c]
    requires !IsBad(c.url, svg) && c.url !in Urls(Unique(init, svg))
    ensures IndexOf(Urls(s), c.url) == |init|
  {
    UniqueProperties(init, svg);
    MapSnoc(UrlOf, init, c);
    assert c.url !in Urls(init);
    assert Urls(s)[..|init|] == Urls(init);
    IndexOfFirst(Urls(s), c.url, |init|);
  }

  /** The mode switch is only a shortcut: with both thresholds zero and boxes
      of non-negative size, the filtered scan finds the same candidates. */
  lemma ZeroThresholdsKeepAll(page: Page, o: Options)
    requires o.minWidth == 0.0 && o.minHeight == 0.0
    requires forall e :: e in page.images ==> e.width >= 0.0 && e.height >= 0.0
    requires forall e :: e in page.elements ==> e.width >= 0.0 && e.height >= 0.0
    requires forall e :: e in page.videos ==> e.width >= 0.0 && e.height >= 0.0
    ensures RawFiltered(page, o) == RawUnfiltered(page)
    ensures ImageList(page, o) == Unique(RawFiltered(page, o), o.svgFilter)
  {
    FilterKeepsAll(e => ImageShown(o, e), page.images);
    FilterKeepsAll(e => Fits(o, e), page.elements);
    FilterKeepsAll(e => Fits(o, e), page.videos);
  }

  /** Raising the thresholds never adds a candidate. */
  lemma ThresholdsMonotone(page: Page, lo: Options, hi: Options)
    requires lo.minWidth <= hi.minWidth && lo.minHeight <= hi.minHeight
    ensures forall c :: c in RawFiltered(page, hi) ==> c in RawFiltered(page, lo)
  {
    FilterStronger(e => ImageShown(hi, e), e => ImageShown(lo, e), page.images);
    MapMonotone(ImageCandidate,
      Filter(e => ImageShown(hi, e), page.images), Filter(e => ImageShown(lo, e), page.images));
    FilterStronger(e => Fits(hi, e), e => Fits(lo, e), page.elements);
    ChooseMonotone(BackgroundCandidate,
      Filter(e => Fits(hi, e), page.elements), Filter(e => Fits(lo, e), page.elements));
    FilterStronger(e => Fits(hi, e), e => Fits(lo, e), page.videos);
    MapMonotone(PosterCandidate,
      Filter(e => Fits(hi, e), page.videos), Filter(e => Fits(lo, e), page.videos));
  }

  /** The thresholds are inclusive, and the last viewed image is kept
      whatever its size; a background or poster gets no such override. */
  lemma ThresholdsInclusive(page: Page, o: Options, e: Element)
    ensures e in page.images && (Fits(o, e) || e.lastDom) ==> ImageCandidate(e) in RawFiltered(page, o)
    ensures e in page.videos && Fits(o, e) ==> PosterCandidate(e) in RawFiltered(page, o)
    ensures e in page.elements && Fits(o, e) && BackgroundCandidate(e).Some? ==>
      BackgroundCandidate(e).value in RawFiltered(page, o)
    ensures e in page.images && !Fits(o, e) && !e.lastDom ==> e !in Filter(x => ImageShown(o, x), page.images)
    ensures e in page.videos && !Fits(o, e) ==> e !in Filter(x => Fits(o, x), page.videos)
    ensures e in page.elements && !Fits(o, e) ==> e !in Filter(x => Fits(o, x), page.elements)
  {
    var images := Filter(x => ImageShown(o, x), page.images);
    if e in images {
      var m :| 0 <= m < |images| && images[m] == e;
      assert Map(ImageCandidate, images)[m] == ImageCandidate(e);
    }
    var videos := Filter(x => Fits(o, x), page.videos);
    if e in videos {
      var m :| 0 <= m < |videos| && videos[m] == e;
      assert Map(PosterCandidate, videos)[m] == PosterCandidate(e);
    }
  }

  /** The nested-loop de-duplication of `getImageListWithoutFilter`
      (:246-253). */
  method UniqueNested(raw: seq<Candidate>, svg: bool) returns (r: seq<Candidate>)
    ensures r == Unique(raw, svg)
  {
    r := [];
    var i := 0;
    while i < |raw|
      invariant 0 <= i <= |raw|
      invariant r == Unique(raw[..i], svg)
    {
      var c := raw[i];
      assert raw[..i + 1] == raw[..i] + [c];
      UniqueSnoc(raw[..i], c, raw[..i + 1], svg);
      if !IsBad(c.url, svg) {
        var seen := AlreadySeen(r, c.url);
        if !seen {
          r := r + [c];
        }
      }
      i := i + 1;
    }
    assert raw[..i] == raw;
  }

  /** The inner loop of :248-250: whether an earlier kept candidate has the
      URL, scanning until the first hit. */
  method AlreadySeen(r: seq<Candidate>, url: string) returns (seen: bool)
    ensures seen <==> url in Urls(r)
  {
    seen := false;
    var j := 0;
    while j < |r| && !seen
      invariant 0 <= j <= |r|
      invariant seen <==> url in Urls(r[..j])
    {
      assert Urls(r[..j + 1]) == Urls(r[..j]) + [r[j].url];
      seen := r[j].url == url;
      j := j + 1;
    }
    assert j == |r| ==> r[..j] == r;
    if seen {
      assert Urls(r[..j]) <= Urls(r);
    }
  }

  /** The set-based de-duplication of `getImageList` (:292-299). */
  method UniqueWithSet(raw: seq<Candidate>, svg: bool) returns (r: seq<Candidate>)
    ensures r == Unique(raw, svg)
  {
    r := [];
    var seen: set<string> := {};
    var i := 0;
    while i < |raw|
      invariant 0 <= i <= |raw|
      invariant r == Unique(raw[..i], svg)
      invariant forall u :: u in seen <==> u in Urls(r)
    {
      var c := raw[i];
      assert raw[..i + 1][..i] == raw[..i];
      if !IsBad(c.url, svg) && c.url !in seen {
        seen := seen + {c.url};
        assert Urls(r + [c]) == Urls(r) + [c.url];
        r := r + [c];
      }
      i := i + 1;
    }
    assert raw[..i] == raw;
  }

  /** `getImageListWithoutFilter(options)` over an abstract page. */
  method GetImageListWithoutFilter(page: Page, o: Options) returns (r: seq<Candidate>)
    ensures r == Unique(RawUnfiltered(page), o.svgFilter)
  {
    r := UniqueNested(RawUnfiltered(page), o.svgFilter);
  }

  /** `getImageList(options)` over an abstract page. */
  method GetImageList(page: Page, o: Options) returns (r: seq<Candidate>)
    ensures r == ImageList(page, o)
  {
    if o.minWidth == 0.0 && o.minHeight == 0.0 {
      r := GetImageListWithoutFilter(page, o);
    } else {
      r := UniqueWithSet(RawFiltered(page, o), o.svgFilter);
    }
  }
}
