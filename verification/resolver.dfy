/** The upgrade decision of `checkImageAttr` (scripts/utility.js:120-197): for
    an unlazied `<img>`, look for a larger version of the picture, first at
    the URL the `argsRegex` match suggests, then in every non-standard
    attribute whose value holds URLs, and report which one won. The size
    probes and the URL rewriting are inputs. */
module Resolver {
  import opened Seqs
  import opened Items

  /** An attribute with the `urlRegex` matches of its value, in order. */
  datatype Attr = Attr(name: string, urls: seq<string>)

  /** What the decision reads from the image element: `currentSrc`, `srcset`,
      `naturalWidth`, the raw URL `argsMatch[1] + argsMatch[2]` when
      `argsRegex` matches `currentSrc`, and the attributes in order. */
  datatype Img = Img(
    currentSrc: string,
    srcset: string,
    naturalWidth: int,
    argsRaw: Option<string>,
    attributes: seq<Attr>)

  /** The outside world: `getImageBitSize`, `getImageRealSize`, and the
      rewrite `url.replace(/https?:/, protocol)`. */
  datatype Probe = Probe(byteSize: string -> int, realSize: string -> int, withProtocol: string -> string)

  /** A successful upgrade: the new source and the name reported for it. */
  datatype Upgrade = Upgrade(url: string, name: string)

  /** The attributes that are never searched for URLs (:4). */
  const PassList: set<string> := {
    "class", "style", "src", "alt", "title", "loading", "crossorigin",
    "height", "width", "sizes", "onerror", "data-error"
  }

  /** The name reported for the raw URL. */
  const RawName: string := "rawUrl"

  /** An attribute worth searching (:124-129): not pass-listed and holding at
      least one URL. */
  predicate Qualifies(a: Attr) {
    a.name !in PassList && |a.urls| > 0
  }

  /** `argsMatch` (:123): the regex matched a non-`data` source. */
  predicate ArgsMatch(img: Img) {
    !StartsWith(img.currentSrc, "data") && img.argsRaw.Some?
  }

  /** `bitSize` (:132): the byte size of the current source. */
  function BitSize(img: Img, p: Probe): int {
    p.byteSize(p.withProtocol(img.currentSrc))
  }

  /** The byte-size comparison decides for `url`: the current byte size is
      known (non-zero) and `url` is strictly heavier (:138-144, :160-166). */
  predicate ByteWins(img: Img, p: Probe, url: string) {
    BitSize(img, p) != 0 && p.byteSize(url) > BitSize(img, p)
  }

  /** A URL is strictly larger than the current picture: the byte-size
      comparison is tried first, and when it does not decide (unknown
      current byte size, or not heavier) the natural widths are compared
      (:146-150, :168-172). */
  predicate Larger(img: Img, p: Probe, url: string): (r: bool)
    ensures BitSize(img, p) == 0 ==> (r <==> p.realSize(url) > img.naturalWidth)
    ensures !ByteWins(img, p, url) ==> (r <==> p.realSize(url) > img.naturalWidth)
    ensures ByteWins(img, p, url) ==> r
  {
    ByteWins(img, p, url) || p.realSize(url) > img.naturalWidth
  }

  /** `lastSize > firstSize ? last : first`: the larger of two URLs by `size`,
      `first` on a tie. */
  function Pick(first: string, last: string, size: string -> int): (r: string)
    ensures r == first || r == last
    ensures size(r) >= size(first) && size(r) >= size(last)
    ensures r == last && last != first ==> size(last) > size(first)
  {
    if size(last) > size(first) then last else first
  }

  /** The trial of a multi-URL attribute (:172-192): byte sizes first when
      known, then natural widths; either URL beating the current picture
      wins, and the larger of the two is taken. */
  function TryPair(img: Img, p: Probe, first: string, last: string): (r: Option<string>)
    ensures r.Some? <==> Larger(img, p, first) || Larger(img, p, last)
    ensures r.Some? ==> r.value in {first, last} && Larger(img, p, r.value)
    ensures ByteWins(img, p, first) || ByteWins(img, p, last) ==> r == Some(Pick(first, last, p.byteSize))
    ensures !ByteWins(img, p, first) && !ByteWins(img, p, last) && r.Some? ==> r == Some(Pick(first, last, p.realSize))
  {
    var bs := BitSize(img, p);
    if bs != 0 && (p.byteSize(first) > bs || p.byteSize(last) > bs) then Some(Pick(first, last, p.byteSize))
    else if p.realSize(first) > img.naturalWidth || p.realSize(last) > img.naturalWidth then
      Some(Pick(first, last, p.realSize))
    else None
  }

  /** The trial of one attribute (:152-193). A single URL equal to
      `currentSrc` is skipped; a single URL wins if it is larger; with
      several URLs only the first and the last are tried. */
  function TryAttr(img: Img, p: Probe, a: Attr): (r: Option<Upgrade>)
    ensures r.Some? ==> r.value.name == a.name && Larger(img, p, r.value.url)
    ensures |a.urls| == 0 ==> r.None?
    ensures |a.urls| == 1 ==>
      (r.Some? <==> a.urls[0] != img.currentSrc && Larger(img, p, p.withProtocol(a.urls[0])))
    ensures |a.urls| == 1 && r.Some? ==> r.value.url == p.withProtocol(a.urls[0])
    ensures |a.urls| > 1 ==>
      var first, last := p.withProtocol(a.urls[0]), p.withProtocol(a.urls[|a.urls| - 1]);
      && (r.Some? <==> Larger(img, p, first) || Larger(img, p, last))
      && (r.Some? ==> r.value.url == TryPair(img, p, first, last).value)
  {
    if |a.urls| == 0 then None
    else if |a.urls| == 1 then
      if a.urls[0] == img.currentSrc then None
      else
        var u := p.withProtocol(a.urls[0]);
        if Larger(img, p, u) then Some(Upgrade(u, a.name)) else None
    else
      match TryPair(img, p, p.withProtocol(a.urls[0]), p.withProtocol(a.urls[|a.urls| - 1]))
      case Some(u) => Some(Upgrade(u, a.name))
      case None => None
  }

  /** The trial of the raw URL (:135-150): only when it differs from
      `currentSrc`. */
  function TryRaw(img: Img, p: Probe): (r: Option<Upgrade>)
    ensures r.Some? <==>
      ArgsMatch(img) && img.argsRaw.value != img.currentSrc && Larger(img, p, p.withProtocol(img.argsRaw.value))
    ensures r.Some? ==> r.value == Upgrade(p.withProtocol(img.argsRaw.value), RawName)
  {
    if ArgsMatch(img) && img.argsRaw.value != img.currentSrc then
      var u := p.withProtocol(img.argsRaw.value);
      if Larger(img, p, u) then Some(Upgrade(u, RawName)) else None
    else None
  }

  /** The attribute loop (:152-194): the outcome of the first attribute
      whose trial wins, or none. */
  function FirstUpgrade(img: Img, p: Probe, attrs: seq<Attr>): (r: Option<Upgrade>)
    ensures r.None? <==> forall i :: 0 <= i < |attrs| ==> TryAttr(img, p, attrs[i]).None?
    ensures r.Some? ==>
      exists i :: 0 <= i < |attrs| && TryAttr(img, p, attrs[i]) == r &&
        (forall j :: 0 <= j < i ==> TryAttr(img, p, attrs[j]).None?)
  {
    if |attrs| == 0 then None
    else
      match TryAttr(img, p, attrs[0])
      case Some(u) => Some(u)
      case None =>
        var r := FirstUpgrade(img, p, attrs[1..]);
        assert forall i :: 1 <= i < |attrs| ==> attrs[1..][i - 1] == attrs[i];
        if r.Some? then
          var k :| 0 <= k < |attrs[1..]| && TryAttr(img, p, attrs[1..][k]) == r &&
            (forall j :: 0 <= j < k ==> TryAttr(img, p, attrs[1..][j]).None?);
          assert TryAttr(img, p, attrs[k + 1]) == r;
          r
        else r
  }

  /** `checkImageAttr(img)` as a decision: the short cut at :130, then the
      raw URL, then the qualifying attributes in document order. The short
      cut is only a shortcut: the decision is always the raw trial if it
      wins, else the first winning qualifying attribute. */
  function Decide(img: Img, p: Probe): (r: Option<Upgrade>)
    ensures r == if TryRaw(img, p).Some? then TryRaw(img, p)
      else FirstUpgrade(img, p, Filter(Qualifies, img.attributes))
    ensures r.Some? ==> Larger(img, p, r.value.url)
    ensures r.Some? ==> r.value.name !in PassList
  {
    var attrList := Filter(Qualifies, img.attributes);
    if !ArgsMatch(img) && img.currentSrc == img.srcset && |attrList| == 0 then None
    else
      match TryRaw(img, p)
      case Some(u) => Some(u)
      case None =>
        var r := FirstUpgrade(img, p, attrList);
        if r.Some? then
          var k :| 0 <= k < |attrList| && TryAttr(img, p, attrList[k]) == r;
          assert attrList[k] in attrList;
          r
        else r
  }

  /** Nothing is reported when no trial wins, and a reported attribute is
      one that qualifies. */
  lemma DecideChoosesAWinner(img: Img, p: Probe)
    ensures Decide(img, p).None? <==>
      TryRaw(img, p).None? &&
      forall a :: a in img.attributes && Qualifies(a) ==> TryAttr(img, p, a).None?
    ensures Decide(img, p).Some? && Decide(img, p) != TryRaw(img, p) ==>
      exists a :: a in img.attributes && Qualifies(a) && TryAttr(img, p, a) == Decide(img, p)
  {
    var attrList := Filter(Qualifies, img.attributes);
    forall a | a in img.attributes && Qualifies(a) ensures a in attrList {
    }
    if FirstUpgrade(img, p, attrList).None? {
      forall a | a in attrList ensures TryAttr(img, p, a).None? {
        var k :| 0 <= k < |attrList| && attrList[k] == a;
      }
    }
  }

  /** The attribute scan of :124-129. */
  method QualifyingAttributes(attributes: seq<Attr>) returns (attrList: seq<Attr>)
    ensures attrList == Filter(Qualifies, attributes)
  {
    attrList := [];
    var n := 0;
    while n < |attributes|
      invariant 0 <= n <= |attributes|
      invariant attrList == Filter(Qualifies, attributes[..n])
    {
      FilterSnoc(Qualifies, attributes[..n], attributes[n]);
      assert attributes[..n + 1] == attributes[..n] + [attributes[n]];
      if Qualifies(attributes[n]) {
        attrList := attrList + [attributes[n]];
      }
      n := n + 1;
    }
    assert attributes[..n] == attributes;
  }

  /** The attribute loop of :152-194, returning at the first win. */
  method AttributeLoop(img: Img, p: Probe, attrList: seq<Attr>) returns (r: Option<Upgrade>)
    ensures r == FirstUpgrade(img, p, attrList)
  {
    var i := 0;
    while i < |attrList|
      invariant 0 <= i <= |attrList|
      invariant FirstUpgrade(img, p, attrList) == FirstUpgrade(img, p, attrList[i..])
    {
      r := TryAttr(img, p, attrList[i]);
      if r.Some? {
        return;
      }
      assert attrList[i..][1..] == attrList[i + 1..];
      i := i + 1;
    }
    r := None;
  }

  /** `checkImageAttr` with its early returns. */
  method CheckImageAttr(img: Img, p: Probe) returns (r: Option<Upgrade>)
    ensures r == Decide(img, p)
  {
    var attrList := QualifyingAttributes(img.attributes);
    if !ArgsMatch(img) && img.currentSrc == img.srcset && |attrList| == 0 {
      return None;
    }
    r := TryRaw(img, p);
    if r.None? {
      r := AttributeLoop(img, p, attrList);
    }
  }
}
