/** The values the image-discovery pipeline passes around (scripts/utility.js):
    page elements, candidates `[url, anchor]`, and the published list entries,
    which are either a URL string or an iframe pair `[url, iframeSrc]`; plus the
    key lookup `getImageInfoIndex` and the string branch of
    `searchImageInfoIndex`. */
module Items {
  import opened Seqs

  /** A page element, abstractly: an identity, its tag name and, for an
      iframe, its `src`. */
  datatype Node = Node(id: nat, tag: string, src: string)

  /** What a candidate URL is attached to: an element of this document, or
      (for candidates reported from inside an iframe) that iframe's address. */
  datatype Anchor = Dom(node: Node) | Address(src: string)

  /** A discovered image: the pair `[url, anchor]`. */
  datatype Candidate = Candidate(url: string, anchor: Anchor)

  /** An entry of a published image list: a plain URL, or an array whose
      first element is the URL (`[url, iframeSrc]` for an image shown inside
      an iframe, `[url]` for a wrapped query). */
  datatype Entry = Url(url: string) | Tuple(head: string, rest: seq<string>)

  /** The lookup key of an entry: `typeof item === 'string' ? item : item[0]`
      (:350-351). */
  function Key(e: Entry): string {
    match e
    case Url(u) => u
    case Tuple(h, _) => h
  }

  /** The URL of a candidate, as a function value. */
  function UrlOf(c: Candidate): string {
    c.url
  }

  /** The URLs of a candidate list. */
  function Urls(s: seq<Candidate>): seq<string> {
    Map(UrlOf, s)
  }

  /** `getImageInfoIndex(array, data)` (:349-353): the first index whose key
      equals the key of `data`, or -1. */
  function ImageInfoIndex(list: seq<Entry>, data: Entry): (r: int)
    ensures -1 <= r < |list|
    ensures r == -1 <==> forall e :: e in list ==> Key(e) != Key(data)
    ensures 0 <= r ==> Key(list[r]) == Key(data)
    ensures 0 <= r ==> forall j :: 0 <= j < r ==> Key(list[j]) != Key(data)
  {
    var keys := Map(Key, list);
    var r := IndexOf(keys, Key(data));
    assert forall e :: e in list ==> Key(e) in keys;
    assert 0 <= r ==> forall j :: 0 <= j < r ==> keys[..r][j] == Key(list[j]);
    r
  }

  /** Does `s` start with `p` (`String.prototype.startsWith`)? */
  predicate StartsWith(s: string, p: string) {
    |p| <= |s| && s[..|p|] == p
  }

  /** The string branch of `searchImageInfoIndex(input, imageList)`
      (:478-486): a `data:` URL is wrapped as `[input]` before the lookup.
      The wrapping changes nothing: the result is the first index whose key
      is the input string. */
  function SearchImageInfoIndex(input: string, list: seq<Entry>): (r: int)
    ensures -1 <= r < |list|
    ensures r == IndexOf(Map(Key, list), input)
  {
    var data := if StartsWith(input, "data") then Tuple(input, []) else Url(input);
    ImageInfoIndex(list, data)
  }

  /** On a list of plain URL strings the lookup is `indexOf`, which is what
      the list merge uses on its string lists. */
  lemma PlainLookupIsIndexOf(list: seq<string>, u: string)
    ensures ImageInfoIndex(Map(s => Url(s), list), Url(u)) == IndexOf(list, u)
  {
    var entries := Map(s => Url(s), list);
    assert Map(Key, entries) == list;
    var r := ImageInfoIndex(entries, Url(u));
    if u in list {
      var k :| 0 <= k < |list| && list[k] == u;
      assert Key(entries[k]) == u;
      assert forall j :: 0 <= j < r ==> list[..r][j] == list[j];
      IndexOfFirst(list, u, r);
    }
  }
}
