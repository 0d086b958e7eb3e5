# Image discovery and list merge of the Image Viewer content script

This Dafny project models the list logic of `scripts/utility.js`, the module that finds
the images on a page and keeps the published image list stable while the page changes:

- **Candidate discovery** (`getImageListWithoutFilter`, `getImageList`). Three element
  queries produce `[url, element]` candidates: unlazied `<img>` elements, every element's
  CSS background image, and `<video poster>` elements. In filtered mode each element is
  first checked against inclusive size thresholds. Unusable URLs are then dropped, and the
  first candidate of each URL is kept. The background URL goes through JavaScript
  `split`, `indexOf`, `substring` and `replace`. The model follows their branches and the
  clamping and swapping of `substring`'s arguments, counting positions in characters
  (see "Left out" for UTF-16).
- **Iframe re-anchoring** (`mapSrcToIframe`). Candidates reported from inside an iframe
  carry the frame's address. They are moved onto the iframe element whose redirected
  address matches, or dropped. After sorting, each candidate is published as a URL, or as
  `[url, iframeSrc]` when its anchor is an iframe.
- **Entry lookup** (`getImageInfoIndex`, and the string branch of `searchImageInfoIndex`).
- **The positional merge** (`combineImageList`). One forward pass over the new list with
  three cursors, `leftIndex`, `rightIndex` and `oldArrayLastIndex`. An *anchor* is a new
  entry that occurs in the old list and has not been written yet. Each anchor flushes the
  old entries in front of it, then the pending new run. Afterwards the old tail and the
  trailing new run are flushed, empty entries are dropped, and duplicates are removed by
  first occurrence.
- **The lazy-image upgrade decision** of `checkImageAttr`. A larger version of an image
  is sought first at the URL suggested by the `argsRegex` match, then in every attribute
  outside the pass-list whose value holds URLs. The first candidate that is strictly
  larger wins.

Modules:

- `Seqs` (seqs.dfy): JavaScript array vocabulary (`filter`, `map`, `indexOf`,
  `[...new Set(..)]`) and sequence lemmas.
- `Text` (text.dfy): the string operations.
- `Items` (items.dfy): the values that are passed around, and the lookups.
- `Merge` (merge.dfy): `combineImageList`.
- `Placement` (placement.dfy): an independent reference merge that says where each
  entry lands, proved equal to the cursor pass, and the order guarantees that follow.
- `Scanner` (scanner.dfy): candidate discovery.
- `Frames` (frames.dfy): iframe re-anchoring and the published entries.
- `Resolver` (resolver.dfy): `checkImageAttr`.

Each operation is a pure function that follows the source's branches. The loops are also
modelled as methods, which are proved equal to those functions.

Inputs replace the outside world:

- the page is a record of three element lists;
- the iframe redirect service is a list of redirected addresses, one per iframe;
- the size probes `getImageBitSize` and `getImageRealSize` are function values;
- the `https?:` protocol rewrite is a function value;
- each regular-expression match is given as its result: the raw URL of `argsRegex`, and
  the list of `urlRegex` matches of each attribute.

Where the code behaves differently from what one would assume, the model follows the
code:

- The merge keeps every old entry, including entries that are no longer on the page.
  `Merge.StabilityExample` shows this: `a` stays in front of the merged list.
- In `checkImageAttr`, the early `return null` at :130 also requires
  `currentSrc === srcset`. When that does not hold, the probes still run.
  `Resolver.Decide` shows that the outcome is the same either way.
- A background image is skipped when its first layer mentions `.svg`, whether or not the
  `svgFilter` option is set.

## Model

| member | source | states |
|---|---|---|
| Items.ImageInfoIndex | scripts/utility.js:349-353 | the result is -1 iff no entry has the key of `data`; otherwise it is the index of the first entry with that key, where the key of an entry is the string itself or its first element |
| Items.SearchImageInfoIndex | scripts/utility.js:478-486 | for a string input, wrapping a `data:` URL as `[input]` changes nothing: the result is the first index whose key is the input, within the list bounds or -1 |
| Items.PlainLookupIsIndexOf | scripts/utility.js:349-353 | on a list of plain URL strings the key lookup is `indexOf` |
| Text.Find | scripts/utility.js:235 | `indexOf` on strings: an occurrence at the result and none before it, or -1 exactly when there is no occurrence; `indexOf(p) === 0` holds exactly when the string starts with `p` |
| Text.FirstLayer | scripts/utility.js:234 | `split(', ')[0]` is a prefix that holds no `", "`, and it is either the whole string or followed by `", "` |
| Text.FirstLayerOfLayers | scripts/utility.js:234 | the first layer of `l + ", " + rest` is the first layer of `l` |
| Text.JsSubstring | scripts/utility.js:236 | `substring` with in-range arguments is the slice between them whichever order they come in, and it is never longer than the string |
| Text.RemoveQuotes | scripts/utility.js:236 | `replace(/['"]/g, '')` keeps exactly the characters that are not quotes |
| Text.RemoveQuotesPointwise | scripts/utility.js:236 | quote removal works character by character: it distributes over concatenation, drops a quote and keeps any other character, so the result is the input with its quotes deleted and everything else in order |
| Scanner.BackgroundUrl | scripts/utility.js:232-237 | a background yields a URL iff it is not `none`, its first layer starts with `url` and that layer does not contain `.svg`; the URL contains no quote |
| Scanner.LayerUrl | scripts/utility.js:236 | the layer URL holds no quote; for a layer of at least five characters it is the layer without its first four and its last character, quotes removed; a shorter non-empty layer is clamped and swapped by `substring` down to its last character |
| Scanner.BackgroundFirstLayerOnly | scripts/utility.js:234-236 | layers after the first never change the extracted URL |
| Scanner.QuotedUrlYieldsItself | scripts/utility.js:234-236 | `url("X")` yields exactly `X` when `X` has no quote, no comma and no `.svg` |
| Scanner.DomUrl | scripts/utility.js:340-347 | for an element that is neither `IMG` nor `VIDEO`, `getDomUrl` reads back the background URL the scan extracted |
| Scanner.Unique | scripts/utility.js:246-253 | the cleaned list is never longer than the raw list and holds no unusable URL |
| Scanner.RawUnfiltered | scripts/utility.js:226-242 | a candidate is in the unfiltered list iff it is the `currentSrc` of an unlazied image, the usable background of some element, or the poster of a video, each anchored to that element |
| Scanner.UniqueUrls | scripts/utility.js:244-253 | the URLs of the cleaned list are the usable URLs of the raw list, de-duplicated by first occurrence |
| Scanner.UniqueProperties | scripts/utility.js:244-253 | the cleaned list has no URL twice; it holds only raw candidates whose URL is not `''`, not `about:blank`, and, with `svgFilter` set, has no `.svg`; every usable raw URL is represented |
| Scanner.UniqueIsSubseq | scripts/utility.js:246-253 | the cleaned list is an order-preserving subsequence of the raw list |
| Scanner.UniqueKeepsFirst | scripts/utility.js:246-253 | every kept candidate is the first raw candidate with its URL |
| Scanner.UniqueNested | scripts/utility.js:246-253 | the nested `continue outer` loop computes the cleaned list |
| Scanner.AlreadySeen | scripts/utility.js:249-251 | the inner loop finds a hit exactly when an earlier kept candidate has the URL |
| Scanner.UniqueWithSet | scripts/utility.js:292-299 | the `Set`-based loop computes the same cleaned list |
| Scanner.ZeroThresholdsKeepAll | scripts/utility.js:258-288 | with both thresholds 0 and non-negative boxes, the filtered scan finds exactly the unfiltered candidates, so the mode switch changes nothing |
| Scanner.ThresholdsMonotone | scripts/utility.js:262-288 | raising the thresholds never adds a candidate |
| Scanner.RawFiltered | scripts/utility.js:262-288 | every filtered candidate comes from an `img` that fits or carries `ImageViewerLastDom`, from the background of an element that fits, or from the poster of a video that fits |
| Scanner.ThresholdsInclusive | scripts/utility.js:262-288 | an element meeting both thresholds exactly is kept; an `img` with `ImageViewerLastDom` is kept whatever its size; an element below a threshold (and an `img` without the class) is dropped |
| Scanner.ImageList | scripts/utility.js:258-260 | the scan's result has no URL twice and no unusable URL, and draws only on the unfiltered candidates when both thresholds are 0 and on the filtered ones otherwise |
| Scanner.GetImageListWithoutFilter | scripts/utility.js:225-256 | returns the cleaned unfiltered candidate list |
| Scanner.GetImageList | scripts/utility.js:257-302 | returns the unfiltered result when both thresholds are 0, else the cleaned filtered list |
| Frames.MapSrcToIframe | scripts/utility.js:303-323 | the input is returned unchanged when there are no iframes; otherwise every output candidate is element-anchored; the output is never longer than the input |
| Frames.Reanchor | scripts/utility.js:311-321 | one candidate yields at most one: an element-anchored one is kept as it is, an address-anchored one is kept iff its address is among the redirected addresses; a kept candidate keeps its URL and is element-anchored |
| Frames.ReanchorAll | scripts/utility.js:310-322 | the loop's output is never longer than its input, every output candidate is element-anchored, and every element-anchored input candidate is in it; `Frames.ReanchorAppend` makes it per-candidate |
| Frames.ReanchorStep | scripts/utility.js:312-320 | one loop body pushes exactly what `Frames.Reanchor` yields for the candidate |
| Frames.ReanchorNext | scripts/utility.js:311-321 | one loop pass extends the output for a prefix of the candidates to the output for one more |
| Frames.ReanchorOne | scripts/utility.js:311-321 | an element-anchored candidate is kept as it is; an address-anchored one is kept iff its address is among the redirected addresses, re-attached to the iframe at the first such index |
| Frames.ReanchorAppend | scripts/utility.js:311-321 | re-anchoring treats candidates one at a time: it distributes over concatenation |
| Frames.DomAnchoredKept | scripts/utility.js:318-320 | element-anchored candidates all pass through, unchanged and in order |
| Frames.MapSrcToIframeLoop | scripts/utility.js:303-323 | the loop computes `mapSrcToIframe` |
| Frames.Project | scripts/utility.js:329-336 | the published entry keeps the candidate's URL as its key, and is a pair exactly when the anchor is an `IFRAME` element, whose second element is that iframe's `src` |
| Frames.ProjectedLookup | scripts/utility.js:329-336 | looking a URL up in the published list finds the same index as `indexOf` over the candidates' URLs |
| Resolver.Pick | scripts/utility.js:175-188 | `lastSize > firstSize ? last : first` gives the larger URL, and `first` on a tie |
| Resolver.Larger | scripts/utility.js:138-150 | with an unknown (zero) current byte size only the natural widths are compared; a heavier URL is larger; otherwise a URL is larger iff it is wider |
| Resolver.TryPair | scripts/utility.js:172-192 | a multi-URL attribute wins iff its first or its last URL is larger; the winner is one of the two; when a byte size decides, the heavier is taken, else the wider, `first` on a tie |
| Resolver.TryAttr | scripts/utility.js:152-193 | no URL never wins; a single URL wins iff it differs from `currentSrc` and is larger, and then it is the new source; several URLs win iff the first or last is larger, with the pair's winner; a win carries the attribute's name |
| Resolver.TryRaw | scripts/utility.js:135-150 | the raw URL wins iff `argsRegex` matched, it differs from `currentSrc` and it is larger; the win is the rewritten raw URL named `rawUrl` |
| Resolver.FirstUpgrade | scripts/utility.js:152-194 | the outcome is none iff every attribute's trial loses; otherwise it is the first winning attribute's outcome, and every earlier trial lost |
| Resolver.Decide | scripts/utility.js:120-197 | the early return at :130 never changes the outcome: the raw trial if it wins, else the first winning qualifying attribute; any upgrade is strictly larger and is never named after a pass-list attribute |
| Resolver.DecideChoosesAWinner | scripts/utility.js:120-197 | nothing is reported iff the raw trial and every qualifying attribute lose; a reported attribute is a qualifying attribute of the image |
| Resolver.QualifyingAttributes | scripts/utility.js:124-129 | the attribute list holds the attributes outside the pass-list whose value has a URL, in order |
| Resolver.AttributeLoop | scripts/utility.js:152-194 | the loop with early returns computes the first winning attribute's outcome |
| Resolver.CheckImageAttr | scripts/utility.js:120-197 | the function with its early returns computes the decision |
| Merge.AnchorIsAhead | scripts/utility.js:511-515 | an anchor is never behind `oldArrayLastIndex`, so the first flushing distance is never negative |
| Merge.Step | scripts/utility.js:500-523 | one iteration moves `rightIndex` forward by one, and `leftIndex` never passes it; `Merge.StepInv` and the `Placement` lemmas state what it writes |
| Merge.Scan | scripts/utility.js:499-524 | the loop runs until `rightIndex` reaches the end of `newList`; it only appends to the array, and only entries of `oldList` or `newList`; `Merge.ScanInv` and `Placement.ScanPlaces` state what it writes |
| Merge.GapIsFresh | scripts/utility.js:511-515 | the old entries flushed in front of an anchor are not yet in the output, and they extend the old entries written so far in old order |
| Merge.StepInv | scripts/utility.js:499-524 | one iteration keeps the cursor invariant: cursors in range, everything behind them written, new entries in new order, old entries in old order |
| Merge.ScanInv | scripts/utility.js:499-524 | the whole loop keeps the cursor invariant |
| Merge.FillFacts | scripts/utility.js:489-539 | the filled array holds exactly the entries of both lists, fits its preallocated size, has the entries new to `oldList` in `newList` order, and has a duplicate-free `oldList` in its order |
| Merge.Fill | scripts/utility.js:489-539 | the filled array holds only entries of the two lists; `Merge.FillFacts` and `Placement.FillIsInterleave` state its exact contents and placement |
| Merge.Combine | scripts/utility.js:488-542 | the merge has no duplicate and no empty entry |
| Merge.Finish | scripts/utility.js:526-539 | the loops after the pass only append: they write the old tail, and the trailing new run when the last entry was not an anchor, and nothing else |
| Merge.CombineProperties | scripts/utility.js:488-542 | the merge has no duplicates and no empty entry; it holds exactly the non-empty entries of both lists; its new entries keep their first-occurrence order in `newList`; a duplicate-free `oldList` keeps its order |
| Merge.ScanWithoutAnchors | scripts/utility.js:505-509 | while no entry from the right cursor on occurs in `oldList`, the pass only advances `rightIndex` |
| Merge.ExtensionIsKept | scripts/utility.js:488-542 | when the new list is the old list followed by fresh entries, the merge is exactly the new list |
| Merge.SameListIsFixed | scripts/utility.js:488-542 | `combine(L, L) == L` for a duplicate-free list of non-empty URLs |
| Merge.DisjointListsAppend | scripts/utility.js:488-542 | with no shared entry, the merge is the old list followed by the new list, cleaned |
| Merge.DisjointCleanListsAppend | scripts/utility.js:488-542 | with no shared entry, no duplicate and no empty entry, the merge is exactly the old list followed by the new list |
| Merge.StabilityExample | scripts/utility.js:488-542 | old `[a, b, c, d]` and new `[b, c, x, d]` merge to `[a, b, c, x, d]` |
| Merge.DisjointExample | scripts/utility.js:488-542 | old `[a, b]` and new `[x, y]` merge to `[a, b, x, y]` |
| Merge.CopyRun | scripts/utility.js:513-515 | a `distance` loop appends `src[from..to]`, and nothing when the distance is negative |
| Merge.Iterate | scripts/utility.js:499-523 | one iteration of the cursor loop is one step of the pass |
| Merge.FinishCombined | scripts/utility.js:526-539 | the loops after the pass append the old tail, then the trailing run when the last entry was not an anchor |
| Merge.FillCombined | scripts/utility.js:489-539 | the cursor loops fill the array with exactly the entries of both lists, within its preallocated size |
| Merge.KeepFirstTruthy | scripts/utility.js:541 | `[...new Set(list.filter(Boolean))]` keeps the first occurrence of every non-empty entry |
| Merge.Keep | scripts/utility.js:541 | one `Set` insertion appends the entry exactly when it is non-empty and not yet kept, and the set stays the set of kept entries |
| Merge.CombineImageList | scripts/utility.js:488-542 | the method computes the merge; the result has no duplicates and exactly the non-empty entries of both lists; new entries keep their `newList` order; a duplicate-free `oldList` keeps its order |
| Placement.SplitAt | scripts/utility.js:511-515 | around the first occurrence of an anchor, the old entries in front of it and behind it are the two slices on either side |
| Placement.InterleaveAtAnchor | scripts/utility.js:511-523 | at an anchor, the reference merge writes the old entries in front of it, the pending run and the anchor, and goes on behind the anchor in both lists |
| Placement.SkipPlaces | scripts/utility.js:505-509 | an entry that is not in the unwritten old tail only joins the pending run, and the placement invariant is kept |
| Placement.SkipConsumes | scripts/utility.js:505-509 | skipping such an entry leaves what the reference merge has still to write unchanged |
| Placement.AnchorFlushes | scripts/utility.js:511-523 | an anchor in the unwritten old tail is found behind `oldArrayLastIndex`, has not been written, and makes the iteration a flush up to it |
| Placement.FlushConsumes | scripts/utility.js:511-523 | the flush writes exactly the front of what the reference merge has still to write |
| Placement.AnchorPlaces | scripts/utility.js:511-523 | an anchor keeps the placement invariant, and written plus still-to-write is unchanged |
| Placement.FinishPlaces | scripts/utility.js:526-539 | after the loop, the old tail and the trailing run are exactly what the reference merge has left |
| Placement.ScanPlaces | scripts/utility.js:499-539 | from any placed cursors, the pass and the final flushes write what the reference merge has left |
| Placement.FillIsInterleave | scripts/utility.js:489-539 | for a duplicate-free `oldList`, the filled array is the reference merge: every fresh new entry lands right in front of the next anchor, after the old entries in front of that anchor, and fresh entries after the last anchor land behind the old tail |
| Placement.CombineIsInterleave | scripts/utility.js:488-542 | for a duplicate-free `oldList`, the merge is the reference merge with empty entries dropped and duplicates removed |
| Placement.InterleaveKeepsNew | scripts/utility.js:499-539 | when the lists agree on the order of their shared entries, the reference merge restricted to the new entries is the pending run followed by the new list |
| Placement.CombineKeepsNewOrder | scripts/utility.js:488-542 | when the lists agree on the order of their shared entries, the merge restricted to the new list's entries is the new list, cleaned |
| Placement.CombineKeepsBothOrders | scripts/utility.js:488-542 | when a duplicate-free old list and the new list agree on the order of their shared entries, the merge is a common supersequence of both cleaned lists: restricted to either list's entries, it is that list |

## Left out

- The mutex (:10-20) and the orchestration in `getOrderedImageUrls` (:445-476) are left
  out. They are promise chaining and extension messaging.
- The MutationObserver unlazy hook (:21-42) and the `updateImageSource` polling loop
  (:94-119) are left out. They are DOM, timers and an unbounded poll. A winning upgrade is
  reported, not applied.
- The size probes `getImageBitSize` and `getImageRealSize` (:44-93) are function values.
  The network, image decoding and their cache are not modelled, and neither is `await`.
- Regular expressions (`urlRegex`, `argsRegex`, `https?:` rewriting; :5-6, :132) are
  modelled by their results, which are inputs.
- The `compareDocumentPosition` sort (:326) is not modelled. It depends on the DOM, and
  its comparator never returns 0. The published entries are modelled per candidate
  (`Frames.Project`).
- Resolver.CheckImageAttr: the byte-size probe is total here. In the code,
  `getImageBitSize` calls `new URL(src, document.baseURI)` outside its `try` (:51) and
  returns the extension message's promise as it is (:55). Either can reject, for example
  on a matched attribute value `"//"`. No `await` in `checkImageAttr` (:132, :141, :161,
  :179) or the enclosing `Promise.all` (:211) catches the rejection, so the whole
  decision aborts instead of giving "no upgrade". `Probe.byteSize` (a `string -> int`)
  cannot express this, so `Resolver.Decide` and `Resolver.DecideChoosesAWinner` hold only
  for runs in which every probe settles.
- Frames.MapSrcToIframe: it requires one redirected address per iframe, which is the
  redirect service's answer format. A shorter or longer answer is not modelled.
- Merge.CombineImageList: entries are strings. The final `new Set` (:541) de-duplicates
  iframe pairs `[url, src]` by reference, which is not modelled.
- Placement.FillIsInterleave: the placement of every entry is proved for a duplicate-free
  `oldList` only. The merge's own output never has duplicates, so this is the case that
  arises when the result is merged again. With duplicates in `oldList`, only the
  properties in `Merge.CombineProperties` are proved.
- Placement.CombineKeepsBothOrders: when the two lists disagree on the order of their
  shared entries, the merge cannot keep both orders. The model then promises only what
  `Merge.CombineProperties` states.
- Scanner.QuotedUrlYieldsItself: it requires that `X` has no comma at all. The code only
  splits at `", "`.
- Scanner.ZeroThresholdsKeepAll: it assumes non-negative boxes, as `getBoundingClientRect`
  reports them. NaN sizes are not modelled.
- Strings are sequences of Unicode characters. JavaScript's `length`, `indexOf` and
  `substring` (:234-236, :279, :346) count UTF-16 code units. For text outside the Basic
  Multilingual Plane, positions and lengths therefore differ, and `substring` can split a
  surrogate pair, which the model cannot.
- Sizes and thresholds are reals, and natural widths and byte sizes are integers.
  Floating-point rounding is not modelled.
- `updateWrapperSize` (:407-443), the auto-scroll code (:355-394, :544-575) and
  `closeImageViewer` are UI and timers, and are left out.
- scripts/activate-url.js is page-activation glue (fetch, extension messaging, event
  listeners). It is not part of this model.
- The object branch of `searchImageInfoIndex` (:479-482) is not modelled as a lookup,
  because it needs a live element. Its URL reader `getDomUrl` is modelled as
  `Scanner.DomUrl`.
