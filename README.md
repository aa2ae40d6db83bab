# Image capture and correlation, modelled in Dafny

This models a browser extension that collects full-resolution image urls from a page's network traffic, then matches them to the thumbnails shown on the page. Its two halves run in separate contexts.

**The page side (`injected.js`).** It hooks `XMLHttpRequest` and `fetch`.
- A response counts only if its url passes the admission filter (`isTargetUrl`) and its content type may be JSON. Its parsed body then joins a FIFO scan queue (`scheduleScan`).
- One drain loop at a time empties the queue. It runs in idle time and yields when the idle deadline runs low (`processQueue`).
- Each body is mined depth-first for image items (`scanObjectForImages`).
- Each item yields at most one `{url, thumb}` record. The record goes into an insertion-ordered store keyed by url, where the first record seen wins (`processPotentialImageItem`).
- A single debounce timer later posts the whole store to the window (`broadcast`).

**The isolated side (`content.js`).**
- It merges every broadcast it accepts into its own store, `capturedHighRes`, keeping each url once.
- On request, `quickScanImages` does four things:
  1. It builds an index from 32-hex-digit fingerprints (`getHash`) to stored urls.
  2. It filters the page's `<img>` elements by host, size and avatar status.
  3. It replaces a matched element's source with the indexed full-resolution url.
  4. It de-duplicates the entries by url. The last entry for a url wins, placed where that url first occurred.

**How the model is laid out.**
- `js.dfy`: JSON values as `JSON.parse` yields them, plus the JavaScript semantics the code relies on (truthiness, property reads, `includes`, ASCII `toLowerCase`).
- `records.dfy`: image records and the message envelope.
- `url_filter.dfy`: the url and response admission rules, as functions.
- `mining.dfy`, pure:
  - the traversal, as the sequence of items it hands to the item processor (`Mine`);
  - record extraction (`Extract`);
  - the store insertion rule (`Insert`, `StoreAfterItems`);
  - the traversal as written (`MineAsWritten`; see Findings).
- `interceptor.dfy`: the page side's state, as the class `PageCapture`.
  - Fields: the queue, `isScanning`, the store and the debounce flag.
  - Two counters hold the callbacks registered with the host and not yet run: drains and broadcast timers.
  - The invariant `Valid` says at most one drain is pending, exactly when `isScanning` is set, and at most one timer, exactly when the debounce flag is set.
  - Each method is proved against the pure functions of `mining.dfy` and `url_filter.dfy`.
- `fingerprint.dfy`: `getHash`.
- `merge.dfy`: the listener's merge, as a function, and its properties.
- `quick_scan.dfy`: the stages of `quickScanImages`, as functions, and their properties.
- `content.dfy`: the isolated side's store, as the class `CapturedStore`.
  - Its listener and its quick scan are loops proved equal to the functions of `merge.dfy` and `quick_scan.dfy`.

**Choices that follow the code.**
- The debounce timer is armed only when none is pending. An insertion does not restart it.
- A node counts as a nested item when `image.large_images` is merely truthy. It need not be an array.
- `isTargetUrl` is modelled on whatever value the page passed as the url, so a truthy non-string (a `URL` object, say) makes it throw into the page's own `fetch` or `send` call (see Findings).
- One exception: `PageCapture.ScanObjectForImages` follows the corrected traversal `Mine`, which visits every own key and never throws. The code's traversal calls `obj.hasOwnProperty(key)` unguarded, so an object with an own key `hasOwnProperty` makes it throw. That traversal is modelled as `MineAsWritten` (see Findings); an interceptor that must never disturb the page should not throw here.

## Model

| member | source | states |
|---|---|---|
| UrlFilter.ContainsAnyIff | injected.js:26 | `words.some(w => s.includes(w))` holds iff some word of the list occurs in `s` |
| UrlFilter.IsTargetUrl | injected.js:21-31 | on the value the page passed: a truthy non-string throws (it has no `toLowerCase`); otherwise the url is a target iff it is a non-empty string passing the three stages |
| UrlFilter.GuardedAgrees | injected.js:21-31 | the corrected filter, which rejects non-strings, decides like the source's wherever that does not throw, and rejects every value on which it throws |
| UrlFilter.HookThrows | injected.js:132 | the patched `send` and `fetch` throw into the page's call exactly when the url is a truthy non-string |
| UrlFilter.UrlObjectBreaksHook | injected.js:156-159 | a `URL` object naming an api endpoint makes the patched `fetch` throw, where the corrected filter merely declines it |
| UrlFilter.TargetUrlIff | injected.js:21-31 | a url is a target iff it is non-empty, its lower-cased form contains no ignored extension and none of `log`, `pixel`, `telemetry`, and contains some keyword of the allowlist |
| UrlFilter.ExtensionBeatsKeyword | injected.js:26 | a url containing an ignored extension is rejected whatever keywords it holds |
| UrlFilter.JsonUrlRejected | injected.js:15-26 | every url mentioning `.json` is rejected, because it contains `.js` |
| UrlFilter.TargetUrlCaseInsensitive | injected.js:23 | the filter gives the same answer for a url and its lower-cased form |
| UrlFilter.XhrLoadScan | injected.js:131-148 | a body is handed on iff the request url is a target, the content type is absent, empty or contains `json`, the text starts with `{` or `[`, and it parses; what is handed on is the parsed value |
| UrlFilter.FetchLoadScan | injected.js:159-173 | a body is handed on iff the url is a target, the content type is absent, empty or contains `json`, and it parses (no check on the first character); what is handed on is the parsed value |
| Interceptor.DrainAsWritten | injected.js:45-55 | the source's drain stalls at the first body, among those the deadline allows, whose as-written traversal throws, and otherwise empties the queue or yields after the same bodies as `ProcessQueue` |
| Interceptor.ShadowedBodyStallsDrain | injected.js:45-55 | a body `{"hasOwnProperty": 1}` at the head of the queue stalls a drain without a deadline before the next body, where the corrected drain scans both |
| Interceptor.PageCapture.constructor | injected.js:3-5 | the page side starts with an empty store and queue, not scanning, no timer and no drain pending |
| Interceptor.PageCapture.ScheduleScan | injected.js:33-43 | the body joins the tail of the queue; afterwards the scanner is marked scanning with exactly one drain pending, and a second drain is never registered while one is pending; store and flag are untouched |
| Interceptor.PageCapture.ProcessQueue | injected.js:45-55 | with `k` the number of bodies the deadline allows (the whole queue without a deadline, otherwise the idle budget, capped at the queue's length), the first `k` queued bodies are scanned in FIFO order, the rest stay queued in order, the store is the result of storing their items in order, and scanning stays set (with one drain re-registered) exactly when bodies are left; the debounce flag is set iff it was set or the store grew |
| Interceptor.PageCapture.ScanObjectForImages | injected.js:57-81 | the store afterwards is the store after processing the items of `Mine(obj, depth)` in order; queue, scanning flag and pending drains are unchanged |
| Interceptor.PageCapture.ScanElements | injected.js:68-73 | every element of an array is scanned one level deeper, in order |
| Interceptor.PageCapture.ScanFields | injected.js:75-80 | every unpruned field of an object is scanned one level deeper, in key order; pruned fields are skipped |
| Interceptor.PageCapture.ProcessPotentialImageItem | injected.js:83-112 | the store becomes `Insert(store, Extract(item))`: a record with a new url is appended, anything else (known url, no record, swallowed exception) leaves it unchanged; a timer is armed only when none is pending, and the flag is set iff the store grew or it was already set |
| Interceptor.BroadcastDelivered | injected.js:114-120 | the envelope the page posts to itself passes the isolated side's listener guards; merged into an empty store it reproduces the page's store in insertion order; and a broadcast after an earlier one (a prefix, since the store only appends) leaves the isolated store as the later one alone would |
| Interceptor.PageCapture.FireBroadcastTimer | injected.js:103-107 | the pending timer fires, broadcasts the current store and clears the flag; nothing else changes |
| Interceptor.PageCapture.OnXhrLoad | injected.js:131-148 | the queue grows by the parsed body exactly when `XhrLoadScan` admits it, and is otherwise unchanged; a drain is registered only for an admitted body arriving while idle, so a rejected body leaves the scanning flag and the pending drains as they were; store and debounce flag are untouched |
| Interceptor.PageCapture.OnFetchJson | injected.js:159-173 | the queue grows by the parsed body exactly when `FetchLoadScan` admits it, and is otherwise unchanged; a drain is registered only for an admitted body arriving while idle, so a rejected body leaves the scanning flag and the pending drains as they were; store and debounce flag are untouched |
| Mining.MinedAreItemNodes | injected.js:60-66 | every node handed to the item processor has a `large_images` array or a truthy `image.large_images` |
| Mining.MineOutsideCap | injected.js:58 | null, scalars and any node deeper than 8 contribute nothing |
| Mining.LargeImagesNotDescended | injected.js:60-63 | a node with a `large_images` array yields itself and nothing from below |
| Mining.NestedItemStillDescended | injected.js:64-80 | a node with a truthy `image.large_images` is handed on first and its unpruned fields are still scanned |
| Mining.ChildItemsFound | injected.js:68-80 | below the cap, every item found in an array element or unpruned field, one level deeper, is found in the node |
| Mining.NestedItemFoundWithinCap | injected.js:58 | an item wrapped in `k` single-field objects below a node at `depth` is found exactly when `depth + k <= 8` |
| Mining.PrunedFieldNeverVisited | injected.js:76 | replacing the value of a field whose key is over 25 characters, `common_attr` or `extra` changes neither the items found (unless the object is an item itself) nor the resulting store |
| Mining.Extract | injected.js:83-111 | a record is produced exactly when the url candidate is read without throwing and is a string containing `http`; its url is that candidate and its thumb the thumbnail hint |
| Mining.LargeImagesUrlFirst | injected.js:88-89 | a non-empty `large_images` array supplies the url, whatever `image` and `image_url` hold |
| Mining.NestedUrlSecond | injected.js:90-91 | without a non-empty `large_images` array, a non-empty `image.large_images` array supplies the url |
| Mining.DirectUrlLast | injected.js:88-94 | when neither list supplies a candidate (absent, falsy, not an array, or of no positive length), a string `image_url` containing `http` is the record's url |
| Mining.ListGuardsDecide | injected.js:88-91 | once a list supplies the candidate, it is that list's first `image_url` read, and `image_url` of the item is never consulted |
| Mining.NoHttpNoRecord | injected.js:99 | a url candidate without `http` yields no record |
| Mining.UriBeatsCover | injected.js:96-97 | a truthy `uri` is the thumbnail; else `cover.url_list[0]` when `cover` and `cover.url_list` are truthy; in every other case it stays null |
| Mining.NullLargeImageThrows | injected.js:89 | a `null` first entry of `large_images` makes the extraction throw, and the exception is swallowed |
| Mining.InsertUrls | injected.js:100-101 | inserting adds exactly the record's url, if any, to the store's urls |
| Mining.InsertIdempotent | injected.js:100 | processing the same item twice stores what processing it once stores |
| Mining.StoreGrowsByAppend | injected.js:100-101 | processing items only appends: the old store, with its thumbnails, is a prefix of the new one, urls stay distinct and every stored url contains `http` |
| Mining.StoreKeepsItemUrls | injected.js:99-101 | the url of every processed item that yields a record is in the store afterwards |
| Mining.StoreUrlsFromItems | injected.js:99-101 | every url in the store afterwards was already stored or comes from a processed item's record |
| Mining.AsWrittenIsPrefix | injected.js:75-80 | the traversal as written hands on a prefix of the corrected traversal's items, and all of them when it does not throw |
| Mining.ShadowedHasOwnPropertyThrows | injected.js:77 | on `{"hasOwnProperty": 1}` the traversal as written throws, where the corrected one finds nothing |
| Fingerprint.FindRun | content.js:24 | the search returns the first index from which 32 characters of `[a-f0-9]` follow, or none when no such index exists |
| Fingerprint.GetHash | content.js:22-26 | `''` for a falsy url; a TypeError for a truthy non-string; `null` for a string without a 32-hex run; otherwise the 32 characters of the leftmost run |
| Fingerprint.HashOf | content.js:50 | a string's fingerprint is blank exactly when the string is empty, and never throws |
| Fingerprint.FingerprintIsHex | content.js:24 | every character of a fingerprint is in `[a-f0-9]` |
| Fingerprint.FingerprintOfFingerprint | content.js:24 | a fingerprint is its own fingerprint |
| Fingerprint.LeftmostRunWins | content.js:24-25 | the run at the leftmost matching index is the fingerprint |
| Merging.MergeGrows | content.js:11-17 | the old store is a prefix of the merged one, which holds exactly the urls of the store and of the batch, and stays free of duplicate urls |
| Merging.MergeKeepsFirst | content.js:12-15 | a url new to the store is stored with the first record of the batch carrying it |
| Merging.MergeKnown | content.js:13 | a batch whose urls are all stored changes nothing |
| Merging.MergeIdempotent | content.js:5-20 | receiving the same batch twice leaves what receiving it once leaves |
| Merging.MergeConcat | content.js:12-17 | merging two batches in turn is merging their concatenation |
| Merging.MergeLaterSnapshot | content.js:11-17 | merging an earlier snapshot of the page's store and then a later one (which extends it) leaves what merging the later one alone leaves |
| Merging.MergeIntoEmpty | content.js:11-17 | an empty store takes a batch of distinct urls as it is |
| QuickScan.AddRecord | content.js:49-54 | one step of the index build fails exactly when the thumb's `getHash` throws, and otherwise maps exactly the record's fingerprints to its url, leaving other keys alone |
| QuickScan.IndexThrowsIff | content.js:52 | building the index fails exactly when some stored record's thumb is a truthy non-string |
| QuickScan.IndexContents | content.js:48-54 | the index's keys are exactly the fingerprints of the stored urls and thumbs, each mapped to the url of the last record carrying it |
| QuickScan.DecideIff | content.js:56-92 | an element is pushed iff it has a source on `ibyteimg.com`, a side over 140 px, neither the `avatar` class nor `.user-avatar` on itself or an ancestor, and a fingerprint match or a side of at least 400 px |
| QuickScan.DecideEntry | content.js:75-99 | a pushed entry carries the indexed url and `isHighRes` when matched, the source otherwise, with the source as `backup` and the element's index as `domIndex` |
| QuickScan.PushedEntries | content.js:94-100 | every pushed entry is the outcome for the element it names, in increasing element order, and every outcome is pushed |
| QuickScan.Place | content.js:103 | after `unique.set(e.url, e)` the keys are the old keys plus `e.url`, the keys already present keep their positions (first-seen order), a new key goes last, the entry at `e.url` is `e`, every other entry is unchanged, and distinct keys stay distinct |
| QuickScan.DedupUrls | content.js:102-104 | the result holds each entry url exactly once, and is no longer than the entries |
| QuickScan.DedupLastWins | content.js:103 | each kept entry is the last entry with its url |
| QuickScan.DedupOrder | content.js:104 | the kept entries stand in the order in which their urls first occur |
| QuickScan.FirstUrlsPrefix | content.js:102-104 | later entries never reorder the urls already seen |
| QuickScan.DedupPushed | content.js:94-104 | the de-duplicated entries have distinct urls, each is the outcome for its element with no later element pushing its url, and every pushed url is kept |
| QuickScan.QuickScanEntries | content.js:39-108 | the scan's answer has one entry per url, each the decision for its element with no later accepted element sharing its url, and covers every url some element pushes |
| Content.CapturedStore.constructor | content.js:3 | the isolated store starts empty |
| Content.CapturedStore.OnMessage | content.js:5-20 | a message not from the window, not typed as the interceptor's data or without an `images` array leaves the store unchanged; otherwise the store becomes `Merge(store, images)`, and stays free of duplicate urls |
| Content.CapturedStore.QuickScanImages | content.js:39-108 | the result is `QuickScanResult(store, images)`: none when the index build throws, else the de-duplicated pushed entries |
| Content.BuildIndex | content.js:48-54 | the loop builds `IndexAfter(store)`, stopping with none at the first thumb whose `getHash` throws |
| Content.CollectImages | content.js:56-100 | the loop pushes exactly the entries of `Pushed(Decisions(index, dom))`, in element order |
| Content.UniqueByUrl | content.js:102-104 | the loop leaves `Dedup(images)`, the map from urls to positions agreeing with the result |
| Content.PlacePositions | content.js:103 | a known url is overwritten at its recorded position and a new one appended at the next position, keeping positions and urls in step |

## Left out

- `popup.js` is not part of this model: it renders the popup and drives downloads through browser APIs.
- The hook plumbing is left out: patching `XMLHttpRequest.prototype` and `window.fetch`, forwarding arguments, `response.clone()` and promise chaining. Only the admission decisions are modelled (`XhrLoadScan`, `FetchLoadScan`). The header value, response text and parse outcome are parameters.
- Interceptor.PageCapture.ProcessQueue: `requestIdleCallback` and `setTimeout` are modelled as counters of pending callbacks. The idle deadline is the number of `timeRemaining()` readings at or above 2 ms before the first lower one. The requested timeouts (2000 ms, 500 ms, 1500 ms) are not modelled because no time passes in the model. The method drains with the corrected traversal, so it never stalls; the source's drain stops at a body with an own `hasOwnProperty` key, leaving `isScanning` set with no drain pending, which only `DrainAsWritten` models (see Findings).
- Interceptor.PageCapture.ScanObjectForImages: the method follows the corrected traversal `Mine`: every own key is visited and nothing throws. The source's traversal throws on an object with an own `hasOwnProperty` key, and that exception also escapes `processQueue`, leaving `isScanning` set with no drain pending. That behaviour is modelled only by the functions `MineAsWritten` and `DrainAsWritten` (see Findings).
- Interceptor.PageCapture.ScanFields: the loop visits every own key, as the corrected traversal does. The source's `obj.hasOwnProperty(key)` test (injected.js:77) throws instead on an object whose own key `hasOwnProperty` shadows the prototype method; that is modelled only by `MineAsWritten`.
- Interceptor.PageCapture.ScanElements, Interceptor.PageCapture.ScanFields, Content.BuildIndex, Content.CollectImages and Content.UniqueByUrl are separate methods for loops that the source writes inline inside one function.
- JSON numbers are integers. Floating point, and the property reads and comparisons that depend on it, are not modelled.
- An object's keys are distinct and kept in enumeration order. JavaScript enumerates integer-like keys first; that order is not modelled.
- Mining.Extract:
  - Property reads consult only a value's own fields and the `length` of arrays and strings. Prototype members are not modelled as readable fields. The code uses two: `includes` on the url candidate, modelled by its outcome (a substring test on a string, no record for an array, a TypeError for any other truthy value, whose own fields cannot be callable), and `hasOwnProperty` in the traversal (see Findings).
  - `length > 0` is modelled for the integer and boolean values a `length` read can yield (`Positive`). Other operand types are treated as not positive.
  - An array `image_url` is treated as yielding no record. In JavaScript, `includes` on an array compares elements, which is not modelled.
- Js.Lower lower-cases only ASCII letters. The lengths of strings, including the 25-character key limit, are counted in characters, not UTF-16 code units.
- Content.CapturedStore.OnMessage: the `images` of an accepted message are assumed to be records `{url, thumb}`. Page scripts can post other shapes, which are not modelled.
- The DOM is a sequence of `Candidate` records. Each record carries an element's `src`, `dataset.bgSrc`, sizes, `avatar` class, and whether the element itself or an ancestor matches `.user-avatar`. `querySelectorAll` and `closest` are not modelled.
- The `chrome.runtime` message handler and `deepScanImages` are left out: `deepScanImages` is called but not defined in the shown files. `console.log` calls are left out.
- UrlFilter.IsTargetUrl: the url is a JSON-like value; a `URL` object stands as a truthy object without `toLowerCase`. The unwrapping of a `Request` to its `url` (injected.js:157) is left to the caller. The admission functions `XhrLoadScan` and `FetchLoadScan` use the guarded filter, which gives the same outcome because a url on which the source's filter throws is never scanned.
- Interceptor.ScheduleTwiceThenDrain is a small client of `PageCapture` with assertions and no contract.

## Findings

| source | as written | input that shows it | evidently intended | confidence | as-written member | corrected member |
|---|---|---|---|---|---|---|
| injected.js:77 | `obj.hasOwnProperty(key)` calls a property of the object itself. An own key `hasOwnProperty` shadows the prototype method, and since no JSON value is callable, the call throws a TypeError at the first unpruned key. The exception escapes `scanObjectForImages` and `processQueue`. | a response body `{"hasOwnProperty": 1}` | every own key is visited and the traversal never throws, for example via `Object.prototype.hasOwnProperty.call(obj, key)` | high (not executed) | Mining.MineAsWritten, Mining.ShadowedHasOwnPropertyThrows, Interceptor.DrainAsWritten, Interceptor.ShadowedBodyStallsDrain | Mining.Mine, Mining.AsWrittenIsPrefix |
| injected.js:23 | `url.toLowerCase()` is called on whatever the page passed. The XHR hook at line 132 and the fetch hook at line 159 pass it unchecked, so a truthy non-string such as a `URL` object makes the patched `send` or `fetch` throw a TypeError into the page's own call. | `fetch(new URL("https://x/api/list"))` | a url that is not a string is no target, and the hooks never disturb the page's requests | high (not executed) | UrlFilter.IsTargetUrl, UrlFilter.HookThrows, UrlFilter.UrlObjectBreaksHook | UrlFilter.GuardedIsTargetUrl, UrlFilter.GuardedAgrees |
