# Small tools of a personal site, in Dafny

This project models the computational core of the small tools hosted on the
alexmolas.github.io site, and proves properties of that model:

- **Hacker News H-index** (`hn-index/`). The browser page (`app.js`) keeps the
  valid stories of a user, sorts their scores in place and scans for the first
  position whose score is below its rank. The command-line script
  (`script.py`) groups scores by item type and counts positions over a
  descending sort. The model proves that the two reductions agree. When the
  script prints a "story" line, it shows the page's H-index. It prints none
  exactly when no valid story has a non-zero score, and the page then
  shows 0.
- **Image negatives** (`negatives/js/`). The in-place RGBA inversion loop, the
  module-level list of processed images, the completion counting of
  `processImages`, the download-name rewriting, and the download dispatch of
  the "download all" button. The archive is a map from file name to negative
  in which a later entry under the same name replaces an earlier one.
- **`ClosestIndexDict`** (`notebooks/sp500/utils.py`). A mapping whose lookup
  answers with the value of the smallest stored key at or above the query. It
  is a class with a dict, its insertion order and a sorted key list. Setting
  an existing key again leaves a duplicate in the key list (see Findings).
- **`f(n, k)`** (`notebooks/chess-gender-gap/utils.py`). The falling
  factorial, as the loop the source runs.
- **Blogroll builders** (`scripts/build_rss.py` and `_tools/build_rss.py`).
  Both builders share `strip_protocol`, the recent-links filter, a stable
  newest-first sort and the page emission. They differ on entries without
  links: the first crashes and the second skips them.

The modules are:

- `Wrappers` (Option, Result)
- `HIndexReduction` (both H-index forms)
- `HackerNews` (items, the page loop, the script's grouping)
- `ImageProcessor`
- `NegativesUi`
- `ClosestIndex`
- `ChessUtils`
- `Blogroll`

Things outside the program become parameters:

- the network responses (`fetchItem`, `UserResponse`);
- decoded pixel buffers (`ImageFile.pixels`, None when the image fails to load);
- generated ids (`freshId`);
- whether JSZip is loaded and whether building the archive succeeds;
- the order in which the archive's fetches settle (`order`);
- the date cutoff that `today - 30 days` gives;
- date parsing (`parse`);
- date formatting (`showDate`);
- tag stripping (`stripTags`);
- the page header and footer text.

## Model

| member | source | states |
|---|---|---|
| HIndexReduction.SortDesc | hn-index/script.py:48 | `sorted(..., reverse=True)`: the result has the same length and the same multiset as the input, in non-increasing order |
| HIndexReduction.SortedUnique | hn-index/script.py:48 | two non-increasing sequences with the same multiset are equal, so the sorted order is fully determined |
| HIndexReduction.HIndex | hn-index/script.py:47-48 | `h_index` never exceeds the number of scores |
| HIndexReduction.HIndexOfEmpty | hn-index/script.py:47-48 | `h_index([])` is 0 |
| HIndexReduction.HIndexIsFirstFailure | hn-index/script.py:48 | the count over the descending sort is the first position p where `x >= p + 1` fails (or the length): every earlier score is at least its rank |
| HIndexReduction.HIndexPermutation | hn-index/script.py:48 | `h_index` depends only on the multiset of scores |
| HIndexReduction.SortDescOfSorted | hn-index/script.py:48 | sorting an already non-increasing list returns it unchanged |
| HIndexReduction.HIndexByCounts | hn-index/script.py:47-48 | for h = `h_index(s)`: at least h scores are at least h, and at most h scores are at least h + 1 |
| HIndexReduction.CountsDetermineHIndex | hn-index/script.py:47-48 | conversely, any h with those two counts is `h_index(s)`, an independent definition of the H-index |
| HIndexReduction.HIndexIgnoresZeros | hn-index/script.py:47-48 | removing every zero score leaves the H-index unchanged |
| HIndexReduction.PresentPermutation | hn-index/app.js:14-15 | reordering the JavaScript array leaves the multiset of its numbers unchanged |
| HIndexReduction.SortedJsShape | hn-index/app.js:14-15 | an array in the order `sort((a, b) => b - a)` leaves is its numbers in non-increasing order followed by its `undefined`s |
| HIndexReduction.ScanAgreesWithHIndex | hn-index/app.js:19-25 | on a sorted array, the first failing position of the scan equals the Python `h_index` of the array's numbers |
| HIndexReduction.Swap | hn-index/app.js:14-15 | exchanges two elements and keeps the multiset |
| HIndexReduction.SortInPlace | hn-index/app.js:14-15 | the array ends in sorted order (numbers non-increasing, `undefined` last) and is a permutation of the original |
| HIndexReduction.CalculateHIndex | hn-index/app.js:13-28 | the caller's array is left sorted and permuted; the result is the first position whose score fails `>= i + 1` (so at most the length, and 0 for an empty array), and equals `h_index` of the original numbers |
| HackerNews.FilterItemsExact | hn-index/app.js:8-10 | `filterItems` keeps every item that is not deleted, is of type "story" and is not dead, as often as it occurs, and nothing else |
| HackerNews.FilterItemsAppend | hn-index/app.js:8-10 | filtering distributes over concatenation, so the kept items keep their relative order |
| HackerNews.FilterItems | hn-index/app.js:8-10 | the filtered list is never longer than the input |
| HackerNews.ScoresOfSnoc | hn-index/app.js:77-79 | one more fetched item adds its score (or `undefined`) at the end exactly when it is a valid story |
| HackerNews.RecordPrefix | hn-index/app.js:69-71 | the index of the first response that is not a record: every earlier one is a record, the one there is not |
| HackerNews.CollectScores | hn-index/app.js:69-83 | `fetchedCount` rises by one per awaited record and the progress calls see 1, 2, 3, and so on; the loop completes iff every response is a record, and then `fetchedCount` is the total and `scores` holds one entry per valid story in submitted-list order; otherwise it stops at the first throwing await |
| HackerNews.ComputeHIndex | hn-index/app.js:40-97 | shows the Python `h_index` of the valid stories' numeric scores when the user and every item are fetched, and the single error message when anything fails; a shown value never exceeds the number of submissions |
| HackerNews.RecordedStoryIffValid | hn-index/script.py:16-22 | a score is recorded under "story" iff the item is a valid story in the page's sense whose score is present and non-zero |
| HackerNews.ScoreCollector.constructor | hn-index/script.py:39-40 | an empty `defaultdict(list)` and a progress count of 0 |
| HackerNews.ScoreCollector.FetchItemData | hn-index/script.py:13-23 | a null or failed response raises and changes nothing; otherwise the recorded score is appended to its own type's list only, every other list is unchanged, and the progress count advances by exactly one |
| HackerNews.ScoresUnderSnoc | hn-index/script.py:22 | one more item extends each type's list by that item's contribution to that type |
| HackerNews.GetUserScores | hn-index/script.py:26-44 | fails iff the user or some item cannot be read; otherwise each type's list is that type's recorded scores in item order, only types with a score are keys, and the progress count is the number of items |
| HackerNews.StoryScoresAreJsScores | hn-index/script.py:16-22 | the script's "story" list is the page's score array without its `undefined`s and zeros |
| HackerNews.ScriptAgreesWithPage | hn-index/script.py:60-62 | when the page shows an H-index, the script prints a "story" line exactly when some valid story has a non-zero score, and that line shows the page's H-index; when it prints none, the page shows 0 |
| HackerNews.StoryLineAgrees | hn-index/script.py:60-62 | for any item list, the result has a "story" key iff some present score is non-zero; that list's H-index is the page's, and without the key the page's H-index is 0 |
| ImageProcessor.NegativeAt | negatives/js/imageProcessor.js:38-44 | the buffer keeps its length; R, G and B become `255 - v` and alpha (index 3 mod 4) is unchanged |
| ImageProcessor.NegativeInvolutive | negatives/js/imageProcessor.js:38-44 | inverting twice gives back the original buffer |
| ImageProcessor.NegativeOfBlackPixel | negatives/js/imageProcessor.js:38-44 | an opaque black pixel becomes opaque white and back |
| ImageProcessor.InvertPixels | negatives/js/imageProcessor.js:38-44 | the loop with step 4 leaves the buffer equal to the negative of its old contents, every byte in 0..255 |
| ImageProcessor.ImageFiles | negatives/js/imageProcessor.js:88-90 | every kept file has a MIME type starting with `image/`, and there are no more than the input |
| ImageProcessor.ImageFilesExact | negatives/js/imageProcessor.js:88-90 | the filter keeps every image file as often as it occurs and nothing else |
| ImageProcessor.ImageFilesAppend | negatives/js/imageProcessor.js:88-90 | the filter distributes over concatenation, so the kept files stay in selection order |
| ImageProcessor.ImageStore.constructor | negatives/js/imageProcessor.js:10 | the processed-image list starts empty |
| ImageProcessor.ImageStore.CreateNegative | negatives/js/imageProcessor.js:17-78 | succeeds iff the image loads; a failure rejects with "Failed to load image" and stores nothing; a success returns the record holding the negative buffer and appends exactly that record |
| ImageProcessor.ImageStore.GetProcessedImages | negatives/js/imageProcessor.js:139-141 | returns a copy equal to the list and leaves the list unchanged |
| ImageProcessor.ImageStore.ClearProcessedImages | negatives/js/imageProcessor.js:146-155 | afterwards the list is empty |
| ImageProcessor.ImageStore.ProcessImages | negatives/js/imageProcessor.js:86-133 | rejects with "No valid image files were selected" and changes nothing iff no file is an image; otherwise `completed` rises once per image file on success and failure alike, the call resolves when it reaches the number of image files, and it resolves with exactly the successful records, which are also what the list gained |
| NegativesUi.LastIndexOf | negatives/js/ui.js:235 | `lastIndexOf('.')`: -1 or a position holding the character, with no occurrence after it |
| NegativesUi.GetDownloadName | negatives/js/ui.js:234-243 | the download name is always 9 characters longer than the original |
| NegativesUi.DownloadNameWithoutDot | negatives/js/ui.js:236-237 | a name without a dot gets `_negative` appended |
| NegativesUi.DownloadNameSplit | negatives/js/ui.js:240-242 | for a name split at its last dot, `_negative` goes between the base and the extension |
| NegativesUi.DownloadNameLastDotExample | negatives/js/ui.js:235-242 | only the last dot matters: `a.b.png` becomes `a.b_negative.png` |
| NegativesUi.DownloadNameLeadingDotExample | negatives/js/ui.js:235-242 | a leading-dot name `.png` becomes `_negative.png` |
| NegativesUi.DownloadNameNoDotExample | negatives/js/ui.js:235-238 | `photo` becomes `photo_negative` |
| NegativesUi.DownloadNameKeepsExtension | negatives/js/ui.js:234-243 | the download name has the original's extension, and removing the marker gives the original name back |
| NegativesUi.DownloadNameInjective | negatives/js/ui.js:234-243 | two different original names never get the same download name |
| NegativesUi.ZipArchiveLastWriter | negatives/js/ui.js:287 | after a run of `zip.file` calls a name is in the archive iff some call used it, and it holds the negative of the last call under that name |
| NegativesUi.ArchiveHoldsNegatives | negatives/js/ui.js:280-289 | in any completion order, the archive's names are exactly the images' download names, each entry is an image carrying that name, and with distinct original names every image is under its own name |
| NegativesUi.SameNameKeepsLastCompleted | negatives/js/ui.js:283-289 | two negatives with one original name leave a single archive entry, the one whose fetch settled last |
| NegativesUi.BuildArchive | negatives/js/ui.js:280-289 | the `zip.file` calls in completion order build ArchiveOf, the archive that ArchiveHoldsNegatives describes |
| NegativesUi.DownloadAllDeliversEveryImage | negatives/js/ui.js:248-323 | the direct, no-JSZip and fallback paths save every processed image once, in list order, under its download name; the archive path saves one `negative_images.zip` whose names are exactly the download names and which, for distinct original names, holds every image under its own name |
| NegativesUi.HandleDownloadAll | negatives/js/ui.js:248-323 | nothing for no images, one direct download for one, and for more one archive named `negative_images.zip` when JSZip is loaded and the archive builds, one download per image otherwise |
| NegativesUi.DownloadAllShownRule | negatives/js/ui.js:154 | the button follows the latest batch while the handler reads the whole session's list; once the button shows, a click takes the many-image path over every image processed since page load, earlier batches included |
| NegativesUi.HiddenButtonOverSeveralImages | negatives/js/ui.js:154 | a one-image batch after a two-image batch hides the button although the session holds three images |
| ClosestIndex.BisectLeft | notebooks/sp500/utils.py:13 | the first position of the sorted keys whose key is not below the query |
| ClosestIndex.BisectRight | notebooks/sp500/utils.py:20 | the first position of the sorted keys whose key is above the value |
| ClosestIndex.FirstIndexOf | notebooks/sp500/utils.py:24 | the first position holding the key `list.remove` takes out |
| ClosestIndex.Without | notebooks/sp500/utils.py:23 | removing a key from the dict's insertion order keeps every other key and exactly drops that one |
| ClosestIndex.ClosestIndexDict.constructor | notebooks/sp500/utils.py:8-10 | a fresh instance has an empty dict and an empty key list |
| ClosestIndex.ClosestIndexDict.Len | notebooks/sp500/utils.py:26-27 | `__len__` is the number of dict keys, never more than `_keys` holds |
| ClosestIndex.ClosestIndexDict.Iter | notebooks/sp500/utils.py:29-30 | iteration yields the dict's keys in insertion order |
| ClosestIndex.ClosestIndexDict.Get | notebooks/sp500/utils.py:12-16 | as written, the answer comes from the `bisect_left` position, and the range test compares that position with the number of dict entries; with no key set twice, the answer is the value of the smallest stored key at or above the query (its own value for a stored key), and it raises "outside the range" exactly when every stored key is below the query |
| ClosestIndex.ClosestIndexDict.SetItem | notebooks/sp500/utils.py:18-20 | stores the value and keeps `_keys` sorted; a new key grows `len` by one and joins the insertion order at its end; `_keys` always gains the key, so setting an existing key leaves a duplicate |
| ClosestIndex.ClosestIndexDict.Insort | notebooks/sp500/utils.py:20 | `bisect.insort` puts the key after the keys at or below it, keeping `_keys` sorted with one more occurrence of the key |
| ClosestIndex.ClosestIndexDict.RemoveFirst | notebooks/sp500/utils.py:24 | `list.remove` takes out one occurrence and keeps `_keys` sorted |
| ClosestIndex.ClosestIndexDict.DelItem | notebooks/sp500/utils.py:22-24 | a missing key raises before `_keys` is touched and changes nothing; otherwise the entry leaves the dict and one occurrence leaves `_keys` |
| ClosestIndex.ClosestIndexDict.SetItemFixed | notebooks/sp500/utils.py:18-20 | corrected `__setitem__`: `_keys` gains the key only when it is new, so `_keys` stays the sorted list of the dict's keys |
| ClosestIndex.ReassignedKeyLookup | notebooks/sp500/utils.py:12-20 | setting 1, 1 again, then 2, and looking up 2 raises "outside the range" although 2 is stored |
| ClosestIndex.ReassignedKeyLookupFixed | notebooks/sp500/utils.py:12-20 | the same calls through the corrected `__setitem__` return the value of 2 |
| ClosestIndex.IterationOrder | notebooks/sp500/utils.py:29-30 | keys set as 2 then 1 iterate as 2, 1, not in sorted order |
| ChessUtils.FallingFactorial | notebooks/chess-gender-gap/utils.py:42-47 | the loop returns the product of the k factors n, n-1, ..., n-k+1 (1 when k <= 0) |
| ChessUtils.Factors | notebooks/chess-gender-gap/utils.py:44 | exactly k factors for k >= 1, none otherwise |
| ChessUtils.FallingRecurrence | notebooks/chess-gender-gap/utils.py:44-46 | for k >= 1, f(n, k) = n * f(n - 1, k - 1) |
| ChessUtils.FallingSmallK | notebooks/chess-gender-gap/utils.py:44-46 | f(n, k) = 1 for k <= 0, and f(n, 1) = n |
| ChessUtils.FallingFull | notebooks/chess-gender-gap/utils.py:42-47 | f(n, n) = n! for n >= 0 |
| ChessUtils.FallingVanishes | notebooks/chess-gender-gap/utils.py:44-46 | for natural n < k, f(n, k) = 0, because one factor is zero |
| Blogroll.LStrip | scripts/build_rss.py:17 | `str.lstrip(chars)` drops the longest leading run of characters from the set: the result is a suffix, every dropped character is in the set, and the first remaining one is not |
| Blogroll.StripProtocol | scripts/build_rss.py:15-20 | the result is a suffix of the input; a URL without either scheme is returned unchanged; after a scheme test matches, every leading character of the scheme's set is stripped, not only the prefix (also _tools/build_rss.py:22-27) |
| Blogroll.StripProtocolStoreExample | scripts/build_rss.py:16-17 | `https://store.io` becomes `ore.io` |
| Blogroll.StripProtocolPhotosExample | scripts/build_rss.py:18-19 | `http://photos.net` becomes `otos.net` (the set for `http://` has no `s`) |
| Blogroll.StripProtocolExampleCom | scripts/build_rss.py:16-17 | `https://example.com` becomes `example.com` |
| Blogroll.StripProtocolIdempotent | scripts/build_rss.py:15-20 | stripping twice is stripping once |
| Blogroll.StripProtocolIntended | scripts/build_rss.py:15-20 | corrected: removes exactly the scheme prefix and nothing else |
| Blogroll.StripProtocolIntendedKeepsHost | scripts/build_rss.py:15-20 | the corrected function returns the host whole after either scheme |
| Blogroll.StepPrefersPublished | scripts/build_rss.py:37-43 | an entry with a non-empty `published` date is dated by it alone, kept when it parses to the cutoff or later and skipped otherwise (also _tools/build_rss.py:46-52) |
| Blogroll.StepFallsBackToUpdated | scripts/build_rss.py:37-43 | without a usable `published` date the entry is dated by `updated`; with both dates missing it is skipped without a crash (also _tools/build_rss.py:46-52) |
| Blogroll.CollectLinks | scripts/build_rss.py:32-43 | the first loop, entry by entry: a crash (no `links`, an empty list, a first link without `href`, no `title`) ends the run, and an entry with no parseable date is skipped; with the Tools version an entry without links is skipped by `continue` (also _tools/build_rss.py:39-52) |
| Blogroll.CollectedIsAdmitted | scripts/build_rss.py:33-43 | the loop crashes iff some entry crashes it; otherwise it keeps the admitted links in entry order |
| Blogroll.AdmittedExactly | scripts/build_rss.py:42-43 | every kept link is at or after the cutoff, and no entry with a link, a title and a parseable date at or after the cutoff is dropped (also _tools/build_rss.py:51-52) |
| Blogroll.StepKeeps | scripts/build_rss.py:34-43 | an entry yields a link iff its first link has an `href`, it has a title, and it has a date that parses to the cutoff or later; the link is the first href, the title and that date |
| Blogroll.LinklessEntry | _tools/build_rss.py:41-42 | an entry without links is skipped by the second builder whatever else it holds, and crashes the first |
| Blogroll.VersionsAgree | _tools/build_rss.py:39-52 | on feeds whose entries all have links, both builders keep the same links or crash the same way |
| Blogroll.SortByDateDesc | scripts/build_rss.py:45 | the sorted links are a permutation of the kept links |
| Blogroll.SortByDateDescSorted | scripts/build_rss.py:45 | the sorted links are newest first |
| Blogroll.SortByDateDescStable | scripts/build_rss.py:45 | links of any one date keep the order they were collected in (also _tools/build_rss.py:54) |
| Blogroll.ItemsAppend | scripts/build_rss.py:88-91 | the items of two lists side by side are the items of the joined list: one block per link |
| Blogroll.ItemsCons | scripts/build_rss.py:88-91 | the items of a list begin with its first link's block |
| Blogroll.EmitPage | scripts/build_rss.py:88-98 | the page is the header, then one item block per link in the given order, then the footer; the page writer passes this builder's `<li>` format as the block; the second builder's block strips tags from the title (also _tools/build_rss.py:73-84) |
| Blogroll.WriteHtmlWithUpdates | scripts/build_rss.py:28-103 | crashes iff collecting crashes, with that error; otherwise the page holds one item per admitted link, newest first (also _tools/build_rss.py:35-89) |

## Left out

- Network and concurrency. `fetchJSON`, `aiohttp` and `asyncio.gather` are not modelled: responses are given in submission order and taken one after another. In `script.py`, items finishing in another order could append scores of one type in another order; only the order of each list is affected, never the H-index.
- The `setTimeout` pauses and the progress-bar percentage (`Math.round` on a float), as well as every DOM update. The model records the counts handed to the progress functions.
- The page's markup around the H-index. `ComputeHIndex` yields the value shown, or the error message.
- The sorting algorithm of `Array.prototype.sort`, which the engine chooses. `SortInPlace` is a selection sort. Its result is the same, because the sorted order of the array is unique.
- Image decoding, canvas drawing, `toBlob`, object URLs and their revocation, and the blob sizes. A file is its decoded RGBA buffer, or None when it fails to load.
- The `fetch` of each negative's blob for the archive and any fetch failure other than the archive failing as a whole, which `zipBuilt` covers.
- `processImages` settling promises in completion order. The model settles them in file order, so `results` is in file order; in the browser it is in completion order.
- The progress callback's value. The model records `completed`, not the fraction `completed / files.length`.
- Ids (`Date.now()` plus `Math.random()`). They come from the `freshId` parameter.
- The rest of `ui.js` and all of `main.js`: drag and drop, element creation, event wiring, the JSZip load, archive generation and the 100 ms delays. JSZip availability and archive success are booleans, and the order in which the archive's fetches settle is a parameter.
- Feed entries keep only what the loop reads: each link is reduced to its `href` (None when it has none), and the other link attributes are dropped.
- `ClosestIndexDict` keys are integers rather than datetimes. Python's dict ordering is kept as an explicit insertion-order sequence.
- The chess notebook's other functions, the plotting scripts and `_tools/modify_images_md.py`, which are not part of this model.
- Feed parsing (`feedparser`), `dateutil.parse`, `datetime.today`, `get_base_url` (`urlparse`), `remove_html_tags` (BeautifulSoup), `read_websites`, `main`, the file writes and the prints. They are parameters or left out.
- The unused `web_name` computed in `scripts/build_rss.py`.
- Blogroll.EmitPage: states one item block per link, not "one `<li>` per link". A title may itself contain `<li>` markup, so counting tags would not hold.
- Blogroll.WriteHtmlWithUpdates: the page header and footer are parameters, not the literal text of each builder.

## Findings

| source | as written | input that shows it | evidently intended | confidence | as-written member | corrected member |
|---|---|---|---|---|---|---|
| notebooks/sp500/utils.py:18-20 | `__setitem__` always inserts the key into `_keys`, even when the key is already stored, while `__getitem__` compares the `bisect_left` position with the number of dict entries | `d[1] = a; d[1] = b; d[2] = c; d[2]`: `_keys` is [1, 1, 2] and `len(d)` is 2, so the lookup raises `KeyError` "outside the range" although 2 is stored | `_keys` holds each stored key once, and a lookup of a stored key returns its value | high; not executed | ClosestIndex.ReassignedKeyLookup | ClosestIndex.ClosestIndexDict.SetItemFixed |
| scripts/build_rss.py:15-20 | `strip_protocol` strips with `str.lstrip("https://")`, which removes any leading characters from the set {h, t, p, s, :, /} | `strip_protocol("https://store.io")` returns `ore.io` | remove exactly the scheme prefix, giving `store.io` | high; not executed | Blogroll.StripProtocolStoreExample | Blogroll.StripProtocolIntended |
