# balatro-mod-index core, modelled in Dafny

This project models the logic of the `balatro-mod-index` crate, without its network, archive or JSON layers. The crate reads the Balatro mod index from a zip archive of a Git repository. It resolves the mods' thumbnails, which are Git LFS objects.

- **Git LFS pointers** (`lfs.dfy`, module `Lfs`):
  - `parse_pointer`: a loop over the lines of a pointer file. It builds `{oid, size}` from the `version`, `oid` and `size` keys.
  - `batch_pointers`: the offset/count cursor.
  - The chunking loop of `batch_query_objects`: pages of at most 100 pointers, one batch request per page, and the `(oid, href)` pairs concatenated in order.
  - The success filter of `concurrent_download_impl`.
- **The mod index** (`mods.dfy`, module `Mods`):
  - `ModIndex::from_zip`: filters the archive entries by path and folds them into a map keyed by `ModId`.
  - The archive URL for GitHub and GitLab.
  - `ModId` equality.
  - The class `ModIndex` with `mut_fetch_blob_urls` and `mut_fetch_blobs`. These replace the thumbnail blobs of a window of mods in place.
- **The older mod index** (`legacy_mods.dfy`, module `LegacyMods`):
  - `batch_lfs_on` with its cursor.
  - The `from_zip` that strips a prefix.
  - The GitHub archive URL.
- **Supporting modules:**
  - `text.dfy` (module `Text`) writes out the Rust `str` and integer operations the crate relies on: `lines`, `trim`, `split_once`, `split`, `trim_start_matches`, `usize::from_str`, and decimal formatting.
  - `forge.dfy` holds the repository coordinates `Tree` and `GitHubTree`.
  - `wrappers.dfy` holds `Option` and `Result`.

**Collaborators become function parameters.** Parts of the crate are either external or not defined in `src/lfs.rs`. Each is passed in as a function value:

| Part of the crate | Parameter |
|---|---|
| The batch server | `Lfs.Server` |
| The blob fetch | `Lfs.Fetch` |
| `ModMeta::from_slice` | `MetaDecoder` |
| `String::from_utf8_lossy` | `LossyDecoder` |
| `lfs::mut_fetch_download_urls` | `UrlResolver` |
| `lfs::mut_fetch_blobs` | `BlobFetcher` |

`from_zip` also takes the pointer parser as a parameter (`Mods.PointerParser`). The real parser is `Lfs.Parse`. `Mods.ThumbnailEntryParsed`, `Mods.RenderedThumbnailAttached` and `LegacyMods.LegacyThumbnailParsed` plug it in and state what a thumbnail entry then yields.

**Loops are methods proved against functions.** Each loop in the source is a Dafny method with loop invariants, and its `ensures` ties the result to a specification function. The lemmas about those functions carry the properties:

| Method | Specification function |
|---|---|
| `Lfs.ParsePointer` | `Lfs.Parse` |
| `Lfs.BatchQueryObjects` | `Lfs.ResolvePages` over `Lfs.Chunks` |
| `Mods.ModIndex.FromZip` | `Mods.IndexMap` |
| `LegacyMods.LegacyModIndex.FromZip` | `LegacyMods.LegacyIndexMap` |
| `LegacyMods.LegacyModIndex.BatchLfsOn` | `LegacyMods.BatchLfsOnAsWritten` |

## Model

| member | source | states |
|---|---|---|
| Text.TrimStart | src/lfs.rs:42 | the result is a suffix of the line, everything removed is whitespace, and the result does not start with whitespace |
| Text.TrimEnd | src/lfs.rs:42 | the result is a prefix, everything removed is whitespace, and the result does not end with whitespace |
| Text.Trim | src/lfs.rs:42 | the trimmed line is no longer than the line and neither starts nor ends with whitespace (Rust's `char::is_whitespace`) |
| Text.SplitOnce | src/lfs.rs:43 | there is no pair exactly when the separator is absent; otherwise the line is `before + sep + after`, split at the first separator |
| Text.Split | src/lfs.rs:52 | a split has at least one piece, no piece contains the separator, and the pieces rejoin to the input |
| Text.Lines | src/lfs.rs:40 | no line contains '\n', and there are no lines exactly when the input is empty |
| Text.LinesCons | src/lfs.rs:40 | a line ended by '\n' is the first line, with a trailing '\r' dropped, and the rest follows |
| Text.TrimStartMatches | src/mod.rs:117 | the result is a suffix of the name that no longer starts with the prefix; an empty prefix removes nothing |
| Text.TrimStartMatchesRemovesCopies | src/mod.rs:117 | the name is some number of copies of the prefix followed by the result: whole copies are removed, and only those |
| Text.ParseUsize | src/lfs.rs:58 | a size is accepted exactly when, after one optional leading '+', it is a non-empty run of ASCII digits whose value is at most `usize::MAX`; the result is that value |
| Text.NonDigitRejected | src/lfs.rs:58 | a size with any character other than a digit, except a '+' in front, is rejected |
| Text.ParseNatToString | src/lfs.rs:58 | every usize written in decimal is parsed back to itself |
| Lfs.ReadLine | src/lfs.rs:41-60 | one turn of the parse loop: a rejected line returns its error, and an accepted line updates the pointer by its effect |
| Lfs.ParsePointer | src/lfs.rs:38-64 | the loop over `input.lines()`, starting from the default pointer, computes `Parse(input)` |
| Lfs.OidValueSpec | src/lfs.rs:51-57 | an oid value is accepted exactly when it starts with "sha256:"; the oid is the text after that up to the next ':'; "oid missing" is returned exactly for the value "sha256" |
| Lfs.OidValueOfPrefixed | src/lfs.rs:52-56 | after "sha256:" the stored oid is the first ':'-separated piece |
| Lfs.OidValueRejects | src/lfs.rs:53-56 | a value that does not start with "sha256:" is rejected, and the error is "oid missing" exactly when the value is "sha256" |
| Lfs.OtherAlgoRejected | src/lfs.rs:53-55 | a value with a ':' that does not start with "sha256:" fails with "lfs hash algorithm is not sha256" |
| Lfs.NoColonRejected | src/lfs.rs:53-56 | a value without ':' fails with "oid missing" if it is "sha256", and with the algorithm error otherwise |
| Lfs.VersionLine | src/lfs.rs:46-50 | a version line is accepted exactly when its value is the v1 URL, and then changes nothing; any other value gives the quoted-value error |
| Lfs.OidLine | src/lfs.rs:51-57 | an oid line is accepted exactly when its value starts with "sha256:", and it then sets the oid; otherwise it fails with the value's error |
| Lfs.SizeLine | src/lfs.rs:58 | a size line is accepted exactly when its value parses as a usize, and it then sets the size; otherwise "couldn't parse size" |
| Lfs.NoPairRejected | src/lfs.rs:41-44 | a line with no space after trimming fails with "line is not a key-value pair" |
| Lfs.BlankLineRejected | src/lfs.rs:40-44 | an empty or all-whitespace line is rejected as not a key-value pair |
| Lfs.UnknownKeyIgnored | src/lfs.rs:59 | a line with any other key is accepted and changes nothing |
| Lfs.KeyValueOf | src/lfs.rs:41-44 | `key value`, with a key free of spaces, splits back into that key and that value |
| Lfs.ParseRejectsIff | src/lfs.rs:40-61 | parsing fails exactly when some line is rejected |
| Lfs.ParseStep | src/lfs.rs:40-60 | in a successful parse every line is accepted, and each line sets the oid or size it names and leaves the rest as it was |
| Lfs.ParseLastOidWins | src/lfs.rs:39-57 | after a successful parse the oid is the one from the last oid line, or the starting oid when there is no oid line |
| Lfs.ParseLastSizeWins | src/lfs.rs:39-58 | after a successful parse the size is the one from the last size line, or the starting size when there is no size line |
| Lfs.VersionLineAccepted | src/lfs.rs:46-50 | the line `version https://git-lfs.github.com/spec/v1` is accepted and changes nothing |
| Lfs.OidLineAccepted | src/lfs.rs:51-57 | the line `oid sha256:<oid>`, with a plain oid, sets exactly that oid |
| Lfs.SizeLineAccepted | src/lfs.rs:58 | the line `size <n>` for any usize `n` sets the size to `n` |
| Lfs.RenderedLines | src/lfs.rs:40 | the three-line pointer text splits into its version, oid and size lines |
| Lfs.ParseRenderedLines | src/lfs.rs:39-63 | those three lines, read from the default pointer, give back the pointer |
| Lfs.ParseRenderPointer | src/lfs.rs:38-64 | round trip: parsing the standard pointer text of any pointer with a plain oid and a usize size gives that pointer |
| Lfs.ParseRejectsOtherHash | src/lfs.rs:53-55 | `oid <algo>:<oid>` with any algorithm other than sha256 is rejected with the algorithm error |
| Lfs.ParseEmpty | src/lfs.rs:39-63 | no key is mandatory: the empty text parses to the default pointer (empty oid, size 0) |
| Lfs.BatchPointers | src/lfs.rs:70-88 | it fails with "cursor out of bounds" exactly when `offset >= len`; otherwise it returns the elements `[offset, next)` in order, with `next = min(offset + count, len)` |
| Lfs.ChunksStep | src/lfs.rs:99-115 | one loop turn: an out-of-bounds cursor ends the pages; otherwise the page comes first and the pages from the next cursor follow |
| Lfs.ChunksConcat | src/lfs.rs:97-115 | the pages concatenate back to the pointers from the starting offset |
| Lfs.ChunkSizes | src/lfs.rs:101 | every page holds between 1 and 100 pointers, and every page but the last is full |
| Lfs.ChunkCount | src/lfs.rs:99-115 | the number of pages (requests) is the ceiling of the remaining count over the page size, and zero exactly when nothing is left |
| Lfs.ChunksOf250 | src/lfs.rs:36 | 250 pointers go out as three requests: 0-99, 100-199 and 200-249 |
| Lfs.BatchEndpoint | src/lfs.rs:117-121 | the batch URL is `https://{host}/` followed by exactly `{namespace}/{name}.git/info/lfs/objects/batch` |
| Lfs.DownloadPairs | src/lfs.rs:144-148 | one `(oid, href)` pair per object the server reported, in order |
| Lfs.PageOutcome | src/lfs.rs:128-142 | a page succeeds exactly when the reply was sent, read and decoded |
| Lfs.ResolveOkIff | src/lfs.rs:99-151 | the whole query succeeds exactly when every page succeeds |
| Lfs.ResolveValue | src/lfs.rs:144-151 | when every page succeeds, the result is the in-order concatenation of the pages' pairs |
| Lfs.ResolveFirstError | src/lfs.rs:128-142 | a failed query returns the error of the first failing page, and every earlier page succeeded; there is no partial list |
| Lfs.ResolveStep | src/lfs.rs:128-148 | one page: a failure replaces everything collected; a success appends its pairs to what was collected |
| Lfs.QueryStep | src/lfs.rs:101-148 | one loop turn in terms of the pages: the page just sent extends the prefix already sent, and the result is re-expressed from the next cursor |
| Lfs.BatchQueryObjects | src/lfs.rs:92-152 | the loop returns the resolution of the 100-pointer pages from offset 0. It sends the pages in order, all of them on success, and stops at the first failing page. Empty input is `Ok([])` with no request |
| Lfs.CollectDownloads | src/lfs.rs:213-222 | an oid is a key exactly when some fetch of it succeeded, and its value is the bytes of such a fetch |
| Lfs.ConcurrentDownload | src/lfs.rs:201-223 | always `Ok`; the keys are exactly the oids whose fetch succeeded, and failures are dropped |
| Lfs.DownloadOfListedOnce | src/lfs.rs:219-222 | an oid listed once maps to its fetched bytes when the fetch succeeds and is absent when it fails |
| Mods.ModIdEq | src/mods.rs:21-25 | an id equals a string exactly when it wraps that string |
| Mods.NewBlob | src/mods.rs:122-127 | a new thumbnail blob has the parsed pointer and the tree, no URL, and the data error "no download attempts yet" |
| Mods.ArchiveUrl | src/mods.rs:62-71 | the archive URL is `https://{host}/` followed by exactly `{namespace}/{name}/archive/refs/heads/{rev}.zip` on GitHub, or `api/v4/projects/{namespace}%2F{name}/repository/archive.zip?include_lfs_blobs=false&sha={rev}` on GitLab |
| Mods.Dispatch | src/mods.rs:112-131 | a successful dispatch always acts on the mod whose id it was given |
| Mods.DispatchByName | src/mods.rs:112-131 | `meta.json` sets the decoded meta or fails with "couldn't parse mod meta for {id}: " and the decoder's error; `description.md` sets the lossily decoded text; `thumbnail.jpg` and `thumbnail.png` set a fresh blob for the parsed pointer or fail with "couldn't parse lfs pointer: " and the parser's error; any other name only creates the mod |
| Mods.ClassifyDispatches | src/mods.rs:108-112 | a considered entry with at least four path components is dispatched on the mod named by the third component and the file named by the fourth |
| Mods.ClassifyNames | src/mods.rs:93-112 | an entry that is not a file under `{name}-{rev}*/mods/` is skipped; a considered entry without a fourth path component fails; a successful one acts on the mod named by the third component |
| Mods.PerformSpec | src/mods.rs:110-131 | an action creates its mod with defaults if absent, sets exactly the field it selects, and leaves every other mod unchanged |
| Mods.CollectFailsIff | src/mods.rs:91-132 | `from_zip` fails exactly when some entry fails |
| Mods.StepKeys | src/mods.rs:108-110 | one entry adds exactly the mod it names, if any |
| Mods.CollectKeys | src/mods.rs:91-132 | the ids of the built index are exactly the ids named by considered entries |
| Mods.ThumbnailEntryParsed | src/mods.rs:121-128 | with the real pointer parser, a thumbnail entry fails with "couldn't parse lfs pointer: " and the parser's error, or sets a fresh blob for the parsed pointer |
| Mods.RenderedThumbnailAttached | src/mods.rs:121-128 | a thumbnail entry holding the standard pointer text of `p` sets a fresh blob for exactly `p` |
| Mods.ClassifiedThumbnailUnfetched | src/mods.rs:122-127 | every thumbnail blob `from_zip` builds is unfetched and belongs to the tree |
| Mods.PerformKeepsUnfetched | src/mods.rs:110-131 | applying an entry keeps every thumbnail of the map unfetched |
| Mods.CollectThumbnailsUnfetched | src/mods.rs:91-132 | every thumbnail of a freshly built index is unfetched |
| Mods.WindowIsBatchPage | src/mods.rs:154-163 | the window check of the fetch methods is the same out-of-bounds test and bounds as `batch_pointers` |
| Mods.ListMap | src/mods.rs:135 | the index lists every entry of the map exactly once, in some order |
| Mods.Thumbnails | src/mods.rs:163-166 | the blobs handed on are at most one per mod of the window |
| Mods.ThumbnailsOne | src/mods.rs:163-166 | one mod hands on its thumbnail if it has one, and nothing otherwise |
| Mods.ThumbnailsAppend | src/mods.rs:163-166 | the thumbnails of two runs of mods are those of the first run followed by those of the second, so they come in window order with the mods without a thumbnail skipped |
| Mods.WriteBack | src/mods.rs:163-168 | writing blobs back changes only thumbnails: ids, meta, descriptions and which mods have a thumbnail stay as they were |
| Mods.ThumbnailsOfWriteBack | src/mods.rs:163-168 | after writing blobs back, the window's thumbnails are exactly those blobs, in order |
| Mods.WriteBackOfThumbnails | src/mods.rs:163-168 | writing back the thumbnails a window already has changes nothing |
| Mods.WriteBackTwice | src/mods.rs:163-168 | a second write-back replaces the first |
| Mods.SpliceKeeps | src/mods.rs:163-166 | replacing a window keeps the length, keeps every id and meta, and leaves mods outside the window unchanged |
| Mods.UpdateWindow | src/mods.rs:163-168 | updating a window keeps every id and meta, and leaves mods outside the window unchanged |
| Mods.UpdateWindowTwice | src/mods.rs:193-199 | the window then holds exactly the blobs given, and a later update of the same window replaces the earlier one |
| Mods.SetFile | src/mods.rs:112-131 | the match on the file name sets the selected field of the mod, or returns the decoding error |
| Mods.AddEntry | src/mods.rs:92-131 | one loop turn of `from_zip` fails exactly when the entry is rejected, with its error, and otherwise applies the entry to the map |
| Mods.ModIndex.constructor | src/mods.rs:134-137 | the index holds the given mods and repository |
| Mods.ModIndex.FromZip | src/mods.rs:82-138 | it fails exactly when the fold over the entries fails, with that error; otherwise it is a new index of that tree listing the folded map |
| Mods.ModIndex.MutFetchBlobUrls | src/mods.rs:144-171 | `offset >= len` gives the out-of-bounds message and changes nothing. Otherwise the thumbnails of `[offset, next)` are handed on and replaced by the resolved blobs, and the result is `next = min(offset + count, len)` or the resolver's error |
| Mods.ModIndex.MutFetchBlobs | src/mods.rs:174-202 | the same window and cursor; on a resolver error the window holds the resolved blobs and the error is returned; otherwise it holds the fetched blobs and `next` is returned |
| LegacyMods.Selected | src/mod.rs:55-59 | at most one pointer per mod of the window |
| LegacyMods.SelectedOne | src/mod.rs:55-59 | one mod gives the pointer `f` picks from it, or nothing when `f` picks none |
| LegacyMods.SelectedAppend | src/mod.rs:55-59 | the selection over two runs of mods is the two selections in order |
| LegacyMods.BatchLfsOnAsWritten | src/mod.rs:38-62 | "cursor out of bounds" exactly when `offset >= len`; otherwise the pointers `f` picks from `[offset, offset + k)` in order (at most `k`), and the cursor `offset + k + 1` |
| LegacyMods.BatchLfsOnCorrected | src/mod.rs:53-61 | the same window with the cursor `offset + k`, one less than as written |
| LegacyMods.AsWrittenWindowsStep | src/mod.rs:53-61 | the windows followed by the as-written cursor start with the page `batch_lfs_on` returns at `offset`, and continue from the cursor it returns, which lies past `offset` |
| LegacyMods.AsWrittenMissesMods | src/mod.rs:61 | paging with the as-written cursor never visits more mods than there are, and visits strictly fewer when a window ends before the last mod |
| LegacyMods.AsWrittenSkipsSecondOfThree | src/mod.rs:61 | over three mods with count 1 the cursor goes 0, 2, 4 and the mod at index 1 is never visited, while the corrected cursor is 1 |
| LegacyMods.SelectedPagesFlatten | src/mod.rs:55-59 | selecting page by page is selecting from the pages concatenated |
| LegacyMods.CorrectedCoversIndex | src/mod.rs:53-61 | paging with the corrected cursor from 0 with any positive count gathers exactly the pointers `f` selects from the whole index, in order |
| LegacyMods.PathParts | src/mod.rs:117-118 | a path always has a first component, so "path is not pathing" cannot arise |
| LegacyMods.DoubledPrefixStripped | src/mod.rs:117 | every leading copy of the prefix is stripped: a name with the prefix twice has the same components as with it once |
| LegacyMods.LegacyDispatch | src/mod.rs:122-137 | a successful dispatch always acts on the mod whose id it was given |
| LegacyMods.LegacyDispatchByName | src/mod.rs:122-137 | `meta.json` sets the decoded meta or fails with "couldn't parse mod meta for {id}: " and the decoder's error; `description.md` sets the lossily decoded text; `thumbnail.jpg` and `thumbnail.png` store the parsed pointer or fail with "couldn't parse lfs pointer: " and the parser's error; any other name only creates the mod |
| LegacyMods.LegacyClassifyDispatches | src/mod.rs:117-122 | a considered entry with at least two components after the prefix is dispatched on the mod named by the first and the file named by the second |
| LegacyMods.LegacyClassifyNames | src/mod.rs:109-122 | an entry that is not a file under `{name}-{rev}/mods/` is skipped; a considered entry without a second component fails with "sub-path is not pathing"; a successful one acts on the mod named by the first component |
| LegacyMods.LegacyThumbnailParsed | src/mod.rs:131-136 | with the real pointer parser, a thumbnail entry stores the parsed pointer or fails with "couldn't parse lfs pointer: " and the parser's error |
| LegacyMods.LegacyCollectFailsIff | src/mod.rs:106-139 | the legacy `from_zip` fails exactly when some entry fails |
| LegacyMods.LegacyStepKeys | src/mod.rs:119-120 | one entry adds exactly the mod it names, if any |
| LegacyMods.LegacyCollectKeys | src/mod.rs:106-139 | the ids of the built index are exactly the ids named by considered entries |
| LegacyMods.LegacySetFile | src/mod.rs:122-137 | the match on the file name sets the selected field of the mod, or returns the decoding error |
| LegacyMods.LegacyAddEntry | src/mod.rs:107-138 | one loop turn of the legacy `from_zip` is one step of the fold |
| LegacyMods.LegacyArchiveUrl | src/mod.rs:154-157 | the URL is always the GitHub archive URL of the same coordinates |
| LegacyMods.LegacyModIndex.constructor | src/mod.rs:141-144 | the index holds the given mods and repository |
| LegacyMods.LegacyModIndex.BatchLfsOn | src/mod.rs:38-62 | the loop that pushes the selected pointers computes `BatchLfsOnAsWritten` |
| LegacyMods.LegacyModIndex.FromZip | src/mod.rs:99-145 | it fails exactly when the fold over the entries fails, with that error; otherwise it is a new index of that tree listing the folded map |

## Left out

- Network I/O is left out: the batch POST, body reads, `fetch_one` and both `from_reqwest` downloads. The batch server is `Lfs.Server`, which returns an already classified reply (not sent, not read, not JSON, decoded). The blob fetch is `Lfs.Fetch`.
- Concurrency is left out. `buffer_unordered` is modelled as a fold in input order. With duplicate oids, the payload kept depends on completion order, so nothing is stated about duplicates. `concurrencyFactor` has no effect on the result.
- The `#[cached]` memoisation of `fetch_one` is left out, because its eviction belongs to a library outside the crate.
- JSON is left out. `ModMeta::from_slice` is an opaque partial function. `BatchRequest`/`BatchResponse` serialisation is reduced to the page of pointers sent and the decoded list of objects.
- Zip decoding is left out, with its `by_index` and `read_to_end` errors. The archive is a sequence of `(name, is_file, bytes)` entries.
- `String::from_utf8_lossy` is left out and is a parameter.
- Mods.ListMap: the order of the listed mods is not stated, because the crate takes it from `HashMap` iteration order.
- Mods.ModIndex.MutFetchBlobUrls and Mods.ModIndex.MutFetchBlobs: `lfs::mut_fetch_download_urls` and `lfs::mut_fetch_blobs` are not part of this model. They are parameters that return the updated blobs in the order they were given.
- Mods.ModIndex.FromZip and LegacyMods.LegacyModIndex.FromZip: the pointer parser is a parameter of these. The real parser is connected through Mods.ThumbnailEntryParsed, Mods.RenderedThumbnailAttached and LegacyMods.LegacyThumbnailParsed.
- `usize` overflow of `offset + count` is not modelled: cursors are unbounded naturals. `size` is bounded by `usize::MAX` on a 64-bit target.
- The model of the pages in `batch_query_objects` needs a page size above zero. The crate's page size is the constant 100.
- A page's `(oid, href)` pairs come from the server unchecked, as in the crate. Nothing ties them to the oids requested.
- The logging calls and the example programs under `examples/` are left out.
- `src/forge.rs`, `src/github.rs` and `src/lib.rs` hold only data and wiring. They appear as the datatypes `Tree` and `GitHubTree` with their defaults.

## Findings

| source | as written | input that shows it | evidently intended | confidence | as-written member | corrected member |
|---|---|---|---|---|---|---|
| src/mod.rs:61 | `batch_lfs_on` returns `offset + count + 1` as the next cursor | three mods, `count = 1`: the cursors are 0, then 2, then 4, so the mod at index 1 is never visited | the next cursor is `offset + count`, as in `batch_pointers` (src/lfs.rs:85) | not executed | LegacyMods.AsWrittenSkipsSecondOfThree | LegacyMods.CorrectedCoversIndex |
