# Magnetio add-on core, modelled in Dafny

Magnetio is a Stremio add-on. For a movie it lists the torrents that a
configured debrid provider (DebridLink or Premiumize) already holds in its
cache. When the player picks one, it redirects to the provider's direct link.
This project models the add-on's decision logic as pure functions and proves
properties about them:

- **Key configuration.** `getDebridServices` turns a comma-separated key
  string into providers. Each provider keeps its key with the first `dl=` or
  `pr=` removed (module `Debrids`).
- **Provider replies.** Each provider has its own error switch and its own
  way of turning a cache reply into per-hash statuses. Both pick the file to
  play as the largest video, the earliest one on ties. Premiumize requests
  go through a bounded retry loop (module `Debrids`).
- **Candidate store.** The per-year file `movies/<year>.json` is a value:
  the file before and after each operation. `readMovieData` looks up a
  record. `mergeAndSaveStreams` deduplicates by info hash against the
  existing list, appends, and upserts the movie's record (module `Store`).
- **Torrentio mapping.** Each indexer entry becomes a stored candidate: a
  quality token, a `💾` size, the first title line trimmed as the filename,
  and a magnet link built from the info hash (module `Indexer`).
- **Stream route.** The route runs these steps (module `Handler`):
  1. It checks the hashes with every provider.
  2. It folds the cached entries into one map, where the later provider wins.
  3. It builds a display name and a redirect URL for each cached candidate.
  4. It sorts the entries stably by the quality score of their name (modules
     `Rank` and `Sorting`).
  5. When no stored candidate is cached, it falls back to Torrentio.
- **Magnet route.** It decodes the URL segment and returns the first
  provider link that succeeds (module `Handler`).
- **Helpers.** The repository's `isVideo` and `extractInfoHash`, and the
  URL-safe unpadded base64 codec with its round trip (modules `Util` and
  `Base64`).

Regular expressions are written out as matchers: a pattern's match is the
leftmost position where a hand-written matcher succeeds (module
`Patterns`). This is faithful for the patterns used here: every greedy run
is followed by a class it cannot overlap, so no backtracking can change the
match. Case-insensitive matching of these ASCII patterns is exactly ASCII
case folding.

Network calls, file reads, locks and clocks become inputs:
- the metadata reply;
- the year file's content, and whether the lock was acquired;
- the providers' replies, as a function of provider and hash batch, given separately for the cache check of the stored candidates (index.js:276-281) and for that of the Torrentio candidates (index.js:323-328), since the two calls can answer differently;
- the Torrentio reply;
- whether the save succeeded;
- the two clock readings.

Some behaviours of the code are easy to miss when reading it. The model
keeps them as written, and a lemma states each one:

- **Duplicate hashes in one batch.** The merge compares incoming candidates
  only with the existing list (index.js:153-162), although its log line
  calls them "new unique streams" (index.js:166). So one batch that carries the same hash
  twice stores it twice (`Store.MergeKeepsBatchDuplicates`). The merge keeps
  hashes unique only when the batch itself has no repeats
  (`Store.MergeKeepsUniqueHashes`).
- **Stored list replaced.** When none of the stored candidates is cached,
  the route merges the Torrentio candidates into an empty list, not into
  the stored ones (index.js:309-315). The movie's stored list is therefore replaced
  (`Handler.HandleReplacesStoredList`).
- **Links without a hash.** A stored candidate whose link has no `btih:`
  hash is looked up in the cache map under the key `"undefined"`
  (index.js:285-286, `Handler.LookupKey`).
- **Size read as quality.** The quality score reads the first `4k` or run
  of three or four digits in the display name. With no quality, a size such
  as `700 MB` therefore ranks as 700 (index.js:366, `Handler.ScoreOfSizeOnly`).
- **Fallbacks only on the stored path.** The stored-list path fills a
  missing quality or size from the website title (index.js:289-290). The
  Torrentio path does not (index.js:337, `Handler.QualityFor`,
  `Handler.SizeFor`).

## Model

| member | source | states |
|---|---|---|
| Util.EndsWithAny | src/util.js:4-6 | `some` over the extensions is true exactly when one of them ends the name |
| Util.IsVideo | src/util.js:3-7 | a name is a video exactly when its `toLowerCase` form ends in one of the nine video extensions, the Kelvin sign counting as `k` |
| Util.IsVideoFoldsKelvin | src/util.js:5 | `toLowerCase` turns the Kelvin sign into `k`, so a name ending in `.m`, Kelvin sign, `v` is a video |
| Util.IsVideoIgnoresCase | src/util.js:5 | the video test gives the same answer for a name and its lower-cased form |
| Util.ExtractInfoHash | src/util.js:9-12 | a hash is found exactly when some position starts `xt=urn:btih:` (any case) followed by a character other than `&`; it is the capture at the leftmost such position, lower-cased: non-empty, with no `&` |
| Util.ExtractInfoHashOfMagnet | src/util.js:9-12 | extraction inverts link building: `magnet:?xt=urn:btih:` + h yields h lower-cased for every non-empty h without `&` |
| Util.ExtractInfoHashOfMagnetParams | src/util.js:9-12 | a link `magnet:?xt=urn:btih:` + h + `&` + rest yields h lower-cased, whatever the rest holds, even a second `xt=urn:btih:` |
| Util.ExtractInfoHashIgnoresCase | src/util.js:10-11 | a link and its lower-cased form yield the same hash |
| Util.Base64Encode | src/util.js:18-23 | the encoding uses only the URL-safe alphabet and has exactly the unpadded base64 length of the UTF-8 bytes |
| Util.EncodeIsUrlAlphabet | src/util.js:19-22 | the three replacements turn standard padded base64 into the sextets in the URL-safe alphabet with the padding gone |
| Util.PadTo4 | src/util.js:27 | padding appends the fewest `=` that make the length a multiple of four (fewer than four) |
| Util.Base64Decode | src/util.js:25-29 | the decoded text is ASCII |
| Util.Base64RoundTrip | src/util.js:18-29 | decoding the encoding of an ASCII string gives the string back |
| Base64.Utf8 | src/util.js:19 | a string of n characters has between n and 4n UTF-8 bytes, and the bytes of an ASCII string are its code points, one each |
| Base64.AsciiRoundTrip | src/util.js:28 | reading back as ASCII the UTF-8 bytes of an ASCII string gives the string |
| Base64.ToSextets | src/util.js:19 | every three bytes give four sextets, and a final one or two bytes give two or three |
| Base64.SextetsRoundTrip | src/util.js:28 | reading back the sextets of any bytes gives the bytes |
| Base64.Encode | src/util.js:19 | the standard encoding has 4 * ceil(n/3) characters |
| Base64.EncodeThenDecode | src/util.js:19-28 | decoding the standard encoding, with any number of `=` after the data, gives the bytes back |
| Text.Trim | index.js:113 | the result is a slice of the input with no JavaScript whitespace at either end; it is empty exactly when the input is all whitespace |
| Text.Split | index.js:113 | the pieces, joined with the separator, give the input back; no piece holds the separator; a text without it is one piece |
| Text.SplitAppend | src/debrids.js:229 | splitting `a + sep + b` gives the pieces of `a` followed by the pieces of `b` |
| Text.RemoveFirst | src/debrids.js:8 | `replace` with a string pattern cuts out exactly the first occurrence (the text before it, then the text after it), and changes nothing without one |
| Text.RemoveFirstOfPrefix | src/debrids.js:8 | a text that starts with the pattern loses exactly that prefix |
| Text.RemoveCharAppend | src/util.js:22 | dropping a character distributes over concatenation |
| Text.Lower | src/util.js:11 | `toLowerCase` on ASCII: the result is as long as the input and has no capital `A`-`Z`; a character changes exactly when it is such a capital, and it becomes the small letter |
| Text.FoldLower | src/util.js:5 | the lower-casing the video test sees: as `Text.Lower`, except that the Kelvin sign becomes `k`; the result has no capital `A`-`Z` |
| Patterns.Leftmost | index.js:108 | a match is the leftmost position where the pattern matches, with no match before it |
| Patterns.FirstMatch | index.js:108 | `match(re)?.[0]` is defined exactly when the pattern matches somewhere, and is the match at the leftmost position where it does |
| Patterns.CaptureAfter | index.js:155 | `/btih:([^&]+)/i` captures exactly when some position holds the key (any case) and a character other than `&`; the capture is taken at the leftmost such position and is the run up to the next `&`, lower-cased |
| Patterns.CaptureIgnoresCase | index.js:155 | a text and its lower-cased form capture the same hash |
| Patterns.QualityAt | index.js:108 | `\d{3,4}p\|4k\|HDTS\|CAM` at a position matches exactly four digits and `p` (tried first), three digits and `p`, or `4k`, `hdts` or `cam` in any case, and gives that slice |
| Patterns.DiskSizeAt | index.js:111 | a `💾\s*([\d.]+)\s*(GB\|MB)` match is a slice of the text that starts at the disk sign and ends in a unit `GB` or `MB` in any case |
| Patterns.DiskSizeAtOfShape | index.js:111 | wherever the text reads as the disk sign, whitespace, a non-empty digit-or-dot run, whitespace and a unit, the pattern matches there and the match runs to the end of the unit |
| Patterns.DiskSizeAtHasShape | index.js:111 | the pattern matches only where the text reads as the disk sign, whitespace, a non-empty digit-or-dot run, whitespace and a unit, and the match is that whole stretch |
| Patterns.SizeAt | index.js:290 | a `\d+(\.\d+)?\s*(GB\|MB)` match is a slice of the text that starts at a digit and ends in a unit `GB` or `MB` in any case |
| Patterns.SizeAtOfShape | index.js:290 | wherever the text reads as digits, an optional dot followed by digits, whitespace and a unit, the pattern matches there and the match runs to the end of the unit |
| Patterns.SizeAtHasShape | index.js:290 | the pattern matches only where the text reads as digits, an optional dot followed by digits, whitespace and a unit, and the match is that whole stretch |
| Patterns.ResolutionAt | index.js:366 | `4k\|\d{3,4}` matches exactly where `4k` or three digits start; `4k` is tried first, then four digits, then three |
| Seqs.FilterMap | index.js:104-128 | `map` then `filter(Boolean)` keeps, in order, the images of exactly the elements that map to a value |
| Seqs.FilterMapAppend | index.js:104-128 | mapping-and-filtering distributes over concatenation |
| Seqs.FilterKeepsDistinctKeys | index.js:159-162 | filtering keeps a list's keys distinct |
| Sorting.SortDesc | index.js:364-375 | the sort gives a permutation ordered by non-increasing key |
| Sorting.SortDescIsStable | index.js:364-375 | elements with equal keys keep their input order |
| Sorting.SortDescUnique | index.js:364-375 | any ordering by non-increasing key that keeps each key's input order is the sort result |
| Sorting.SortDescOfSorted | index.js:364-375 | a list already in order is left as it is |
| Rank.DigitsValue | index.js:368 | `parseInt` of a digit string is below 10 to the power of its length |
| Rank.Score | index.js:365-369 | the score is 0 without a match, 2160 when the leftmost match is `4k` in any case, and otherwise the decimal value of the leftmost three or four digits |
| Rank.ScoreOfLeadingRun | index.js:365-369 | a name whose first item is a run of three or four digits scores that run's value |
| Rank.ScoreOfRun | index.js:365-369 | a name whose leftmost match is a run of three or four digits scores that run's value |
| Rank.ScoreOfUhd | index.js:367 | a name whose first item is `4k` in any case scores 2160 |
| Rank.ByQuality | index.js:364-375 | the ranked entries are a permutation ordered by non-increasing score, and entries of equal score keep their order |
| Rank.ByQualityUnique | index.js:364-375 | no other order meets that contract |
| Store.LinkHash | index.js:155 | a link has a hash exactly when some position holds `btih:` (any case) and a character other than `&`; the hash is the capture at the leftmost such position, lower-cased, non-empty and free of `&` |
| Store.LinkHashIgnoresCase | index.js:155 | links equal up to case have the same hash |
| Store.LinkHashOfMagnet | index.js:155-160 | the hash of a link built from h is h lower-cased, so the mapping and the store agree on identity |
| Store.KnownHashes | index.js:153-157 | the known set holds exactly the hashes of the existing streams |
| Store.Dedupe | index.js:159-162 | the survivors are exactly the incoming streams with a hash not in the existing list |
| Store.DedupeAppend | index.js:159-162 | survivors keep their input order: deduplicating a concatenation concatenates the parts |
| Store.DedupeOne | index.js:159-162 | one stream survives exactly when its hash is new |
| Store.CaseVariantIsDropped | index.js:155-161 | a stream whose link equals an existing one up to case is dropped |
| Store.DedupeIdempotent | index.js:153-168 | after the survivors are appended, deduplicating the same batch again leaves nothing |
| Store.KnownHashesAppend | index.js:153-157 | the known hashes of a concatenation are the union of the parts' known hashes |
| Store.HashIsKnown | index.js:153-157 | the hash of a listed stream is known |
| Store.MergeKeepsUniqueHashes | index.js:153-168 | the merged list has unique hashes when the existing list and the batch each do |
| Store.MergeKeepsBatchDuplicates | index.js:159-162 | a batch holding one hashed stream twice stores both copies, so the list has a repeated hash |
| Store.FindRecord | index.js:179 | `findIndex` gives the first record with the id, or none when no record has it |
| Store.Upsert | index.js:179-191 | an existing record gets the streams and a new `lastUpdated` and nothing else changes; otherwise one record is appended with two clock readings |
| Store.UpsertThenFind | index.js:179-191 | after an upsert the lookup finds a record holding exactly the streams written |
| Store.UpsertKeepsIdsUnique | index.js:179-191 | upserting keeps a year's ids unique |
| Store.ReadMovie | index.js:65-91 | the read gives the first record with the id, or none exactly when the lock fails, the file is missing or no record has the id |
| Store.ReadMovieOfUpsert | index.js:65-91 | reading after an upsert gives the streams written |
| Store.MergeAndSave | index.js:146-210 | with nothing incoming, nothing new, a lock failure or a failed save, the list and the file are unchanged; otherwise the list is the existing streams and then exactly the new ones, and the file holds it under the id |
| Store.MergeAndSaveIdempotent | index.js:146-210 | merging the same batch into the result of a successful merge changes neither the list nor the file |
| Store.MergeThenRead | index.js:146-210 | a merge that changed the file left the returned list under the movie's id, with ids still unique |
| Indexer.QualityOf | index.js:108-109 | the quality is the name's first quality token, else the title's, else empty when neither matches; a non-empty result is a quality token |
| Indexer.LeftmostIsQuality | index.js:108 | the leftmost quality match is a quality token |
| Indexer.SizeOf | index.js:111 | the size is the title's leftmost `💾` size match, and empty exactly when the title is absent or has none |
| Indexer.FilenameOf | index.js:113 | the filename is the first title line trimmed, and `Unknown` when the title is absent or that line trims to nothing; it is never empty |
| Indexer.FilenameIsFirstLine | index.js:113 | the filename has no line break and no surrounding whitespace, and for a one-line title it is the trimmed title |
| Indexer.WebsiteTitleOf | index.js:120 | the website title is the title when it is non-empty, else the filename |
| Indexer.ToCandidate | index.js:104-123 | an entry becomes a candidate exactly when it has a non-empty info hash, with every field as the mapping builds it |
| Indexer.TorrentioStreams | index.js:93-133 | the candidates are, in order, the mapped entries that have an info hash, and there are none when the fetch failed |
| Indexer.CandidateHash | index.js:115 | the store reads a candidate's hash back as the lower-cased info hash |
| Indexer.TorrentioStreamsAppend | index.js:104-128 | entries are mapped one by one, so mapping a concatenation concatenates the results |
| Debrids.StripKey | src/debrids.js:7-9 | the key loses exactly its first `prefix=` (the text before it, then the text after it), and is unchanged when it has none |
| Debrids.StripKeyOfHandled | src/debrids.js:8 | a key the provider accepts keeps what follows its three-character prefix |
| Debrids.ServiceFor | src/debrids.js:229-235 | a segment configures a provider exactly when it starts with `dl=` or `pr=`; DebridLink is tried first |
| Debrids.GetDebridServices | src/debrids.js:226-238 | one provider for each handled segment, in segment order |
| Debrids.GetDebridServicesAppend | src/debrids.js:226-238 | the providers of `a,b` are those of `a` followed by those of `b` |
| Debrids.GetDebridServicesUnhandled | src/debrids.js:226-238 | a key string with no handled segment configures nothing |
| Debrids.DebridLinkError | src/debrids.js:54-68 | `badToken` maps to the invalid-key error, exactly the seven quota codes to not-premium, and every other code to an API error that keeps it |
| Debrids.DebridLinkErrorMessage | src/debrids.js:54-68 | the thrown message is the invalid-key message exactly for `badToken` and the premium message exactly for the quota codes |
| Debrids.DebridLinkRequest | src/debrids.js:53-71 | a reply gives its value exactly when it succeeded, and otherwise the mapped error |
| Debrids.DlFold | src/debrids.js:87-95 | the loop adds an entry for every hash and leaves other entries alone |
| Debrids.DebridLinkCheck | src/debrids.js:79-104 | on a value, every hash gets an entry that is cached exactly when the reply lists a non-null object for it, with its files and count; any failure gives the empty map |
| Debrids.DebridLinkCheckOmitted | src/debrids.js:88-92 | a hash the reply omits is reported, not cached, with no files |
| Debrids.PrFold | src/debrids.js:181-188 | each hash gets the flag at its last position, and other entries are left alone |
| Debrids.PremiumizeCheck | src/debrids.js:167-194 | on success every hash gets the flag at its last position (a missing flag is not cached); any other status or failure gives the empty map |
| Debrids.PremiumizeCheckDistinct | src/debrids.js:181-188 | without repeated hashes, hash i gets exactly flag i |
| Debrids.PlayableIsVideo | src/debrids.js:117 | every file the provider accepts as playable is also a video for `isVideo` |
| Debrids.LargestVideoUnique | src/debrids.js:116-121 | at most one file is the largest-earliest playable one |
| Debrids.LargestVideoSnoc | src/debrids.js:116-121 | a new file replaces the choice exactly when it is playable and strictly larger |
| Debrids.LargestVideo | src/debrids.js:116-121 | the chosen file is playable, of maximum size, and the earliest such; there is none exactly when no file is playable |
| Debrids.PickLink | src/debrids.js:116-121 | the link of the largest-earliest playable file, or the no-video failure exactly when none is playable |
| Debrids.DebridLinkStreamUrl | src/debrids.js:106-126 | request errors pass through; with files, a link exists exactly when a playable file does, and it is that file's link |
| Debrids.PremiumizeStreamUrl | src/debrids.js:196-223 | failures pass through, a non-success status fails with add-magnet, and otherwise the link is the largest playable file's |
| Debrids.PremiumizeRequest | src/debrids.js:140-165 | at most three attempts, stopping at the first success; it succeeds exactly when one of the three would, and otherwise fails with the third attempt's error |
| Handler.Cached | index.js:278-280 | exactly the cached entries of a provider's result are kept, unchanged |
| Handler.FoldCache | index.js:275-281 | a hash is in the fold exactly when some provider reports it cached, with the entry of the last such provider |
| Handler.FoldCacheHasLast | index.js:275-281 | every folded hash has a last provider reporting it cached |
| Handler.FoldCacheAppend | index.js:275-281 | folding two groups of providers is folding each, with the later group winning |
| Handler.CheckCache | index.js:134-144 | each provider answers with its own check, and only about the hashes asked |
| Handler.Hashes | index.js:270-273 | the hashes are those of the candidates that have one, in order |
| Handler.CacheResults | index.js:275-281 | a hash is in the map exactly when some provider reports it cached, only asked hashes appear, and the entry is that of the last provider reporting it cached |
| Handler.DisplayName | index.js:293-295 | the name is the badge, then each of quality and size when non-empty, then the service, joined by ` \| ` |
| Handler.StreamUrlCarriesMagnet | index.js:297 | the last path segment of the redirect URL decodes back to the magnet link for ASCII links |
| Handler.ScoreOfQualityName | index.js:364-375 | an entry whose quality names a resolution is ranked by that resolution, whatever its size and service |
| Handler.ScoreOfSizeOnly | index.js:365-369 | without a quality, a size starting with three or four digits is what the score reads |
| Handler.LookupKey | index.js:285-286 | a candidate is looked up under its hash, or under `"undefined"` when it has none |
| Handler.QualityFor | index.js:289 | the stored quality wins; on the stored path an empty one falls back to the website title's first quality token, and is empty when the title has none |
| Handler.SizeFor | index.js:290 | the stored size wins; on the stored path an empty one falls back to the website title's first size |
| Handler.ProcessOne | index.js:284-299 | a candidate gets an entry exactly when the map holds a cached entry under its key, with the name, title, URL and service built from it |
| Handler.ProcessStreams | index.js:283-301 | the entries are exactly those of the cached candidates, in order |
| Handler.ProcessStreamsAppend | index.js:283-301 | candidates are processed one by one, so the entries of a concatenation concatenate |
| Handler.ProcessedWhenCached | index.js:283-301 | a hashed candidate gets an entry exactly when some provider reports its hash cached |
| Handler.Process | index.js:270-301 | checking a list of candidates gives one entry per candidate whose key the cache map holds as cached, in order, each built as `Handler.ProcessOne` builds it |
| Handler.StoredStreams | index.js:264-266 | `movieData?.streams \|\| []`: the streams of the first record with the movie's id, and none when the read fails or no record has the id |
| Handler.StoredEntries | index.js:266-301 | no stored candidates give no entries; otherwise one entry per stored candidate whose key is cached, in order, built for the stored path |
| Handler.Ranked | index.js:364-375 | the reply's entries are a permutation ordered by non-increasing score, and entries of equal score keep their order |
| Handler.HandleStream | index.js:251-384 | with no provider or no metadata the reply is empty; the reply is always ranked; the year file changes only through the Torrentio merge when no stored candidate is cached |
| Handler.HandleStoredHit | index.js:269-302 | when a stored candidate is cached, the reply is the ranked stored entries and nothing is written |
| Handler.HandleTorrentioPath | index.js:304-346 | otherwise the Torrentio candidates are merged into an empty list and the reply is their ranked entries |
| Handler.HandleNoCandidates | index.js:304-308 | when no stored candidate is cached and no Torrentio entry has an info hash, the reply is empty and the file is unchanged |
| Handler.HandleReplacesStoredList | index.js:304-346 | a successful Torrentio merge leaves the movie holding only the new candidates; the ones stored before are gone |
| Handler.ReadAfterReplace | index.js:309-315 | a successful merge into an empty list is read back as the deduplicated candidates |
| Handler.FirstUrl | index.js:398-406 | the URL comes from the first provider that yields one; there is none exactly when every provider fails |
| Handler.Redirect | index.js:386-414 | no provider fails with the no-service message; a redirect is the first provider's link that succeeds; otherwise the all-failed message, and then every provider failed |

## Left out

- HTTP serving: Express routing, CORS, static files, the configuration page and both manifest endpoints (index.js:15-49, 213-249). They are fixed JSON with no logic beyond the provider count.
- Network, files and JSON: fetches, file reads and writes, and JSON parsing and printing. Their outcomes are inputs. A year file that is missing or does not parse is `None`.
- The movie's release year (`new Date(released).getFullYear()`): date parsing is not modelled. The year's file is given directly.
- `AsyncLock`: mutual exclusion between concurrent requests is not modelled. Each lock acquisition is an input that succeeds or fails.
- The background refresh after a stored hit (index.js:348-361). It is fire-and-forget and does not affect the reply. Its effect on the file is `Store.MergeAndSave` with the stored list as the existing one, which the model covers.
- Logging, the 30-second abort and the 2-second pause of the Premiumize retry loop, and the `wait` helper of src/util.js: timing only.
- Request construction (URLs, headers, query strings, form bodies) of both providers.
- Debrids.DebridLinkError: an unknown code keeps only the code, not the `JSON.stringify(data)` text of the thrown message.
- Debrids.PremiumizeCheck: the `Invalid API key.` branch and the other non-success statuses are not told apart. Both give the empty map, as in the source.
- Text.Lower: lower-casing is ASCII only. `toLowerCase` also lower-cases non-ASCII letters: `É` to `é`, the Kelvin sign U+212A to `k`, and U+0130 to `i` followed by a combining dot. The case-insensitive patterns compare only ASCII letters, digits, whitespace and `&`, and the `i` flag without `u` folds no non-ASCII character into ASCII, so no match is affected. The video test uses `Text.FoldLower`, which is exact for a suffix test against ASCII extensions.
- Util.ExtractInfoHash: a captured hash holding non-ASCII capital letters or the Kelvin sign is lower-cased only in its ASCII letters, where `toLowerCase` would change those characters too.
- Store.LinkHash: the same ASCII-only lower-casing of the captured hash as `Util.ExtractInfoHash`.
- Malformed values: a Torrentio entry that is `null`, or a stored candidate whose `websiteTitle` is missing. The source reads `websiteTitle` only for a cached candidate whose stored `quality` or `size` is empty (index.js:287-290). Only there does it throw, and then the route replies with no entries. Every field is modelled as a string.
- Util.Base64Decode: states only that the result is ASCII. Its meaning is stated by `Util.Base64RoundTrip`, which needs an ASCII input because Node's `'ascii'` decoding drops the high bit of every byte.
- Handler.Redirect: the HTTP 500 reply is reduced to its `details` message.
