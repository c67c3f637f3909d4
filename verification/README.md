# Anime scraper extraction engine, in Dafny

This project models the extraction engine of the anime-streaming scraper's
Express server (`server/index.js`). The engine turns parsed pages of
`otakudesu.cloud` into JSON records:

- the **listing** loops of the top-airing and recent-anime routes;
- the **search** loop, with its defaulted `type` / `status` / `rating` badges, and the check that rejects an empty query;
- the **detail** extraction: the fixed title, poster and synopsis, the open-ended `label: value` info block, the episode list, and the `{title, thumbnail, synopsis, ...info, episodes}` merge;
- the **stream** extraction, which fails when there is no player URL and collects the download links;
- the **slug rule** `url ? url.split(marker)[1]?.replace('/', '') : ''`, which three extractions use at four sites: the two listing loops, the search loop and the episode list. The stream extraction derives no slug.

The DOM is abstracted away. A selector's matches are a sequence of `Node`s (`page.dfy`). Each node is either `Readable`, holding the optional texts and attributes the rule reads from it, or `Broken`, holding the message of the error reading it raised.

The two loop shapes of the source are modelled once each:

- `Page.Keep`: the `each` loop whose body is wrapped in a `try`. A node that throws, or that the filter rejects, is skipped.
- `Page.ReadAll`: the loop with no `try`. The first throwing node fails the whole route.

The JavaScript string operations the rules use live in `text.dfy`:

- `trim`, with ECMAScript's exact whitespace set;
- `split` with a string separator, together with the left-to-right substring search ECMAScript defines `split` by (the source never calls `indexOf` itself);
- `replace` with a one-character string pattern, which replaces only the first occurrence;
- `toLowerCase` plus `replace(/ /g, '_')` for info keys.

The five routes (`api.dfy`) take the page fetch as a parameter. That parameter yields either the parsed page of a URL or the message of the error the fetch raised. The routes turn what the engine returns into the JSON body or the error body.

Modules:

| module | file | contents |
|---|---|---|
| `Wrappers` | `wrappers.dfy` | `Option`, `Result` |
| `Site` | `site.dfy` | base URL and path markers (server/index.js:8, 48, 196), the fetched URLs: ongoing listing (37), complete listing (76), search (121), detail page (173), watch page (228) |
| `Text` | `text.dfy` | trim, the substring search behind `split`, split, replace, key normalisation |
| `Slug` | `slug.dfy` | the slug rule and its round trips |
| `Page` | `page.dfy` | `Node`, the `Keep` and `ReadAll` loops |
| `Listing` | `listing.dfy` | top-airing / recent-anime items |
| `Search` | `search.dfy` | search results and badges |
| `Detail` | `detail.dfy` | info block, episode list, merge |
| `Stream` | `stream.dfy` | watch page and download links |
| `Api` | `api.dfy` | the five routes and their error bodies |

Behaviours of the code worth knowing:

- **Slug.** The slug is the text between the first and the second occurrence of the marker, and `replace('/', '')` removes its **first** `/`, not a trailing one. So `…/anime/a/b/` gives `ab/`.
- **Missing marker.** A link without the marker gives `undefined` rather than an empty string. `SlugOf` returns `None` then, and the item is dropped just the same.
- **Info value.** The value of an info paragraph is the piece between its first and its second `:`. So `Durasi: 12:00` gives `12`.
- **Detail merge.** Info keys override the fixed `title`, `thumbnail` and `synopsis`; `episodes` cannot be overridden. A detail page with an empty title is not a failure.
- **`trim`.** It removes the full ECMAScript whitespace set (including NBSP, the Unicode space separators, LS, PS and BOM), as `String.prototype.trim` does.
- **`__proto__`.** An info label normalising to `__proto__` is assigned through the prototype setter, which ignores a string value, so it never becomes a key.

## Model

| member | source | states |
|---|---|---|
| Text.Trim | server/index.js:43-45 | the result is the text with its maximal leading and trailing runs of ECMAScript whitespace cut off: a contiguous slice, all-space before and after it, and neither end of the result is whitespace |
| Text.TrimOfTrimmed | server/index.js:185-186 | a text with no whitespace at either end trims to itself |
| Text.TrimDropsLeadingSpace | server/index.js:186 | one leading space in front of an otherwise trimmed text is all that trimming removes |
| Text.TrimIdempotent | server/index.js:185-186 | trimming twice is trimming once (the info pieces are trimmed after the paragraph was) |
| Text.TrimEmptyIffAllSpace | server/index.js:136-138 | the trimmed text is empty exactly when the text is all whitespace, the case where a `\|\|` fallback fires |
| Text.IndexOfFromIsFirst | server/index.js:48 | the occurrence a scan from `from` reports is the first at or after `from`, and a scan that reports none has none to find |
| Text.IndexOfFirst | server/index.js:48 | the substring search `split` uses reports the first occurrence, and reports none only when the pattern occurs nowhere |
| Text.IndexOfIsFirst | server/index.js:48 | any occurrence with none before it is the one the search behind `split` reports |
| Text.NoOccurrenceBeforeFirst | server/index.js:48 | the text before the first occurrence contains no occurrence |
| Text.SplitOn | server/index.js:48 | `split` with a non-empty separator always yields at least one piece |
| Text.SplitJoin | server/index.js:48 | joining the pieces of `split` with the separator gives back the original text |
| Text.SplitPiecesFree | server/index.js:186 | no piece of `split` contains the separator |
| Text.SplitWithoutSeparator | server/index.js:186 | a text without the separator splits into itself alone |
| Text.SplitAtFirst | server/index.js:48 | the first piece ends at the first occurrence and the rest are the pieces of the text after it |
| Text.SplitBetweenTwo | server/index.js:48 | with occurrences at `i` and next at `j`, piece 1 is exactly the text strictly between them |
| Text.SplitAfterLast | server/index.js:48 | with a single occurrence, there are exactly two pieces: the text before it and everything after it |
| Text.CharIndex | server/index.js:48 | the index returned holds the character and no earlier index does |
| Text.RemoveFirst | server/index.js:48 | `replace('/', '')` leaves a slash-free text alone and otherwise removes one character, the first `/`: re-inserting `/` at that position restores the text, and no `/` precedes it |
| Text.RemoveFirstAt | server/index.js:48 | removing the first `c` from `p + c + q`, with no `c` in `p`, gives `p + q`, with every later `c` of `q` kept |
| Text.RemoveFirstTrailing | server/index.js:48 | a slash-free text followed by one `/` loses exactly that `/` |
| Text.KeyChar | server/index.js:188 | a space becomes `_`, an ASCII capital becomes its lower-case letter (code point plus 32), any other character is kept; so a key character is never a space and never an ASCII capital |
| Text.NormalizeKey | server/index.js:188 | the key has the label's length, every space became `_`, every ASCII capital became its lower-case letter, every other character is kept in place, so no space or capital remains |
| Text.NormalizeKeyIdempotent | server/index.js:188 | normalising a key again changes nothing |
| Slug.SlugOf | server/index.js:48 | a missing or empty href gives `''`; an href without the marker gives `undefined`; a non-empty slug only comes from an href containing the marker |
| Slug.SlugBetweenMarkers | server/index.js:87 | with the marker first at `i` and next at `j`, the slug is the text between them less its first `/` |
| Slug.SlugAfterMarker | server/index.js:133 | with the marker occurring once, the slug is everything after it less its first `/` |
| Slug.NoMarkerAfterScheme | server/index.js:8 | in `https://host` with a slash-free host no segment marker can start |
| Slug.BaseUrlHasNoMarker | server/index.js:8 | neither `/anime/` nor `/episode/` can start inside `https://otakudesu.cloud` |
| Slug.OnlyMarkerAt | server/index.js:48 | in a site link `base + marker + slug + tail` the marker occurs right after the base and nowhere else |
| Slug.SlugOfSiteLink | server/index.js:48 | a link `base + marker + slug` with a slash-free slug, with or without a trailing `/`, gives back exactly that slug |
| Slug.AnimeLinkRoundTrip | server/index.js:173 | the slug of the detail-page URL `https://otakudesu.cloud/anime/<slug>` (with or without trailing `/`) is `<slug>` |
| Slug.EpisodeLinkRoundTrip | server/index.js:228 | the slug of the watch-page URL `https://otakudesu.cloud/episode/<slug>` (with or without trailing `/`) is `<slug>` |
| Slug.SlugDropsOnlyFirstSlash | server/index.js:196 | when the text after the single marker is `p/q` with `p` slash-free the slug is `p + q`: only the first `/` goes, later ones stay |
| Page.Keep | server/index.js:41-62 | the per-item `try` loop yields at most one result per item |
| Page.KeepSelects | server/index.js:41-62 | the results are exactly the accepted items' results, as an order-preserving subsequence: ascending indices pick every accepted item and nothing else |
| Page.KeepSources | server/index.js:41-62 | every result comes from some item, and every accepted item's result is present |
| Page.KeepAppend | server/index.js:41-62 | the results of two stretches of items are the results of each, concatenated |
| Page.KeepSkips | server/index.js:59-61 | an item the body rejects or throws on leaves its neighbours' results exactly as without it |
| Page.KeepEmits | server/index.js:50-58 | an item the body accepts contributes its own result in its own place |
| Page.KeepAll | server/index.js:41-62 | when every item is accepted there are as many results as items |
| Page.ReadAll | server/index.js:242-248 | the loop with no `try` succeeds exactly when every node reads, then yields all their fields in order; otherwise it fails with the message of the first node that throws |
| Listing.ListingStep | server/index.js:42-58 | an item is emitted exactly when it reads, its trimmed title is non-empty and its slug is non-empty; the entry's title is that trimmed title and its slug is the `/anime/` slug of the link, and it carries the trimmed episode and date texts and the thumbnail unchanged |
| Listing.ExtractListing | server/index.js:80-101 | no more entries than items, and every entry has a non-empty title and slug |
| Listing.ListingIsSubsequence | server/index.js:41-62 | the entries are the order-preserving subsequence of accepted items |
| Listing.ListingFaultIsolation | server/index.js:59-61 | a throwing item is skipped and the entries before and after it are those of the page without it |
| Listing.ListingDropsIncomplete | server/index.js:50 | an item with an empty title or slug is dropped, never emitted as a partial entry |
| Listing.ListingLosesOnlyTheBrokenItem | server/index.js:98-100 | one throwing item among otherwise complete items costs exactly one entry |
| Listing.ListingLinkRoundTrip | server/index.js:47-48 | an item linking to the site's detail page of `slug` is emitted with exactly that slug |
| Search.Badge | server/index.js:136-147 | a badge is the trimmed `.set` text at its position when that element exists and is not blank, and the fallback otherwise; it is never empty when the fallback is not |
| Search.SearchStep | server/index.js:129-149 | a result is emitted exactly when it reads and has a title and a slug; the title is the trimmed link text and the slug the `/anime/` slug of the link; `type` and `status` default to `Unknown` and `rating` to `N/A`, element by element |
| Search.ExtractSearch | server/index.js:128-153 | every entry has a non-empty title, slug, type, status and rating |
| Search.SearchIsSubsequence | server/index.js:128-153 | the entries are the order-preserving subsequence of accepted results |
| Search.SearchFaultIsolation | server/index.js:150-152 | a throwing result is skipped and its neighbours are extracted as if it were absent |
| Detail.InfoEntry | server/index.js:187-188 | a label and a value give an entry exactly when both are non-empty, keyed by the normalised label |
| Detail.InfoPair | server/index.js:185-188 | an entry's key is non-empty and normalised, and its value is non-empty |
| Detail.InfoPairWithoutColon | server/index.js:186-187 | a paragraph without `:` adds nothing |
| Detail.InfoPairBetweenColons | server/index.js:186 | with two or more colons the value is the trimmed text between the first and the second |
| Detail.InfoPairOneColon | server/index.js:186 | with one colon the label is the trimmed text before it and the value the trimmed text after it |
| Detail.InfoPairLabelled | server/index.js:185-188 | `Label: value` gives the key `normalise(Label)` and the value `value` |
| Detail.InfoPairCutAtSecondColon | server/index.js:186 | `Label: value:more` keeps only `value`, so `A: 12:00` gives `12` |
| Detail.InfoPairs | server/index.js:184-186 | one entry per paragraph, in document order |
| Detail.Assign | server/index.js:188 | assignment never creates the `__proto__` key |
| Detail.AssignKeys | server/index.js:188 | a key is assigned exactly when some entry carries it, `__proto__` excepted |
| Detail.AssignLastWins | server/index.js:188 | the last entry carrying a key sets its value |
| Detail.AssignValuesFrom | server/index.js:188 | every assigned value is the value of some entry with that key |
| Detail.AssignedPairsWellFormed | server/index.js:187-188 | every assigned key is non-empty and normalised, and its value non-empty |
| Detail.InfoMap | server/index.js:184-190 | every key of the info map is non-empty, normalised and not `__proto__`, and every value non-empty |
| Detail.InfoMapKeys | server/index.js:184-190 | a key is in the info map exactly when some paragraph yields it |
| Detail.InfoMapLastWins | server/index.js:184-190 | a later paragraph with the same key overwrites an earlier one |
| Detail.EpisodeStep | server/index.js:194-204 | an episode item is kept exactly when its trimmed title and its `/episode/` slug are non-empty, and the entry holds exactly that title and that slug |
| Detail.EpisodeList | server/index.js:193-204 | every episode has a non-empty title and slug |
| Detail.EpisodeLinkRoundTrip | server/index.js:195-196 | an episode link to the site's watch page of `slug` yields that slug and the link's trimmed title |
| Detail.FixedFields | server/index.js:207-209 | the fixed properties hold the title and synopsis, and the thumbnail exactly when it is defined |
| Detail.MergeDetail | server/index.js:207-212 | every info key except `episodes` keeps its info value; a fixed property survives only when no info key shadows it; `episodes` is always the episode list; no other key appears |
| Detail.ExtractDetail | server/index.js:179-212 | extraction succeeds exactly when every info paragraph and episode item reads; a failure carries the first throwing paragraph's message, or if none the first throwing episode item's; an empty title is not a failure |
| Detail.DetailEpisodesInOrder | server/index.js:193-204 | the record's episodes are the order-preserving subsequence of accepted episode items |
| Detail.DetailTitleFromHeading | server/index.js:179 | on a page that reads cleanly and has no paragraph labelled `title`, extraction succeeds and the title is the trimmed heading, even an empty one |
| Detail.DetailSynopsisAndPoster | server/index.js:180-181 | on a page that reads cleanly and has no paragraph whose key is `synopsis` or `thumbnail`, the record's synopsis is the trimmed synopsis text and its thumbnail is present exactly when the poster has a `src`, holding that `src` |
| Detail.DetailInfoOverridesFixed | server/index.js:207-211 | on a page that reads cleanly, the last paragraph yielding a key other than `episodes` sets that key of the record, overriding a fixed property of the same name |
| Stream.DownloadStep | server/index.js:243-247 | a row is kept exactly when its trimmed quality and its link are non-empty; quality trimmed, link verbatim |
| Stream.DownloadLinks | server/index.js:241-248 | every download link has a quality and a URL |
| Stream.ExtractStream | server/index.js:234-255 | a missing or empty player URL fails with `Stream URL not found`; otherwise success exactly when every row reads, the failure being the first throwing row; a record's `streamUrl` is the player URL, its title the trimmed heading, its `episodeSlug` the input |
| Stream.StreamLinksInOrder | server/index.js:241-248 | the download links are the order-preserving subsequence of rows with both a quality and a URL |
| Api.ListingRoute | server/index.js:35-72 | a listing route answers with the extracted entries when the fetch succeeds and with 500 and the fetch's message otherwise |
| Api.TopAiring | server/index.js:35-72 | the top-airing route fetches the ongoing listing and reports failures as `Failed to fetch top airing anime` |
| Api.RecentAnime | server/index.js:74-111 | the recent-anime route fetches the complete listing and reports failures as `Failed to fetch recent anime` |
| Api.SearchAnime | server/index.js:113-167 | an empty or missing query is answered 400 `Search query is required` whatever the fetch would give; otherwise the reply follows the fetch of the encoded query's results page, a failure echoing the raw query |
| Api.AnimeDetails | server/index.js:170-223 | the detail route answers with the extracted record exactly when the fetch and the extraction succeed, and otherwise with 500, the slug echoed and, as details, the message of the fetch's error or else of the extraction's |
| Api.EpisodeStreamRoute | server/index.js:225-267 | the stream route answers with the extracted record exactly when the fetch and the extraction succeed (its URL non-empty, its slug the requested one), and otherwise with 500, the episode slug echoed and, as details, the message of the fetch's error or else of the extraction's (`Stream URL not found` when the player is missing) |
| Api.ListedSeriesFetchesItsPage | server/index.js:47-48 | the slug a listing emits for a link to a detail page makes the detail route fetch that same page |
| Api.ListedEpisodeStreamsItsPage | server/index.js:195-196 | the slug the episode list emits for a link to a watch page makes the stream route fetch that same page |

## Left out

- HTTP fetching (`scrapeData`, axios, its headers and its 10-second timeout, server/index.js:14-32): network I/O. Each route takes the fetch as a function parameter that yields the page or an error message.
- Cheerio parsing and CSS selector evaluation: a foreign library. Each page is given as the sequences of matched nodes and the optional texts and attributes read from them.
- Express wiring, CORS, static file serving and the catch-all route (server/index.js:7-11, 269-280): transport plumbing. The routes' status and error bodies are modelled as the `Reply` datatype, without JSON serialisation or key order.
- Logging, and the `timestamp` of the search error body (server/index.js:165): side effects and a clock read.
- Api.SearchAnime: `encodeURIComponent` is a parameter, not a model, because its UTF-8 percent-encoding (and its error on lone surrogates) is outside the engine. An array-valued `q` (a repeated query parameter) is not modelled; `q` is a string or absent.
- Detail.AnimeDetail: a `thumbnail` of `undefined` is an absent key, as the serialised JSON has it. Non-string values and key order are not modelled.
- `toLowerCase` is modelled on ASCII letters only: Unicode case mapping is left out.
- Strings are sequences of Unicode scalar values rather than UTF-16 code units. This matters only for text holding lone surrogates.
- The React front-end, its pages, components and styles, `src/services/api.js` and the `/api/proxy` server: presentation and thin wrappers outside the engine.
