# Visual product search: search pipeline and page image extractor

This project is a Dafny model of the two server actions that hold the decision logic of a
product-search web app.

- **`searchProduct`** (`app/actions/search.ts`) takes a photo or an image URL and returns a ranked
  list of matching listings. In upload mode it first prepares the inline photo: it strips any
  data-URL prefix up to `base64,`, names the object `<Date.now()>-<random base-36>.jpg`, uploads it
  to the `product-images` bucket and takes its public URL. It then queries the visual-search
  provider (engine `google_lens`, country `in`, currency `INR`). If the provider answers, it removes
  the uploaded object, using the key recovered as the last `/`-segment of the public URL. Finally it
  keeps the matches that carry a `price` object and scores each as `10000 / (price || 1)`, plus 20
  when the lower-cased source names one of five stores. The list is sorted by score, highest first.
- **`extractImageFromUrl`** (`app/actions/scrape.ts`) takes a fetched product page and returns the
  `content` of the first of four meta/link selectors that yields a non-empty value. Failing that it
  returns the first `<img src>` containing `product`, `media` or `assets`. Otherwise, and on any
  fetch failure, it returns null.

Files and modules:

- `wrappers.dfy` (`Wrappers`): `Option` for `undefined`, `Result` for a thrown error.
- `text.dfy` (`Text`): first-occurrence search (`includes`, `split`), ASCII lower-casing, and
  `split(sep).pop()`.
- `upload.dfy` (`Upload`): payload strip, object name, cleanup key.
- `ranking.dfy` (`Ranking`): filter, map, score and a stable descending sort, all as functions,
  with lemmas.
- `search.dfy` (`Search`): the bucket, written as a class whose `objects` map the upload and
  remove methods update. `SearchProduct` is a method over it that returns the outcome and the
  ordered list of external calls it made (upload, provider query, remove).
- `scrape.dfy` (`Scrape`): the page as a list of parsed elements, and the extractor as recursive
  first-match functions.

The environment is passed in as parameters:

- the API key;
- `Date.now()` and the random name part;
- whether storage refuses an upload or a removal;
- the provider's reply (a failure, or a body whose `visual_matches` may be absent);
- the page-fetch outcome (a thrown error, or a response with its `ok` flag and parsed page).

Scores are Dafny `real`s.

The code keeps every record that has a price object, whatever its currency or amount, and
scores it `10000 / (price || 1)`, plus 20 for a listed store, without clamping. The ranked
entries carry no verification flag, and the sort key is always the score. The page extractor
returns the attribute value as written: it neither resolves relative URLs nor looks at image
sizes. When the provider call fails, the uploaded image is not removed.

`Ranking.ExampleMixedListings` shows what this means for a mixed input. An Amazon listing in INR,
a USD listing and a zero-priced listing are all kept. The zero-priced one ranks first (score
10000), then Amazon (40), then the USD listing (10000/300).

## Model

| member | source | states |
|---|---|---|
| `Text.IndexOf` | app/actions/search.ts:30 | The returned index is an occurrence of the pattern and no occurrence starts earlier. `None` means the pattern occurs nowhere. This is the search under `includes` and `split`. |
| `Text.ToLower` | app/actions/search.ts:76 | The model's ASCII lower-casing works character by character: position `i` of the result is `LowerChar` of position `i` of the input. |
| `Text.ToLowerAppend` | app/actions/search.ts:76 | Lower-casing a concatenation lower-cases each part. |
| `Text.LowerChar` | app/actions/search.ts:76 | No ASCII capital survives lower-casing. A character changes only if it is a capital, and then it becomes the letter 32 code points above it. |
| `Text.ToLowerIdempotent` | app/actions/search.ts:76 | Lower-casing twice equals lower-casing once. |
| `Text.LastSegment` | app/actions/search.ts:61 | `split('/').pop()` holds no `/` and is a suffix of the URL. It is either the whole URL (when the URL has no `/`) or is preceded by a `/`. |
| `Text.LastSegmentOfJoin` | app/actions/search.ts:61 | The last segment of `base + "/" + key` is `key` if and only if `key` contains no `/` (both directions). |
| `Upload.FirstPiece` | app/actions/search.ts:30 | A piece produced by `split('base64,')` holds no marker and is a prefix of its input. When it is shorter than the input, a marker follows it. |
| `Upload.Payload` | app/actions/search.ts:30 | The stripped payload never contains `base64,`. Input without the marker is returned unchanged. |
| `Upload.PayloadOfDataUrl` | app/actions/search.ts:30 | For marker-free `p` and `x`, the payload of `p + "base64," + x` is exactly `x` (the round trip with a data-URL builder). |
| `Upload.PayloadStopsAtSecondMarker` | app/actions/search.ts:30 | For marker-free `p` and `x`, the payload of `p + "base64," + x + "base64," + y` is `x`: `[1]` keeps only the text up to the next marker. |
| `Upload.PayloadDecomposition` | app/actions/search.ts:30 | Any input holding the marker equals its marker-free first piece, the marker, the payload and a tail. The tail is empty or starts with the marker. |
| `Upload.FirstMarkerAfter` | app/actions/search.ts:30 | When `p` is marker-free, the first marker of `p + "base64," + x` is at index `|p|`. Occurrences of the marker cannot overlap. |
| `Upload.Decimal` | app/actions/search.ts:29 | The rendered timestamp is a non-empty string of decimal digits. |
| `Upload.DecimalRoundTrip` | app/actions/search.ts:29 | Reading the rendered timestamp back gives the timestamp. |
| `Upload.FileName` | app/actions/search.ts:29 | The generated object name has no `/` and ends in `.jpg`. It holds only digits, lower-case letters, `-` and `.`. |
| `Upload.FileNameInjective` | app/actions/search.ts:29 | Equal names come only from equal timestamps and equal random suffixes. |
| `Upload.CleanupKey` | app/actions/search.ts:61 | The cleanup key holds no `/` and is a suffix of the public URL. When it is shorter than the URL, a `/` comes right before it, so it is the text after the last `/`. |
| `Upload.CleanupKeyRecoversFileName` | app/actions/search.ts:39-63 | The key recovered from `base + "/" + FileName(...)` is the uploaded name itself. |
| `Search.Bucket.PublicUrl` | app/actions/search.ts:39-43 | The model's public URL is `publicBase + "/" + key`. For a key without `/`, the cleanup key recovered from it is that key. |
| `Search.Bucket.Upload` | app/actions/search.ts:33-37 | An upload that is not refused stores the body under the key and replaces any object already there (`upsert: true`). A refused upload reports failure and changes nothing. |
| `Search.Bucket.Remove` | app/actions/search.ts:63 | Deletes the key when the removal is not refused. Otherwise the bucket is unchanged and nothing is reported. |
| `Search.UploadThenRemoveRestores` | app/actions/search.ts:33-63 | Uploading a fresh key and then removing it restores the original objects. |
| `Search.UnsetOrEmptyKeyRejected` | app/actions/search.ts:18 | `Configured` is false for an unset key and for the empty key, and true for every other key. |
| `Search.QueryFor` | app/actions/search.ts:47-53 | The provider query carries the image URL and the API key unchanged. The engine is always `google_lens`, the country `in` and the currency `INR`. |
| `Search.SearchProduct` | app/actions/search.ts:17-106 | A missing or empty key fails with `SERPAPI_API_KEY is not configured` before any call. URL mode makes only one call, a provider query with the input verbatim, and leaves the bucket alone. In upload mode the calls are exactly upload(name), then query(public URL of name), then remove(name). A refused upload stops after the upload with no query. A provider failure stops after the query, with no removal, and leaves the object in the bucket. Upload and provider failures surface as `Failed to search for product`. If the name was fresh and the removal was accepted, the bucket ends as it began. On success the result is `Rank(visual_matches)`. |
| `Ranking.Divisor` | app/actions/search.ts:79 | `price \|\| 1` is never zero and is the price itself when the price is present and non-zero. |
| `Ranking.KeepPriced` | app/actions/search.ts:73 | A record is kept if and only if it is in the input and carries a `price` object. The list never grows. |
| `Ranking.KeepPricedCounts` | app/actions/search.ts:73 | A priced record is kept exactly as many times as it occurs in the input. A record without a price is kept zero times. |
| `Ranking.KeepPricedAppend` | app/actions/search.ts:73 | Filtering a concatenation gives the concatenation of the filtered parts, so the kept records stay in provider order. |
| `Ranking.MapToProducts` | app/actions/search.ts:74-97 | The map keeps the length, and position `i` is the product made from record `i`. |
| `Ranking.MapToProductsAppend` | app/actions/search.ts:74-97 | Mapping a concatenation gives the concatenation of the mapped parts. |
| `Ranking.CleanAppend` | app/actions/search.ts:72-97 | `cleanResults` (the function `Clean`) follows the provider's order. The cleaned list of a concatenation is the concatenation of the cleaned parts. One record gives its product if it has a price, and nothing otherwise. |
| `Ranking.Score` | app/actions/search.ts:79-84 | For any price of at least 1, the score is above 0 and at most 10020. |
| `Ranking.StoreNamedAnywhere` | app/actions/search.ts:76-82 | `FromVerifiedStore` holds for any source that contains a store name in lower case, whatever surrounds it. A missing source (`''`) never earns the bonus. |
| `Ranking.ToProductCopies` | app/actions/search.ts:86-96 | Title, thumbnail, source, link, amount and currency are copied unchanged. The score is `Score` of the record. |
| `Ranking.ScoreWithoutPrice` | app/actions/search.ts:79 | A missing or zero price scores `10000`, plus the store bonus, so the score is not clamped to a percentage. |
| `Ranking.ScoreStoreBonus` | app/actions/search.ts:79-84 | At equal price, a listed store scores exactly 20 more. |
| `Ranking.ScoreLowerPriceHigher` | app/actions/search.ts:79-84 | At equal store status, a lower positive price scores strictly higher. |
| `Ranking.StoreTestIgnoresCase` | app/actions/search.ts:76-82 | The store test gives the same answer for a source and for its lower-cased form. |
| `Ranking.InsertPermutes` | app/actions/search.ts:100 | Inserting one listing into a list (the step of `SortByScore`) gives a permutation of that listing plus the list. |
| `Ranking.InsertSorted` | app/actions/search.ts:100 | Inserting into a list in score order keeps it in score order. |
| `Ranking.InsertStable` | app/actions/search.ts:100 | An insertion puts the new listing before every listing of equal score: for every score value, the order of those listings is the order of `[x] + ys`. |
| `Ranking.SortPermutes` | app/actions/search.ts:100 | The sorted list is a permutation of its input (equal multisets). |
| `Ranking.SortSorted` | app/actions/search.ts:100 | The sorted list is ordered by non-increasing score. |
| `Ranking.SortStable` | app/actions/search.ts:100 | For every score value, the listings with that score appear in input order, as the ES2019 stable sort guarantees. |
| `Ranking.SortKeepsSorted` | app/actions/search.ts:100 | A list already in score order comes out unchanged. |
| `Ranking.SortIdempotent` | app/actions/search.ts:100 | Sorting twice equals sorting once. |
| `Ranking.RankAbsent` | app/actions/search.ts:68 | A missing `visual_matches` gives the empty list. |
| `Ranking.RankSpec` | app/actions/search.ts:68-100 | `Rank` returns a permutation of the mapped priced records, ordered by non-increasing score, with ties in input order. Together with `CleanAppend`, that input order is the provider's order. |
| `Ranking.RankMembers` | app/actions/search.ts:72-97 | Every priced record, whatever its currency or amount, appears in the output. Every output entry comes from a priced record of the input. |
| `Ranking.ExampleMixedListings` | app/actions/search.ts:72-100 | For INR Amazon at 500, USD at 300 and a zero-priced listing, the scores are 40, 10000/300 and 10000. The output order is zero-priced, Amazon, USD. |
| `Scrape.SelectorContentFound` | app/actions/scrape.ts:28 | A selector's `content` value is the `content` attribute of an element that selector picks. |
| `Scrape.SelectorContentFirst` | app/actions/scrape.ts:28 | `SelectorContent` yields nothing when the selector picks no element. Otherwise it yields the `content` attribute of the FIRST element the selector picks, and no later one. |
| `Scrape.FirstSelectedOnly` | app/actions/scrape.ts:28 | If the first element a selector picks has no `content`, the selector yields nothing, even when a later matching element has one. |
| `Scrape.FirstHit` | app/actions/scrape.ts:27-30 | There is no hit if and only if no selector yields non-empty `content`. Selector `k` decides the result when all earlier selectors yield nothing. Any hit is some selector's non-empty `content`. |
| `Scrape.ImageSources` | app/actions/scrape.ts:33 | Every collected source is the `src` of an `<img>` of the page, and every `<img>` with a `src` has it collected. |
| `Scrape.ImageSourcesAppend` | app/actions/scrape.ts:33 | Sources are collected in document order: the sources of a concatenated page are the concatenated sources of its parts. |
| `Scrape.FindHinted` | app/actions/scrape.ts:34-38 | The result is the first source in document order that contains `product`, `media` or `assets`. It is `None` if and only if no source does. |
| `Scrape.ExtractImageFromUrl` | app/actions/scrape.ts:5-45 | A thrown fetch or a non-OK response gives null. Otherwise the result is the document extraction, so no error escapes. |
| `Scrape.ExtractPriority` | app/actions/scrape.ts:20-30 | Selector `k` (og:image, then twitter:image, then og:image:secure_url, then link image_src) gives the result when it yields non-empty `content` and every earlier one does not. |
| `Scrape.ExtractFirstHintedImage` | app/actions/scrape.ts:32-40 | `ExtractFromDocument`, when no selector hits, returns the `src` of the first `<img>` in document order whose `src` contains `product`, `media` or `assets`. |
| `Scrape.HintNonEmpty` | app/actions/scrape.ts:34-40 | A source with a hint word is never empty, so `productImg \|\| null` returns every source that `find` picks. |
| `Scrape.ExtractFallback` | app/actions/scrape.ts:32-40 | The `<img>` fallback decides the result exactly when no selector hits. |
| `Scrape.ExtractNull` | app/actions/scrape.ts:40 | The result is null if and only if no selector hits and no image source carries a hint word. |
| `Scrape.ExtractVerbatim` | app/actions/scrape.ts:27-40 | A non-null result is non-empty and verbatim. It is either the `content` of an element a selector picks or the hinted `src` of an `<img>`. It is never resolved or size-filtered. |
| `Scrape.ExtractIgnoresAttr` | app/actions/scrape.ts:20-38 | Removing any attribute other than `property`, `name`, `rel`, `content` and `src` leaves the result unchanged. In particular a link's `href` is never read. |
| `Scrape.ExampleOpenGraphFirst` | app/actions/scrape.ts:20-30 | With both a Twitter-card image and an Open Graph image on the page, the Open Graph URL is returned, even when it comes later in the document. |

## Left out

- Network and storage I/O are inputs, not calls. This covers the provider `fetch` with its query
  string, Supabase `upload`/`remove`, and the page `fetch` with its user-agent header
  and one-hour cache. A storage object's content is its payload text.
- `Search.Bucket.PublicUrl`: Supabase's `getPublicUrl` is modelled as the bucket's public base
  address followed by `/` and the key. The `encodeURI` step that Supabase applies to that path is
  dropped. That step changes nothing for the names `Upload.FileName` generates, which hold only
  digits, lower-case letters, `-` and `.`, but it would change a key such as `a b.jpg`.
- Base64 decoding (`Buffer.from(..., 'base64')`) is not modelled: the bucket stores the stripped
  payload text in place of the decoded bytes.
- HTML parsing is not modelled. The page is a list of elements in document order, with tag and
  attribute names already lower-cased as the parser leaves them. Selector values are compared
  exactly, so the HTML rule that matches `rel` values without regard to case is not modelled.
- `Text.ToLower`: lower-cases ASCII letters only and keeps the length. The source's `toLowerCase`
  also maps non-ASCII letters, a few of which (such as the Kelvin sign) become ASCII letters, and
  some of which change the length (`'İ'` becomes two UTF-16 code units).
- Scores are real numbers rather than IEEE doubles: rounding, NaN and Infinity are not modelled.
- Provider bodies are assumed well-formed. The model does not cover a `visual_matches` that is not
  an array, a `null` entry, or an `extracted_value` that is not a number. The source would throw on
  the first two inside its `try` and report `Failed to search for product`.
- `Search.SearchProduct`: a failure of `createClient()` is not modelled. The source reports it
  as `Failed to search for product`.
- `Search.SearchProduct`: `console.error` logging is left out.
- The UI pages and components, the daily-deals cron job, the text-generation action and the Next.js
  configuration are not part of this model.
