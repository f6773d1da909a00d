# AnteaterFind, modelled in Dafny

AnteaterFind is a small search engine over crawled web pages. The indexer
gives every page URL a dense numeric id. It builds sorted partial inverted
indexes batch by batch, then k-way merges them into one index file. For
each token, the binary indexer records the position of the token's record
in its merged file and pickles those positions to a separate file. The
query side keeps an LRU cache of postings lists. To look a term up it seeks
to the term's stored position and cuts the postings array out of the text
by counting brackets. It intersects the document sets of the query terms
(strictly or leniently), ranks or lists the matches, and returns the first
page of them. A React page holds the search state: query, results, loading
flag and expanded result cards.

This project models the discrete logic of all of that as pure functions
over immutable values, and proves what each operation guarantees:

- `LruCache`: the recency-ordered cache with capacity.
- `PostingsScanner`: reading a postings span at an offset.
- `IndexWriter`: the `{"token":[…],…}` framing and each token's recorded
  offset. It proves that scanning at a recorded offset returns exactly the
  postings text written there.
- `StringOrder`, `Decimal`, `IdAllocator`: token order, decimal ids and
  first-seen id allocation, plus the saved id-to-URL mapping.
- `PartialIndex`: grouping a batch into per-token postings and writing the
  tokens in ascending order.
- `KWayMerge`: the heap-driven merge. It proves the merged tokens are
  strictly ascending, each appears once, and each carries the multiset
  union of its postings.
- `MergedIndex`: the merge and the writer combined.
- `Posting`, `LegacyPosting`: the two posting classes and their
  dictionary forms.
- `BatchReader`: the de-duplicating batch reader.
- `IndexReader`: the cached, offset-based postings lookup.
- `BooleanSearch`: the strict and lenient AND retrieval.
- `SearchResults`: result shaping and truncation to the first `limit` results.
- `Summarizer`: `truncate_text`.
- `SearchState`: the front end's state transitions.

Files are modelled by their contents: a text file is a `string` and a
position is an index into it. A file of pickled records is a sequence of
records, and a position is a record number. `json.loads` of a postings span
is an abstract partial function `parse`, and `json.dump` of a postings list
is an abstract `serialize`. Scores are abstract ordered keys.

Neither `App.jsx` nor `App.js` paginates, fetches summaries, or tags a
request with its query. The model follows the code:

- Every completion of a fetch overwrites the results.
- Every completion clears the loading flag.
- A failure keeps the previous results.

`SearchState.StaleResponseWins` shows the consequence. Two searches whose
responses arrive in the opposite order leave the older query's results on
the page, under the newer query's name.

## Model

| member | source | states |
|---|---|---|
| `LruCache.Empty` | Search/indexing/cache.py:8-11 | a new cache is empty, has the given capacity, and is within it when that capacity is non-negative |
| `LruCache.Get` | Search/indexing/cache.py:13-25 | an absent key gives `None` and changes nothing; a present key gives its value, keeps every entry, and moves only that key to the most recent end |
| `LruCache.Store` | Search/indexing/cache.py:33-34 | storing puts the value under the key, keeps every other entry, and makes the key the most recent, so the oldest key is then the one an overflow evicts |
| `LruCache.Evict` | Search/indexing/cache.py:35-37 | popping the oldest entry removes exactly that key, keeps every other value, and keeps the rest of the recency order |
| `LruCache.Put` | Search/indexing/cache.py:27-37 | the key maps to the value and is most recent; every other surviving key keeps its value; exactly the least recent key of the updated order is dropped, and only if the dictionary outgrew the capacity; the recency order is the old one with the key moved to the end, minus its head on eviction |
| `LruCache.VictimIsLeastRecent` | Search/indexing/cache.py:35-37 | the key an overflowing put evicts is the oldest key, unless the oldest is the key being put |
| `LruCache.PutEvictsAtMostOne` | search.py:25-31 | a put removes one key exactly when the grown dictionary exceeds the capacity, and none otherwise |
| `LruCache.PutKeepsBound` | search.py:29-31 | a cache within a non-negative capacity stays within it after any put |
| `LruCache.PutPresentKeepsKeys` | Search/indexing/cache.py:33-35 | re-putting a cached key in a bounded cache changes neither the key set nor the size |
| `LruCache.GetAfterPut` | Search/indexing/cache.py:21-37 | with capacity at least one, a get right after `put(k, v)` returns `v` |
| `PostingsScanner.ColonFrom` | Search/indexing/index_reader.py:67-76 | finds the first ':' at or after the start, and `None` exactly when there is no ':' left |
| `PostingsScanner.ColonFirst` | Search/indexing/index_reader.py:67-76 | when position `j` holds the first ':' at or after the start, the colon search finds exactly `j` |
| `PostingsScanner.Close` | Search/indexing/index_reader.py:84-97 | the bracket loop stops at the first point where the bracket count returns to zero, and fails exactly when the text ends while the count is still positive |
| `PostingsScanner.SpanStart` | Search/indexing/index_reader.py:62-81 | the array starts right after the first ':' from the offset and must be '['; a negative offset, no ':' or another character fails |
| `PostingsScanner.ScanAt` | search.py:101-129 | the result is the balanced span at the '[' after the first ':'; it fails when that '[' is missing or when the text ends before the brackets balance |
| `PostingsScanner.BalancedPrefixUnique` | Search/search.py:95-108 | the span the bracket loop cuts out is the only balanced prefix of the text from the '[' |
| `PostingsScanner.ScanRecord` | Search/indexing/index_reader.py:65-97 | at the start of a record made of a ':'-free token, ':', then a balanced postings text, the scan returns exactly that text, whatever follows |
| `IndexWriter.EncodeToken` | index_manager.py:86 | the serialised token contains no ':' when the token has none |
| `IndexWriter.WriteToken` | InvertedIndex/index_manager.py:106-120 | a ',' comes first unless this is the first record; the offset recorded is after the ','; the text from that offset is the token's record |
| `IndexWriter.WriteAllFraming` | index_manager.py:82-88 | the writer's output equals the reference: the records joined by ',' |
| `IndexWriter.WriteIndexFraming` | index_manager.py:105-133 | the index file is '{', the records joined by ',', then '}' |
| `IndexWriter.WriteAllKeys` | InvertedIndex/index_manager.py:114-116 | the position map gains exactly the written tokens and keeps every other entry |
| `IndexWriter.WriteAllRecords` | InvertedIndex/index_manager.py:111-120 | for distinct tokens, each token's recorded offset is where its record starts in the final output |
| `IndexWriter.WrittenKeys` | InvertedIndex/index_manager.py:114-116 | the saved positions cover exactly the tokens written |
| `IndexWriter.ScanWrittenIndex` | InvertedIndex/index_manager.py:114-120 | scanning the written index at a token's recorded offset returns exactly the postings text written for it, for distinct ':'-free tokens with balanced postings text |
| `IndexWriter.PostingsTextBalanced` | index_manager.py:88 | a serialised postings list whose items hold no brackets is a balanced span, so the scanner cuts out exactly that list |
| `StringOrder.LessTotal` | index_manager.py:44 | Python string order is total on distinct strings |
| `StringOrder.LessTransitive` | index_manager.py:44 | Python string order is transitive |
| `StringOrder.AscendingNoDup` | InvertedIndex/index_manager.py:70 | strictly ascending tokens are distinct |
| `StringOrder.Insert` | index_manager.py:44 | inserting a new token into a strictly ascending list keeps it strictly ascending and adds exactly that token |
| `StringOrder.Sorted` | index_manager.py:44 | `sorted` of distinct tokens is strictly ascending and a permutation of them |
| `Decimal.NatToString` | index_manager.py:25 | `str(id)` is a non-empty run of digits without a leading zero |
| `Decimal.ParseNat` | Search/indexing/index_reader.py:28 | accepts exactly the non-empty ASCII digit strings (a subset of what `int(k)` accepts), giving their decimal value |
| `Decimal.ParseNatToString` | Search/search.py:36 | reading back `str(n)` gives `n` |
| `Decimal.NatToStringInjective` | index_manager.py:25 | different ids have different key texts |
| `IdAllocator.GetId` | index_manager.py:16-21 | a known name keeps its id and changes nothing; a new name gets the counter, which then grows by one; earlier ids are kept |
| `IdAllocator.GetIdNumbers` | index_manager.py:18-21 | one more request extends the first-seen numbering by the name exactly when it is new |
| `IdAllocator.GetIdsFirstSeen` | tests/test_index_manager.py:12-22 | from a fresh manager, any request sequence numbers the distinct names 0, 1, 2, … in first-seen order |
| `IdAllocator.NumbersDense` | InvertedIndex/index_manager.py:17-22 | ids are distinct, below the counter, and every id below the counter is in use |
| `IdAllocator.SaveMapping` | index_manager.py:23-27 | the saved mapping is the exact inverse of the URL map: each URL is under its id's text, and each key is the canonical text of the id of the URL it holds |
| `IdAllocator.KeysDistinct` | InvertedIndex/index_manager.py:31-35 | names with distinct ids get distinct keys, so inverting loses no name |
| `IdAllocator.GetUrlId` | InvertedIndex/index_manager.py:17-22 | allocates from the URL counter and leaves the file counter alone |
| `IdAllocator.GetFileId` | InvertedIndex/index_manager.py:24-29 | allocates from the file counter and leaves the URL counter alone |
| `PartialIndex.Append` | index_manager.py:35 | the token's list grows by the posting; every other token's list is unchanged |
| `PartialIndex.AddDocLookup` | index_manager.py:34-35 | one document adds to a token exactly its `(id, tf)` postings for that token, in its order |
| `PartialIndex.Create` | index_manager.py:29-36 | builds a well-formed index; every URL of the batch gets an id; earlier ids are kept |
| `PartialIndex.CreateOccurrences` | index_manager.py:31-35 | each token's list is exactly one posting `(url id, tf)` per document holding the token, in batch order; a token is a key exactly when some document has it |
| `PartialIndex.Write` | index_manager.py:38-49 | one record per token, tokens strictly ascending, each with its postings list |
| `PartialIndex.WriteWithPositions` | InvertedIndex/index_manager.py:66-79 | the same records, and each token's position points at its own record |
| `PartialIndex.CreateWithFiles` | InvertedIndex/index_manager.py:54-63 | the postings are those of the URL ids alone; file ids are allocated on the side, one request per document |
| `KWayMerge.PopFrom` | index_manager.py:112 | the popped file's head has the least `(token, counter)` key of all non-empty files, and `None` means every file is exhausted |
| `KWayMerge.PopIsLeast` | index_manager.py:111-114 | for sorted files, no remaining token is below the popped one |
| `KWayMerge.StepOrder` | index_manager.py:114-121 | one loop turn keeps the files sorted and the flushed tokens strictly ascending below the current token, with nothing smaller left |
| `KWayMerge.StepBags` | index_manager.py:114-129 | one loop turn keeps each token's postings split between flushed records, the current record and the unread records, with none lost or duplicated |
| `KWayMerge.StepTokens` | index_manager.py:123-129 | one loop turn keeps every token accounted for and consumes one record |
| `KWayMerge.Merge` | index_manager.py:90-133 | merged tokens are strictly ascending; they are exactly the tokens of the partial files, each once; each carries the multiset union of its postings in all files |
| `KWayMerge.MergeWithPositions` | InvertedIndex/index_manager.py:141-176 | the binary merge's records as merged above; every token has a position, and it is the token's own record |
| `KWayMerge.AllExhausted` | InvertedIndex/index_manager.py:163-168 | once every file is exhausted, no token or posting remains unread |
| `MergedIndex.MergeAndWrite` | index_manager.py:90-133 | the merged index file is '{', the merged records joined by ',', then '}'; each token's record scans back to exactly its merged, serialised postings |
| `Posting.Make` | InvertedIndex/posting.py:6-14 | both fields are stored as given, whatever their kind |
| `Posting.LessIsStrictOrder` | InvertedIndex/posting.py:16-24 | where Python's `<` on the ids is defined (numbers with numbers, strings with strings), it is irreflexive, transitive and asymmetric; it ignores `tf` |
| `JsonValue.Lt` | InvertedIndex/posting.py:24 | Python's `<`: defined exactly on two numbers (by value) or two strings (by code points); any other pair raises `TypeError` |
| `JsonValue.Mul` | posting.py:18 | Python's `*`: integers give an integer, a float operand gives a float, a string times an integer repeats it; raises `TypeError` exactly for any other pair |
| `JsonValue.TimesZero` | posting.py:49 | `x * 0` fails only for `None` and otherwise gives the zero of `x`'s kind |
| `Posting.ToDict` | InvertedIndex/posting.py:33-42 | the dictionary has exactly `doc_id` and `tf`, holding the fields |
| `Posting.FromDict` | InvertedIndex/posting.py:44-53 | succeeds exactly when both `doc_id` and `tf` are keys, and keeps both values as they are |
| `Posting.FromToDict` | InvertedIndex/posting.py:39-53 | `from_dict(to_dict(p))` is `p` |
| `Posting.ToFromDict` | InvertedIndex/posting.py:39-53 | `to_dict(from_dict(d))` is `d` for any dictionary with exactly those two keys |
| `LegacyPosting.Make` | posting.py:6-18 | without an idf neither idf nor tf-idf is set; with one, the tf-idf is Python's `tf * idf`, and construction fails exactly when that product raises `TypeError` |
| `LegacyPosting.Describe` | posting.py:20-25 | printing needs a numeric tf-idf, so it fails exactly for postings built without an idf or whose tf-idf is not a number |
| `LegacyPosting.ToDict` | posting.py:27-38 | the dictionary has only `doc_name` and `tf`; idf and tf-idf are dropped |
| `LegacyPosting.FromDict` | posting.py:40-51 | succeeds exactly when both keys are present and `tf` is not `None`; keeps name and frequency, sets the idf to the integer 0 and the tf-idf to `tf * 0` |
| `LegacyPosting.FromToDict` | posting.py:33-49 | a dictionary round trip of a posting whose `tf` is not `None` succeeds, keeps name and frequency and replaces the idf by 0 |
| `LegacyPosting.DescribeNeedsIdf` | posting.py:16-25 | a posting the root indexer builds (integer id, float tf, no idf) cannot be printed; after a dictionary round trip it prints with score 0 |
| `BatchReader.Fresh` | InvertedIndex/file.py:38-41 | the reference: the pages whose URL is neither already seen nor on an earlier page, URLs distinct |
| `BatchReader.Take` | InvertedIndex/file.py:32-37 | the limit keeps a prefix of at most `count` pages (none for `count <= 0`), and everything without a count |
| `BatchReader.ReadZip` | InvertedIndex/file.py:18-44 | returns exactly the first `count` fresh pages of the stream, in file then record order, and adds exactly their URLs to the seen set |
| `BatchReader.ReadStops` | InvertedIndex/file.py:32-37 | once `count` pages are found, the unread rest of the stream changes nothing |
| `BatchReader.FreshExtends` | InvertedIndex/file.py:31-42 | reading further only appends pages |
| `BatchReader.FreshKeepsFirst` | InvertedIndex/file.py:38-40 | within one call, the page kept for a URL is its first record |
| `BatchReader.BatchesDisjoint` | InvertedIndex/file.py:38-40 | a second call returns no URL the first returned or that was seen before |
| `Summarizer.TruncateText` | Search/summarizer.py:3-8 | text within `4 * max_tokens` characters is unchanged; longer text is its first `4 * max_tokens` characters plus "...", so at most 3 characters longer than the budget, and always starts with the kept characters |
| `Summarizer.TruncateIdempotent` | Search/summarizer.py:5-8 | truncating twice with the same non-negative budget is truncating once |
| `Summarizer.TruncateNegativeBudget` | Search/summarizer.py:5-7 | with a negative budget a second truncation cuts again, so idempotence needs a non-negative budget |
| `IndexReader.LoadUrls` | Search/indexing/index_reader.py:25-28 | loading succeeds exactly when every key reads as an id; every read id is a key, and every key comes from some member |
| `IndexReader.LoadUrlsDistinct` | Search/search.py:33-36 | with keys reading as distinct ids, each member's URL is found under its id |
| `IndexReader.Open` | Search/indexing/index_reader.py:8-40 | the reader starts with an empty cache of the given size, the loaded URL map, and no positions when the positions file is missing; it fails when a key is not an integer |
| `IndexReader.FromText` | Search/indexing/index_reader.py:58-110 | no stored position means nothing is read; otherwise the parse of the span scanned at the stored position |
| `IndexReader.Lookup` | Search/indexing/index_reader.py:42-114 | a cached list is returned and promoted; otherwise the list read from the text is returned and cached; any failure gives `[]` and leaves the reader unchanged |
| `IndexReader.LookupCoherent` | Search/search.py:52-124 | over a fixed index text, a lookup returns what the text holds for the term (`[]` if nothing), and the cache stays coherent, whatever its history |
| `IndexReader.OpenCoherent` | Search/indexing/index_reader.py:22 | a freshly opened reader's cache is coherent with its text |
| `IndexReader.CachedIgnoresText` | search.py:85-87 | a cached term is answered without reading the index text or the positions |
| `IndexReader.SamePositionSamePostings` | Search/indexing/index_reader.py:67-76 | the token text before ':' is never compared with the term: two uncached terms at the same position get the same answer |
| `IndexReader.HasTerm` | Search/indexing/index_reader.py:116-131 | true exactly when the term is cached or has a stored position; the cache probe only promotes |
| `IndexReader.DocumentFrequency` | Search/indexing/index_reader.py:133-144 | the length of the looked-up list: the cached one, the one read, or 0 on failure |
| `IndexReader.GetUrl` | Search/indexing/index_reader.py:146-156 | the URL of a known id, `None` for an unknown one |
| `IndexReader.LoadSavedMapping` | Search/indexing/index_reader.py:24-28 | the saved URL mapping, in any member order, loads back as the inverse of the id map: each URL under its id, and only ids below the counter |
| `IndexReader.ReadWrittenIndex` | Search/indexing/index_reader.py:58-104 | looking up an uncached token in the written index parses exactly the postings text written for it, and a second lookup answers the same from the cache |
| `BooleanSearch.Intersection` | Search/search.py:195-208 | the reference: a document matches exactly when every term's postings contain it |
| `BooleanSearch.IntersectionSameTerms` | Search/search.py:188-189 | the order and repetition of the terms do not change the intersection |
| `BooleanSearch.MissingTermEmpties` | search.py:213-215 | a term without postings empties the intersection |
| `BooleanSearch.SortByFreq` | search.py:210-211 | the frequency sort is ascending and a permutation of the terms |
| `BooleanSearch.IntersectInOrder` | Search/search.py:196-208 | the loop from the first term, with its early stop on an empty set, computes exactly the intersection |
| `BooleanSearch.IntersectionPrefix` | Search/search.py:205-208 | the documents of all terms lie within those of any non-empty prefix of the terms, so stopping early on an empty prefix loses no match |
| `BooleanSearch.StrictAnd` | search.py:206-232 | empty for no terms or any term of frequency 0; otherwise exactly the documents every term occurs in, independent of the frequency order |
| `BooleanSearch.ValidTerms` | Search/query/query_processor.py:52-55 | the valid terms are the distinct query terms with postings, each once |
| `BooleanSearch.WithPostings` | Search/query/query_processor.py:55-58 | keeps exactly the query terms whose postings are non-empty, and keeps them distinct when the query's terms are |
| `BooleanSearch.LenientAnd` | Search/query/query_processor.py:37-80 | empty for no terms or when no term has postings; otherwise exactly the intersection over the terms with postings, within every such term's documents |
| `BooleanSearch.VariantsAgree` | Search/search.py:174-210 | when every term has postings, the strict and lenient answers coincide |
| `BooleanSearch.MissingTermDiffers` | Search/query/query_processor.py:55-58 | for a query of one term with postings and one without, the strict answer is empty while the lenient one is exactly the first term's documents, which are not empty |
| `SearchResults.SortDesc` | Search/search.py:258 | the sort with `reverse=True` is non-increasing by the `(cosine, tf-idf average)` key and a permutation of its input |
| `SearchResults.ToHits` | Search/search.py:262-266 | a result tuple per document, in order, with its URL and score; it fails exactly when some document has no URL |
| `SearchResults.Search` | Search/search.py:212-268 | `[]` for no terms or no matches; otherwise each match exactly once with its URL. Unranked: score 1.0 and no term information. Ranked: non-increasing by key, with the cosine as score and the vector as information |
| `SearchResults.FormattedResults` | Search/search.py:281-288 | the page is the first `min(limit, n)` results in order, and the total is the full count, at least the page size |
| `SearchResults.Respond` | Search/search.py:279-288 | the response fails exactly when the search fails, and otherwise is the formatted page |
| `SearchResults.CosineOnlyDescending` | search.py:363-368 | the first search engine sorts by cosine alone: scores are non-increasing |
| `SearchResults.PageShowsResults` | Search/search.py:286 | with a positive limit and some results, the page starts with the first result |
| `SearchState.Initial` | search-frontend/src/App.jsx:17-24 | before any search, no view is shown, every card is collapsed, the total is 0 and there is no query time |
| `SearchState.SetQuery` | search-frontend/src/App.jsx:89-94 | typing changes the query and nothing that is displayed |
| `SearchState.Start` | search-frontend/src/App.jsx:41-49 | the empty query, and only that one, is a no-op with no request; any other query sets loading, collapses every card, records the query and requests it, keeping the shown results |
| `SearchState.CompleteOk` | search-frontend/src/App.jsx:51-61 | results become the response's (or `[]`), time and total come from it, and loading is cleared |
| `SearchState.CompleteFail` | search-frontend/src/App.jsx:57-61 | results, time and total stay as they were, and loading is cleared |
| `SearchState.Toggle` | search-frontend/src/App.jsx:30-35 | flips that card's shown state (`!!expanded[i]`) and no other card's, and touches nothing else |
| `SearchState.ToggleTwice` | search-frontend/src/App.js:20-25 | two toggles of one card restore every card's shown state |
| `SearchState.ViewsExclusive` | search-frontend/src/App.jsx:110-134 | the spinner, the no-results message and the result list are never shown together |
| `SearchState.Apply` | search-frontend/src/App.js:27-47 | a start adds a fetch in flight exactly for a non-empty query; every completion settles one fetch and clears loading; a completion with nothing in flight cannot happen |
| `SearchState.RunConsistent` | search-frontend/src/App.js:11-47 | on every event sequence: the spinner only shows while a fetch is in flight after a search; nothing is shown or in flight before the first search; a recorded query is never empty |
| `SearchState.Fresh` | search-frontend/src/App.js:11-18 | the first rendered page is consistent and has no fetch in flight |
| `SearchState.OneView` | search-frontend/src/App.js:93-113 | in a consistent state nothing is rendered before the first search, and exactly one view after it |
| `SearchState.StaleResponseWins` | search-frontend/src/App.jsx:52-61 | with two searches answered in reverse order, the first answer clears the spinner while a fetch is in flight, and the older answer ends on the page under the newer query |
| `SearchState.FailureShowsPreviousResults` | search-frontend/src/App.js:42-46 | after a failed search the previous results are listed under the new query |

## Left out

- Scoring: log10, square roots and float division. This covers `calculate_query_vector`, `calculate_document_vectors`, `cosine_similarity`, the ranking modules and tf-idf writing. Scores are abstract ordered keys here.
- Tokenising and stemming (BeautifulSoup, nltk, regular expressions): these are foreign libraries. A query enters the model as its list of terms.
- The multiprocessing of the binary indexer; the CLI and report scripts.
- Zip, pickle, ijson and file I/O. Files are their contents.
  - A pickle file's `tell()` offsets are record numbers (`PartialIndex.WriteWithPositions`, `KWayMerge.MergeWithPositions`).
  - A text file's `tell()`/`seek` offsets are character indices.
  - The root merge reads its partial files as JSON lines. `KWayMerge.Merge` receives them already parsed.
- Glue between components that does not fit together is not modelled as a whole path:
  - The binary indexer pickles its merged index, while the reader scans JSON text.
  - `Search/query/query_processor.py:52,65` calls reader methods that `Search/indexing/index_reader.py` lacks. The frequency dictionary it expects is modelled as the distinct query terms in first-seen order, each with the frequency the reader's lookup gives.
  - The reader seeks to offsets in a JSON text file. `IndexWriter` writes such offsets with `InvertedIndex/index_manager.py:106-120`, which no merge calls, combined with the root merge's framing (`index_manager.py:82-132`). The root merge records no positions. The binary merge records pickle offsets and pickles them to `token_positions.pkl` (`InvertedIndex/index_manager.py:141-183`). Nothing writes the `token_positions.json` the reader loads.
  - The root indexer writes postings with the key `doc_name` (`index_manager.py:35,47`; `posting.py:6-38`). `Search/search.py:198,203` reads `posting['doc_id']`, which raises `KeyError` on them. `BooleanSearch` takes its index as a map from terms to sequences of document ids, already extracted from the postings, and so does not show this.
  - `InvertedIndex/index.py:89` constructs the batch reader with one argument more than `InvertedIndex/file.py:7` accepts.
- The HTTP servers, the LLM summary call, timing (`query_time` in `get_formatted_results`) and printing.
- The presentational React components. The rendered views are modelled as three predicates.
- The positions file is taken to hold integers. Posting attributes range over `None`, booleans, integers, floats and strings; lists and dictionaries as attribute values are not modelled.
- JsonValue.Mul, LegacyPosting.Make: floats are exact reals. There is no rounding (`0.1 * 3` is exactly `0.3`), no `inf` or `nan`, and no `OverflowError` when a float meets an integer too large to convert; a string repeated by a huge count does not raise `MemoryError` or `OverflowError`. Only `TypeError` is modelled as failure.
- Decimal.ParseNat, IndexReader.LoadUrls: `int()` also accepts signs, surrounding whitespace, underscores between digits and non-ASCII decimal digits. The model reads only plain digit strings, so it fails on keys the source would accept. The saved mapping never writes such keys.
- IndexWriter.EncodeToken: `json.dumps` also escapes control characters and non-ASCII characters. The model escapes only '"' and '\'. No escape introduces ':', so the scanner property is unaffected.
- IndexWriter.ScanWrittenIndex, MergedIndex.MergeAndWrite: stated token by token, for tokens without ':' and postings texts that are balanced bracket spans. `IndexWriter.PostingsTextBalanced` covers lists whose serialised items hold no brackets. A document URL or string value with a bracket inside a postings list would break the source's scanner, and is outside these contracts.
- KWayMerge.Merge: each token's merged postings are stated as a multiset, not in file order. The heap's push counter decides that order.
- SearchResults.SortDesc: states order and permutation, not stability among equal keys.
- SearchResults.Search: the set iteration order of the matches is the parameter `listing`. `calculate_document_vectors` is taken to yield every match exactly once.
- IndexReader.LookupCoherent: the cache's effect during a search is abstracted. The boolean search and result shaping run over a fixed term-to-postings map, which this lemma shows the cached reader presents.
- LegacyPosting.Describe: returns the printed pair, not the `:.2f` formatted string. `InvertedIndex/posting.py`'s `__str__` is not modelled.
- PartialIndex.Create: the root indexer builds `posting.py` postings, whose id field is `doc_name`. The model builds `Posting.Posting` values holding `Int(id)` and `Num(tf)` for both indexers. The field name matters only in the dictionary form, which `LegacyPosting.ToDict` states.
- SearchState.CompleteOk: a missing `query_time` or `total` (`undefined`) is not distinguished from `null`. A present but falsy `results` value other than an array is read as absent.
