# CU-Boulder-RAG-Search core, modelled in Dafny

This project models the data-hygiene and crawling core of a university-website
retrieval-augmented search system. Each module corresponds to one source file.

- `DupeFilter` (`dupefilter.dfy`): the three shared duplicate-request filters
  that spiders use to coordinate. The Redis filter claims a `"{prefix}:{fp}"` key
  with `SET NX`. The SQLite filter inserts into a table keyed by the
  fingerprint. The file filter keeps an in-memory set that is mirrored to a
  text file. Each filter is a class with `Open`, `RequestSeen`, `Close` and
  `Clear`. Each store (Redis server, SQLite database, text file) is a class
  of its own, so several filters can share one store.
- `Fingerprint`: the hex rendering of request fingerprints.
- `SeenSet`: the abstract "claim or detect duplicate" step, with lemmas about
  any sequence of claims. Each filter's `RequestsSeen` runs `RequestSeen`
  over a list of requests and is proved to give the answers `SeenSet.Answers`
  and leave the store at `SeenSet.After`, so the lemmas apply to every
  backend.
- `FlatFile`: the line format of the file filter, Python's string order,
  and the sorted rewrite that `close` performs followed by the reload that
  `open` performs.
- `QdrantDupeFilter`: the session cache of URLs in front of a vector-store
  lookup that can fail. A failed lookup lets the request through without
  caching it.
- `TextValidation`: `is_valid_text`, the `clean_text` normaliser, item
  validation, the counters of the validation pipeline, and the document
  filter run before embedding.
- `CleanupPdf` and `CleanupCorrupted`: the rules that recognise PDF, binary,
  corrupted or garbled text in the vector store.
- `Batching`: the dry-run and batch-deletion loop that both cleanup scripts
  share.
- `EnhancedSearch`: `prepare_context`, which packs retrieved documents under
  a character budget, and `format_sources`, which removes duplicate source
  URLs.
- `CrawlerConfig`: the required-key check of the crawler configuration and
  the mapping from configuration to Scrapy settings.
- `PyStr` and `Wrappers`: the Python string semantics these need
  (`strip`, `split`, `lower`, `in`, slicing, `join`) and an `Option` type.

Design decisions that follow the code rather than its comments:

- Truthiness of `USE_BFS` is Python's. The JSON string `"false"` is truthy,
  so it turns breadth-first crawling on (`CrawlerConfig.StringFalseMeansBfs`).
- `key not in config` in `_load_config` is Python's `in`.
  - A JSON list passes the check when it contains both key strings.
  - A string passes when it contains both as substrings.
  - A number, boolean or null raises `TypeError`.
- A list or object given as `DUPEFILTER_CLASS` cannot be hashed for the
  mapping lookup, so it raises `TypeError`. Any other unknown value selects
  the Redis filter.
- In the deletion loops, a batch size of 0 makes `range` raise `ValueError`.
  A negative batch size makes the range empty, so nothing is deleted even
  though the run reports deletion.
- `prepare_context` does not count the `"\n"` after each header or the
  `"\n\n"` separators against the budget. The truncated document keeps 100
  characters of margin.
- The SQLite filter catches only `IntegrityError`. A locked database or a
  missing table is an error outcome, neither "seen" nor "new".
- `open` of the file filter replaces the in-memory set by the stripped lines
  of the file. It does not merge the two.

## Model

| member | source | states |
|---|---|---|
| Fingerprint.Hex | src/filters/dupefilter.py:62-65 | the fingerprint text has two lower-case hex digits per byte |
| Fingerprint.HexAt | src/filters/dupefilter.py:62-65 | byte i is rendered at positions 2i and 2i+1 as its high and low nibble |
| Fingerprint.HexRoundTrip | src/filters/dupefilter.py:62-65 | decoding the hex text gives back the fingerprint bytes |
| Fingerprint.HexInjective | src/filters/dupefilter.py:62-65 | distinct fingerprint bytes give distinct fingerprint strings |
| Fingerprint.HexIsPlain | src/filters/dupefilter.py:62-65 | a fingerprint string has no whitespace and no ':' (so it is one file line and one Redis key suffix) |
| Fingerprint.RequestFingerprint | src/filters/dupefilter.py:148-151 | defines the stored fingerprint as the hex text of Scrapy's `fingerprint(request)`; its properties are `RequestFingerprintFormat` |
| Fingerprint.RequestFingerprintFormat | src/filters/dupefilter.py:148-151 | the stored fingerprint is determined by the request, has twice as many characters as the fingerprint bytes, and two requests share it exactly when their bytes are equal |
| SeenSet.AfterIsUnion | src/filters/dupefilter.py:48-60 | after any sequence of claims the seen-set is the initial set plus the claimed values; it only grows |
| SeenSet.AnswerAt | tests/test_dupefilter.py:22-31 | a claim answers "seen" exactly when the value was in the store before or was claimed earlier in the sequence |
| SeenSet.AtMostOneClaim | tests/test_dupefilter.py:29-31 | every repeat of a value is answered "seen" |
| SeenSet.ExactlyOneClaim | src/filters/dupefilter.py:55-60 | a value absent from the store is answered "new" exactly once, whoever asks |
| SeenSet.ClaimStep | src/filters/dupefilter.py:55-60 | one claim answers whether the value was present and adds it; the rest of the sequence continues from there |
| FlatFile.Sorted | src/filters/dupefilter.py:194 | `sorted(seen)`: the least element first, then the rest sorted; one entry per member |
| FlatFile.Load | src/filters/dupefilter.py:187-189 | defines what `open` reads: the stripped lines of the file, as a set; its properties are `LoadSerialize`, `LoadAppendLine` and `LoadGivesLines` |
| FlatFile.LessIrreflexive | src/filters/dupefilter.py:194 | the string order used by `sorted` is strict |
| FlatFile.LessTransitive | src/filters/dupefilter.py:194 | the string order is transitive |
| FlatFile.LessTotal | src/filters/dupefilter.py:194 | any two distinct strings are ordered |
| FlatFile.LeastExists | src/filters/dupefilter.py:194 | every non-empty set of strings has a least element |
| FlatFile.LeastOf | src/filters/dupefilter.py:194 | returns the least fingerprint of a non-empty set |
| FlatFile.SortedMembers | src/filters/dupefilter.py:194 | `sorted(seen)` lists exactly the members of the set |
| FlatFile.SortedIncreasing | src/filters/dupefilter.py:194 | `sorted(seen)` is strictly increasing, so it has no repetition |
| FlatFile.Serialize | src/filters/dupefilter.py:194-195 | the written text is empty or ends in a line break |
| FlatFile.LoadSerialize | src/filters/dupefilter.py:187-195 | reading back a file written one fingerprint per line gives the set of the written fingerprints |
| FlatFile.LoadSorted | src/filters/dupefilter.py:187-195 | reading back the sorted rewrite gives exactly the set that was written |
| FlatFile.LoadAppendLine | src/filters/dupefilter.py:210-211 | appending one line to the file adds exactly that fingerprint to what the file loads as |
| FlatFile.LoadGivesLines | src/filters/dupefilter.py:189 | every fingerprint loaded from a file is stripped and fits on one line |
| FlatFile.StripIdempotent | src/filters/dupefilter.py:189 | stripping a stripped line changes nothing |
| DupeFilter.Fingerprints | src/filters/dupefilter.py:148-151 | the stored fingerprints of a list of requests, one per request in order |
| DupeFilter.RedisKeyInjective | src/filters/dupefilter.py:58 | under one prefix, two keys are equal exactly when their fingerprints are |
| DupeFilter.RedisServer.SetNx | src/filters/dupefilter.py:58 | `SET NX` answers whether the key was new and leaves it present; an unreachable server raises and changes nothing |
| DupeFilter.RedisServer.Delete | src/filters/dupefilter.py:71 | the key is gone and no other key changes |
| DupeFilter.RedisDupeFilter.constructor | src/filters/dupefilter.py:21-25 | the filter keeps its prefix and the configured fingerprinter, which it never consults, and has no client yet |
| DupeFilter.RedisDupeFilter.Key | src/filters/dupefilter.py:58 | defines the key `"{prefix}:{fp}"` with the fingerprint from Scrapy's module-level `fingerprint`; its properties are `RedisKeyInjective` and `ClearReaches` |
| DupeFilter.RedisDupeFilter.Keys | src/filters/dupefilter.py:58 | the key of every request, in order |
| DupeFilter.RedisDupeFilter.Open | src/filters/dupefilter.py:39-41 | the filter is connected to the given server |
| DupeFilter.RedisDupeFilter.Close | src/filters/dupefilter.py:43-46 | closing changes no key |
| DupeFilter.RedisDupeFilter.RequestSeen | src/filters/dupefilter.py:48-60 | with the fingerprint of Scrapy's module-level `fingerprint`: "seen" exactly when the request's key existed before; afterwards it exists either way; a connection failure raises and changes nothing |
| DupeFilter.RedisDupeFilter.RequestsSeen | src/filters/dupefilter.py:48-60 | asking for a list of requests one after the other answers `SeenSet.Answers` of their keys and leaves the server's keys at `SeenSet.After`; an unreachable server raises every time and changes nothing |
| DupeFilter.RedisDupeFilter.Clear | src/filters/dupefilter.py:67-71 | exactly the keys matching `"{prefix}:*"` are deleted; every other key stays |
| DupeFilter.ClearReaches | src/filters/dupefilter.py:67-71 | `clear` under prefix p deletes a key written under prefix q exactly when `p:` is a prefix of `q:` |
| DupeFilter.OtherPrefixUntouched | src/filters/dupefilter.py:67-71 | for any prefix q other than p that does not start with `p:`, `clear` under p deletes no key written under q |
| DupeFilter.ColonPrefix | src/filters/dupefilter.py:58-69 | `p:` begins `q:` exactly when q is p or begins with `p:` |
| DupeFilter.SqliteDupeFilter.constructor | src/filters/dupefilter.py:83-86 | the filter keeps the configured fingerprinter, which it never consults, and has no connection yet |
| DupeFilter.SqliteDupeFilter.Open | src/filters/dupefilter.py:98-122 | the table exists afterwards and its rows are kept; a locked database raises |
| DupeFilter.SqliteDupeFilter.Close | src/filters/dupefilter.py:124-127 | the connection is closed and the rows are kept |
| DupeFilter.SqliteDupeFilter.RequestSeen | src/filters/dupefilter.py:129-146 | with the fingerprint of Scrapy's module-level `fingerprint`: a new fingerprint is inserted and answered "new"; a present one violates the primary key, is answered "seen" and leaves the table unchanged; other database errors propagate |
| DupeFilter.SqliteDupeFilter.Failure | src/filters/dupefilter.py:136-146 | the error an insert raises is empty exactly when the connection is open, the database unlocked and the table present |
| DupeFilter.SqliteDupeFilter.RequestsSeen | src/filters/dupefilter.py:129-146 | a list of requests asked one after the other answers `SeenSet.Answers` of their fingerprints and leaves the rows at `SeenSet.After`; with a closed, locked or table-less database every call raises that error and the rows stay |
| DupeFilter.SqliteDupeFilter.Clear | src/filters/dupefilter.py:153-156 | the table is emptied |
| DupeFilter.TextFile.Append | src/filters/dupefilter.py:210-211 | append mode creates a missing file and adds the text at the end |
| DupeFilter.FileDupeFilter.constructor | src/filters/dupefilter.py:168-171 | the set starts empty |
| DupeFilter.FileDupeFilter.Open | src/filters/dupefilter.py:183-189 | an existing file replaces the set by its stripped lines; with no file the set is unchanged |
| DupeFilter.FileDupeFilter.RequestSeen | src/filters/dupefilter.py:197-213 | with the fingerprint of Scrapy's module-level `fingerprint`: a remembered fingerprint is "seen" and nothing changes; a new one joins the set and exactly one line `fp\n` is appended, so a file that loaded as the set still does |
| DupeFilter.FileDupeFilter.RequestsSeen | src/filters/dupefilter.py:197-213 | a list of requests asked one after the other answers `SeenSet.Answers` of their fingerprints and leaves the set at `SeenSet.After`; a file that loaded as the set still does afterwards |
| DupeFilter.FileDupeFilter.Close | src/filters/dupefilter.py:191-195 | the file is rewritten with the set in sorted order, one fingerprint per line |
| DupeFilter.FileDupeFilter.Clear | src/filters/dupefilter.py:220-224 | the set is emptied and the file deleted |
| DupeFilter.FileDupeFilter.CloseThenOpen | src/filters/dupefilter.py:183-195 | closing and then opening the same file gives back exactly the same set |
| DupeFilter.CloseOpenRoundTrip | src/filters/dupefilter.py:183-195 | the sorted rewrite lists each fingerprint once and reloads as the same set |
| DupeFilter.SqliteScenario | tests/test_dupefilter.py:8-37 | whatever fingerprinter is configured, two new URLs are "new", the repeat is "seen", and `clear` empties the table |
| DupeFilter.FileScenario | tests/test_dupefilter.py:40-67 | whatever fingerprinter is configured, two new URLs are "new", the repeat is "seen", and the file is empty at the end |
| DupeFilter.RedisScenario | tests/test_dupefilter.py:70-104 | whatever fingerprinter is configured, two new URLs are "new", the repeat is "seen", and only the test prefix's keys are removed |
| DupeFilter.TwoSpiders | src/filters/dupefilter.py:55-60 | of two spiders sharing a server, even with different configured fingerprinters, the first to ask claims a new request and the second is told it was seen |
| QdrantDupeFilter.VectorStore.ScrollByUrl | src/filters/qdrant_dupefilter.py:40-52 | the lookup reports whether a point with that URL exists, or fails when the store is unreachable |
| QdrantDupeFilter.QdrantDupeFilter.constructor | src/filters/qdrant_dupefilter.py:15-18 | the session set starts empty |
| QdrantDupeFilter.QdrantDupeFilter.RequestSeen | src/filters/qdrant_dupefilter.py:28-67 | a cached URL is filtered without a lookup; otherwise the store decides and the URL is cached; a failed lookup lets the URL through and caches nothing |
| QdrantDupeFilter.QdrantDupeFilter.Close | src/filters/qdrant_dupefilter.py:69-71 | the session set is emptied |
| QdrantDupeFilter.AskTwice | src/filters/qdrant_dupefilter.py:36-37 | after a successful lookup, asking again for the same URL filters it |
| QdrantDupeFilter.RetryAfterFailure | src/filters/qdrant_dupefilter.py:59-63 | while the store is down, every request passes and each one asks the store again |
| PyStr.Filter | prevent_corrupted_data.py:68 | a generator filter keeps only accepted characters of the input and keeps everything when all are accepted |
| PyStr.Strip | prevent_corrupted_data.py:72 | defines `strip` as `lstrip` then `rstrip`; its properties are `StripShape` |
| PyStr.StripShape | prevent_corrupted_data.py:72 | `strip` removes exactly the leading and trailing whitespace |
| PyStr.Words | cleanup_pdf_vectors.py:61 | `split()` yields non-empty words without whitespace |
| PyStr.Lower | cleanup_pdf_vectors.py:45 | lower-casing maps each character and keeps the length |
| PyStr.Take | cleanup_pdf_vectors.py:57 | a slice `s[:n]` is a prefix of length min(n, len) |
| TextValidation.IsValidText | prevent_corrupted_data.py:10-48 | defines `is_valid_text` on the length and three character counts, with exact ratios; its properties are `ValidTextExactly` |
| TextValidation.CountsAcceptableExactly | prevent_corrupted_data.py:22-48 | the four rejections, cross-multiplied: the checks pass exactly when none fires |
| TextValidation.ValidTextExactly | prevent_corrupted_data.py:10-48 | valid exactly when non-empty, at least `min_length` long, within the replacement ratio, at least 70% ASCII and at least 80% alphanumeric or whitespace |
| TextValidation.DefaultValidTextExactly | prevent_corrupted_data.py:10-48 | with the defaults: at least 50 characters and at most one in 20 a replacement character, plus the two ratio rules |
| TextValidation.RatioAbove | prevent_corrupted_data.py:27-29 | a ratio comparison is the cross-multiplied comparison of counts |
| TextValidation.Normalize | prevent_corrupted_data.py:65-72 | defines the cleaning steps of `clean_text` in their order; its properties are `NormalizeIsClean` and `NormalizeFixesClean` |
| TextValidation.Collapse | prevent_corrupted_data.py:71 | whitespace runs become one space; nothing else is added |
| TextValidation.CollapsedChars | prevent_corrupted_data.py:65-71 | after cleaning, no replacement or control character remains and the only whitespace is a plain space |
| TextValidation.NormalizeIsClean | prevent_corrupted_data.py:65-72 | the normalised text has no replacement or control character, no double whitespace and no whitespace at either end |
| TextValidation.CleanText | prevent_corrupted_data.py:51-78 | empty input gives None; any other result is clean and passes `is_valid_text` |
| TextValidation.NormalizeFixesClean | prevent_corrupted_data.py:65-72 | normalising clean text changes nothing |
| TextValidation.CleanTextIdempotent | prevent_corrupted_data.py:51-78 | cleaning a cleaned text gives it back |
| TextValidation.Accepted | prevent_corrupted_data.py:92-105 | defines the verdict of `validate_scraped_item`: non-empty content that `clean_text` keeps; its properties are `ValidateScrapedItem` and `CleanedStable` |
| TextValidation.Cleaned | prevent_corrupted_data.py:100-103 | defines the item after validation; its properties are `CleanedKeys` and `CleanedContent` |
| TextValidation.CleanedKeys | prevent_corrupted_data.py:92-105 | validation changes at most the `page_content` field |
| TextValidation.CleanedContent | prevent_corrupted_data.py:98-103 | accepted content is replaced by clean, valid text |
| TextValidation.CleanedStable | prevent_corrupted_data.py:81-105 | validating a validated item changes neither the item nor the verdict |
| TextValidation.ValidateScrapedItem | prevent_corrupted_data.py:92-105 | accepts exactly the items whose non-empty content can be cleaned; accepted items get the cleaned text, rejected ones are unchanged |
| TextValidation.TextValidationPipeline.constructor | prevent_corrupted_data.py:119-121 | both counters start at zero |
| TextValidation.TextValidationPipeline.ProcessItem | prevent_corrupted_data.py:123-136 | every call counts one processed item and one dropped item exactly when it raises `DropItem`; dropped never exceeds processed |
| TextValidation.Select | prevent_corrupted_data.py:164-166 | the kept documents come from the input, in order |
| TextValidation.FilterDocumentsBeforeEmbedding | prevent_corrupted_data.py:147-172 | returns the accepted documents in input order; valid plus invalid equals the input size; each document carries its cleaned fields |
| CleanupPdf.UrlReason | cleanup_pdf_vectors.py:45-51 | defines the extension loop; its properties are `UrlReasonFirstMatch` and `UrlReasonNone` |
| CleanupPdf.IndicatorReason | cleanup_pdf_vectors.py:54-57 | defines the indicator loop; its properties are `IndicatorReasonFirstMatch` and `IndicatorReasonNone` |
| CleanupPdf.TooManyShortWords | cleanup_pdf_vectors.py:61-66 | defines the short-word rule: more than 50 words and more than 40 short ones among the first 100 |
| CleanupPdf.ShortWordCount | cleanup_pdf_vectors.py:64 | at most as many short words as words |
| CleanupPdf.IsPdfOrBinaryContent | cleanup_pdf_vectors.py:33-72 | every removal carries a non-empty reason and every kept page the empty one |
| CleanupPdf.UrlReasonFirstMatch | cleanup_pdf_vectors.py:45-51 | the first matching extension in list order names the reason |
| CleanupPdf.UrlReasonNone | cleanup_pdf_vectors.py:45-51 | the URL rule is silent exactly when no extension matches |
| CleanupPdf.IndicatorReasonNone | cleanup_pdf_vectors.py:54-57 | the indicator rule is silent exactly when the text holds no indicator |
| CleanupPdf.IndicatorReasonFirstMatch | cleanup_pdf_vectors.py:55-57 | the first indicator held names the reason, cut to 20 characters |
| CleanupPdf.UrlRulesFirst | cleanup_pdf_vectors.py:44-57 | a matching extension decides the verdict whatever the text |
| CleanupPdf.EmptyTextKept | cleanup_pdf_vectors.py:54-72 | empty text under an acceptable URL is kept with the empty reason |
| CleanupPdf.HighReplacementRatioExactly | cleanup_pdf_vectors.py:69-70 | the 2% rule fires exactly when 50 times the replacement count exceeds the length |
| CleanupPdf.IsPdfOrBinaryContentExactly | cleanup_pdf_vectors.py:33-72 | a page is removed exactly when an extension, an indicator, the short-word rule or the replacement rule fires |
| CleanupPdf.DeletePdfVectors | cleanup_pdf_vectors.py:180-224 | nothing is deleted for an empty list or a dry run; batch size 0 raises and a negative one deletes nothing; otherwise the batches `ids[i:i+bs]` are deleted in order until the store fails, and exactly the ids of the batches sent are gone |
| Batching.Batches | cleanup_pdf_vectors.py:214-215 | defines the slices `ids[i:i+bs]` for `i` in `range(0, len(ids), bs)`; its properties are `BatchesIsBatching` and `BatchesPrefix` |
| Batching.BatchesIsBatching | cleanup_pdf_vectors.py:214-215 | the slices are non-empty, full except the last, and concatenate to the ids in order |
| Batching.BatchesPrefix | cleanup_pdf_vectors.py:214-215 | when more batches follow, the first k hold exactly the first k times `bs` ids |
| Batching.PointStore.Delete | cleanup_pdf_vectors.py:217-220 | a store that still answers removes the batch's ids and nothing else; a failing one raises and changes nothing |
| Batching.DeleteInBatches | cleanup_pdf_vectors.py:197-222 | empty list: nothing; dry run: the would-delete count; batch size 0: `ValueError`; negative size: nothing deleted; positive size: all batches, or the batches before the first failed call, and exactly their ids removed |
| Batching.SendBatches | cleanup_pdf_vectors.py:214-220 | the batches go out in order; the run completes exactly when the store answers every call, otherwise it stops at the failed call with the earlier batches deleted |
| CleanupCorrupted.IsCorruptedText | cleanup_corrupted_vectors.py:12-35 | defines `is_corrupted_text` with an exact ratio; its properties are `CorruptedExactly` |
| CleanupCorrupted.IsMostlyGarbled | cleanup_corrupted_vectors.py:38-55 | defines `is_mostly_garbled` with an exact ratio; its properties are `GarbledExactly` |
| CleanupCorrupted.CorruptedExactly | cleanup_corrupted_vectors.py:12-35 | corrupted exactly when the text is empty or bad characters are more than `threshold` of it |
| CleanupCorrupted.DefaultCorruptedExactly | cleanup_corrupted_vectors.py:12-35 | with the default: empty, or more than one character in 20 is bad |
| CleanupCorrupted.GarbledExactly | cleanup_corrupted_vectors.py:38-55 | garbled exactly when the text is empty or non-ASCII characters are more than `threshold` of it |
| CleanupCorrupted.DefaultGarbledExactly | cleanup_corrupted_vectors.py:38-55 | with the default: empty, or more than 30% non-ASCII |
| CleanupCorrupted.PlainAsciiPasses | cleanup_corrupted_vectors.py:27-55 | non-empty ASCII text without bad control characters is neither corrupted nor garbled |
| CleanupCorrupted.CleanedTextPasses | cleanup_corrupted_vectors.py:12-55 | text that `clean_text` accepts is neither corrupted nor garbled |
| CleanupCorrupted.DeleteCorruptedVectors | cleanup_corrupted_vectors.py:144-186 | nothing is deleted for an empty list or a dry run; batch size 0 raises and a negative one deletes nothing; otherwise the batches `ids[i:i+bs]` are deleted in order until the store fails, and exactly the ids of the batches sent are gone |
| EnhancedSearch.ContextParts | src/llm/enhanced_search.py:16-37 | defines the parts the loop appends; its properties are `ContextPartsShape`, `FitIncluded` and `TruncationWithinBudget` |
| EnhancedSearch.PrepareContext | src/llm/enhanced_search.py:16-37 | the context is the parts the budget admits, joined by blank lines; no documents give "" |
| EnhancedSearch.CostMonotone | src/llm/enhanced_search.py:26-35 | the running length never decreases along the documents |
| EnhancedSearch.Fitting | src/llm/enhanced_search.py:21-35 | the documents included whole are the longest prefix whose headers and texts fit the budget |
| EnhancedSearch.PartsFromShape | src/llm/enhanced_search.py:21-35 | from any fitting document on, the loop emits the remaining whole parts and then the tail |
| EnhancedSearch.ContextPartsShape | src/llm/enhanced_search.py:16-37 | the context is the fitting prefix, each part behind its `[Source i: url]` header, then at most the first overflowing document cut short; nothing after it |
| EnhancedSearch.TruncationWithinBudget | src/llm/enhanced_search.py:27-31 | a cut document keeps exactly `remaining_space` characters, more than 200, and ends 97 characters inside the budget |
| EnhancedSearch.FitIncluded | src/llm/enhanced_search.py:26-35 | whenever the first k documents with their headers fit the budget, exactly at the limit included, all k are in the context whole, in order |
| EnhancedSearch.Title | src/llm/enhanced_search.py:53 | defines the title: `title`, else `source`, else "Untitled" |
| EnhancedSearch.Snippet | src/llm/enhanced_search.py:56-63 | the snippet has at most 153 characters, no whitespace at either end, and comes from the content when it is short |
| EnhancedSearch.UrlsBeforeFirst | src/llm/enhanced_search.py:46-51 | a document's URL is unseen exactly when it is the first with that URL |
| EnhancedSearch.UrlsBeforeSpec | src/llm/enhanced_search.py:42-51 | the seen set holds exactly the URLs of the documents visited so far |
| EnhancedSearch.SourcesUpTo | src/llm/enhanced_search.py:44-64 | defines the entries after the first n documents; its properties are `SourcesAreFirstOccurrences`, `SourcesComplete`, `SourcesInOrder` and `SourcesDistinctUrls` |
| EnhancedSearch.FormatSources | src/llm/enhanced_search.py:39-66 | the entries are those of the first occurrence of each URL, in input order |
| EnhancedSearch.SourcesAreFirstOccurrences | src/llm/enhanced_search.py:44-64 | each entry is built from the first document with its URL, with id its index plus 1 |
| EnhancedSearch.SourcesIdsBelow | src/llm/enhanced_search.py:44-60 | ids never exceed the number of documents visited |
| EnhancedSearch.SourcesInOrder | src/llm/enhanced_search.py:44-60 | ids strictly increase |
| EnhancedSearch.SourcesComplete | src/llm/enhanced_search.py:44-64 | every first occurrence of a URL has an entry |
| EnhancedSearch.SourcesDistinctUrls | src/llm/enhanced_search.py:42-51 | no two entries share a URL |
| CrawlerConfig.LoadConfig | src/crawlers/CrawlerCreator.py:30-35 | defines the required-key check on the parsed configuration; its properties are `LoadConfigSearchable`, `LoadConfigObject`, `LoadConfigList` and `LoadConfigScalar` |
| CrawlerConfig.LoadConfigSearchable | src/crawlers/CrawlerCreator.py:30-35 | for an object, a list or a string, `KeyError` is raised exactly when a key is not `in` it, listing the missing keys in order; otherwise the configuration is returned |
| CrawlerConfig.LoadConfigObject | src/crawlers/CrawlerCreator.py:30-33 | a `KeyError` lists the missing keys in the order base_url, settings, and is raised exactly when one is missing |
| CrawlerConfig.LoadConfigScalar | src/crawlers/CrawlerCreator.py:30-31 | a number, boolean or null configuration makes `in` raise `TypeError` |
| CrawlerConfig.LoadConfigList | src/crawlers/CrawlerCreator.py:30-33 | a list passes exactly when it holds both key strings; otherwise `KeyError` lists the key strings it lacks, in order |
| CrawlerConfig.BuildSettings | src/crawlers/CrawlerCreator.py:37-96 | defines the settings `_build_scrapy_settings` sets; its properties are `BuildSettingsSucceeds` and the selection and default lemmas below |
| CrawlerConfig.BuildSettingsSucceeds | src/crawlers/CrawlerCreator.py:37-96 | settings are built exactly when the configuration and its settings are objects, base_url is present and the filter name is hashable |
| CrawlerConfig.CreateCrawler | src/crawlers/CrawlerCreator.py:10-12 | defines the constructor: load the configuration, then build the settings; its properties are `CreateCrawlerObject` |
| CrawlerConfig.CreateCrawlerObject | src/crawlers/CrawlerCreator.py:10-12 | a configuration object yields a crawler exactly when both keys are present, settings is an object and the filter name is hashable |
| CrawlerConfig.DupefilterSelection | src/crawlers/CrawlerCreator.py:45-75 | "sqlite" and "file" select their filters; "redis", any other value and absence select Redis |
| CrawlerConfig.UnhashableFilterName | src/crawlers/CrawlerCreator.py:75 | a list or object as filter name raises `TypeError` |
| CrawlerConfig.CrawlOrderSelection | src/crawlers/CrawlerCreator.py:53-73 | truthy `USE_BFS` gives priority 1 and FIFO queues; false or absent gives 0 and LIFO queues |
| CrawlerConfig.StringFalseMeansBfs | src/crawlers/CrawlerCreator.py:53-73 | an example of `CrawlOrderSelection`: the string "false" turns breadth-first crawling on |
| CrawlerConfig.SettingDefaults | src/crawlers/CrawlerCreator.py:56-79 | each copied setting is the configured value when present and its default otherwise |
| CrawlerConfig.SomeDefaults | src/crawlers/CrawlerCreator.py:61-64 | unconfigured, the delay is 1, concurrency 16 and the depth limit 0 |
| CrawlerConfig.FixedSettings | src/crawlers/CrawlerCreator.py:69-85 | `BASE_URL` is the configured base URL and the pipelines run cleaning, embedding and storage at increasing priorities |

## Left out

- Connections and their lifecycle: the Redis client, the SQLite
  connection with its pragmas, busy timeout and directory creation, and file
  handles. Each store is an object holding a set, plus flags for "the server
  does not answer" or "the database is locked".
- Atomicity across processes is assumed, not proved. Each store operation
  (`SET NX`, a primary-key insert, a file append) is one atomic step of the
  shared store object. The file filter's race between processes, which the
  source documents, is not modelled.
- `from_crawler` and `from_settings`: these only read settings with defaults
  and pass them to the constructors. The constructors take the values
  directly.
- Scrapy's module-level `fingerprint` is a foreign call. It is the parameter
  `fingerprint` of every `RequestSeen`, a deterministic function of the
  request, shared by all filters. The `fingerprinter` the constructors
  receive (from `crawler.request_fingerprinter`) is stored but never
  consulted, as in the source. Only the `bytes` branch of
  `_get_request_fingerprint` is modelled, because Scrapy returns bytes.
- `Batching.PointStore.Delete` models a failing delete call as all or
  nothing. The store answers a given number of calls (`answersLeft`, or
  without limit) and the next call raises before anything is deleted.
  A call that fails after the server deleted part of the batch is not
  modelled, because the client reports no partial result.
- `DupeFilter.RedisDupeFilter.Clear` reads the `scan_iter` pattern
  `"{prefix}:*"` as a literal prefix. Glob metacharacters inside the prefix
  are not modelled.
- Python's text-mode newline translation when reading the fingerprint file
  is not modelled. `open` splits the text at `"\n"` only.
- The Qdrant client is an oracle. A lookup succeeds and reports whether the
  URL is stored, or it fails. The log line printed on failure is left out.
- `TextValidation.ValidTextExactly`: `isalnum` is ASCII letters and digits
  only, and `lower()` (in `CleanupPdf`) maps ASCII letters only. Unicode
  letters outside ASCII are not modelled.
- `close_spider` only logs a percentage, and it divides by zero when no item
  was processed. It is left out, along with every other log and print.
- Float thresholds (0.05, 0.3, 0.7, 0.8, 2%) are exact rationals. The cases
  where binary floating point rounds differently are not modelled.
- `TextValidation.Item` reduces an item or document to a map from string
  keys to string values. Metadata and items whose values are not strings
  are not modelled. The same holds for `EnhancedSearch.Document.metadata`.
- The scan and command-line parts of the cleanup scripts are not part of
  this model: `scan_pdf_vectors`, `scan_corrupted_vectors`, `main`, the
  confirmation prompt, JSON dumps and progress bars. Neither are the Qdrant
  client construction and the progress-bar updates inside the delete loops.
- `CrawlerConfig.LoadConfig` starts from the parsed JSON value. The missing
  file, JSON syntax errors and file reading are not modelled.
- `CrawlerConfig.BuildSettings` models only the values that
  `_build_scrapy_settings` sets. The base values from
  `get_project_settings` are not modelled.
- Embedding, the LLM, the web app, result formatting, the Scrapy pipelines
  and the crawler spider are not part of this model.
