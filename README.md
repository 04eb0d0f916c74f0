# Ingestion pipeline of the CCP news-and-science digest

This project models the ingestion core of the CCP digest in Dafny and
proves properties of the model. The pipeline fetches records from two
providers, cleans each into a flat record, gives each a content-derived id,
and stores them insert-or-ignore in table `items`.

- `builtins.dfy` (module `Builtins`) holds the Python and JSON vocabulary:
  - `None`, raised exceptions (`Result`), and three-state JSON keys (`Field`: missing, `null`, or a value).
  - The outcome of an HTTP request (`Response`).
  - `dict.get`, truthiness, `or`, slicing, and ASCII `strip()`/`lower()`/`join`.
  - The code-point order SQLite uses on TEXT.
- `science.dfy` (module `Science`) covers the OpenAlex fetcher. `ReconstructAbstract` rebuilds an abstract from its inverted index with the source's nested loops and stable sort. `FetchPapers` is the cleaning loop over the `results` list, and the field rules (journal, URL fallback, key topics, snippet) are functions.
- `irony.dfy` (module `Irony`) covers the GDELT fetcher. `FetchIrony` is the cleaning loop over `articles`. `ToneScore` and `SeenDate` are its field rules.
- `storage.dfy` (module `Storage`) covers the table. Class `Store` holds the rows by id (`rows`) and the ids in insertion order (`order`), so SQLite's rowid order is explicit.
  - `SaveItems` is the insert-or-ignore loop with its counter. It is proved equal to the functions `Saved` and `NewIds`.
  - `ListItems` is the filtered, newest-first, limited read.
- `ingest.dfy` (module `Ingest`) covers the id scheme, the two normalisers, the two fixed query tables, the loops that build the batch, and the final save.

Some things are parameters of the model:
- The providers are functions from a query to a `Response`.
- SHA-256 is a function `digest: string -> string`.
- The clock is `clock: nat -> string`. The item built k-th in a batch of n items is stamped `clock(k)`. The save step gives its k-th item the time `clock(n + k)`, but uses it only when that item's `created_at` is falsy. That is the only case where `save_items` calls `utcnow()`.

The model follows what the code does, including these behaviours that its names and comments do not suggest:
- Nothing keeps `"||"` out of the id parts. `Ingest.SeparatorCollision` shows a part containing it colliding with two parts.
- A JSON `null` title, or a `null` source display name, reaches the item as `None`. `INSERT OR IGNORE` then skips the row, because IGNORE also covers NOT NULL violations. So such an item is neither stored nor counted, and its id is not in the table after the save. `Storage.ToRow` and `Storage.SavedTable` state this.
- A `null` `seendate` raises `TypeError` inside the news loop. That exception is not caught, so `ingest` raises and saves nothing. A `null` `results` or `articles` behaves the same way, and so does an undecodable OpenAlex body: `response.json()` sits outside the `try` there, but inside it in the GDELT fetcher.

## Model

| member | source | states |
|---|---|---|
| Science.ReconstructAbstract | agent_science.py:15-28 | a missing or empty index gives "No abstract available."; otherwise the words of all (position, word) pairs, stably sorted by position, joined by single spaces |
| Science.AbstractWordCount | agent_science.py:22-28 | the abstract has as many words as listed positions, and each word occurs once per position listed for it |
| Science.AbstractOrder | agent_science.py:23-28 | the pairs behind the abstract are a permutation of the collected pairs, in non-decreasing position order, and pairs sharing a position keep key order, then list order |
| Science.ExpandMembership | agent_science.py:23-25 | a (position, word) pair is collected exactly when some key lists that position for that word |
| Science.SortByPosStable | agent_science.py:27 | sorting by position keeps the relative order of pairs with equal positions |
| Science.TheFoxThe | agent_science.py:15-28 | the index {"the": [0, 2], "fox": [1]} reads "the fox the" |
| Science.JournalName | agent_science.py:56-62 | "Unknown Source" when `primary_location` or its `source` is missing or null; otherwise the display name, with a null one read as None and a missing one as "Unknown Source" |
| Science.PaperUrl | agent_science.py:72-73 | a non-empty `oa_url`, else a non-empty `landing_page_url`, else "No URL"; never empty |
| Science.KeyTopics | agent_science.py:68-69 | at most three topics: the display names of the first min(3, n) concepts in order; none when `concepts` is missing or null |
| Science.Snippet | agent_science.py:79 | the abstract itself up to 300 characters, else its first 300 characters followed by "...", 303 in all |
| Science.CleanRecord | agent_science.py:75-82 | a missing title reads "No Title" and a missing date "Unknown Date", a null one is None, a present one is copied; journal, snippet, a never-empty URL and key topics follow their rules |
| Science.FetchPapers | agent_science.py:50-84 | a failed request gives []; an undecodable body or null `results` raises; otherwise exactly one cleaned record per work, in input order |
| Irony.ToneScore | agent_irony.py:37-40 | the converted `avgtone`; 0 when it is missing, null or not convertible |
| Irony.SeenDate | agent_irony.py:49 | the prefix of `seendate` of length min(8, len); "" when missing; raises exactly when null |
| Irony.CleanArticle | agent_irony.py:36-50 | raises exactly when `seendate` is null; otherwise the theme, the tone score, a title defaulting to "No Title" and a source name defaulting to "Unknown" (null copied as None), the URL when present and None otherwise, and at most the first 8 characters of `seendate` ("" when missing) |
| Irony.CleanArticles | agent_irony.py:36-50 | raises exactly when some article has a null `seendate`; otherwise one record per article in order, each with the caller's theme |
| Irony.StoriesOfOutcome | agent_irony.py:33-52 | a failed request, undecodable body or missing `articles` gives []; null `articles` raises; otherwise it raises exactly when some article has a null `seendate`, and else gives one cleaned record per article, in order, each with the theme |
| Irony.FetchIrony | agent_irony.py:33-52 | the loop returns or raises exactly what `StoriesOfOutcome` describes for the response |
| Storage.ToRow | ccp_storage.py:43-54 | a row exists exactly when headline and source are not None; the columns are copied, and created_at is the item's when truthy, else the current time |
| Storage.SavedTable | ccp_storage.py:42-65 | saving keeps every existing row unchanged and adds exactly the ids of the insertable items not yet stored; the new ids are distinct, and their count is the number of such distinct ids |
| Storage.SaveIdempotent | ccp_storage.py:57-64 | saving the same batch again, at any time, inserts nothing and leaves the table unchanged |
| Storage.NewIdsBound | ccp_storage.py:63-65 | the inserted count is at most the batch size |
| Storage.Store.SaveItems | ccp_storage.py:37-65 | the new table is the batch saved item by item; ids are appended in insertion order; the count returned equals the number of new ids and the number of rows added; the table stays keyed by id |
| Storage.KeyedInsert | ccp_storage.py:55-64 | inserting a row under an id not yet stored, appended to the rowid order, keeps the table keyed by id with each stored id listed once |
| Storage.Store.ListItems | ccp_storage.py:68-87 | at most `limit` rows of the table, each once, of the given type when it is truthy, newest first; fewer than `limit` only when every selected row is returned, and no selected row left out is newer than a returned one |
| Storage.MatchingRows | ccp_storage.py:78-80 | the selection holds exactly the table's rows of the requested type, each once |
| Storage.NewestFirstPermutes | ccp_storage.py:81 | ordering by created_at only permutes the selection |
| Storage.NewestFirstSorted | ccp_storage.py:81 | the ordered rows have non-increasing created_at |
| Storage.Listing | ccp_storage.py:73-87 | the ordered, limited selection satisfies every guarantee `ListItems` states |
| Builtins.LexLeTransitive | ccp_storage.py:81 | the TEXT order is transitive, which makes "newest first" well defined |
| Builtins.LowerStrip | ccp_ingest.py:12 | lower-casing and stripping commute |
| Builtins.StripPadded | ccp_ingest.py:12 | surrounding whitespace does not survive `strip()` |
| Ingest.MakeItemIdPayload | ccp_ingest.py:11-13 | with every part truthy, the id is the digest of the parts stripped, lower-cased and joined by "\|\|"; with none truthy, the digest of "" |
| Ingest.KeptPartsAllTruthy | ccp_ingest.py:12 | when every part is truthy, the payload segments are exactly the parts stripped and lower-cased, in order |
| Ingest.IdSkipsFalsyParts | ccp_ingest.py:12 | inserting a None or empty part anywhere leaves the id unchanged |
| Ingest.BlankPartKept | ccp_ingest.py:12 | a whitespace-only part becomes an empty segment ("a||||b"), while an empty part is dropped ("a||b") |
| Ingest.SeparatorCollision | ccp_ingest.py:12 | one part "a\|\|b" and the parts "a", "b" give the same payload |
| Ingest.IdDependsOnlyOnCanonical | ccp_ingest.py:11-13 | parts agreeing on truthiness and on their stripped, lower-cased form give the same id |
| Ingest.CanonicalIgnoresCaseAndPadding | ccp_ingest.py:12 | surrounding whitespace and letter case do not change a part's canonical form |
| Ingest.IdIgnoresCaseAndPadding | ccp_ingest.py:11-13 | part lists that agree on which parts are truthy and differ only in letter case and surrounding whitespace get equal ids |
| Ingest.PaddedCapitalSameId | ccp_ingest.py:11-13 | the parts " A " and "a" give the same id |
| Ingest.NormalizeScience | ccp_ingest.py:16-28 | item_type "science", tone None, the caller's topic, source from Journal, the id over (topic, Headline, URL, Date) in that order |
| Ingest.NormalizeIrony | ccp_ingest.py:31-43 | item_type "society", summary None, tone = Tone_Score, source from Source, the id over (theme, Headline, URL, Date) in that order |
| Ingest.ScienceItemOfWork | ccp_ingest.py:16-28 | from a work: a missing title reads "No Title", a missing location "Unknown Source", the URL is never empty, and the item is storable exactly when neither title nor source name is null |
| Ingest.SocietyItemOfArticle | ccp_ingest.py:31-43 | from an article: a missing title reads "No Title", a missing source name "Unknown", the tone is the converted avgtone, and the item is storable exactly when neither title nor source name is null |
| Ingest.SameIdAcrossKinds | ccp_ingest.py:18 | a paper and a story agreeing on topic, headline, URL and date get the same id under both normalisers |
| Ingest.GatheredSucceeds | ccp_ingest.py:63-69 | a query loop succeeds exactly when every fetch does |
| Ingest.GatheredFirstFailure | ccp_ingest.py:63-69 | a failing query loop raises the exception of its first failing fetch |
| Ingest.GatheredRecords | ccp_ingest.py:63-69 | a successful query loop holds exactly the fetched records, each under its own query's topic |
| Ingest.BatchLayout | ccp_ingest.py:62-69 | one item per record: all science items in query order, then all society items, each normalised from its record with the clock read once per item |
| Ingest.IngestTopics | ccp_ingest.py:51-69 | every item carries a topic of the science table or, for a society item, a theme of the news table |
| Ingest.ExtendScience | ccp_ingest.py:65 | extending the items with one query's papers appends exactly their normalised items, reading the clock once per item in order |
| Ingest.ExtendSociety | ccp_ingest.py:69 | extending the items with one query's stories appends exactly their normalised items, the clock continuing after the items already built |
| Ingest.CollectScience | ccp_ingest.py:63-65 | the science loop yields the normalised items of all gathered papers, or the first fetch's exception |
| Ingest.CollectSociety | ccp_ingest.py:67-69 | the news loop yields the normalised items of all gathered stories, or the first fetch's exception |
| Ingest.Ingest | ccp_ingest.py:46-71 | on an exception the table is unchanged; otherwise the batch is saved and the result is `save_items`' count of new ids |

## Left out

- HTTP requests, their parameters, timeouts and status checks are left out. Each provider is a function from the query to a `Response`.
- SHA-256 is a parameter `digest`. The id properties need only that it is a function.
- `datetime.utcnow()` and `date.today()` become the `clock` parameter and the provider functions. ISO 8601 formatting is not modelled.
- `init_db`, the schema script, connections and pragmas are left out. `Store` starts as an initialised, empty table.
- `float(...)` on `avgtone` is abstracted to whether the value converts (`Irony.ToneValue`). Tone arithmetic is not modelled.
- Science.InvertedIndex is a list of (word, positions) entries, so it can hold the same word twice. A decoded JSON object cannot: the last value wins. AbstractWordCount, AbstractOrder and ExpandMembership hold for every list, including those without repeated words.
- Unicode `strip()` and `lower()` are modelled on ASCII only.
- JSON values of the wrong kind are not modelled: a non-object body or record, a non-list `positions`, a non-string title. The model types every key.
- Storage.Store.ListItems: does not fix the order among rows with equal created_at. SQL leaves it unspecified, so the contract states only what SQL guarantees.
- Storage.Store.ListItems: takes `limit` as a natural number. SQLite treats a negative LIMIT as no limit.
- Ingest.NormalizeScience: the `.get` defaults "Untitled" and "Unknown Source" are unreachable. The cleaned paper always has the keys Headline and Journal, so a None in them is copied through.
- Ingest.NormalizeIrony: the `.get` defaults "Untitled" and "Unknown" are unreachable for the same reason.
- The command-line entry point, argparse, console printing, the HTTP server and the dossier writer are not part of this model.
