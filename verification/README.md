# News amalgamator core in Dafny

This project models the core of a small news amalgamator. The amalgamator fetches articles from RSS feeds and the Guardian search API and normalises each one into a standard article dictionary. It fingerprints and deduplicates articles against the hashes already stored, stores the new ones in a SQLite database, and groups pending articles into a time-bucketed e-mail digest. Two maintenance scripts also write to the database: a one-off CSV import and a seed script. The seed script inserts the news sources, the tiers, a default user and that user's subscriptions.

Modules:

| module | models |
|---|---|
| `Rows` | the article dictionary as `map<string, string>` and `.get(key, default)` |
| `Dedup` | `deduplicate`, defined independently of the single-pass loop, plus that loop |
| `StableSort` | Python's stable `list.sort(key, reverse=True)` as a stable insertion sort |
| `Decimal` | the decimal rendering of a count inside an f-string |
| `EmailDigest` | `_get_article_dt`, `_bucket_articles`, the card's N/A decision, and the decisions in `send_email_for_user` |
| `Rss` | `_normalise_date` and the entry-to-article mapping of the RSS `fetch` |
| `Guardian` | the key check, the parameter construction and the result-to-article mapping of the Guardian `fetch` |
| `Models` | the tables as records, the store as one record of tables, the unique constraints, the column defaults, `to_dict` and the `__repr__` marker |
| `Storage` | `load_existing_hashes` and `save_articles` over a database that is reachable or not |
| `Ingest` | load the hashes, deduplicate, then save (the pipeline that connects the three) |
| `MigrateCsv` | the CSV import: skip by hash, field mapping, one all-or-nothing commit |
| `Seed` | the seed script: `SEED_SOURCES`, tiers, the default user, its tier change and its subscriptions |

Conventions:
- Library calls are function-typed parameters about which nothing is assumed beyond determinism:
  - SHA-256 is `sha`; it is not assumed injective.
  - `datetime.fromisoformat` is `parse`.
  - `parsedate_to_datetime` is `rfc2822`.
  - `feedparser.parse` is `feedparser`.
  - `requests.get` is `http`.
- `datetime.now()` is a parameter: `now` for the digest, and a `clock` indexed by kept-row number in deduplication.
- Timestamps are integer microseconds since the epoch. `datetime.min` in UTC is the constant `MIN_INSTANT`.
- A database commit checks the unique constraints of the table it touches. It either appends all its rows or appends none of them.
- Article, source, user and subscription ids are autoincrement values. No modelled code deletes a row, so the id of the row at position `i` is `i + 1`. Tier ids are explicit: the seed writes ids 1 and 2 itself.

## Model

| member | source | states |
|---|---|---|
| Dedup.Deduplicate | utils/dedup.py:9-38 | the single forward pass returns exactly the rows of the declarative definition (kept articles, stamped, in input order), and the seen set ends as the old set plus every fingerprint of the batch; at most one row per article |
| Dedup.KeptIffUnseen | utils/dedup.py:19-34 | article `i` is kept exactly when its fingerprint is neither in the initial seen set nor the fingerprint of an earlier article of the batch |
| Dedup.KeptIffFirstUnseen | utils/dedup.py:28-34 | a kept article is the first occurrence of its fingerprint in the batch and that fingerprint was unseen, and conversely |
| Dedup.LaterDuplicateDropped | utils/dedup.py:28-34 | of two articles of one batch with the same fingerprint, the later one is never returned |
| Dedup.NewRowsAreFreshAndDistinct | utils/dedup.py:28-34 | each returned row is its input article plus `hash` (its fingerprint) and `date_added` (the clock reading), other fields unchanged; returned hashes are pairwise distinct and not in the initial seen set |
| Dedup.Stamp | utils/dedup.py:30-32 | a kept row has the input's keys plus `date_added` and `hash`, with every other field unchanged |
| Dedup.SeenGrowsByKeptHashes | utils/dedup.py:28-34 | adding every batch fingerprint to the seen set adds exactly the hashes of the kept rows |
| Dedup.RerunReturnsNothing | utils/dedup.py:28-34 | running again on the same batch with the returned seen set yields no rows |
| Dedup.FingerprintDependsOnlyOnText | utils/dedup.py:20-24 | the fingerprint of an article depends on nothing but its headline followed by its lastModified: articles that agree on that text share a fingerprint whatever their other fields; under an injective digest, only such articles share one |
| Dedup.FingerprintIgnoresFieldBoundary | utils/dedup.py:20-24 | with no delimiter, ("ab", "c") and ("a", "bc") share a fingerprint, and so do a headline-only and a lastModified-only article with the same text |
| StableSort.SortDescCorrect | utils/email_service.py:99-100 | the sort is a permutation, orders by key descending, and is stable: the items of every key keep their input order |
| Decimal.NatToDecimalRoundTrip | utils/email_service.py:123 | the count in the subject is a non-empty digit string without leading zero that reads back as the count |
| EmailDigest.ArticleDt | utils/email_service.py:59-67 | an empty or unparseable lastModified gets the minimum sentinel and never an error; a non-empty one that parses (with "Z" read as "+00:00") gives exactly the parsed timestamp |
| EmailDigest.Classify | utils/email_service.py:86-96 | age ≤ 1 h (future times included) is "In the last hour", 1 h < age ≤ 6 h is "In the last 6 hours", anything older (over 24 h too) is "In the last 24 hours"; each an if-and-only-if |
| EmailDigest.BucketArticles | utils/email_service.py:70-103 | bucketing fails exactly when some timestamp parses without an offset, since the age subtraction then raises |
| EmailDigest.BucketArticlesPartition | utils/email_service.py:86-103 | the returned sections, concatenated, are a permutation of the input, so no article is lost or duplicated and the section sizes sum to the input length |
| EmailDigest.BucketArticlesPlacement | utils/email_service.py:86-96 | each section holds exactly the articles (with multiplicity) whose age classifies under its heading |
| EmailDigest.BucketArticlesDropsNothing | utils/email_service.py:86-103 | every input article appears in the section of its own heading |
| EmailDigest.BucketArticlesOrder | utils/email_service.py:98-103 | no section is empty; headings come in the fixed order hour, 6 hours, 24 hours, each at most once; every section is newest-first, and articles with equal timestamps keep their input order |
| EmailDigest.UnknownAgeIsLastDay | utils/email_service.py:59-67 | an article with an empty or unparseable lastModified gets the sentinel and lands in "In the last 24 hours" |
| EmailDigest.RenderCardAsWritten | utils/email_service.py:36-56 | the card shows "N/A" exactly for an empty lastModified; a non-empty unparseable one raises |
| EmailDigest.RenderCard | utils/email_service.py:40-46 | corrected card: "N/A" exactly when the age is unknown; otherwise it shows the parsed time; it agrees with the as-written card wherever that succeeds |
| EmailDigest.CardCountMatches | utils/email_service.py:130-136 | the rendered sections hold one card per article of the sections |
| EmailDigest.RenderCardsAsWritten | utils/email_service.py:131 | the cards of a section are rendered in order; rendering raises ValueError exactly when some article has a non-empty lastModified that `fromisoformat` rejects, and otherwise yields the corrected card of every article |
| EmailDigest.RenderSectionsAsWritten | utils/email_service.py:129-136 | rendering every section raises ValueError exactly when some article of some section is unrenderable, and otherwise yields each section rendered with the corrected cards |
| EmailDigest.SendEmailForUser | utils/email_service.py:106-146 | as written: no articles means no e-mail and nothing else; a naive timestamp raises TypeError, and only then; otherwise ValueError is raised exactly when some article has a non-empty lastModified that `fromisoformat` rejects; any composed e-mail is the one the corrected composer produces |
| EmailDigest.SendEmailForUserRejectsPassThroughDate | utils/email_service.py:40-46 | one article whose lastModified is "Monday", with a parser that rejects it, makes the e-mail raise ValueError as written, while the corrected composer sends it |
| EmailDigest.SendEmailForUserCorrected | utils/email_service.py:106-146 | with the corrected card: no articles means no e-mail and nothing else; a raise happens exactly on a naive timestamp and is a TypeError; otherwise the subject is "New Articles for NAME (COUNT)", the greeting is "Hi NAME," or "Hi," for an empty name, and the cards number exactly the articles |
| Rss.NormaliseDate | sources/rss.py:11-23 | an empty string is returned unchanged; an unparseable one passes through; one that parses becomes exactly its RFC 2822 parse, converted to UTC, in ISO form |
| Rss.SlicePrefix | sources/rss.py:54-55 | `entries[:n]` is a prefix of the length Python's slice rules give, including negative `n` |
| Rss.Fetch | sources/rss.py:26-80 | a parser exception gives no articles; otherwise one article per retained entry, in order, capped by a non-zero `max_items`; each has the five standard keys; title, link and section fall back as the source does (section to the first tag's term); lastModified prefers `published` even when empty, then `updated`, and is normalised |
| Guardian.RequestParams | sources/guardian.py:30-31 | the request parameters are the caller's (or the defaults when absent or empty) plus `api-key`, every other entry copied unchanged |
| Guardian.Fetch | sources/guardian.py:21-59 | an empty key fails with ValueError before any request, and only then; a failed request or a body without results gives no articles; otherwise one article per result, in order, from "The Guardian", headline and lastModified from `fields`, section and URL from the top level, each missing value "" |
| Models.NewSource | db/models.py:18-29 | a source built without section or active gets section "" and active true |
| Models.NewUser | db/models.py:76-84 | a user built from email and first name gets last name "", zone Europe/Berlin, schedule daily, tier 1, active |
| Models.SourceRepr | db/models.py:33-35 | the status character of a source's repr is a check mark exactly when the source is active |
| Models.UserRepr | db/models.py:92-94 | the status character of a user's repr is a check mark exactly when the user is active |
| Models.ToDict | db/models.py:57-67 | `to_dict` has exactly the seven standard keys |
| Models.DistinctAppend | db/models.py:27-121 | a commit that passes the unique check keeps a unique column unique |
| Storage.LoadExistingHashes | utils/storage.py:10-23 | the result is exactly the set of stored hashes, or empty when the read fails |
| Storage.SaveArticles | utils/storage.py:26-54 | an empty batch changes nothing; otherwise the rows are added all together or not at all; they are added exactly when the database is reachable and no hash would repeat; the stored hash set then grows by exactly the rows' hashes; the unique constraints are kept |
| Storage.FromRow | utils/storage.py:36-46 | a row saved and read back with `to_dict` gives each of the seven keys' value, or "" when it was missing |
| Storage.StoreThenToDictRoundTrip | utils/storage.py:36-46 | a row with exactly the seven stored keys, saved and read back with `to_dict`, comes back unchanged |
| Storage.ToDictThenStoreRoundTrip | db/models.py:57-67 | saving the dictionary of an article rebuilds that article |
| Ingest.Ingest | utils/storage.py:10-54 | the hash query and the save use separate sessions, so the read outcome is its own input. Against an unreachable database nothing changes. After a successful read, the rows that deduplication against the stored hashes returns always commit, only the articles table changes, and the stored hashes become the old ones plus every fingerprint of the batch. After a failed read the stored hashes read as empty, and the save commits exactly when the rows deduplicated against the empty set are non-empty and share no hash with a stored article; otherwise nothing changes |
| Ingest.FailedReadDropsBatch | utils/storage.py:19-52 | after a failed hash read, a batch with any article already stored stores nothing, new articles included: that article's copy reaches the commit, the unique hash fails it, and the rollback drops the whole batch |
| Ingest.IngestIsIdempotent | utils/dedup.py:28-34 | ingesting the same batch twice, with the same read outcome, stores what ingesting it once stores |
| Ingest.IngestKeepsHashWidth | db/models.py:50 | with a 64-character digest, every stored hash stays within the declared 64-character width, whatever the read outcome |
| MigrateCsv.Pending | db/migrate_csv.py:40-46 | only rows whose hash is not among the hashes read before the loop are inserted, and nothing else |
| MigrateCsv.PendingKeeps | db/migrate_csv.py:42-58 | every row whose hash was not stored before the loop is inserted |
| MigrateCsv.AddedPlusSkipped | db/migrate_csv.py:42-58 | added plus skipped equals the number of CSV rows |
| MigrateCsv.ToArticle | db/migrate_csv.py:48-56 | each stored column of an imported article is the CSV cell under the matching key, stringified (blank as "nan"), or "" when the key is missing |
| MigrateCsv.Migrate | db/migrate_csv.py:24-69 | a missing file changes nothing; otherwise the commit succeeds exactly when the new rows' hashes are pairwise distinct; on success exactly the pending rows are appended and added + skipped = rows; a failure is an integrity error and yields no new store |
| MigrateCsv.RerunAddsNothing | db/migrate_csv.py:5 | after a committed import, importing the same CSV again adds no row and skips every row |
| MigrateCsv.PendingAppend | db/migrate_csv.py:42-58 | the loop handles rows one at a time: the rows it queues from a concatenation are those queued from each part, in order |
| MigrateCsv.DuplicateNewHashesRollBack | db/migrate_csv.py:40-67 | because the hash set is read once before the loop and not updated inside it, any CSV in which two rows share a hash that is not stored yet queues both, fails its commit and rolls back |
| Seed.SeedUrlsDistinct | db/seed.py:18-59 | the 23 seed sources have pairwise distinct URLs |
| Seed.SeedSources | db/seed.py:73-83 | the source commit never fails; it appends the seed sources whose URL was not stored, in table order; added + skipped = `len(SEED_SOURCES)`; afterwards every seed URL is stored |
| Seed.SeedStoresEverySeedUrl | db/seed.py:73-83 | after seeding, whatever the outcome, every seed URL is stored |
| Seed.SeedTiers | db/seed.py:86-96 | the tier commit fails, with an integrity error, exactly when a seed tier whose id is missing has a name that is already stored; otherwise it appends the missing tiers and both seed tier ids are stored |
| Seed.Seed | db/seed.py:63-146 | the sources are always committed first; the whole seed fails exactly on that tier-name clash, with an integrity error, leaving the committed sources and nothing else; articles and deliveries are never touched |
| Seed.SeedStoresBothTiers | db/seed.py:86-96 | when no missing tier's name is already stored, seeding leaves tiers 1 and 2 stored |
| Seed.FindUser | db/seed.py:100 | the lookup finds the first user with the email, or reports that none has it |
| Seed.SeedUser | db/seed.py:98-118 | the user stage never fails; the default user is appended, with a tier change from none to 1, only when no user has its email, and otherwise nothing changes; afterwards the lookup by email finds the user whose id it returns |
| Seed.SeedCreatesDefaultUser | db/seed.py:98-118 | when the seed gets past the tiers, it appends the default user and its tier change from none to 1 exactly when no user had the email, and afterwards the user found by that email is the one whose id the subscriptions use |
| Seed.NewSubscriptions | db/seed.py:129-133 | each new subscription is the default user's, for an existing active source it was not subscribed to, in increasing source order |
| Seed.SeedSubscriptions | db/seed.py:120-139 | the subscription commit never fails; it keeps the stored subscriptions, adds only ones of the user to active sources, and leaves the user subscribed to every active source |
| Seed.SeedSubscribesActiveSources | db/seed.py:120-139 | when the seed gets past the tiers, the default user ends up subscribed to every active source |
| Seed.SeedSubscribesOnlyToActive | db/seed.py:120-139 | when the seed gets past the tiers, it keeps the old subscriptions and adds only the default user's subscriptions to active sources |
| Seed.SeedIsIdempotent | db/seed.py:4 | seeding again whatever a seed left gives the same outcome: after a success nothing is added, and after a failure the second run fails in the same way on the same store |
| Seed.SeedKeepsValid | db/seed.py:71-146 | seeding keeps every unique constraint of the schema |

## Left out

- Gmail transport and OAuth are not modelled: `_get_gmail_service`, MIME and base64 building, and the send call (utils/email_service.py:20-33, 148-167). They are network I/O behind libraries. The model stops at the composed e-mail.
- HTML markup, `html.escape`, `strftime` and the `ZoneInfo` conversion are not modelled; a card holds its fields and an abstract local time. An invalid timezone name makes `ZoneInfo` raise; that case is not modelled.
- Library parsers are parameters, and nothing about their results is assumed. A timestamp that parses without an offset is modelled as the `TypeError` that the age subtraction raises (utils/email_service.py:87). The model does not forbid such timestamps with a precondition.
- SHA-256 is a parameter, so its output width is assumed only in `Ingest.IngestKeepsHashWidth`.
- The HTTP call of the Guardian adapter is a parameter. It either fails or yields a decoded body; status codes and JSON decoding errors are not distinguished.
- SQLAlchemy sessions and the engine are not modelled. A commit fails only on a unique constraint; connection failures are modelled only for the storage read and write, and `Ingest` lets the read fail while the write succeeds. `date_added`/`created_at` defaults from the clock are not modelled.
- pandas reading is not modelled: a cell is text or blank, and a blank reads as "nan". Numeric type inference (a hash read as a number) is not modelled.
- `datetime.now()` is the parameter `now` or `clock`.
- main.py is not part of this model. It calls storage helpers with arguments they do not take and imports a function that does not exist (main.py:10, 98, 102). The `Ingest` module composes the three helpers as their signatures allow.
- The testing scripts are not part of this model.
- No per-user pending-article selection or delivery recording exists in the source. Only the `user_deliveries` table and its unique pair are modelled.
- `UserPayment` and any tier semantics beyond what the seed script writes are not modelled; no code uses them.
- The 64-character hash width is not checked by a commit, since SQLite does not enforce `String(64)`. It is stated as a property that the pipeline keeps.
- The feed's `bozo` flag only causes a warning to be logged, so it is ignored.
- `__repr__` of articles, subscriptions, tiers, tier changes and payments is not modelled; only the active marker of sources and users is.
- Guardian.Fetch: a JSON `null` is read as a missing key. As written, a `null` "response" raises AttributeError (sources/guardian.py:39), a `null` "results" raises TypeError when iterated (sources/guardian.py:46), and a `null` "fields" raises AttributeError (sources/guardian.py:51). A `null` leaf such as `"headline": null` puts `None` into the article instead of "". The model promises none of these behaviours, because its JSON values have no `null`.
- EmailDigest.SendEmailForUser: the ZoneInfo lookup, the Gmail service construction and the clock reading come before bucketing (utils/email_service.py:121-125). Their failures are not modelled, so the model's raise order covers only bucketing and card rendering.
- NULL columns are not modelled: every nullable article column holds a string, "" where the source writes an empty default.

## Findings

| source | as written | input that shows it | evidently intended | confidence | as-written member | corrected member |
|---|---|---|---|---|---|---|
| utils/email_service.py:40-46 | `_render_article_card` passes a non-empty lastModified to `fromisoformat` outside any try, so an unparseable one raises ValueError and aborts the e-mail. Yet bucketing (utils/email_service.py:59-67) accepts it as the sentinel, and the RSS normaliser passes such strings through (sources/rss.py:22-23). | an RSS entry whose `published` is "Monday" | the card shows "N/A" whenever the age is unknown, as bucketing treats it | not executed | EmailDigest.RenderCardAsWritten, EmailDigest.RenderCardAsWrittenRejectsPassThroughDate, EmailDigest.SendEmailForUser, EmailDigest.SendEmailForUserRejectsPassThroughDate | EmailDigest.RenderCard, EmailDigest.SendEmailForUserCorrected |
