# ETL ingestion and migration core, modelled in Dafny

This project models the ingestion and migration pipeline of the `etl/` scripts. That pipeline has four parts:

- **Catalog walk.** It walks a paginated remote catalog of clinical-record bundles.
- **Download worker.** It stages every file not yet in the ledger of processed files. It queues each file's path, then a sentinel.
- **Load worker.** It drains the queue. It loads each bundle's first Patient and its condition and medication labels into a primary store, then records the file in the ledger.
- **Migration.** Later, the primary store is migrated into PostgreSQL.

There are three variants of the pipeline, and each has its own module:

- `etl/loader_pipeline.py` and `etl/loader.py` share the ingestion code. That code loads into SQLite, sanitises labels, swallows duplicate ledger writes and puts the sentinel back on the queue.
  - `loader_pipeline.py` migrates with a validated bulk COPY and then refreshes aggregate tables.
  - `loader.py` migrates row by row with `ON CONFLICT DO NOTHING`, behind a menu check on existing tables.
- `etl/loaderpost.py` loads straight into PostgreSQL. It does not sanitise labels, its ledger write raises on a duplicate, it has no rollback and it consumes the sentinel.

Modules:

- `Base`: `Option`.
- `Decimal`: decimal rendering of naturals.
- `Sanitize`: `clean_text`.
- `Duration`: `format_time`, with a reader as its inverse.
- `Fhir`: the parsed bundle and the Patient search.
- `Store`: the table contents and the queue items.
- `Catalog`: both catalog variants.
- `SqliteIngest`: ingestion of `loader_pipeline.py` and `loader.py`.
- `PostgresIngest`: ingestion of `loaderpost.py`.
- `Migration`: the bulk migration and the aggregates of `loader_pipeline.py`.
- `RowMigration`: the row-by-row migration and the migration choice of `loader.py`.

The two workers are run one after the other. The download worker produces the whole queue, and the load worker consumes it. The stores are values, in the `Store` datatypes, held in classes (`PrimaryStore`, `PgStore`, `SecondaryStore`, `PostgresDatabase`). The methods of those classes update the store in place and are proved against the functions that specify them.

Notes on the code's behaviour:

- **The ledger write is not part of the file's transaction.** The rows are committed, and then `mark_file_as_processed` commits the ledger entry separately (`etl/loader_pipeline.py:964-965`). `SqliteIngest.RetryAfterLostMarkDuplicatesRows` states what this means for a retry.
- **The aggregates are upserted, not replaced.** A label that drops out of the top ten keeps its old row (`Migration.RefreshAggregatesIdempotent`).
- **SQLite accepts a NULL `patient_id` in `patients`.** It treats NULLs as distinct, so `INSERT OR IGNORE` with a NULL id always adds a row. The SQLite store therefore holds the NULL-id patients in a separate sequence (`Store.Tables.nullIdPatients`).
- **The SQLite load worker puts the sentinel back on the queue.** This matters across runs of the main loop (Findings, row 3).
- **`get_postgres_connection` of `etl/loader.py` passes a `schema` keyword to `psycopg2.connect`.** libpq does not accept it. The model does not decide this: whether the connection opens is a parameter (`reachable`).
- **`ORDER BY count DESC LIMIT 10` leaves ties in an unspecified order.** The model keeps the first maximal group. The proved properties hold for any order of ties.

## Model

| member | source | states |
|---|---|---|
| Sanitize.CleanText | etl/loader_pipeline.py:898-900 | the result has the input's length; each character is the input's, except that '/' and '\\' become '-', '[' becomes '(' and ']' becomes ')'; no separator is left (the same function at etl/loader.py:329-331) |
| Sanitize.Replace | etl/loader_pipeline.py:900 | `str.replace` of one character: same length, every occurrence of the target replaced, all else kept |
| Sanitize.CleanChar | etl/loader_pipeline.py:900 | a cleaned character is never a separator and a non-separator is kept |
| Sanitize.CleanTextKeepsClean | etl/loader_pipeline.py:898-900 | a label without separators is returned unchanged |
| Sanitize.CleanTextIdempotent | etl/loader_pipeline.py:898-900 | cleaning twice equals cleaning once |
| Decimal.NatToString | etl/loader_pipeline.py:388-391 | the f-string rendering of a count is a non-empty string of decimal digits |
| Duration.FormatTime | etl/loader_pipeline.py:382-393 | `format_time`: the non-zero hour, minute and second parts joined by spaces, or "0s"; its properties are in the rows below |
| Duration.FormatTimeRoundTrip | etl/loader_pipeline.py:382-393 | reading back what `format_time` prints gives the seconds, except that the seconds are dropped once there is an hour part |
| Duration.FormatTimeZeroIff | etl/loader_pipeline.py:382-393 | "0s" is printed exactly for zero seconds |
| Duration.FormatTimeDropsSeconds | etl/loader_pipeline.py:382-393 | 3661 seconds print as "1h 1m" |
| Duration.ScanNumber | etl/loader_pipeline.py:387-391 | reading the printed digits of n yields n |
| Duration.ScanToken | etl/loader_pipeline.py:387-391 | reading one printed `<n>h`, `<n>m` or `<n>s` token adds 3600n, 60n or n |
| Duration.ParseHoursMinutes | etl/loader_pipeline.py:387-389 | "<h>h <m>m" reads back as 3600h + 60m |
| Duration.ParseMinutesSeconds | etl/loader_pipeline.py:389-391 | "<m>m <s>s" reads back as 60m + s |
| Fhir.FindPatient | etl/loader_pipeline.py:925-929 | the first Patient entry found by the generator search; its properties are in `FindPatientSpec` |
| Fhir.FindPatientSpec | etl/loader_pipeline.py:925-929 | the generator search finds nothing exactly when every entry is a non-Patient object, raises exactly when it reaches a malformed entry, and otherwise returns the first Patient entry's id and gender |
| Catalog.KeptNames | etl/loader_pipeline.py:831-834 | a name is kept exactly when some item of the page is an object of type 'file' whose name ends in ".json" |
| Catalog.Dedup | etl/loader_pipeline.py:841 | the dict keyed by name holds each name once and exactly the names listed |
| Catalog.RemoteFiles | etl/loader_pipeline.py:813-845 | `get_remote_files`: the distinct eligible names of the requested pages, or None on a failed request; specification of `GetRemoteFiles`, whose properties `RemoteFilesSpec` states |
| Catalog.WalkFromSpec | etl/loader_pipeline.py:820-840 | the walk fails exactly when a requested page fails; otherwise it holds exactly the kept names of the requested pages, where a page is requested while every earlier one was non-empty and had a 'next' link |
| Catalog.RemoteFilesSpec | etl/loader_pipeline.py:813-845 | `get_remote_files` is None exactly when a requested page fails, otherwise the distinct eligible names of the requested pages |
| Catalog.GetRemoteFiles | etl/loader_pipeline.py:813-845 | the paginated loop returns `RemoteFiles(pages)` (the same loop at etl/loader.py:227-259) |
| Catalog.PostKeptNames | etl/loaderpost.py:121-124 | the `f['type']`/`f['name']` filter raises exactly when some item is not an object, has no 'type', or is a file without 'name'; otherwise it keeps the same names as the guarded filter |
| Catalog.PostWalkAgrees | etl/loaderpost.py:104-135 | on pages where the unguarded filter cannot raise, the `loaderpost.py` walk equals the guarded walk; a failed request fails both |
| Catalog.PostWalkFailsIfMalformed | etl/loaderpost.py:121-124 | an item that is not an object, has no type, or is a file without a name, on any page the walk requests, makes the whole walk raise |
| Catalog.PostRemoteFilesAgree | etl/loaderpost.py:104-135 | any failure yields the empty catalog `{}`: a page request that fails, or an item on a requested page that the unguarded filter cannot read; on well-formed listings the result is the guarded catalog |
| Catalog.PostRemoteFiles | etl/loaderpost.py:104-135 | `get_remote_files` of `loaderpost.py`: the distinct eligible names, or `{}` on any exception; specification of `PostGetRemoteFiles`, related to `RemoteFiles` by `PostRemoteFilesAgree` |
| Catalog.PostGetRemoteFiles | etl/loaderpost.py:104-135 | the paginated loop of `loaderpost.py` returns `PostRemoteFiles(pages)` |
| Store.RowsFor | etl/loader_pipeline.py:944-962 | the rows a file appends: one per label, in label order, each carrying the file's patient id |
| SqliteIngest.Extract | etl/loader_pipeline.py:944-962 | the entry loop: the cleaned condition and medication texts, or a raise; specification of `Ingestion.InsertEntryRows`, with its properties in the rows below |
| SqliteIngest.ExtractStepRows | etl/loader_pipeline.py:944-962 | one readable entry adds exactly the cleaned non-empty Condition or MedicationRequest text it carries and at most one row |
| SqliteIngest.ExtractRaisesIff | etl/loader_pipeline.py:944-962 | the entry loop raises exactly when some entry cannot be read |
| SqliteIngest.ExtractConditionsSpec | etl/loader_pipeline.py:948-954 | a completed loop inserts a condition row for exactly the entries with a non-empty cleaned text, at most one row per entry, and the inserted list is the cleaned non-empty condition texts in bundle order |
| SqliteIngest.ExtractMedicationsSpec | etl/loader_pipeline.py:956-962 | likewise for medication rows, the inserted list being the cleaned non-empty medication texts in bundle order |
| SqliteIngest.ExtractRowsInOrder | etl/loader_pipeline.py:944-962 | a completed loop inserts exactly the cleaned non-empty texts, one row per entry at most, in bundle order, as a first-to-last reference filter lists them |
| SqliteIngest.ExtractRaisesExtends | etl/loader_pipeline.py:944-962 | once an entry raises, the rest of the bundle cannot undo it |
| SqliteIngest.InsertPatientFirstWins | etl/loader_pipeline.py:938-942 | `INSERT OR IGNORE` keeps the gender of an existing id, adds a new id with its gender, and changes no other patient or table |
| SqliteIngest.ProcessOne | etl/loader_pipeline.py:913-976 | one queued path: ledger check, bundle read, Patient search, inserts, commit and ledger write; specification of `Ingestion.ProcessFile`, with its properties in the rows below |
| SqliteIngest.ProcessOneSpec | etl/loader_pipeline.py:909-974 | a file already in the ledger, a bundle without Patient and a failing file leave every table unchanged; a file is processed exactly when it is new and loads; the ledger grows by the name exactly then, and never shrinks |
| SqliteIngest.ProcessedAppends | etl/loader_pipeline.py:935-967 | a processed file keeps the first patient row for its id (gender defaulting to 'unknown'), appends exactly its cleaned non-empty condition and medication texts in bundle order under that id, and adds its name to the ledger |
| SqliteIngest.ProcessOneKeepsRefIntegrity | etl/loader_pipeline.py:935-965 | loading a file never leaves a condition or medication row whose non-NULL patient id has no patient row |
| SqliteIngest.Consume | etl/loader_pipeline.py:902-979 | `process_files`: items taken until the sentinel, which is put back; specification of `Ingestion.ProcessFiles`, with its properties in the rows below |
| SqliteIngest.ConsumeFinishesIff | etl/loader_pipeline.py:902-912 | `process_files` returns exactly when a sentinel is on the queue |
| SqliteIngest.ConsumeKeeps | etl/loader_pipeline.py:902-979 | draining the queue keeps referential integrity and never removes a ledger entry |
| SqliteIngest.ConsumeMarksLoaded | etl/loader_pipeline.py:902-979 | every queued file ahead of the sentinel whose bundle loads is in the ledger afterwards |
| SqliteIngest.ConsumeNoOp | etl/loader_pipeline.py:915-933 | when every queued file is in the ledger or does not load, no table changes and no file is counted |
| SqliteIngest.SecondPassChangesNothing | etl/loader_pipeline.py:915-918 | draining the same queue over the same files again changes no table and counts no file |
| SqliteIngest.RetryAfterLostMarkDuplicatesRows | etl/loader_pipeline.py:964-965 | with the rows committed but the ledger write lost, a retry appends the same rows a second time |
| SqliteIngest.WorkList | etl/loader_pipeline.py:859-864 | the work list is exactly the catalog names not in the ledger, no longer than the catalog |
| SqliteIngest.FetchAll | etl/loader_pipeline.py:871-889 | the fetch loop over the work list; specification of `Ingestion.FetchEach`, with `FetchAllSpec` and `FetchAllQueue` stating what it does |
| SqliteIngest.FetchAllSpec | etl/loader_pipeline.py:871-889 | the fetch loop appends one path per successfully fetched name, in work-list order, stages its bundle, counts it, and keeps the queue before it |
| SqliteIngest.FetchAllQueue | etl/loader_pipeline.py:871-889 | the queue gains exactly one path per successfully fetched name, in work-list order, and nothing else; `downloaded_count` grows by their number |
| SqliteIngest.DownloadSpec | etl/loader_pipeline.py:847-896 | `download_files`: nothing for an unavailable or empty catalog, otherwise the fetch loop followed by the sentinel; specification of `Ingestion.DownloadFiles`, with its properties in the rows below |
| SqliteIngest.DownloadSpecQueue | etl/loader_pipeline.py:847-896 | with a non-empty catalog the queue becomes the old queue, then one path per unprocessed, fetched name in catalog order, then the sentinel, last |
| SqliteIngest.EmptyCatalogBlocksLoadWorker | etl/loader_pipeline.py:855-857 | as written: with an unavailable or empty catalog nothing is queued and the load worker never returns |
| SqliteIngest.DownloadTerminatedEndsLoadWorker | etl/loader_pipeline.py:847-896 | corrected: with the sentinel queued on every path the load worker always returns, and with a non-empty catalog the queue is as written |
| SqliteIngest.StaleSentinelSkipsNextRun | etl/loader_pipeline.py:909-912 | as written: the sentinel left on the queue by a run ends the next run's load worker before any of its files |
| SqliteIngest.NoReenqueueNextRunLoads | etl/loader_pipeline.py:909-912 | corrected: without the re-put the queue is empty after a run, and the next run loads every new fetched file that loads |
| SqliteIngest.TwoFileRun | etl/loader_pipeline.py:847-979 | a catalog of a valid bundle and one without Patient, loaded into an empty store, gives one patient, one condition row, only the first file in the ledger, one processed and no error |
| SqliteIngest.ReadEntry | etl/loader_pipeline.py:945-956 | what one entry yields: its cleaned text and whether it is a condition, agreeing with one step of the entry loop |
| SqliteIngest.PrimaryStore.IsFileProcessed | etl/loader_pipeline.py:794-800 | true exactly when the name is in the ledger (the same query at etl/loader.py:208-214) |
| SqliteIngest.PrimaryStore.MarkFileAsProcessed | etl/loader_pipeline.py:802-811 | a new name is added and committed; a name already present leaves the content at its last commit and raises nothing (the same handler at etl/loader.py:216-225) |
| SqliteIngest.PrimaryStore.InsertPatientOrIgnore | etl/loader_pipeline.py:938-942 | the content becomes `InsertPatient` of the old content, uncommitted |
| SqliteIngest.PrimaryStore.InsertCondition | etl/loader_pipeline.py:950-953 | appends one condition row, uncommitted |
| SqliteIngest.PrimaryStore.InsertMedication | etl/loader_pipeline.py:958-961 | appends one medication row, uncommitted |
| SqliteIngest.PrimaryStore.Commit | etl/loader_pipeline.py:964 | the pending content becomes the committed content |
| SqliteIngest.PrimaryStore.Rollback | etl/loader_pipeline.py:974 | the content returns to the last commit |
| SqliteIngest.Ingestion.Unprocessed | etl/loader_pipeline.py:859-864 | returns the work list of the catalog against the store's ledger |
| SqliteIngest.Ingestion.FetchEach | etl/loader_pipeline.py:871-889 | the queue, the staged files and `downloaded_count` become `FetchAll` of their old values; the other counters are unchanged |
| SqliteIngest.Ingestion.DownloadFiles | etl/loader_pipeline.py:847-896 | the queue, staged files and download count become `DownloadSpec` of the catalog and the ledger (the same worker at etl/loader.py:278-327) |
| SqliteIngest.Ingestion.InsertEntryRows | etl/loader_pipeline.py:944-962 | succeeds exactly when no entry raises, and then appends the rows of `Extract(entries)`, uncommitted |
| SqliteIngest.Ingestion.ProcessFile | etl/loader_pipeline.py:913-976 | one queued path: result and tables are `ProcessOne`'s; `processed_count` grows exactly on success and `errors_count` exactly on failure |
| SqliteIngest.Ingestion.ProcessFiles | etl/loader_pipeline.py:902-979 | tables, queue and counters become `Consume` of the old ones, with the sentinel put back (the same worker at etl/loader.py:333-410) |
| PostgresIngest.PostExtract | etl/loaderpost.py:215-231 | the entry loop of `loaderpost.py`: the texts as read, and whether it stopped on a raise; specification of `PostIngestion.InsertEntryRows` |
| PostgresIngest.PostExtractSpec | etl/loaderpost.py:215-231 | the entry loop stops on a raise exactly when some entry cannot be read; otherwise a text is in the condition rows exactly when some entry holds it as a non-empty raw condition text, unsanitised |
| PostgresIngest.PostExtractInOrder | etl/loaderpost.py:215-231 | a loop that runs through inserts exactly the non-empty raw condition and medication texts, in bundle order, as a first-to-last reference filter lists them |
| PostgresIngest.PostExtractRaisedExtends | etl/loaderpost.py:215-231 | after a raise the remaining entries change nothing |
| PostgresIngest.MarkTwiceRaises | etl/loaderpost.py:97-102 | the ledger write raises exactly for a name already present, and the second write of a name raises and aborts the transaction |
| PostgresIngest.PostProcessOne | etl/loaderpost.py:186-239 | one queued path of `loaderpost.py`, with the transaction's aborted state; specification of `PostIngestion.ProcessFile` |
| PostgresIngest.PostProcessOneSpec | etl/loaderpost.py:186-237 | from a settled connection a file already in the ledger or without Patient changes nothing and nothing crashes; a failed file commits nothing and leaves the ledger as it was; a processed file keeps the first patient row, stores its texts as read, and is in the ledger, all committed |
| PostgresIngest.PostProcessedInOrder | etl/loaderpost.py:209-233 | a processed file commits exactly its non-empty raw condition and medication texts, in bundle order, under its patient's id |
| PostgresIngest.NullIdKillsLoadWorker | etl/loaderpost.py:187-211 | as written: a Patient with no id aborts the transaction, and the next `is_file_processed` raises outside the `try`; the worker dies with nothing more committed |
| PostgresIngest.FailedRowsCommittedByNextFile | etl/loaderpost.py:236-237 | as written: the rows of a file that raises stay in the open transaction and are committed with the next file, without a ledger entry |
| PostgresIngest.RollbackMakesFilesAtomic | etl/loaderpost.py:179-239 | corrected: with a rollback in the `except` branch the worker never dies, the connection stays settled, and the ledger only grows |
| PostgresIngest.PostFileAtomic | etl/loaderpost.py:191-237 | corrected, one file: a failure leaves the session as it was, and success puts the file in the ledger |
| PostgresIngest.PostConsume | etl/loaderpost.py:179-239 | `process_files` of `loaderpost.py`: items taken until the sentinel, which is consumed; specification of `PostIngestion.ProcessFiles` |
| PostgresIngest.PostConsumeTakesSentinel | etl/loaderpost.py:181-184 | with a terminated queue the worker does not block, and when it ends it has consumed the sentinel without putting it back |
| PostgresIngest.PostDownloadSpec | etl/loaderpost.py:145-177 | `download_files(conn)`: the fetch loop over the catalog names not in the ledger, then the sentinel; specification of `PostIngestion.DownloadFiles` |
| PostgresIngest.PostDownloadQueue | etl/loaderpost.py:145-177 | an empty catalog leaves the queue and staged files as they were; otherwise the queue becomes the old queue, one path per unprocessed, fetched name in catalog order, then the sentinel |
| PostgresIngest.CatalogFailureBlocksLoadWorker | etl/loaderpost.py:145-151 | as written: when the catalog is `{}`, after a failure or because it lists nothing, nothing is queued and the load worker blocks |
| PostgresIngest.PgStore.IsFileProcessed | etl/loaderpost.py:89-95 | raises exactly on an aborted transaction, otherwise answers ledger membership |
| PostgresIngest.PgStore.InsertPatientOnConflictDoNothing | etl/loaderpost.py:209-212 | a NULL id raises and aborts the transaction; otherwise the first row for the id is kept |
| PostgresIngest.PgStore.InsertCondition | etl/loaderpost.py:222-224 | appends one condition row to the open transaction |
| PostgresIngest.PgStore.InsertMedication | etl/loaderpost.py:229-231 | appends one medication row to the open transaction |
| PostgresIngest.PgStore.Commit | etl/loaderpost.py:233 | the open transaction's tables become the committed ones |
| PostgresIngest.PgStore.Rollback | etl/loaderpost.py:236-237 | corrected path only: the open transaction is discarded |
| PostgresIngest.PgStore.MarkFileAsProcessed | etl/loaderpost.py:97-102 | the connection and the raise are as `MarkOutcome` says |
| PostgresIngest.PostIngestion.Fetch | etl/loaderpost.py:163-175 | a fetched name is staged and queued; a failed fetch removes the partial file and queues nothing |
| PostgresIngest.PostIngestion.DownloadFiles | etl/loaderpost.py:145-177 | the queue and staged files become `PostDownloadSpec` of the catalog and the ledger: unprocessed fetched names, then the sentinel, or nothing when the catalog is empty |
| PostgresIngest.PostIngestion.InsertEntryRows | etl/loaderpost.py:215-231 | stops exactly when `PostExtract` raises, having appended its rows so far to the open transaction |
| PostgresIngest.PostIngestion.ProcessFile | etl/loaderpost.py:186-239 | result and session are those of `PostProcessOne` without rollback |
| PostgresIngest.PostIngestion.ProcessFiles | etl/loaderpost.py:179-239 | session, queue and ending become `PostConsume` of the old ones |
| Migration.OrphanIdsEmptyIff | etl/loader_pipeline.py:340-372 | the orphan queries come back empty exactly when every row's patient id names a patient |
| Migration.OrphanPatientIds | etl/loader_pipeline.py:340-355 | the scan returns the set of orphan ids of the table |
| Migration.InvalidPatients | etl/loader_pipeline.py:327-338 | one entry per patient row whose id is NULL or '', and only such ids |
| Migration.ValidateDataForPostgres | etl/loader_pipeline.py:319-375 | returns true exactly when no patient id is NULL or empty and no condition or medication row is an orphan |
| Migration.ValidIffIntegrityWithoutNulls | etl/loader_pipeline.py:319-375 | the validation accepts exactly the stores with referential integrity, no NULL or empty patient id and no NULL row patient id |
| Migration.CleanCellSpec | etl/loader_pipeline.py:496-504 | a cleaned cell has no line break, None becomes '', and otherwise each '\r' or '\n' becomes a space at the same length |
| Migration.StoredRoundTrip | etl/loader_pipeline.py:515-520 | through COPY with `NULL ''`, NULL and '' come back NULL, and a non-empty single-line value comes back unchanged |
| Migration.CleanCellIdempotent | etl/loader_pipeline.py:496-504 | cleaning a cleaned cell changes nothing |
| Migration.CleanBatch | etl/loader_pipeline.py:496-504 | every item of every row of the batch is replaced by its cleaned cell, shape kept |
| Migration.CopyAll | etl/loader_pipeline.py:466-534 | the four table COPYs, each committed or rolled back on its own; a failed COPY keeps the table as it was; `CopyAllKeepsReferences` and `CopyAllSucceeds` state what it does |
| Migration.CopyAllKeepsReferences | etl/loader_pipeline.py:466-534 | whatever COPYs fail, every copied condition and medication row names a stored patient |
| Migration.CopyIntoEmptySucceeds | etl/loader_pipeline.py:466-534 | into an empty store every COPY of a validated source succeeds with the cleaned patients, rows and ledger |
| Migration.CopyIntoEmptyRoundTrip | etl/loader_pipeline.py:466-534 | when every value is a non-empty single line, the PostgreSQL tables hold exactly the SQLite rows |
| Migration.CopiedRowsReferToCleaned | etl/loader_pipeline.py:466-534 | rows that match a patient still match after cleaning |
| Migration.CheckMigrationStatus | etl/loader_pipeline.py:280-317 | raises exactly without a connection; reads migrated exactly when the query succeeds, the schema and four tables exist and each table has a row |
| Migration.CountOfPositive | etl/loader_pipeline.py:679-704 | a label's COUNT(*) is positive exactly when a row carries it |
| Migration.GroupedSpec | etl/loader_pipeline.py:679-704 | `GROUP BY label` gives one group per distinct label, each with its count |
| Migration.ArgMax | etl/loader_pipeline.py:679-704 | the chosen group has the largest count |
| Migration.TopKLength | etl/loader_pipeline.py:679-704 | `LIMIT k` keeps min(k, number of groups) groups |
| Migration.TopKMembers | etl/loader_pipeline.py:679-704 | only existing groups are kept |
| Migration.TopKSorted | etl/loader_pipeline.py:679-704 | the kept groups are in non-increasing count order |
| Migration.TopKOmitted | etl/loader_pipeline.py:679-704 | no omitted group has a larger count than a kept one |
| Migration.TopKAll | etl/loader_pipeline.py:679-704 | with at most k groups every group is kept |
| Migration.TopKDistinct | etl/loader_pipeline.py:679-704 | the kept groups have distinct labels |
| Migration.AsMapSpec | etl/loader_pipeline.py:685-690 | the upserted rows give one key per fetched label, each with its fetched count |
| Migration.TopTen | etl/loader_pipeline.py:679-704 | `GROUP BY text ORDER BY count DESC LIMIT 10`; its properties are in the four rows below |
| Migration.TopTenBound | etl/loader_pipeline.py:679-704 | an aggregate holds at most 10 labels |
| Migration.TopTenCounts | etl/loader_pipeline.py:679-704 | each kept label occurs in the source with exactly the stored count |
| Migration.TopTenOmitted | etl/loader_pipeline.py:679-704 | every omitted label's count is at most every kept label's count |
| Migration.TopTenAll | etl/loader_pipeline.py:679-704 | with at most ten distinct labels every label is kept |
| Migration.GenderStats | etl/loader_pipeline.py:707-716 | `SELECT gender, COUNT(*) FROM patients GROUP BY gender`; its properties are in `GenderStatsSpec` |
| Migration.GenderStatsSpec | etl/loader_pipeline.py:707-716 | every patient row's gender has a group, including NULL-id rows, and every group count is positive |
| Migration.UpsertAll | etl/loader_pipeline.py:685-716 | the upsert loop leaves the table overridden by the fetched rows |
| Migration.UpsertOnlyTouchesItsKeys | etl/loader_pipeline.py:685-716 | an upsert writes the count of each fetched key, leaves every other key as it was, and upserting again changes nothing |
| Migration.RefreshAggregates | etl/loader_pipeline.py:661-731 | `migrate_aggregated_data_to_postgres`: the three aggregates upserted and committed together after the schema is ensured; specification of `SecondaryStore.MigrateAggregatedData` |
| Migration.RefreshAggregatesIdempotent | etl/loader_pipeline.py:661-731 | refreshing twice equals refreshing once, a label that left the top ten keeps its old row, and no copied table changes |
| Migration.Migrate | etl/loader_pipeline.py:537-648 | every early return leaves PostgreSQL untouched; the copy step is reached exactly when the store reads not migrated, SQLite opens, validation passes and the answer is 'S'; an already-migrated store is reported exactly when the probe says so; a rejection means the validation failed; a raise means no connection |
| Migration.MigrateIntoEmpty | etl/loader_pipeline.py:537-648 | the first run into an empty store completes with the schema, the cleaned tables and, when reached, the top-ten and gender aggregates |
| Migration.MigrateAgainIsNoOp | etl/loader_pipeline.py:539-541 | with every source table non-empty a second run reports already migrated and changes nothing |
| Migration.RerunAfterEmptyTableDuplicatesRows | etl/loader_pipeline.py:280-317 | as written: with conditions but no medications a second run copies again, fails on patients, and leaves every condition row twice |
| Migration.CorrectedStatus | etl/loader_pipeline.py:280-317 | corrected probe: a table counts as migrated when it has rows or its source table is empty |
| Migration.CorrectedStatusAgrees | etl/loader_pipeline.py:280-317 | the corrected probe answers as the original whenever every source table has rows |
| Migration.MigrateCorrected | etl/loader_pipeline.py:537-648 | the gate with the corrected probe: early returns change nothing, and already-migrated is reported exactly when the corrected probe says so |
| Migration.CorrectedRerunIsNoOp | etl/loader_pipeline.py:537-648 | with the corrected probe a completed migration is never repeated, whichever tables are empty |
| Migration.SecondaryStore.CreatePostgresSchema | etl/loader_pipeline.py:114-278 | the schema and every required and aggregate table exist afterwards; nothing else changes |
| Migration.SecondaryStore.MigrateAggregatedData | etl/loader_pipeline.py:661-731 | the store becomes `RefreshAggregates` of the old one |
| Migration.SecondaryStore.MigrateToPostgres | etl/loader_pipeline.py:537-648 | the outcome and the new store are `Migrate` of the old store |
| RowMigration.MergedPatients | etl/loader.py:168-174 | `ON CONFLICT DO NOTHING`: the keys are the union, existing rows keep their gender and new ids take the source's |
| RowMigration.RowMigrate | etl/loader.py:159-205 | `migrate_to_postgres` of `loader.py`: the schema committed first, then the rows inserted with `ON CONFLICT DO NOTHING`; specification of `PostgresDatabase.MigrateToPostgres`, with its properties in the rows below |
| RowMigration.RowMigrateOutcome | etl/loader.py:159-205 | the run commits exactly when the connection opens, no patient id is NULL and every row names a merged patient; a failure leaves the rows as they were; with a connection the tables exist afterwards |
| RowMigration.RowMigrateKeepsReferences | etl/loader.py:159-205 | the foreign key holds after a run whenever it held before |
| RowMigration.RowMigrateRerun | etl/loader.py:168-198 | a second run succeeds with patients and ledger unchanged, while every condition and medication row is inserted once more |
| RowMigration.TablesExist | etl/loader.py:436-452 | true exactly when connected and all four required tables are in the schema |
| RowMigration.MigrationChoice | etl/loader.py:454-465 | the migration runs exactly for the answer 'S' with the tables missing; otherwise nothing changes |
| RowMigration.ChoiceAfterAttemptDoesNotMigrate | etl/loader.py:436-465 | after any attempt that reached the database, even one that failed, a later 'S' reports already migrated and changes nothing |
| RowMigration.InsertRows | etl/loader.py:177-190 | the row inserts succeed exactly when every row names a patient, and then append the rows in order |
| RowMigration.InsertPatients | etl/loader.py:168-174 | the patient insert loop produces `MergedPatients` |
| RowMigration.InsertFiles | etl/loader.py:193-198 | the ledger becomes the union of old and new names |
| RowMigration.PostgresDatabase.MigrateToPostgres | etl/loader.py:159-205 | the outcome and the new database are `RowMigrate` of the old one |
| RowMigration.PostgresDatabase.HandleMigrationChoice | etl/loader.py:454-465 | the outcome and the new database are `MigrationChoice` of the old one |

## Left out

- Threads, `queue.Queue`, `counter_lock` and `task_done`: the two workers run one after the other. The doubled `task_done` on the no-Patient path is queue bookkeeping and is not modelled.
- HTTP requests, status codes and timeouts: catalog pages are given as values, and each fetch as a success or failure.
- JSON parsing: bundles are already-parsed values. A file that cannot be read or parsed is `Unreadable`.
- The parallel execution of the four COPYs: they run in submission order. Each table's outcome can be broken through a parameter.
- The temporary CSV files and `copy_expert`: only the cell cleaning and the reading of `NULL ''` are modelled.
- `disable_indexes` and `rebuild_indexes`: they depend on the `pg_indexes` catalog and do not change table content.
- DDL failures, PRAGMA and SET tuning: `create_postgres_schema` is modelled by the tables it creates.
- Migration.GenderStatsSpec: a JSON-null gender is not modelled. `patient.get('gender', 'unknown')` returns None for an explicit null (etl/loader_pipeline.py:936), so the store can hold a NULL gender. `gender_stats` has `gender TEXT PRIMARY KEY` (etl/loader_pipeline.py:176-177), so the upsert of a NULL group raises, and the `except` at etl/loader_pipeline.py:722-723 rolls back all three aggregate upserts. Genders are strings in this model, so there is no NULL group and this failure is not captured.
- Fhir.GenderOrUnknown, SqliteIngest.InsertPatient and Migration.RefreshAggregates: for the same reason the gender of a `Fhir.Patient` is a string or absent, never JSON null (an absent gender becomes 'unknown'). A store holding a NULL gender, and the failed and rolled-back aggregate refresh it causes, are not modelled.
- The confirmation prompt: it is a parameter holding the normalised answer.
- `cancel_monitor` and `check_cancel`: they rely on blocking `input()`, and the migration never calls `check_cancel`.
- The `data_inclusao` timestamp columns: no operation reads them.
- `get_sqlite_connection`: only whether it opens is modelled.
- `print_progress`, `estimate_migration_time` and `format_time` on floats: these are float arithmetic. `format_time` is modelled on whole seconds.
- `calculate_file_hash`: a hashing wrapper that the core does not use.
- Menus, `handle_migration_choice` of `etl/loader_pipeline.py` (a menu around `migrate_to_postgres`), `validate_environment` and directory creation.
- The Flask routes and the configuration constants.

## Findings

| source | as written | input that shows it | evidently intended | confidence | as-written member | corrected member |
|---|---|---|---|---|---|---|
| etl/loader_pipeline.py:855-857 | `download_files` returns without queueing the sentinel when the catalog is None or empty | a catalog request that fails, or a catalog with no eligible file | the sentinel is queued on every path, so the load worker ends | high, not executed | SqliteIngest.EmptyCatalogBlocksLoadWorker | SqliteIngest.DownloadTerminatedEndsLoadWorker |
| etl/loaderpost.py:236-237 | the `except` branch neither rolls back nor stops, so a failed file's rows are committed by the next file, and a NULL id leaves an aborted transaction | a bundle whose Patient is followed by a condition and then a malformed entry, followed by a valid bundle | roll back the failed file | high, not executed | PostgresIngest.FailedRowsCommittedByNextFile | PostgresIngest.RollbackMakesFilesAtomic |
| etl/loader_pipeline.py:909-912 | the load worker puts the sentinel back on the module-level queue, which the next run of the main loop reuses | a first run that ends, then a second run with new files | the next run starts from an empty queue | medium, not executed | SqliteIngest.StaleSentinelSkipsNextRun | SqliteIngest.NoReenqueueNextRunLoads |
| etl/loader_pipeline.py:280-317 | the completion probe requires rows in all four tables, so a store whose source had an empty table never reads as migrated | a SQLite store with condition rows and no medication rows, migrated twice | a completed migration is recognised and not repeated | high, not executed | Migration.RerunAfterEmptyTableDuplicatesRows | Migration.CorrectedRerunIsNoOp |
