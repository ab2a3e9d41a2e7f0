# Verified model of the data platform's incremental movement

This project models, in Dafny, the parts of the platform that keep state between runs, and proves what
those parts promise: the SCD2 satellites of the vault, the Kafka micro-batch ingest, the keyset
extraction of OLTP tables, the windowed preprocessing into staging, the SQL script splitter, the table
alias rewriter, the life of a dbt-rest run, and the Atlas entity validator with its paginated searches.

`dafny verify dfyconfig.toml` checks all of it.

| file | what it models |
|---|---|
| `Satellites.dfy` | a satellite table; the close, insert and reconcile statements; LEAD |
| `SatelliteLoads.dfy` | when a load, and a load followed by a reconcile, keep the chain of versions |
| `SatelliteRuns.dfy` | runs of the satellite task with crashes and repetitions |
| `SatelliteTime.dfy` | reading a satellite as of an instant; the validation query |
| `SatelliteInboxes.dfy` | the masks of staging, the inbox queries, `hash_diff`, and the runs of the task from staging tables |
| `SatelliteColumns.dfy` | what the versions hold, in the columns of staging, over runs |
| `Scd2Task.dfy` | the satellite as an object; the task and `validate_scd2` |
| `KafkaConsumer.dfy` | the micro-batch consumer: seek, poll, the fetch loop |
| `KafkaIngest.dfy` | the ingest protocol as a transition system, and `consume_topic` |
| `OltpExtract.dfy` | the composite cursor, the query, repeated and crashing extraction |
| `Staging.dfy` | slice, deduplicate, validate, upsert; sequences of windowed runs |
| `SqlSplitter.dfy`, `PythonText.dfy` | the script splitter, and trimming as Python does it |
| `AliasRewriter.dfy` | the table alias rewriter of the SQL validator |
| `DbtRuns.dfy` | the run row, its writers, their retries, and many workers at once |
| `AtlasEntities.dfy` | the entity validator and the paginated searches |
| `Decimals.dfy` | numbers and amounts as text |
| `Prelude.dfy` | `Option` and `Result` |

How the model is built:

- A SQL table is a sequence or a map. An `UPDATE ... FROM` that finds several join partners for a row may
  take any of them, so the close and reconcile statements are relations between the table before and the
  table after; the methods take the partner from an arbitrary chooser and are proved against the relation.
- Instants, NOW() and amounts are integers. `LEAD` is computed over one order of the rows of a key, and
  `LeadExact` shows that any other order `ORDER BY` allows offers the same values.
- The broker answers each poll as it likes: nothing, end of partition, an error, or the next record of any
  assigned partition. A database write may fail, or take effect and still raise. A run may stop between any
  two of its transactions.
- A digest is an arbitrary function; that it is injective is a precondition of the lemmas on hash keys and
  hash_diff, and of nothing else. The texts that are hashed, and the masks they hold, are modelled.

What the proofs found, where it differs from what the documentation says:

- Reconcile is documented to preserve chain integrity (`services/vault/loaders.py:218-222`). It does so
  exactly when no two versions of a key share an `effective_from` and the newest version of each key is
  open and current (`ReconcileRepairsExactly`). After load and reconcile a key has no current row exactly when
  its inbox row changed and starts when its current version does (`KeepsCurrentExactly`): both versions end
  closed. `validate_scd2` does not see this, since it only counts keys with two.
- An order keeps its `order_ts`, and a customer its `created_at`, when other columns change, and these are the
  watermark columns of their extraction (`configs/pipeline/ingestion.yaml:5,24`). So such a change is normally
  never extracted (`NewVersionDeliveredExactly`, `LateRowIsLost`): the vault keeps the old state. It is
  extracted when a run crashes between its insert and its cursor write and the row changes before the next run
  (`CrashThenUpdateTies`, and only then: `OrderedWithoutCrash`). If the task has loaded the old version by
  then, the order or customer loses its current row (`ChangedOrderLosesCurrent`). Four tables use `updated_at`,
  whose updates can move the row beyond the cursor.
- The task is retried after a crash between load and reconcile. The retry ends in a chain exactly when every
  wanted row was newer than all versions of its key; any other row is inserted a second time
  (`CrashThenRetryExactly`).
- `docs/PIPELINES.md:79` calls repeated runs safe. They are, exactly when every row the run inserts is newer
  than all versions of its key (`RerunExactly`). A row that is late, or that ties, is inserted once more by
  every run that finds it in staging, so the satellite grows without end (`ReloadedForEver`).
- A partition is read on exactly when it has a stored offset or no partition has one, because `assign` covers
  only partitions with a stored offset, and its next record is accepted (`ReadOnExactly`). A first batch that
  misses a partition makes it stop (`PartitionGetsMissed`), for good (`MissedPartitionStarves`). So does a
  record that is not UTF-8, that the builder raises on, such as a payload that is a JSON list or a `currency`
  that is a number, or that the table refuses, such as a text in a NUMERIC column: every run that reaches it
  raises before it stores an offset (`RefusedRecordStopsPartition`).
- Two runs at once can lower a stored offset (`TwoRunsGoBack`); `StoreLowersExactly` says when.
- Of the row versions the extraction cursor has passed, exactly those that did not come at or below it are
  delivered (`DeliveredExactly`), and a row that ties with the last row of a batch on timestamp and first key
  column is lost when LIMIT cuts it off (`LostExactlyAtBoundaryTie`).
- A dbt run that times out after printing to standard output stays `running` for good. Under Python 3.11
  (`services/dbt_rest/Dockerfile:1`) `TimeoutExpired` carries bytes although `text=True`, so the handler adds
  bytes to a string and raises, and the thread ends before any final write (`TimeoutAfterOutputStaysRunning`,
  `EndsTerminalExactly`).
- Staging follows the latest raw row on every raw table exactly when the windows are covering: a window that
  reaches back before an instant of an earlier one is followed by one that holds this instant
  (`CoveringFollowsLatest`, `NotCoveringLosesLatest`). A backfill over an older window is not
  (`BackfillIsNotCovering`). Orders and events are deduplicated before they are checked, so an invalid latest
  row hides valid older ones in a window, and a full recomputation drops keys that the incremental runs keep
  (`InvalidLatestHidesOrder`, `StaleKeyExactly`).

## Model

| member | source | states |
|---|---|---|
| Satellites.LeadExact | services/vault/loaders.py:225-232 | in any order of the rows of a key that ORDER BY allows, the values LEAD gives the rows with the start of row i are the next greater start of the key and, exactly when row i is tied, its own start |
| Satellites.MatchesExactly | services/vault/loaders.py:233-240 | the values the reconcile join offers a row: the next start of its key, or its own when tied, and each only if the row is not already closed there |
| Satellites.ReconcileRow | services/vault/loaders.py:224-241 | from any table, reconcile leaves the newest row of a key untouched and closes every other one, at the next start of the key or, only if tied, possibly at its own; nothing but effective_to and is_current changes |
| Satellites.ReconcileCurrentExact | services/vault/loaders.py:224-241 | from any table, a row is current after reconcile if and only if it was current and is newer than every other row of its key |
| Satellites.ReconcileAtMostOneCurrent | services/vault/loaders.py:223-263 | from any table, ties included, one reconcile leaves at most one current row per key |
| Satellites.ReconcileRepairsExactly | services/vault/loaders.py:217-241 | reconcile yields the gap-free chain if and only if no two versions of a key are tied and the newest of each key is open and current |
| Satellites.TieLeavesNoneCurrent | services/vault/loaders.py:230-240 | when the last start of a key is shared, reconcile leaves that key without a current version |
| Satellites.ReconcileChain | services/vault/loaders.py:240 | reconcile does not touch a chain |
| Satellites.ReconcileIdempotentExactly | services/vault/loaders.py:224-241 | a second reconcile changes nothing if and only if no tied start is followed by a later one |
| Satellites.UnsettledRow | services/vault/loaders.py:230-240 | a tied row that has a later start in its key is rewritten by every reconcile, from any table |
| Satellites.ReconcileKeepsVersions | services/vault/loaders.py:233-235 | reconcile deletes no version, alters no payload, and makes no closed row current |
| SatelliteLoads.InsertFacts | services/vault/loaders.py:133-153 | the insert appends only; it appends wanted inbox rows, at most one per key and none whose (key, load_dts) is taken, open and current, with the columns of the inbox row and of the load; every wanted one has its (key, load_dts) afterwards |
| SatelliteLoads.CloseRow | services/vault/loaders.py:123-132 | the close touches only current rows that some inbox row of the key supersedes with another hash, ends each at the start of such a row, and misses none |
| SatelliteLoads.WantedAfterClose | services/vault/loaders.py:148-152 | closing first does not change which inbox rows the LEFT JOIN of the insert lets through |
| SatelliteLoads.LoadStoresExactly | services/vault/loaders.py:123-153 | a load adds, open and current, versions with the key, start, hash and payload of inbox rows and the load_dts and source of the load, and an inbox row has one exactly when its hash is not that of the current version of its key and no version of the key has this load_dts |
| SatelliteLoads.LoadTies | services/vault/loaders.py:133-153 | a load keeps starts distinct per key if and only if every row it inserts starts where no version of its key does |
| SatelliteLoads.TaskKeepsChainExactly | services/vault/loaders.py:106-160 | load then reconcile keeps the chain if and only if each inbox row is unwanted, or ties with no version, or is dropped by ON CONFLICT without having closed anything; late rows included |
| SatelliteLoads.LoadAloneKeepsChainExactly | services/vault/loaders.py:155-158 | load without reconcile, as after a crash between the transactions, keeps the chain if and only if each inserted row is newer than every version of its key and no dropped row closed one |
| SatelliteRuns.ChainOverRuns | pipelines/dags/transformation/scd2_satellites.py:38-40 | over every run of the task, crashing before, between and after its transactions, on such inboxes, the table stays a gap-free chain |
| SatelliteRuns.HistoryOverRuns | pipelines/dags/transformation/scd2_satellites.py:38-50 | over every run, from any table and with any inbox, no version is deleted or moved, no payload altered, no closed row made current |
| SatelliteRuns.TaskStoresExactly | pipelines/dags/transformation/scd2_satellites.py:38-40 | the same for a task that gets past its load, whether or not the reconcile follows, but for the ends that it sets |
| SatelliteRuns.RerunExactly | services/vault/loaders.py:106-160 | from a chain, running the task again with the same inbox changes nothing if and only if every row it wanted was newer than all versions of its key; late and tied rows included |
| SatelliteRuns.CrashThenRetryExactly | pipelines/dags/transformation/scd2_satellites.py:27-40 | after a crash between load and reconcile, the retry of both ends in a chain if and only if each wanted row was newer than all versions of its key; any other is inserted a second time and ties with its copy |
| SatelliteRuns.OvertakenStaysWanted | services/vault/loaders.py:123-160 | from any table with at most one current row per key, a wanted inbox row that some version of its key starts with or after is still wanted after the task, and is inserted by it |
| SatelliteRuns.ReloadedForEver | pipelines/dags/transformation/scd2_satellites.py:38-40 | over every run of tasks that keep such a row in their inbox, the table grows with each task and the row stays wanted |
| SatelliteRuns.SameStartLosesCurrent | services/vault/loaders.py:106-160 | when the attributes of a key change while its start stays, the task leaves the key without a current version, and its row is wanted again by the next one |
| SatelliteRuns.KeepsCurrentExactly | services/vault/loaders.py:106-160 | from a chain, a key of the inbox has a current version after the task if and only if not both: its row is wanted, and its current version starts when the row does |
| SatelliteRuns.ShowsExactly | services/vault/loaders.py:106-160 | from a chain, late and tied rows included, the current version of a key holds the payload of its inbox row after the task if and only if it did before or the row is newer than all versions of the key |
| SatelliteTime.FollowsForceExactly | services/vault/loaders.py:123-154 | without ties, the half-open interval of a version holds exactly the instants at which it is the newest started one if and only if it ends where the next one starts |
| SatelliteTime.IntervalsExactly | services/vault/loaders.py:224-241 | without ties, the intervals of a whole table name at every instant the version in force if and only if every end is the next start of its key, which is what reconcile writes |
| SatelliteTime.AsOf | services/vault/loaders.py:224-241 | in a chain, every instant not before the first version of a key lies in exactly one interval, that of the version with the greatest start not after it |
| SatelliteTime.NoViolationsExactly | pipelines/dags/transformation/scd2_satellites.py:89-101 | the validation query counts zero if and only if no key has two current rows |
| SatelliteInboxes.MaskedNameShape | spark/common/privacy_spark.py:25-30 | a masked name is NULL or one character and three stars |
| SatelliteInboxes.MaskedEmailKeeps | spark/common/privacy_spark.py:15-22 | the mask of an address, blanks around it or not, is at most two characters of its local part, three stars, and the text between the first @ and the second; without an @ the characters and stars; of none or blanks, NULL |
| SatelliteInboxes.MaskedNameKeeps | spark/common/privacy_spark.py:25-30 | the mask of a trimmed name is its first character and three stars; of none or an empty one, NULL |
| SatelliteInboxes.InboxesHaveOneRowPerKey | services/vault/loaders.py:107-122 | the inboxes hold one row per hash key, given the primary keys of staging and an injective digest |
| SatelliteInboxes.OrderHashExactly | services/vault/loaders.py:167-176 | given an injective digest, two states of an order have the same hash_diff if and only if they have the same payload, whatever status and currency hold, a currency being at most three characters |
| SatelliteInboxes.CustomerHashExactly | services/vault/loaders.py:113-119 | given an injective digest, two states of a customer as the preprocessing masks them have the same hash_diff if and only if they have the same payload |
| SatelliteInboxes.CustomersKeepChainExactly | services/vault/loaders.py:106-160 | from a staging table of customers, a run of the task keeps the chain if and only if each customer that changed starts where none of its versions does |
| SatelliteInboxes.OrdersKeepChainExactly | services/vault/loaders.py:163-214 | the same for a staging table of orders |
| SatelliteInboxes.CustomerChainOverRuns | pipelines/dags/transformation/scd2_satellites.py:27-50 | over every run from changing staging tables of customers, the satellite stays a chain as long as changes come with new starts |
| SatelliteInboxes.OrderChainOverRuns | pipelines/dags/transformation/scd2_satellites.py:52-75 | the same for orders |
| SatelliteInboxes.ChangedOrderLosesCurrent | services/vault/loaders.py:163-214 | an order whose staging row changes status, amount or currency at the same order_ts has no current version after the task, and its staging row is wanted again |
| SatelliteColumns.OrdersComeFromStaging | services/vault/loaders.py:163-210 | over every run from an empty satellite, each version holds the columns of an order staged at the run that loaded it: the hash of order_id as key, order_ts as start, status, total_amount and currency_code as payload and in hash_diff |
| SatelliteColumns.OrdersShownExactly | services/vault/loaders.py:163-214 | over those runs, with new starts for changes, the current version of a staged order shows its status, amount and currency after the run if and only if it did before or its order_ts is later than the starts of all its versions |
| SatelliteColumns.CustomersComeFromStaging | services/vault/loaders.py:106-155 | over every run from an empty satellite, each version holds the columns of a customer staged with a hash at the run that loaded it, starting at registered_at or, without one, at the load |
| SatelliteColumns.CustomersShownExactly | services/vault/loaders.py:106-160 | the same as OrdersShownExactly, for the customer hash and the masked e-mail and name of a customer |
| Decimals.DecimalDenotes | services/vault/loaders.py:111 | an id is cast to a text of digits that denotes it, with its sign |
| Decimals.AmountDenotes | services/vault/loaders.py:170 | an amount is cast to units, a point and two digits that denote its hundredths, with its sign |
| Scd2Task.Satellite.constructor | services/vault/loaders.py:133-137 | an empty satellite is a chain |
| Scd2Task.Satellite.Close | services/vault/loaders.py:123-132 | the close statement, whichever join partner the database takes |
| Scd2Task.Satellite.Insert | services/vault/loaders.py:187-208 | the insert statement: the versions it adds hold the columns of inbox rows as in LoadStoresExactly |
| Scd2Task.Satellite.Load | services/storage/postgres_io.py:43-61 | the statements of a load commit together, with the versions of LoadStoresExactly, or leave the table as it was |
| Scd2Task.Satellite.Reconcile | services/vault/loaders.py:217-268 | the reconcile statement, whichever join partner the database takes; at most one current row per key afterwards |
| Scd2Task.Satellite.RunTask | pipelines/dags/transformation/scd2_satellites.py:52-75 | a run of the task that stops anywhere is a step of the run model, keeps history, adds the versions of TaskStoresExactly, and on an admissible inbox keeps the chain |
| Scd2Task.ValidateScd2 | pipelines/dags/transformation/scd2_satellites.py:80-104 | raises if and only if some table has a key with two current rows, with the count of each table |
| Scd2Task.ValidateAfterTasks | pipelines/dags/transformation/scd2_satellites.py:77-104 | from any tables, validation succeeds after both tasks have run to their end |
| KafkaConsumer.MicroBatchConsumer.constructor | services/kafka/microbatch_consumer.py:36-54 | the consumer holds its settings and is not started |
| KafkaConsumer.MicroBatchConsumer.Enter | services/kafka/microbatch_consumer.py:56-78 | under a fresh group every partition starts at its earliest record |
| KafkaConsumer.MicroBatchConsumer.SeekToOffsets | services/kafka/microbatch_consumer.py:91-97 | assigns exactly the partitions with a stored offset, each just after it; without offsets or before the start it does nothing |
| KafkaConsumer.MicroBatchConsumer.Poll | services/kafka/microbatch_consumer.py:109 | any answer of the broker; a record is the next one of its partition and moves the position just behind it |
| KafkaConsumer.MicroBatchConsumer.Fetch | services/kafka/microbatch_consumer.py:103-160 | ends although empty_polls is reset; polls exactly until the batch is full, enough empty polls came in a row, or an answer raises, a broker error or a record that is not UTF-8; returns at most max_messages, on each partition the contiguous slice of the log from its start position to its last offset |
| KafkaConsumer.AppendFetched | services/kafka/microbatch_consumer.py:150-153 | one more message, being the next of its partition, keeps the batch a set of contiguous slices, and its offset is beyond all fetched before |
| KafkaIngest.InsertImages | pipelines/dags/ingestion/_kafka_common.py:89-96 | inserting rows built from the log, or rows of other topics, stores each of them and keeps one row per key, each the image of its record |
| KafkaIngest.BatchCompletes | pipelines/dags/ingestion/_kafka_common.py:84-98 | storing a batch completes the table up to the merged offsets: for each record up to them the row that the builder makes of it, if any, is in the table |
| KafkaIngest.StepKeepsInv | pipelines/dags/ingestion/_kafka_common.py:69-99 | every step of the protocol, of any of several concurrent runs, keeps: the table is complete up to the stored offsets, and holds one image per key |
| KafkaIngest.InvOverRuns | pipelines/dags/ingestion/_kafka_common.py:69-99 | the same over every interleaving of runs, crashes and retries |
| KafkaIngest.ExactlyOnce | pipelines/dags/ingestion/_kafka_common.py:69-99 | in every reachable state, for each record at or below the stored offset of its partition, the row that the builder makes of it is in the table exactly once and nothing else with its key; when the builder skips it, nothing with its key |
| KafkaIngest.TableExactly | pipelines/dags/ingestion/_kafka_common.py:84-98 | in every reachable state the table holds a row of the topic at or below the stored offset of its partition once if the builder makes it of some record of the log, and not at all otherwise |
| KafkaIngest.SameUpToOffsets | pipelines/dags/ingestion/_kafka_common.py:69-99 | two histories that end with the same stored offsets have the same rows up to them |
| KafkaIngest.UninterruptedEqual | pipelines/dags/ingestion/_kafka_common.py:69-99 | for every reachable state, one uninterrupted run with one batch, or none, leads from the same start to the same stored offsets with the same rows up to them, each as often |
| KafkaIngest.MergeAdvances | pipelines/dags/ingestion/_kafka_common.py:97-98 | merging the last offsets of a batch into the offsets it was read from lowers none of them and adds no partition to a non-empty map |
| KafkaIngest.OffsetsAdvance | services/common/watermarks.py:83-94 | with one run in flight at a time the stored offsets never go back, whatever crashes |
| KafkaIngest.MissedPartitionStarves | services/kafka/microbatch_consumer.py:91-97 | with one run at a time, a partition missing from the stored offsets, when there are any, never gets one, and no row of it comes into the table |
| KafkaIngest.ReadOnExactly | services/kafka/microbatch_consumer.py:91-97 | some run of the ingest moves the stored offset of a partition if and only if the partition has one or no partition has, and the next record behind it exists, decodes, and is one that the builder and the table accept |
| KafkaIngest.PartitionReadOn | pipelines/dags/ingestion/_kafka_common.py:69-99 | for such a partition there is a run that stores the offset of its next record, and changes no other |
| KafkaIngest.PartitionGetsMissed | pipelines/dags/ingestion/_kafka_common.py:69-99 | from no stored offsets, a run exists after which one partition, whose first record is accepted, has an offset and another one, with or without records, has none |
| KafkaIngest.RefusedRecordStopsPartition | pipelines/dags/ingestion/_kafka_common.py:84-98 | however runs interleave and crash, no stored offset of a partition reaches a record that does not decode, that its builder raises on, or that the table refuses |
| KafkaIngest.TwoRunsGoBack | pipelines/dags/ingestion/_kafka_common.py:97-98 | two runs that read the same offsets and fetched differently far can take turns so that a stored offset is lowered |
| KafkaIngest.StoreLowersExactly | pipelines/dags/ingestion/_kafka_common.py:97-98 | storing the offsets of a run lowers or drops none if and only if each partition whose stored offset another run has changed since is in the batch of this one, as far as stored or further |
| KafkaIngest.AfterKeepsInv | pipelines/dags/ingestion/_kafka_common.py:89-98 | stopping after any step of a run keeps the table complete up to the stored offsets |
| KafkaIngest.ConsumeIsARun | pipelines/dags/ingestion/_kafka_common.py:69-99 | what consume_topic does, stopped anywhere, is a path of the transition system |
| KafkaIngest.Refuses | pipelines/dags/ingestion/_kafka_common.py:84-96 | whether the builder raises on one of the messages, or the table refuses its row |
| KafkaIngest.Ingest.ConsumeTopic | pipelines/dags/ingestion/_kafka_common.py:42-99 | the outcome, a record refused by the builder or the table among them, and the durable state as the answers of the broker and the last completed step decide: no row is lost, a stored batch has every row its builder makes in the table, offsets never go back and the invariant is kept |
| OltpExtract.SelectedExactly | pipelines/dags/ingestion/ingest_oltp_to_stg.py:92-105 | the query selects the dated rows newer than the fallback, than a plain watermark, or than the timestamp and key of a composite one |
| OltpExtract.SelectedAscending | pipelines/dags/ingestion/ingest_oltp_to_stg.py:100-105 | with unique (timestamp, key) the query returns its rows in strictly ascending order |
| OltpExtract.OneOrder | pipelines/dags/ingestion/ingest_oltp_to_stg.py:105 | with unique (timestamp, key) ORDER BY allows one order only, that of the model |
| OltpExtract.SelectedContinues | pipelines/dags/ingestion/ingest_oltp_to_stg.py:97-105 | the query from the cursor of the k-th row returns exactly the rows after the first k |
| OltpExtract.QuerySplits | pipelines/dags/ingestion/ingest_oltp_to_stg.py:114-137 | a run takes the front of what is to be selected and the cursor it stores selects the rest |
| OltpExtract.RepeatedDelivers | pipelines/dags/ingestion/ingest_oltp_to_stg.py:94-151 | from any cursor, repeated runs deliver exactly what the query without LIMIT selects, in its order |
| OltpExtract.DeliversExactly | pipelines/dags/ingestion/ingest_oltp_to_stg.py:94-144 | from the fallback, for every batch size, repeated runs deliver exactly the rows newer than the fallback, each once, in (timestamp, key) order |
| OltpExtract.LostExactlyAtBoundaryTie | pipelines/dags/ingestion/ingest_oltp_to_stg.py:92-105 | on any source, and for every order ORDER BY allows among tied rows, a run neither delivers a row nor leaves it to be selected if and only if LIMIT cuts the row off and it ties with the last row delivered |
| OltpExtract.BatchCounts | pipelines/dags/ingestion/ingest_oltp_to_stg.py:114-137 | a batch holds each row the cursor passes exactly once and no other, and the cursor does not move back |
| OltpExtract.InvOverRuns | pipelines/dags/ingestion/ingest_oltp_to_stg.py:94-151 | over every run with crashes anywhere, on a source that inserts, updates and deletes between the runs, the copies in the target of a row that does not come late are bounded as in AtLeastOnce |
| OltpExtract.AtLeastOnce | services/storage/postgres_io.py:10-22 | a row version newer than the fallback that does not come at or below the cursor is in the target when the source has it and the cursor has passed it; no version is there more often than the crashes between insert and cursor write explain, without them once; none is there that the source never held |
| OltpExtract.LateRowIsLost | services/common/watermarks.py:53-70 | the stored cursor never moves back, and a row version that is at or below it without being in the target, by a late insert or by an update that keeps the watermark column, is never delivered |
| OltpExtract.DeliveredExactly | pipelines/dags/ingestion/ingest_oltp_to_stg.py:94-151 | of the row versions that the source has held since some state and that the cursor has passed, exactly those are in the target that were in it in that state or beyond the cursor then |
| OltpExtract.NewVersionDeliveredExactly | pipelines/dags/ingestion/ingest_oltp_to_stg.py:94-151 | a new row version that stays until the cursor has passed it is delivered if and only if its insert or update put it beyond the cursor |
| OltpExtract.OrderedWithoutCrash | pipelines/dags/ingestion/ingest_oltp_to_stg.py:94-144 | whatever the source does, as long as no run crashes between insert and cursor write the target is strictly ascending in (timestamp, key), so it never holds two versions of a row with one timestamp |
| OltpExtract.CrashThenUpdateTies | pipelines/dags/ingestion/ingest_oltp_to_stg.py:126-144 | after one such crash, a row that is updated in place before the next run is in the target in both versions, with one timestamp |
| OltpExtract.TableExtract.constructor | services/common/watermarks.py:43-50 | an empty target and no stored watermark |
| OltpExtract.TableExtract.ExtractTable | pipelines/dags/ingestion/ingest_oltp_to_stg.py:76-144 | one run, stopped where it crashes: an ascending batch of rows beyond the cursor, of at most the batch size, all of them when it is not full; what of it reaches the target, and the timestamp and key of the last row as the cursor it stores |
| Staging.JoinInjective | spark/jobs/preprocess_orders_payments.py:229 | the text joined from topic, partition and offset names one of each, whatever the topic holds |
| Staging.TargetKeyExactly | spark/jobs/preprocess_orders_payments.py:220-238 | two rows of a table have one staging key if and only if they share the partition-by columns |
| Staging.BuildExactly | spark/jobs/preprocess_orders_payments.py:134-238 | for every table alike, a row is in the build of a window if and only if it is valid and no eligible row of its key in the window is later; eligible means valid for customers and any row for orders and events |
| Staging.UsersBuiltExactly | spark/jobs/preprocess_orders_payments.py:134-154 | a user row is built if and only if it has an e-mail and is the latest of its user_id among those in the window that have one |
| Staging.OrdersBuiltExactly | spark/jobs/preprocess_orders_payments.py:173-208 | an order row is built if and only if it is the latest of its order_id in the window and has a user_id, an order_ts and a total_amount of at least 0 |
| Staging.EventsBuiltExactly | spark/jobs/preprocess_orders_payments.py:211-271 | an event row is built if and only if it is the latest of its topic, partition and offset in the window and has an event_id |
| Staging.RunWritesExactly | spark/jobs/preprocess_orders_payments.py:114-131 | after a run, staging holds the image of each such row under customer_id, order_id, or topic:partition:offset, and what it held before under every other key |
| Staging.BuildNamesKeysOnce | spark/jobs/preprocess_orders_payments.py:115-128 | a build names each staging key at most once, so its upsert does not fail |
| Staging.WrittenAt | spark/jobs/preprocess_orders_payments.py:114-120 | after the upsert a key holds the image of its row in the slice, or what it held before |
| Staging.RepeatChangesNothing | spark/jobs/preprocess_orders_payments.py:85-131 | writing the same slice again leaves staging as it is |
| Staging.WritesExactly | spark/jobs/preprocess_orders_payments.py:134-238 | a job writes a row if and only if it is valid and the latest of its key that the builder looks at; in columns, the rows of the three lemmas above |
| Staging.LastWriterWins | spark/jobs/preprocess_orders_payments.py:114-128 | for jobs in any order and with any windows, staging holds for a key the image of the row written by the last job that names it |
| Staging.UnnamedStays | spark/jobs/preprocess_orders_payments.py:114-128 | jobs that name no row of a key leave what staging holds for it |
| Staging.KeysExactly | spark/jobs/preprocess_orders_payments.py:114-128 | staging holds exactly the keys it held before and those that some job writes a row for |
| Staging.HoldsLatestExactly | spark/jobs/preprocess_orders_payments.py:79-170 | for any jobs and windows, staging ends with the image of the latest valid row of a key that any window saw if and only if the last job that names the key has that row in its window, or writes another row with the same image |
| Staging.CoveringFollowsLatest | spark/jobs/preprocess_orders_payments.py:79-238 | with covering windows, on every growing raw table and for every table, staging ends with the image of the latest row of a key that any window saw, when that row is valid |
| Staging.NotCoveringLosesLatest | spark/jobs/preprocess_orders_payments.py:288-290 | for any windows that are not covering there is a raw table of two rows on which staging ends with the older one although a window saw the newer |
| Staging.BackfillIsNotCovering | spark/jobs/preprocess_orders_payments.py:288-290 | windows are not covering when the last one ends before an earlier one does |
| Staging.StagingFollowsLatest | spark/jobs/preprocess_orders_payments.py:288-290 | non-decreasing execution times suffice, whatever the lookbacks |
| Staging.RefinesFullRecompute | spark/jobs/preprocess_orders_payments.py:79-238 | for customers, orders and events, a row that a build over the whole raw table writes and some window saw is what the incremental runs hold for its key |
| Staging.CustomersEqualRecompute | spark/jobs/preprocess_orders_payments.py:134-170 | for customers, from an empty table, the incremental runs equal the recomputation as tables, keys and images, when some window saw each row it writes |
| Staging.StaleKeyExactly | spark/jobs/preprocess_orders_payments.py:173-271 | for orders and events the recomputation has a key if and only if its latest row is valid; the keys that only the incremental runs have are exactly those whose latest row is invalid while some job wrote an older one |
| Staging.InvalidLatestHidesOrder | spark/jobs/preprocess_orders_payments.py:182-194 | for orders, an invalid latest row of the window hides every row of its key |
| Staging.BuildSlice | spark/jobs/preprocess_orders_payments.py:134-271 | the builders: exactly the rows of UsersBuiltExactly, OrdersBuiltExactly or EventsBuiltExactly, and no staging key twice |
| Staging.StagingTable.constructor | services/postgres/init/04_dwh_extensions.sql:280-299 | an empty staging table |
| Staging.StagingTable.WriteIncrementalUpsert | spark/jobs/preprocess_orders_payments.py:85-131 | an empty slice writes nothing; a slice that names a key twice fails and writes nothing; any other is written row by row |
| Staging.StagingTable.RunWindow | spark/jobs/preprocess_orders_payments.py:288-300 | one windowed run writes the build of its window, under the keys of RunWritesExactly, and cannot fail on a key named twice |
| SqlSplitter.DropComments | generators/infrastructure/connectors/oltp.py:17-22 | the lines at exactly the positions, in order, of the lines that do not start, behind white space, with two dashes |
| SqlSplitter.KeepsIsCode | generators/infrastructure/connectors/oltp.py:17-22 | those positions determine the lines that are kept |
| SqlSplitter.SplitSqlStatements | generators/infrastructure/connectors/oltp.py:16-57 | the lines so kept, joined, are cut into pieces and each non-blank piece gives a statement |
| SqlSplitter.CutStatements | generators/infrastructure/connectors/oltp.py:25-57 | the index-skipping scanner loop with its look-ahead returns the statements of the pieces of the text |
| SqlSplitter.RemainingIsPieces | generators/infrastructure/connectors/oltp.py:29-53 | reading the text position by position with a buffer gives its pieces, from any position and quote state |
| SqlSplitter.DoubledQuote | generators/infrastructure/connectors/oltp.py:31-36 | looking ahead at a doubled quote amounts to leaving the literal and entering it again |
| SqlSplitter.PiecesJoin | generators/infrastructure/connectors/oltp.py:29-53 | the pieces joined by semicolons are the text |
| SqlSplitter.CutsExactly | generators/infrastructure/connectors/oltp.py:44-50 | a position is a cut if and only if it is a semicolon with an even number of quotes before it |
| SqlSplitter.SplitKeepsCharacters | generators/infrastructure/connectors/oltp.py:25-57 | the kept lines, joined, are the join, by the semicolons they are cut at, of trimmed texts with white space around them, and the statements are exactly the texts that are not empty, each terminated: every character, inside statements and literals too, is kept in order |
| SqlSplitter.RoundTrip | generators/infrastructure/connectors/oltp.py:16-57 | splitting the join of trimmed, non-empty statements with balanced quotes, no semicolon outside them and no comment line gives back exactly those, each terminated, whether or not the last one was |
| SqlSplitter.RoundTripWithComments | generators/infrastructure/connectors/oltp.py:16-57 | comment lines anywhere between the lines of such a script, inside its statements too and whatever quotes and semicolons they hold, do not change the result |
| AliasRewriter.SubLeavesNoMatch | services/nl2sql_app/nl2sql/validator.py:48-54 | substituting one alias removes all its matches and makes none of another |
| AliasRewriter.SubReplaces | services/nl2sql_app/nl2sql/validator.py:48-54 | one substitution cuts the text into parts that stay and the alias as it is spelled, in any case, at exactly the positions where it stands as a whole word that no dot precedes, and puts the target in the place of each |
| AliasRewriter.QualifiedIsClean | services/nl2sql_app/nl2sql/validator.py:45-54 | the rewriting leaves no whole-word alias that no dot precedes, changes a text if and only if it holds one, and is idempotent |
| AliasRewriter.RewritingReplaces | services/nl2sql_app/nl2sql/validator.py:45-54 | all substitutions, one after the other, each on what the last one left, do the same to the given text for all aliases at once: nothing else changes |
| AliasRewriter.AliasesAreApart | services/nl2sql_app/nl2sql/schema_config.py:3-13 | every alias of the table is words and dots and starts with another letter than the target |
| AliasRewriter.SecondPassChangesNothing | services/nl2sql_app/nl2sql/validator.py:56-63 | the loop over the allowed tables changes nothing after the loop over the aliases |
| AliasRewriter.QualifyAllowedTables | services/nl2sql_app/nl2sql/validator.py:45-65 | both loops together put the target in the place of every alias that stands in the text as a whole word that no dot precedes, keep all else, and leave no alias |
| DbtRuns.PersistedExactly | services/dbt_rest/app/db.py:167-228 | the row ends with the status, finish time, artifacts and duration of the final write if and only if one of the final writes made took effect, and otherwise is as before |
| DbtRuns.TerminalIfAnyWriteLands | services/dbt_rest/app/db.py:167-228 | the row ends terminal if and only if any of the FINISH_RETRIES + 1 writes would take effect |
| DbtRuns.BackoffClosed | services/dbt_rest/app/db.py:189-198 | the delays before n retries add up to base times (2^n - 1) |
| DbtRuns.EndsTerminalExactly | services/dbt_rest/app/main.py:149-200 | the same condition for every row, ending of the subprocess and pattern of failing writes |
| DbtRuns.TimeoutAfterOutputStaysRunning | services/dbt_rest/app/main.py:182-185 | a subprocess that times out after printing to standard output leaves the row running although every write would succeed |
| DbtRuns.EndsAs | services/dbt_rest/app/main.py:149-200 | a terminal row has the status that the worker wanted, any other the one mark_running left |
| DbtRuns.RunStore.constructor | services/dbt_rest/app/db.py:48-74 | no runs |
| DbtRuns.RunStore.InsertQueued | services/dbt_rest/app/db.py:77-87 | a new queued row unless the write is lost |
| DbtRuns.RunStore.MarkRunning | services/dbt_rest/app/db.py:90-103 | the row, if it exists, is running unless the write is lost |
| DbtRuns.RunStore.MarkFinished | services/dbt_rest/app/db.py:105-132 | the row, if it exists, has the columns of the final write, its logs whole or cut with the mark, unless the write is lost |
| DbtRuns.RunStore.ForceTerminalPersist | services/dbt_rest/app/db.py:135-164 | the row, if it exists, is final, keeps a duration it had and has the note after its logs, unless the write is lost |
| DbtRuns.RunStore.MarkFinishedBestEffort | services/dbt_rest/app/db.py:167-228 | the retry loop ends with the row of PersistedExactly, sleeping as the failed attempts demand and at most base times (2^(FINISH_RETRIES-1) - 1) |
| DbtRuns.RunStore.Work | services/dbt_rest/app/main.py:149-200 | the worker ends its run terminal if and only if it does not time out with captured standard output and some final write takes effect; the status is success for return code 0, failed for another, timeout, or an error when the subprocess or mark_running raised |
| DbtRuns.StepKeepsInv | services/dbt_rest/app/main.py:149-217 | no step of any worker or request moves a status back or changes a terminal one |
| DbtRuns.StatusNeverGoesBack | services/dbt_rest/app/main.py:149-217 | over every interleaving of workers and every pattern of failing writes, no status moves back along queued, running, terminal, and a terminal one is for good |
| DbtRuns.RetryLoopIsAPath | services/dbt_rest/app/db.py:167-228 | the retry loop is a path of the transition system |
| DbtRuns.WorkerIsAPath | services/dbt_rest/app/main.py:149-200 | all the worker does, dying in its timeout handler included, is a path of the transition system |
| AtlasEntities.ValidExactly | infra/metadata/atlas/scripts/entity_publish.py:116-168 | a file is publishable if and only if neither pass finds a fault in it |
| AtlasEntities.QualifiedNameExactly | infra/metadata/atlas/scripts/entity_publish.py:109-113 | the qualified name is the text between the white space of that attribute, when it is a string with something else in it |
| AtlasEntities.AttributeFaultExactly | infra/metadata/atlas/scripts/entity_publish.py:119-140 | a type is missing when it is absent, null, empty or zero; an attribute is missing for a typed entity of the types that require it, when it is absent, null or only white space |
| AtlasEntities.ReferenceFaultExactly | infra/metadata/atlas/scripts/entity_publish.py:141-167 | a table is faulty when its reference is no string with a name in it, or when no hive_db has that name as its qualified name |
| AtlasEntities.ReportedByNext | infra/metadata/atlas/scripts/entity_publish.py:116-168 | the number of reports due grows by one with an entity exactly when it has the fault: a name is reported for each entity but the first |
| AtlasEntities.CheckEntity | infra/metadata/atlas/scripts/entity_publish.py:119-140 | exactly one error for each fault of an entity's type, name and attributes, no other, and the names seen so far |
| AtlasEntities.DeclaredDatabases | infra/metadata/atlas/scripts/entity_publish.py:141-146 | the databases declared at any position |
| AtlasEntities.CheckReference | infra/metadata/atlas/scripts/entity_publish.py:147-167 | exactly one error for a table without a reference or with one that is not declared, and none otherwise |
| AtlasEntities.ValidateEntities | infra/metadata/atlas/scripts/entity_publish.py:116-168 | every fault is reported and nothing else, a repeated name once for each entity but the first that has it, any other fault once; no error if and only if types, names, attributes and references are as required |
| AtlasEntities.SearchBasicCount | infra/metadata/atlas/scripts/atlas_quality_gates.py:97-119 | the paginated count ends with the number of entities for every page size, exact multiples included; with a failing page, the pages before it, or -1 |
| AtlasEntities.SearchQualnameMatches | infra/metadata/atlas/scripts/atlas_quality_gates.py:122-148 | true if and only if some name on a page reached satisfies the predicate |

## Left out

- Connections, HTTP, Kafka, PostgreSQL and Spark themselves: each is an arbitrary answer, a failing write or a crash, as described above.
- SHA-256 and JSON encoding: arbitrary functions. The lower-casing of addresses before masking is not modelled.
- KafkaIngest.Ingest.ConsumeTopic: a record builder is an arbitrary function from messages to a row with the key of the message, no row, or a raise, and the table may refuse any row; the columns that the builders compute are not modelled.
- KafkaConsumer.MicroBatchConsumer.Poll: log truncation, retention and group rebalances are not modelled; records that arrive during a run are those a poll may still withhold.
- KafkaIngest.OffsetsAdvance: needs one run in flight at a time, as max_active_runs provides; TwoRunsGoBack is what happens without.
- Staging columns that the schema declares NOT NULL are not optional in the model.
- Stored offsets that are not a JSON object of integers: the model keeps offsets as a map.
- Staging.JoinInjective: partition and offset are not NULL, as the builders write them; concat_ws skips a NULL.
- The casts and masks of the staging builders: in `Staging.dfy` an arbitrary image of the raw row; the masks are in `SatelliteInboxes.dfy`.
- Upserts of several tables in one Spark job: each is a run of its own table.
- OltpExtract.DeliversExactly: for tables with a key column in the selection and unique (timestamp, first key column); the branches without a usable key or without a watermark column are not modelled.
- The text of the composite cursor: a watermark is a value, missing, plain or composite; keys are integers.
- SqlSplitter.RoundTrip: '\n' is the only line break; the others that splitlines knows are not modelled.
- AliasRewriter.QualifiedIsClean: ASCII texts; Unicode word characters and case folding are not modelled.
- The rest of the SQL validator: normalize_llm_sql, validate_sql and the parser it calls.
- DbtRuns.RunStore.MarkFinishedBestEffort: the text of the fallback note is arbitrary; directory creation and artifact reads do not raise.
- AtlasEntities.ValidateEntities: the order of the errors and their texts; attributes that are not a mapping.
- Hub and link loads, MinIO discovery, quality rules, metrics, run metadata and inserted-row counts.
