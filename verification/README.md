# Verified model of the stream ingestion service

The Python web-service template keeps a live table fed by a stream. A transport (Arrow Flight
or Solace) yields record batches; a supervisor thread records them in an in-memory LSM store;
HTTP readers query the store without a lock. This project models that path in Dafny and proves
what it promises.

* `Keys`, `Merge` – cell values and key order; the window-function merge (`rank` over the key
  partition, filter rank 1), live rows, sort, limit.
* `Oracle` – the meaning of the store: a plain map from key to record, folded over all rows in
  arrival order, written without using the merge's own filter, projection or cut. The merge
  computes exactly the map's answer; what regrouping, permuting and redelivering rows changes.
* `Plain` – the same answer said of the ingested rows' own cells: which rows are in force, in
  which order they come and where the limit cuts, with no key, fold or merge in the statement.
* `Store`, `StoreSpace`, `LsmStore` – the store's state and class: stamp, memtable, flush,
  compaction, snapshot, query; the invariant of every reachable state; the exact space bound.
* `SnapshotReads` – one writer and any number of readers, one field access at a time, in every
  interleaving.
* `Backoff`, `ConnectRetry` – capped exponential backoff in closed and incremental form;
  start-up retry.
* `IngestTrace`, `Watchdog`, `StreamIngest` – when the ingest loop and the disconnect watchdog
  must stop, said of the consumer's calls and of the samples alone, and the class whose loops
  do it by counting.
* `ConsumerLog` – the calls a transport has answered and the loop's own failure counter; that
  counting stops the loop exactly where the trace of calls says.
* `Machine`, `FlightConsumer`, `SolaceConsumer` – the two transports against `close()`, as step
  machines over every interleaving, and exactly when `close()` leaves a loop bound to exit.
* `EndToEnd`, `Serving` – transport, loop and store composed: from consumer trace to query
  answer, and what readers see while all three run, one field access at a time.

A row is a map from column to value and the sequence number stamped on it. A null or absent
cell is `Null`, which sorts first; a null `op` fails the filter `op != "delete"` and so hides
the row. Times and delays are real numbers, a random draw is any real in [0, 1). A batch is
either convertible or fails at `pl.from_arrow`, before the store changes.

## What the proofs show about the code

* The store answers every query as the plain map, for all thresholds (also zero or negative),
  all key columns, all batch sizes (also empty) and all limits (negative ones cut the tail, as
  `head` does). A key on `seqno` is a key on the arrival number: nothing is ever overwritten or
  dropped (`SeqnoKeyKeepsEveryRow`), and a live row sent twice is answered twice
  (`SeqnoKeyAnswersTwice`). Redelivery to such a store converges if and only if no row sent again
  is live (`SeqnoKeyedRedeliveryExactly`); for every other key it always converges.
* The space bound is max(K, M) + (c − 2)·M + (F − 1) rows, with F = max(1, `flush_rows`),
  c = `compaction_runs` ≥ 2, M = F − 1 + longest batch and K distinct keys ever seen; for
  c ≤ 1 it is K + F − 1. It is reached for every K ≥ 1, every c and every batch size of at
  least one row (`SpaceBoundIsReached`). Deleted keys count: a compaction keeps exactly K rows.
* The loop's call bound 4N + 5 is exact: `BoundIsReached` gives a trace for every N.
* `core/retry.py` documents the delay as `base_delay * 2^(attempt-1)`; the code also caps it.
  With the cap, sleeps need not grow: `SleepsIncreaseExactly` gives the exact condition. The
  loop's doubled variable and the closed form differ only at a first attempt whose base
  exceeds the cap (`DoubledIsCapped`).
* The transport protocol asks `close()` to unblock a pending `batches()` so that the ingest
  thread can exit cleanly (`ingestion/base.py`, lines 16-17). Neither transport meets this in
  every interleaving.
  * Solace: every way `close()` can go on leaves a loop bound to exit cleanly if and only if the
    generator is reading the queue, holding a batch, or has returned when `close()` begins
    (`CloseGuaranteesExit`). It leaves a loop bound to be left at all if and only if that holds
    or automatic shutdown is enabled, as it is by default (`CloseGuaranteesLeaving`): then a call
    in setup, or the next one, either reaches the sentinel or raises, and the loop ends at the
    sentinel or at its fifth failure in a row. A loop that the hook has ended before `close()`
    begins is out already, and the sentinel stays unread. With automatic shutdown disabled a
    loop that sleeps between two calls during `close()` never exits
    (`CloseDuringBackoffStrandsLoop`).
  * Flight: a call that begins late returns at once (`AtMostOneLateCall`), but a call between its
    check of `_closing` and its store of `_reader` may open a stream that `close()` does not
    cancel. The loop is bound to return if and only if no call is there when `_closing` is set
    (`CloseGuaranteesExit`); `StreamOutlivesClose` gives the interleaving.
* The design document of the store cuts when the limit is not `None`; the code treats 0 as no
  limit too, and the model follows the code.

## Model

| member | source | states |
|---|---|---|
| Keys.KeyOrder | python-webservice-template/persistence/stream_store/lsm_store.py:37 | the order of the sort on the key columns is a strict total order on keys of any columns |
| Keys.KeyLessExactly | python-webservice-template/persistence/stream_store/lsm_store.py:37 | the first key column in which two keys differ decides |
| Keys.ValueLessExactly | python-webservice-template/persistence/stream_store/lsm_store.py:37 | integers sort by value, texts by their first differing character, a null before everything |
| Keys.AscendingUnique | python-webservice-template/persistence/stream_store/lsm_store.py:37 | a set of keys has one strictly ascending listing, so the sort's answer is determined |
| Merge.RankOneIsNewest | python-webservice-template/persistence/stream_store/lsm_store.py:17-25 | rank 1, counted within the partition, is the row no other row of its key comes before |
| Merge.RankIsOrdinal | python-webservice-template/persistence/stream_store/lsm_store.py:20-22 | ranks of a partition are distinct, follow the descending order and never exceed its size |
| Merge.WinnersSnoc | python-webservice-template/persistence/stream_store/lsm_store.py:9-28 | adding one row to the rows merged is one upsert into the merge, in place and order |
| Merge.WinnersAppend | python-webservice-template/persistence/stream_store/lsm_store.py:9-28 | the whole window-function merge equals upserting row by row |
| Merge.MergeIdempotent | python-webservice-template/persistence/stream_store/lsm_store.py:85-87 | merging a merge changes nothing |
| Merge.CompactionInvisible | python-webservice-template/persistence/stream_store/lsm_store.py:85-87 | merging the merge of A with B gives the same row sequence as merging A with B |
| Merge.WinnersKeys | python-webservice-template/persistence/stream_store/lsm_store.py:17-28 | the merge keeps exactly the keys it was given, tombstones included, and invents no row |
| Merge.OneRowPerKey | python-webservice-template/persistence/stream_store/lsm_store.py:17-28 | the merge has exactly one row per distinct key |
| Merge.WinnersAreNewest | python-webservice-template/persistence/stream_store/lsm_store.py:17-28 | with distinct sequence numbers a row is kept if and only if it has the largest of its key |
| Oracle.WinnersRepresent | python-webservice-template/persistence/stream_store/lsm_store.py:9-28 | the live rows of the merge are exactly the oracle's map over the same rows |
| Oracle.SortAscending | python-webservice-template/persistence/stream_store/lsm_store.py:37 | the sort is the strictly ascending permutation of rows with distinct keys |
| Oracle.MergeToRowsIsAnswer | python-webservice-template/persistence/stream_store/lsm_store.py:31-41 | merge on read over any division of the rows into frames is the oracle's answer, rows and total |
| Oracle.AnswerIsComplete | python-webservice-template/persistence/stream_store/lsm_store.py:38-41 | with no limit, limit 0 or a limit past the end every live record is answered and counted |
| Plain.KeyReadsColumns | python-webservice-template/persistence/stream_store/lsm_store.py:17-22 | a row's key is its own cells in the key columns, position by position |
| Plain.OneKeyExactly | python-webservice-template/persistence/stream_store/lsm_store.py:20-22 | two rows have one key if and only if they agree in every key column |
| Plain.AnswerShows | python-webservice-template/persistence/stream_store/lsm_store.py:31-41 | the oracle's answer is, of the rows that are no delete and that no later row equals in all key columns, the first ones the limit lets through in the order of their key cells, and the number of all of them |
| Plain.ShowsOneAnswer | python-webservice-template/persistence/stream_store/lsm_store.py:31-41 | no other answer meets that description |
| Oracle.SameNewestSameAnswer | python-webservice-template/persistence/stream_store/lsm_store.py:31-41 | frames with the same newest row per key answer every query alike |
| Oracle.AnswerIgnoresOrder | python-webservice-template/persistence/stream_store/lsm_store.py:31-41 | the answer is unchanged by any regrouping or permutation of the rows |
| Oracle.MergingAnyGroup | python-webservice-template/persistence/stream_store/lsm_store.py:85-87 | replacing any group of frames, anywhere, by its merge leaves every answer |
| Oracle.LaterRowsDecide | python-webservice-template/persistence/stream_store/lsm_store.py:31-41 | rows ingested later decide every key they touch and leave all others |
| Oracle.ReplayConverges | python-webservice-template/tests/test_solace_cache.py:128-134 | rows S after X give what S alone gives if and only if S touches every key live after X |
| Oracle.ReplayAnswersExactly | python-webservice-template/persistence/stream_store/lsm_store.py:31-41 | so does every single query: rows S after X answer as S alone if and only if S touches every key live after X |
| Oracle.RedeliveryConverges | python-webservice-template/tests/test_solace_cache.py:128-134 | any suffix of S followed by S once or more gives the map of S |
| Oracle.SeqnoKeyedTotal | python-webservice-template/persistence/stream_store/lsm_store.py:31-41 | with a key on the sequence number the total of a query is the number of live rows ever ingested |
| Oracle.SeqnoKeyConvergesExactly | python-webservice-template/persistence/stream_store/lsm_store.py:31-41 | with such a key every query after X and S answers as after S alone if and only if X holds no live row |
| Store.FlushKeepsRows | python-webservice-template/persistence/stream_store/lsm_store.py:78-83 | a flush moves rows and keeps every row in its place |
| Store.IngestKeepsInv | python-webservice-template/persistence/stream_store/lsm_store.py:63-76 | every ingest keeps the invariant: increasing genuine sequence numbers, row count, memtable below the threshold, run count, current snapshot, same merge as the history |
| Store.RunInv | python-webservice-template/persistence/stream_store/lsm_store.py:51-91 | the invariant holds after every sequence of batches, for every configuration |
| Store.NewestIsStored | python-webservice-template/persistence/stream_store/lsm_store.py:63-87 | the newest row ever ingested for a key is still held under its sequence number |
| Store.IngestHolds | python-webservice-template/persistence/stream_store/lsm_store.py:63-91 | after one more ingest the runs and memtable hold rows that merge as the whole history, in increasing sequence number |
| Store.HeldIsAnswer | python-webservice-template/persistence/stream_store/lsm_store.py:93-95 | frames that hold a history answer every query as the oracle over it |
| Store.QueryIsOracle | python-webservice-template/persistence/stream_store/lsm_store.py:93-95 | in every state the invariant allows a query answers as the oracle over the whole history |
| Store.RunIsOracle | python-webservice-template/persistence/stream_store/lsm_store.py:63-95 | after any batches, thresholds and limit a query is the oracle's answer |
| Store.RepresentationIndependent | python-webservice-template/persistence/stream_store/lsm_store.py:63-95 | stores with different thresholds, fed the same rows in different batches, answer alike |
| Store.RedeliveredBatchesConverge | python-webservice-template/tests/test_solace_cache.py:128-134 | a suffix of the batches and then all of them once or more answers as the batches once, whatever the thresholds |
| Store.SeqnoKeyedPast | python-webservice-template/persistence/stream_store/lsm_store.py:63-95 | a store keyed on the sequence number answers after more batches in front as without them if and only if those hold no live row, whatever thresholds and limit |
| Store.SeqnoKeyedRedeliveryExactly | python-webservice-template/tests/test_solace_cache.py:128-134 | redelivery to such a store converges if and only if the suffix sent again holds no live row and, when all is sent more than once, neither does the rest |
| Store.SeqnoKeyAnswersTwice | python-webservice-template/persistence/stream_store/lsm_store.py:31-41 | the failing input: one live row delivered twice is counted twice |
| Store.CompactionIsExact | python-webservice-template/persistence/stream_store/lsm_store.py:72-75 | right after a compaction exactly one row per key ever ingested is held, in one run |
| Store.IngestKeepsRunsWithin | python-webservice-template/persistence/stream_store/lsm_store.py:63-87 | the oldest run stays within a compaction or a flush, every other run within one flush |
| Store.SpaceIsBounded | python-webservice-template/persistence/stream_store/lsm_store.py:63-87 | the rows held after any ingests are within the space bound |
| StoreSpace.SpaceBoundIsReached | python-webservice-template/persistence/stream_store/lsm_store.py:63-87 | for all thresholds, every batch size and every non-empty list of rows with distinct keys, some batches of those rows use every key and fill the store exactly to the bound for that many keys |
| StoreSpace.SeqnoKeyKeepsEveryRow | python-webservice-template/persistence/stream_store/lsm_store.py:17-28 | with a key on the sequence number the rows held are all rows ever ingested, in arrival order |
| LsmStore.LSMStore.constructor | python-webservice-template/persistence/stream_store/lsm_store.py:51-61 | an empty valid store for any key columns; none or an empty list mean the column id |
| LsmStore.LSMStore.Ingest | python-webservice-template/persistence/stream_store/lsm_store.py:63-76 | a batch that fails to convert changes nothing; any other is appended to what queries answer from, and the row counts decide flush and compaction |
| LsmStore.LSMStore.Flush | python-webservice-template/persistence/stream_store/lsm_store.py:78-83 | the memtable becomes one run, no row moves relative to another |
| LsmStore.LSMStore.Compact | python-webservice-template/persistence/stream_store/lsm_store.py:85-87 | at most one run is left, and it merges with any later rows as the old runs did |
| LsmStore.LSMStore.Publish | python-webservice-template/persistence/stream_store/lsm_store.py:89-91 | after an ingest every query of the new snapshot answers as the plain map of the batches before and this one |
| LsmStore.LSMStore.Query | python-webservice-template/persistence/stream_store/lsm_store.py:93-95 | a query answers as the plain map of everything ingested and shows the rows in force, for every limit |
| SnapshotReads.AfterInv | python-webservice-template/persistence/stream_store/lsm_store.py:56-95 | in every interleaving the writer's partial state is the effect of its instructions so far on the last published store |
| SnapshotReads.ReadsAreLinearizable | python-webservice-template/persistence/stream_store/lsm_store.py:63-95 | every answer is the oracle's over a whole-batch prefix that holds every ingest returned before the call and none begun after the answer, and later reads never see less |
| SnapshotReads.BatchesAreBegun | python-webservice-template/persistence/stream_store/lsm_store.py:63-70 | in every schedule the batches are those of the ingests begun while no other was running, in order |
| SnapshotReads.RequestIsAnswered | python-webservice-template/persistence/stream_store/lsm_store.py:93-95 | a request called with a limit, whatever runs in between, gets one reply: for that limit, the rows of the batches published when it took the snapshot |
| SnapshotReads.OnlyPublishIsVisible | python-webservice-template/persistence/stream_store/lsm_store.py:89-94 | only the snapshot assignment changes what readers see, and it adds exactly one batch |
| SnapshotReads.WriterRefinesIngest | python-webservice-template/persistence/stream_store/lsm_store.py:63-76 | the writer's instructions run alone leave exactly what one whole ingest leaves, and then return |
| Backoff.DoubledIsCapped | python-webservice-template/services/stream_ingest.py:107 | the doubled delay equals the closed form except at a first attempt whose base exceeds the cap |
| Backoff.JitterBounds | python-webservice-template/core/retry.py:33-39 | a sleep is at least its delay and less than a quarter more |
| Backoff.SleepsIncreaseExactly | python-webservice-template/core/retry.py:33-39 | a sleep is longer than the one before for all draws if and only if 1.25 times the uncapped delay is within the cap |
| Backoff.SleepsGrow | python-webservice-template/tests/test_retry.py:44-70 | below the cap the sleeps are positive and strictly increase |
| Backoff.TotalSleep | python-webservice-template/core/retry.py:26-39 | total sleep lies between the sum of the capped delays and 1.25 times it |
| ConnectRetry.ConnectWithBackoff | python-webservice-template/core/retry.py:12-39 | the first success is returned, the last error is raised after exactly max_attempts failures, one sleep between calls, nothing at all below one attempt |
| IngestTrace.ShutdownExactly | python-webservice-template/services/stream_ingest.py:76-107 | the hook is called at call n if and only if shutdown is enabled, calls n-4 to n raised, the last four yielded nothing, and n is the first such call |
| IngestTrace.FailureWindowIs | python-webservice-template/services/stream_ingest.py:85-98 | in numbers: the last five calls raised and the last four yielded nothing |
| IngestTrace.CountIsWindow | python-webservice-template/services/stream_ingest.py:85-98 | the failure counter reaches five exactly at the end of such a window |
| IngestTrace.CallsAreBounded | python-webservice-template/services/stream_ingest.py:82-107 | with shutdown enabled the loop makes at most 4N+5 calls, N of them yielding |
| IngestTrace.LoopReturns | python-webservice-template/services/stream_ingest.py:82-107 | a long enough trace of ended calls makes the loop return |
| IngestTrace.BoundIsReached | python-webservice-template/services/stream_ingest.py:82-107 | for every N some trace makes the loop call exactly 4N+5 times |
| IngestTrace.AfterFailure | python-webservice-template/services/stream_ingest.py:92-107 | counter and delay after a failed call decide stopping and sleeping as the trace alone says |
| IngestTrace.SleepBounds | python-webservice-template/services/stream_ingest.py:105-107 | every sleep is in [d, 1.25d) and under 75 s; after a yield d is one second again |
| IngestTrace.SleepsAt | python-webservice-template/services/stream_ingest.py:105-107 | one sleep per failed call that did not stop the loop, the backoff of the failures in a row then |
| IngestTrace.AllSleepsBounded | python-webservice-template/services/stream_ingest.py:105-107 | every sleep the loop makes is positive and under 75 seconds, for every trace |
| IngestTrace.LoopAdvances | python-webservice-template/services/stream_ingest.py:83-107 | from right variables, one call either ends the loop as the trace says or leaves them right for the next call |
| IngestTrace.SleepBeforeShutdown | python-webservice-template/services/stream_ingest.py:98-107 | the four sleeps before the hook is called total between 15 s and 18.75 s |
| IngestTrace.RecordCallsAccepts | python-webservice-template/services/stream_ingest.py:84-90 | recording every batch of the calls once and in order accepts exactly those that convert |
| Watchdog.FiresInTime | python-webservice-template/services/stream_ingest.py:109-128 | found disconnected at every sample from t on, some sample fires before the deadline: two polls past the threshold, within ten seconds of it and within twice it, but for slack |
| Watchdog.FiresExactly | python-webservice-template/services/stream_ingest.py:116-122 | a sample fires if and only if it ends a span of at least the threshold in which no sample was connected |
| Watchdog.ReconnectPreventsFiring | python-webservice-template/services/stream_ingest.py:116-118 | a transport found connected less than the threshold before a sample keeps that sample from firing |
| Watchdog.OutageFires | python-webservice-template/services/stream_ingest.py:109-128 | among the samples of any watch that lasts to the deadline of an outage one fires before it |
| StreamIngest.StreamIngestService.RecordIngest | python-webservice-template/services/stream_ingest.py:71-74 | total and time of last batch change only when the store took the batch |
| StreamIngest.StreamIngestService.RecordAll | python-webservice-template/services/stream_ingest.py:84-90 | each batch of a call is recorded once in order and resets counter and delay |
| StreamIngest.StreamIngestService.OneCall | python-webservice-template/services/stream_ingest.py:83-107 | what one call leaves behind: its batches recorded, the loop left or the sleep to take, counter, delay and hook |
| StreamIngest.StreamIngestService.IngestLoop | python-webservice-template/services/stream_ingest.py:76-107 | for every consumer trace: which calls are made, how the loop ends, what is recorded, how often the hook is called and how long each sleep is |
| StreamIngest.StreamIngestService.DisconnectWatchdog | python-webservice-template/services/stream_ingest.py:109-130 | the hook is called once, at the first sample ending a span of at least the threshold with every sample disconnected, and never within the threshold of a sample that was connected |
| StreamIngest.StreamIngestService.Watch | python-webservice-template/services/stream_ingest.py:49-54 | the watchdog acts if and only if a threshold is set and some sample fires |
| StreamIngest.WatchOutage | python-webservice-template/services/stream_ingest.py:109-128 | run through an outage, the watchdog calls the hook exactly once and before the deadline |
| ConsumerLog.CountKeepsInv | python-webservice-template/services/stream_ingest.py:92-104 | counting a failure gives up exactly when the calls end a failure window, and keeps the log in step with the trace |
| ConsumerLog.LogDrivesLoop | python-webservice-template/services/stream_ingest.py:82-107 | the calls of a log kept by counting are those the loop makes, with the same exit and the same batches accepted |
| StreamIngest.StreamIngestService.GetData | python-webservice-template/services/stream_ingest.py:156-160 | the data endpoint answers as the plain map of everything accepted and shows its rows in force |
| FlightConsumer.AtMostOneLateCall | python-webservice-template/ingestion/flight/client.py:33-61 | a call of batches() that begins once closing is set yields nothing, returns in its next step, and no further call begins |
| FlightConsumer.ExitMeansClosed | python-webservice-template/ingestion/flight/client.py:33-75 | the loop exits as closed only after close() began, and a finished close() has closed the client |
| FlightConsumer.YieldedIsReceived | python-webservice-template/ingestion/flight/client.py:43-45 | in every run what is yielded is exactly the chunks that arrive while the thread waits on an uncancelled stream, unchanged and in order |
| FlightConsumer.StateReported | python-webservice-template/ingestion/flight/client.py:38-56 | before any close() the state reported is CONNECTED exactly while streaming |
| FlightConsumer.StreamsAreNew | python-webservice-template/ingestion/flight/client.py:40 | every stream the server opens is a new one that nobody holds or has cancelled |
| FlightConsumer.CallWithoutClient | python-webservice-template/ingestion/flight/client.py:36-37 | a call that finds the client gone returns at once |
| FlightConsumer.CallOpens | python-webservice-template/ingestion/flight/client.py:38-44 | a call that finds the client asks for a stream; without one it raises, with one it stores it, reports CONNECTED and reads |
| FlightConsumer.StreamEndHandled | python-webservice-template/ingestion/flight/client.py:52-57 | a stream that ends is dropped before closing is looked at; the call then returns, or reports the loss and raises |
| FlightConsumer.StreamBreakHandled | python-webservice-template/ingestion/flight/client.py:46-52 | a stream that breaks is kept while closing is looked at; the call then drops it and returns, or reports the loss, drops it and raises |
| FlightConsumer.LoopReturnsAfterClose | python-webservice-template/ingestion/flight/client.py:33-68 | from wherever the ingest thread is once closing is set, the loop returns within eight of its steps and two more per chunk that still arrives |
| FlightConsumer.InFlightCallReturns | python-webservice-template/ingestion/flight/client.py:46-57 | a stream that breaks or ends while closing is set returns cleanly |
| FlightConsumer.CancelledExactly | python-webservice-template/ingestion/flight/client.py:67-75 | a stream is cancelled by the end of close() if and only if it was before or the reader field held it when close() read it, whatever the ingest thread does |
| FlightConsumer.ExitExactly | python-webservice-template/ingestion/flight/client.py:33-75 | after a finished close() the loop is bound to return if and only if no uncancelled stream is in flight |
| FlightConsumer.CloseGuaranteesExit | python-webservice-template/ingestion/flight/client.py:36-75 | every way the first close() can finish leaves a loop bound to return if and only if no call is between its check of closing and its store of the reader when closing is set |
| FlightConsumer.StreamOutlivesClose | python-webservice-template/ingestion/flight/client.py:40-75 | the failing interleaving: all of close() runs between opening the stream and storing its reader, nothing is cancelled and the loop reads on |
| SolaceConsumer.CallSubscribes | python-webservice-template/ingestion/solace/client.py:105-114 | a call left alone builds, keeps and starts a receiver, subscribes and reads, and raises at the first of these that fails |
| SolaceConsumer.HandOffIsFifo | python-webservice-template/ingestion/solace/client.py:30-37 | what is yielded is a prefix of the messages that arrived before close() put its first sentinel, unchanged and in order, and exactly those on a clean exit |
| SolaceConsumer.EnqueuedIsPut | python-webservice-template/ingestion/solace/client.py:30-37 | in every run the queue has been given exactly the messages that arrived, in order, and one sentinel per close() |
| SolaceConsumer.GeneratorDrains | python-webservice-template/ingestion/solace/client.py:113-121 | with the sentinel queued a running generator ends within two steps per batch ahead of it and one more |
| SolaceConsumer.CleanExitExactly | python-webservice-template/ingestion/solace/client.py:104-127 | once close() has cleared the service, some number of steps is sure to exit the loop cleanly if and only if the generator reads the queue, holds a batch or is done |
| SolaceConsumer.CloseGuaranteesExit | python-webservice-template/ingestion/solace/client.py:104-127 | every way close() can go on to clear the service leaves a loop bound to exit cleanly if and only if the generator reads the queue, holds a batch or is done when close() begins |
| SolaceConsumer.CloseReleases | python-webservice-template/ingestion/solace/client.py:119-127 | a close() that begins while the generator reads the queue leaves neither receiver nor service, whatever runs in between |
| SolaceConsumer.ReceiverIsBuilt | python-webservice-template/ingestion/solace/client.py:104-111 | no receiver exists before a call of batches() has begun |
| SolaceConsumer.CloseDuringBackoffStrandsLoop | python-webservice-template/ingestion/solace/client.py:104-127 | the failing interleaving: all six steps of close() run while the loop sleeps after a failed start; with shutdown disabled no continuation exits |
| SolaceConsumer.CleanExitPossible | python-webservice-template/ingestion/solace/client.py:104-127 | once the service is cleared some continuation exits cleanly if and only if the generator reads the queue, is done, or has a receiver to go on with |
| SolaceConsumer.LateCallNeverDrains | python-webservice-template/ingestion/solace/client.py:105-112 | once the service is cleared, a loop whose call has no receiver to go on with never exits cleanly |
| SolaceConsumer.DisabledLoopNeverExits | python-webservice-template/services/stream_ingest.py:81-107 | with automatic shutdown disabled such a loop never exits |
| SolaceConsumer.EnabledLoopLeaves | python-webservice-template/services/stream_ingest.py:81-107 | with automatic shutdown enabled and the service gone the loop is left within a stated number of its steps |
| SolaceConsumer.LeavesExactly | python-webservice-template/ingestion/solace/client.py:104-127 | once the service is cleared the loop is bound to be left if and only if automatic shutdown is enabled or the generator reads the queue, holds a batch or is done |
| SolaceConsumer.CloseGuaranteesLeaving | python-webservice-template/ingestion/solace/client.py:104-127 | the same condition when close() begins decides whether every way it can go on leaves a loop bound to be left; a loop ended by the hook counts as left |
| EndToEnd.ServeTrace | python-webservice-template/main.py:57-64 | for every consumer trace a query shows the rows in force of the accepted batches and the row total is the next sequence number |
| EndToEnd.FlightDrivesLoop | python-webservice-template/services/stream_ingest.py:82-107 | in any run of the Flight machine, whose counter alone decides giving up, the calls answered are exactly those the loop makes, it exits as the machine does and accepts what was yielded |
| EndToEnd.ServeFlight | python-webservice-template/ingestion/flight/client.py:33-59 | in every interleaving, once the loop has recorded what was yielded, a query shows the rows in force of exactly the convertible chunks that arrived on an uncancelled stream |
| EndToEnd.SolaceDrivesLoop | python-webservice-template/services/stream_ingest.py:82-91 | in any run of the Solace machine, whose counter alone decides giving up, the calls answered are exactly those the loop makes, it exits as the machine does and accepts what was yielded |
| EndToEnd.ServeSolace | python-webservice-template/ingestion/solace/client.py:104-127 | in every interleaving a query after a clean exit shows the rows in force of exactly the convertible messages that arrived before the first sentinel |
| Serving.AfterInv | python-webservice-template/services/stream_ingest.py:76-91 | with transport, ingest thread and readers interleaved, the store has begun exactly the convertible batches handed over, in order, and writes only while the loop records one |
| Serving.ReadersFollowConsumer | python-webservice-template/services/stream_ingest.py:71-91 | at every moment a reader is shown the rows in force of the first convertible batches yielded: at least all but the one in hand, at most all |
| Serving.RecordingEnds | python-webservice-template/services/stream_ingest.py:84-90 | a batch in hand never holds up the loop: from every reachable state the ingest thread alone finishes recording it and may go on |
| Serving.AnswersFollowConsumer | python-webservice-template/services/stream_ingest.py:71-91 | every answer given shows a prefix of the convertible batches yielded, with every one recorded before the call and none begun after the answer |
| Serving.RequestFollowsConsumer | python-webservice-template/services/stream_ingest.py:156-160 | a request called with a limit in the running whole gets one reply, for that limit, over the batches published when it took the snapshot |
| Serving.YieldedIsSent | python-webservice-template/ingestion/solace/client.py:30-37 | what is yielded in the running whole is what the server or the broker sent |
| Serving.AllIsSeenAfterExit | python-webservice-template/services/stream_ingest.py:84-104 | once the loop is left readers are shown every row that was sent and converted: of the chunks that arrived, and after a clean Solace exit of the messages before the first sentinel |

## Left out

- LSMStore.Ingest: calls are assumed serialised, as the store's own comment asks; HTTP ingest records from a worker thread, and nothing is claimed for two writers at once.
- LSMStore.Ingest: one uniform schema is assumed, with the key columns and a text `op` present; a concatenation that fails inside a flush is not modelled.
- Oracle.RedeliveryConverges: keys on `seqno` are excluded here and in LaterRowsDecide, ReplayConverges, ReplayAnswersExactly and Store.RedeliveredBatchesConverge; `SeqnoKeyConvergesExactly` and `SeqnoKeyedRedeliveryExactly` say exactly when queries agree for such keys.
- StoreSpace.SpaceBoundIsReached: keys on `seqno` are excluded, since no list of rows can repeat a key then; `SeqnoKeyKeepsEveryRow` gives the exact space for them.
- Merge.Outranks: rows of one key with equal sequence numbers are ranked by position; reachable states have none, so no result about the store depends on it.
- SnapshotReads: each shared field access is one atomic step, and a list copied into a snapshot is a value; aliasing of Python lists is not modelled.
- FlightConsumer and SolaceConsumer: the clients are step machines over values rather than classes, because their methods run concurrently; the connection state Solace listeners report is not modelled, and nothing is claimed about the state Flight reports after `close()`, which a racing call can overwrite.
- FlightConsumer: a cancelled stream is taken to yield nothing more, as `close()` relies on; whether gRPC delivers a chunk already received is not modelled.
- FlightConsumer and SolaceConsumer: runs of `close()` follow one another, as the service's exit and the consumer's exit do, and SDK calls made inside `close()` are taken to succeed.
- Serving: the consumer's own field accesses and the store's are single steps; the row total, the time of the last batch and the loop's sleeps are left to `StreamIngest`.
- Watchdog: it sees samples; changes of the connection between polls are not modelled, nor is cancellation other than as the end of the samples.
- IngestTrace: the clock, the random source and the shutdown hook's own effect are inputs; floating-point rounding is not modelled.
- The ten-second join timeout of the supervisor, start-up and shutdown of its thread and task, and health, readiness and metrics reporting.
- Arrow decoding, polars internals, gRPC, the Solace SDK, signals and logging.
- Configuration, dependency container, cache, relational and analytics services, routers, MCP and the Rust template: thin wrappers with single-branch logic.
