# Proofs about the ingest pipeline

A Dafny model of reporadar's ingest code and proofs of what it is for. `dafny verify dfyconfig.toml`
checks everything.

Two stateful protocols carry most of it.

**The archive convergence system** (`hour.py`, `converge.py`, `ledger.py`, `lake.py`, `archive.py`,
`verify.py`, `repair.py`). Everything durable is one `World`: downloaded sources, final partitions,
their staged parts, and ledger rows, each a map over hours; `Cell` is its slice at one hour. The
routines are methods over the three stores (`ArchiveDir`, `LakeDir`, `ArchiveHours`), each proved
against a function of the old world. The same ingest is taken apart into nine durable effects
(`Ingest.StepTask`) so that a crash, or another task, can fall between any two of them; `Schedule`
interleaves the tasks of one pass under the semaphore and the connection lock, and `Session` runs any
list of passes, repairs, crashes and outside deletions. An action the machine is not ready for leaves
it as it is, so "for every list of actions" is "for every run". `Converge` says what one pass achieves,
`Verify` what a clean bill means, `Repair` why deleting before refetching heals what the loop never
can, and `Assurance` joins them.

**The at-least-once stream consumer** (`kafka.py`, `consumer.py`, `dedup.py`, `store.py`). `Consumer`
is the loop as the program runs it; `Route` is the function one batch computes. `Delivery` puts the
same `Route` into a machine with a partitioned log, committed offsets, a volatile window and a crash
at any step, and proves the effect is effectively once under every schedule.

Around them: `Dedup` (the bounded window against a reference that never evicts), `Wire` (the two
envelopes and Base64), `Aggregate` (the day queries as relations, so that what the engine may choose
is visible, with the exact conditions under which it has no choice), `Sinks` (the hourly capture read
back, and the tee), `Topics` (any number of provisioners racing against a broker that answers with
codes), `Gaps` and `Freshness` (verdicts over the accumulated history and the marts).

Times are whole seconds and an hour is `day * 24 + hour of day`. SQL tables are maps, the upsert a
guarded map update, a batch insert one atomic step. The clock, the publisher's answers, the stop
event, a filesystem that refuses, rows the database refuses, letters the broker never confirms, and
ledger rows another writer removes meanwhile are parameters.

Six promises do not hold for every input. Each has its failing input and its exact condition.

- One bad message never halts ingestion (`consumer.py:8`). An event decodes with an actor id of 2^63,
  its column is a `bigint`, and nothing catches the store: the batch is redelivered for ever
  (`Delivery.OversizedIdHaltsIngestion`; `Delivery.OneEventCanFinish` says exactly which events do
  this). Where copies of an id are accepted or refused alike,
  the log can be committed exactly when the database accepts every event in it
  (`Delivery.CanFinishMeans`).
- A counting repair that ends ok passes the next counting verify. A refetched hour without an event
  is reported recovered and is a target again (`Repair.EmptyHourIsTargetAgain`), because a query
  grouped by hour has no group for it; in a correctly filed lake the promise holds exactly when no
  target's source is empty (`Repair.VerifyCountsAfterRepair`).
- A day lands whole or not at all (`aggregate.py:62-65`). The two files are renamed one after the
  other (`aggregate.py:342`, called twice), so a stop in between leaves one new and one old; they
  change together exactly otherwise (`Aggregate.FilesChangeTogether`).
- Decoding a dead letter fails in one of two ways (`wire.py:157-160`). The fields are looked up
  without a check (`wire.py:166-172`), so a document with nothing but its version fails in a third
  (`Wire.BareVersionEscapes`), exactly when a field is missing or a key or value is not Base64 text
  (`Wire.DeadLetterFailures`, and `Wire.Unbase64Accepts` for which texts are). A reason or detail of another type is no failure at all
  (`Wire.LetterIsReadBack`).
- The aggregates do not depend on the order rows are read in (`Aggregate.TablesIgnoreOrder`). The
  dedup has one answer exactly when nothing ties for an id's earliest copy
  (`Aggregate.DedupIsDetermined`), the repository table one exactly when nothing ties for a latest
  name (`Aggregate.RepoTableIsDeterminedIff`).
- Racing provisioners all succeed. They do when every absent topic can be hosted
  (`Topics.RaceOutcome`), and with distinct names none does otherwise (`Topics.UnfitRaceFails`).

## Model

| member | source | states |
|---|---|---|
| `Dedup.RecentIds.Create` | src/reporadar/ingest/dedup.py:41-45 | a window of size below one is refused; otherwise a new window is empty and has the size asked for |
| `Dedup.RecentIds.Add` | src/reporadar/ingest/dedup.py:47-57 | true exactly when the id is not among the last maxlen accepted ids; afterwards the window is the last maxlen accepted ids, in order, without repeats |
| `Dedup.WindowIsLastAccepted` | src/reporadar/ingest/dedup.py:41-57 | after any sequence of adds the evicting window equals the last min(maxlen, n) ids of a reference that never evicts, and repeats nothing |
| `Dedup.AcceptedSameIds` | src/reporadar/ingest/dedup.py:47-57 | an id is accepted at some time exactly when it was added: none invented, none swallowed |
| `Dedup.ReacceptanceGap` | src/reporadar/ingest/dedup.py:47-57 | between two acceptances of one id lie at least maxlen distinct other accepted ids |
| `Dedup.DuplicatesNeverRefresh` | src/reporadar/ingest/dedup.py:47-57 | feeding only the accepted ids gives the same acceptances and the same window, so a duplicate never extends the life of anything |
| `Wire.Base64RoundTrip` | src/reporadar/ingest/wire.py:134-172 | every byte string survives section 4 of RFC 4648, with zero, one or two pads |
| `Wire.ReadGroup` | src/reporadar/ingest/wire.py:166-172 | four symbols read back as exactly the three bytes they were made from, whatever follows |
| `Wire.Base64IsText` | src/reporadar/ingest/wire.py:145-151 | the encoding is alphabet and pad characters only, in whole groups of four, of the expected length |
| `Wire.Unbase64Accepts` | src/reporadar/ingest/wire.py:166-172 | a text decodes exactly when it is ASCII and either has a pad that closes a group or holds whole groups of four symbols, whatever else stands between them |
| `Wire.LiveRoundTrip` | src/reporadar/ingest/wire.py:81-108 | decoding an encoded live envelope gives back the event and its capture time |
| `Wire.LiveOutcomes` | src/reporadar/ingest/wire.py:97-108 | corrupt exactly when the bytes do not parse; a foreign version, with the version found, exactly when they parse to anything but an object of version 1; a wrong shape exactly when an object of version 1 has a field missing or unreadable; valid, with the envelope of those fields, otherwise |
| `Wire.VersionMeans` | src/reporadar/ingest/wire.py:105-107 | which JSON values compare equal to a version number: that number however many zeros its literal ends in, and for zero and one the boolean that equals it |
| `Wire.DeadLetterRoundTrip` | src/reporadar/ingest/wire.py:134-172 | decoding an encoded dead letter gives back reason, detail, every byte of the value, and the key, an absent key distinct from an empty one |
| `Wire.DeadLettersNeverCollide` | src/reporadar/ingest/wire.py:134-151 | two dead letters with the same bytes were made from the same reason, detail, value and key |
| `Wire.DeadLetterFailures` | src/reporadar/ingest/wire.py:154-172 | decoding fails as unparseable or as a foreign version, with the version found, exactly when the bytes are that, and in a third way exactly when an object of this version lacks a field or holds a key or value that is no text of whole or closed Base64 groups |
| `Wire.BareVersionEscapes` | src/reporadar/ingest/wire.py:157-172 | a document that holds nothing but the version parses, has the right version, and fails in the third way |
| `Wire.LetterIsReadBack` | src/reporadar/ingest/wire.py:166-172 | a reason or detail of any JSON type is handed on as it is |
| `Store.InsertAllKeys` | src/reporadar/ingest/store.py:76-81 | a batch insert adds exactly the keys it carries and never changes a row that was there |
| `Store.InsertAllRows` | src/reporadar/ingest/store.py:76-104 | every row that was not there before carries, field by field, an envelope of the batch under that envelope's id and creation time |
| `Store.InsertAllFirstWins` | src/reporadar/ingest/store.py:76-104 | a new key holds, field by field, the first envelope that carried it |
| `Store.InsertAllAppend` | src/reporadar/ingest/store.py:129-132 | storing two batches one after the other is storing their concatenation |
| `Store.RedeliveryIsNoOp` | src/reporadar/ingest/store.py:76-81 | redelivering keys that are already stored leaves the table as it is |
| `Store.InsertAllConsistent` | src/reporadar/ingest/store.py:85-104 | every row agrees with its own key on event id and creation time |
| `Store.PostgresStore.Write` | src/reporadar/ingest/store.py:123-132 | one batch is one transaction: refused, it leaves the table as it was; accepted, every old row stays, every envelope has a row under its id and creation time, and each new row is an envelope of the batch field by field |
| `Metrics.ConsumeCounters.RecordBatch` | src/reporadar/ingest/metrics.py:82-96 | the four counters move by the batch, and the derived duplicates by what was neither stored nor dead-lettered |
| `Metrics.ArchiveCounters.RecordHour` | src/reporadar/ingest/metrics.py:128-139 | each attempt lands in exactly one of ingested, missing, failed and outstanding; events only from ingested hours |
| `Consumer.ConsumeStream` | src/reporadar/ingest/consumer.py:97-150 | refuses a window below one, ends at the first set stop, at the end of the source, or where a sink raises; in each case the two sinks hold exactly what the batches up to there determine, and the derived duplicates of a finished run are exactly the decodable messages found in the window |
| `Consumer.ConsumeBatches` | src/reporadar/ingest/consumer.py:123-148 | the loop: after k whole batches the sinks hold the routing of the first k and the counters their sizes; a refusing store leaves nothing of its batch, a failing dead-letter sink leaves the batch stored and the letters that did arrive |
| `Consumer.ConsumeBatch` | src/reporadar/ingest/consumer.py:126-146 | one turn: the store gets the fresh events, then the dead-letter sink the failures, then the counters move, and the first of the two to raise ends the turn |
| `Consumer.RouteBatch` | src/reporadar/ingest/consumer.py:130-139 | the inner loop routes each message to the store, the failures, or nowhere, updating the window as it goes |
| `Consumer.BatchBoundariesDoNotMatter` | src/reporadar/ingest/consumer.py:123-146 | two cuts of the same stream into batches give both sinks the same things in the same order, and the same window |
| `Consumer.ProcessedIsRouteOfStream` | src/reporadar/ingest/consumer.py:123-146 | a run over batches is the run over their concatenation in one piece |
| `Consumer.RunMeans` | src/reporadar/ingest/consumer.py:120-150 | the store received exactly the accepted ids in order, the dead-letter sink exactly the undecodable messages in order, and consumed = stored + dead-lettered + re-seen |
| `Consumer.StreamOutcomes` | src/reporadar/ingest/consumer.py:88-143 | from the bytes alone: the store is handed only envelopes some document of version 1 carries; every other message becomes a letter with its own bytes and the reason its bytes give (unparseable, foreign version, wrong shape), and nothing else becomes one |
| `Consumer.RouteStoresAccepted` | src/reporadar/ingest/consumer.py:130-141 | from an empty window the store is handed exactly the ids a sliding window accepts, in order of arrival |
| `Consumer.RouteFailures` | src/reporadar/ingest/consumer.py:133-137 | a batch's letters are, in order, those of exactly its messages that do not decode |
| `Consumer.EveryMessageCounted` | src/reporadar/ingest/metrics.py:82-96 | every message is accepted, dead-lettered or re-seen, and only one of them |
| `Consumer.RouteCovers` | src/reporadar/ingest/consumer.py:130-143 | every message of a batch was in the window it met, is handed to the store, or became a letter; the window gains only what the store was handed |
| `Consumer.RouteSources` | src/reporadar/ingest/consumer.py:130-143 | whatever reaches a sink came from a message of the batch |
| `Consumer.DeadLetterSink.Send` | src/reporadar/ingest/kafka.py:120-134 | all letters are sent, encoded, with their original key and in order, before any is confirmed; one lost confirmation fails the call |
| `Consumer.LettersAreRecoverable` | src/reporadar/ingest/wire.py:154-172 | reading the dead-letter topic back recovers every letter with its original bytes |
| `Delivery.StepKeeps` | src/reporadar/ingest/kafka.py:198-207 | every step of polling, storing, delivering, committing and crashing keeps the invariant: the window refuses only ids already stored, what is read and uncommitted is in hand, what is committed is settled |
| `Delivery.CommitKeeps` | src/reporadar/ingest/kafka.py:205-207 | committing after the yield never moves an offset past an unsettled message |
| `Delivery.CrashKeeps` | src/reporadar/ingest/kafka.py:230-238 | losing the window and the batch in hand and rewinding to the committed offsets loses nothing settled |
| `Delivery.LogIsWhatWasProduced` | src/reporadar/ingest/kafka.py:198-207 | the log is append-only through every schedule: what it began with, then what was produced, in order |
| `Delivery.AnyCutCanBePolled` | src/reporadar/ingest/kafka.py:198-205 | a poll may hand over any number of the messages still unread in a partition, in order, and moves its position past exactly those |
| `Delivery.NothingCommittedIsLost` | src/reporadar/ingest/kafka.py:198-207 | under every crash schedule, each message below a committed offset is in the store or, when undecodable, was dead-lettered |
| `Delivery.NothingIsInvented` | src/reporadar/ingest/consumer.py:120-146 | under every crash schedule each stored row carries, field by field, the envelope of a message of the log, and each dead letter is that of another |
| `Delivery.EffectivelyOnce` | src/reporadar/ingest/kafka.py:198-207 | when the whole log is committed, the stored ids are exactly the decodable ids and every undecodable message was dead-lettered |
| `Delivery.OneRowPerId` | src/reporadar/ingest/store.py:76-81 | when an id fixes its creation time, redelivery leaves it one row |
| `Delivery.ProgressIsKept` | src/reporadar/ingest/kafka.py:198-207 | whatever follows, stored rows stay word for word, letters stay, committed offsets never move back |
| `Delivery.EveryRunCanFinish` | src/reporadar/ingest/kafka.py:198-207 | while the database accepts every event of the log, from wherever a crash schedule left the pipeline the whole log can be committed without another crash |
| `Delivery.EachLetterOnce` | src/reporadar/ingest/kafka.py:120-134 | however its letters are delivered, a batch adds exactly its letters to those sent, each as often as it is one, so only a crash can make one come twice |
| `Delivery.RefusedIsNeverPassed` | src/reporadar/ingest/consumer.py:141-142 | no schedule ever commits past a message whose id the database refuses |
| `Delivery.CanFinishMeans` | src/reporadar/ingest/consumer.py:1-8 | where copies of an id are accepted or refused alike, the log can be committed to its end exactly when the database accepts every event it decodes to |
| `Delivery.OversizedIdHaltsIngestion` | src/reporadar/ingest/store.py:55-68 | a log of one event whose actor id is 2^63 is never committed and never stored, whatever happens |
| `Delivery.OneEventCanFinish` | src/reporadar/ingest/store.py:55-68 | a log of one event can be committed to its end exactly when both its ids fit 64 bits and none of its texts holds a NUL |
| `Ledger.ArchiveHours.RecordHour` | src/reporadar/ingest/ledger.py:119-129 | the guarded upsert: a row that is not ingested never replaces one that is, any other row is written, and every other hour is untouched |
| `Ledger.ArchiveHours.ForgetIngestedHours` | src/reporadar/ingest/ledger.py:283-312 | removes and returns exactly the ingested rows among the hours asked for |
| `Ledger.PendingIs` | src/reporadar/ingest/ledger.py:135-146 | the scan returns every unsettled hour of the inclusive day range once, oldest first, and nothing else |
| `Archive.ArchiveDir.DownloadHour` | src/reporadar/ingest/archive.py:36-55 | a source in place is returned without asking; otherwise a complete body lands whole or nothing does, and no part file remains |
| `Lake.LakeDir.WriteHour` | src/reporadar/ingest/lake.py:121-162 | the partition holds the previous file or the newly checked one, never a mismatched one, and no part file remains |
| `Lake.VerifyHourMeans` | src/reporadar/ingest/lake.py:174-201 | the check passes exactly when every row carries the hour asked for, and then returns the row count |
| `Ingest.IngestHour` | src/reporadar/ingest/hour.py:122-187 | refused exactly before the hour's end, and then untouched; otherwise reported missing exactly when no source is in place and the answer is a 404 with the grace gone by, failed exactly when the source in use has a row of another hour or cannot be read, ingested exactly when it does not, each recorded as such unless the hour is ingested already; the file, the source and every other hour are as that leaves them |
| `Ingest.AttemptMeans` | src/reporadar/ingest/hour.py:122-187 | the cell function every pass is stated with has exactly those outcomes and those effects |
| `Ingest.ConvertAndRecord` | src/reporadar/ingest/hour.py:146-166 | a refused conversion records failed and leaves the partition; a good one replaces it and records its count and size |
| `Ingest.FinishIsIngest` | src/reporadar/ingest/hour.py:131-187 | taken apart into single durable effects, an attempt run alone to its end does what it does in one piece |
| `Ingest.SameCells` | src/reporadar/ingest/hour.py:131-187 | two archive states that agree hour by hour are equal, so an attempt described at its own hour is described entirely |
| `Converge.ConvergeOnce` | src/reporadar/ingest/converge.py:105-144 | a concurrency below one is refused; otherwise the world ends as ingesting the due hours one by one leaves it, and each report is counted under its own status |
| `Converge.CountReports` | src/reporadar/ingest/converge.py:141-142 | the four outcome counters and the event total move by exactly the reports |
| `Converge.IngestAll` | src/reporadar/ingest/converge.py:126-140 | every due hour is attempted once and reports what its own attempt came to |
| `Converge.PassCells` | src/reporadar/ingest/converge.py:126-140 | distinct due hours do not meet: each ends as its own ingest leaves it, every other hour untouched |
| `Converge.DueIs` | src/reporadar/ingest/converge.py:109-110 | due hours are exactly the pending ones that have closed, oldest first |
| `Converge.PendingAfterPass` | src/reporadar/ingest/converge.py:109-144 | after a pass, pending over the same range are exactly the unclosed hours and those whose attempt was recorded nowhere, or failed when failures are retried |
| `Converge.PendingCountDrops` | src/reporadar/ingest/converge.py:109-144 | the number of pending hours drops by exactly the number of hours the pass settled |
| `Converge.OnePassConverges` | src/reporadar/ingest/converge.py:109-144 | one non-retrying pass over closed hours leaves nothing pending exactly when every due hour got a definitive answer |
| `Schedule.BoundedAndSerialised` | src/reporadar/ingest/converge.py:55-79 | at every moment of every interleaving at most concurrency ingests are active and at most one statement is on the connection |
| `Schedule.SomeTaskCanStep` | src/reporadar/ingest/converge.py:123-140 | until every task is done some task can step: the semaphore and the lock cannot deadlock |
| `Schedule.EveryStepIsProgress` | src/reporadar/ingest/converge.py:126-140 | each effective step uses up one of finitely many effects |
| `Schedule.EveryPassCanFinish` | src/reporadar/ingest/converge.py:126-140 | from the start of a pass a schedule of at most nine steps per due hour finishes it |
| `Schedule.ScheduleIndependence` | src/reporadar/ingest/converge.py:123-142 | whatever the interleaving, a finished pass leaves ledger, lake and sources as ingesting the due hours one by one would, with the same reports |
| `Schedule.OrderIndependence` | src/reporadar/ingest/converge.py:140 | the order in which the due hours are taken does not matter either |
| `Session.CrashSafety` | src/reporadar/ingest/hour.py:131-187 | after any run of passes, repairs and crashes, each ingested row's count and size are those of the file at its path and each partition holds only its own hour's rows |
| `Session.HourStaysBacked` | src/reporadar/ingest/lake.py:121-151 | a true claim stays true whatever follows, unless its own file is deleted from outside |
| `Session.SourceOutlivesRecord` | src/reporadar/ingest/hour.py:175-179 | a downloaded source disappears only in a state that records its hour ingested |
| `Session.SettledIsForever` | src/reporadar/ingest/ledger.py:119-129 | without a repair, ingested and missing rows never change again |
| `Session.FailedChangesOnlyOnRetry` | src/reporadar/ingest/ledger.py:252-256 | a failed row changes only inside a pass that retries failures, by that hour's own task |
| `Session.EveryRowOnTime` | src/reporadar/ingest/hour.py:122-129 | every row was recorded at or after its hour closed, every missing row not before the grace had passed as well |
| `Session.FalseClaimSurvives` | src/reporadar/ingest/ledger.py:119-129 | a claim whose file is gone survives any number of passes: the row stays, no file appears, no scan ever finds the hour pending |
| `Session.RepairedIsNeverFalselyClaimed` | src/reporadar/ingest/repair.py:242-246 | once a repair has cleared an hour it is pending, and from then on, crashes included, the ledger claims it only when its file backs the claim |
| `Session.WholePassIsPassWorld` | src/reporadar/ingest/converge.py:105-144 | started, run through in any interleaving and ended, a pass of the process leaves exactly the world of ingesting its due hours one by one |
| `Session.PassEndsWhenFinished` | src/reporadar/ingest/converge.py:123-144 | short of a crash a pass ends exactly when every one of its tasks has come to its end |
| `Session.OnePassAfterAnyRun` | src/reporadar/ingest/converge.py:105-144 | after any run cut off by a crash, one non-retrying pass over closed hours leaves nothing of its range pending exactly when every hour it found due got a definitive answer |
| `Session.WholePassExists` | src/reporadar/ingest/converge.py:123-140 | such a pass can always be run to its end, in at most nine effects for each due hour |
| `Verify.VerifyLake` | src/reporadar/ingest/verify.py:217-257 | each problem is found of exactly the hours it is true of, ok exactly when every claim holds, agreed + unbacked = claimed, and unsized is exactly the claims that hold with no size recorded |
| `Verify.CheckClaims` | src/reporadar/ingest/verify.py:237-244 | the loop over the claims finds absent, size or count of exactly the claimed hours that is true of, and every other claim is counted as agreed |
| `Verify.Surplus` | src/reporadar/ingest/verify.py:249-254 | the files no ingested row claims, in the order the directory walk meets them |
| `Verify.OkMeansEveryClaimHolds` | src/reporadar/ingest/verify.py:149-151 | ok exactly when every ingested row has a file, of the recorded size when there is one, and with counts on a non-zero lake-wide count equal to the recorded one |
| `Verify.UnbackedHours` | src/reporadar/ingest/verify.py:260-311 | an hour is found unbacked exactly when it is claimed and the claim does not hold |
| `Verify.ProblemsAreExact` | src/reporadar/ingest/verify.py:260-311 | absent is found of exactly the claimed hours without a file, size of those whose file is not of the recorded size, count of those that pass both and whose lake-wide count is zero or not the recorded one, unrecorded of exactly the walked hours nobody claims |
| `Verify.FindingsAreExact` | src/reporadar/ingest/verify.py:237-254 | one unbacked finding at most per claimed hour, in order, and the surplus findings are exactly the unclaimed files |
| `Verify.LakeCountOwn` | src/reporadar/ingest/verify.py:60-64 | in a correctly filed lake the lake-wide count of an hour is the row count of its own file |
| `Verify.LakeCountMeans` | src/reporadar/ingest/verify.py:194-214 | the lake-wide count of an hour is how often it is written in the rows of all the files, each file read once |
| `Assurance.VerifyPassesThroughout` | src/reporadar/ingest/verify.py:217-257 | from a fresh deployment nobody deletes files from, verify finds every claim backed at every moment of every run; with counts on, exactly when no claimed hour is empty |
| `Repair.RepairUnbacked` | src/reporadar/ingest/repair.py:192-287 | a concurrency below one, a dry run or nothing unbacked changes nothing; otherwise exactly the targets are cleared and those that have closed fetched again, an hour yet to close raises; a dry run is ok exactly when there is no target, any other repair exactly when every target could be cleared and stands ingested again |
| `Repair.Refetch` | src/reporadar/ingest/repair.py:314-348 | each cleared hour is attempted again on its own cleared cell; the first that has not closed raises |
| `Repair.OkMeans` | src/reporadar/ingest/repair.py:167-177 | ok exactly when no target vanished and every one has an ingested row in the world left, whatever its count |
| `Repair.RepairHeals` | src/reporadar/ingest/repair.py:242-287 | when the report is ok every target has an ingested row recorded now that describes the file just converted at its path |
| `Repair.VerifyPassesAfterRepair` | src/reporadar/ingest/repair.py:167-177 | after an ok repair a verify of presence and size finds nothing unbacked |
| `Repair.VerifyCountsAfterRepair` | src/reporadar/ingest/verify.py:291-309 | after an ok counting repair of a correctly filed lake a counting verify finds nothing unbacked exactly when no target had an empty source to convert |
| `Repair.EmptyHourIsTargetAgain` | src/reporadar/ingest/verify.py:291-302 | a target whose source in use is empty is reported recovered and is a target of the next counting repair again |
| `Repair.AgreesMeans` | src/reporadar/ingest/repair.py:103-111 | a comparison agrees exactly when the ledger claims the hour again with the count of the deleted row |
| `Repair.OthersUntouched` | src/reporadar/ingest/repair.py:236-246 | no hour outside the targets changes: not its row, its file or its source |
| `Repair.FreshClaimIsBacked` | src/reporadar/ingest/hour.py:146-187 | an ingest of a cleared hour that reports success leaves a claim its own new file backs |
| `Repair.ReportAccounts` | src/reporadar/ingest/repair.py:246-280 | targets split exactly into reconciled and unclearable, each listed once in order, and every reconciliation carries the deleted row's count, the problem that is true of its claim, and the new outcome |
| `Freshness.OkMeansMartsKeptUp` | src/reporadar/marts/freshness.py:170-202 | ok exactly when no day's lake hours exceed the hours its mart was built from |
| `Freshness.OkMeansNothingBehind` | src/reporadar/marts/freshness.py:184-202 | ok exactly when hours_behind is zero, which is otherwise at least one per stale day |
| `Freshness.HoursBehindMeans` | src/reporadar/marts/freshness.py:184-192 | hours_behind and the hours the marts were built from, of each day the smaller of its two counts, add up to the hours in the lake |
| `Freshness.DaysSplit` | src/reporadar/marts/freshness.py:140-187 | the days of a report split into current (both counts alike), stale (unbuilt, or built from fewer hours) and surplus (from more), and the drifting ones are exactly the last two |
| `Freshness.KindsInOrder` | src/reporadar/marts/freshness.py:151-187 | each of the lists a report gives of its days, current, drifting, stale and surplus, is oldest first |
| `Freshness.ReportDays` | src/reporadar/marts/freshness.py:230-258 | the report covers exactly the days either record knows of, oldest first, each as both records have it |
| `Freshness.HoursOnMeans` | src/reporadar/marts/freshness.py:216-227 | a day's count is of the files among its 24 consecutive hours |
| `Freshness.LedgerWithinLake` | src/reporadar/ingest/verify.py:237-248 | when verify is ok, the ledger counts at most as many hours of any day as the lake holds files |
| `Freshness.LedgerEqualsLake` | src/reporadar/ingest/verify.py:249-254 | when verify finds nothing, ledger and lake count every day alike |
| `Freshness.PanelStaleMeansFilesStale` | src/reporadar/marts/freshness.py:216-258 | when verify is ok, a day the ledger has ahead of the marts makes the file check fail too |
| `Freshness.PanelAgrees` | src/reporadar/marts/freshness.py:216-258 | when verify finds nothing, the ledger and the files give the same freshness verdict |
| `Gaps.MissingDaysAreExact` | src/reporadar/ingest/gaps.py:243-256 | missing days are strictly increasing, exactly the absent days between first and last, and with the present ones fill the span |
| `Gaps.HealthyMeansUnbroken` | src/reporadar/ingest/gaps.py:94-119 | healthy exactly when the present days are one unbroken interval ending on or after as_of - (1 + grace) |
| `Gaps.StalledFrom` | src/reporadar/ingest/gaps.py:99-109 | a history that stops at day d is stalled from exactly d + grace + 2 onward, and then stale by exactly the days past d + grace + 1 |
| `Gaps.HolesNeverClose` | src/reporadar/ingest/gaps.py:249-256 | later days never close an earlier hole: the missing days stay a prefix of the later ones |
| `Gaps.PartialIs` | src/reporadar/ingest/gaps.py:258 | a report's partial days are exactly the days with fewer than 24 hours, each as often as listed, sorted by day and then by hours |
| `Topics.EnsureTopics` | src/reporadar/ingest/topics.py:251-300 | succeeds exactly when every topic can be described, every spec is live or can be hosted, and none wants more replicas than brokers (names distinct); an excess of replicas fails before anything is created; found topics are left as they are, created is reported of exactly what is new, and nothing absent means no create request |
| `Topics.VerifyTopics` | src/reporadar/ingest/topics.py:245-248 | creates nothing, fails exactly when a topic cannot be described, and is ready exactly when every topic is live as configured |
| `Topics.ReadCodes` | src/reporadar/ingest/topics.py:272-285 | created are the topics with no error code, an already-existing topic is not an error, any other code is |
| `Topics.Broker.CreateTopics` | src/reporadar/ingest/topics.py:185-190 | one request answers each topic with its own code, in order, and creates those it accepts |
| `Topics.CreateAllIs` | src/reporadar/ingest/topics.py:265-285 | a request creates exactly the topics it answers with no error, sized as asked, and is refused nothing when the broker can host every spec |
| `Topics.ReadyMeans` | src/reporadar/ingest/topics.py:149-152 | ready exactly when every required topic was just created or is live as configured |
| `Topics.DriftsName` | src/reporadar/ingest/topics.py:232-242 | a topic is named as drifted exactly as often as it is asked about, found rather than created, and sized otherwise |
| `Topics.RaceIsSafe` | src/reporadar/ingest/topics.py:251-300 | when the specs fit the broker, at every moment of every interleaving of any number of provisioners none has failed, no pre-existing topic changed size, and no topic is created by two |
| `Topics.RaceOutcome` | src/reporadar/ingest/topics.py:287-300 | when all are done every required topic exists, none is reported missing, new ones have their spec's size, and each absent one is reported created by exactly one provisioner |
| `Topics.UnfitRaceFails` | src/reporadar/ingest/topics.py:253-285 | when they do not fit, no provisioner of any interleaving ever succeeds, so the condition is exact |
| `Topics.RefusedMeans` | src/reporadar/ingest/topics.py:265-285 | a request for absent topics is refused exactly when the broker cannot host one of them |
| `Topics.ProvisionerFinishes` | src/reporadar/ingest/topics.py:251-300 | a provisioner given as many turns as there are specs plus four is done, however the others are scheduled |
| `Aggregate.DedupCountsIds` | src/reporadar/ingest/aggregate.py:227-240 | whichever copies survive, the dedup keeps as many rows as there are distinct ids |
| `Aggregate.OnePassDedups` | src/reporadar/ingest/aggregate.py:237-238 | keeping the first row read among the earliest of each id is an answer to the window query |
| `Aggregate.DedupIsDetermined` | src/reporadar/ingest/aggregate.py:238 | the dedup has one answer exactly when no two different copies of an id tie for the earliest created_at |
| `Aggregate.OnePassGroups` | src/reporadar/ingest/aggregate.py:286-302 | one pass with an accumulator per repository-day, then the floor, answers the repository query, in whatever order the rows come |
| `Aggregate.EcosystemAnswer` | src/reporadar/ingest/aggregate.py:252-266 | the ecosystem query has an answer with a row for exactly the days that have an event |
| `Aggregate.TablesIgnoreOrder` | src/reporadar/ingest/aggregate.py:227-302 | without ties for the earliest copy or the latest name, both tables are the same in every column however the rows are ordered or repeated |
| `Aggregate.RepoTableIsDeterminedIff` | src/reporadar/ingest/aggregate.py:291 | the repository table has one answer exactly when no repository at or above the floor has two names at its latest instant |
| `Aggregate.NothingIsLost` | src/reporadar/ingest/aggregate.py:252-302 | at every floor, kept repository events + events of repositories below it + events without a repository = the ecosystem's events of the day |
| `Aggregate.RaisingTheFloor` | src/reporadar/ingest/aggregate.py:283-301 | the table at a higher floor is the lower-floor table filtered on events, the floor column aside |
| `Aggregate.LoweringLosesRows` | src/reporadar/ingest/aggregate.py:51-60 | whatever the day and whatever two floors, another day has the same table at the higher floor and a different one at the lower |
| `Aggregate.RowBounds` | src/reporadar/ingest/aggregate.py:288-301 | on every repository row actors do not exceed events, the six breakouts sum to at most events, and the first event is not after the last |
| `Aggregate.TotalsBounds` | src/reporadar/ingest/aggregate.py:254-264 | on every ecosystem row actors, breakouts together, hours present, and repositories with events without one are each at most the events, and the first event is not after the last |
| `Aggregate.HistoryFile.WriteChecked` | src/reporadar/ingest/aggregate.py:318-345 | the published file is replaced exactly when every staged row is of its day, and no staged file remains |
| `Aggregate.PublishDay` | src/reporadar/ingest/aggregate.py:417-430 | the ecosystem file is checked and renamed first, then the repository file; a refusal or a stop leaves what was renamed before it |
| `Aggregate.RepoFilePassesToo` | src/reporadar/ingest/aggregate.py:325-336 | a day whose ecosystem file passes its check has a repository file that passes too, even if the two queries kept different copies |
| `Aggregate.FilesChangeTogether` | src/reporadar/ingest/aggregate.py:62-65 | both files change or neither does, exactly when the process is not stopped between the two renames of a day that passes; publishing again completes it |
| `Aggregate.PublishedDayCountsEveryId` | src/reporadar/ingest/aggregate.py:243-266 | the one row of a one-day ecosystem table counts every distinct id that was read |
| `Sinks.HourlyNdjsonSink.Write` | src/reporadar/ingest/sinks.py:63-71 | each event is appended to the file of its own hour, in arrival order; an hour file that cannot be opened leaves the hours before it whole and the rest untouched |
| `Sinks.Bucket` | src/reporadar/ingest/sinks.py:64-67 | one bucket per hour in order of first appearance, holding that hour's events in order |
| `Sinks.IterNdjson` | src/reporadar/github/events.py:99-108 | yields the events of the lines in order, skipping blanks, and raises exactly when a line is neither blank nor an event |
| `Sinks.FileRoundTrip` | src/reporadar/ingest/sinks.py:68-71 | cutting a capture file at newlines and parsing gives back exactly the events appended to it |
| `Sinks.CaptureRoundTrip` | src/reporadar/ingest/sinks.py:63-75 | there is a file for exactly the hours an event was created in, each reads back as exactly the events created in its hour in arrival order, and all files together hold exactly the captured events |
| `Sinks.TeeSink.Write` | src/reporadar/ingest/sinks.py:104-116 | a failing primary passes nothing on; otherwise every best-effort sink gets the batch once for each place it has in the list, each failure is counted, and whatever any of them holds is in the capture |
| `Sinks.AcceptedIsOnDisk` | src/reporadar/ingest/sinks.py:104-116 | an event any best-effort sink accepted is read back from the file of its hour |

## Left out

- Repair.RepairUnbacked: requires every ingested row to carry an event count, which the table's CHECK guarantees. An hour yet to close raises once the closed ones before it were fetched; with a concurrency above one, hours in flight at that moment may be cut off instead.
- Converge.ConvergeOnce: attempts the due hours one by one; that the concurrent pass ends in the same state is `Schedule.ScheduleIndependence`, stated over the task machine rather than over methods.
- Delivery.OneEventCanFinish: takes the payload as fitting its `jsonb` column, which would refuse an escaped NUL in it as well.
- Wire.LiveRoundTrip: JSON text and the event and time fields are a codec assumed to read back what it wrote; what the envelopes add to it, and Base64, are proved.
- Wire.DeadLetterRoundTrip: assumes the same of JSON text.
- Sinks.CaptureRoundTrip: an event's JSON is assumed to be one braced line without raw control characters that reads back as the event.
- Sinks.HourlyNdjsonSink.Write: a write torn inside a line is not modelled, only an hour file that cannot be opened; files of earlier runs are those an earlier sink wrote.
- Topics.RaceIsSafe: every topic can be described throughout the race; one that cannot fails its provisioner, as `Topics.EnsureTopics` says of one alone.
- Decoding has four outcomes (valid, corrupt, another version, wrong shape). JSON that Python's parser refuses with an exception of another kind, such as an integer literal past its digit limit or very deep nesting, is not among them.
- Verification takes the directory walk as a listing of hours, in any order and with repeats; how directory names that are not canonical are read, and the sentences in findings, are not modelled.
- Rows without a creation time never reach the aggregates, because the lake refuses to file them (`lake.py:186-200`), so `Aggregate.EventRow` has none.
- `volume_summary`, the median and extremes of daily counts.
- Fetching: HTTP, conditional requests, retries and rate limits; the poller and its sweeps (`service.py`, `github/client.py`), where a rate limit on a later page discards pages already fetched.
- Event parsing: `parse_page` and `dedupe` of `events.py`, one-pass filters over one page.
- The waiting loop of `converge_forever` and the choice of its scan range; a run of it is a list of passes in `Session`.
- `aggregate_day` around its two writes: fetching 24 hours, dropping the lake day, and the report.
- Consumer-group rebalancing, two consumers in one group, and two ingest processes sharing a staging path.
- A repaired hour that ends with no row is not found by verifying again, which sees only claims; a later pass over its range finds it, as `Session.RepairedIsNeverFalselyClaimed` says.
- DuckDB, Postgres and Kafka internals, settings, commands, exit codes, logging text and reports for people.
