# MongoDB sink writer — a Dafny model

This project models the core of the RADAR MongoDB sink connector's writer
(`MongoDbWriter`), the worker that takes Kafka sink records from a buffer and
writes them to MongoDB. The model covers:

- **Converter registry.** The constructor builds a map from schema name to
  converter, and a later converter wins on a shared name. A record's
  converter is looked up under the composite name `"<key schema>-<value
  schema>"` first, then under the value-schema name.
- **Store with bounded retry.** An unsupported or unconvertible record is
  skipped and sets the fault at once. Any other failure is retried until
  three attempts have been made, and the last error then becomes the fault.
  That covers a failed store call, and also the null dereference of a record
  without a value schema.
- **Per-record bookkeeping.** After every record, stored or not, the
  record's partition entry in the offset table is overwritten with its
  offset. A successful store bumps the 32-bit written-record counter. A new
  fault replaces the old one.
- **Flush barrier.** `flush` fails at once if a fault is pending on entry.
  Otherwise it prunes the partitions that have reached their requested
  offset and waits for a wake-up until none is left.
- **Lifecycle.** Construction fails and closes the gateway when the
  connection probe fails. The run loop stops once `close` has set the stop
  flag, and closes the gateway on its way out.

Modules, in dependency order:

- `Records` (`records.dfy`): records, schemas, documents, converters, faults.
- `ConverterRegistry` (`registry.dfy`): registry construction, resolution, `getDoc`.
- `Retry` (`retry.dfy`): `store(record, tries)`, as a recursive reference and as a loop.
- `WriterState` (`writer_state.dfy`): offsets, fault and counter, and one step of the run loop.
- `Flush` (`flush.dfy`): the flush decision, the pruning loop, and the wait across wake-ups.
- `Lifecycle` (`lifecycle.dfy`): construction, start, close and the run loop.
- `FlushFinding` (`findings.dfy`): a concrete run showing the finding below.

The MongoDB gateway is a parameter. `gateway(k)` is its answer to store
attempt `k` for a record. The connection probe is a boolean. The queue is a
sequence of events: a taken record, an interrupt while waiting, or a close
request. The states a waiting flush sees after each wake-up are a sequence
of states.

The class comment of `MongoDbWriter` (`MongoDbWriter.java:45-46`) says the
writer keeps the latest offsets of records that have been written. An
idealised watermark would then hold, per partition, the highest offset
stored: it would never move back and would advance only on success. The
code instead overwrites the entry with the offset of every processed
record, stored or not (`MongoDbWriter.java:109-110, 141-145`). The model
follows the code. `WriterState.LastWriteWins` states the as-written
behaviour. `WriterState.OrderedBatchKeepsMaximum` shows that the two agree
when offsets arrive in order within each partition.

## Model

| member | source | states |
|---|---|---|
| ConverterRegistry.BuildMapping | src/main/java/org/radarcns/mongodb/MongoDbWriter.java:89-94 | The keys are exactly the names some converter advertises. Each key maps to a converter that advertises it, and no later converter advertises it too (the last registration wins). |
| ConverterRegistry.BuildRegistry | src/main/java/org/radarcns/mongodb/MongoDbWriter.java:89-94 | The nested registration loop produces exactly `BuildMapping` of the converter list, and every mapped index names a converter. |
| ConverterRegistry.Resolve | src/main/java/org/radarcns/mongodb/MongoDbWriter.java:162-175 | A record without a value schema gives the null-dereference fault. Otherwise resolution succeeds iff one of the candidate names is registered, and then yields a registered candidate's converter. Failure is an unsupported-schema fault carrying the value schema. |
| ConverterRegistry.ResolvePrecedence | src/main/java/org/radarcns/mongodb/MongoDbWriter.java:164-173 | Resolution picks the first registered name among [composite key-value name (when there is a key schema), value-schema name]. So the composite name takes precedence, and an unnamed value schema never matches on its own. |
| ConverterRegistry.GetDoc | src/main/java/org/radarcns/mongodb/MongoDbWriter.java:151-160 | A document is made iff a converter resolves and its conversion does not throw, and then it is that conversion's result. A resolution fault is passed on. An error is retryable exactly when the value schema is missing; otherwise it is an unsupported-data-type error. |
| Retry.StoreFrom | src/main/java/org/radarcns/mongodb/MongoDbWriter.java:120-139 | `store(record, tries)` makes between 1 and `3 - tries` attempts and at most one store call per attempt. |
| Retry.StoreFromConvertible | src/main/java/org/radarcns/mongodb/MongoDbWriter.java:120-139 | From attempt `tries` on, a convertible record is sent to its topic once per attempt. It is stored iff some attempt in [tries, 3) succeeds, and the last attempt made is then the first success. Otherwise attempts run out at 3 and the fault is the last store error. |
| Retry.StoreFromNullSchema | src/main/java/org/radarcns/mongodb/MongoDbWriter.java:120-139 | A record without a value schema fails every remaining attempt before any store call, ending with the null-dereference fault. |
| Retry.StoreRecord | src/main/java/org/radarcns/mongodb/MongoDbWriter.java:120-139 | `store(record, 0)`: unsupported or unconvertible means one attempt, no call, and the fault. A missing value schema means three attempts, no call, and the fault. For a convertible record: one call per attempt; stored iff one of the 3 allowed attempts succeeds, stopping at the first success; otherwise 3 attempts and the third error as the fault. |
| Retry.Store | src/main/java/org/radarcns/mongodb/MongoDbWriter.java:120-139 | The retry written as a loop over an attempt counter gives the same report as the recursive form. |
| WriterState.IncrementAndGet | src/main/java/org/radarcns/mongodb/MongoDbWriter.java:124 | The counter goes up by one, modulo 2^32. |
| WriterState.ProcessedRecord | src/main/java/org/radarcns/mongodb/MongoDbWriter.java:141-145 | The record's partition entry becomes its offset, whatever was there before. Other entries, the fault and the counter are unchanged. |
| WriterState.SetException | src/main/java/org/radarcns/mongodb/MongoDbWriter.java:147-149 | The fault becomes the new one, replacing any earlier fault. Offsets and the counter are unchanged. |
| WriterState.Apply | src/main/java/org/radarcns/mongodb/MongoDbWriter.java:120-149 | After one handled record its offset is recorded either way. On success the counter goes up and the fault stays; on failure the fault is the report's and the counter stays. |
| WriterState.Step | src/main/java/org/radarcns/mongodb/MongoDbWriter.java:109-110 | One loop iteration. The offset is recorded even for a skipped record. Unsupported or unconvertible sets that fault. A convertible record counts once iff an allowed attempt succeeds; otherwise its fault is the last store error. A missing value schema gives the null-dereference fault. |
| WriterState.LastWriteWins | src/main/java/org/radarcns/mongodb/MongoDbWriter.java:141-145 | After a batch, each partition's entry is the offset of the last record handled on it, stored or not. Untouched partitions keep their entries. |
| WriterState.LastIndexOf | src/main/java/org/radarcns/mongodb/MongoDbWriter.java:143 | The offset kept comes from a record on that partition that no later record on the partition follows. |
| WriterState.OrderedBatchKeepsMaximum | src/main/java/org/radarcns/mongodb/MongoDbWriter.java:143 | When offsets arrive in order within each partition, a touched partition's entry is the largest offset delivered on it. |
| WriterState.FaultIsSticky | src/main/java/org/radarcns/mongodb/MongoDbWriter.java:147-149 | Once a fault is set, no number of processed records clears it. |
| WriterState.CountTracksStored | src/main/java/org/radarcns/mongodb/MongoDbWriter.java:124 | Over a batch, the counter advances by the number of stored records, modulo 2^32. |
| WriterState.LastOffset | src/main/java/org/radarcns/mongodb/MongoDbWriter.java:143 | There is no last offset for a partition exactly when no record of the batch is on it. |
| Flush.UnreachedEmpty | src/main/java/org/radarcns/mongodb/MongoDbWriter.java:195-201 | The unreached set is empty iff every candidate partition has an entry at or past its requested offset. |
| Flush.Decide | src/main/java/org/radarcns/mongodb/MongoDbWriter.java:182-205 | It fails exactly when a fault is pending on entry, and then with that fault, without looking at offsets. Otherwise it returns iff every requested partition has reached its offset, and else waits on exactly the unreached ones, which are then non-empty. |
| Flush.KeepUnreachedOnlyRemoves | src/main/java/org/radarcns/mongodb/MongoDbWriter.java:192-199 | Pruning only removes: the kept list is a sub-multiset of the waiting list and holds exactly its unreached partitions. |
| Flush.Prune | src/main/java/org/radarcns/mongodb/MongoDbWriter.java:192-199 | The iterator loop keeps exactly the unreached partitions, in order, removing and never adding. |
| Flush.Rounds | src/main/java/org/radarcns/mongodb/MongoDbWriter.java:189-206 | The wait returns only once every waiting partition has been seen reached: a return after `k` wake-ups means each was reached in one of the tables up to `k`. It returns iff each waiting partition was seen reached in some observed table. If it is still blocked, it waits on exactly the partitions never seen reached, and never on one already seen reached. |
| Flush.RoundsReturns | src/main/java/org/radarcns/mongodb/MongoDbWriter.java:189-206 | The wait returns by the first round at which every waiting partition has been seen reached, so partitions reached at entry give a return with no wake-up. |
| Flush.Await | src/main/java/org/radarcns/mongodb/MongoDbWriter.java:182-210 | As written: a fault pending on entry fails the flush. Otherwise it never fails, and it returns iff every target is seen reached at entry or after some wake-up, whatever faults are set meanwhile. It returns only once every target has been seen reached by the wake-up it returns at, and it returns at the first wake-up by which that holds; targets reached at entry give a return without waiting. |
| Flush.RoundsChecked | src/main/java/org/radarcns/mongodb/MongoDbWriter.java:184-206 | With the fault re-checked every round, a fault seen while waiting ends the wait. It returns only once every waiting partition has been seen reached by its return, and never past a faulted state. It fails only with a fault it saw, and is still blocked only if no state it saw had a fault. |
| Flush.RoundsCheckedWithoutFaults | src/main/java/org/radarcns/mongodb/MongoDbWriter.java:184-206 | When no observed state has a fault, the checked wait gives exactly the outcome of the as-written wait. |
| Flush.RoundsCheckedReturns | src/main/java/org/radarcns/mongodb/MongoDbWriter.java:189-206 | When no fault is seen up to round `k` and every waiting partition was seen reached by then, the checked wait returns at round `k` or earlier, whatever later states hold. |
| Flush.AwaitChecked | src/main/java/org/radarcns/mongodb/MongoDbWriter.java:182-210 | Corrected flush: a fault set while waiting fails it, and it fails only with a fault it saw, at entry or after a wake-up. It returns only once every target has been seen reached by the wake-up it returns at, and never past a faulted state. It still returns, by wake-up `k` at the latest, once every target was seen reached before any fault appeared. It is still blocked only if no state had a fault, and agrees with the as-written flush when no fault ever appears. |
| FlushFinding.WaitingFlushMissesDroppedRecord | src/main/java/org/radarcns/mongodb/MongoDbWriter.java:182-210 | Concrete run: a flush waits on offset 1000 of ("mytopic", 5), and that record then fails all three attempts. The fault is set, but the as-written flush returns after one wake-up while the corrected flush fails with the store error. |
| Lifecycle.Construct | src/main/java/org/radarcns/mongodb/MongoDbWriter.java:70-97 | Construction succeeds iff the connection probe succeeds. On failure the gateway is closed once. On success the registry is the built mapping, the state is empty, and the stop flag is clear. |
| Lifecycle.Start | src/main/java/org/radarcns/mongodb/MongoDbWriter.java:100-115 | The loop guard is checked before any take: a writer closed before starting exits at once and closes the gateway. The registry and the state are kept. |
| Lifecycle.Close | src/main/java/org/radarcns/mongodb/MongoDbWriter.java:219-223 | `close` sets the stop flag and keeps the registry, offsets, fault and counter. A running worker leaves the loop and closes the gateway once. |
| Lifecycle.OnEvent | src/main/java/org/radarcns/mongodb/MongoDbWriter.java:101-111 | Every event keeps the writer's invariant: the gateway is closed once exactly when the loop has exited. |
| Lifecycle.NothingTakenAfterStop | src/main/java/org/radarcns/mongodb/MongoDbWriter.java:101-111 | Once the stop flag is seen at the loop guard, no further record is processed and the gateway is not closed again. A close landing mid-iteration is listed under Left out. |
| Lifecycle.RunProcessesUntilClose | src/main/java/org/radarcns/mongodb/MongoDbWriter.java:100-118 | A running worker processes, in order, exactly the records taken before the first close request. Interrupts while waiting are ignored. It has exited iff a close was requested, and the gateway is closed at most once. |
| Lifecycle.ExitedStaysExited | src/main/java/org/radarcns/mongodb/MongoDbWriter.java:100-115 | A worker that has left the loop never re-enters it. |
| Lifecycle.ExitedIsFinal | src/main/java/org/radarcns/mongodb/MongoDbWriter.java:100-115 | After the loop has exited and the flag is set, further events change nothing. |
| Lifecycle.Run | src/main/java/org/radarcns/mongodb/MongoDbWriter.java:100-118 | The `while (!stopping)` loop over events yields the same writer as the event-by-event reference. |

## Left out

- The worker thread, the blocking buffer `take`, `synchronized`, `wait` and `notify` are left out. Concurrency is reduced to the sequence of states a flush observes after each wake-up. A spurious wake-up is a repeated state in that sequence. Not modelled: `processedRecord` calls `notify` rather than `notifyAll` (line 144), so with two flushes waiting at once only one of them wakes per record.
- Thread interrupts are left out. An interrupt during `take` is an ignored event. An interrupt of a waiting flush, which fails it with a connection error (lines 207-208), is not modelled.
- The monitoring task and its timer (lines 76-77) are left out: they only log the counter.
- The MongoDB wrapper's internals are left out: `checkConnection`, `store` and `close` are parameters or counters. The BSON content of documents is left out: a document is a list of string pairs, and a converter is any function from records to optional documents.
- Logging is left out.
- Atomic memory semantics are left out: the stop flag and counter are plain fields of the model state.
- Kafka offsets are unbounded integers, not 64-bit `long`s. A null partition number is not modelled.
- ConverterRegistry.BuildMapping, ConverterRegistry.Resolve: advertised schema names are strings, so a converter advertising a null name is not modelled. `HashMap.put(null, …)` would accept one at line 92, and `get(null)` at line 169 would then match a record whose value schema has no name.
- Lifecycle.Close, Lifecycle.NothingTakenAfterStop: a close request is taken to land between loop iterations. In the program it can land mid-iteration. The record in flight still runs `store` and `processedRecord` (lines 109-110). And a worker that passed the guard at line 101 before the flag was set can still take one more record at line 104, if it enters `take` before the `interrupt` of line 222 arrives. So one record may be processed after `stopping` is set.
- Flush.Await: interruption of the wait is not modelled (see above). Its outcome is stated over a finite sequence of observed states, so a wait that never ends shows up as `Blocked`.

## Findings

| source | as written | input that shows it | evidently intended | confidence | as-written member | corrected member |
|---|---|---|---|---|---|---|
| src/main/java/org/radarcns/mongodb/MongoDbWriter.java:182-210 | `flush` checks the pending fault only on entry. After a wake-up it looks only at offsets, and `processedRecord` writes a record's offset even when every store attempt failed. | The flush targets offset 1000 of ("mytopic", 5) and starts before that record is processed. The gateway then rejects all three store calls for it: the fault is set and the offset is recorded, and the flush returns normally. | A flush never reports as flushed a record that was not written. The class comment (line 45) says the offsets are those of written records. A fault set while waiting should fail the flush, as the entry check does. | medium — not executed | Flush.Await, FlushFinding.WaitingFlushMissesDroppedRecord | Flush.AwaitChecked |
