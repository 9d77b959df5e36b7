# scylla stats logger, modelled in Dafny

scylla records per-second statistics of a job queue in Redis. A `StatsLogger`
is bound to one queue. Every push, multi-push, pop, multi-pop and ack on that
queue logs a delta for a metric name. A worker folds each delta into an
in-memory cache of per-second buckets (epoch second → metric name → sum).
Whenever the clock has moved past the last flush and no flush is running, the
worker flushes. The flush writes out every bucket older than a one-second
grace window, and for each such bucket it:

- sends an increment-with-expiry per metric;
- sends a set-with-expiry of the queue's size under a per-second size key;
- evicts the bucket from the cache.

`Destroy` forces a final flush two seconds ahead of the clock. The store keys
are built from the queue name by `keys.go`.

The model has seven modules:

- `Keys` (keys.dfy): the key builders and the decimal rendering of a second,
  with its round trip and the injectivity facts the flush relies on.
- `Aggregation` (aggregation.dfy): the cache, the counter store and the flush,
  as values.
  - `Add` folds one stat into a bucket.
  - `Evicted` and `Retained` are the seconds a flush writes out and the cache
    it keeps.
  - `FlushStore` is the store after a flush.
  - `FlushAttempts` is the set of commands a flush sends.

  Both are order-free map and set comprehensions, because Go visits a map in
  no fixed order.
- `FlushProperties` (flush_props.dfy): what a flush does to each key of the
  store and to the log of commands sent.
- `Worker` (worker.dfy): the worker's step (`Update`) and its loop over a
  sequence of timestamped stats (`Replay`), as values, with the bookkeeping of
  `lastFlush` and `writing`.
- `Hooks` (hooks.dfy): the hook table of `Bind`, as a function over a closed
  event type.
- `Scylla` (scylla.dfy): the `StatsLogger` class. `cache`, `lastFlush`,
  `writing`, the store and the command log are fields that its methods update
  in place.
  - The flush iterates over the cache's seconds and over each bucket's metrics
    in an arbitrary order (`:|`) and deletes each evicted second.
  - Each method is proved to compute the value functions above.
- `Scenarios` (scenarios.dfy): the three scenarios of `scylla_test.go`, stated
  over any queue name and clock reading. The general form (`DelayedFlush`)
  holds over any prior store. The two scenarios that expect exact counter
  values assume a prior store without that second's counter, as the test's
  fresh queue gives.

Abstractions:

- The clock is a `now` parameter.
- Redis is a map from key to `Cell(value, ttl)`, plus the sequence of
  commands sent.
- Whether each increment or size write succeeds, and the queue size read for
  each flushed second, come from an `Outcomes` parameter.
- The queue name is a constant field.

## Model

| member | source | states |
|---|---|---|
| Keys.DecimalRoundTrip | keys.go:19-21 | parsing the `%d` rendering of any second (negative ones too) gives the second back |
| Keys.DecimalCanonical | keys.go:19-21 | the rendering is `%d`'s canonical form: it starts with '-' exactly for negative seconds, and with '0' only for 0; after a '-' comes a non-zero digit |
| Keys.SecStatsKeyInjective | keys.go:19-21 | two per-second keys are equal only if both the metric name and the second are equal (the rendering of a second holds no ':') |
| Keys.SizeKeyIsStatsKey | keys.go:19-25 | the size key of queue `q` at a second is the per-second key of the metric `q:size` |
| Keys.SizeKeyInjective | keys.go:23-25 | distinct seconds give distinct size keys for one queue |
| Keys.StatKeysDistinct | keys.go:7-17 | the push, pop and ack keys of one queue are pairwise distinct |
| Keys.SizeKeyNotCounterKey | keys.go:7-25 | no size key of a queue equals a per-second push, pop or ack key of that queue |
| Aggregation.Add | scylla.go:93-99 | folding a stat adds its second's bucket when absent, raises that bucket's count of the name by the delta (from 0 when absent), and leaves every other count and bucket unchanged |
| Aggregation.Evicted | scylla.go:116-120 | a flush at `now` writes out exactly the cached seconds at most `now - 2` |
| Aggregation.Retained | scylla.go:116-141 | after a flush the cache holds exactly the seconds at least `now - 1`, each with its bucket unchanged |
| FlushProperties.GraceWindowUntouched | scylla.go:116-120 | a flush at `now` leaves every per-second key and the size key of any second at least `now - 1` as they were |
| FlushProperties.NoCommandInGraceWindow | scylla.go:116-120 | no command a flush sends names a key of a second inside the grace window |
| FlushProperties.FlushKeepsUnsentKeys | scylla.go:122-138 | a key that no command of the flush names keeps its value and expiry |
| FlushProperties.FlushRaisesCounter | scylla.go:122-131 | for each metric of an evicted bucket, a successful increment leaves its per-second key at the old value (0 when absent) plus the bucket's sum, with the 7200-second expiry (`STATS_EXPIRY`, scylla.go:14); a failed one leaves the key as it was |
| FlushProperties.FlushWritesSize | scylla.go:133-138 | a successful size write leaves the evicted second's size key at the queue size read then, with the 7200-second expiry (`STATS_EXPIRY`, scylla.go:14); a failed one leaves it as it was unless a metric named `q:size` was incremented there |
| FlushProperties.SizeSentOnce | scylla.go:133-138 | a flush sends one size write for a second exactly when that second is evicted, once, with the queue size and the 7200-second expiry |
| FlushProperties.IncrSentOnce | scylla.go:122-131 | a flush sends an increment for a metric of a second exactly when the second is evicted and holds the metric, once, by the bucket's sum with the 7200-second expiry (`STATS_EXPIRY`, scylla.go:14) |
| Worker.Update | scylla.go:90-106 | after one stat its second's bucket holds the name and the count has risen by the delta; no count of the grace window moves otherwise; `lastFlush` never decreases and only ever becomes `now`; `writing` ends as it began |
| Worker.ReplaySameSecond | scylla.go:82-99 | stats all taken in one second add up there: the count is the old count plus the sum of that name's deltas |
| Worker.ReplayMonotone | scylla.go:82-114 | along the worker loop `lastFlush` never decreases and `writing` is unchanged |
| Worker.InitialSettled | scylla.go:31-40 | a new logger is settled at every clock reading from 0 on |
| Worker.UpdateSettled | scylla.go:90-106 | one stat at a clock reading no earlier than the last keeps the worker settled at the new reading |
| Worker.ReplaySettled | scylla.go:82-106 | under a clock that never runs backwards the worker stays settled: no flush left running, and only the buckets of the last two seconds held |
| Worker.WindowBound | scylla.go:116-120 | a settled worker holds at most two buckets |
| Worker.DestroyEvictsAll | scylla.go:66-69 | the final flush at `realNow + 2` empties a cache whose seconds are all at most `realNow` |
| Hooks.HookLog | scylla.go:43-63 | push and multipush log on the push key, pop and multipop on the pop key, ack on the ack key (each if and only if), and the delta is 1 or the number of jobs |
| Hooks.HookTotals | scylla.go:43-63 | the deltas logged on a queue's push, pop and ack keys sum to the number of jobs pushed, popped and acknowledged |
| Scenarios.PushWithoutDelay | scylla_test.go:16-40 | after two pushes the push count of the second is 2, and a flush in that same second leaves its push key and size key as they were |
| Scenarios.DelayedFlush | scylla_test.go:42-147 | after events within one second, a flush two seconds later writes the size snapshot when that write succeeds, adds each non-zero push or pop total to what its counter held before when the increment succeeds, and leaves the counter alone when it fails |
| Scenarios.PushWithDelay | scylla_test.go:42-83 | on a store without that second's push counter, after one push, a successful flush two seconds later leaves the push key at 1 and the size key at the queue size, both with the 7200-second expiry (`STATS_EXPIRY`, scylla.go:14) |
| Scenarios.WithPopStats | scylla_test.go:85-147 | on a store without that second's pop counter, after two pushes and two pops, a successful flush two seconds later leaves the pop key at 2 and the size key at 0 |
| Scylla.StatsLogger.constructor | scylla.go:31-40 | a new logger has an empty cache, last flush 0, is not writing and has sent nothing |
| Scylla.StatsLogger.WriteCounters | scylla.go:122-131 | one bucket's metrics, visited in any order, add exactly that bucket's successful increments to the store and send each of its increments once |
| Scylla.StatsLogger.WriteSecond | scylla.go:122-141 | writing out one second extends the store and the command log to cover that second, and deletes it from the cache |
| Scylla.StatsLogger.EvictOld | scylla.go:116-142 | the loop over the cache, in any order, leaves the cache at `Retained`, the store at `FlushStore`, and appends each command of `FlushAttempts` exactly once |
| Scylla.StatsLogger.Flush | scylla.go:108-143 | as `EvictOld`, and afterwards `lastFlush` is `now` and `writing` is false |
| Scylla.StatsLogger.UpdateCache | scylla.go:90-106 | the logger's state after one stat is `Worker.Update` of the old state; a flush is sent exactly when `now > lastFlush` and no flush is running |
| Scylla.StatsLogger.Run | scylla.go:82-88 | the worker loop over a sequence of stats reaches `Worker.Replay` of the old state and only appends to the command log |
| Scylla.StatsLogger.Destroy | scylla.go:66-74 | flushes at `realNow + 2` (the `Flush` effects), closes the logger, and leaves an empty cache when every cached second is at most `realNow` |

## Left out

- The worker goroutine, the pipe and the blocking `Log` (scylla.go:77-88) are
  concurrency and backpressure. `Run` is the sequential worker loop over a
  sequence of stats, and the pipe's capacity `PIPE_BUF` plays no part.
  Because the pipe is not modelled, the model does not show that stats still
  in the pipe when `Destroy` runs are lost. After the final flush the worker
  still drains the closed pipe (scylla.go:84). Those stats land in a cache
  whose last flush is `realNow + 2`, and the connection they would be
  written on is already closed (scylla.go:72-73).
- `time.Now().UTC().Unix()` is the `now` (or `realNow`) parameter.
- The Redis connection is a map of cells plus the log of commands sent.
  - The model does not cover how `MULTI`/`INCRBY`/`EXPIRE`/`EXEC` and `SETEX`
    travel over the connection.
  - Keys do not expire over time; the model keeps only the expiry last set.
  - `conn.Close` is not modelled.
  - A failed transaction is modelled as changing nothing.
- `rivers.Queue` is an external library.
  - `GetName` is the constant `queueName`.
  - `GetSize` is `Outcomes.sizeAt` for the second being flushed. Its error is
    ignored in the source, so there is no failure path.
  - `Register` is the pure hook table `Hooks.HookLog`.
- `log.Printf` and `log.Println` are not modelled. Neither is the `continue`
  after a failed increment, which ends the iteration anyway.
- Aggregation.Add: does not model the 64-bit wrap-around of `+=` on an
  `int64` count; counts are unbounded integers.
- Scylla.StatsLogger.Run: states that the command log is only extended,
  not which commands are appended. Each step's commands are stated by
  `UpdateCache`, as a set sent once each, because the order within a flush is
  arbitrary and no function of the inputs fixes the sequence.
- Worker.Update: as for `Add`, counts and seconds are unbounded integers.
- Scylla.StatsLogger.Destroy: requires that the logger is not closed yet,
  because a second `close` of the pipe panics. The flush it forces can run at
  the same time as a flush of the worker in the source; the model runs it
  alone.
- The `writing` flag guards only against that concurrency. In the
  sequential model every flush ends before the next stat, so `writing` is
  always false between steps (`Worker.ReplayMonotone`).
- FlushProperties.FlushRaisesCounter: requires that the metric is not named
  `q:size` when that second's size write succeeds. The counter key of such
  a metric is the second's size key (`Keys.SizeKeyIsStatsKey`), and the size
  write sent after it overwrites it. `Aggregation.FlushStore` models that
  overwrite.
- FlushProperties.FlushWritesSize: for a failed size write, states that the
  key is unchanged only when no metric named `q:size` was incremented for
  that second, for the same reason.
