/** The stats logger: a per-second aggregation cache that a single worker
    updates event by event and flushes, past a one-second grace window, to a
    counter store.  The store connection is the `store` map plus the log
    `sent` of commands sent on it; the clock is the `now` argument. */
module Scylla {
  import opened Keys
  import opened Aggregation
  import opened Worker

  class StatsLogger {
    const queueName: string
    var cache: Cache
    var lastFlush: int
    var writing: bool
    var store: Store
    var sent: seq<Write>
    var closed: bool

    /** The logger's fields a stat can change, as one value. */
    function Snapshot(): State
      reads this
    {
      State(cache, lastFlush, writing, store)
    }

    /** A logger for the queue named `queueName` over the counter store `store`. */
    constructor (queueName: string, store: Store)
      ensures this.queueName == queueName && Snapshot() == Initial(store)
      ensures sent == [] && !closed
    {
      this.queueName := queueName;
      this.store := store;
      cache := map[];
      lastFlush := 0;
      writing := false;
      sent := [];
      closed := false;
    }

    /** Sends one increment-with-expiry per metric of the bucket `b` of second
        `sec`, in any order, each skipped on failure without retry.  `base` is
        the store before the bucket, which matches `s0`, the store before the
        flush, at every counter key of `sec`. */
    method WriteCounters(sec: int, b: Bucket, outcomes: Outcomes, ghost s0: Store) returns (ghost d: seq<Write>)
      requires forall n :: SameAt(store, s0, SecStatsKey(n, sec))
      modifies this`store, this`sent
      ensures store == old(store) + BucketIncr(s0, sec, b, b.Keys, outcomes)
      ensures sent == old(sent) + d
      ensures Distinct(d) && Elems(d) == BucketAttempts(sec, b, b.Keys)
    {
      d := [];
      var names := b.Keys;
      ghost var base, sent0 := store, sent;
      while names != {}
        invariant names <= b.Keys
        invariant store == base + BucketIncr(s0, sec, b, b.Keys - names, outcomes)
        invariant sent == sent0 + d
        invariant Distinct(d) && Elems(d) == BucketAttempts(sec, b, b.Keys - names)
        decreases names
      {
        var name :| name in names;
        ghost var visited := b.Keys - names;
        names := names - {name};
        assert b.Keys - names == visited + {name};
        var value := b[name];
        var secKey := SecStatsKey(name, sec);
        CounterStep(base, s0, sec, b, visited, outcomes, name);
        BucketAttemptsGrow(sec, b, visited, name);
        DistinctAppend(d, IncrExpire(secKey, value, STATS_EXPIRY));
        sent := sent + [IncrExpire(secKey, value, STATS_EXPIRY)];
        d := d + [IncrExpire(secKey, value, STATS_EXPIRY)];
        if outcomes.incrOk(sec, name) {
          store := store[secKey := Bumped(store, secKey, value)];
        }
      }
      assert b.Keys - names == b.Keys;
    }

    /** Writes one evicted second's bucket, its counters then the queue-size
        snapshot, and deletes it from the cache.  `c0` and `s0` are the cache and store the flush started
        from, `done` the seconds it has written so far and `w` what it has sent
        for them. */
    method WriteSecond(sec: int, secCache: Bucket, outcomes: Outcomes, ghost c0: Cache, ghost s0: Store,
                       ghost done: set<int>, ghost w0: seq<Write>, ghost w: seq<Write>) returns (ghost w': seq<Write>)
      requires sec in c0 && sec !in done && secCache == c0[sec]
      requires store == Flushed(s0, c0, Pairs(c0, done), done, outcomes, queueName)
      requires sent == w0 + w && Distinct(w)
      requires Elems(w) == Attempts(c0, Pairs(c0, done), done, outcomes, queueName)
      requires sec in cache && cache[sec] == secCache
      modifies this`cache, this`store, this`sent
      ensures cache == old(cache) - {sec}
      ensures store == Flushed(s0, c0, Pairs(c0, done + {sec}), done + {sec}, outcomes, queueName)
      ensures sent == w0 + w' && Distinct(w')
      ensures Elems(w') == Attempts(c0, Pairs(c0, done + {sec}), done + {sec}, outcomes, queueName)
    {
      SecondFresh(s0, c0, done, outcomes, queueName, sec);
      ghost var d := WriteCounters(sec, secCache, outcomes, s0);
      DistinctJoin(w, d);
      w' := w + d;
      assert sent == w0 + w';
      BucketJoin(s0, c0, done, outcomes, queueName, sec);
      BucketAttemptsJoin(c0, done, outcomes, queueName, sec);
      ghost var ps := Pairs(c0, done + {sec});
      assert store == Flushed(s0, c0, ps, done, outcomes, queueName);
      var sizeKey := SecQueueSizeKey(queueName, sec);
      var size := outcomes.sizeAt(sec);
      SizeStep(s0, c0, ps, done, outcomes, queueName, sec);
      SizeAttemptStep(c0, ps, done, outcomes, queueName, sec);
      DistinctAppend(w', SetEx(sizeKey, size, STATS_EXPIRY));
      sent := sent + [SetEx(sizeKey, size, STATS_EXPIRY)];
      w' := w' + [SetEx(sizeKey, size, STATS_EXPIRY)];
      assert sent == w0 + w';
      if outcomes.setexOk(sec) {
        store := store[sizeKey := Cell(size, STATS_EXPIRY)];
      }
      cache := cache - {sec};
    }

    /** Writes out and removes every bucket older than the grace window of
        `now`, in any order of the seconds, whatever the store answers. */
    method EvictOld(now: int, outcomes: Outcomes)
      modifies this`cache, this`store, this`sent
      ensures cache == Retained(old(cache), now)
      ensures store == FlushStore(old(store), old(cache), now, outcomes, queueName)
      ensures SentOnce(old(sent), sent, FlushAttempts(old(cache), now, outcomes, queueName))
    {
      ghost var c0, s0, w0 := cache, store, sent;
      ghost var evicted := Evicted(c0, now);
      ghost var done: set<int> := {};
      ghost var w: seq<Write> := [];
      var todo := cache.Keys;
      NothingWritten(s0, c0, outcomes, queueName);
      while todo != {}
        invariant todo <= c0.Keys
        invariant done == evicted - todo
        invariant cache == c0 - done
        invariant store == Flushed(s0, c0, Pairs(c0, done), done, outcomes, queueName)
        invariant sent == w0 + w && Distinct(w)
        invariant Elems(w) == Attempts(c0, Pairs(c0, done), done, outcomes, queueName)
        decreases todo
      {
        var sec :| sec in todo;
        VisitStep(c0, now, todo, done, sec);
        todo := todo - {sec};
        if sec >= now - 1 {
          continue;
        }
        w := WriteSecond(sec, cache[sec], outcomes, c0, s0, done, w0, w);
        done := done + {sec};
      }
      FlushDone(c0, s0, w0, now, outcomes, queueName, done, cache, store, w, sent);
    }

    /** A flush at clock reading `now`: marked as in progress while the old
        buckets are written out, then recorded as the last flush. */
    method Flush(now: int, outcomes: Outcomes)
      modifies this
      ensures cache == Retained(old(cache), now)
      ensures store == FlushStore(old(store), old(cache), now, outcomes, queueName)
      ensures SentOnce(old(sent), sent, FlushAttempts(old(cache), now, outcomes, queueName))
      ensures lastFlush == now && !writing && closed == old(closed)
    {
      writing := true;
      EvictOld(now, outcomes);
      writing := false;
      lastFlush := now;
    }

    /** Folds one stat into the bucket of the second `now`, allocating the
        bucket if absent, then flushes if the clock has moved past the last
        flush and no flush is in progress. */
    method UpdateCache(log: StatsLog, now: int, outcomes: Outcomes)
      modifies this
      ensures Snapshot() == Update(old(Snapshot()), log, now, outcomes, queueName)
      ensures old(now > lastFlush && !writing) ==>
        SentOnce(old(sent), sent, FlushAttempts(Add(old(cache), now, log.name, log.value), now, outcomes, queueName))
      ensures !old(now > lastFlush && !writing) ==> sent == old(sent)
      ensures closed == old(closed)
    {
      if now !in cache {
        cache := cache[now := map[]];
      }
      var bucket := cache[now];
      cache := cache[now := bucket[log.name := (if log.name in bucket then bucket[log.name] else 0) + log.value]];
      assert cache == Add(old(cache), now, log.name, log.value);
      if now > lastFlush && !writing {
        Flush(now, outcomes);
      }
    }

    /** The worker: takes the stats of `ticks` from the pipe one by one, in
        order, and updates the cache with each. */
    method Run(ticks: seq<Tick>)
      modifies this
      ensures Snapshot() == Replay(old(Snapshot()), ticks, queueName)
      ensures |old(sent)| <= |sent| && sent[..|old(sent)|] == old(sent)
      ensures closed == old(closed)
    {
      for i := 0 to |ticks|
        invariant Snapshot() == Replay(old(Snapshot()), ticks[..i], queueName)
        invariant |old(sent)| <= |sent| && sent[..|old(sent)|] == old(sent)
        invariant closed == old(closed)
      {
        UpdateCache(ticks[i].log, ticks[i].now, ticks[i].outcomes);
        assert ticks[..i + 1][..i] == ticks[..i];
      }
      assert ticks[..|ticks|] == ticks;
    }

    /** Forces out every cached stat with a flush two seconds ahead of the
        clock reading `realNow`, then closes the pipe and the connection;
        closing an already closed pipe is an error. */
    method Destroy(realNow: int, outcomes: Outcomes)
      requires !closed
      modifies this
      ensures cache == Retained(old(cache), realNow + 2)
      ensures store == FlushStore(old(store), old(cache), realNow + 2, outcomes, queueName)
      ensures SentOnce(old(sent), sent, FlushAttempts(old(cache), realNow + 2, outcomes, queueName))
      ensures lastFlush == realNow + 2 && !writing && closed
      ensures (forall sec :: sec in old(cache) ==> sec <= realNow) ==> cache == map[]
    {
      Flush(realNow + 2, outcomes);
      closed := true;
      if forall sec :: sec in old(cache) ==> sec <= realNow {
        DestroyEvictsAll(old(cache), realNow);
      }
    }
  }
}
