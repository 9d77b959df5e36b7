/** The logger's own test scenarios, over any queue name, any clock reading
    and any prior store: a fresh logger bound to a queue sees some events
    within one second, then is flushed. */
module Scenarios {
  import opened Keys
  import opened Aggregation
  import opened Worker
  import opened Hooks
  import opened FlushProperties

  /** The worker's input for events `hs` all taken at clock reading `t`. */
  function HookTicks(q: string, hs: seq<Hook>, t: int, env: Outcomes): (ticks: seq<Tick>)
    ensures |ticks| == |hs|
    ensures forall i :: 0 <= i < |hs| ==> ticks[i] == Tick(HookLog(q, hs[i]), t, env)
  {
    if hs == [] then [] else HookTicks(q, hs[..|hs| - 1], t, env) + [Tick(HookLog(q, hs[|hs| - 1]), t, env)]
  }

  lemma HookTicksLogs(q: string, hs: seq<Hook>, t: int, env: Outcomes)
    ensures Logs(HookTicks(q, hs, t, env)) == HookLogs(q, hs)
  {
  }

  lemma CounterNamesNotSize(q: string)
    ensures PushStatsKey(q) != q + ":size" && PopStatsKey(q) != q + ":size"
  {
    assert PushStatsKey(q)[|q| + 1] == 'p' && PopStatsKey(q)[|q| + 1] == 'p';
    assert (q + ":size")[|q| + 1] == 's';
  }

  /** Stats taken within one second `t` leave every key of `t` in the store
      as it was: the flushes they trigger stop short of their own second. */
  lemma {:induction false} ReplayKeepsSecond(s: State, ticks: seq<Tick>, q: string, t: int)
    requires forall i :: 0 <= i < |ticks| ==> ticks[i].now == t
    ensures forall n :: SameAt(Replay(s, ticks, q).store, s.store, SecStatsKey(n, t))
    ensures SameAt(Replay(s, ticks, q).store, s.store, SecQueueSizeKey(q, t))
  {
    if ticks != [] {
      var init := ticks[..|ticks| - 1];
      var last := ticks[|ticks| - 1];
      ReplayKeepsSecond(s, init, q, t);
      var prev := Replay(s, init, q);
      if t > prev.lastFlush && !prev.writing {
        GraceWindowUntouched(prev.store, Add(prev.cache, t, last.log.name, last.log.value), t, last.outcomes, q, t);
      }
    }
  }

  /** Events within one second, taken by a fresh logger: their second's
      bucket holds the job counts, and no key of that second has been written
      to the store. */
  lemma FreshSecond(q: string, st: Store, hs: seq<Hook>, t: int, env: Outcomes)
    ensures var s := Replay(Initial(st), HookTicks(q, hs, t, env), q);
      && Count(s.cache, t, PushStatsKey(q)) == Pushed(hs)
      && Count(s.cache, t, PopStatsKey(q)) == Popped(hs)
      && (forall n :: SameAt(s.store, st, SecStatsKey(n, t)))
      && SameAt(s.store, st, SecQueueSizeKey(q, t))
  {
    var ticks := HookTicks(q, hs, t, env);
    ReplaySameSecond(Initial(st), ticks, q, t, PushStatsKey(q));
    ReplaySameSecond(Initial(st), ticks, q, t, PopStatsKey(q));
    HookTicksLogs(q, hs, t, env);
    HookTotals(q, hs);
    ReplayKeepsSecond(Initial(st), ticks, q, t);
  }

  /** Two pushes, then a flush in the same second: nothing is written for
      that second, neither the push counter nor the queue size. */
  lemma PushWithoutDelay(q: string, st: Store, t: int, env: Outcomes, flushEnv: Outcomes)
    ensures var s := Replay(Initial(st), HookTicks(q, [Push, Push], t, env), q);
      var r := FlushStore(s.store, s.cache, t, flushEnv, q);
      && Count(s.cache, t, PushStatsKey(q)) == 2
      && SameAt(r, st, SecStatsKey(PushStatsKey(q), t))
      && SameAt(r, st, SecQueueSizeKey(q, t))
  {
    var hs := [Push, Push];
    var s := Replay(Initial(st), HookTicks(q, hs, t, env), q);
    FreshSecond(q, st, hs, t, env);
    assert hs[..1] == [Push];
    assert Pushed(hs) == 2;
    GraceWindowUntouched(s.store, s.cache, t, flushEnv, q, t);
  }

  /** Events within one second, taken by a fresh logger, then a flush two
      seconds later: the size snapshot of that second is written when its
      write succeeds, and each non-zero push or pop total is added to what
      its counter held before, or the counter is left alone when its
      increment fails. */
  lemma DelayedFlush(q: string, st: Store, hs: seq<Hook>, t: int, env: Outcomes, flushEnv: Outcomes)
    requires hs != []
    ensures var s := Replay(Initial(st), HookTicks(q, hs, t, env), q);
      var r := FlushStore(s.store, s.cache, t + 2, flushEnv, q);
      var pushKey, popKey := SecStatsKey(PushStatsKey(q), t), SecStatsKey(PopStatsKey(q), t);
      && (flushEnv.setexOk(t) ==>
            SecQueueSizeKey(q, t) in r && r[SecQueueSizeKey(q, t)] == Cell(flushEnv.sizeAt(t), STATS_EXPIRY))
      && (Pushed(hs) != 0 && flushEnv.incrOk(t, PushStatsKey(q)) ==>
            pushKey in r && r[pushKey] == Cell((if pushKey in st then st[pushKey].value else 0) + Pushed(hs), STATS_EXPIRY))
      && (Pushed(hs) != 0 && !flushEnv.incrOk(t, PushStatsKey(q)) ==> SameAt(r, st, pushKey))
      && (Popped(hs) != 0 && flushEnv.incrOk(t, PopStatsKey(q)) ==>
            popKey in r && r[popKey] == Cell((if popKey in st then st[popKey].value else 0) + Popped(hs), STATS_EXPIRY))
      && (Popped(hs) != 0 && !flushEnv.incrOk(t, PopStatsKey(q)) ==> SameAt(r, st, popKey))
  {
    var s := Replay(Initial(st), HookTicks(q, hs, t, env), q);
    FreshSecond(q, st, hs, t, env);
    assert t in s.cache;
    CounterNamesNotSize(q);
    FlushWritesSize(s.store, s.cache, t + 2, flushEnv, q, t);
    if Pushed(hs) != 0 {
      CounterLands(st, s, t, flushEnv, q, PushStatsKey(q), Pushed(hs));
    }
    if Popped(hs) != 0 {
      CounterLands(st, s, t, flushEnv, q, PopStatsKey(q), Popped(hs));
    }
  }

  /** A non-zero total `k` of metric `n` in second `t`, whose key the worker
      has not yet written, is added by a flush two seconds later to what the
      key held in `st` when its increment succeeds, and left alone otherwise. */
  lemma CounterLands(st: Store, s: State, t: int, flushEnv: Outcomes, q: string, n: string, k: int)
    requires Count(s.cache, t, n) == k && k != 0 && n != q + ":size"
    requires SameAt(s.store, st, SecStatsKey(n, t))
    ensures var key, r := SecStatsKey(n, t), FlushStore(s.store, s.cache, t + 2, flushEnv, q);
      && (flushEnv.incrOk(t, n) ==>
            key in r && r[key] == Cell((if key in st then st[key].value else 0) + k, STATS_EXPIRY))
      && (!flushEnv.incrOk(t, n) ==> SameAt(r, st, key))
  {
    FlushRaisesCounter(s.store, s.cache, t + 2, flushEnv, q, t, n);
  }

  /** One push, then a flush two seconds later that succeeds, on a store
      without that second's push counter: the push counter reads 1 and the
      size snapshot the queue's size, both with the two-hour expiry. */
  lemma PushWithDelay(q: string, st: Store, t: int, env: Outcomes, flushEnv: Outcomes)
    requires SecStatsKey(PushStatsKey(q), t) !in st
    requires flushEnv.incrOk(t, PushStatsKey(q)) && flushEnv.setexOk(t) && flushEnv.sizeAt(t) == 1
    ensures var s := Replay(Initial(st), HookTicks(q, [Push], t, env), q);
      var r := FlushStore(s.store, s.cache, t + 2, flushEnv, q);
      && SecStatsKey(PushStatsKey(q), t) in r && r[SecStatsKey(PushStatsKey(q), t)] == Cell(1, STATS_EXPIRY)
      && SecQueueSizeKey(q, t) in r && r[SecQueueSizeKey(q, t)] == Cell(1, STATS_EXPIRY)
  {
    var hs := [Push];
    assert hs[..0] == [];
    assert Pushed(hs) == 1;
    DelayedFlush(q, st, hs, t, env, flushEnv);
  }

  /** Two pushes and two pops, then a flush two seconds later that succeeds
      on an emptied queue, on a store without that second's pop counter: the
      pop counter reads 2 and the size snapshot 0. */
  lemma WithPopStats(q: string, st: Store, t: int, env: Outcomes, flushEnv: Outcomes)
    requires SecStatsKey(PopStatsKey(q), t) !in st
    requires flushEnv.incrOk(t, PopStatsKey(q)) && flushEnv.setexOk(t) && flushEnv.sizeAt(t) == 0
    ensures var s := Replay(Initial(st), HookTicks(q, [Push, Push, Pop, Pop], t, env), q);
      var r := FlushStore(s.store, s.cache, t + 2, flushEnv, q);
      && SecStatsKey(PopStatsKey(q), t) in r && r[SecStatsKey(PopStatsKey(q), t)] == Cell(2, STATS_EXPIRY)
      && SecQueueSizeKey(q, t) in r && r[SecQueueSizeKey(q, t)] == Cell(0, STATS_EXPIRY)
  {
    var hs := [Push, Push, Pop, Pop];
    TwoPopsTotal();
    DelayedFlush(q, st, hs, t, env, flushEnv);
  }

  lemma TwoPopsTotal()
    ensures Popped([Push, Push, Pop, Pop]) == 2
  {
    var hs := [Push, Push, Pop, Pop];
    assert hs[..3] == [Push, Push, Pop] && [Push, Push, Pop][..2] == [Push, Push] && [Push, Push][..1] == [Push];
    assert Popped([Push, Push]) == 0;
    assert Popped([Push, Push, Pop]) == 1;
  }
}
