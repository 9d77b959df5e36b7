/** The logger's worker, as values: each stat it takes from the pipe is folded
    into the bucket of the current second, and a flush follows whenever the
    clock has moved past the last flush and no flush is in progress. */
module Worker {
  import opened Keys
  import opened Aggregation

  /** The part of the logger a stat can change. */
  datatype State = State(cache: Cache, lastFlush: int, writing: bool, store: Store)

  /** One stat as the worker takes it: the stat, the clock reading then, and
      the store's answers should it trigger a flush. */
  datatype Tick = Tick(log: StatsLog, now: int, outcomes: Outcomes)

  /** The state of a freshly created logger over store `st`. */
  function Initial(st: Store): State {
    State(map[], 0, false, st)
  }

  /** The state after one stat at clock reading `now`.  The stat's second is
      inside the grace window of the flush it may trigger, so its count is
      kept, and no other count of that window moves. */
  function Update(s: State, log: StatsLog, now: int, env: Outcomes, q: string): (r: State)
    ensures now in r.cache && log.name in r.cache[now]
    ensures Count(r.cache, now, log.name) == Count(s.cache, now, log.name) + log.value
    ensures forall sec, n :: sec >= now - 1 && (sec != now || n != log.name) ==> Count(r.cache, sec, n) == Count(s.cache, sec, n)
    ensures r.lastFlush >= s.lastFlush && r.writing == s.writing
    ensures r.lastFlush != s.lastFlush ==> r.lastFlush == now
  {
    var added := Add(s.cache, now, log.name, log.value);
    if now > s.lastFlush && !s.writing then
      State(Retained(added, now), now, false, FlushStore(s.store, added, now, env, q))
    else
      s.(cache := added)
  }

  /** The state after the worker has taken every stat of `ticks`, in order. */
  function Replay(s: State, ticks: seq<Tick>, q: string): State {
    if ticks == [] then s
    else
      var t := ticks[|ticks| - 1];
      Update(Replay(s, ticks[..|ticks| - 1], q), t.log, t.now, t.outcomes, q)
  }

  function Logs(ticks: seq<Tick>): (logs: seq<StatsLog>)
    ensures |logs| == |ticks| && forall i :: 0 <= i < |ticks| ==> logs[i] == ticks[i].log
  {
    if ticks == [] then [] else Logs(ticks[..|ticks| - 1]) + [ticks[|ticks| - 1].log]
  }

  /** Stats all logged within one second `t` add up in that second's bucket:
      no flush they trigger evicts it. */
  lemma {:induction false} ReplaySameSecond(s: State, ticks: seq<Tick>, q: string, t: int, name: string)
    requires forall i :: 0 <= i < |ticks| ==> ticks[i].now == t
    ensures Count(Replay(s, ticks, q).cache, t, name) == Count(s.cache, t, name) + Total(Logs(ticks), name)
  {
    if ticks != [] {
      var init := ticks[..|ticks| - 1];
      ReplaySameSecond(s, init, q, t, name);
      assert Logs(ticks)[..|ticks| - 1] == Logs(init);
    }
  }

  /** Along the worker's loop the last flush never moves back, and the
      writing flag keeps its value. */
  lemma {:induction false} ReplayMonotone(s: State, ticks: seq<Tick>, q: string)
    ensures Replay(s, ticks, q).lastFlush >= s.lastFlush
    ensures Replay(s, ticks, q).writing == s.writing
  {
    if ticks != [] {
      ReplayMonotone(s, ticks[..|ticks| - 1], q);
    }
  }

  /** The steady state at clock reading `t`: no flush in progress, the last
      flush no later than `t`, and only the buckets of `t - 1` and `t` held. */
  predicate Settled(s: State, t: int) {
    && !s.writing
    && s.lastFlush <= t
    && forall sec :: sec in s.cache ==> t - 1 <= sec <= t
  }

  /** A new logger is settled at any clock reading from the epoch on. */
  lemma InitialSettled(st: Store, t: int)
    requires t >= 0
    ensures Settled(Initial(st), t)
  {
  }

  /** A settled worker holds at most two buckets. */
  lemma WindowBound(s: State, t: int)
    requires Settled(s, t)
    ensures |s.cache| <= 2
  {
    forall sec | sec in s.cache.Keys ensures sec in {t - 1, t} {
      assert t - 1 <= sec <= t;
    }
    SubsetCard(s.cache.Keys, {t - 1, t});
  }

  lemma SubsetCard(a: set<int>, b: set<int>)
    requires a <= b
    ensures |a| <= |b|
  {
    assert b == a + (b - a);
  }

  /** A stat taken at a clock reading no earlier than the last settles the
      worker at the new reading. */
  lemma UpdateSettled(s: State, log: StatsLog, now: int, env: Outcomes, q: string, t: int)
    requires Settled(s, t) && t <= now
    ensures Settled(Update(s, log, now, env, q), now)
  {
    var added := Add(s.cache, now, log.name, log.value);
    if !(now > s.lastFlush) {
      assert now == t;
    }
  }

  /** Under a clock that never runs backwards, the worker stays settled. */
  lemma {:induction false} ReplaySettled(s: State, ticks: seq<Tick>, q: string, t: int)
    requires Settled(s, t)
    requires forall i :: 0 <= i < |ticks| ==> t <= ticks[i].now
    requires forall i, j :: 0 <= i < j < |ticks| ==> ticks[i].now <= ticks[j].now
    ensures Settled(Replay(s, ticks, q), if ticks == [] then t else ticks[|ticks| - 1].now)
  {
    if ticks != [] {
      var init := ticks[..|ticks| - 1];
      var last := ticks[|ticks| - 1];
      ReplaySettled(s, init, q, t);
      var t' := if init == [] then t else init[|init| - 1].now;
      UpdateSettled(Replay(s, init, q), last.log, last.now, last.outcomes, q, t');
    }
  }

  /** The terminal flush at `realNow + 2` empties a cache whose seconds are
      all no later than `realNow`. */
  lemma DestroyEvictsAll(c: Cache, realNow: int)
    requires forall sec :: sec in c ==> sec <= realNow
    ensures Retained(c, realNow + 2) == map[]
  {
  }
}
