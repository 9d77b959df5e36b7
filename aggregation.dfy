/** The per-second aggregation cache of the stats logger and the effect a
    flush has on the counter store, stated as values.  The class in module
    Scylla performs these steps in place; the functions here say what its
    methods compute, and the lemmas say what that means. */
module Aggregation {
  import opened Keys

  /** Time-to-live, in seconds, of every key the logger writes. */
  const STATS_EXPIRY: int := 7200

  /** Metric name to accumulated delta, for one second. */
  type Bucket = map<string, int>

  /** Epoch second to its bucket. */
  type Cache = map<int, Bucket>

  /** One logged stat: a metric name and a signed delta. */
  datatype StatsLog = StatsLog(name: string, value: int)

  /** A counter-store entry: its integer value and the time-to-live last set on it. */
  datatype Cell = Cell(value: int, ttl: int)

  type Store = map<string, Cell>

  /** A command sent to the counter store: a transaction that increments a key
      and sets its expiry, or a set-with-expiry of the queue size. */
  datatype Write =
    | IncrExpire(key: string, amount: int, ttl: int)
    | SetEx(key: string, value: int, ttl: int)

  /** What the store and the queue answer during one flush: whether the
      increment of metric `name` for second `sec` succeeds, whether the size
      write for `sec` succeeds, and the queue size read when `sec` is flushed. */
  datatype Outcomes = Outcomes(incrOk: (int, string) -> bool, setexOk: int -> bool, sizeAt: int -> int)

  /** Accumulated delta of `name` in second `sec`; an absent bucket or name reads as 0. */
  function Count(c: Cache, sec: int, name: string): int {
    if sec in c && name in c[sec] then c[sec][name] else 0
  }

  function Names(c: Cache, sec: int): set<string> {
    if sec in c then c[sec].Keys else {}
  }

  /** The cache after one stat is folded into the bucket of second `sec`. */
  function Add(c: Cache, sec: int, name: string, v: int): (r: Cache)
    ensures r.Keys == c.Keys + {sec}
    ensures Names(r, sec) == Names(c, sec) + {name}
    ensures forall n :: Count(r, sec, n) == Count(c, sec, n) + (if n == name then v else 0)
    ensures forall s :: s in c && s != sec ==> r[s] == c[s]
  {
    var b := if sec in c then c[sec] else map[];
    c[sec := b[name := (if name in b then b[name] else 0) + v]]
  }

  /** Sum of the deltas logged for `name` in `logs`. */
  function Total(logs: seq<StatsLog>, name: string): int {
    if logs == [] then 0
    else Total(logs[..|logs| - 1], name) + (if logs[|logs| - 1].name == name then logs[|logs| - 1].value else 0)
  }

  /** Seconds a flush at `now` writes out: those older than the one-second grace window. */
  function Evicted(c: Cache, now: int): (e: set<int>)
    ensures forall sec :: sec in e <==> sec in c && sec <= now - 2
  {
    set sec | sec in c && sec < now - 1
  }

  /** The cache a flush at `now` leaves behind. */
  function Retained(c: Cache, now: int): (r: Cache)
    ensures forall sec :: sec in r <==> sec in c && sec >= now - 1
    ensures forall sec :: sec in r ==> r[sec] == c[sec]
  {
    c - Evicted(c, now)
  }

  /** Bookkeeping of a flush that has visited all seconds of `c0` but `todo`,
      written out the evicted ones among them (`done`) and removed those from
      the cache, as it visits one more second `sec`. */
  lemma VisitStep(c0: Cache, now: int, todo: set<int>, done: set<int>, sec: int)
    requires sec in todo && todo <= c0.Keys && done == Evicted(c0, now) - todo
    ensures sec < now - 1 ==> sec !in done && done + {sec} == Evicted(c0, now) - (todo - {sec})
    ensures sec < now - 1 ==> (c0 - done) - {sec} == c0 - (done + {sec})
    ensures sec >= now - 1 ==> done == Evicted(c0, now) - (todo - {sec})
  {
  }

  /** The (second, name) pairs held by the buckets of the seconds `secs`. */
  function Pairs(c: Cache, secs: set<int>): (ps: set<(int, string)>)
    ensures forall p :: p in ps <==> p.0 in secs && p.0 in c && p.1 in c[p.0]
  {
    var ps := set sec, name | sec in secs && sec in c && name in c[sec] :: (sec, name);
    assert forall sec, name :: sec in secs && sec in c && name in c[sec] ==> (sec, name) in ps;
    ps
  }

  ghost predicate InCache(c: Cache, ps: set<(int, string)>) {
    forall p :: p in ps ==> p.0 in c && p.1 in c[p.0]
  }

  /** The cell an increment-with-expiry by `amount` leaves at `key`: a missing key counts from 0. */
  function Bumped(st: Store, key: string, amount: int): Cell {
    Cell((if key in st then st[key].value else 0) + amount, STATS_EXPIRY)
  }

  lemma AllStatsKeysInjective()
    ensures forall n1, s1, n2, s2 :: SecStatsKey(n1, s1) == SecStatsKey(n2, s2) ==> n1 == n2 && s1 == s2
  {
    forall n1, s1, n2, s2 | SecStatsKey(n1, s1) == SecStatsKey(n2, s2)
      ensures n1 == n2 && s1 == s2
    {
      SecStatsKeyInjective(n1, s1, n2, s2);
    }
  }

  lemma AllSizeKeysInjective(q: string)
    ensures forall s1, s2 :: SecQueueSizeKey(q, s1) == SecQueueSizeKey(q, s2) ==> s1 == s2
  {
    forall s1, s2 | SecQueueSizeKey(q, s1) == SecQueueSizeKey(q, s2)
      ensures s1 == s2
    {
      SizeKeyInjective(q, s1, s2);
    }
  }

  /** The successful counter increments of the pairs `ps`, each read against `st`. */
  function IncrWrites(st: Store, c: Cache, ps: set<(int, string)>, env: Outcomes): map<string, Cell>
    requires InCache(c, ps)
  {
    AllStatsKeysInjective();
    map p | p in ps && env.incrOk(p.0, p.1) :: SecStatsKey(p.1, p.0) := Bumped(st, SecStatsKey(p.1, p.0), c[p.0][p.1])
  }

  /** The successful size writes of queue `q` for the seconds `secs`. */
  function SizeWrites(q: string, secs: set<int>, env: Outcomes): map<string, Cell> {
    AllSizeKeysInjective(q);
    map sec | sec in secs && env.setexOk(sec) :: SecQueueSizeKey(q, sec) := Cell(env.sizeAt(sec), STATS_EXPIRY)
  }

  /** The store once the pairs `ps` and the size snapshots of `secs` are written;
      a size write takes precedence, as it is sent after its bucket's counters. */
  function Flushed(st: Store, c: Cache, ps: set<(int, string)>, secs: set<int>, env: Outcomes, q: string): Store
    requires InCache(c, ps)
  {
    st + IncrWrites(st, c, ps, env) + SizeWrites(q, secs, env)
  }

  /** The store after a flush at `now` of the queue named `q`. */
  function FlushStore(st: Store, c: Cache, now: int, env: Outcomes, q: string): Store {
    var e := Evicted(c, now);
    Flushed(st, c, Pairs(c, e), e, env, q)
  }

  /** The commands sent for the pairs `ps` and the size snapshots of `secs`. */
  function Attempts(c: Cache, ps: set<(int, string)>, secs: set<int>, env: Outcomes, q: string): set<Write>
    requires InCache(c, ps)
  {
    (set p | p in ps :: IncrExpire(SecStatsKey(p.1, p.0), c[p.0][p.1], STATS_EXPIRY))
    + (set sec | sec in secs :: SetEx(SecQueueSizeKey(q, sec), env.sizeAt(sec), STATS_EXPIRY))
  }

  /** The commands a flush at `now` sends, each once, in some order. */
  function FlushAttempts(c: Cache, now: int, env: Outcomes, q: string): set<Write> {
    var e := Evicted(c, now);
    Attempts(c, Pairs(c, e), e, env, q)
  }

  ghost predicate Distinct(w: seq<Write>) {
    forall i, j :: 0 <= i < j < |w| ==> w[i] != w[j]
  }

  function Elems(w: seq<Write>): set<Write> {
    set x | x in w
  }

  /** Two logs of distinct commands with no command in common join into one. */
  lemma DistinctJoin(w: seq<Write>, d: seq<Write>)
    requires Distinct(w) && Distinct(d) && Elems(w) !! Elems(d)
    ensures Distinct(w + d) && Elems(w + d) == Elems(w) + Elems(d)
  {
    forall i, j | 0 <= i < j < |w + d| ensures (w + d)[i] != (w + d)[j] {
      if i < |w| <= j {
        assert (w + d)[i] in Elems(w) && (w + d)[j] in Elems(d);
      }
    }
  }

  /** A command not yet in a log of distinct commands keeps it distinct. */
  lemma DistinctAppend(w: seq<Write>, x: Write)
    requires Distinct(w) && x !in Elems(w)
    ensures Distinct(w + [x]) && Elems(w + [x]) == Elems(w) + {x}
  {
    DistinctJoin(w, [x]);
  }

  /** `after` is `before` followed by each command of `expected` exactly once. */
  ghost predicate SentOnce(before: seq<Write>, after: seq<Write>, expected: set<Write>) {
    && |before| <= |after|
    && after[..|before|] == before
    && Distinct(after[|before|..])
    && Elems(after[|before|..]) == expected
  }

  predicate SameAt(a: Store, b: Store, key: string) {
    (key in a <==> key in b) && (key in a ==> a[key] == b[key])
  }

  /** Before any second is written, the store is as the flush found it and
      no command has been sent. */
  lemma NothingWritten(st: Store, c: Cache, env: Outcomes, q: string)
    ensures InCache(c, Pairs(c, {}))
    ensures Flushed(st, c, Pairs(c, {}), {}, env, q) == st
    ensures Attempts(c, Pairs(c, {}), {}, env, q) == {}
  {
    assert Pairs(c, {}) == {};
    assert IncrWrites(st, c, {}, env) == map[];
    assert SizeWrites(q, {}, env) == map[];
  }

  /** A flush that has written every evicted second has reached the flush's
      whole effect on the cache, the store and the command log. */
  lemma FlushDone(c0: Cache, s0: Store, w0: seq<Write>, now: int, env: Outcomes, q: string,
                  done: set<int>, cache: Cache, store: Store, w: seq<Write>, sent: seq<Write>)
    requires done == Evicted(c0, now) && cache == c0 - done
    requires store == Flushed(s0, c0, Pairs(c0, done), done, env, q)
    requires sent == w0 + w && Distinct(w) && Elems(w) == Attempts(c0, Pairs(c0, done), done, env, q)
    ensures cache == Retained(c0, now)
    ensures store == FlushStore(s0, c0, now, env, q)
    ensures SentOnce(w0, sent, FlushAttempts(c0, now, env, q))
  {
    assert sent[..|w0|] == w0 && sent[|w0|..] == w;
  }

  // Steps of a flush, one command at a time.  They let the loops of
  // StatsLogger.EvictOld, which visit seconds and names in any order, keep
  // the store equal to Flushed(...) of what they have visited so far.

  /** The pairs of one second's names. */
  function BucketPairs(sec: int, names: set<string>): (ps: set<(int, string)>)
    ensures forall p :: p in ps <==> p.0 == sec && p.1 in names
  {
    var ps := set n | n in names :: (sec, n);
    assert forall p: (int, string) :: p.0 == sec && p.1 in names ==> p == (sec, p.1);
    ps
  }

  lemma PairsGrow(c: Cache, secs: set<int>, sec: int)
    requires sec in c
    ensures Pairs(c, secs + {sec}) == Pairs(c, secs) + BucketPairs(sec, c[sec].Keys)
  {
  }

  /** Reading the increment map: each written pair at its own key. */
  lemma IncrWritesAt(st: Store, c: Cache, ps: set<(int, string)>, env: Outcomes, sec: int, name: string)
    requires InCache(c, ps) && (sec, name) in ps && env.incrOk(sec, name)
    ensures SecStatsKey(name, sec) in IncrWrites(st, c, ps, env)
    ensures IncrWrites(st, c, ps, env)[SecStatsKey(name, sec)] == Bumped(st, SecStatsKey(name, sec), c[sec][name])
  {
    AllStatsKeysInjective();
  }

  /** Reading the size map: each written second at its own key. */
  lemma SizeWritesAt(q: string, secs: set<int>, env: Outcomes, sec: int)
    requires sec in secs && env.setexOk(sec)
    ensures SecQueueSizeKey(q, sec) in SizeWrites(q, secs, env)
    ensures SizeWrites(q, secs, env)[SecQueueSizeKey(q, sec)] == Cell(env.sizeAt(sec), STATS_EXPIRY)
  {
    AllSizeKeysInjective(q);
  }

  /** A pair not yet visited has a counter key no visited pair has. */
  lemma IncrKeyFresh(st: Store, c: Cache, ps: set<(int, string)>, env: Outcomes, sec: int, name: string)
    requires InCache(c, ps) && (sec, name) !in ps
    ensures SecStatsKey(name, sec) !in IncrWrites(st, c, ps, env)
  {
    var key := SecStatsKey(name, sec);
    if key in IncrWrites(st, c, ps, env) {
      var p :| p in ps && env.incrOk(p.0, p.1) && SecStatsKey(p.1, p.0) == key;
      SecStatsKeyInjective(p.1, p.0, name, sec);
      assert false;
    }
  }

  lemma MapsEqual(a: map<string, Cell>, b: map<string, Cell>)
    requires forall k :: k in a <==> k in b
    requires forall k :: k in a ==> a[k] == b[k]
    ensures a == b
  {
  }

  lemma UpdateLast(a: map<string, Cell>, b: map<string, Cell>, k: string, v: Cell)
    ensures a + b[k := v] == (a + b)[k := v]
  {
  }

  /** A second not yet flushed has a counter key no size write of a flushed second has. */
  lemma CounterKeyNotSizeWritten(q: string, secs: set<int>, env: Outcomes, sec: int, name: string)
    requires sec !in secs
    ensures SecStatsKey(name, sec) !in SizeWrites(q, secs, env)
  {
    var sw := SizeWrites(q, secs, env);
    if SecStatsKey(name, sec) in sw {
      var s :| s in secs && env.setexOk(s) && SecQueueSizeKey(q, s) == SecStatsKey(name, sec);
      SizeKeyIsStatsKey(q, s);
      SecStatsKeyInjective(q + ":size", s, name, sec);
      assert false;
    }
  }

  /** One more flushed second changes the size map at its own key only. */
  lemma SizeWritesGrowAt(q: string, secs: set<int>, env: Outcomes, sec: int, k: string)
    ensures var key, sw, sw' := SecQueueSizeKey(q, sec), SizeWrites(q, secs, env), SizeWrites(q, secs + {sec}, env);
      var expected := if env.setexOk(sec) then sw[key := Cell(env.sizeAt(sec), STATS_EXPIRY)] else sw;
      (k in sw' <==> k in expected) && (k in sw' ==> sw'[k] == expected[k])
  {
    var key := SecQueueSizeKey(q, sec);
    var sw, sw' := SizeWrites(q, secs, env), SizeWrites(q, secs + {sec}, env);
    if k in sw' {
      var s :| s in secs + {sec} && env.setexOk(s) && SecQueueSizeKey(q, s) == k;
      SizeWritesAt(q, secs + {sec}, env, s);
      if k == key {
        SizeKeyInjective(q, s, sec);
      } else {
        SizeWritesAt(q, secs, env, s);
      }
    }
    if k == key && env.setexOk(sec) {
      SizeWritesAt(q, secs + {sec}, env, sec);
    } else if k in sw {
      var s :| s in secs && env.setexOk(s) && SecQueueSizeKey(q, s) == k;
      SizeWritesAt(q, secs + {sec}, env, s);
    }
  }

  /** Sending the size snapshot of one more second. */
  lemma SizeStep(st: Store, c: Cache, ps: set<(int, string)>, secs: set<int>, env: Outcomes, q: string, sec: int)
    requires InCache(c, ps)
    ensures var cur, key := Flushed(st, c, ps, secs, env, q), SecQueueSizeKey(q, sec);
      Flushed(st, c, ps, secs + {sec}, env, q)
        == if env.setexOk(sec) then cur[key := Cell(env.sizeAt(sec), STATS_EXPIRY)] else cur
  {
    var key := SecQueueSizeKey(q, sec);
    var sw, sw' := SizeWrites(q, secs, env), SizeWrites(q, secs + {sec}, env);
    var expected := if env.setexOk(sec) then sw[key := Cell(env.sizeAt(sec), STATS_EXPIRY)] else sw;
    forall k ensures (k in sw' <==> k in expected) && (k in sw' ==> sw'[k] == expected[k]) {
      SizeWritesGrowAt(q, secs, env, sec, k);
    }
    MapsEqual(sw', expected);
    if env.setexOk(sec) {
      UpdateLast(st + IncrWrites(st, c, ps, env), sw, key, Cell(env.sizeAt(sec), STATS_EXPIRY));
    }
  }

  /** The size command of a second not yet flushed has not been sent. */
  lemma SizeAttemptStep(c: Cache, ps: set<(int, string)>, secs: set<int>, env: Outcomes, q: string, sec: int)
    requires InCache(c, ps) && sec !in secs
    ensures var w := SetEx(SecQueueSizeKey(q, sec), env.sizeAt(sec), STATS_EXPIRY);
      && w !in Attempts(c, ps, secs, env, q)
      && Attempts(c, ps, secs + {sec}, env, q) == Attempts(c, ps, secs, env, q) + {w}
  {
    var w := SetEx(SecQueueSizeKey(q, sec), env.sizeAt(sec), STATS_EXPIRY);
    if w in Attempts(c, ps, secs, env, q) {
      var s :| s in secs && SetEx(SecQueueSizeKey(q, s), env.sizeAt(s), STATS_EXPIRY) == w;
      SizeKeyInjective(q, s, sec);
      assert false;
    }
  }

  /** The successful increments of the names `names` of second `sec`'s bucket `b`, read against `st`. */
  function BucketIncr(st: Store, sec: int, b: Bucket, names: set<string>, env: Outcomes): map<string, Cell>
    requires names <= b.Keys
  {
    AllStatsKeysInjective();
    map n | n in names && env.incrOk(sec, n) :: SecStatsKey(n, sec) := Bumped(st, SecStatsKey(n, sec), b[n])
  }

  /** The increment commands for the names `names` of second `sec`'s bucket `b`. */
  function BucketAttempts(sec: int, b: Bucket, names: set<string>): set<Write>
    requires names <= b.Keys
  {
    set n | n in names :: IncrExpire(SecStatsKey(n, sec), b[n], STATS_EXPIRY)
  }

  lemma BucketIncrAt(st: Store, sec: int, b: Bucket, names: set<string>, env: Outcomes, n: string)
    requires names <= b.Keys && n in names && env.incrOk(sec, n)
    ensures SecStatsKey(n, sec) in BucketIncr(st, sec, b, names, env)
    ensures BucketIncr(st, sec, b, names, env)[SecStatsKey(n, sec)] == Bumped(st, SecStatsKey(n, sec), b[n])
  {
    AllStatsKeysInjective();
  }

  lemma BucketIncrGrowAt(st: Store, sec: int, b: Bucket, names: set<string>, env: Outcomes, n: string, k: string)
    requires names <= b.Keys && n in b && n !in names
    ensures var key, bi, bi' := SecStatsKey(n, sec), BucketIncr(st, sec, b, names, env), BucketIncr(st, sec, b, names + {n}, env);
      var expected := if env.incrOk(sec, n) then bi[key := Bumped(st, key, b[n])] else bi;
      (k in bi' <==> k in expected) && (k in bi' ==> bi'[k] == expected[k])
  {
    var key := SecStatsKey(n, sec);
    var bi, bi' := BucketIncr(st, sec, b, names, env), BucketIncr(st, sec, b, names + {n}, env);
    if k in bi' {
      var m :| m in names + {n} && env.incrOk(sec, m) && SecStatsKey(m, sec) == k;
      BucketIncrAt(st, sec, b, names + {n}, env, m);
      if m != n {
        BucketIncrAt(st, sec, b, names, env, m);
        if k == key {
          SecStatsKeyInjective(m, sec, n, sec);
        }
      }
    }
    if k == key && env.incrOk(sec, n) {
      BucketIncrAt(st, sec, b, names + {n}, env, n);
    } else if k in bi {
      var m :| m in names && env.incrOk(sec, m) && SecStatsKey(m, sec) == k;
      BucketIncrAt(st, sec, b, names + {n}, env, m);
    }
  }

  /** Sending the increment of one more name of the bucket being written. */
  lemma BucketIncrGrow(st: Store, sec: int, b: Bucket, names: set<string>, env: Outcomes, n: string)
    requires names <= b.Keys && n in b && n !in names
    ensures SecStatsKey(n, sec) !in BucketIncr(st, sec, b, names, env)
    ensures var key, bi := SecStatsKey(n, sec), BucketIncr(st, sec, b, names, env);
      BucketIncr(st, sec, b, names + {n}, env) == if env.incrOk(sec, n) then bi[key := Bumped(st, key, b[n])] else bi
  {
    var key := SecStatsKey(n, sec);
    var bi, bi' := BucketIncr(st, sec, b, names, env), BucketIncr(st, sec, b, names + {n}, env);
    if key in bi {
      var m :| m in names && env.incrOk(sec, m) && SecStatsKey(m, sec) == key;
      SecStatsKeyInjective(m, sec, n, sec);
      assert false;
    }
    var expected := if env.incrOk(sec, n) then bi[key := Bumped(st, key, b[n])] else bi;
    forall k ensures (k in bi' <==> k in expected) && (k in bi' ==> bi'[k] == expected[k]) {
      BucketIncrGrowAt(st, sec, b, names, env, n, k);
    }
    MapsEqual(bi', expected);
  }

  lemma BucketAttemptsGrow(sec: int, b: Bucket, names: set<string>, n: string)
    requires names <= b.Keys && n in b && n !in names
    ensures var x := IncrExpire(SecStatsKey(n, sec), b[n], STATS_EXPIRY);
      && x !in BucketAttempts(sec, b, names)
      && BucketAttempts(sec, b, names + {n}) == BucketAttempts(sec, b, names) + {x}
  {
    var x := IncrExpire(SecStatsKey(n, sec), b[n], STATS_EXPIRY);
    if x in BucketAttempts(sec, b, names) {
      var m :| m in names && IncrExpire(SecStatsKey(m, sec), b[m], STATS_EXPIRY) == x;
      SecStatsKeyInjective(m, sec, n, sec);
      assert false;
    }
  }

  /** Before a second is written, the store still holds at its counter keys
      what it held when the flush began, and none of its commands was sent. */
  lemma SecondFresh(st: Store, c: Cache, done: set<int>, env: Outcomes, q: string, sec: int)
    requires sec in c && sec !in done
    ensures forall n :: SameAt(Flushed(st, c, Pairs(c, done), done, env, q), st, SecStatsKey(n, sec))
    ensures Attempts(c, Pairs(c, done), done, env, q) !! BucketAttempts(sec, c[sec], c[sec].Keys)
  {
    var ps := Pairs(c, done);
    forall n ensures SameAt(Flushed(st, c, ps, done, env, q), st, SecStatsKey(n, sec)) {
      IncrKeyFresh(st, c, ps, env, sec, n);
      CounterKeyNotSizeWritten(q, done, env, sec, n);
    }
    var ba := BucketAttempts(sec, c[sec], c[sec].Keys);
    forall x | x in ba ensures x !in Attempts(c, ps, done, env, q) {
      var n :| n in c[sec] && x == IncrExpire(SecStatsKey(n, sec), c[sec][n], STATS_EXPIRY);
      if x in Attempts(c, ps, done, env, q) {
        var p :| p in ps && x == IncrExpire(SecStatsKey(p.1, p.0), c[p.0][p.1], STATS_EXPIRY);
        SecStatsKeyInjective(p.1, p.0, n, sec);
        assert false;
      }
    }
  }

  /** A key written for the pairs of `done + {sec}` is written for those of
      `done` or for the bucket of `sec`. */
  lemma IncrWritesSplit(st: Store, c: Cache, done: set<int>, env: Outcomes, sec: int, k: string)
    requires sec in c
    ensures InCache(c, Pairs(c, done + {sec}))
    ensures k in IncrWrites(st, c, Pairs(c, done + {sec}), env) ==>
      k in IncrWrites(st, c, Pairs(c, done), env) || k in BucketIncr(st, sec, c[sec], c[sec].Keys, env)
  {
    var ps, ps' := Pairs(c, done), Pairs(c, done + {sec});
    if k in IncrWrites(st, c, ps', env) {
      var p :| p in ps' && env.incrOk(p.0, p.1) && SecStatsKey(p.1, p.0) == k;
      if p.0 == sec {
        BucketIncrAt(st, sec, c[sec], c[sec].Keys, env, p.1);
      } else {
        IncrWritesAt(st, c, ps, env, p.0, p.1);
      }
    }
  }

  lemma IncrWritesJoinAt(st: Store, c: Cache, done: set<int>, env: Outcomes, sec: int, k: string)
    requires sec in c && sec !in done
    ensures InCache(c, Pairs(c, done + {sec}))
    ensures var joined := IncrWrites(st, c, Pairs(c, done), env) + BucketIncr(st, sec, c[sec], c[sec].Keys, env);
      var iw' := IncrWrites(st, c, Pairs(c, done + {sec}), env);
      (k in iw' <==> k in joined) && (k in iw' ==> iw'[k] == joined[k])
  {
    var ps, ps' := Pairs(c, done), Pairs(c, done + {sec});
    var iw, bi, iw' := IncrWrites(st, c, ps, env), BucketIncr(st, sec, c[sec], c[sec].Keys, env), IncrWrites(st, c, ps', env);
    if k in bi {
      var n :| n in c[sec] && env.incrOk(sec, n) && SecStatsKey(n, sec) == k;
      BucketIncrAt(st, sec, c[sec], c[sec].Keys, env, n);
      IncrWritesAt(st, c, ps', env, sec, n);
    } else if k in iw {
      var p :| p in ps && env.incrOk(p.0, p.1) && SecStatsKey(p.1, p.0) == k;
      IncrWritesAt(st, c, ps, env, p.0, p.1);
      IncrWritesAt(st, c, ps', env, p.0, p.1);
    } else {
      IncrWritesSplit(st, c, done, env, sec, k);
    }
  }

  lemma SwapLast(a: map<string, Cell>, b: map<string, Cell>, c: map<string, Cell>, d: map<string, Cell>)
    requires c.Keys !! d.Keys
    ensures a + b + c + d == a + (b + d) + c
  {
  }

  /** Once all its names are sent, a written bucket's increments join those
      of the visited pairs. */
  lemma BucketJoin(st: Store, c: Cache, done: set<int>, env: Outcomes, q: string, sec: int)
    requires sec in c && sec !in done
    ensures InCache(c, Pairs(c, done + {sec}))
    ensures Flushed(st, c, Pairs(c, done), done, env, q) + BucketIncr(st, sec, c[sec], c[sec].Keys, env)
         == Flushed(st, c, Pairs(c, done + {sec}), done, env, q)
  {
    var ps, ps' := Pairs(c, done), Pairs(c, done + {sec});
    var iw, bi, iw' := IncrWrites(st, c, ps, env), BucketIncr(st, sec, c[sec], c[sec].Keys, env), IncrWrites(st, c, ps', env);
    var sw := SizeWrites(q, done, env);
    forall k ensures (k in iw' <==> k in iw + bi) && (k in iw' ==> iw'[k] == (iw + bi)[k]) {
      IncrWritesJoinAt(st, c, done, env, sec, k);
    }
    MapsEqual(iw', iw + bi);
    forall k | k in bi ensures k !in sw {
      var n :| n in c[sec] && env.incrOk(sec, n) && SecStatsKey(n, sec) == k;
      CounterKeyNotSizeWritten(q, done, env, sec, n);
    }
    SwapLast(st, iw, sw, bi);
  }

  /** Once all its names are sent, a written bucket's commands join those of
      the visited pairs. */
  lemma BucketAttemptsJoin(c: Cache, done: set<int>, env: Outcomes, q: string, sec: int)
    requires sec in c
    ensures InCache(c, Pairs(c, done + {sec}))
    ensures Attempts(c, Pairs(c, done), done, env, q) + BucketAttempts(sec, c[sec], c[sec].Keys)
         == Attempts(c, Pairs(c, done + {sec}), done, env, q)
  {
    PairsGrow(c, done, sec);
  }

  /** The store after one more counter of the bucket being written: an
      increment reads the store's current value, which for a counter key not
      yet written in this flush is still the value the flush started from. */
  lemma CounterStep(base: Store, st: Store, sec: int, b: Bucket, names: set<string>, env: Outcomes, n: string)
    requires names <= b.Keys && n in b && n !in names
    requires SameAt(base, st, SecStatsKey(n, sec))
    ensures var cur, key := base + BucketIncr(st, sec, b, names, env), SecStatsKey(n, sec);
      base + BucketIncr(st, sec, b, names + {n}, env)
        == if env.incrOk(sec, n) then cur[key := Bumped(cur, key, b[n])] else cur
  {
    BucketIncrGrow(st, sec, b, names, env, n);
  }
}
