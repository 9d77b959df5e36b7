/** What one flush does to the counter store and which commands it sends,
    stated key by key over the order-free description in module Aggregation. */
module FlushProperties {
  import opened Keys
  import opened Aggregation

  lemma PairAttempted(c: Cache, ps: set<(int, string)>, secs: set<int>, env: Outcomes, q: string, p: (int, string))
    requires InCache(c, ps) && p in ps
    ensures IncrExpire(SecStatsKey(p.1, p.0), c[p.0][p.1], STATS_EXPIRY) in Attempts(c, ps, secs, env, q)
  {
  }

  lemma SecondAttempted(c: Cache, ps: set<(int, string)>, secs: set<int>, env: Outcomes, q: string, sec: int)
    requires InCache(c, ps) && sec in secs
    ensures SetEx(SecQueueSizeKey(q, sec), env.sizeAt(sec), STATS_EXPIRY) in Attempts(c, ps, secs, env, q)
  {
  }

  /** Only keys some sent command names can change: every other key of the
      store holds what it held before the flush. */
  lemma FlushKeepsUnsentKeys(st: Store, c: Cache, now: int, env: Outcomes, q: string, key: string)
    requires forall w :: w in FlushAttempts(c, now, env, q) ==> w.key != key
    ensures SameAt(FlushStore(st, c, now, env, q), st, key)
  {
    var e := Evicted(c, now);
    var ps := Pairs(c, e);
    if key in IncrWrites(st, c, ps, env) {
      var p :| p in ps && env.incrOk(p.0, p.1) && SecStatsKey(p.1, p.0) == key;
      PairAttempted(c, ps, e, env, q, p);
      assert false;
    }
    if key in SizeWrites(q, e, env) {
      var sec :| sec in e && env.setexOk(sec) && SecQueueSizeKey(q, sec) == key;
      SecondAttempted(c, ps, e, env, q, sec);
      assert false;
    }
  }

  /** A counter key of a second not older than the grace window is neither
      incremented nor overwritten by a size snapshot. */
  lemma NoCommandInGraceWindow(c: Cache, now: int, env: Outcomes, q: string, sec: int, w: Write)
    requires sec >= now - 1 && w in FlushAttempts(c, now, env, q)
    ensures forall n :: w.key != SecStatsKey(n, sec)
    ensures w.key != SecQueueSizeKey(q, sec)
  {
    var e := Evicted(c, now);
    SizeKeyIsStatsKey(q, sec);
    forall n ensures w.key != SecStatsKey(n, sec) {
      if w.IncrExpire? {
        var p :| p in Pairs(c, e) && w == IncrExpire(SecStatsKey(p.1, p.0), c[p.0][p.1], STATS_EXPIRY);
        if w.key == SecStatsKey(n, sec) {
          SecStatsKeyInjective(p.1, p.0, n, sec);
        }
      } else {
        var s :| s in e && w == SetEx(SecQueueSizeKey(q, s), env.sizeAt(s), STATS_EXPIRY);
        SizeKeyIsStatsKey(q, s);
        if w.key == SecStatsKey(n, sec) {
          SecStatsKeyInjective(q + ":size", s, n, sec);
        }
      }
    }
  }

  /** A flush at `now` writes nothing for the seconds `now - 1` and `now`:
      their counters and size snapshot keep whatever the store held. */
  lemma GraceWindowUntouched(st: Store, c: Cache, now: int, env: Outcomes, q: string, sec: int)
    requires sec >= now - 1
    ensures forall n :: SameAt(FlushStore(st, c, now, env, q), st, SecStatsKey(n, sec))
    ensures SameAt(FlushStore(st, c, now, env, q), st, SecQueueSizeKey(q, sec))
  {
    forall n ensures SameAt(FlushStore(st, c, now, env, q), st, SecStatsKey(n, sec)) {
      forall w | w in FlushAttempts(c, now, env, q) ensures w.key != SecStatsKey(n, sec) {
        NoCommandInGraceWindow(c, now, env, q, sec, w);
      }
      FlushKeepsUnsentKeys(st, c, now, env, q, SecStatsKey(n, sec));
    }
    forall w | w in FlushAttempts(c, now, env, q) ensures w.key != SecQueueSizeKey(q, sec) {
      NoCommandInGraceWindow(c, now, env, q, sec, w);
    }
    FlushKeepsUnsentKeys(st, c, now, env, q, SecQueueSizeKey(q, sec));
  }

  /** A counter of an evicted second is raised by its accumulated delta, with
      the two-hour expiry, when its transaction succeeds, and left as it was
      when it fails.  The one key this cannot speak for is the counter of a
      metric named `q:size`, which is the size key of the same second and is
      overwritten by a successful size snapshot. */
  lemma FlushRaisesCounter(st: Store, c: Cache, now: int, env: Outcomes, q: string, sec: int, n: string)
    requires sec in c && sec < now - 1 && n in c[sec]
    requires n != q + ":size" || !env.setexOk(sec)
    ensures var key, r := SecStatsKey(n, sec), FlushStore(st, c, now, env, q);
      && (env.incrOk(sec, n) ==>
            key in r && r[key] == Cell((if key in st then st[key].value else 0) + c[sec][n], STATS_EXPIRY))
      && (!env.incrOk(sec, n) ==> SameAt(r, st, key))
  {
    var e := Evicted(c, now);
    var ps := Pairs(c, e);
    var key := SecStatsKey(n, sec);
    if key in SizeWrites(q, e, env) {
      var s :| s in e && env.setexOk(s) && SecQueueSizeKey(q, s) == key;
      SizeKeyIsStatsKey(q, s);
      SecStatsKeyInjective(q + ":size", s, n, sec);
      assert false;
    }
    if env.incrOk(sec, n) {
      IncrWritesAt(st, c, ps, env, sec, n);
    } else if key in IncrWrites(st, c, ps, env) {
      var p :| p in ps && env.incrOk(p.0, p.1) && SecStatsKey(p.1, p.0) == key;
      SecStatsKeyInjective(p.1, p.0, n, sec);
      assert false;
    }
  }

  /** Each evicted second gets its queue-size snapshot, with the two-hour
      expiry, when the write succeeds.  When it fails the size key keeps its
      old value, unless the bucket holds a metric named `q:size` whose
      increment succeeded. */
  lemma FlushWritesSize(st: Store, c: Cache, now: int, env: Outcomes, q: string, sec: int)
    requires sec in c && sec < now - 1
    ensures var key, r := SecQueueSizeKey(q, sec), FlushStore(st, c, now, env, q);
      && (env.setexOk(sec) ==> key in r && r[key] == Cell(env.sizeAt(sec), STATS_EXPIRY))
      && (!env.setexOk(sec) && (q + ":size" !in c[sec] || !env.incrOk(sec, q + ":size")) ==> SameAt(r, st, key))
  {
    var e := Evicted(c, now);
    var ps := Pairs(c, e);
    var key := SecQueueSizeKey(q, sec);
    if env.setexOk(sec) {
      SizeWritesAt(q, e, env, sec);
    } else {
      if key in SizeWrites(q, e, env) {
        var s :| s in e && env.setexOk(s) && SecQueueSizeKey(q, s) == key;
        SizeKeyInjective(q, s, sec);
        assert false;
      }
      if (q + ":size" !in c[sec] || !env.incrOk(sec, q + ":size")) && key in IncrWrites(st, c, ps, env) {
        var p :| p in ps && env.incrOk(p.0, p.1) && SecStatsKey(p.1, p.0) == key;
        SizeKeyIsStatsKey(q, sec);
        SecStatsKeyInjective(p.1, p.0, q + ":size", sec);
        assert false;
      }
    }
  }

  lemma SuffixIndex(before: seq<Write>, after: seq<Write>, x: Write)
    requires |before| <= |after|
    ensures x in Elems(after[|before|..]) <==> exists i :: |before| <= i < |after| && after[i] == x
  {
    var d := after[|before|..];
    if x in Elems(d) {
      var k :| 0 <= k < |d| && d[k] == x;
      assert after[|before| + k] == x;
    }
    if exists i :: |before| <= i < |after| && after[i] == x {
      var i :| |before| <= i < |after| && after[i] == x;
      assert d[i - |before|] == x;
    }
  }

  /** A flush sends each evicted second's size snapshot exactly once, and no
      snapshot for any other second. */
  lemma SizeSentOnce(before: seq<Write>, after: seq<Write>, c: Cache, now: int, env: Outcomes, q: string, sec: int)
    requires SentOnce(before, after, FlushAttempts(c, now, env, q))
    ensures (exists i :: |before| <= i < |after| && after[i] == SetEx(SecQueueSizeKey(q, sec), env.sizeAt(sec), STATS_EXPIRY))
        <==> sec in c && sec < now - 1
    ensures forall i, j :: |before| <= i < |after| && |before| <= j < |after| && after[i].SetEx? && after[i] == after[j] ==> i == j
    ensures forall i :: |before| <= i < |after| && after[i].SetEx? && after[i].key == SecQueueSizeKey(q, sec) ==>
      after[i] == SetEx(SecQueueSizeKey(q, sec), env.sizeAt(sec), STATS_EXPIRY)
  {
    var d := after[|before|..];
    var e := Evicted(c, now);
    var x := SetEx(SecQueueSizeKey(q, sec), env.sizeAt(sec), STATS_EXPIRY);
    SuffixIndex(before, after, x);
    if x in FlushAttempts(c, now, env, q) {
      var s :| s in e && x == SetEx(SecQueueSizeKey(q, s), env.sizeAt(s), STATS_EXPIRY);
      SizeKeyInjective(q, s, sec);
    }
    forall i, j | |before| <= i < |after| && |before| <= j < |after| && after[i].SetEx? && after[i] == after[j]
      ensures i == j
    {
      assert d[i - |before|] == after[i] && d[j - |before|] == after[j];
    }
    forall i | |before| <= i < |after| && after[i].SetEx? && after[i].key == SecQueueSizeKey(q, sec)
      ensures after[i] == x
    {
      SuffixIndex(before, after, after[i]);
      var s :| s in e && after[i] == SetEx(SecQueueSizeKey(q, s), env.sizeAt(s), STATS_EXPIRY);
      SizeKeyInjective(q, s, sec);
    }
  }

  /** A flush sends one increment-with-expiry by the accumulated delta for
      each metric of each evicted second, once, and none for any other
      (second, metric). */
  lemma IncrSentOnce(before: seq<Write>, after: seq<Write>, c: Cache, now: int, env: Outcomes, q: string, sec: int, n: string)
    requires SentOnce(before, after, FlushAttempts(c, now, env, q))
    ensures (exists i :: |before| <= i < |after| && after[i].IncrExpire? && after[i].key == SecStatsKey(n, sec))
        <==> sec in c && sec < now - 1 && n in c[sec]
    ensures forall i :: |before| <= i < |after| && after[i].IncrExpire? && after[i].key == SecStatsKey(n, sec) ==>
      sec in c && n in c[sec] && after[i] == IncrExpire(SecStatsKey(n, sec), c[sec][n], STATS_EXPIRY)
    ensures forall i, j ::
      (|before| <= i < |after| && |before| <= j < |after| && after[i].IncrExpire? && after[j].IncrExpire?
       && after[i].key == SecStatsKey(n, sec) && after[j].key == SecStatsKey(n, sec)) ==> i == j
  {
    var d := after[|before|..];
    var e := Evicted(c, now);
    var ps := Pairs(c, e);
    forall i | |before| <= i < |after| && after[i].IncrExpire? && after[i].key == SecStatsKey(n, sec)
      ensures sec in e && n in c[sec] && after[i] == IncrExpire(SecStatsKey(n, sec), c[sec][n], STATS_EXPIRY)
    {
      SuffixIndex(before, after, after[i]);
      var p :| p in ps && after[i] == IncrExpire(SecStatsKey(p.1, p.0), c[p.0][p.1], STATS_EXPIRY);
      SecStatsKeyInjective(p.1, p.0, n, sec);
    }
    if sec in e && n in c[sec] {
      var x := IncrExpire(SecStatsKey(n, sec), c[sec][n], STATS_EXPIRY);
      assert (sec, n) in ps;
      SuffixIndex(before, after, x);
    }
    forall i, j | |before| <= i < |after| && |before| <= j < |after| && after[i].IncrExpire? && after[j].IncrExpire?
      && after[i].key == SecStatsKey(n, sec) && after[j].key == SecStatsKey(n, sec)
      ensures i == j
    {
      assert d[i - |before|] == after[i] && d[j - |before|] == after[j];
    }
  }
}
