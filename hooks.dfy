/** The queue events the logger binds to, and the stat it logs for each. */
module Hooks {
  import opened Keys
  import opened Aggregation

  /** A queue event: one job or several pushed, one job or several popped,
      one job acknowledged. */
  datatype Hook = Push | MultiPush(jobs: nat) | Pop | MultiPop(jobs: nat) | Ack

  /** The number of jobs an event concerns. */
  function Jobs(h: Hook): nat {
    match h
    case MultiPush(k) => k
    case MultiPop(k) => k
    case _ => 1
  }

  /** The stat logged for event `h` on the queue named `q`: its job count, on
      the push, pop or ack counter of the queue according to its kind. */
  function HookLog(q: string, h: Hook): (s: StatsLog)
    ensures s.name == PushStatsKey(q) <==> h.Push? || h.MultiPush?
    ensures s.name == PopStatsKey(q) <==> h.Pop? || h.MultiPop?
    ensures s.name == AckStatsKey(q) <==> h.Ack?
    ensures s.value == Jobs(h)
  {
    StatKeysDistinct(q);
    match h
    case Push => StatsLog(PushStatsKey(q), 1)
    case MultiPush(k) => StatsLog(PushStatsKey(q), k)
    case Pop => StatsLog(PopStatsKey(q), 1)
    case MultiPop(k) => StatsLog(PopStatsKey(q), k)
    case Ack => StatsLog(AckStatsKey(q), 1)
  }

  function HookLogs(q: string, hs: seq<Hook>): (logs: seq<StatsLog>)
    ensures |logs| == |hs| && forall i :: 0 <= i < |hs| ==> logs[i] == HookLog(q, hs[i])
  {
    if hs == [] then [] else HookLogs(q, hs[..|hs| - 1]) + [HookLog(q, hs[|hs| - 1])]
  }

  /** Jobs pushed, popped and acknowledged by a sequence of events. */
  function Pushed(hs: seq<Hook>): nat {
    if hs == [] then 0
    else Pushed(hs[..|hs| - 1]) + (match hs[|hs| - 1] case Push => 1 case MultiPush(k) => k case _ => 0)
  }

  function Popped(hs: seq<Hook>): nat {
    if hs == [] then 0
    else Popped(hs[..|hs| - 1]) + (match hs[|hs| - 1] case Pop => 1 case MultiPop(k) => k case _ => 0)
  }

  function Acked(hs: seq<Hook>): nat {
    if hs == [] then 0
    else Acked(hs[..|hs| - 1]) + (if hs[|hs| - 1].Ack? then 1 else 0)
  }

  /** What the logger accumulates on a queue's push, pop and ack counters is
      the number of jobs pushed, popped and acknowledged. */
  lemma {:induction false} HookTotals(q: string, hs: seq<Hook>)
    ensures Total(HookLogs(q, hs), PushStatsKey(q)) == Pushed(hs)
    ensures Total(HookLogs(q, hs), PopStatsKey(q)) == Popped(hs)
    ensures Total(HookLogs(q, hs), AckStatsKey(q)) == Acked(hs)
  {
    if hs != [] {
      var init := hs[..|hs| - 1];
      HookTotals(q, init);
      assert HookLogs(q, hs)[..|hs| - 1] == HookLogs(q, init);
    }
  }
}
