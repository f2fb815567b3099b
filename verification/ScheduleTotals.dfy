/** The accounting of the scheduler: what the threads' own counters add up to, in every run. */
module ScheduleTotals {
  import opened Schedule

  /** The switches of all threads together. */
  ghost function SumSwitches<T>(info: map<T, Info>): (n: nat)
    decreases |info|
  {
    if info.Keys == {} then 0 else
    var t :| t in info;
    info[t].switches + SumSwitches(info - {t})
  }

  ghost function SumTicks<T>(info: map<T, Info>): (n: nat)
    decreases |info|
  {
    if info.Keys == {} then 0 else
    var t :| t in info;
    info[t].ticks + SumTicks(info - {t})
  }

  /** A sum may be started from any thread. */
  lemma {:induction false} SumFrom<T>(info: map<T, Info>, t: T)
    requires t in info
    ensures SumSwitches(info) == info[t].switches + SumSwitches(info - {t})
    ensures SumTicks(info) == info[t].ticks + SumTicks(info - {t})
    decreases |info|
  {
    SumSwitchesFrom(info, t);
    SumTicksFrom(info, t);
  }

  lemma {:induction false} SumSwitchesFrom<T>(info: map<T, Info>, t: T)
    requires t in info
    ensures SumSwitches(info) == info[t].switches + SumSwitches(info - {t})
    decreases |info|
  {
    var u :| u in info && SumSwitches(info) == info[u].switches + SumSwitches(info - {u});
    if u != t {
      SumSwitchesFrom(info - {u}, t);
      SumSwitchesFrom(info - {t}, u);
      assert info - {u} - {t} == info - {t} - {u};
    }
  }

  lemma {:induction false} SumTicksFrom<T>(info: map<T, Info>, t: T)
    requires t in info
    ensures SumTicks(info) == info[t].ticks + SumTicks(info - {t})
    decreases |info|
  {
    var u :| u in info && SumTicks(info) == info[u].ticks + SumTicks(info - {u});
    if u != t {
      SumTicksFrom(info - {u}, t);
      SumTicksFrom(info - {t}, u);
      assert info - {u} - {t} == info - {t} - {u};
    }
  }

  /** Changing one thread's counters changes the sums by as much. */
  lemma SumUpdate<T>(info: map<T, Info>, t: T, i: Info)
    ensures SumSwitches(info[t := i]) ==
            SumSwitches(info) + i.switches - if t in info then info[t].switches else 0
    ensures SumTicks(info[t := i]) == SumTicks(info) + i.ticks - if t in info then info[t].ticks else 0
  {
    SumFrom(info[t := i], t);
    assert info[t := i] - {t} == info - {t};
    if t in info {
      SumFrom(info, t);
    } else {
      assert info - {t} == info;
    }
  }

  /** The scheduler's totals are the sums: every switch counts for the thread it leaves and for the one it enters. */
  ghost predicate Accounted<T>(s: Sched<T>) {
    SumSwitches(s.info) == 2 * s.contextSwitches && SumTicks(s.info) == s.ticks
  }

  lemma WithStatusAccounted<T>(s: Sched<T>, t: T, status: Status)
    requires Accounted(s) && t in s.info
    ensures Accounted(WithStatus(s, t, status))
  {
    SumUpdate(s.info, t, s.info[t].(status := status));
  }

  lemma YieldAccounted<T>(s: Sched<T>)
    requires Accounted(s) && s.current in s.info && NextUp(s) in s.info
    ensures Accounted(YieldTo(s))
  {
    hide SumSwitches, SumTicks;
    var (prev, next) := (s.current, NextUp(s));
    if next == prev {
      WithStatusAccounted(s, prev, Running);
    } else {
      var back := s.info[prev].status == Running && prev != s.idle;
      var status := if back then Ready else s.info[prev].status;
      if back {
        WithStatusAccounted(s, prev, Ready);
      }
      var queued := s.info[prev := s.info[prev].(status := status)];
      assert queued == s.info || back;
      var one := queued[prev := queued[prev].(status := status, switches := queued[prev].switches + 1)];
      SumUpdate(queued, prev, one[prev]);
      SumUpdate(one, next, one[next].(status := Running, switches := one[next].switches + 1));
    }
  }

  lemma NextAccounted<T>(s: Sched<T>, e: Event<T>)
    requires Inv(s) && Accounted(s)
    ensures Accounted(Next(s, e))
  {
    hide SumSwitches, SumTicks, YieldTo;
    match e
    case Admit(t) => SumUpdate(s.info, t, Info(New, 0, 0));
    case Enqueue(t) =>
      if t in s.info {
        WithStatusAccounted(s, t, Ready);
      }
    case MarkReady(t) =>
      if t in s.info {
        WithStatusAccounted(s, t, Ready);
      }
    case Yield => YieldAccounted(s);
    case Block =>
      WithStatusAccounted(s, s.current, Blocked);
      YieldAccounted(WithStatus(s, s.current, Blocked));
    case Tick =>
      var i := s.info[s.current];
      SumUpdate(s.info, s.current, i.(ticks := i.ticks + 1));
  }

  lemma {:induction false} RunFromAccounted<T>(s: Sched<T>, es: seq<Event<T>>)
    requires Inv(s) && Accounted(s)
    ensures Accounted(Run(s, es))
    decreases |es|
  {
    if es != [] {
      NextAccounted(s, es[0]);
      NextKeepsInv(s, es[0]);
      RunFromAccounted(Next(s, es[0]), es[1..]);
    }
  }

  /** From boot, in every run, the threads' switches add up to twice the context switches and their ticks to the ticks. */
  lemma RunAccounted<T>(boot: T, es: seq<Event<T>>)
    ensures Accounted(Run(Boot(boot), es))
  {
    var s := Boot(boot);
    var none: map<T, Info> := map[];
    SumUpdate(none, boot, s.info[boot]);
    assert none[boot := s.info[boot]] == s.info;
    RunFromAccounted(s, es);
  }
}
