/**
 The scheduler of `kernel/mcsos_thread.c` on values: a FIFO of ready threads, the current thread, and the idle thread,
 which is never queued. Threads are named by values of any type.
 */
module Schedule {
  datatype Status = New | Ready | Running | Blocked | Zombie

  datatype Info = Info(status: Status, switches: nat, ticks: nat)

  datatype Sched<T> = Sched(
    current: T,
    idle: T,
    queue: seq<T>,
    info: map<T, Info>,
    contextSwitches: nat,
    ticks: nat
  )

  /** `Admit` is the preparation of a fresh thread. */
  datatype Event<T> = Admit(t: T) | Enqueue(t: T) | MarkReady(t: T) | Yield | Block | Tick

  ghost predicate Distinct<T>(q: seq<T>) {
    forall i, j :: 0 <= i < j < |q| ==> q[i] != q[j]
  }

  /** The queue holds exactly the ready threads, once each; the current and the idle thread are the running ones. */
  ghost predicate Inv<T>(s: Sched<T>) {
    && s.current in s.info && s.idle in s.info
    && Distinct(s.queue)
    && (forall t :: t in s.queue ==> t in s.info)
    && (forall t :: t in s.info ==> (s.info[t].status == Ready <==> t in s.queue))
    && (forall t :: t in s.info ==> (s.info[t].status == Running <==> t == s.current || t == s.idle))
  }

  /** The scheduler after initialisation with its boot thread. */
  function Boot<T>(boot: T): (s: Sched<T>)
    ensures Inv(s)
  {
    Sched(boot, boot, [], map[boot := Info(Running, 0, 0)], 0, 0)
  }

  function WithStatus<T>(s: Sched<T>, t: T, status: Status): (r: Sched<T>)
    requires t in s.info
  {
    s.(info := s.info[t := s.info[t].(status := status)])
  }

  function Push<T>(s: Sched<T>, t: T): (r: Sched<T>)
    requires t in s.info
  {
    WithStatus(s, t, Ready).(queue := s.queue + [t])
  }

  /** Whether a thread may be put on the queue, by its status. */
  predicate Queueable(status: Status) {
    status in {New, Ready, Blocked}
  }

  function Switched<T>(s: Sched<T>, t: T, status: Status): (r: Sched<T>)
    requires t in s.info
  {
    s.(info := s.info[t := s.info[t].(status := status, switches := s.info[t].switches + 1)])
  }

  /** The processor goes from one thread to another. */
  function Handed<T>(s: Sched<T>, prev: T, next: T): (r: Sched<T>)
    requires prev in s.info && next in s.info
  {
    Switched(Switched(s, prev, s.info[prev].status), next, Running)
    .(current := next, contextSwitches := s.contextSwitches + 1)
  }

  function NextUp<T>(s: Sched<T>): (t: T) {
    if s.queue == [] then s.idle else s.queue[0]
  }

  /** Whether an outgoing thread queues up again: it has not blocked, and it is not the idle thread. */
  predicate OnItsWay<T(==)>(s: Sched<T>, t: T)
    requires t in s.info
  {
    s.info[t].status == Running && t != s.idle
  }

  /** `mcsos_sched_yield`: the head of the queue runs; the outgoing thread queues up unless it is idle or blocked. */
  function YieldTo<T(==)>(s: Sched<T>): (r: Sched<T>)
    requires s.current in s.info && NextUp(s) in s.info
  {
    var (prev, next) := (s.current, NextUp(s));
    var popped := if s.queue == [] then s else s.(queue := s.queue[1..]);
    if next == prev then WithStatus(popped, prev, Running)
    else
      var queued := if OnItsWay(s, prev) then Push(popped, prev) else popped;
      Handed(queued, prev, next)
  }

  function BlockCurrent<T(==)>(s: Sched<T>): (r: Sched<T>)
    requires s.current in s.info && NextUp(s) in s.info
  {
    if s.current == s.idle then s else YieldTo(WithStatus(s, s.current, Blocked))
  }

  function TickCurrent<T>(s: Sched<T>): (r: Sched<T>)
    requires s.current in s.info
  {
    var i := s.info[s.current];
    s.(ticks := s.ticks + 1, info := s.info[s.current := i.(ticks := i.ticks + 1)])
  }

  /**
   One operation. Only threads that are not on the queue are enqueued, and only fresh ones admitted; an event that is
   not possible changes nothing.
   */
  function Next<T(==)>(s: Sched<T>, e: Event<T>): (r: Sched<T>)
    requires Inv(s)
  {
    match e
    case Admit(t) => if t in s.info then s else s.(info := s.info[t := Info(New, 0, 0)])
    case Enqueue(t) =>
      if t in s.info && t !in s.queue && Queueable(s.info[t].status) then Push(s, t) else s
    case MarkReady(t) => if t in s.info && s.info[t].status == Blocked then Push(s, t) else s
    case Yield => YieldTo(s)
    case Block => BlockCurrent(s)
    case Tick => TickCurrent(s)
  }

  lemma PushKeepsInv<T>(s: Sched<T>, t: T)
    requires Inv(s) && t in s.info && t !in s.queue && Queueable(s.info[t].status)
    ensures Inv(Push(s, t))
  {
    var q := s.queue + [t];
    forall u | u in s.info
      ensures u in q <==> u in s.queue || u == t
    {
      assert q[|s.queue|] == t;
    }
  }

  /** What the queue looks like once its head is taken off. */
  lemma PopQueue<T>(q: seq<T>)
    requires q != [] && Distinct(q)
    ensures Distinct(q[1..]) && q[0] !in q[1..] && forall t :: t in q <==> t in q[1..] || t == q[0]
  {
    assert q == [q[0]] + q[1..];
  }

  /** The same for a queue that the outgoing thread joins. */
  lemma PopPushQueue<T>(q: seq<T>, t: T)
    requires Distinct(q) && t !in q
    ensures Distinct(q + [t]) && forall u :: u in q + [t] <==> u in q || u == t
  {
  }

  /** Switching keeps the invariant, from a state in which the current thread is still running or has just blocked. */
  lemma YieldKeepsInv<T>(s: Sched<T>, blocks: bool)
    requires Inv(s) && (blocks ==> s.current != s.idle)
    ensures var from := if blocks then WithStatus(s, s.current, Blocked) else s;
            Inv(YieldTo(from))
  {
    assert s.current !in s.queue && s.idle !in s.queue;
    if s.queue != [] {
      PopQueue(s.queue);
      PopPushQueue(s.queue[1..], s.current);
    } else {
      PopPushQueue([], s.current);
    }
  }

  lemma NextKeepsInv<T>(s: Sched<T>, e: Event<T>)
    requires Inv(s)
    ensures Inv(Next(s, e))
  {
    match e
    case Admit(t) =>
    case Enqueue(t) =>
      if t in s.info && t !in s.queue && Queueable(s.info[t].status) {
        PushKeepsInv(s, t);
      }
    case MarkReady(t) =>
      if t in s.info && s.info[t].status == Blocked {
        PushKeepsInv(s, t);
      }
    case Yield => YieldKeepsInv(s, false);
    case Block =>
      if s.current != s.idle {
        YieldKeepsInv(s, true);
      }
    case Tick =>
  }

  ghost function Run<T>(s: Sched<T>, es: seq<Event<T>>): (r: Sched<T>)
    requires Inv(s)
    ensures Inv(r)
    decreases |es|
  {
    if es == [] then s else
    NextKeepsInv(s, es[0]);
    Run(Next(s, es[0]), es[1..])
  }

  // ----- fairness -----

  /** The events that take the head off the queue: a yield, or a block by a thread other than idle. */
  predicate Switches<T(==)>(s: Sched<T>, e: Event<T>) {
    e == Yield || (e == Block && s.current != s.idle)
  }

  ghost function SwitchCount<T>(s: Sched<T>, es: seq<Event<T>>): (n: nat)
    requires Inv(s)
    decreases |es|
  {
    if es == [] then 0 else
    NextKeepsInv(s, es[0]);
    (if Switches(s, es[0]) then 1 else 0) + SwitchCount(Next(s, es[0]), es[1..])
  }

  /** One event moves every queued thread up by one place, or not at all; the head moves to the processor. */
  lemma OneStep<T>(s: Sched<T>, e: Event<T>, k: nat)
    requires Inv(s) && k < |s.queue|
    ensures var r := Next(s, e);
            if !Switches(s, e) then k < |r.queue| && r.queue[k] == s.queue[k]
            else if k == 0 then r.current == s.queue[0]
            else k - 1 < |r.queue| && r.queue[k - 1] == s.queue[k]
  {
    assert s.queue[0] in s.queue && s.queue[k] in s.queue;
  }

  /** While fewer than k + 1 switches have happened, the thread at place k is still queued, that many places further on. */
  lemma {:induction false} WaitsInLine<T>(s: Sched<T>, es: seq<Event<T>>, k: nat)
    requires Inv(s) && k < |s.queue| && SwitchCount(s, es) <= k
    ensures var r := Run(s, es);
            k - SwitchCount(s, es) < |r.queue| && r.queue[k - SwitchCount(s, es)] == s.queue[k]
    decreases |es|
  {
    if es != [] {
      var e := es[0];
      OneStep(s, e, k);
      NextKeepsInv(s, e);
      WaitsInLine(Next(s, e), es[1..], if Switches(s, e) then k - 1 else k);
    }
  }

  lemma {:induction false} RunSnoc<T>(s: Sched<T>, es: seq<Event<T>>, e: Event<T>)
    requires Inv(s)
    ensures Run(s, es + [e]) == Next(Run(s, es), e)
    ensures SwitchCount(s, es + [e]) == SwitchCount(s, es) + if Switches(Run(s, es), e) then 1 else 0
    decreases |es|
  {
    if es == [] {
      assert es + [e] == [e] && [e][1..] == [];
    } else {
      NextKeepsInv(s, es[0]);
      assert (es + [e])[1..] == es[1..] + [e];
      RunSnoc(Next(s, es[0]), es[1..], e);
    }
  }

  /**
   Fairness: whatever enqueues, wake-ups, blocks and ticks come in between, the thread at place k of the queue becomes
   current at exactly the (k+1)-th switch, and stays queued until then.
   */
  lemma Fair<T>(s: Sched<T>, es: seq<Event<T>>, last: Event<T>, k: nat)
    requires Inv(s) && k < |s.queue|
    requires SwitchCount(s, es) == k && Switches(Run(s, es), last)
    ensures s.queue[k] in Run(s, es).queue && SwitchCount(s, es + [last]) == k + 1
    ensures Run(s, es + [last]).current == s.queue[k]
  {
    WaitsInLine(s, es, k);
    OneStep(Run(s, es), last, 0);
    RunSnoc(s, es, last);
  }

  // ----- round robin -----

  ghost function Yields<T>(s: Sched<T>, n: nat): (r: Sched<T>)
    requires Inv(s)
    ensures Inv(r)
  {
    if n == 0 then s else
    var r := Yields(s, n - 1);
    YieldKeepsInv(r, false);
    YieldTo(r)
  }

  /** The current thread and the queue behind it. */
  function Line<T>(s: Sched<T>): (q: seq<T>) {
    [s.current] + s.queue
  }

  lemma YieldRotates<T>(s: Sched<T>)
    requires Inv(s) && s.current != s.idle && s.queue != []
    ensures var r := YieldTo(s);
            Line(r) == Line(s)[1..] + [Line(s)[0]] && r.idle == s.idle && r.current != s.idle && r.queue != []
  {
    assert s.queue[0] in s.queue;
  }

  lemma RotateOnce<T>(line: seq<T>, n: nat)
    requires 0 < n <= |line|
    ensures var l := line[n - 1..] + line[..n - 1]; l[1..] + [l[0]] == line[n..] + line[..n]
  {
    assert line[..n] == line[..n - 1] + [line[n - 1]];
  }

  /** Yielding rotates the line of threads, by one place each time. */
  lemma {:induction false} Rotates<T>(s: Sched<T>, n: nat)
    requires Inv(s) && s.current != s.idle && s.queue != [] && n <= |Line(s)|
    ensures var r := Yields(s, n);
            Line(r) == Line(s)[n..] + Line(s)[..n] && r.idle == s.idle && r.current != s.idle && r.queue != []
  {
    hide Inv, YieldTo;
    if n > 0 {
      Rotates(s, n - 1);
      YieldRotates(Yields(s, n - 1));
      RotateOnce(Line(s), n);
    }
  }

  /** With n ready threads, n at least 1, and a current thread that is not idle, n + 1 yields restore both. */
  lemma RoundRobin<T>(s: Sched<T>)
    requires Inv(s) && s.current != s.idle && s.queue != []
    ensures var r := Yields(s, |s.queue| + 1); r.current == s.current && r.queue == s.queue
  {
    var n := |s.queue| + 1;
    Rotates(s, n);
    var r, line := Yields(s, n), Line(s);
    assert line[n..] + line[..n] == line;
    assert r.queue == Line(r)[1..] && s.queue == line[1..];
  }

  /** A thread that is alone gives way to idle at its first yield and comes back at the second. */
  lemma AloneAlternates<T>(s: Sched<T>)
    requires Inv(s) && s.current != s.idle && s.queue == []
    ensures Yields(s, 1).current == s.idle && Yields(s, 1).queue == [s.current]
    ensures Yields(s, 2).current == s.current && Yields(s, 2).queue == []
  {
    assert Yields(s, 0) == s;
    assert Yields(s, 1) == YieldTo(s);
    assert Yields(s, 2) == YieldTo(Yields(s, 1));
  }
}
