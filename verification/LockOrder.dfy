/**
 Threads that ask the checker of `kernel/sync/lockdep.c` and spin (`kernel/sync/spinlock.c`) only after OK, one lock per
 class, in every interleaving. They unlock only what they hold, in any order, and report a release after the unlock.
 */
module LockOrder {
  import opened Lockdep

  /** Where a thread is: outside spin_lock, at the exchange, or in the inner loop that waits for the word to clear. */
  datatype Pc = Running | Swap(c: ClassId) | Wait(c: ClassId)

  /** `stack` is the thread's checker state, `held` are the classes of the locks whose exchange it has won. */
  datatype Task = Task(stack: seq<ClassId>, held: set<ClassId>, pc: Pc)

  /** `locked` are the classes whose lock word is nonzero. */
  datatype State = State(locked: set<ClassId>, tasks: map<nat, Task>)

  datatype Event =
    | Acquire(t: nat, c: ClassId)
    | Step(t: nat)
    | Unlock(t: nat, c: ClassId)
    | Report(t: nat, c: ClassId)

  /** One atomic operation or checker call of one thread; an event that is not possible changes nothing. */
  function Next(s: State, e: Event): (r: State) {
    if e.t !in s.tasks then s else
    var k := s.tasks[e.t];
    match e
    case Acquire(t, c) =>
      if k.pc != Running || Ask(k.stack, c) != OK then s
      else s.(tasks := s.tasks[t := k.(stack := Asked(k.stack, c), pc := Swap(c))])
    case Step(t) =>
      (match k.pc
       case Running => s
       case Swap(c) =>
         if c in s.locked then s.(tasks := s.tasks[t := k.(pc := Wait(c))])
         else State(s.locked + {c}, s.tasks[t := k.(held := k.held + {c}, pc := Running)])
       case Wait(c) => if c in s.locked then s else s.(tasks := s.tasks[t := k.(pc := Swap(c))]))
    case Unlock(t, c) =>
      if k.pc != Running || c !in k.held then s
      else State(s.locked - {c}, s.tasks[t := k.(held := k.held - {c})])
    case Report(t, c) =>
      if k.pc != Running || c in k.held then s
      else s.(tasks := s.tasks[t := k.(stack := Told(k.stack, c))])
  }

  function Run(s: State, es: seq<Event>): (r: State)
    decreases |es|
  {
    if es == [] then s else Run(Next(s, es[0]), es[1..])
  }

  predicate Initial(s: State) {
    s.locked == {} && forall t :: t in s.tasks ==> s.tasks[t] == Task([], {}, Running)
  }

  predicate Spins(s: State, t: nat) {
    t in s.tasks && s.tasks[t].pc != Running
  }

  /** The class a spinning thread wants. */
  function Wanted(s: State, t: nat): (c: ClassId)
    requires Spins(s, t)
  {
    s.tasks[t].pc.c
  }

  predicate Holds(s: State, t: nat, c: ClassId) {
    t in s.tasks && c in s.tasks[t].held
  }

  /** What one thread holds is on its stack, and what it wants is on top, above everything it holds. */
  predicate Disciplined(k: Task) {
    && Ordered(k.stack)
    && (forall c :: c in k.held ==> c in k.stack)
    && (k.pc != Running ==> k.stack != [] && k.stack[|k.stack| - 1] == k.pc.c && k.pc.c !in k.held)
  }

  ghost predicate Inv(s: State) {
    && (forall t :: t in s.tasks ==> Disciplined(s.tasks[t]))
    && (forall t, u, c :: Holds(s, t, c) && Holds(s, u, c) ==> t == u)
    && (forall c :: c in s.locked <==> exists t :: Holds(s, t, c))
  }

  lemma NextDisciplined(s: State, e: Event)
    requires Inv(s) && e.t in s.tasks
    ensures Disciplined(Next(s, e).tasks[e.t])
  {
    var k := s.tasks[e.t];
    match e
    case Acquire(t, c) =>
      AskExact(k.stack, c);
      assert c in k.held ==> c in k.stack;
    case Step(t) =>
      if k.pc != Running {
        assert k.stack[|k.stack| - 1] in k.stack;
      }
    case Unlock(t, c) =>
    case Report(t, c) =>
      if k.pc == Running && c !in k.held {
        ToldDisciplined(k, c);
      }
  }

  lemma ToldDisciplined(k: Task, c: ClassId)
    requires Disciplined(k) && k.pc == Running && c !in k.held
    ensures Disciplined(k.(stack := Told(k.stack, c)))
  {
    AskThenTell(k.stack, c);
    forall h | h in k.held
      ensures h in Told(k.stack, c)
    {
      if Tell(k.stack, c) == OK {
        var i :| 0 <= i < |k.stack| && k.stack[i] == h;
        assert k.stack[..|k.stack| - 1][i] == h;
      }
    }
  }

  lemma NextKeepsInv(s: State, e: Event)
    requires Inv(s)
    ensures Inv(Next(s, e))
  {
    hide Disciplined, Ask, Tell;
    var s' := Next(s, e);
    if e.t in s.tasks {
      NextDisciplined(s, e);
      assert forall u :: u in s.tasks && u != e.t ==> s'.tasks[u] == s.tasks[u];
      forall t, u, c | Holds(s', t, c) && Holds(s', u, c)
        ensures t == u
      {
        assert Holds(s, t, c) || Holds(s, u, c) ==> c in s.locked;
        assert Holds(s, t, c) && Holds(s, u, c) ==> t == u;
      }
      forall c
        ensures c in s'.locked <==> exists t :: Holds(s', t, c)
      {
        LockedHeld(s, e, c);
      }
    }
  }

  lemma LockedHeld(s: State, e: Event, c: ClassId)
    requires Inv(s) && e.t in s.tasks
    ensures var s' := Next(s, e); c in s'.locked <==> exists t :: Holds(s', t, c)
  {
    hide Disciplined, Ask, Tell;
    var s' := Next(s, e);
    if c in s'.locked {
      if c in s.locked {
        var t :| Holds(s, t, c);
        assert Holds(s', t, c);
      } else {
        assert Holds(s', e.t, c);
      }
    }
    forall t | Holds(s', t, c)
      ensures c in s'.locked
    {
      assert Holds(s, t, c) || c in s'.locked;
      assert Holds(s, e.t, c) && Holds(s, t, c) ==> e.t == t;
    }
  }

  /** Every state that any interleaving reaches satisfies the invariant: the locks exclude, the stacks are ordered. */
  lemma {:induction false} RunKeepsInv(s: State, es: seq<Event>)
    requires Inv(s)
    ensures Inv(Run(s, es))
    decreases |es|
  {
    if es != [] {
      NextKeepsInv(s, es[0]);
      RunKeepsInv(Next(s, es[0]), es[1..]);
    }
  }

  lemma InitialInv(s: State)
    requires Initial(s)
    ensures Inv(s)
  {
  }

  // ----- waiting -----

  /** Thread `t` spins on a lock that `u` holds. */
  predicate WaitsFor(s: State, t: nat, u: nat) {
    Spins(s, t) && Holds(s, u, Wanted(s, t))
  }

  ghost predicate Chain(s: State, p: seq<nat>) {
    forall i :: 0 <= i < |p| - 1 ==> WaitsFor(s, p[i], p[i + 1])
  }

  /** Who is waited for wants something larger, if anything. */
  lemma WantsMore(s: State, t: nat, u: nat)
    requires Inv(s) && WaitsFor(s, t, u) && Spins(s, u)
    ensures Wanted(s, t) < Wanted(s, u)
  {
    var k := s.tasks[u];
    var c := Wanted(s, t);
    assert c in k.held && c in k.stack;
    var i :| 0 <= i < |k.stack| && k.stack[i] == c;
  }

  lemma {:induction false} ChainClimbs(s: State, p: seq<nat>)
    requires Inv(s) && Chain(s, p) && |p| >= 2 && Spins(s, p[|p| - 1])
    ensures Spins(s, p[0]) && Wanted(s, p[0]) < Wanted(s, p[|p| - 1])
    decreases |p|
  {
    assert WaitsFor(s, p[0], p[1]);
    if |p| == 2 {
      WantsMore(s, p[0], p[1]);
    } else {
      var q := p[1..];
      assert Chain(s, q) by {
        forall i | 0 <= i < |q| - 1
          ensures WaitsFor(s, q[i], q[i + 1])
        {
          assert WaitsFor(s, p[i + 1], p[i + 2]);
        }
      }
      ChainClimbs(s, q);
      WantsMore(s, p[0], p[1]);
    }
  }

  /** In every reachable state the wait-for graph has no cycle, of any length. */
  lemma NoCycle(s: State, es: seq<Event>, p: seq<nat>)
    requires Initial(s) && |p| >= 2 && Chain(Run(s, es), p)
    ensures p[0] != p[|p| - 1]
  {
    InitialInv(s);
    RunKeepsInv(s, es);
    var r := Run(s, es);
    assert WaitsFor(r, p[0], p[1]);
    if p[0] == p[|p| - 1] {
      ChainClimbs(r, p);
    }
  }

  /** Spinning on a lock whose word is set: the next step of the thread does not get it further. */
  predicate Blocked(s: State, t: nat) {
    Spins(s, t) && Wanted(s, t) in s.locked
  }

  /** Behind every blocked thread, at the end of its chain, there is a thread that holds a lock and is not blocked. */
  lemma {:induction false} SomeHolderMoves(s: State, t: nat) returns (p: seq<nat>)
    requires Inv(s) && Blocked(s, t)
    ensures |p| >= 2 && p[0] == t && Chain(s, p)
    ensures var u := p[|p| - 1]; u in s.tasks && s.tasks[u].held != {} && !Blocked(s, u)
    decreases WORD - Wanted(s, t)
  {
    var c := Wanted(s, t);
    var u :| Holds(s, u, c);
    assert WaitsFor(s, t, u);
    if Blocked(s, u) {
      WantsMore(s, t, u);
      var q := SomeHolderMoves(s, u);
      p := [t] + q;
      forall i | 0 <= i < |p| - 1
        ensures WaitsFor(s, p[i], p[i + 1])
      {
        if i > 0 {
          assert WaitsFor(s, q[i - 1], q[i]);
        }
      }
    } else {
      p := [t, u];
    }
  }

  /**
   That thread need not be outside spin_lock: it may be about to take a free lock. Here the holder of class 1 spins,
   for a moment, on the free class 2 while another thread waits for class 1.
   */
  lemma HolderMaySpin() returns (s: State, es: seq<Event>)
    ensures Initial(s)
    ensures var r := Run(s, es);
            Blocked(r, 2) && r.tasks.Keys == {1, 2} && (forall t :: t in r.tasks ==> Spins(r, t))
  {
    var idle := Task([], {}, Running);
    s := State({}, map[1 := idle, 2 := idle]);
    es := [Acquire(1, 1), Step(1), Acquire(2, 1), Acquire(1, 2)];
    var s1 := Next(s, Acquire(1, 1));
    var s2 := Next(s1, Step(1));
    var s3 := Next(s2, Acquire(2, 1));
    var s4 := Next(s3, Acquire(1, 2));
    assert s2.locked == {1} && s2.tasks[1] == Task([1], {1}, Running);
    assert s3.tasks[2] == Task([1], {}, Swap(1));
    assert s4.tasks[1].pc == Swap(2);
    assert es[1..] == [Step(1), Acquire(2, 1), Acquire(1, 2)];
    assert es[1..][1..] == [Acquire(2, 1), Acquire(1, 2)];
    assert es[1..][1..][1..] == [Acquire(1, 2)];
    assert Run(s3, [Acquire(1, 2)]) == Run(s4, []);
  }

  // ----- no reachable state is a deadlock -----

  lemma {:induction false} RunConcat(s: State, a: seq<Event>, b: seq<Event>)
    ensures Run(s, a + b) == Run(Run(s, a), b)
    decreases |a|
  {
    if a == [] {
      assert a + b == b;
    } else {
      assert (a + b)[1..] == a[1..] + b;
      RunConcat(Next(s, a[0]), a[1..], b);
    }
  }

  /** A run in which a thread takes no step leaves it where it is. */
  lemma {:induction false} RunOfOthers(s: State, es: seq<Event>, t: nat)
    requires t in s.tasks && forall e :: e in es ==> e.t != t
    ensures t in Run(s, es).tasks && Run(s, es).tasks[t] == s.tasks[t]
    decreases |es|
  {
    if es != [] {
      RunOfOthers(Next(s, es[0]), es[1..], t);
    }
  }

  /** A thread that spins on a free lock has it after two of its own steps. */
  lemma TwoSteps(s: State, t: nat)
    requires Spins(s, t) && Wanted(s, t) !in s.locked
    ensures var r := Run(s, [Step(t), Step(t)]);
            t in r.tasks && r.tasks[t] == s.tasks[t].(held := s.tasks[t].held + {Wanted(s, t)}, pc := Running)
  {
    assert [Step(t), Step(t)][1..] == [Step(t)];
    var s1 := Next(s, Step(t));
    assert Run(s1, [Step(t)]) == Run(Next(s1, Step(t)), []);
  }

  /** The holder lets go, and the waiting thread, untouched, takes the lock. */
  lemma HandOver(s: State, t: nat, u: nat) returns (es: seq<Event>)
    requires Inv(s) && WaitsFor(s, t, u) && s.tasks[u].pc == Running
    ensures es == [Unlock(u, Wanted(s, t)), Step(t), Step(t)]
    ensures var r := Run(s, es);
            t in r.tasks && r.tasks[t] == s.tasks[t].(held := s.tasks[t].held + {Wanted(s, t)}, pc := Running)
  {
    var c := Wanted(s, t);
    es := [Unlock(u, c), Step(t), Step(t)];
    assert es[1..] == [Step(t), Step(t)];
    var s1 := Next(s, Unlock(u, c));
    assert s1.tasks[t] == s.tasks[t];
    TwoSteps(s1, t);
  }

  /** The largest class on a thread's stack. */
  function Top(s: State, t: nat): (c: ClassId)
    requires t in s.tasks
  {
    var k := s.tasks[t].stack;
    if k == [] then 0 else k[|k| - 1]
  }

  /**
   From every state that satisfies the invariant, whoever spins can still get the lock: there is a continuation, made
   of steps of threads whose stack reaches at least as high, at the end of which the thread has it.
   */
  lemma {:induction false} CanAcquire(s: State, t: nat) returns (es: seq<Event>)
    requires Inv(s) && Spins(s, t)
    ensures forall e :: e in es ==> e.t in s.tasks && Top(s, e.t) >= Wanted(s, t)
    ensures var r := Run(s, es);
            t in r.tasks && r.tasks[t] == s.tasks[t].(held := s.tasks[t].held + {Wanted(s, t)}, pc := Running)
    decreases WORD - Wanted(s, t)
  {
    var c := Wanted(s, t);
    if c !in s.locked {
      TwoSteps(s, t);
      return [Step(t), Step(t)];
    }
    var u :| Holds(s, u, c);
    TopAbove(s, u, c);
    if s.tasks[u].pc == Running {
      es := HandOver(s, t, u);
    } else {
      assert WaitsFor(s, t, u);
      WantsMore(s, t, u);
      var first := CanAcquire(s, u);
      var s1 := Run(s, first);
      RunKeepsInv(s, first);
      RunOfOthers(s, first, t);
      var last := HandOver(s1, t, u);
      es := first + last;
      RunConcat(s, first, last);
    }
  }

  lemma TopAbove(s: State, u: nat, c: ClassId)
    requires Inv(s) && Holds(s, u, c)
    ensures Top(s, u) >= c
  {
    var k := s.tasks[u].stack;
    assert c in k;
    var i :| 0 <= i < |k| && k[i] == c;
  }

  /** No deadlock: after any run, each spinning thread is still some continuation away from holding its lock. */
  lemma NoDeadlock(s: State, es: seq<Event>, t: nat) returns (more: seq<Event>)
    requires Initial(s) && Spins(Run(s, es), t)
    ensures Holds(Run(s, es + more), t, Wanted(Run(s, es), t))
  {
    InitialInv(s);
    RunKeepsInv(s, es);
    more := CanAcquire(Run(s, es), t);
    RunConcat(s, es, more);
  }

  /** The spinlock word itself: the exchange succeeds exactly on a clear word and always leaves it set. */
  class SpinLock {
    var locked: nat

    constructor ()
      ensures locked == 0
    {
      locked := 0;
    }

    /** `mcs_spin_try_lock` is the step at `Swap`, for the class `c` whose lock word this is. */
    method TryLock(ghost s: State, ghost t: nat, ghost c: ClassId) returns (won: bool)
      requires t in s.tasks && s.tasks[t].pc == Swap(c) && (locked != 0 <==> c in s.locked)
      modifies this
      ensures var s' := Next(s, Step(t));
              (locked != 0 <==> c in s'.locked) && (won <==> s'.tasks[t].pc == Running)
    {
      var previous := locked;
      locked := 1;
      won := previous == 0;
    }

    /** `mcs_spin_unlock`. */
    method Unlock(ghost s: State, ghost t: nat, ghost c: ClassId)
      requires Holds(s, t, c) && s.tasks[t].pc == Running
      modifies this
      ensures locked != 0 <==> c in Next(s, Event.Unlock(t, c)).locked
    {
      locked := 0;
    }
  }
}
