/**
 The mutex of `kernel/sync/mutex.c`: two words that any number of threads, each calling with its own id, read and update
 by separate atomic operations. A call is the sequence of its operations; calls interleave in every possible way.
 */
module Mutex {
  const OK: int := 0
  const EPERM: int := -1
  const EBUSY: int := -16
  const EINVAL: int := -22
  const EDEADLK: int := -35

  /** The atomic operation a thread performs next: `Swap`, `Peek`, `Claim` are those of try_lock, the others of unlock. */
  datatype Pc = Idle | Swap | Peek | Claim | Check | Disown | Release

  /**
   One thread: where it is, what its last finished call returned, and whether it holds the mutex, which it does from
   the compare-exchange it wins to the store that clears `locked`.
   */
  datatype Thread = Thread(pc: Pc, held: bool, rc: int)

  datatype State = State(locked: nat, owner: nat, threads: map<nat, Thread>)

  datatype Call = TryLock | Unlock

  datatype Event = Begin(t: nat, call: Call) | Step(t: nat)

  function Set(s: State, t: nat, th: Thread): (r: State) {
    s.(threads := s.threads[t := th])
  }

  function Return(s: State, t: nat, rc: int): (r: State)
    requires t in s.threads
  {
    Set(s, t, s.threads[t].(pc := Idle, rc := rc))
  }

  /** One atomic operation of one thread, or the start of a call; an event that is not possible changes nothing. */
  function Next(s: State, e: Event): (r: State) {
    if e.t !in s.threads then s else
    var th := s.threads[e.t];
    match e
    case Begin(t, call) =>
      if th.pc != Idle then s
      else if t == 0 then Return(s, t, EINVAL)
      else Set(s, t, th.(pc := if call == TryLock then Swap else Check))
    case Step(t) =>
      match th.pc
      case Idle => s
      case Swap =>
        if s.locked == 0 then Set(s.(locked := 1), t, th.(pc := Claim, held := true))
        else Set(s, t, th.(pc := Peek))
      case Peek => Return(s, t, if s.owner == t then EDEADLK else EBUSY)
      case Claim => Return(s.(owner := t), t, OK)
      case Check => if s.owner != t then Return(s, t, EPERM) else Set(s, t, th.(pc := Disown))
      case Disown => Set(s.(owner := 0), t, th.(pc := Release))
      case Release => Return(Set(s.(locked := 0), t, th.(held := false)), t, OK)
  }

  function Run(s: State, es: seq<Event>): (r: State)
    decreases |es|
  {
    if es == [] then s else Run(Next(s, es[0]), es[1..])
  }

  /** A fresh mutex, and any threads that have not used it yet. */
  predicate Initial(s: State) {
    s.locked == 0 && s.owner == 0 && forall t :: t in s.threads ==> s.threads[t].pc == Idle && !s.threads[t].held
  }

  predicate Holds(s: State, t: nat) {
    t in s.threads && s.threads[t].held
  }

  /** The holder has its name in `owner`, except right after winning the mutex and right before giving it up. */
  predicate Consistent(s: State, t: nat)
    requires t in s.threads
  {
    var th := s.threads[t];
    && (th.pc in {Claim, Disown, Release} ==> th.held)
    && (th.pc != Idle ==> t != 0)
    && (th.held ==> s.locked == 1 && t != 0 && (s.owner == if th.pc in {Claim, Release} then 0 else t))
    && (s.owner == t != 0 ==> th.held)
  }

  ghost predicate Inv(s: State) {
    && (forall t :: t in s.threads ==> Consistent(s, t))
    && (forall t, u :: Holds(s, t) && Holds(s, u) ==> t == u)
    && s.locked <= 1
    && (s.locked == 1 ==> exists t :: Holds(s, t))
    && (s.owner != 0 ==> Holds(s, s.owner))
  }

  lemma NextKeepsInv(s: State, e: Event)
    requires Inv(s)
    ensures Inv(Next(s, e))
  {
    var s', t := Next(s, e), e.t;
    if t in s.threads && s' != s {
      forall u | u in s'.threads
        ensures Consistent(s', u)
      {
        assert Consistent(s, u) && Consistent(s, t);
        assert Holds(s, u) && Holds(s, t) ==> u == t;
      }
      forall u, v | Holds(s', u) && Holds(s', v)
        ensures u == v
      {
        assert Consistent(s, u) && Consistent(s, v);
        assert Holds(s, u) && Holds(s, v) ==> u == v;
      }
      if s'.locked == 1 {
        if s.locked == 1 {
          var u :| Holds(s, u);
          assert Consistent(s, t);
          assert Holds(s', u);
        } else {
          assert Holds(s', t);
        }
      }
      assert Consistent(s, t);
    }
  }

  /** In every state that any interleaving of any calls reaches, the invariant holds. */
  lemma {:induction false} RunKeepsInv(s: State, es: seq<Event>)
    requires Inv(s)
    ensures Inv(Run(s, es))
    decreases |es|
  {
    if es != [] {
      NextKeepsInv(s, es[0]);
      RunKeepsInv(Next(s, es[0]), es[1..]);
    }
  }

  /**
   Mutual exclusion: after any run from a fresh mutex at most one thread holds it, `locked` is set exactly while one
   does, and a nonzero `owner` names that thread.
   */
  lemma MutualExclusion(s: State, es: seq<Event>)
    requires Initial(s)
    ensures var s' := Run(s, es);
            && (forall t, u :: Holds(s', t) && Holds(s', u) ==> t == u)
            && (s'.locked != 0 <==> exists t :: Holds(s', t))
            && (s'.owner != 0 ==> Holds(s', s'.owner))
  {
    RunKeepsInv(s, es);
    var s' := Run(s, es);
    forall t | Holds(s', t)
      ensures s'.locked != 0
    {
      assert Consistent(s', t);
    }
  }

  // ----- whole calls, whatever the other threads do meanwhile -----

  /** What a call must have done by the time it returns, by whether its caller held the mutex when it began. */
  predicate Outcome(call: Call, held: bool, th: Thread) {
    match call
    case TryLock => if held then th.held && th.rc == EDEADLK else th.rc == if th.held then OK else EBUSY
    case Unlock => !th.held && th.rc == if held then OK else EPERM
  }

  /** Thread `t` is inside `call`, which it began holding the mutex or not, or has returned from it. */
  predicate Within(s: State, t: nat, call: Call, held: bool) {
    t in s.threads && t != 0 &&
    var th := s.threads[t];
    match th.pc
    case Idle => Outcome(call, held, th)
    case Swap => call == TryLock && th.held == held
    case Peek => call == TryLock && th.held == held
    case Claim => call == TryLock && !held
    case Check => call == Unlock && th.held == held
    case Disown => call == Unlock && held
    case Release => call == Unlock && held
  }

  lemma NextWithin(s: State, e: Event, t: nat, call: Call, held: bool)
    requires Inv(s) && Within(s, t, call, held) && !(e.Begin? && e.t == t)
    ensures Within(Next(s, e), t, call, held)
  {
    assert Consistent(s, t);
    if Holds(s, t) && s.threads[t].pc == Swap {
      assert s.locked == 1;
    }
  }

  lemma {:induction false} RunWithin(s: State, es: seq<Event>, t: nat, call: Call, held: bool)
    requires Inv(s) && Within(s, t, call, held)
    requires forall e :: e in es ==> !(e.Begin? && e.t == t)
    ensures Within(Run(s, es), t, call, held)
    decreases |es|
  {
    if es != [] {
      NextWithin(s, es[0], t, call, held);
      NextKeepsInv(s, es[0]);
      RunWithin(Next(s, es[0]), es[1..], t, call, held);
    }
  }

  /**
   The result of every call, in every interleaving: a thread that does not hold the mutex gets it with OK or is told
   EBUSY, a thread that holds it is told EDEADLK and keeps it; unlock gives it up with OK exactly for the holder, and
   tells every other thread EPERM.
   */
  lemma CallOutcome(s: State, before: seq<Event>, t: nat, call: Call, during: seq<Event>)
    requires Initial(s) && t != 0
    requires t in Run(s, before).threads && Run(s, before).threads[t].pc == Idle
    requires forall e :: e in during ==> !(e.Begin? && e.t == t)
    ensures var b := Run(s, before);
            var r := Run(Next(b, Begin(t, call)), during);
            t in r.threads && (r.threads[t].pc == Idle ==> Outcome(call, b.threads[t].held, r.threads[t]))
  {
    var b := Run(s, before);
    RunKeepsInv(s, before);
    NextKeepsInv(b, Begin(t, call));
    RunWithin(Next(b, Begin(t, call)), during, t, call, b.threads[t].held);
  }

  /** A thread that does not hold the mutex changes neither `locked` from 1 to 0 nor a nonzero `owner`. */
  lemma OnlyHolderReleases(s: State, e: Event)
    requires Inv(s) && !Holds(s, e.t)
    ensures var s' := Next(s, e);
            s'.owner == s.owner && s'.locked >= s.locked && (forall u :: Holds(s, u) ==> Holds(s', u))
  {
    if e.t in s.threads {
      assert Consistent(s, e.t);
    }
  }

  /** The mutex itself; each call is the sequence of atomic operations above, carried out without interruption. */
  class Words {
    var locked: nat
    var owner: nat

    constructor ()
      ensures locked == 0 && owner == 0
    {
      locked, owner := 0, 0;
    }

    /** The two words are those of the machine, in which `t` is between calls. */
    ghost predicate Are(s: State, t: nat)
      reads this
    {
      locked == s.locked && owner == s.owner && t in s.threads && s.threads[t].pc == Idle
    }

    method TryLock(id: nat, ghost s: State) returns (rc: int)
      requires Are(s, id)
      modifies this
      ensures var s' := Run(s, [Begin(id, Call.TryLock), Step(id), Step(id)]);
              Are(s', id) && rc == s'.threads[id].rc
    {
      RunThree(s, Begin(id, Call.TryLock), Step(id), Step(id));
      if id == 0 {
        return EINVAL;
      }
      if locked != 0 {
        if owner == id {
          return EDEADLK;
        }
        return EBUSY;
      }
      locked := 1;
      owner := id;
      rc := OK;
    }

    method Unlock(id: nat, ghost s: State) returns (rc: int)
      requires Are(s, id)
      modifies this
      ensures var s' := Run(s, [Begin(id, Call.Unlock), Step(id), Step(id), Step(id)]);
              Are(s', id) && rc == s'.threads[id].rc
    {
      ghost var s1 := Next(s, Begin(id, Call.Unlock));
      RunThree(s1, Step(id), Step(id), Step(id));
      assert [Begin(id, Call.Unlock), Step(id), Step(id), Step(id)][1..] == [Step(id), Step(id), Step(id)];
      if id == 0 {
        return EINVAL;
      }
      if owner != id {
        return EPERM;
      }
      owner := 0;
      locked := 0;
      rc := OK;
    }
  }

  lemma RunThree(s: State, a: Event, b: Event, c: Event)
    ensures Run(s, [a, b, c]) == Next(Next(Next(s, a), b), c)
  {
    assert [a, b, c][1..] == [b, c];
    assert [b, c][1..] == [c];
    var s2 := Next(Next(s, a), b);
    assert Run(s2, [c]) == Run(Next(s2, c), []);
  }
}
