/**
 The scheduler of `kernel/mcsos_thread.c` as the code has it: thread objects linked through their `next` fields, and a
 scheduler object with the two ends of the ready list. The methods carry out the operations of `Schedule`.
 */
module Scheduler {
  import opened Schedule

  const MAGIC: nat := 0x4d435448524541
  const MIN_STACK: nat := 4096
  const STACK_ALIGN: nat := 16
  const WORD: nat := 0x1_0000_0000_0000_0000

  const OK: int := 0
  const EINVAL: int := -1
  const ESTACK: int := -2
  const ESTATE: int := -3
  const ECORRUPT: int := -4

  class Thread {
    var magic: nat
    var id: nat
    var state: Status
    var next: Thread?
    var switches: nat
    var ticks: nat
    var rsp: nat
    var rip: nat

    constructor ()
      ensures magic == 0
    {
      magic, id, state, next, switches, ticks, rsp, rip := 0, 0, New, null, 0, 0, 0, 0;
    }

    /**
     `mcsos_thread_prepare`, on 64-bit addresses that wrap: a stack is refused if it is too small or passes the end of
     the address space; otherwise the thread starts with its stack pointer inside the stack, a word below a multiple
     of sixteen.
     */
    method Prepare(entry: nat, stackBase: nat, stackSize: nat, id: nat) returns (rc: int)
      requires entry < WORD && stackBase < WORD && stackSize < WORD
      modifies this
      ensures rc == if entry == 0 || stackBase == 0 then EINVAL
                    else if stackSize < MIN_STACK || stackBase + stackSize >= WORD then ESTACK
                    else OK
      ensures if rc == OK then
                && magic == MAGIC && this.id == id && state == New && next == null && switches == 0 && ticks == 0
                && rip == entry && stackBase + 128 < rsp + 8 <= stackBase + stackSize && rsp % STACK_ALIGN == 8
              else unchanged(this)
    {
      if entry == 0 || stackBase == 0 {
        return EINVAL;
      }
      if stackSize < MIN_STACK {
        return ESTACK;
      }
      var low := stackBase;
      var high := (low + stackSize) % WORD;
      if high <= low {
        return ESTACK;
      }
      var top := high - high % STACK_ALIGN;
      if top <= (low + 128) % WORD {
        return ESTACK;
      }
      top := top - 8;
      magic, this.id, state, next, switches, ticks := MAGIC, id, New, null, 0, 0;
      rsp, rip := top, entry;
      rc := OK;
    }
  }

  predicate IsThread(t: Thread?)
    reads t
  {
    t != null && t.magic == MAGIC
  }

  class Scheduler {
    var initialized: bool
    var current: Thread?
    var idle: Thread?
    var readyHead: Thread?
    var readyTail: Thread?
    var runnableCount: nat
    var contextSwitches: nat
    var ticks: nat

    /** The ready list is `q`: the links lead through it from the head to the tail. */
    ghost predicate Linked(q: seq<Thread>)
      reads this`readyHead, this`readyTail, this`runnableCount, q`next
    {
      && Distinct(q)
      && runnableCount == |q|
      && readyHead == (if q == [] then null else q[0])
      && readyTail == (if q == [] then null else q[|q| - 1])
      && (forall i :: 0 <= i < |q| - 1 ==> q[i].next == q[i + 1])
      && (q != [] ==> q[|q| - 1].next == null)
    }

    /** The other fields are those of `v`, whose threads are all those prepared for this scheduler. */
    ghost predicate Recorded(v: Sched<Thread>)
      reads this, v.info.Keys
    {
      && initialized && current == v.current && idle == v.idle
      && contextSwitches == v.contextSwitches && ticks == v.ticks
      && (forall t :: t in v.info ==> t.magic == MAGIC && Info(t.state, t.switches, t.ticks) == v.info[t])
    }

    /** The objects stand for the abstract state `v`. */
    ghost predicate Shows(v: Sched<Thread>)
      reads this, v.queue, v.info.Keys
    {
      Linked(v.queue) && Recorded(v) && forall t :: t in v.queue ==> t in v.info
    }

    constructor ()
      ensures !initialized
    {
      initialized, current, idle, readyHead, readyTail := false, null, null, null, null;
      runnableCount, contextSwitches, ticks := 0, 0, 0;
    }

    /** `mcsos_scheduler_init`. */
    method Init(boot: Thread?) returns (rc: int)
      modifies this, boot
      ensures rc == if boot == null then EINVAL else OK
      ensures boot != null ==> Shows(Boot<Thread>(boot))
    {
      if boot == null {
        return EINVAL;
      }
      boot.magic, boot.id, boot.state, boot.next, boot.switches, boot.ticks := MAGIC, 0, Running, null, 0, 0;
      boot.rsp, boot.rip := 0, 0;
      current, idle, readyHead, readyTail := boot, boot, null, null;
      runnableCount, contextSwitches, ticks, initialized := 0, 0, 0, true;
      rc := OK;
    }

    /** A thread that has been prepared is one more thread of the scheduler. */
    lemma Prepared(v: Sched<Thread>, t: Thread)
      requires Inv(v) && Shows(v) && t !in v.info
      requires t.magic == MAGIC && t.state == New && t.switches == 0 && t.ticks == 0
      ensures Shows(Next(v, Admit(t)))
    {
    }

    /**
     What linking a thread in behind the tail makes of a list `q` it is on: the links end at the thread, which cuts off
     the threads behind it, or go round in it if it was the last.
     */
    ghost predicate Snagged(q: seq<Thread>, i: nat)
      reads this`readyHead, this`readyTail, this`runnableCount, q`next
    {
      && i < |q|
      && runnableCount == |q| + 1 && readyHead == q[0] && readyTail == q[i]
      && (forall j :: 0 <= j < i ==> q[j].next == q[j + 1])
      && q[i].next == if i == |q| - 1 then q[i] else null
    }

    lemma {:induction false} Follows(q: seq<Thread>, i: nat, l: seq<Thread>, j: nat)
      requires Snagged(q, i) && Linked(l) && j <= i
      ensures j < |l| && l[j] == q[j]
    {
      if j > 0 {
        Follows(q, i, l, j - 1);
        assert l[j - 1].next == q[j];
      }
    }

    /** Such links are those of no list at all. */
    lemma NoList(q: seq<Thread>, i: nat)
      requires Snagged(q, i)
      ensures forall l: seq<Thread> :: !Linked(l)
    {
      forall l: seq<Thread>
        ensures !Linked(l)
      {
        if Linked(l) {
          Follows(q, i, l, i);
        }
      }
    }

    /** The thread is linked in behind the tail. */
    method Append(thread: Thread, ghost q: seq<Thread>)
      requires Linked(q)
      modifies this`readyHead, this`readyTail, this`runnableCount, q`next, thread`next
      ensures thread !in q ==> Linked(q + [thread])
      ensures thread in q ==> exists i: nat :: Snagged(q, i) && q[i] == thread
    {
      ghost var i :| 0 <= i <= |q| && (if thread in q then i < |q| && q[i] == thread else i == |q|);
      assert forall j :: 0 <= j < |q| ==> q[j] in q;
      thread.next := null;
      if readyTail == null {
        readyHead := thread;
        readyTail := thread;
      } else {
        readyTail.next := thread;
        readyTail := thread;
      }
      runnableCount := runnableCount + 1;
      assert thread in q ==> Snagged(q, i);
    }

    /**
     `mcsos_sched_enqueue`: a new, blocked or outgoing thread joins the list at the tail; any other is refused. The code
     does not ask whether the thread is on the list already, and the links are a list afterwards exactly if it was not.
     */
    method Enqueue(thread: Thread?, ghost v: Sched<Thread>) returns (rc: int)
      requires initialized ==> Shows(v)
      requires initialized && IsThread(thread) ==> thread in v.info
      modifies this`readyHead, this`readyTail, this`runnableCount, v.info.Keys`next, v.info.Keys`state
      ensures rc == if !initialized || !IsThread(thread) then EINVAL
                    else if Queueable(v.info[thread].status) then OK else ESTATE
      ensures rc != OK ==> unchanged(this) && unchanged(v.info.Keys)
      ensures rc == OK && thread !in v.queue ==> Shows(Push<Thread>(v, thread))
      ensures rc == OK && thread in v.queue ==> forall l: seq<Thread> :: !Linked(l)
    {
      if !initialized || thread == null || thread.magic != MAGIC {
        return EINVAL;
      }
      if thread.state != New && thread.state != Ready && thread.state != Blocked {
        return ESTATE;
      }
      hide Distinct;
      thread.state := Ready;
      Append(thread, v.queue);
      rc := OK;
      if thread in v.queue {
        ghost var i: nat :| Snagged(v.queue, i);
        NoList(v.queue, i);
      }
    }

    /** `mcsos_thread_mark_ready`: only a blocked thread is woken up. */
    method MarkReady(thread: Thread?, ghost v: Sched<Thread>) returns (rc: int)
      requires initialized ==> Shows(v) && Inv(v)
      requires initialized && IsThread(thread) ==> thread in v.info
      modifies this`readyHead, this`readyTail, this`runnableCount, v.info.Keys`next, v.info.Keys`state
      ensures rc == if !IsThread(thread) then EINVAL
                    else if old(thread.state) != Blocked then ESTATE
                    else if !initialized then EINVAL else OK
      ensures rc != OK ==> unchanged(this) && unchanged(v.info.Keys)
      ensures rc == OK ==> Shows(Next(v, Event<Thread>.MarkReady(thread)))
    {
      if thread == null || thread.magic != MAGIC {
        return EINVAL;
      }
      if thread.state != Blocked {
        return ESTATE;
      }
      hide Linked, Distinct;
      rc := Enqueue(thread, v);
    }

    lemma RestLinked(q: seq<Thread>, thread: Thread)
      requires q != [] && Distinct(q) && thread == q[0]
      requires forall i :: 0 < i < |q| - 1 ==> q[i].next == q[i + 1]
      ensures forall i :: 0 <= i < |q| - 2 ==> q[1..][i].next == q[1..][i + 1]
    {
      var rest := q[1..];
      forall i | 0 <= i < |rest| - 1
        ensures rest[i].next == rest[i + 1]
      {
        assert rest[i] == q[i + 1] && rest[i + 1] == q[i + 2];
      }
    }

    /** The head comes off a list that is not empty. */
    method TakeHead(ghost q: seq<Thread>) returns (thread: Thread)
      requires Linked(q) && readyHead != null
      modifies this`readyHead, this`readyTail, this`runnableCount, q`next
      ensures q != [] && thread == q[0] && Linked(q[1..])
    {
      hide Distinct;
      PopQueue(q);
      ghost var rest := q[1..];
      assert rest != [] ==> rest[0] == q[1] && rest[|rest| - 1] == q[|q| - 1] && q[0].next == q[1];
      thread := readyHead;
      readyHead := thread.next;
      if readyHead == null {
        readyTail := null;
      }
      HeadApart(q);
      thread.next := null;
      if runnableCount > 0 {
        runnableCount := runnableCount - 1;
      }
      RestLinked(q, thread);
    }

    lemma HeadApart(q: seq<Thread>)
      requires q != [] && Distinct(q)
      ensures forall i :: 0 < i < |q| ==> q[i] != q[0]
    {
    }

    /** `mcsos_sched_pick_next`: the head comes off the list; an empty list gives the idle thread. */
    method PickNext(ghost q: seq<Thread>) returns (thread: Thread?)
      requires initialized ==> Linked(q)
      modifies this`readyHead, this`readyTail, this`runnableCount, q`next
      ensures !initialized ==> thread == null && unchanged(this) && unchanged(q)
      ensures initialized ==> thread == (if q == [] then idle else q[0]) && Linked(if q == [] then [] else q[1..])
    {
      if !initialized {
        return null;
      }
      if readyHead == null {
        return idle;
      }
      thread := TakeHead(q);
    }

    /** The middle part of a yield: a thread that could go on queues up. */
    method StepAside(oldThread: Thread, ghost v: Sched<Thread>) returns (rc: int)
      requires Shows(v) && oldThread in v.info && oldThread !in v.queue
      modifies this`readyHead, this`readyTail, this`runnableCount, v.info.Keys`next, v.info.Keys`state
      ensures rc == OK && Shows(if OnItsWay(v, oldThread) then Push(v, oldThread) else v)
    {
      hide Linked;
      rc := OK;
      if oldThread.state == Running && oldThread != idle {
        oldThread.state := Ready;
        ghost var w := WithStatus(v, oldThread, Ready);
        rc := Enqueue(oldThread, w);
        assert Push(w, oldThread) == Push(v, oldThread);
      }
    }

    /** The last part of a yield: the processor and the counts. */
    method HandOver(oldThread: Thread, nextThread: Thread, ghost v: Sched<Thread>)
      requires Shows(v) && oldThread in v.info && nextThread in v.info && oldThread != nextThread
      modifies this`current, this`contextSwitches, oldThread`switches, nextThread`switches, nextThread`state
      ensures Shows(Handed(v, oldThread, nextThread))
    {
      hide Linked;
      nextThread.state := Running;
      current := nextThread;
      oldThread.switches := oldThread.switches + 1;
      nextThread.switches := nextThread.switches + 1;
      contextSwitches := contextSwitches + 1;
    }

    /** `mcsos_sched_yield`, also from the moment the current thread has been marked blocked. */
    method Yield(ghost v: Sched<Thread>) returns (rc: int)
      requires initialized ==> Shows(v) && v.current in v.info && v.idle in v.info && v.current !in v.queue
      modifies this`readyHead, this`readyTail, this`runnableCount, this`current, this`contextSwitches
      modifies v.info.Keys`next, v.info.Keys`state, v.info.Keys`switches
      ensures rc == if initialized then OK else EINVAL
      ensures if initialized then Shows(YieldTo(v)) else unchanged(this) && unchanged(v.info.Keys)
    {
      if !initialized || current == null || current.magic != MAGIC {
        return EINVAL;
      }
      hide Linked, Distinct, Handed, Push;
      var oldThread := current;
      var nextThread := PickNext(v.queue);
      if nextThread == null || nextThread.magic != MAGIC {
        return ECORRUPT;
      }
      ghost var popped := if v.queue == [] then v else v.(queue := v.queue[1..]);
      assert Shows(popped);
      if nextThread == oldThread {
        oldThread.state := Running;
        return OK;
      }
      rc := StepAside(oldThread, popped);
      if rc != OK {
        return rc;
      }
      ghost var w := if OnItsWay(popped, oldThread) then Push(popped, oldThread) else popped;
      HandOver(oldThread, nextThread, w);
      rc := OK;
    }

    /** `mcsos_sched_tick`. */
    method Tick(ghost v: Sched<Thread>) returns (rc: int)
      requires initialized ==> Shows(v) && v.current in v.info
      modifies this`ticks, v.info.Keys`ticks
      ensures rc == if initialized then OK else EINVAL
      ensures if initialized then Shows(TickCurrent(v)) else unchanged(this)
    {
      hide Linked;
      if !initialized || current == null || current.magic != MAGIC {
        return EINVAL;
      }
      ticks := ticks + 1;
      current.ticks := current.ticks + 1;
      rc := OK;
    }

    /** `mcsos_thread_block_current`: the idle thread never blocks. */
    method BlockThread(ghost v: Sched<Thread>) returns (rc: int)
      requires initialized ==> Shows(v) && Inv(v)
      modifies this`readyHead, this`readyTail, this`runnableCount, this`current, this`contextSwitches
      modifies v.info.Keys`next, v.info.Keys`state, v.info.Keys`switches
      ensures rc == if !initialized then EINVAL else if v.current == v.idle then ESTATE else OK
      ensures if initialized then Shows(BlockCurrent(v)) else unchanged(this) && unchanged(v.info.Keys)
    {
      hide Linked, YieldTo;
      if !initialized || current == null || current.magic != MAGIC {
        return EINVAL;
      }
      if current == idle {
        return ESTATE;
      }
      current.state := Blocked;
      rc := Yield(WithStatus<Thread>(v, current, Blocked));
    }

    /** `mcsos_sched_ready_count`. */
    method ReadyCount(ghost q: seq<Thread>) returns (count: nat)
      requires initialized ==> Linked(q)
      ensures count == if initialized then |q| else 0
    {
      if !initialized {
        return 0;
      }
      count := 0;
      var cursor := readyHead;
      while cursor != null
        invariant count <= |q| && cursor == if count < |q| then q[count] else null
        decreases |q| - count
      {
        count := count + 1;
        cursor := cursor.next;
      }
    }

    /** The chain of `next` links from the head starts with the threads of `q`. */
    ghost predicate Walked(q: seq<Thread>, cursor: Thread?)
      reads this, q
    {
      && (forall i :: 0 <= i < |q| ==> q[i].magic == MAGIC && q[i].state == Ready && q[i] != current)
      && (forall i :: 0 <= i < |q| - 1 ==> q[i].next == q[i + 1])
      && readyHead == (if q == [] then cursor else q[0])
      && (q != [] ==> q[|q| - 1].next == cursor)
    }

    /**
     `mcsos_sched_validate`, on objects in any state. OK vouches for the list: it ends, at the tail, after as many
     threads as the count says, all of them ready and none of them current. Conversely every state the operations
     lead to is passed.
     */
    method Validate(ghost v: Sched<Thread>) returns (rc: int, ghost q: seq<Thread>)
      ensures !initialized || !IsThread(current) ==> rc == EINVAL
      ensures rc == OK ==>
                && Walked(q, null) && |q| == runnableCount
                && readyTail == if q == [] then null else q[|q| - 1]
      ensures initialized && Shows(v) && Inv(v) ==> rc == OK && q == v.queue
    {
      q := [];
      if !initialized || current == null || current.magic != MAGIC {
        return EINVAL, q;
      }
      var count: nat := 0;
      var cursor := readyHead;
      var last: Thread? := null;
      while cursor != null
        invariant count == |q| <= runnableCount + 1 && Walked(q, cursor)
        invariant last == if q == [] then null else q[|q| - 1]
        invariant Shows(v) && Inv(v) ==>
                    q <= v.queue && cursor == if count < |v.queue| then v.queue[count] else null
        decreases runnableCount + 2 - count
      {
        if cursor.magic != MAGIC || cursor.state != Ready {
          return ECORRUPT, q;
        }
        if cursor == current {
          return ECORRUPT, q;
        }
        q := q + [cursor];
        last := cursor;
        cursor := cursor.next;
        count := count + 1;
        if count > runnableCount + 1 {
          return ECORRUPT, q;
        }
      }
      if last != readyTail {
        return ECORRUPT, q;
      }
      if count != runnableCount {
        return ECORRUPT, q;
      }
      rc := OK;
    }
  }
}
