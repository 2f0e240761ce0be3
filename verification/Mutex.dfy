/**
 The hand-off lock of Kernel/mutex.c. A system call runs with interrupts off, so each method
 below is one atomic step, up to and including the dispatch of another process.
 */
module Mutex {
  import opened Ring
  import opened BlockedQueue
  import Scheduler

  /** The fields that locking reads and writes. */
  datatype Lock = Lock(mutex: int, cardinalBlocked: int, queue: seq<int>)

  /** `_testAndSet` compares eight bytes: the lock word and the count that follows it. */
  predicate Acquirable(m: Lock) {
    m.mutex == 0 && m.cardinalBlocked == 0
  }

  function Acquired(m: Lock): Lock {
    m.(mutex := 1, cardinalBlocked := 0)
  }

  /** The current process can block: another one is READY to take over. */
  predicate CanBlock(ring: seq<Process>) {
    ring != [] && HasReady(Step(SetState(ring, ring[0].pid, BLOCKED)))
  }

  /** The current process blocks in a kernel queue and another one is dispatched. */
  function Block(ring: seq<Process>): seq<Process>
    requires CanBlock(ring)
  {
    Schedule(SetState(ring, ring[0].pid, BLOCKED))
  }

  /** The queue has a slot for the caller, if it cannot have the lock. */
  predicate CanLock(ring: seq<Process>, m: Lock) {
    Acquirable(m) || (m.cardinalBlocked < |m.queue| && HasRoom(m.queue) && CanBlock(ring))
  }

  function AfterLock(ring: seq<Process>, m: Lock): (seq<Process>, Lock)
    requires CanLock(ring, m)
  {
    if Acquirable(m) then (ring, Acquired(m))
    else (Block(ring), m.(queue := Add(m.queue, ring[0].pid), cardinalBlocked := m.cardinalBlocked + 1))
  }

  /** Whom a call that does not get the lock blocks: with a full queue, whatever the uninitialised
      variable `pid` of `lockMutex` holds, here `junk`. */
  function Victim(ring: seq<Process>, m: Lock, junk: int): int
    requires ring != []
  {
    if m.cardinalBlocked >= |m.queue| then junk else ring[0].pid
  }

  /** The dispatch that follows finds a READY process. */
  predicate Returns(ring: seq<Process>, m: Lock, junk: int) {
    Acquirable(m) || (ring != [] && HasReady(Step(SetState(ring, Victim(ring, m, junk), BLOCKED))))
  }

  /** Every case of the call. */
  function AfterAnyLock(ring: seq<Process>, m: Lock, junk: int): (seq<Process>, Lock)
    requires Returns(ring, m, junk)
  {
    if Acquirable(m) then (ring, Acquired(m))
    else
      (Schedule(SetState(ring, Victim(ring, m, junk), BLOCKED)),
       if m.cardinalBlocked < |m.queue| && HasRoom(m.queue)
       then m.(queue := Add(m.queue, ring[0].pid), cardinalBlocked := m.cardinalBlocked + 1)
       else m)
  }

  /** With room in the queue the uninitialised variable plays no part. */
  lemma AnyLockIsLock(ring: seq<Process>, m: Lock, junk: int)
    requires CanLock(ring, m)
    ensures Returns(ring, m, junk) && AfterAnyLock(ring, m, junk) == AfterLock(ring, m)
  {
  }

  /** With a full queue the caller is not blocked and goes on without the lock, unless the variable
      happens to hold its own pid; then it is blocked for good, as no slot names it. */
  lemma FullQueueFails(ring: seq<Process>, m: Lock, junk: int)
    requires Returns(ring, m, junk) && !Acquirable(m) && m.cardinalBlocked >= |m.queue|
    requires Distinct(ring) && ring[0].state == RUNNING
    ensures AfterAnyLock(ring, m, junk).1 == m
    ensures ring[0].pid in InState(AfterAnyLock(ring, m, junk).0, BLOCKED) <==> junk == ring[0].pid
  {
    hide Pids, InState, HasReady, Resume, Step, SetState, Distinct;
    var p := ring[0];
    assert p in ring;
    OneState(ring, p, BLOCKED);
    InPids(ring);
    var r := SetState(ring, junk, BLOCKED);
    SetStateSets(ring, junk, BLOCKED);
    StepSets(r);
    ResumeSets(Step(r));
  }

  /** Blocking a process leaves it blocked through the dispatch. */
  lemma StaysBlocked(ring: seq<Process>, pid: int)
    requires Distinct(ring) && pid in Pids(ring) && ring != [] && HasReady(Step(SetState(ring, pid, BLOCKED)))
    ensures pid in InState(Schedule(SetState(ring, pid, BLOCKED)), BLOCKED)
  {
    hide Pids, InState, HasReady, Resume, Step, SetState, Distinct;
    var r := SetState(ring, pid, BLOCKED);
    SetStateSets(ring, pid, BLOCKED);
    StepSets(r);
    ResumeSets(Step(r));
  }

  /** `lockMutex` does its job exactly if the lock is free or its queue has room: the caller has the lock,
      or sits in a slot and is blocked until `freeMutex` hands the lock to it. */
  lemma LockedOrQueued(ring: seq<Process>, m: Lock, junk: int)
    requires Returns(ring, m, junk) && ring != [] && Distinct(ring) && ring[0].state == RUNNING && ring[0].pid >= 0
    requires NoDuplicates(m.queue) && m.cardinalBlocked == |Waiters(m.queue)| && ring[0].pid !in Waiters(m.queue)
    ensures var (r, n) := AfterAnyLock(ring, m, junk);
            Acquirable(m) || m.cardinalBlocked < |m.queue| <==>
            (Acquirable(m) && n == Acquired(m) && r == ring)
            || (ring[0].pid in Waiters(n.queue) && ring[0].pid in InState(r, BLOCKED))
  {
    hide Pids, InState, HasReady, Resume, Step, SetState, Distinct, Waiters, NoDuplicates;
    CountWaiters(m.queue);
    InPids(ring);
    if !Acquirable(m) && m.cardinalBlocked < |m.queue| {
      AddWaiters(m.queue, ring[0].pid);
      StaysBlocked(ring, ring[0].pid);
    }
  }

  lemma InPids(ring: seq<Process>)
    requires ring != []
    ensures ring[0].pid in Pids(ring)
  {
    assert ring[0] in ring;
  }

  predicate CanFree(m: Lock) {
    m.cardinalBlocked > 0 ==> HasWaiter(m.queue)
  }

  /** With waiters the lock stays taken and the lowest one is woken: it now owns the lock. */
  function AfterFree(ring: seq<Process>, m: Lock): (seq<Process>, Lock)
    requires CanFree(m)
  {
    if m.cardinalBlocked > 0 then
      (SetState(ring, Next(m.queue), READY),
       m.(queue := Drop(m.queue), cardinalBlocked := m.cardinalBlocked - 1))
    else (ring, m.(mutex := 0))
  }

  /** Wakes the process in the lowest occupied slot and frees the slot. */
  method UnblockFirst(s: Scheduler.Scheduler, queue: array<int>)
    requires s.Valid() && HasWaiter(queue[..])
    modifies queue, s`procs, s.repr
    ensures s.Valid() && s.slots == old(s.slots)
    ensures s.procs == SetState(old(s.procs), Next(old(queue[..])), READY)
    ensures queue[..] == Drop(old(queue[..]))
    ensures forall k :: IsLowestWaiter(old(queue[..]), k) ==>
                          queue[..] == old(queue[..])[k := NO_BLOCKED_QUEUE_VALUE]
                          && s.procs == SetState(old(s.procs), old(queue[k]), READY)
  {
    var i := 0;
    while i < queue.Length
      invariant 0 <= i <= FirstWaiter(queue[..])
      invariant s.Valid() && s.procs == old(s.procs) && s.slots == old(s.slots)
      invariant queue[..] == old(queue[..])
    {
      if queue[i] != NO_BLOCKED_QUEUE_VALUE {
        assert i == FirstWaiter(queue[..]);
        s.ChangeProcessState(queue[i], READY);
        queue[i] := NO_BLOCKED_QUEUE_VALUE;
        return;
      }
      i := i + 1;
    }
  }

  class Mutex {
    var used: bool
    var queue: array<int>
    var mutex: int
    var cardinalBlocked: int

    ghost function State(): Lock
      reads this, queue
    {
      Lock(mutex, cardinalBlocked, queue[..])
    }

    /** `cleanMutex`: unused, unlocked, every slot free. */
    constructor (maxBlockedQueueSize: nat)
      ensures !used && fresh(queue) && queue.Length == maxBlockedQueueSize
      ensures mutex == 0 && cardinalBlocked == 0 && Waiters(queue[..]) == {}
    {
      used := false;
      mutex := 0;
      cardinalBlocked := 0;
      queue := new int[maxBlockedQueueSize];
      new;
      var i := 0;
      while i < maxBlockedQueueSize
        invariant 0 <= i <= maxBlockedQueueSize
        invariant forall j :: 0 <= j < i ==> queue[j] == NO_BLOCKED_QUEUE_VALUE
        invariant fresh(queue) && queue.Length == maxBlockedQueueSize
        invariant !used && mutex == 0 && cardinalBlocked == 0
        modifies queue
      {
        queue[i] := NO_BLOCKED_QUEUE_VALUE;
        i := i + 1;
      }
    }

    method TestAndSet() returns (acquired: bool)
      modifies this`mutex, this`cardinalBlocked
      ensures acquired == Acquirable(old(State()))
      ensures State() == if acquired then Acquired(old(State())) else old(State())
    {
      acquired := mutex == 0 && cardinalBlocked == 0;
      if acquired {
        mutex, cardinalBlocked := 1, 0;
      }
    }

    method AddToBlocked(pid: int)
      modifies this`cardinalBlocked, queue
      ensures State() == if HasRoom(old(queue[..]))
                         then Lock(mutex, old(cardinalBlocked) + 1, Add(old(queue[..]), pid))
                         else old(State())
      ensures forall k :: IsLowestFree(old(queue[..]), k) ==>
                            queue[..] == old(queue[..])[k := pid] && cardinalBlocked == old(cardinalBlocked) + 1
      ensures NO_BLOCKED_QUEUE_VALUE !in old(queue[..]) ==> State() == old(State())
    {
      var index := GetFreeSpotInBlockedQueue(queue, queue.Length);
      if index == NO_SPACE_LEFT {
        return;
      }
      queue[index] := pid;
      cardinalBlocked := cardinalBlocked + 1;
    }

    /** `junk` is what the uninitialised variable `pid` holds when the call starts. */
    method LockMutex(s: Scheduler.Scheduler, junk: int)
      requires s.Valid() && (used ==> Returns(s.procs, State(), junk))
      modifies this`mutex, this`cardinalBlocked, queue
      modifies s`current, s`slots, s`procs, s.repr
      ensures s.Valid()
      ensures (s.procs, State()) == if old(used) then AfterAnyLock(old(s.procs), old(State()), junk) else old((s.procs, State()))
    {
      hide Scheduler.Scheduler.Valid, HasRoom, HasReady, Step;
      if !used {
        return;
      }
      var acquired := TestAndSet();
      if !acquired {
        var pid := junk;
        if cardinalBlocked < queue.Length {
          pid := s.GetCurrentPid();
          AddToBlocked(pid);
        }
        s.ChangeProcessState(pid, BLOCKED);
        s.Schedule();
      }
    }

    method FreeMutex(s: Scheduler.Scheduler)
      requires s.Valid() && (used ==> CanFree(State()))
      modifies this`mutex, this`cardinalBlocked, queue, s`procs, s.repr
      ensures s.Valid() && s.slots == old(s.slots)
      ensures (s.procs, State()) == if old(used) then AfterFree(old(s.procs), old(State())) else old((s.procs, State()))
    {
      if !used {
        return;
      }
      if cardinalBlocked > 0 {
        UnblockFirst(s, queue);
        cardinalBlocked := cardinalBlocked - 1;
      } else {
        mutex := 0;
      }
    }
  }
}
