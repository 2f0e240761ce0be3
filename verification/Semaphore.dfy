/**
 The counting semaphores of Kernel/semaphores.c. The value goes negative by one for every
 blocked process; `signal` hands its unit to a waiter instead of letting it retry.
 */
module Semaphore {
  import opened Ring
  import opened BlockedQueue
  import opened Mutex
  import Scheduler

  datatype Sem = Sem(semaphore: int, cardinalBlocked: int, queue: seq<int>)

  /** A process that finds no free slot is blocked without being queued. */
  function Enqueue(sem: Sem, pid: int): Sem {
    if HasRoom(sem.queue)
    then sem.(queue := Add(sem.queue, pid), cardinalBlocked := sem.cardinalBlocked + 1)
    else sem
  }

  predicate CanWait(ring: seq<Process>, sem: Sem) {
    sem.semaphore <= 0 ==> CanBlock(ring)
  }

  function AfterWait(ring: seq<Process>, sem: Sem): (seq<Process>, Sem)
    requires CanWait(ring, sem)
  {
    var lowered := sem.(semaphore := sem.semaphore - 1);
    if lowered.semaphore >= 0 then (ring, lowered)
    else (Block(ring), Enqueue(lowered, ring[0].pid))
  }

  predicate CanSignal(sem: Sem) {
    sem.cardinalBlocked > 0 ==> HasWaiter(sem.queue)
  }

  function AfterSignal(ring: seq<Process>, sem: Sem): (seq<Process>, Sem)
    requires CanSignal(sem)
  {
    var raised := sem.(semaphore := sem.semaphore + 1);
    if sem.cardinalBlocked > 0 then
      (SetState(ring, Next(sem.queue), READY),
       raised.(queue := Drop(sem.queue), cardinalBlocked := sem.cardinalBlocked - 1))
    else (ring, raised)
  }

  /** A `wait` that cannot pass blocks the caller; it is in a slot, and can be woken again, exactly if one
      was free. */
  lemma BlockedAndQueued(ring: seq<Process>, sem: Sem)
    requires CanWait(ring, sem) && sem.semaphore <= 0
    requires ring != [] && Distinct(ring) && ring[0].pid >= 0
    requires NoDuplicates(sem.queue) && ring[0].pid !in Waiters(sem.queue)
    ensures var (r, n) := AfterWait(ring, sem);
            && ring[0].pid in InState(r, BLOCKED)
            && (ring[0].pid in Waiters(n.queue) <==> HasRoom(sem.queue))
            && (!HasRoom(sem.queue) ==> n.queue == sem.queue && n.cardinalBlocked == sem.cardinalBlocked)
  {
    hide Pids, InState, HasReady, Resume, Step, SetState, Distinct, Waiters, NoDuplicates;
    InPids(ring);
    StaysBlocked(ring, ring[0].pid);
    if HasRoom(sem.queue) { AddWaiters(sem.queue, ring[0].pid); }
  }

  class Semaphore {
    var used: bool
    var queue: array<int>
    var semaphore: int
    var cardinalBlocked: int
    /** Taken and released inside `wait` only. */
    var mutex: Mutex

    ghost function State(): Sem
      reads this, queue
    {
      Sem(semaphore, cardinalBlocked, queue[..])
    }

    /** `createSemaphore` on a clean slot. */
    constructor (maxBlockedQueueSize: nat, start: int, mutex: Mutex)
      ensures used && fresh(queue) && queue.Length == maxBlockedQueueSize && this.mutex == mutex
      ensures semaphore == start && cardinalBlocked == 0 && Waiters(queue[..]) == {}
    {
      used := true;
      semaphore := start;
      cardinalBlocked := 0;
      this.mutex := mutex;
      queue := new int[maxBlockedQueueSize](_ => NO_BLOCKED_QUEUE_VALUE);
    }

    method AddToSemBlocked(pid: int)
      modifies this`cardinalBlocked, queue
      ensures State() == Enqueue(old(State()), pid)
      ensures forall k :: IsLowestFree(old(queue[..]), k) ==>
                            queue[..] == old(queue[..])[k := pid] && cardinalBlocked == old(cardinalBlocked) + 1
      ensures NO_BLOCKED_QUEUE_VALUE !in old(queue[..]) ==> State() == old(State())
    {
      var index := GetFreeSpotInBlockedQueue(queue, queue.Length);
      if index == NO_SPACE_LEFT {
        return;
      }
      queue[index] := pid;
      cardinalBlocked := cardinalBlocked + 1;
    }

    /** The caller is queued, if there is a slot, and blocked. */
    method BlockCaller(s: Scheduler.Scheduler)
      requires s.Valid() && s.procs != []
      modifies this`cardinalBlocked, queue, s`procs, s.repr
      ensures s.Valid() && s.slots == old(s.slots)
      ensures s.procs == SetState(old(s.procs), old(s.procs)[0].pid, BLOCKED)
      ensures State() == Enqueue(old(State()), old(s.procs)[0].pid)
    {
      hide Scheduler.Scheduler.Valid, Enqueue;
      var pid := s.GetCurrentPid();
      AddToSemBlocked(pid);
      s.ChangeProcessState(pid, BLOCKED);
    }

    /** The inner mutex is free when a call starts, and free again when it dispatches or returns; so
        whatever `junk` is in the call of `LockMutex` does not matter. */
    method Wait(s: Scheduler.Scheduler, junk: int)
      requires queue != mutex.queue
      requires s.Valid() && (mutex.used ==> Acquirable(mutex.State()))
      requires used ==> CanWait(s.procs, State())
      modifies this`semaphore, this`cardinalBlocked, queue
      modifies mutex`mutex, mutex`cardinalBlocked, mutex.queue
      modifies s`current, s`slots, s`procs, s.repr
      ensures s.Valid() && mutex.State() == old(mutex.State())
      ensures (s.procs, State()) == if old(used) then AfterWait(old(s.procs), old(State())) else old((s.procs, State()))
    {
      hide Scheduler.Scheduler.Valid, HasRoom, HasReady, Step;
      if !used {
        return;
      }
      mutex.LockMutex(s, junk);
      semaphore := semaphore - 1;
      if semaphore >= 0 {
        mutex.FreeMutex(s);
      } else {
        BlockCaller(s);
        mutex.FreeMutex(s);
        s.Schedule();
      }
    }

    method Signal(s: Scheduler.Scheduler)
      requires s.Valid() && (used ==> CanSignal(State()))
      modifies this`semaphore, this`cardinalBlocked, queue, s`procs, s.repr
      ensures s.Valid() && s.slots == old(s.slots)
      ensures (s.procs, State()) == if old(used) then AfterSignal(old(s.procs), old(State())) else old((s.procs, State()))
    {
      if !used {
        return;
      }
      if cardinalBlocked > 0 {
        UnblockFirst(s, queue);
        cardinalBlocked := cardinalBlocked - 1;
      }
      semaphore := semaphore + 1;
    }
  }
}
