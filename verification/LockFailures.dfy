/**
 A run that fills the queue of a mutex, after which `lockMutex` does not do its job. The general
 condition is `Mutex.LockedOrQueued`.
 */
module LockFailures {
  import opened Ring
  import opened BlockedQueue
  import opened Mutex
  import opened SleepTable
  import opened KernelMachine

  /** A kernel with one mutex that has one slot, no semaphores and no sleepers. */
  function Small(ring: seq<Process>, nextPid: int, lock: Lock, claim: set<int>, lastCall: map<int, Call>): Kernel {
    Kernel(Sched(ring, nextPid), [lock], [], [], {}, 0, [claim], [], lastCall)
  }

  const FREE := Lock(0, 0, [NO_BLOCKED_QUEUE_VALUE])
  const TAKEN := Lock(1, 0, [NO_BLOCKED_QUEUE_VALUE])
  const FULL := Lock(1, 1, [2])

  function Booted(): Kernel { Small([Process(0, READY), Process(1, READY)], 2, FREE, {}, map[]) }

  /** Two more processes; the last of them takes the lock, and the one before waits for it. */
  const CROWD := [CreateStep, CreateStep, TickStep, LockStep(0), TickStep, LockStep(0)]

  lemma Chain(k: Kernel, step: KernelMachine.Step, n: Kernel, rest: seq<KernelMachine.Step>)
    requires KernelMachine.Inv(k) && KernelMachine.Allowed(k, step) && After(k, step) == n
    requires KernelMachine.Inv(n) && Legal(n, rest)
    ensures Legal(k, [step] + rest) && KernelMachine.Run(k, [step] + rest) == KernelMachine.Run(n, rest)
  {
    hide KernelMachine.Inv, KernelMachine.Allowed, After;
    assert ([step] + rest)[1..] == rest;
  }

  lemma NextIsReady(ring: seq<Process>)
    requires |ring| > 1 && ring[1].state == READY
    ensures HasReady(Ring.Step(ring))
    ensures Schedule(ring) == [Process(ring[1].pid, RUNNING)] + ring[2..] + [Demote(ring[0])]
  {
    var s := Ring.Step(ring);
    assert s[0] == ring[1] && s[0] in s;
    assert Rotate(s, 0) == s;
  }

  lemma NobodySleeps(ring: seq<Process>)
    ensures Wake(ring, Finished({})) == ring && AfterTick({}) == {}
  {
    assert Finished({}) == {};
  }

  lemma Tick(k: Kernel, n: Kernel)
    requires KernelMachine.Inv(k) && k.asleep == {} && |k.sched.ring| > 1 && k.sched.ring[1].state == READY
    requires n == WithRing(k, [Process(k.sched.ring[1].pid, RUNNING)] + k.sched.ring[2..] + [Demote(k.sched.ring[0])])
    ensures After(k, TickStep) == n && KernelMachine.Inv(n)
  {
    StepKeepsInv(k, TickStep);
    hide KernelMachine.Inv, Schedule, Wake, AfterTick, Finished, HasReady;
    NextIsReady(k.sched.ring);
    NobodySleeps(k.sched.ring);
  }

  lemma Created(k: Kernel, n: Kernel)
    requires KernelMachine.Inv(k) && k.sched.ring != []
    requires n == k.(sched := Sched([k.sched.ring[0], Process(k.sched.nextPid, READY)] + k.sched.ring[1..], k.sched.nextPid + 1))
    ensures After(k, CreateStep) == n && KernelMachine.Inv(n)
  {
    StepKeepsInv(k, CreateStep);
    hide KernelMachine.Inv;
  }

  lemma Taken(k: Kernel, n: Kernel)
    requires KernelMachine.Inv(k) && k == Small(k.sched.ring, k.sched.nextPid, FREE, {}, map[]) && k.sched.ring != []
    requires k.Cur() != INIT_PID && n == Small(k.sched.ring, k.sched.nextPid, TAKEN, {k.Cur()}, map[k.Cur() := Locked(0)])
    ensures KernelMachine.Allowed(k, LockStep(0)) && After(k, LockStep(0)) == n && KernelMachine.Inv(n)
  {
    StepKeepsInv(k, LockStep(0));
    hide KernelMachine.Inv;
    assert k.claims[0 := k.claims[0] + {k.Cur()}] == [{k.Cur()}];
  }

  const BEFORE := [Process(2, RUNNING), Process(1, READY), Process(0, READY), Process(3, READY)]
  const AFTER := [Process(1, RUNNING), Process(0, READY), Process(3, READY), Process(2, BLOCKED)]

  lemma BlockRing()
    ensures CanBlock(BEFORE) && Block(BEFORE) == AFTER
  {
    var blocked := [Process(2, BLOCKED), Process(1, READY), Process(0, READY), Process(3, READY)];
    assert IndexOf(BEFORE, 2) == 0 && SetState(BEFORE, 2, BLOCKED) == blocked;
    NextIsReady(blocked);
  }

  lemma BlockLock()
    ensures CanLock(BEFORE, TAKEN) && AfterLock(BEFORE, TAKEN) == (AFTER, FULL)
  {
    BlockRing();
    hide Block, CanBlock;
    assert FirstFree(TAKEN.queue) == 0;
    assert Add(TAKEN.queue, 2) == [2];
  }

  lemma Blocks(k: Kernel, n: Kernel)
    requires KernelMachine.Inv(k) && k == Small(BEFORE, 4, TAKEN, {3}, map[3 := Locked(0)])
    requires n == Small(AFTER, 4, FULL, {2, 3}, map[3 := Locked(0), 2 := Locked(0)])
    ensures KernelMachine.Allowed(k, LockStep(0)) && After(k, LockStep(0)) == n && KernelMachine.Inv(n)
  {
    hide KernelMachine.Inv, AfterLock, CanLock;
    assert Waiters(TAKEN.queue) == {};
    assert KernelMachine.Allowed(k, LockStep(0));
    StepKeepsInv(k, LockStep(0));
    BlockLock();
    assert {3} + {2} == {2, 3};
    assert [{3}][0 := {3} + {2}] == [{2, 3}] && [TAKEN][0 := FULL] == [FULL];
    assert map[3 := Locked(0)][2 := Locked(0)] == map[3 := Locked(0), 2 := Locked(0)];
  }

  lemma Boots()
    ensures KernelMachine.Initial(Booted()) && KernelMachine.Inv(Booted())
  {
    BootInv();
    InitialInv(Booted());
  }

  /** From the booted kernel, by legal steps, the queue fills up. */
  lemma QueueFills()
    ensures KernelMachine.Initial(Booted()) && KernelMachine.Inv(Booted())
    ensures Legal(Booted(), CROWD)
    ensures KernelMachine.Run(Booted(), CROWD) == Small(AFTER, 4, FULL, {2, 3}, map[3 := Locked(0), 2 := Locked(0)])
  {
    hide KernelMachine.Inv, KernelMachine.Initial, KernelMachine.Allowed, After;
    Boots();
    var (a, b, c, d) := (Process(0, READY), Process(1, READY), Process(2, READY), Process(3, READY));
    var locked := map[3 := Locked(0)];
    var k1 := Small([a, c, b], 3, FREE, {}, map[]);
    var k2 := Small([a, d, c, b], 4, FREE, {}, map[]);
    var k3 := Small([Process(3, RUNNING), c, b, a], 4, FREE, {}, map[]);
    var k4 := Small([Process(3, RUNNING), c, b, a], 4, TAKEN, {3}, locked);
    var k5 := Small(BEFORE, 4, TAKEN, {3}, locked);
    var k6 := Small(AFTER, 4, FULL, {2, 3}, map[3 := Locked(0), 2 := Locked(0)]);
    Created(Booted(), k1);
    Created(k1, k2);
    Tick(k2, k3);
    Taken(k3, k4);
    Tick(k4, k5);
    Blocks(k5, k6);
    CanStep(Booted());
    CanStep(k1);
    CanStep(k2);
    CanStep(k4);
    Chain(k5, LockStep(0), k6, []);
    Chain(k4, TickStep, k5, CROWD[5..]);
    Chain(k3, LockStep(0), k4, CROWD[4..]);
    Chain(k2, TickStep, k3, CROWD[3..]);
    Chain(k1, CreateStep, k2, CROWD[2..]);
    Chain(Booted(), CreateStep, k1, CROWD[1..]);
  }

  lemma CanStep(k: Kernel)
    requires KernelMachine.Inv(k)
    ensures k.sched.ring != [] && KernelMachine.Allowed(k, CreateStep) && KernelMachine.Allowed(k, TickStep)
  {
  }

  /** Then the third process that wants the lock gets neither it nor a slot, whatever the uninitialised
      variable holds, and goes on as if it had the lock unless the variable holds its own pid. */
  lemma ThirdGetsNothing(junk: int)
    ensures AFTER[0] == Process(1, RUNNING) && Returns(AFTER, FULL, junk)
    ensures var (r, n) := AfterAnyLock(AFTER, FULL, junk);
            n == FULL && 1 !in Waiters(FULL.queue) && (1 in InState(r, BLOCKED) <==> junk == 1)
  {
    var ring := SetState(AFTER, junk, BLOCKED);
    var s := Ring.Step(ring);
    if junk == 0 {
      assert ring == [Process(1, RUNNING), Process(0, BLOCKED), Process(3, READY), Process(2, BLOCKED)];
      assert s[1] == Process(3, READY);
    } else {
      assert ring[1] == Process(0, READY) && s[0] == Process(0, READY);
    }
    FullQueueFails(AFTER, FULL, junk);
  }
}
