/**
 Fairness of the scheduler over runs of the whole kernel: not only ticks dispatch, but also every call
 that blocks its caller.
 */
module KernelFairness {
  import opened Ring
  import opened BlockedQueue
  import opened Mutex
  import opened Semaphore
  import opened SleepTable
  import opened KernelMachine

  /** The step ends with a dispatch. */
  predicate Dispatching(k: Kernel, step: KernelMachine.Step)
    requires k.sched.ring != []
  {
    match step
    case LockStep(i) => k.IsMutex(i) && !Acquirable(k.mutexes[i])
    case WaitStep(i) => k.IsSem(i) && k.sems[i].semaphore <= 0
    case SleepStep(_) => true
    case TickStep => true
    case YieldStep => true
    case KillStep(p) => p == k.Cur()
    case _ => false
  }

  function StepSlack(k: Kernel, step: KernelMachine.Step): int
    requires k.sched.ring != []
  {
    if step.CreateStep? then 1 else if Dispatching(k, step) then -1 else 0
  }

  /** `pid` runs, or waits READY at a distance of at most `d`. */
  ghost predicate Closer(s: Sched, pid: int, d: int) {
    IsRunning(s, pid) || exists d' :: WaitsAt(s, pid, d') && d' <= d
  }

  lemma Waits(s: Sched, pid: int, d: int)
    requires WaitsAt(s, pid, d)
    ensures Closer(s, pid, d)
  {
  }

  lemma OtherChanges(s: Sched, p: int, state: State, pid: int, d: int)
    requires WaitsAt(s, pid, d) && p != pid
    ensures WaitsAt(s.(ring := SetState(s.ring, p, state)), pid, d)
  {
  }

  lemma OthersWake(s: Sched, pids: set<int>, pid: int, d: int)
    requires WaitsAt(s, pid, d)
    ensures WaitsAt(s.(ring := Wake(s.ring, pids)), pid, d)
  {
  }

  lemma NotTheCurrent(s: Sched, pid: int, d: int)
    requires Ring.Inv(s) && WaitsAt(s, pid, d)
    ensures s.ring[0].pid != pid
  {
  }

  /** The current process blocks or goes to sleep. */
  lemma SuspendCloser(s: Sched, state: State, pid: int, d: int)
    requires Ring.Inv(s) && s.ring[0].pid != INIT_PID && (state == BLOCKED || state == SLEEPING) && WaitsAt(s, pid, d)
    ensures var r := SetState(s.ring, s.ring[0].pid, state);
            r != [] && HasReady(Ring.Step(r)) && Closer(s.(ring := Schedule(r)), pid, d - 1)
  {
    hide Ring.Inv, HasReady, Schedule, SetState, Ring.Step;
    NotEmpty(s);
    NotTheCurrent(s, pid, d);
    ChangeInv(s, s.ring[0].pid, state);
    OtherChanges(s, s.ring[0].pid, state, pid, d);
    DispatchCloser(s.(ring := SetState(s.ring, s.ring[0].pid, state)), pid, d);
  }

  lemma NotEmpty(s: Sched)
    requires Ring.Inv(s)
    ensures s.ring != []
  {
  }

  lemma KillCloser(s: Sched, p: int, pid: int, d: int)
    requires Ring.Inv(s) && CanRemove(s.ring, p) && p != pid && p != INIT_PID && WaitsAt(s, pid, d)
    ensures Closer(s.(ring := Remove(s.ring, p)), pid, if p == s.ring[0].pid then d - 1 else d)
  {
    if p == s.ring[0].pid {
      DispatchTerminates(s);
      assert s.ring[1..][d - 1] == s.ring[d];
      ResumeCloser(s.ring[1..], pid, d - 1);
      var t := s.(ring := Remove(s.ring, p));
      hide Resume, HasReady;
      if !IsRunning(t, pid) {
        var d' :| 1 <= d' <= d - 1 && d' < |t.ring| && t.ring[d'] == Process(pid, READY);
        assert WaitsAt(t, pid, d');
      }
    } else {
      RemoveCloser(s, p, pid, d);
    }
  }

  /** Every step of the kernel brings a waiting process nearer as it should. */
  lemma StepCloser(k: Kernel, step: KernelMachine.Step, pid: int, d: int)
    requires KernelMachine.Inv(k) && KernelMachine.Allowed(k, step) && k.sched.ring != []
    requires WaitsAt(k.sched, pid, d) && step != KillStep(pid)
    ensures Closer(After(k, step).sched, pid, d + StepSlack(k, step))
  {
    hide KernelMachine.Inv, Ring.Inv, HasReady, Schedule, SetState, Ring.Step, Waiters, WaitsAt, Closer, Wake, Finished, InState, Pids;
    Sleepers(k);
    Scheduled(k);
    Waits(k.sched, pid, d);
    NotTheCurrent(k.sched, pid, d);
    match step
    case LockStep(i) =>
      if k.IsMutex(i) && !Acquirable(k.mutexes[i]) { SuspendCloser(k.sched, BLOCKED, pid, d); }
    case FreeStep(i) =>
      if k.IsMutex(i) && k.mutexes[i].cardinalBlocked > 0 {
        FreeLockHasNoWaiters(k, i);
        OthersBlocked(k, Locked(i), pid, d);
        OtherChanges(k.sched, Next(k.mutexes[i].queue), READY, pid, d);
        Waits(After(k, step).sched, pid, d);
      }
    case WaitStep(i) =>
      if k.IsSem(i) && k.sems[i].semaphore <= 0 { SuspendCloser(k.sched, BLOCKED, pid, d); }
    case SignalStep(i) =>
      if k.IsSem(i) && k.sems[i].cardinalBlocked > 0 {
        SemReady(k, i);
        OthersBlocked(k, Waited(i), pid, d);
        OtherChanges(k.sched, Next(k.sems[i].queue), READY, pid, d);
        Waits(After(k, step).sched, pid, d);
      }
    case SleepStep(time) => SuspendCloser(k.sched, SLEEPING, pid, d);
    case TickStep =>
      TickedKeepsInv(k);
      Scheduled(Ticked(k));
      OthersWake(k.sched, Finished(k.asleep), pid, d);
      DispatchClose(Ticked(k).sched, pid, d);
    case YieldStep => DispatchClose(k.sched, pid, d);
    case CreateStep => CreateCloser(k.sched, pid, d);
    case KillStep(p) => DispatchTerminates(k.sched); KillCloser(k.sched, p, pid, d);
  }

  lemma Scheduled(k: Kernel)
    requires KernelMachine.Inv(k)
    ensures Ring.Inv(k.sched) && k.sched.ring != []
  {
  }

  lemma DispatchClose(s: Sched, pid: int, d: int)
    requires Ring.Inv(s) && WaitsAt(s, pid, d)
    ensures HasReady(Ring.Step(s.ring)) && Closer(s.(ring := Schedule(s.ring)), pid, d - 1)
  {
    DispatchCloser(s, pid, d);
  }

  lemma CreateCloser(s: Sched, pid: int, d: int)
    requires Ring.Inv(s) && WaitsAt(s, pid, d)
    ensures Closer(Create(s), pid, d + 1)
  {
    assert WaitsAt(Create(s), pid, d + 1);
  }

  /** Whom a call wakes was blocked, so it is not the one that waits READY. */
  lemma OthersBlocked(k: Kernel, obj: Call, pid: int, d: int)
    requires KernelMachine.Inv(k) && WaitsAt(k.sched, pid, d)
    ensures pid !in WaitersOf(k, obj)
    ensures obj.Locked? && k.IsMutex(obj.m) && HasWaiter(k.mutexes[obj.m].queue) ==> Next(k.mutexes[obj.m].queue) != pid
    ensures obj.Waited? && k.IsSem(obj.s) && HasWaiter(k.sems[obj.s].queue) ==> Next(k.sems[obj.s].queue) != pid
  {
    Scheduled(k);
    WaitersAreBlocked(k, obj);
    OneState(k.sched.ring, k.sched.ring[d], BLOCKED);
  }

  // ----- whole runs -----

  ghost function DispatchCount(k: Kernel, steps: seq<KernelMachine.Step>): nat
    requires KernelMachine.Inv(k) && Legal(k, steps)
    decreases steps
  {
    if steps == [] then 0
    else
      StepKeepsInv(k, steps[0]);
      Scheduled(k);
      (if Dispatching(k, steps[0]) then 1 else 0) + DispatchCount(After(k, steps[0]), steps[1..])
  }

  function CreationCount(steps: seq<KernelMachine.Step>): nat {
    if steps == [] then 0 else (if steps[0].CreateStep? then 1 else 0) + CreationCount(steps[1..])
  }

  lemma RunOn(k: Kernel, steps: seq<KernelMachine.Step>, n: nat)
    requires KernelMachine.Inv(k) && steps != [] && n <= |steps| - 1
    requires KernelMachine.Allowed(k, steps[0]) && KernelMachine.Inv(After(k, steps[0])) && Legal(After(k, steps[0]), steps[1..][..n])
    ensures Legal(k, steps[..n + 1])
    ensures KernelMachine.Run(k, steps[..n + 1]) == KernelMachine.Run(After(k, steps[0]), steps[1..][..n])
  {
    hide KernelMachine.Inv, KernelMachine.Allowed, After;
    assert steps[..n + 1][0] == steps[0] && steps[..n + 1][1..] == steps[1..][..n];
  }

  /** No starvation: in every run of the kernel, a process that waits READY at ring distance d and is not
      killed is running after at most d + c dispatches, by whatever calls or ticks they come about, where
      c counts the processes created meanwhile. */
  lemma {:induction false} Fairness(k: Kernel, steps: seq<KernelMachine.Step>, pid: int, d: nat)
    requires KernelMachine.Inv(k) && Legal(k, steps) && WaitsAt(k.sched, pid, d)
    requires forall i :: 0 <= i < |steps| ==> steps[i] != KillStep(pid)
    requires DispatchCount(k, steps) >= d + CreationCount(steps)
    ensures exists n :: 0 <= n <= |steps| && Legal(k, steps[..n]) && IsRunning(KernelMachine.Run(k, steps[..n]).sched, pid)
    decreases steps
  {
    hide KernelMachine.Inv, KernelMachine.Allowed, After;
    assert steps != [];
    Scheduled(k);
    StepKeepsInv(k, steps[0]);
    StepCloser(k, steps[0], pid, d);
    var next := After(k, steps[0]);
    if IsRunning(next.sched, pid) {
      assert steps[1..][..0] == [];
      RunOn(k, steps, 0);
    } else {
      var d' :| WaitsAt(next.sched, pid, d') && d' <= d + StepSlack(k, steps[0]);
      Fairness(next, steps[1..], pid, d');
      var n :| 0 <= n <= |steps[1..]| && Legal(next, steps[1..][..n]) && IsRunning(KernelMachine.Run(next, steps[1..][..n]).sched, pid);
      RunOn(k, steps, n);
    }
  }
}
