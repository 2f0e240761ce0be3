/**
 The blocking part of the kernel as one state machine: ring, mutexes, semaphores and sleepers,
 moved by the calls of the current process and by timer ticks.

 Interrupts are off during a call, so each call is one step, dispatch included. The steps are
 built from the functions that specify the classes Scheduler, Mutex, Semaphore and SleepTable.
 */
module KernelMachine {
  import opened Ring
  import opened Sequences
  import opened BlockedQueue
  import opened Mutex
  import opened Semaphore
  import opened SleepTable

  /** History: the last kernel call of a process. */
  datatype Call = Locked(m: int) | Waited(s: int) | Other

  /** History: how often a semaphore was signalled and waited for. */
  datatype Tally = Tally(start: int, signals: nat, waits: nat)

  datatype Kernel = Kernel(
    sched: Sched,
    mutexes: seq<Lock>,
    sems: seq<Sem>,
    inner: seq<int>,           // the mutex of each semaphore
    asleep: set<Sleeper>,
    maxListeners: nat,
    claims: seq<set<int>>,     // history: who called lock on a mutex and has not called free since
    tally: seq<Tally>,
    lastCall: map<int, Call>)
  {
    function Cur(): int
      requires sched.ring != []
    {
      sched.ring[0].pid
    }

    function Blocked(): set<int> {
      InState(sched.ring, BLOCKED)
    }

    function Sleeping(): set<int> {
      InState(sched.ring, SLEEPING)
    }

    function Processes(): set<int> {
      Pids(sched.ring)
    }

    predicate IsMutex(i: int) {
      0 <= i < |mutexes| && i < |claims|
    }

    predicate IsSem(i: int) {
      0 <= i < |sems| && i < |tally|
    }

    /** The processes whose lock call has returned, or can return as soon as they are dispatched. */
    ghost function Holders(i: int): set<int>
      requires IsMutex(i)
    {
      set p | p in claims[i] && !(p in Blocked() && p in lastCall && lastCall[p] == Locked(i))
    }

    /** The processes whose wait call is still pending. */
    ghost function Pending(i: int): set<int> {
      set p | p in Blocked() && p in lastCall && lastCall[p] == Waited(i)
    }
  }

  // ----- the invariant -----

  /** A lock, who claims it, the blocked processes, the listed processes and the last calls. */
  ghost predicate LockOkOn(m: Lock, claim: set<int>, blocked: set<int>, procs: set<int>, lastCall: map<int, Call>, i: int) {
    var w := Waiters(m.queue);
    && NoDuplicates(m.queue) && m.cardinalBlocked == |w|
    && w <= blocked && w <= claim <= procs
    && (forall p :: p in w ==> p in lastCall && lastCall[p] == Locked(i))
    && (if m.mutex == 0 then claim == {} else m.mutex == 1 && exists h :: claim - w == {h})
  }

  ghost predicate SemOkOn(s: Sem, t: Tally, blocked: set<int>, lastCall: map<int, Call>, i: int) {
    var w := Waiters(s.queue);
    && NoDuplicates(s.queue) && s.cardinalBlocked == |w|
    && w <= blocked
    && (forall p :: p in w ==> p in lastCall && lastCall[p] == Waited(i))
    && s.semaphore == t.start + t.signals - t.waits
    && s.cardinalBlocked == if s.semaphore < 0 then -s.semaphore else 0
  }

  ghost predicate LockOk(k: Kernel, i: int)
    requires k.IsMutex(i)
  {
    LockOkOn(k.mutexes[i], k.claims[i], k.Blocked(), k.Processes(), k.lastCall, i)
  }

  ghost predicate SemOk(k: Kernel, i: int)
    requires k.IsSem(i)
  {
    SemOkOn(k.sems[i], k.tally[i], k.Blocked(), k.lastCall, i)
  }

  /** A blocked process sits in the queue of the object its last call named. */
  ghost predicate Queued(k: Kernel, p: int) {
    p in k.lastCall &&
    match k.lastCall[p]
    case Locked(i) => k.IsMutex(i) && p in Waiters(k.mutexes[i].queue)
    case Waited(i) => k.IsSem(i) && p in Waiters(k.sems[i].queue)
    case Other => false
  }

  ghost predicate SleepOk(k: Kernel) {
    && (forall e, f :: e in k.asleep && f in k.asleep && e.pid == f.pid ==> e == f)
    && (forall e :: e in k.asleep ==> e.pid < k.sched.nextPid)
    && PidsOf(k.asleep) * k.Processes() == k.Sleeping()
  }

  ghost predicate Shape(k: Kernel) {
    && |k.claims| == |k.mutexes| && |k.tally| == |k.sems| == |k.inner|
    && (forall i :: 0 <= i < |k.inner| ==> k.IsMutex(k.inner[i]) && k.mutexes[k.inner[i]].mutex == 0)
  }

  /** The current process is not blocked and not asleep. */
  ghost predicate SchedOk(s: Sched) {
    Ring.Inv(s) && (s.ring[0].state == RUNNING || s.ring[0].state == READY)
  }

  ghost predicate Inv(k: Kernel) {
    && SchedOk(k.sched)
    && Shape(k)
    && (forall i :: k.IsMutex(i) ==> LockOk(k, i))
    && (forall i :: k.IsSem(i) ==> SemOk(k, i))
    && (forall p :: p in k.Blocked() ==> Queued(k, p))
    && SleepOk(k)
  }

  // ----- the steps -----

  datatype Step =
    | LockStep(m: int) | FreeStep(m: int)
    | WaitStep(s: int) | SignalStep(s: int)
    | SleepStep(time: int)
    | TickStep | YieldStep
    | CreateStep | KillStep(pid: int)

  /** How processes are expected to use the calls: init makes none that blocks; a process frees
      only what it holds and does not lock it twice; semaphore mutexes are not user mutexes;
      queues and sleep table are not full; nobody who holds or waits is killed.
      Numbers are not negative; one that is too large is allowed, and such a call does nothing. */
  ghost predicate Allowed(k: Kernel, step: Step)
    requires k.sched.ring != []
  {
    var cur := k.Cur();
    match step
    case LockStep(i) =>
      cur != INIT_PID && i >= 0 && (k.IsMutex(i) ==>
        && i !in k.inner && cur !in k.claims[i]
        && (k.mutexes[i].mutex != 0 ==> |Waiters(k.mutexes[i].queue)| < |k.mutexes[i].queue|))
    case FreeStep(i) =>
      i >= 0 && (k.IsMutex(i) ==> cur in k.Holders(i))
    case WaitStep(i) =>
      cur != INIT_PID && i >= 0 && (k.IsSem(i) && k.sems[i].semaphore <= 0 ==>
        |Waiters(k.sems[i].queue)| < |k.sems[i].queue|)
    case SignalStep(i) => i >= 0
    case SleepStep(time) => cur != INIT_PID && |k.asleep| < k.maxListeners
    case TickStep => true
    case YieldStep => true
    case CreateStep => true
    case KillStep(p) =>
      p != INIT_PID && p !in k.Blocked() && forall i :: k.IsMutex(i) ==> p !in k.claims[i]
  }

  // ----- what blocking, waking and dispatching do to the sets -----

  lemma CurIsRunnable(k: Kernel)
    requires SchedOk(k.sched)
    ensures k.Cur() in k.Processes() && k.Cur() !in k.Blocked() && k.Cur() !in k.Sleeping() && k.Cur() >= 0
  {
    assert k.sched.ring[0] in k.sched.ring;
    OneState(k.sched.ring, k.sched.ring[0], BLOCKED);
    OneState(k.sched.ring, k.sched.ring[0], SLEEPING);
  }

  /** Taking the current process off the processor, into state BLOCKED or SLEEPING. */
  lemma Suspend(k: Kernel, state: State)
    requires SchedOk(k.sched) && k.Cur() != INIT_PID && (state == BLOCKED || state == SLEEPING)
    ensures var r := SetState(k.sched.ring, k.Cur(), state);
            && r != [] && HasReady(Ring.Step(r))
            && var n := k.(sched := k.sched.(ring := Schedule(r)));
            && SchedOk(n.sched) && n.Processes() == k.Processes()
            && n.Blocked() == k.Blocked() + (if state == BLOCKED then {k.Cur()} else {})
            && n.Sleeping() == k.Sleeping() + (if state == SLEEPING then {k.Cur()} else {})
  {
    hide Pids, InState, Distinct, HasReady, Schedule, Ring.Step, SetState;
    CurIsRunnable(k);
    SetStateSets(k.sched.ring, k.Cur(), state);
    ChangeInv(k.sched, k.Cur(), state);
    ScheduleInv(k.sched.(ring := SetState(k.sched.ring, k.Cur(), state)));
  }

  /** Making a blocked process READY. */
  lemma WakeUp(k: Kernel, p: int)
    requires SchedOk(k.sched) && p in k.Blocked()
    ensures var n := k.(sched := k.sched.(ring := SetState(k.sched.ring, p, READY)));
            && SchedOk(n.sched) && n.Processes() == k.Processes() && n.Cur() == k.Cur()
            && n.Blocked() == k.Blocked() - {p} && n.Sleeping() == k.Sleeping()
  {
    CurIsRunnable(k);
    SetStateSets(k.sched.ring, p, READY);
    ChangeInv(k.sched, p, READY);
    var i :| 0 <= i < |k.sched.ring| && k.sched.ring[i].pid == p && k.sched.ring[i].state == BLOCKED;
    OneState(k.sched.ring, k.sched.ring[i], SLEEPING);
  }

  // ----- every call finds what it needs -----

  /** The eight-byte comparison is harmless: a free lock has no waiters counted next to it. */
  lemma FreeLockHasNoWaiters(k: Kernel, i: int)
    requires Inv(k) && k.IsMutex(i)
    ensures k.mutexes[i].mutex == 0 <==> Acquirable(k.mutexes[i])
    ensures HasRoom(k.mutexes[i].queue) <==> |Waiters(k.mutexes[i].queue)| < |k.mutexes[i].queue|
    ensures HasWaiter(k.mutexes[i].queue) <==> k.mutexes[i].cardinalBlocked > 0
  {
    assert LockOk(k, i);
    CountWaiters(k.mutexes[i].queue);
    if k.mutexes[i].mutex == 0 {
      assert Waiters(k.mutexes[i].queue) == {};
    }
  }

  lemma LockReady(k: Kernel, i: int)
    requires Inv(k) && k.IsMutex(i) && Allowed(k, LockStep(i))
    ensures CanLock(k.sched.ring, k.mutexes[i])
  {
    FreeLockHasNoWaiters(k, i);
    Suspend(k, BLOCKED);
  }

  lemma SemReady(k: Kernel, i: int)
    requires Inv(k) && k.IsSem(i)
    ensures CanSignal(k.sems[i])
    ensures Acquirable(k.mutexes[k.inner[i]])
    ensures Allowed(k, WaitStep(i)) ==> CanWait(k.sched.ring, k.sems[i])
    ensures HasRoom(k.sems[i].queue) <==> |Waiters(k.sems[i].queue)| < |k.sems[i].queue|
  {
    assert SemOk(k, i);
    CountWaiters(k.sems[i].queue);
    FreeLockHasNoWaiters(k, k.inner[i]);
    if k.Cur() != INIT_PID {
      Suspend(k, BLOCKED);
    }
  }

  // ----- the state after each step -----

  function Called(k: Kernel, call: Call): map<int, Call>
    requires k.sched.ring != []
  {
    k.lastCall[k.Cur() := call]
  }

  function WithRing(k: Kernel, ring: seq<Process>): Kernel {
    k.(sched := k.sched.(ring := ring))
  }

  ghost function AfterLockStep(k: Kernel, i: int): Kernel
    requires Inv(k) && Allowed(k, LockStep(i))
  {
    if !k.IsMutex(i) then k.(lastCall := Called(k, Other))
    else
      LockReady(k, i);
      var (ring, m) := AfterLock(k.sched.ring, k.mutexes[i]);
      WithRing(k, ring).(mutexes := k.mutexes[i := m], claims := k.claims[i := k.claims[i] + {k.Cur()}],
                         lastCall := Called(k, Locked(i)))
  }

  ghost function AfterFreeStep(k: Kernel, i: int): Kernel
    requires Inv(k) && Allowed(k, FreeStep(i))
  {
    if !k.IsMutex(i) then k.(lastCall := Called(k, Other))
    else
      FreeLockHasNoWaiters(k, i);
      var (ring, m) := AfterFree(k.sched.ring, k.mutexes[i]);
      WithRing(k, ring).(mutexes := k.mutexes[i := m], claims := k.claims[i := k.claims[i] - {k.Cur()}],
                         lastCall := Called(k, Other))
  }

  ghost function AfterWaitStep(k: Kernel, i: int): Kernel
    requires Inv(k) && Allowed(k, WaitStep(i))
  {
    if !k.IsSem(i) then k.(lastCall := Called(k, Other))
    else
      SemReady(k, i);
      var (ring, s) := AfterWait(k.sched.ring, k.sems[i]);
      WithRing(k, ring).(sems := k.sems[i := s], tally := k.tally[i := k.tally[i].(waits := k.tally[i].waits + 1)],
                         lastCall := Called(k, Waited(i)))
  }

  ghost function AfterSignalStep(k: Kernel, i: int): Kernel
    requires Inv(k)
  {
    if !k.IsSem(i) then k.(lastCall := Called(k, Other))
    else
      SemReady(k, i);
      var (ring, s) := AfterSignal(k.sched.ring, k.sems[i]);
      WithRing(k, ring).(sems := k.sems[i := s], tally := k.tally[i := k.tally[i].(signals := k.tally[i].signals + 1)],
                         lastCall := Called(k, Other))
  }

  ghost function AfterSleepStep(k: Kernel, time: int): Kernel
    requires Inv(k) && Allowed(k, SleepStep(time))
  {
    Suspend(k, SLEEPING);
    WithRing(k, Schedule(SetState(k.sched.ring, k.Cur(), SLEEPING)))
      .(asleep := k.asleep + {Sleeper(k.Cur(), 0, time)}, lastCall := Called(k, Other))
  }

  /** What the tick handler has done to the sleepers when it starts to dispatch. */
  ghost function Ticked(k: Kernel): Kernel {
    WithRing(k, Wake(k.sched.ring, Finished(k.asleep))).(asleep := AfterTick(k.asleep))
  }

  lemma WakeSets(ring: seq<Process>, pids: set<int>)
    requires Distinct(ring)
    ensures var r := Wake(ring, pids);
            && Distinct(r) && Pids(r) == Pids(ring)
            && InState(r, BLOCKED) == InState(ring, BLOCKED) - pids
            && InState(r, SLEEPING) == InState(ring, SLEEPING) - pids
  {
    var r := Wake(ring, pids);
    forall x | x in Pids(ring) ensures x in Pids(r) {
      var i :| 0 <= i < |ring| && ring[i].pid == x;
      assert r[i] in r;
    }
    WakeState(ring, pids, BLOCKED);
    WakeState(ring, pids, SLEEPING);
  }

  lemma WakeState(ring: seq<Process>, pids: set<int>, s: State)
    requires s != READY
    ensures InState(Wake(ring, pids), s) == InState(ring, s) - pids
  {
    var r := Wake(ring, pids);
    forall x | x in InState(ring, s) && x !in pids ensures x in InState(r, s) {
      var i :| 0 <= i < |ring| && ring[i].pid == x && ring[i].state == s;
      assert r[i] in r;
    }
    forall x | x in InState(r, s) ensures x in InState(ring, s) && x !in pids {
      var i :| 0 <= i < |r| && r[i].pid == x && r[i].state == s;
      assert ring[i] in ring;
    }
  }

  // ----- every step keeps the invariant -----

  /** What is known about the objects a step does not touch. `obj` names the one it does. */
  ghost predicate Untouched(k: Kernel, n: Kernel, obj: Call) {
    && |n.mutexes| == |k.mutexes| && |n.claims| == |k.claims|
    && |n.sems| == |k.sems| && |n.tally| == |k.tally| && n.inner == k.inner
    && (forall j :: k.IsMutex(j) && obj != Locked(j) ==> n.mutexes[j] == k.mutexes[j] && n.claims[j] == k.claims[j])
    && (forall j :: k.IsSem(j) && obj != Waited(j) ==> n.sems[j] == k.sems[j] && n.tally[j] == k.tally[j])
    && (forall j :: k.IsMutex(j) ==> k.claims[j] <= n.Processes())
    && (forall p :: p in k.Blocked() && p in k.lastCall && k.lastCall[p] != obj ==>
          p in n.Blocked() && p in n.lastCall && n.lastCall[p] == k.lastCall[p])
  }

  lemma Frame(k: Kernel, n: Kernel, obj: Call)
    requires Inv(k) && Untouched(k, n, obj)
    ensures forall j :: n.IsMutex(j) && obj != Locked(j) ==> LockOk(n, j)
    ensures forall j :: n.IsSem(j) && obj != Waited(j) ==> SemOk(n, j)
    ensures forall p :: p in k.Blocked() && p in k.lastCall && k.lastCall[p] != obj ==> Queued(n, p)
  {
    forall j | n.IsMutex(j) && obj != Locked(j) ensures LockOk(n, j) {
      assert LockOk(k, j);
    }
    forall j | n.IsSem(j) && obj != Waited(j) ensures SemOk(n, j) {
      assert SemOk(k, j);
    }
    forall p | p in k.Blocked() && p in k.lastCall && k.lastCall[p] != obj ensures Queued(n, p) {
      assert Queued(k, p);
    }
  }

  lemma AwakeNotBlocked(k: Kernel, p: int)
    requires SchedOk(k.sched) && p in k.Sleeping()
    ensures p !in k.Blocked() && p != INIT_PID
  {
    var i :| 0 <= i < |k.sched.ring| && k.sched.ring[i].pid == p && k.sched.ring[i].state == SLEEPING;
    OneState(k.sched.ring, k.sched.ring[i], BLOCKED);
  }

  lemma FinishedSleep(k: Kernel)
    requires SchedOk(k.sched) && SleepOk(k)
    ensures Finished(k.asleep) * k.Processes() <= k.Sleeping()
  {
    forall p | p in Finished(k.asleep) * k.Processes() ensures p in k.Sleeping() {
      assert p in PidsOf(k.asleep);
    }
  }

  lemma TickedSched(k: Kernel)
    requires SchedOk(k.sched) && SleepOk(k)
    ensures var n := Ticked(k);
            && SchedOk(n.sched) && n.Processes() == k.Processes() && n.Cur() == k.Cur() && n.Blocked() == k.Blocked()
            && n.Sleeping() == k.Sleeping() - Finished(k.asleep)
  {
    var f := Finished(k.asleep);
    FinishedSleep(k);
    CurIsRunnable(k);
    WakeSets(k.sched.ring, f);
    forall p | p in k.Sleeping() ensures p !in k.Blocked() && p != INIT_PID { AwakeNotBlocked(k, p); }
    InBlocked(k.sched.ring);
    assert INIT_PID in f ==> INIT_PID in f * k.Processes();
    WakeInv(k.sched, f);
  }

  lemma InBlocked(ring: seq<Process>)
    ensures InState(ring, BLOCKED) <= Pids(ring)
  {
  }

  lemma WakeInv(s: Sched, pids: set<int>)
    requires Ring.Inv(s) && s.ring[0].pid !in pids && INIT_PID !in pids
    ensures Ring.Inv(s.(ring := Wake(s.ring, pids)))
  {
    hide Distinct, Pids, InState;
    var r := Wake(s.ring, pids);
    forall p | p in r
      ensures 0 <= p.pid < s.nextPid && (p.pid == INIT_PID ==> p.state == READY || p.state == RUNNING)
    {
      var i :| 0 <= i < |r| && r[i] == p;
      assert s.ring[i] in s.ring;
    }
    WakeSets(s.ring, pids);
  }

  lemma TickedSleep(k: Kernel)
    requires SleepOk(k)
    ensures PidsOf(AfterTick(k.asleep)) * k.Processes() == k.Sleeping() - Finished(k.asleep)
    ensures forall e, f :: e in AfterTick(k.asleep) && f in AfterTick(k.asleep) && e.pid == f.pid ==> e == f
    ensures forall e :: e in AfterTick(k.asleep) ==> e.pid < k.sched.nextPid
  {
    var t := AfterTick(k.asleep);
    forall p | p in k.Sleeping() && p !in Finished(k.asleep) ensures p in PidsOf(t) {
      var e :| e in k.asleep && e.pid == p;
      assert Bump(e) in t;
    }
    forall p | p in PidsOf(t) ensures p in PidsOf(k.asleep) && p !in Finished(k.asleep) {
      var e :| e in t && e.pid == p;
      var e0 :| e0 in k.asleep && !Done(Bump(e0)) && e == Bump(e0);
      assert forall f :: f in k.asleep && f.pid == p ==> f == e0;
    }
  }

  /** The handler wakes exactly the sleepers whose time has come; nobody else changes state. */
  lemma TickedKeepsInv(k: Kernel)
    requires Inv(k)
    ensures Inv(Ticked(k)) && Ticked(k).Processes() == k.Processes() && Ticked(k).Blocked() == k.Blocked()
    ensures Ticked(k).Sleeping() == k.Sleeping() - Finished(k.asleep)
  {
    TickedSched(k);
    TickedSleep(k);
    ClaimsAreProcesses(k);
    Frame(k, Ticked(k), Other);
  }

  lemma ClaimsAreProcesses(k: Kernel)
    requires Inv(k)
    ensures forall j :: k.IsMutex(j) ==> k.claims[j] <= k.Processes()
  {
    forall j | k.IsMutex(j) ensures k.claims[j] <= k.Processes() {
      assert LockOk(k, j);
    }
  }

  /** Dispatching another process. */
  lemma DispatchKeepsInv(k: Kernel)
    requires Inv(k)
    ensures HasReady(Ring.Step(k.sched.ring))
    ensures var n := WithRing(k, Schedule(k.sched.ring));
            Inv(n) && n.Processes() == k.Processes() && n.Blocked() == k.Blocked() && n.Sleeping() == k.Sleeping()
  {
    hide LockOkOn, SemOkOn, Pids, InState, Waiters, Schedule, HasReady, Ring.Step, Ring.Inv;
    Sleepers(k);
    ScheduleInv(k.sched);
    ClaimsAreProcesses(k);
    var n := WithRing(k, Schedule(k.sched.ring));
    Frame(k, n, Other);
    forall p | p in n.Blocked() ensures Queued(n, p) { assert Queued(k, p); }
  }

  ghost function AfterTickStep(k: Kernel): Kernel
    requires Inv(k)
  {
    TickedKeepsInv(k);
    DispatchKeepsInv(Ticked(k));
    WithRing(Ticked(k), Schedule(Ticked(k).sched.ring))
  }

  ghost function AfterYieldStep(k: Kernel): Kernel
    requires Inv(k)
  {
    DispatchKeepsInv(k);
    WithRing(k, Schedule(k.sched.ring))
  }

  ghost function AfterKillStep(k: Kernel, p: int): Kernel
    requires Inv(k) && Allowed(k, KillStep(p))
  {
    DispatchTerminates(k.sched);
    WithRing(k, Remove(k.sched.ring, p))
  }

  ghost function AfterCreateStep(k: Kernel): Kernel {
    k.(sched := Create(k.sched))
  }

  ghost function After(k: Kernel, step: Step): Kernel
    requires Inv(k) && Allowed(k, step)
  {
    match step
    case LockStep(i) => AfterLockStep(k, i)
    case FreeStep(i) => AfterFreeStep(k, i)
    case WaitStep(i) => AfterWaitStep(k, i)
    case SignalStep(i) => AfterSignalStep(k, i)
    case SleepStep(time) => AfterSleepStep(k, time)
    case TickStep => AfterTickStep(k)
    case YieldStep => AfterYieldStep(k)
    case CreateStep => AfterCreateStep(k)
    case KillStep(p) => AfterKillStep(k, p)
  }

  /** A call that only updates the history. */
  lemma CallKeepsInv(k: Kernel)
    requires Inv(k)
    ensures Inv(k.(lastCall := Called(k, Other)))
  {
    CurIsRunnable(k);
    ClaimsAreProcesses(k);
    Frame(k, k.(lastCall := Called(k, Other)), Other);
    assert forall p :: p in k.Blocked() ==> Queued(k, p);
  }

  /** `n` differs from `k` only in the mutex or semaphore that `obj` names. */
  ghost predicate OnlyObject(k: Kernel, n: Kernel, obj: Call) {
    && |n.mutexes| == |k.mutexes| && |n.claims| == |k.claims|
    && |n.sems| == |k.sems| && |n.tally| == |k.tally| && n.inner == k.inner
    && (forall j :: k.IsMutex(j) && obj != Locked(j) ==> n.mutexes[j] == k.mutexes[j] && n.claims[j] == k.claims[j])
    && (forall j :: k.IsSem(j) && obj != Waited(j) ==> n.sems[j] == k.sems[j] && n.tally[j] == k.tally[j])
  }

  /** A call of the current process: who is listed and who sleeps stays the same. */
  ghost predicate SamePeople(k: Kernel, n: Kernel)
    requires k.sched.ring != []
  {
    && n.sched.nextPid == k.sched.nextPid && n.asleep == k.asleep
    && n.Processes() == k.Processes() && n.Sleeping() == k.Sleeping()
    && n.Blocked() <= k.Blocked() + {k.Cur()}
  }

  ghost predicate ObjectOk(n: Kernel, obj: Call) {
    match obj
    case Locked(i) => n.IsMutex(i) && LockOk(n, i)
    case Waited(i) => n.IsSem(i) && SemOk(n, i)
    case Other => true
  }

  ghost function WaitersOf(k: Kernel, obj: Call): set<int> {
    match obj
    case Locked(i) => if k.IsMutex(i) then Waiters(k.mutexes[i].queue) else {}
    case Waited(i) => if k.IsSem(i) then Waiters(k.sems[i].queue) else {}
    case Other => {}
  }

  lemma WaitersAreBlocked(k: Kernel, obj: Call)
    requires Inv(k)
    ensures WaitersOf(k, obj) <= k.Blocked()
    ensures forall p :: p in WaitersOf(k, obj) <==> p in k.Blocked() && p in k.lastCall && k.lastCall[p] == obj
  {
    if obj.Locked? && k.IsMutex(obj.m) { assert LockOk(k, obj.m); }
    if obj.Waited? && k.IsSem(obj.s) { assert SemOk(k, obj.s); }
    forall p | p in k.Blocked() && p in k.lastCall && k.lastCall[p] == obj ensures p in WaitersOf(k, obj) {
      assert Queued(k, p);
    }
  }

  /** It is enough to look at the object of a call, at the caller and at the waiters of the object. */
  lemma Assemble(k: Kernel, n: Kernel, obj: Call, last: Call)
    requires Inv(k) && SchedOk(n.sched) && SamePeople(k, n) && OnlyObject(k, n, obj)
    requires obj.Locked? ==> obj.m !in k.inner
    requires n.lastCall == Called(k, last)
    requires ObjectOk(n, obj)
    requires k.Blocked() - WaitersOf(k, obj) <= n.Blocked()
    requires WaitersOf(k, obj) * n.Blocked() <= WaitersOf(n, obj)
    requires k.Cur() in n.Blocked() ==> Queued(n, k.Cur())
    ensures Inv(n)
  {
    hide LockOkOn, SemOkOn, SchedOk, Pids, InState, Waiters;
    Sleepers(k);
    CurIsRunnable(k);
    ClaimsAreProcesses(k);
    WaitersAreBlocked(k, obj);
    Frame(k, n, obj);
    forall p | p in n.Blocked() ensures Queued(n, p) {
      if p != k.Cur() { assert Queued(k, p); }
    }
  }

  /** What the invariant says about the current process and about one mutex. */
  lemma InvAt(k: Kernel, i: int)
    requires Inv(k)
    ensures SchedOk(k.sched) && k.sched.ring != []
    ensures k.IsMutex(i) ==> LockOkOn(k.mutexes[i], k.claims[i], k.Blocked(), k.Processes(), k.lastCall, i)
    ensures k.IsSem(i) ==> SemOkOn(k.sems[i], k.tally[i], k.Blocked(), k.lastCall, i)
    ensures k.IsMutex(i) ==> Waiters(k.mutexes[i].queue) <= k.Blocked()
    ensures k.IsSem(i) ==> Waiters(k.sems[i].queue) <= k.Blocked()
  {
    if k.IsMutex(i) { assert LockOk(k, i); }
    if k.IsSem(i) { assert SemOk(k, i); }
  }

  lemma AcquireOk(m: Lock, claim: set<int>, blocked: set<int>, procs: set<int>, lc: map<int, Call>, i: int, cur: int)
    requires LockOkOn(m, claim, blocked, procs, lc, i) && m.mutex == 0 && cur in procs
    ensures LockOkOn(Acquired(m), claim + {cur}, blocked, procs, lc[cur := Locked(i)], i)
  {
    assert {cur} - Waiters(m.queue) == {cur};
  }

  lemma JoinBoth(claim: set<int>, waiting: set<int>, cur: int)
    requires waiting <= claim && cur !in claim && exists h :: claim - waiting == {h}
    ensures |waiting + {cur}| == |waiting| + 1
    ensures exists h :: (claim + {cur}) - (waiting + {cur}) == {h}
  {
    var h :| claim - waiting == {h};
    assert (claim + {cur}) - (waiting + {cur}) == {h};
  }

  lemma BlockOk(m: Lock, claim: set<int>, blocked: set<int>, procs: set<int>, lc: map<int, Call>, i: int, cur: int)
    requires LockOkOn(m, claim, blocked, procs, lc, i) && m.mutex != 0 && HasRoom(m.queue)
    requires cur in procs && cur !in blocked && cur !in claim && cur >= 0
    ensures var n := m.(queue := Add(m.queue, cur), cardinalBlocked := m.cardinalBlocked + 1);
            && LockOkOn(n, claim + {cur}, blocked + {cur}, procs, lc[cur := Locked(i)], i)
            && Waiters(n.queue) == Waiters(m.queue) + {cur}
  {
    AddWaiters(m.queue, cur);
    hide Waiters, NoDuplicates, Add, HasRoom;
    JoinBoth(claim, Waiters(m.queue), cur);
  }

  lemma AcquireKeepsInv(k: Kernel, i: int)
    requires Inv(k) && Allowed(k, LockStep(i)) && k.IsMutex(i) && k.mutexes[i].mutex == 0
    ensures Inv(AfterLockStep(k, i))
  {
    hide Inv;
    InvAt(k, i);
    CurIsRunnable(k);
    LockReady(k, i);
    FreeLockHasNoWaiters(k, i);
    AcquireOk(k.mutexes[i], k.claims[i], k.Blocked(), k.Processes(), k.lastCall, i, k.Cur());
    hide LockOkOn, SchedOk, Pids, InState;
    Assemble(k, AfterLockStep(k, i), Locked(i), Locked(i));
  }

  lemma BlockPeople(k: Kernel, i: int)
    requires Inv(k) && Allowed(k, LockStep(i)) && k.IsMutex(i) && k.mutexes[i].mutex != 0
    ensures var n := AfterLockStep(k, i);
            && SchedOk(n.sched) && n.sched.nextPid == k.sched.nextPid && n.asleep == k.asleep
            && n.Processes() == k.Processes() && n.Sleeping() == k.Sleeping()
            && n.Blocked() == k.Blocked() + {k.Cur()}
  {
    hide Inv, SchedOk, Pids, InState, HasReady, Ring.Step, Schedule, SetState, LockOkOn, SemOkOn, Waiters;
    InvAt(k, i);
    FreeLockHasNoWaiters(k, i);
    Suspend(k, BLOCKED);
  }

  lemma BlockKeepsInv(k: Kernel, i: int)
    requires Inv(k) && Allowed(k, LockStep(i)) && k.IsMutex(i) && k.mutexes[i].mutex != 0
    ensures var n := AfterLockStep(k, i);
            && Inv(n) && n.Blocked() == k.Blocked() + {k.Cur()}
            && Waiters(n.mutexes[i].queue) == Waiters(k.mutexes[i].queue) + {k.Cur()}
  {
    hide Inv, LockOkOn, SemOkOn, SchedOk, Pids, InState, Block, Waiters, HasRoom, HasReady;
    InvAt(k, i);
    CurIsRunnable(k);
    LockReady(k, i);
    FreeLockHasNoWaiters(k, i);
    BlockPeople(k, i);
    BlockOk(k.mutexes[i], k.claims[i], k.Blocked(), k.Processes(), k.lastCall, i, k.Cur());
    Assemble(k, AfterLockStep(k, i), Locked(i), Locked(i));
  }

  /** The caller gets a free lock, or is queued exactly once, blocked, and another process runs. */
  lemma LockKeepsInv(k: Kernel, i: int)
    requires Inv(k) && Allowed(k, LockStep(i))
    ensures Inv(AfterLockStep(k, i))
  {
    if !k.IsMutex(i) {
      CallKeepsInv(k);
    } else if k.mutexes[i].mutex == 0 {
      AcquireKeepsInv(k, i);
    } else {
      BlockKeepsInv(k, i);
    }
  }

  // ----- free -----

  lemma ReleaseOk(m: Lock, claim: set<int>, blocked: set<int>, procs: set<int>, lc: map<int, Call>, i: int, cur: int)
    requires LockOkOn(m, claim, blocked, procs, lc, i) && m.cardinalBlocked == 0 && cur in claim && cur !in blocked
    ensures LockOkOn(m.(mutex := 0), claim - {cur}, blocked, procs, lc[cur := Other], i)
    ensures claim == {cur}
  {
    assert Waiters(m.queue) == {};
    var h :| claim - Waiters(m.queue) == {h};
    assert claim - {} == claim;
  }

  lemma LeaveBoth(claim: set<int>, waiting: set<int>, cur: int, w: int)
    requires waiting <= claim && cur in claim && cur !in waiting && w in waiting
    requires exists h :: claim - waiting == {h}
    ensures (claim - {cur}) - (waiting - {w}) == {w}
    ensures |waiting - {w}| == |waiting| - 1
  {
    var h :| claim - waiting == {h};
    assert cur in claim - waiting;
  }

  lemma HandOffOk(m: Lock, claim: set<int>, blocked: set<int>, procs: set<int>, lc: map<int, Call>, i: int, cur: int)
    requires LockOkOn(m, claim, blocked, procs, lc, i) && HasWaiter(m.queue) && m.cardinalBlocked > 0
    requires cur in claim && cur !in blocked
    ensures var n := m.(queue := Drop(m.queue), cardinalBlocked := m.cardinalBlocked - 1);
            && LockOkOn(n, claim - {cur}, blocked - {Next(m.queue)}, procs, lc[cur := Other], i)
            && Waiters(n.queue) == Waiters(m.queue) - {Next(m.queue)}
            && Next(m.queue) in Waiters(m.queue)
            && (claim - {cur}) - Waiters(n.queue) == {Next(m.queue)}
  {
    DropWaiters(m.queue);
    hide Waiters, NoDuplicates, Drop, Next, HasWaiter;
    LeaveBoth(claim, Waiters(m.queue), cur, Next(m.queue));
  }

  lemma HolderIsClaimer(k: Kernel, i: int)
    requires Inv(k) && k.IsMutex(i) && k.Cur() in k.Holders(i)
    ensures k.Cur() in k.claims[i]
  {
  }

  lemma ReleaseKeepsInv(k: Kernel, i: int)
    requires Inv(k) && Allowed(k, FreeStep(i)) && k.IsMutex(i) && k.mutexes[i].cardinalBlocked == 0
    ensures var n := AfterFreeStep(k, i);
            Inv(n) && n.mutexes[i].mutex == 0 && n.claims[i] == {} && n.Blocked() == k.Blocked()
  {
    hide Inv, LockOkOn, SemOkOn, SchedOk, Pids, InState, Waiters;
    InvAt(k, i);
    CurIsRunnable(k);
    HolderIsClaimer(k, i);
    InnerIsFree(k, i);
    FreeLockHasNoWaiters(k, i);
    ReleaseOk(k.mutexes[i], k.claims[i], k.Blocked(), k.Processes(), k.lastCall, i, k.Cur());
    Assemble(k, AfterFreeStep(k, i), Locked(i), Other);
  }

  /** A lock that somebody claims is no semaphore's mutex. */
  lemma InnerIsFree(k: Kernel, i: int)
    requires Inv(k) && k.IsMutex(i) && k.claims[i] != {}
    ensures i !in k.inner
  {
    assert LockOk(k, i);
  }

  /** A lock with waiters goes to exactly one of them, the one in the lowest slot. */
  lemma HandOffKeepsInv(k: Kernel, i: int)
    requires Inv(k) && Allowed(k, FreeStep(i)) && k.IsMutex(i) && k.mutexes[i].cardinalBlocked > 0
    ensures HasWaiter(k.mutexes[i].queue)
    ensures var n := AfterFreeStep(k, i);
            var w := Next(k.mutexes[i].queue);
            && Inv(n) && n.mutexes[i].mutex == 1
            && w in Waiters(k.mutexes[i].queue)
            && n.Blocked() == k.Blocked() - {w}
            && n.claims[i] - Waiters(n.mutexes[i].queue) == {w}
  {
    hide Inv, LockOkOn, SemOkOn, SchedOk, Pids, InState, Waiters, SetState;
    InvAt(k, i);
    CurIsRunnable(k);
    HolderIsClaimer(k, i);
    InnerIsFree(k, i);
    FreeLockHasNoWaiters(k, i);
    HandOffOk(k.mutexes[i], k.claims[i], k.Blocked(), k.Processes(), k.lastCall, i, k.Cur());
    WakeUp(k, Next(k.mutexes[i].queue));
    LockedWord(k, i);
    Assemble(k, AfterFreeStep(k, i), Locked(i), Other);
  }

  lemma LockedWord(k: Kernel, i: int)
    requires Inv(k) && k.IsMutex(i) && k.claims[i] != {}
    ensures k.mutexes[i].mutex == 1
  {
    assert LockOk(k, i);
  }

  lemma FreeKeepsInv(k: Kernel, i: int)
    requires Inv(k) && Allowed(k, FreeStep(i))
    ensures Inv(AfterFreeStep(k, i))
  {
    hide Inv;
    if !k.IsMutex(i) {
      CallKeepsInv(k);
    } else if k.mutexes[i].cardinalBlocked > 0 {
      HandOffKeepsInv(k, i);
    } else {
      InvAt(k, i);
      ReleaseKeepsInv(k, i);
    }
  }

  // ----- semaphores -----

  lemma LowerOk(s: Sem, t: Tally, blocked: set<int>, lc: map<int, Call>, i: int, cur: int)
    requires SemOkOn(s, t, blocked, lc, i) && s.semaphore > 0 && cur !in blocked
    ensures SemOkOn(s.(semaphore := s.semaphore - 1), t.(waits := t.waits + 1), blocked, lc[cur := Waited(i)], i)
  {
  }

  lemma EnqueueOk(s: Sem, t: Tally, blocked: set<int>, lc: map<int, Call>, i: int, cur: int)
    requires SemOkOn(s, t, blocked, lc, i) && s.semaphore <= 0 && HasRoom(s.queue) && cur !in blocked && cur >= 0
    ensures var n := Enqueue(s.(semaphore := s.semaphore - 1), cur);
            && SemOkOn(n, t.(waits := t.waits + 1), blocked + {cur}, lc[cur := Waited(i)], i)
            && Waiters(n.queue) == Waiters(s.queue) + {cur}
  {
    AddWaiters(s.queue, cur);
    hide Waiters, NoDuplicates, Add, HasRoom;
  }

  lemma RaiseOk(s: Sem, t: Tally, blocked: set<int>, lc: map<int, Call>, i: int, cur: int)
    requires SemOkOn(s, t, blocked, lc, i) && s.cardinalBlocked == 0 && cur !in blocked
    ensures SemOkOn(s.(semaphore := s.semaphore + 1), t.(signals := t.signals + 1), blocked, lc[cur := Other], i)
  {
  }

  lemma PassOk(s: Sem, t: Tally, blocked: set<int>, lc: map<int, Call>, i: int, cur: int)
    requires SemOkOn(s, t, blocked, lc, i) && s.cardinalBlocked > 0 && HasWaiter(s.queue) && cur !in blocked
    ensures var n := Sem(s.semaphore + 1, s.cardinalBlocked - 1, Drop(s.queue));
            && SemOkOn(n, t.(signals := t.signals + 1), blocked - {Next(s.queue)}, lc[cur := Other], i)
            && Waiters(n.queue) == Waiters(s.queue) - {Next(s.queue)}
            && Next(s.queue) in Waiters(s.queue)
  {
    DropWaiters(s.queue);
    hide Waiters, NoDuplicates, Drop, Next, HasWaiter;
  }

  /** A positive value lets the caller pass; otherwise the caller is queued exactly once. */
  lemma WaitKeepsInv(k: Kernel, i: int)
    requires Inv(k) && Allowed(k, WaitStep(i))
    ensures Inv(AfterWaitStep(k, i))
  {
    hide Inv, AfterWaitStep, Waiters;
    if !k.IsSem(i) {
      NoSemaphore(k, i);
      CallKeepsInv(k);
    } else if k.sems[i].semaphore > 0 {
      PassingKeepsInv(k, i);
    } else {
      WaitingKeepsInv(k, i);
    }
  }

  lemma NoSemaphore(k: Kernel, i: int)
    requires Inv(k) && Allowed(k, WaitStep(i)) && !k.IsSem(i)
    ensures AfterWaitStep(k, i) == k.(lastCall := Called(k, Other))
  {
  }

  lemma PassingKeepsInv(k: Kernel, i: int)
    requires Inv(k) && Allowed(k, WaitStep(i)) && k.IsSem(i) && k.sems[i].semaphore > 0
    ensures Inv(AfterWaitStep(k, i))
  {
    hide Inv, LockOkOn, SemOkOn, SchedOk, Pids, InState, Waiters, Block, HasRoom, HasReady;
    InvAt(k, i);
    CurIsRunnable(k);
    SemReady(k, i);
    LowerOk(k.sems[i], k.tally[i], k.Blocked(), k.lastCall, i, k.Cur());
    Assemble(k, AfterWaitStep(k, i), Waited(i), Waited(i));
  }

  lemma WaitingKeepsInv(k: Kernel, i: int)
    requires Inv(k) && Allowed(k, WaitStep(i)) && k.IsSem(i) && k.sems[i].semaphore <= 0
    ensures Inv(AfterWaitStep(k, i))
  {
    hide Inv, LockOkOn, SemOkOn, SchedOk, Pids, InState, Waiters, Block, HasRoom, HasReady;
    InvAt(k, i);
    CurIsRunnable(k);
    SemReady(k, i);
    WaitPeople(k, i);
    EnqueueOk(k.sems[i], k.tally[i], k.Blocked(), k.lastCall, i, k.Cur());
    Assemble(k, AfterWaitStep(k, i), Waited(i), Waited(i));
  }

  lemma WaitPeople(k: Kernel, i: int)
    requires Inv(k) && Allowed(k, WaitStep(i)) && k.IsSem(i) && k.sems[i].semaphore <= 0
    ensures var n := AfterWaitStep(k, i);
            && SchedOk(n.sched) && n.sched.nextPid == k.sched.nextPid && n.asleep == k.asleep
            && n.Processes() == k.Processes() && n.Sleeping() == k.Sleeping()
            && n.Blocked() == k.Blocked() + {k.Cur()}
  {
    hide Inv, SchedOk, Pids, InState, HasReady, Ring.Step, Schedule, SetState, LockOkOn, SemOkOn, Waiters;
    InvAt(k, i);
    SemReady(k, i);
    Suspend(k, BLOCKED);
  }

  lemma SignalKeepsInv(k: Kernel, i: int)
    requires Inv(k)
    ensures Inv(AfterSignalStep(k, i))
  {
    hide Inv, LockOkOn, SemOkOn, SchedOk, Pids, InState, Waiters, SetState;
    if !k.IsSem(i) {
      CallKeepsInv(k);
    } else {
      InvAt(k, i);
      CurIsRunnable(k);
      SemReady(k, i);
      SemCount(k, i);
      if k.sems[i].cardinalBlocked > 0 {
        PassOk(k.sems[i], k.tally[i], k.Blocked(), k.lastCall, i, k.Cur());
        WakeUp(k, Next(k.sems[i].queue));
        Assemble(k, AfterSignalStep(k, i), Waited(i), Other);
      } else {
        RaiseOk(k.sems[i], k.tally[i], k.Blocked(), k.lastCall, i, k.Cur());
        Assemble(k, AfterSignalStep(k, i), Waited(i), Other);
      }
    }
  }

  lemma SemCount(k: Kernel, i: int)
    requires Inv(k) && k.IsSem(i)
    ensures k.sems[i].cardinalBlocked >= 0
  {
    assert SemOk(k, i);
  }

  // ----- sleeping, ticks, creation, removal -----

  lemma SleepKeepsInv(k: Kernel, time: int)
    requires Inv(k) && Allowed(k, SleepStep(time))
    ensures var n := AfterSleepStep(k, time);
            && Inv(n) && n.Sleeping() == k.Sleeping() + {k.Cur()}
            && k.Cur() !in PidsOf(k.asleep)
  {
    hide Inv, LockOkOn, SemOkOn, SchedOk, SleepOk, Pids, InState, Waiters, SetState, Schedule, HasReady, Ring.Step, PidsOf;
    Sleepers(k);
    CurIsRunnable(k);
    Suspend(k, SLEEPING);
    var n := AfterSleepStep(k, time);
    SleeperAdded(k, n, Sleeper(k.Cur(), 0, time));
    SleepFrame(k, n);
  }

  lemma Sleepers(k: Kernel)
    requires Inv(k)
    ensures SchedOk(k.sched) && SleepOk(k) && k.sched.ring != []
  {
  }

  lemma SleeperAdded(k: Kernel, n: Kernel, e: Sleeper)
    requires SchedOk(k.sched) && SleepOk(k) && e.pid == k.Cur() && n.asleep == k.asleep + {e}
    requires n.sched.nextPid == k.sched.nextPid && n.Processes() == k.Processes() && n.Sleeping() == k.Sleeping() + {e.pid}
    ensures SleepOk(n) && e.pid !in PidsOf(k.asleep)
  {
    CurIsRunnable(k);
    assert k.sched.ring[0] in k.sched.ring;
    assert PidsOf(n.asleep) == PidsOf(k.asleep) + {e.pid} by {
      forall p | p in PidsOf(k.asleep) ensures p in PidsOf(n.asleep) {
        var f :| f in k.asleep && f.pid == p;
        assert f in n.asleep;
      }
      assert e in n.asleep;
    }
  }

  lemma SleepFrame(k: Kernel, n: Kernel)
    requires Inv(k) && SchedOk(n.sched) && SleepOk(n) && n.Blocked() == k.Blocked()
    requires OnlyObject(k, n, Other) && n.lastCall == Called(k, Other)
    requires n.Processes() == k.Processes()
    ensures Inv(n)
  {
    CurIsRunnable(k);
    ClaimsAreProcesses(k);
    Frame(k, n, Other);
    hide LockOkOn, SemOkOn, SchedOk, SleepOk;
    forall p | p in n.Blocked() ensures Queued(n, p) {
      assert Queued(k, p);
    }
  }

  /** Creating and killing change the list of processes only. */
  lemma ListFrame(k: Kernel, n: Kernel)
    requires Inv(k) && SchedOk(n.sched) && n.sched.nextPid >= k.sched.nextPid
    requires n == k.(sched := n.sched)
    requires n.Blocked() == k.Blocked()
    requires forall j :: k.IsMutex(j) ==> k.claims[j] <= n.Processes()
    requires PidsOf(k.asleep) * n.Processes() == n.Sleeping()
    ensures Inv(n)
  {
    Frame(k, n, Other);
    hide LockOkOn, SemOkOn, SchedOk;
    forall p | p in n.Blocked() ensures Queued(n, p) {
      assert Queued(k, p);
    }
  }

  lemma CreateStates(s: Sched, t: State)
    requires t != READY
    ensures InState(Create(s).ring, t) == InState(s.ring, t)
  {
    InsertMembers(s.ring, Process(s.nextPid, READY));
  }

  lemma CreateKeepsInv(k: Kernel)
    requires Inv(k)
    ensures Inv(AfterCreateStep(k)) && AfterCreateStep(k).Processes() == k.Processes() + {k.sched.nextPid}
  {
    CreateInv(k.sched);
    CreateStates(k.sched, BLOCKED);
    CreateStates(k.sched, SLEEPING);
    ClaimsAreProcesses(k);
    assert k.sched.nextPid !in PidsOf(k.asleep);
    ListFrame(k, AfterCreateStep(k));
  }

  lemma RemoveStates(s: Sched, pid: int, t: State)
    requires Ring.Inv(s) && pid != INIT_PID && (t == BLOCKED || t == SLEEPING)
    ensures CanRemove(s.ring, pid)
    ensures InState(Remove(s.ring, pid), t) == InState(s.ring, t) - {pid}
  {
    hide Pids, Resume, HasReady, Schedule, Ring.Step, Distinct, Without;
    DispatchTerminates(s);
    var k := IndexOf(s.ring, pid);
    if k == |s.ring| {
    } else {
      WithoutStates(s.ring, k, t);
      if k == 0 {
        WithoutFirst(s.ring);
        SingleRemoved(s.ring, 0);
        assert |s.ring| > 1 by { RemoveInv(s, pid); }
        ResumeSets(s.ring[1..]);
      }
    }
  }

  lemma WithoutFirst(ring: seq<Process>)
    requires ring != []
    ensures Without(ring, 0) == ring[1..]
  {
  }

  lemma WithoutStates(ring: seq<Process>, k: nat, t: State)
    requires Distinct(ring) && k < |ring|
    ensures InState(Without(ring, k), t) == InState(ring, t) - {ring[k].pid}
  {
    var r := Without(ring, k);
    SingleRemoved(ring, k);
    forall x | x in InState(ring, t) && x != ring[k].pid ensures x in InState(r, t) {
      var i :| 0 <= i < |ring| && ring[i].pid == x && ring[i].state == t;
      assert r[if i < k then i else i - 1] == ring[i];
    }
  }

  lemma KillSched(k: Kernel, p: int)
    requires Inv(k) && p != INIT_PID
    ensures CanRemove(k.sched.ring, p)
    ensures SchedOk(k.sched.(ring := Remove(k.sched.ring, p)))
    ensures Pids(Remove(k.sched.ring, p)) == k.Processes() - {p}
  {
    RemoveInv(k.sched, p);
    var r := Remove(k.sched.ring, p);
    var i := IndexOf(k.sched.ring, p);
    if i == 0 {
      assert |k.sched.ring| > 1;
      SingleRemoved(k.sched.ring, 0);
      assert Without(k.sched.ring, 0) == k.sched.ring[1..];
      DispatchTerminates(k.sched);
      ResumeSets(k.sched.ring[1..]);
    }
  }

  lemma KillKeepsInv(k: Kernel, p: int)
    requires Inv(k) && Allowed(k, KillStep(p))
    ensures Inv(AfterKillStep(k, p)) && AfterKillStep(k, p).Processes() == k.Processes() - {p}
  {
    hide LockOkOn, SemOkOn, Pids, InState, Waiters, PidsOf, Remove, Ring.Inv;
    Sleepers(k);
    KillSched(k, p);
    RemoveStates(k.sched, p, BLOCKED);
    RemoveStates(k.sched, p, SLEEPING);
    ClaimsAreProcesses(k);
    ListFrame(k, AfterKillStep(k, p));
  }

  lemma TickKeepsInv(k: Kernel)
    requires Inv(k)
    ensures Inv(AfterTickStep(k)) && Inv(AfterYieldStep(k))
  {
    hide Inv;
    TickedKeepsInv(k);
    DispatchKeepsInv(Ticked(k));
    DispatchKeepsInv(k);
  }

  /** Every step keeps the invariant. */
  lemma StepKeepsInv(k: Kernel, step: Step)
    requires Inv(k) && Allowed(k, step)
    ensures Inv(After(k, step))
  {
    hide Inv, AfterLockStep, AfterFreeStep, AfterWaitStep, AfterSignalStep, AfterSleepStep, AfterTickStep,
      AfterYieldStep, AfterCreateStep, AfterKillStep;
    match step
    case LockStep(i) => LockKeepsInv(k, i);
    case FreeStep(i) => FreeKeepsInv(k, i);
    case WaitStep(i) => WaitKeepsInv(k, i);
    case SignalStep(i) => SignalKeepsInv(k, i);
    case SleepStep(time) => SleepKeepsInv(k, time);
    case TickStep => TickKeepsInv(k);
    case YieldStep => TickKeepsInv(k);
    case CreateStep => CreateKeepsInv(k);
    case KillStep(p) => KillKeepsInv(k, p);
  }

  // ----- whole runs -----

  predicate FreshLock(m: Lock) {
    m.mutex == 0 && m.cardinalBlocked == 0 && Waiters(m.queue) == {}
  }

  predicate FreshSem(s: Sem) {
    s.semaphore >= 0 && s.cardinalBlocked == 0 && Waiters(s.queue) == {}
  }

  /** After booting: init and the shell, free mutexes, semaphores with a start value of at least 0. */
  ghost predicate Initial(k: Kernel) {
    && k.sched == Boot()
    && Shape(k)
    && (forall i :: k.IsMutex(i) ==> FreshLock(k.mutexes[i]) && k.claims[i] == {})
    && (forall i :: k.IsSem(i) ==> FreshSem(k.sems[i]) && k.tally[i] == Tally(k.sems[i].semaphore, 0, 0))
    && k.asleep == {} && k.lastCall == map[]
  }

  lemma EmptyQueue(queue: seq<int>)
    requires Waiters(queue) == {}
    ensures NoDuplicates(queue)
  {
    forall i | 0 <= i < |queue| ensures queue[i] == NO_BLOCKED_QUEUE_VALUE {
      assert queue[i] in queue && queue[i] !in Waiters(queue);
    }
  }

  lemma InitialInv(k: Kernel)
    requires Initial(k)
    ensures Inv(k)
  {
    BootInv();
    forall i | k.IsMutex(i) ensures LockOk(k, i) { EmptyQueue(k.mutexes[i].queue); }
    forall i | k.IsSem(i) ensures SemOk(k, i) { EmptyQueue(k.sems[i].queue); }
  }

  /** A run that follows the rules of use. */
  ghost predicate Legal(k: Kernel, steps: seq<Step>)
    requires Inv(k)
    decreases steps
  {
    steps == [] || (Allowed(k, steps[0]) && (StepKeepsInv(k, steps[0]); Legal(After(k, steps[0]), steps[1..])))
  }

  /** The state after a legal run. Its contract is the kernel's safety theorem. */
  ghost function Run(k: Kernel, steps: seq<Step>): (n: Kernel)
    requires Inv(k) && Legal(k, steps)
    ensures Inv(n)
    decreases steps
  {
    if steps == [] then k else StepKeepsInv(k, steps[0]); Run(After(k, steps[0]), steps[1..])
  }

  /** At most one process holds a mutex, the lock word is 0 exactly when nobody does, and
      everybody whose lock call is pending is blocked in a slot: no wakeup is lost. */
  lemma MutexProtocol(k: Kernel, i: int)
    requires Inv(k) && k.IsMutex(i)
    ensures |k.Holders(i)| <= 1
    ensures k.mutexes[i].mutex == 0 <==> k.Holders(i) == {}
    ensures var w := Waiters(k.mutexes[i].queue);
            && k.claims[i] - k.Holders(i) == w && w <= k.Blocked()
            && k.mutexes[i].cardinalBlocked == |w|
    ensures k.Holders(i) == {} ==> k.claims[i] == {}
  {
    hide Inv, SemOkOn, SchedOk, Pids, InState, Waiters, NoDuplicates;
    WaitersAreBlocked(k, Locked(i));
    InvAt(k, i);
    var w := Waiters(k.mutexes[i].queue);
    assert w == WaitersOf(k, Locked(i));
    forall p ensures p in k.Holders(i) <==> p in k.claims[i] - w { assert p in w <==> p in WaitersOf(k, Locked(i)); }
    assert k.Holders(i) == k.claims[i] - w;
    if k.mutexes[i].mutex != 0 {
      var h :| k.claims[i] - w == {h};
      assert |{h}| == 1;
    }
  }

  /** Freeing a mutex with waiters makes the one in the lowest slot its only holder; nobody else wakes up. */
  lemma HandOff(k: Kernel, i: int)
    requires Inv(k) && Allowed(k, FreeStep(i)) && k.IsMutex(i)
    ensures var n := AfterFreeStep(k, i);
            if Waiters(k.mutexes[i].queue) == {} then n.Holders(i) == {} && n.Blocked() == k.Blocked()
            else
              var q := k.mutexes[i].queue;
              exists j :: IsLowestWaiter(q, j) && n.Holders(i) == {q[j]} && n.Blocked() == k.Blocked() - {q[j]}
  {
    hide Inv, LockOkOn, SemOkOn, SchedOk, Pids, InState, SetState, NoDuplicates;
    var n := AfterFreeStep(k, i);
    MutexProtocol(k, i);
    if k.mutexes[i].cardinalBlocked == 0 {
      ReleaseKeepsInv(k, i);
      MutexProtocol(n, i);
    } else {
      HandOffKeepsInv(k, i);
      MutexProtocol(n, i);
      var w := Waiters(n.mutexes[i].queue);
      assert n.Holders(i) == n.claims[i] - w;
      assert IsLowestWaiter(k.mutexes[i].queue, FirstWaiter(k.mutexes[i].queue));
    }
  }

  /** The value counts signals against waits; below zero it counts the blocked processes, so
      completed waits never exceed the units ever supplied and nobody stays blocked at 0 or more. */
  lemma SemaphoreAccounting(k: Kernel, i: int)
    requires Inv(k) && k.IsSem(i)
    ensures var s := k.sems[i];
            var t := k.tally[i];
            && s.semaphore == t.start + t.signals - t.waits
            && k.Pending(i) == Waiters(s.queue)
            && s.cardinalBlocked == |k.Pending(i)| == (if s.semaphore < 0 then -s.semaphore else 0)
            && t.waits - |k.Pending(i)| <= t.start + t.signals
            && (s.semaphore >= 0 ==> k.Pending(i) == {})
  {
    WaitersAreBlocked(k, Waited(i));
    InvAt(k, i);
    assert k.Pending(i) == Waiters(k.sems[i].queue);
  }

  /** A process is blocked exactly when it waits in one queue, and only one; it sleeps exactly
      when the table lists it; it is never both. */
  lemma OnePlace(k: Kernel, p: int)
    requires Inv(k) && p in k.Processes()
    ensures p in k.Blocked() <==> exists obj :: p in WaitersOf(k, obj)
    ensures forall o1, o2 :: p in WaitersOf(k, o1) && p in WaitersOf(k, o2) ==> o1 == o2
    ensures p in k.Sleeping() <==> p in PidsOf(k.asleep)
    ensures p in k.Sleeping() ==> p !in k.Blocked()
    ensures p == k.Cur() ==> p !in k.Blocked() && p !in k.Sleeping()
  {
    CurIsRunnable(k);
    forall obj ensures p in WaitersOf(k, obj) ==> p in k.Blocked() && k.lastCall[p] == obj {
      WaitersAreBlocked(k, obj);
    }
    if p in k.Blocked() {
      assert Queued(k, p);
      assert p in WaitersOf(k, k.lastCall[p]);
    }
    if p in k.Sleeping() { AwakeNotBlocked(k, p); }
  }

  /** Which processes are listed after a step. */
  lemma StepProcesses(k: Kernel, step: Step)
    requires Inv(k) && Allowed(k, step)
    ensures After(k, step).Processes() ==
            if step.CreateStep? then k.Processes() + {k.sched.nextPid}
            else if step.KillStep? then k.Processes() - {step.pid}
            else k.Processes()
  {
    hide Inv, LockOkOn, SemOkOn, SchedOk, Pids, InState, Waiters, SetState, Schedule, HasReady, Ring.Step;
    InvAt(k, match step case LockStep(i) => i case FreeStep(i) => i case WaitStep(i) => i case SignalStep(i) => i case _ => 0);
    match step
    case LockStep(i) =>
      if k.IsMutex(i) { FreeLockHasNoWaiters(k, i); Suspend(k, BLOCKED); }
    case FreeStep(i) =>
      if k.IsMutex(i) && k.mutexes[i].cardinalBlocked > 0 { FreeWakes(k, i); }
    case WaitStep(i) =>
      if k.IsSem(i) { Suspend(k, BLOCKED); }
    case SignalStep(i) =>
      if k.IsSem(i) && k.sems[i].cardinalBlocked > 0 { SignalWakes(k, i); }
    case SleepStep(time) => Suspend(k, SLEEPING);
    case TickStep => TickedKeepsInv(k); DispatchKeepsInv(Ticked(k));
    case YieldStep => DispatchKeepsInv(k);
    case CreateStep => CreateKeepsInv(k);
    case KillStep(p) => KillKeepsInv(k, p);
  }

  lemma FreeWakes(k: Kernel, i: int)
    requires Inv(k) && k.IsMutex(i) && k.mutexes[i].cardinalBlocked > 0
    ensures HasWaiter(k.mutexes[i].queue)
    ensures WithRing(k, SetState(k.sched.ring, Next(k.mutexes[i].queue), READY)).Processes() == k.Processes()
  {
    FreeLockHasNoWaiters(k, i);
    SetStateSets(k.sched.ring, Next(k.mutexes[i].queue), READY);
  }

  lemma SignalWakes(k: Kernel, i: int)
    requires Inv(k) && k.IsSem(i) && k.sems[i].cardinalBlocked > 0
    ensures HasWaiter(k.sems[i].queue)
    ensures WithRing(k, SetState(k.sched.ring, Next(k.sems[i].queue), READY)).Processes() == k.Processes()
  {
    SemReady(k, i);
    SetStateSets(k.sched.ring, Next(k.sems[i].queue), READY);
  }

  /** A step changes a semaphore only when it names it: wait takes one unit and may queue the
      caller, signal adds one and queues nobody. */
  lemma SemEffect(k: Kernel, step: Step, i: int)
    requires Inv(k) && Allowed(k, step) && k.IsSem(i)
    ensures var n := After(k, step);
            && Inv(n) && n.IsSem(i)
            && n.sems[i].semaphore == k.sems[i].semaphore
                 + (if step == SignalStep(i) then 1 else 0) - (if step == WaitStep(i) then 1 else 0)
            && Waiters(n.sems[i].queue) <= Waiters(k.sems[i].queue) + (if step == WaitStep(i) then {k.Cur()} else {})
  {
    hide Inv, LockOkOn, SemOkOn, SchedOk, Pids, InState, Waiters, SetState, Schedule, HasReady, Ring.Step;
    StepKeepsInv(k, step);
    InvAt(k, i);
    CurIsRunnable(k);
    SemReady(k, i);
    match step
    case WaitStep(j) =>
      if j == i && k.sems[i].semaphore <= 0 {
        EnqueueOk(k.sems[i], k.tally[i], k.Blocked(), k.lastCall, i, k.Cur());
      }
    case SignalStep(j) =>
      if j == i && k.sems[i].cardinalBlocked > 0 {
        SignalWakes(k, i);
        PassOk(k.sems[i], k.tally[i], k.Blocked(), k.lastCall, i, k.Cur());
      }
    case _ =>
  }

  lemma LockEffect(k: Kernel, i: int)
    requires Inv(k) && Allowed(k, LockStep(i)) && k.IsMutex(i)
    ensures var n := AfterLockStep(k, i);
            && n.IsMutex(i) && n.claims[i] == k.claims[i] + {k.Cur()}
            && Waiters(n.mutexes[i].queue) <= Waiters(k.mutexes[i].queue) + {k.Cur()}
  {
    hide Inv, LockOkOn, SemOkOn, SchedOk, Pids, InState, Waiters, SetState, Schedule, HasReady, Ring.Step;
    FreeLockHasNoWaiters(k, i);
    if k.mutexes[i].mutex != 0 {
      BlockKeepsInv(k, i);
    }
  }

  lemma FreeEffect(k: Kernel, i: int)
    requires Inv(k) && Allowed(k, FreeStep(i)) && k.IsMutex(i)
    ensures var n := AfterFreeStep(k, i);
            && n.IsMutex(i) && n.claims[i] == k.claims[i] - {k.Cur()}
            && Waiters(n.mutexes[i].queue) <= Waiters(k.mutexes[i].queue)
  {
    hide Inv, LockOkOn, SemOkOn, SchedOk, Pids, InState, Waiters, SetState, Schedule, HasReady, Ring.Step;
    InvAt(k, i);
    CurIsRunnable(k);
    FreeLockHasNoWaiters(k, i);
    if k.mutexes[i].cardinalBlocked > 0 {
      HolderIsClaimer(k, i);
      HandOffOk(k.mutexes[i], k.claims[i], k.Blocked(), k.Processes(), k.lastCall, i, k.Cur());
    }
  }

  /** A step changes who claims a mutex only when it names it, and only for the caller. */
  lemma MutexEffect(k: Kernel, step: Step, i: int)
    requires Inv(k) && Allowed(k, step) && k.IsMutex(i)
    ensures var n := After(k, step);
            && Inv(n) && n.IsMutex(i) && n.inner == k.inner
            && n.claims[i] == (if step == LockStep(i) then k.claims[i] + {k.Cur()}
                               else if step == FreeStep(i) then k.claims[i] - {k.Cur()} else k.claims[i])
            && Waiters(n.mutexes[i].queue) <= Waiters(k.mutexes[i].queue) + (if step == LockStep(i) then {k.Cur()} else {})
  {
    hide Inv, Waiters, Allowed;
    StepKeepsInv(k, step);
    if step == LockStep(i) {
      hide AfterLockStep;
      LockEffect(k, i);
      SameInner(k, step);
    } else if step == FreeStep(i) {
      hide AfterFreeStep;
      FreeEffect(k, i);
      SameInner(k, step);
    }
  }

  lemma SameInner(k: Kernel, step: Step)
    requires Inv(k) && Allowed(k, step)
    ensures After(k, step).inner == k.inner
  {
    hide Inv, Allowed, Waiters;
  }

  lemma NextPidGrows(k: Kernel, step: Step)
    requires Inv(k) && Allowed(k, step)
    ensures After(k, step).sched.nextPid == k.sched.nextPid + (if step.CreateStep? then 1 else 0)
  {
    hide Inv, Allowed, Waiters, SetState, Schedule;
  }

  /** The current process waits nowhere. */
  lemma Running(k: Kernel)
    requires Inv(k)
    ensures k.sched.ring != [] && k.Cur() in k.Processes() && k.Cur() < k.sched.nextPid
    ensures forall i :: k.IsSem(i) ==> k.Cur() !in Waiters(k.sems[i].queue)
    ensures forall i :: k.IsMutex(i) ==> k.Cur() !in Waiters(k.mutexes[i].queue)
  {
    CurIsRunnable(k);
    assert k.sched.ring[0] in k.sched.ring;
    forall i | k.IsSem(i) ensures k.Cur() !in Waiters(k.sems[i].queue) { InvAt(k, i); }
    forall i | k.IsMutex(i) ensures k.Cur() !in Waiters(k.mutexes[i].queue) { InvAt(k, i); }
  }
}
