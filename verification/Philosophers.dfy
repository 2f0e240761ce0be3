/**
 The five philosophers of Userland/dummy/dummy.c, running on the kernel machine.

 They share the array `state` and one mutex. A philosopher sleeps while it holds the mutex, and
 the semaphore handles it signals and waits for may be any non-negative numbers: nothing below
 depends on them.
 */
module Philosophers {
  import opened Ring
  import opened BlockedQueue
  import opened KernelMachine
  import opened Programs

  const TOTAL := 5

  datatype Mood = THINKING | HUNGRY | EATING

  type Moods = m: seq<Mood> | |m| == TOTAL witness [THINKING, THINKING, THINKING, THINKING, THINKING]
  type Seat = i: int | 0 <= i < TOTAL

  function Left(i: Seat): Seat { (i + 4) % TOTAL }
  function Right(i: Seat): Seat { (i + 1) % TOTAL }

  /** The three places that call `testP`. */
  datatype Caller = Taking | PuttingLeft | PuttingRight

  /** What a philosopher does next. Past `lockMutex` it may still be blocked in the call.
      The stages of `testP`: 0-2 read the three entries, 3 writes, 4 sleeps, 5 signals. */
  datatype Pc =
    | Rest | TakeLock | BeHungry | TakeFree | Pause | AwaitForks
    | Digest | PutLock | BeThinking | PutFree
    | Test(caller: Caller, stage: nat)

  function Target(caller: Caller, i: Seat): Seat {
    match caller
    case Taking => i
    case PuttingLeft => Left(i)
    case PuttingRight => Right(i)
  }

  function AfterTest(caller: Caller): Pc {
    match caller
    case Taking => TakeFree
    case PuttingLeft => Test(PuttingRight, 0)
    case PuttingRight => PutFree
  }

  function NextPc(m: Moods, pc: Pc, i: Seat): Pc {
    match pc
    case Rest => TakeLock
    case TakeLock => BeHungry
    case BeHungry => Test(Taking, 0)
    case TakeFree => Pause
    case Pause => AwaitForks
    case AwaitForks => Digest
    case Digest => PutLock
    case PutLock => BeThinking
    case BeThinking => Test(PuttingLeft, 0)
    case PutFree => Rest
    case Test(c, stage) =>
      var t := Target(c, i);
      if stage == 0 then (if m[t] == HUNGRY then Test(c, 1) else AfterTest(c))
      else if stage == 1 then (if m[Left(t)] != EATING then Test(c, 2) else AfterTest(c))
      else if stage == 2 then (if m[Right(t)] != EATING then Test(c, 3) else AfterTest(c))
      else if stage == 3 then Test(c, 4)
      else if stage == 4 then Test(c, 5)
      else AfterTest(c)
  }

  /** What an instruction does to the shared array. */
  function Memory(m: Moods, pc: Pc, i: Seat): Moods {
    match pc
    case BeHungry => m[i := HUNGRY]
    case BeThinking => m[i := THINKING]
    case Test(c, stage) => if stage == 3 then m[Target(c, i) := EATING] else m
    case _ => m
  }

  // ----- one philosopher inside the critical section -----

  /** Has called lockMutex and not freeMutex since. */
  predicate Claiming(pc: Pc) {
    pc.BeHungry? || pc.TakeFree? || pc.BeThinking? || pc.PutFree? || pc.Test?
  }

  /** The last instruction was the call of lockMutex. */
  predicate JustLocked(pc: Pc) {
    pc.BeHungry? || pc.BeThinking?
  }

  /** The philosopher has put its forks down, or not had any yet, and not asked for them since. */
  predicate Idle(pc: Pc) {
    pc.Rest? || pc.TakeLock? || pc.BeHungry? || pc.PutFree? || (pc.Test? && !pc.caller.Taking?)
  }

  predicate Exclusive(m: Moods) {
    forall i: Seat :: !(m[i] == EATING && m[Right(i)] == EATING)
  }

  /** Hungry while both neighbours leave it the forks. */
  predicate Missed(m: Moods, i: Seat) {
    m[i] == HUNGRY && m[Left(i)] != EATING && m[Right(i)] != EATING
  }

  /** What the tests done so far have established. */
  predicate Tested(m: Moods, pc: Pc, i: Seat) {
    pc.Test? ==>
      var t := Target(pc.caller, i);
      && (1 <= pc.stage <= 3 ==> m[t] == HUNGRY)
      && (2 <= pc.stage <= 3 ==> m[Left(t)] != EATING)
      && (pc.stage == 3 ==> m[Right(t)] != EATING)
      && (pc.stage > 3 ==> m[t] == EATING)
  }

  /** The seats that the process inside still has to look after. */
  function Pending(pc: Pc, i: Seat): set<Seat> {
    match pc
    case Test(Taking, stage) => if stage <= 3 then {i} else {}
    case Test(PuttingLeft, stage) => if stage <= 3 then {Left(i), Right(i)} else {Right(i)}
    case Test(PuttingRight, stage) => if stage <= 3 then {Right(i)} else {}
    case _ => {}
  }

  predicate Covered(m: Moods, pending: set<Seat>) {
    forall j: Seat :: Missed(m, j) ==> j in pending
  }

  lemma InsideSafe(m: Moods, pc: Pc, i: Seat)
    requires Claiming(pc) && Exclusive(m) && Tested(m, pc, i)
    requires Idle(pc) <==> m[i] == THINKING
    ensures var m' := Memory(m, pc, i);
            var pc' := NextPc(m, pc, i);
            && Exclusive(m') && Tested(m', pc', i)
            && (Idle(pc') <==> m'[i] == THINKING)
            && (forall j: Seat :: j != i ==> (m[j] == THINKING <==> m'[j] == THINKING))
  {
  }

  lemma InsideMisses(m: Moods, pc: Pc, i: Seat, j: Seat)
    requires Claiming(pc) && Tested(m, pc, i) && Covered(m, Pending(pc, i))
    requires Idle(pc) <==> m[i] == THINKING
    ensures Missed(Memory(m, pc, i), j) ==> Claiming(NextPc(m, pc, i)) && j in Pending(NextPc(m, pc, i), i)
  {
    if Missed(Memory(m, pc, i), j) {
      match pc
      case Test(caller, stage) => assert Missed(m, j) && j in Pending(pc, i);
      case BeHungry => assert j == i || Missed(m, j);
      case BeThinking => assert j == Left(i) || j == Right(i) || Missed(m, j);
      case _ =>
    }
  }

  /** Every instruction inside the critical section keeps neighbours apart and misses nobody:
      a hungry seat with free forks is one the process has yet to test. */
  lemma InsideStep(m: Moods, pc: Pc, i: Seat)
    requires Claiming(pc) && Exclusive(m) && Tested(m, pc, i) && Covered(m, Pending(pc, i))
    requires Idle(pc) <==> m[i] == THINKING
    ensures var m' := Memory(m, pc, i);
            var pc' := NextPc(m, pc, i);
            && Exclusive(m') && Tested(m', pc', i) && Covered(m', Pending(pc', i))
            && (Idle(pc') <==> m'[i] == THINKING)
            && (forall j: Seat :: j != i ==> (m[j] == THINKING <==> m'[j] == THINKING))
            && (!Claiming(pc') ==> forall j: Seat :: !Missed(m', j))
  {
    hide Memory, NextPc, Missed, Tested, Exclusive, Pending, Idle, Claiming;
    InsideSafe(m, pc, i);
    forall j: Seat { InsideMisses(m, pc, i, j); }
  }

  /** `n` instructions of a philosopher whom nobody disturbs. */
  function Instructions(m: Moods, pc: Pc, i: Seat, n: nat): (Moods, Pc)
    decreases n
  {
    if n == 0 then (m, pc) else Instructions(Memory(m, pc, i), NextPc(m, pc, i), i, n - 1)
  }

  /** `testP` lets a hungry seat with both forks free eat, and otherwise changes nothing; it returns after at
      most six instructions. */
  lemma TestServes(m: Moods, caller: Caller, i: Seat) returns (n: nat)
    ensures n <= 6
    ensures var t := Target(caller, i);
            Instructions(m, Test(caller, 0), i, n) == (if Missed(m, t) then m[t := EATING] else m, AfterTest(caller))
  {
    var t := Target(caller, i);
    n := if m[t] != HUNGRY then 1 else if m[Left(t)] == EATING then 2 else if m[Right(t)] == EATING then 3 else 6;
    if m[t] == HUNGRY {
      OneInstruction(m, Test(caller, 0), i, n);
      OneInstruction(m, Test(caller, 1), i, n - 1);
      if n > 2 { OneInstruction(m, Test(caller, 2), i, n - 2); }
      if n > 3 {
        var e := m[t := EATING];
        OneInstruction(m, Test(caller, 3), i, 3);
        OneInstruction(e, Test(caller, 4), i, 2);
      }
    }
  }

  lemma OneInstruction(m: Moods, pc: Pc, i: Seat, n: nat)
    requires n > 0
    ensures Instructions(m, pc, i, n) == Instructions(Memory(m, pc, i), NextPc(m, pc, i), i, n - 1)
  {
  }

  // ----- the table on the kernel machine -----

  datatype Table = Table(
    k: Kernel,
    mutex: int,
    moods: Moods,
    seat: map<int, Seat>,     // the philosopher processes
    pcs: map<int, Pc>)

  function Queue(s: Table): set<int>
    requires s.k.IsMutex(s.mutex)
  {
    Waiters(s.k.mutexes[s.mutex].queue)
  }

  /** The process has the mutex and is not blocked in the call that asked for it. */
  ghost predicate IsInside(s: Table, p: int)
    requires s.k.IsMutex(s.mutex)
  {
    p in s.pcs && p in s.seat && Claiming(s.pcs[p]) && p !in Queue(s)
  }

  predicate Taken(seats: map<int, Seat>, i: Seat) {
    exists p :: p in seats && seats[p] == i
  }

  ghost predicate Seated(s: Table) {
    && s.pcs.Keys == s.seat.Keys
    && (forall p :: p in s.pcs ==> p < s.k.sched.nextPid)
    && (forall p, q :: p in s.seat && q in s.seat && s.seat[p] == s.seat[q] ==> p == q)
    && (forall p :: p in s.seat ==> (Idle(s.pcs[p]) <==> s.moods[s.seat[p]] == THINKING))
    && (forall i: Seat :: !Taken(s.seat, i) ==> s.moods[i] == THINKING)
  }

  ghost predicate Locking(s: Table) {
    && s.k.IsMutex(s.mutex) && s.mutex !in s.k.inner
    && s.k.claims[s.mutex] == Where(s.pcs, Claiming)
    && Queue(s) <= Where(s.pcs, JustLocked)
  }

  ghost predicate Fair(s: Table)
    requires s.k.IsMutex(s.mutex)
  {
    && Exclusive(s.moods)
    && (forall p :: IsInside(s, p) ==> Tested(s.moods, s.pcs[p], s.seat[p]))
    && (forall i: Seat :: Missed(s.moods, i) ==> exists p :: IsInside(s, p) && i in Pending(s.pcs[p], s.seat[p]))
  }

  ghost predicate Inv(s: Table) {
    KernelMachine.Inv(s.k) && Locking(s) && Seated(s) && Fair(s)
  }

  datatype Act =
    | Background(step: Step)     // a tick, or a call of another process
    | Spawn(seat: Seat)          // another process seats a philosopher
    | Advance(number: int)       // the next instruction; `number` is a sleep time or a semaphore handle

  function CallOf(s: Table, pc: Pc, number: int): Step {
    match pc
    case TakeLock => LockStep(s.mutex)
    case PutLock => LockStep(s.mutex)
    case TakeFree => FreeStep(s.mutex)
    case PutFree => FreeStep(s.mutex)
    case AwaitForks => WaitStep(number)
    case Test(_, stage) => if stage == 4 then SleepStep(number) else SignalStep(number)
    case _ => SleepStep(number)
  }

  predicate IsCall(pc: Pc) {
    !pc.BeHungry? && !pc.BeThinking? && !(pc.Test? && pc.stage <= 3)
  }

  predicate Mentions(s: Table, step: Step) {
    match step
    case LockStep(i) => i == s.mutex
    case FreeStep(i) => i == s.mutex
    case _ => false
  }

  ghost predicate Allowed(s: Table, act: Act)
    requires Inv(s)
  {
    var cur := s.k.Cur();
    match act
    case Background(step) =>
      KernelMachine.Allowed(s.k, step) && !Mentions(s, step) && (cur in s.pcs ==> step.TickStep?)
    case Spawn(seat) => cur !in s.pcs && !Taken(s.seat, seat)
    case Advance(number) =>
      cur in s.pcs && (IsCall(s.pcs[cur]) ==> KernelMachine.Allowed(s.k, CallOf(s, s.pcs[cur], number)))
  }

  ghost function Do(s: Table, act: Act): Table
    requires Inv(s) && Allowed(s, act)
  {
    match act
    case Background(step) => s.(k := After(s.k, step))
    case Spawn(seat) =>
      var p := s.k.sched.nextPid;
      s.(k := After(s.k, CreateStep), seat := s.seat[p := seat], pcs := s.pcs[p := Rest])
    case Advance(number) =>
      var p := s.k.Cur();
      var pc := s.pcs[p];
      s.(k := if IsCall(pc) then After(s.k, CallOf(s, pc, number)) else s.k,
         moods := Memory(s.moods, pc, s.seat[p]),
         pcs := s.pcs[p := NextPc(s.moods, pc, s.seat[p])])
  }

  // ----- every step keeps the invariant -----

  /** At most one process is inside. */
  lemma Alone(s: Table, p: int, q: int)
    requires KernelMachine.Inv(s.k) && Locking(s) && IsInside(s, p) && IsInside(s, q)
    ensures p == q
  {
    hide KernelMachine.Inv, Waiters;
    MutexProtocol(s.k, s.mutex);
    var h := s.k.Holders(s.mutex);
    assert p in h && q in h by {
      assert p in s.k.claims[s.mutex] && q in s.k.claims[s.mutex];
    }
    if p != q { Subset({p}, h, q); }
  }

  lemma AdvanceKernel(s: Table, number: int)
    requires Inv(s) && Allowed(s, Advance(number))
    ensures var n := Do(s, Advance(number));
            KernelMachine.Inv(n.k) && Locking(n)
    ensures var n := Do(s, Advance(number));
            && Queue(n) <= Queue(s) + (if JustLocked(n.pcs[s.k.Cur()]) then {s.k.Cur()} else {})
            && n.k.sched.nextPid == s.k.sched.nextPid
  {
    hide KernelMachine.Inv, KernelMachine.Allowed, After, Waiters, Fair, Where;
    Running(s.k);
    var p := s.k.Cur();
    var pc := s.pcs[p];
    var pc' := NextPc(s.moods, pc, s.seat[p]);
    if IsCall(pc) {
      MutexEffect(s.k, CallOf(s, pc, number), s.mutex);
      NextPidGrows(s.k, CallOf(s, pc, number));
    }
    Move(s.pcs, p, pc', Claiming);
    Move(s.pcs, p, pc', JustLocked);
    InRegion(s.pcs, p, Claiming);
  }

  lemma InRegion(pcs: map<int, Pc>, p: int, where: Pc -> bool)
    requires p in pcs
    ensures p in Where(pcs, where) <==> where(pcs[p])
  {
  }

  /** The instruction of a process that is not inside leaves the array alone. */
  lemma OutsideStep(m: Moods, pc: Pc, i: Seat)
    requires !Claiming(pc)
    ensures Memory(m, pc, i) == m
    ensures Idle(NextPc(m, pc, i)) <==> Idle(pc)
    ensures Claiming(NextPc(m, pc, i)) ==> JustLocked(NextPc(m, pc, i))
  {
  }

  lemma AtInside(s: Table, p: int)
    requires Fair'(s) && IsInside(s, p)
    requires forall q :: IsInside(s, q) ==> q == p
    ensures Exclusive(s.moods) && Tested(s.moods, s.pcs[p], s.seat[p]) && Covered(s.moods, Pending(s.pcs[p], s.seat[p]))
  {
  }

  ghost predicate Fair'(s: Table) {
    s.k.IsMutex(s.mutex) && Fair(s)
  }

  lemma InsideNext(m: Moods, pc: Pc, i: Seat)
    requires Claiming(pc)
    ensures !JustLocked(NextPc(m, pc, i))
  {
  }

  lemma JustLockedIsTested(m: Moods, pc: Pc, i: Seat)
    requires JustLocked(pc) || !Claiming(pc)
    ensures Tested(m, pc, i) && Pending(pc, i) == {}
  {
  }

  lemma AdvanceSeats(s: Table, number: int)
    requires Inv(s) && Allowed(s, Advance(number))
    requires var p := s.k.Cur();
             var m := Memory(s.moods, s.pcs[p], s.seat[p]);
             && (Idle(NextPc(s.moods, s.pcs[p], s.seat[p])) <==> m[s.seat[p]] == THINKING)
             && (forall j: Seat :: j != s.seat[p] ==> (s.moods[j] == THINKING <==> m[j] == THINKING))
    ensures Seated(Do(s, Advance(number)))
  {
    hide KernelMachine.Inv, KernelMachine.Allowed, After, Waiters, Where, Memory, NextPc, Locking, Idle, CallOf, IsCall, Fair;
    AdvanceKernel(s, number);
  }

  lemma AdvanceInside(s: Table, number: int)
    requires Inv(s) && Allowed(s, Advance(number)) && Claiming(s.pcs[s.k.Cur()])
    ensures var n := Do(s, Advance(number)); Seated(n) && Fair'(n)
  {
    hide KernelMachine.Inv, KernelMachine.Allowed, After, Waiters, Where, Memory, NextPc, Pending, Tested, Missed, Claiming,
      Exclusive, CallOf, IsCall, JustLocked, Seated;
    Running(s.k);
    AdvanceKernel(s, number);
    var p := s.k.Cur();
    var n := Do(s, Advance(number));
    Matching(s);
    forall q | IsInside(s, q) ensures q == p { Alone(s, p, q); }
    AtInside(s, p);
    InsideStep(s.moods, s.pcs[p], s.seat[p]);
    InsideNext(s.moods, s.pcs[p], s.seat[p]);
    AdvanceSeats(s, number);
    forall q | IsInside(n, q) ensures Tested(n.moods, n.pcs[q], n.seat[q]) {
      if q != p {
        InRegion(s.pcs, q, JustLocked);
        assert !IsInside(s, q);
        JustLockedIsTested(n.moods, n.pcs[q], n.seat[q]);
      }
    }
    forall i: Seat | Missed(n.moods, i) ensures IsInside(n, p) && i in Pending(n.pcs[p], n.seat[p]) { }
  }

  lemma Matching(s: Table)
    requires Seated(s)
    ensures s.pcs.Keys == s.seat.Keys
    ensures forall p :: p in s.seat ==> (Idle(s.pcs[p]) <==> s.moods[s.seat[p]] == THINKING)
  {
  }

  lemma AdvanceOutside(s: Table, number: int)
    requires Inv(s) && Allowed(s, Advance(number)) && !Claiming(s.pcs[s.k.Cur()])
    ensures var n := Do(s, Advance(number)); Seated(n) && Fair'(n)
  {
    hide KernelMachine.Inv, KernelMachine.Allowed, After, Waiters, Where, Memory, NextPc, Pending, Tested, Missed, Claiming,
      Exclusive, CallOf, IsCall, JustLocked;
    Running(s.k);
    AdvanceKernel(s, number);
    var p := s.k.Cur();
    var n := Do(s, Advance(number));
    OutsideStep(s.moods, s.pcs[p], s.seat[p]);
    AdvanceSeats(s, number);
    forall q | IsInside(n, q) ensures Tested(n.moods, n.pcs[q], n.seat[q]) {
      if q == p {
        JustLockedIsTested(n.moods, n.pcs[p], n.seat[p]);
      } else if q in Queue(s) {
        InRegion(s.pcs, q, JustLocked);
        JustLockedIsTested(n.moods, n.pcs[q], n.seat[q]);
      } else {
        assert IsInside(s, q);
      }
    }
    forall i: Seat | Missed(n.moods, i) ensures exists q :: IsInside(n, q) && i in Pending(n.pcs[q], n.seat[q]) {
      var q :| IsInside(s, q) && i in Pending(s.pcs[q], s.seat[q]);
      assert IsInside(n, q) && i in Pending(n.pcs[q], n.seat[q]);
    }
  }

  // ----- the other steps -----

  /** Fairness depends only on who is inside, on where they are, and on the array. */
  lemma SameFair(s: Table, n: Table)
    requires Fair'(s) && n.k.IsMutex(n.mutex) && n.moods == s.moods
    requires forall p :: IsInside(s, p) ==> IsInside(n, p)
    requires forall p :: IsInside(n, p) ==> p in s.pcs && p in s.seat && n.pcs[p] == s.pcs[p] && n.seat[p] == s.seat[p]
    requires forall p :: IsInside(n, p) ==> IsInside(s, p) || JustLocked(n.pcs[p])
    ensures Fair'(n)
  {
    hide Exclusive, Tested, Missed, Pending, Claiming, JustLocked, Waiters;
    forall q | IsInside(n, q) ensures Tested(n.moods, n.pcs[q], n.seat[q]) {
      if !IsInside(s, q) { JustLockedIsTested(n.moods, n.pcs[q], n.seat[q]); }
    }
    forall i: Seat | Missed(n.moods, i) ensures exists q :: IsInside(n, q) && i in Pending(n.pcs[q], n.seat[q]) {
      var q :| IsInside(s, q) && i in Pending(s.pcs[q], s.seat[q]);
      assert IsInside(n, q) && i in Pending(n.pcs[q], n.seat[q]);
    }
  }

  lemma BackgroundKeepsInv(s: Table, step: Step)
    requires Inv(s) && Allowed(s, Background(step))
    ensures Inv(Do(s, Background(step)))
  {
    hide KernelMachine.Inv, KernelMachine.Allowed, After, Waiters, Where, Fair, Claiming, JustLocked, Idle;
    MutexEffect(s.k, step, s.mutex);
    NextPidGrows(s.k, step);
    var n := Do(s, Background(step));
    forall p | IsInside(n, p) && !IsInside(s, p) ensures JustLocked(n.pcs[p]) {
      InRegion(s.pcs, p, JustLocked);
    }
    SameFair(s, n);
  }

  lemma SpawnKeepsInv(s: Table, seat: Seat)
    requires Inv(s) && Allowed(s, Spawn(seat))
    ensures Inv(Do(s, Spawn(seat)))
  {
    hide KernelMachine.Inv, KernelMachine.Allowed, After, Waiters, Where, Fair, Claiming, JustLocked, Idle;
    CanCreate(s.k);
    MutexEffect(s.k, CreateStep, s.mutex);
    NextPidGrows(s.k, CreateStep);
    var n := Do(s, Spawn(seat));
    var p := s.k.sched.nextPid;
    Resting(s.moods, seat);
    Join(s.pcs, p, Rest, Claiming);
    Join(s.pcs, p, Rest, JustLocked);
    forall q | IsInside(n, q) && !IsInside(s, q) ensures JustLocked(n.pcs[q]) {
      InRegion(s.pcs, q, JustLocked);
    }
    SameFair(s, n);
    assert Locking(n);
    forall i: Seat { NewSeat(s.seat, p, seat, i); }
  }

  lemma NewSeat(seats: map<int, Seat>, p: int, seat: Seat, i: Seat)
    requires p !in seats
    ensures Taken(seats[p := seat], i) <==> Taken(seats, i) || i == seat
  {
    var n := seats[p := seat];
    if Taken(seats, i) {
      var q :| q in seats && seats[q] == i;
      assert q in n && n[q] == i;
    }
    assert p in n && n[p] == seat;
  }

  lemma CanCreate(k: Kernel)
    requires KernelMachine.Inv(k)
    ensures KernelMachine.Allowed(k, CreateStep)
  {
  }

  lemma Resting(m: Moods, i: Seat)
    ensures !Claiming(Rest) && !JustLocked(Rest) && Idle(Rest)
  {
  }

  lemma ActKeepsInv(s: Table, act: Act)
    requires Inv(s) && Allowed(s, act)
    ensures Inv(Do(s, act))
  {
    hide Allowed, Do, KernelMachine.Inv, Locking, Seated, Fair;
    match act
    case Background(step) => BackgroundKeepsInv(s, step);
    case Spawn(seat) => SpawnKeepsInv(s, seat);
    case Advance(number) =>
      AdvanceKernel(s, number);
      ByKind(s, number);
  }

  lemma ByKind(s: Table, number: int)
    requires Inv(s) && Allowed(s, Advance(number))
    ensures var n := Do(s, Advance(number)); Seated(n) && Fair'(n)
  {
    hide KernelMachine.Inv, Do, Seated, Fair, Locking;
    Running(s.k);
    if Claiming(s.pcs[s.k.Cur()]) { AdvanceInside(s, number); } else { AdvanceOutside(s, number); }
  }

  // ----- whole runs -----

  /** `dPhilosphers` has created the mutex, and `state` starts with everybody THINKING. */
  ghost predicate Initial(s: Table) {
    && KernelMachine.Inv(s.k) && s.k.IsMutex(s.mutex) && s.mutex !in s.k.inner && s.k.claims[s.mutex] == {}
    && s.seat == map[] && s.pcs == map[]
    && (forall i: Seat :: s.moods[i] == THINKING)
  }

  lemma InitialInv(s: Table)
    requires Initial(s)
    ensures Inv(s)
  {
    hide KernelMachine.Inv, Waiters;
    MutexProtocol(s.k, s.mutex);
    assert Where(s.pcs, Claiming) == {} && Where(s.pcs, JustLocked) == {};
  }

  ghost predicate Legal(s: Table, acts: seq<Act>)
    requires Inv(s)
    decreases acts
  {
    acts == [] || (Allowed(s, acts[0]) && (ActKeepsInv(s, acts[0]); Legal(Do(s, acts[0]), acts[1..])))
  }

  ghost function Run(s: Table, acts: seq<Act>): (n: Table)
    requires Inv(s) && Legal(s, acts)
    ensures Inv(n)
    decreases acts
  {
    if acts == [] then s else ActKeepsInv(s, acts[0]); Run(Do(s, acts[0]), acts[1..])
  }

  /** After every run of up to five philosophers, among any other processes: two neighbours never
      both eat, whenever the mutex is free every hungry philosopher has an eating neighbour, and a philosopher
      is HUNGRY or EATING exactly from where it asks for its forks until it puts them down. */
  lemma Dinner(s: Table, acts: seq<Act>)
    requires Initial(s)
    ensures Inv(s)
    ensures Legal(s, acts) ==>
              var n := Run(s, acts);
              && n.k.IsMutex(n.mutex)
              && (forall i: Seat :: n.moods[i] == EATING ==> n.moods[Left(i)] != EATING && n.moods[Right(i)] != EATING)
              && (n.k.mutexes[n.mutex].mutex == 0 ==>
                    forall i: Seat :: n.moods[i] == HUNGRY ==> n.moods[Left(i)] == EATING || n.moods[Right(i)] == EATING)
              && n.pcs.Keys == n.seat.Keys
              && (forall p :: p in n.seat ==> (n.moods[n.seat[p]] == THINKING <==> Idle(n.pcs[p])))
  {
    InitialInv(s);
    if Legal(s, acts) {
      var n := Run(s, acts);
      Opposite(n.moods);
      if n.k.mutexes[n.mutex].mutex == 0 {
        FreeMissesNobody(n);
        forall i: Seat | n.moods[i] == HUNGRY ensures n.moods[Left(i)] == EATING || n.moods[Right(i)] == EATING {
          assert !Missed(n.moods, i);
        }
      }
    }
  }

  lemma Opposite(m: Moods)
    requires Exclusive(m)
    ensures forall i: Seat :: m[i] == EATING ==> m[Left(i)] != EATING && m[Right(i)] != EATING
  {
    forall i: Seat | m[i] == EATING ensures m[Left(i)] != EATING {
      assert Right(Left(i)) == i;
    }
  }

  lemma FreeMissesNobody(s: Table)
    requires Inv(s) && s.k.mutexes[s.mutex].mutex == 0
    ensures forall i: Seat :: !Missed(s.moods, i)
  {
    hide KernelMachine.Inv, Waiters, Seated, Exclusive, Missed, Tested, Pending;
    MutexProtocol(s.k, s.mutex);
    forall i: Seat | Missed(s.moods, i) ensures false {
      var p :| IsInside(s, p) && i in Pending(s.pcs[p], s.seat[p]);
      InRegion(s.pcs, p, Claiming);
    }
  }

  /** Philosophers keep to the rules of the kernel on their own: they free the mutex only when they
      hold it, lock it only when they do not, and never fill its queue, if there are no more of
      them than it has slots. */
  lemma CallsAreLegal(s: Table, number: int)
    requires Inv(s) && s.k.Cur() in s.pcs && s.k.Cur() != INIT_PID
    requires |s.pcs| <= |s.k.mutexes[s.mutex].queue|
    ensures var call := CallOf(s, s.pcs[s.k.Cur()], number);
            IsCall(s.pcs[s.k.Cur()]) && (call.LockStep? || call.FreeStep?) ==> KernelMachine.Allowed(s.k, call)
  {
    hide KernelMachine.Inv, Waiters, Seated, Fair;
    Running(s.k);
    var p := s.k.Cur();
    InRegion(s.pcs, p, Claiming);
    assert p !in Queue(s);
    assert Queue(s) <= s.pcs.Keys;
    Subset(Queue(s), s.pcs.Keys, p);
    MutexProtocol(s.k, s.mutex);
  }
}
