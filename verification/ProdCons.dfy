/**
 The producers and consumers of Userland/dummy/dummy.c, running on the kernel machine.

 A process may be preempted between any two of its instructions; `buffer[w] = c` and the update
 of `w` are separate instructions, and so are reading and writing `w` itself. Any number of
 producers and consumers can be started at any time, next to processes of other programs.
 */
module ProdCons {
  import opened Ring
  import opened BlockedQueue
  import opened KernelMachine
  import opened Programs

  /** What a process does next. Past a `wait`, the process may still be blocked in it. */
  datatype Pc =
    | PSleep | PMake | PWaitEmpty(item: int) | PWaitMutex(item: int) | PStore(item: int)
    | PLoadW | PStoreW(t: int) | PSignalMutex | PSignalFull
    | CSleep | CWaitFull | CWaitMutex | CLoad | CLoadR | CStoreR(t: int) | CSignalMutex | CSignalEmpty

  datatype Item = Item(pid: int, item: int)

  /** History: every item made, with its producer, and for every item ever stored which of those it is. */
  datatype Log = Log(made: seq<Item>, sources: seq<int>)

  datatype System = System(
    k: Kernel,
    pcs: map<int, Pc>,        // the producers and consumers
    itemMutex: int, emptyCount: int, fullCount: int,
    buffer: seq<int>, w: int, r: int,
    inserted: seq<int>,       // history: everything ever stored
    consumed: seq<int>,       // history: everything ever loaded
    log: Log)

  /** `insertItem` takes a char: an int is reduced to a signed byte. */
  function ToChar(item: int): (c: int)
    ensures -128 <= c < 128 && (item - c) % 256 == 0
  {
    (item + 128) % 256 - 128
  }

  // ----- where the processes are -----

  /** Has called wait(emptyCount) and not stored its item yet. */
  predicate Reserving(pc: Pc) { pc.PWaitMutex? || pc.PStore? }

  /** Has stored its item and not called signal(fullCount) yet. */
  predicate Stored(pc: Pc) { pc.PLoadW? || pc.PStoreW? || pc.PSignalMutex? || pc.PSignalFull? }

  /** Has called wait(fullCount) and not loaded an item yet. */
  predicate Taking(pc: Pc) { pc.CWaitMutex? || pc.CLoad? }

  /** Has loaded its item and not called signal(emptyCount) yet. */
  predicate Loaded(pc: Pc) { pc.CLoadR? || pc.CStoreR? || pc.CSignalMutex? || pc.CSignalEmpty? }

  /** Has called wait(itemMutex) and not signalled it yet. */
  predicate Critical(pc: Pc) {
    pc.PStore? || pc.PLoadW? || pc.PStoreW? || pc.PSignalMutex? || pc.CLoad? || pc.CLoadR? || pc.CStoreR? || pc.CSignalMutex?
  }

  predicate MovingW(pc: Pc) { pc.PLoadW? || pc.PStoreW? }
  predicate MovingR(pc: Pc) { pc.CLoadR? || pc.CStoreR? }

  ghost predicate HasSems(s: System) {
    && s.k.IsSem(s.itemMutex) && s.k.IsSem(s.emptyCount) && s.k.IsSem(s.fullCount)
    && s.itemMutex != s.emptyCount && s.itemMutex != s.fullCount && s.emptyCount != s.fullCount
  }

  function Value(s: System, i: int): int
    requires s.k.IsSem(i)
  {
    s.k.sems[i].semaphore
  }

  function WaitersAt(s: System, i: int): set<int>
    requires s.k.IsSem(i)
  {
    Waiters(s.k.sems[i].queue)
  }

  // ----- the invariant -----

  /** Each semaphore value is its supply minus the processes that took a unit. */
  ghost predicate Counts(s: System)
    requires HasSems(s)
  {
    && Value(s, s.itemMutex) == 1 - |Where(s.pcs, Critical)|
    && Value(s, s.emptyCount) == |s.buffer| - |s.inserted| - |Where(s.pcs, Reserving)| + |s.consumed| - |Where(s.pcs, Loaded)|
    && Value(s, s.fullCount) == |s.inserted| - |Where(s.pcs, Stored)| - |s.consumed| - |Where(s.pcs, Taking)|
  }

  predicate AfterEmpty(pc: Pc) { pc.PWaitMutex? }
  predicate AfterFull(pc: Pc) { pc.CWaitMutex? }
  predicate AfterMutex(pc: Pc) { pc.PStore? || pc.CLoad? }

  /** Who is queued at a semaphore is about to return from that very call. */
  ghost predicate Waits(s: System)
    requires HasSems(s)
  {
    && WaitersAt(s, s.emptyCount) <= Where(s.pcs, AfterEmpty)
    && WaitersAt(s, s.fullCount) <= Where(s.pcs, AfterFull)
    && WaitersAt(s, s.itemMutex) <= Where(s.pcs, AfterMutex)
  }

  /** The indices follow the histories; the process that is updating one is one step behind. */
  ghost predicate Indices(s: System)
    requires s.buffer != []
  {
    var n := |s.buffer|;
    && 0 <= s.w < n && 0 <= s.r < n
    && s.w == (|s.inserted| - |Where(s.pcs, MovingW)|) % n
    && s.r == (|s.consumed| - |Where(s.pcs, MovingR)|) % n
    && (forall p :: p in s.pcs && s.pcs[p].PStoreW? ==> s.pcs[p].t == s.w)
    && (forall p :: p in s.pcs && s.pcs[p].CStoreR? ==> s.pcs[p].t == s.r)
  }

  ghost predicate Contents(s: System)
    requires s.buffer != []
  {
    && s.consumed <= s.inserted
    && forall j :: |s.consumed| <= j < |s.inserted| ==> s.buffer[j % |s.buffer|] == s.inserted[j]
  }

  ghost predicate Inv(s: System) {
    && KernelMachine.Inv(s.k) && HasSems(s) && s.buffer != []
    && (forall p :: p in s.pcs ==> p in s.k.Processes())
    && Counts(s) && Waits(s) && Indices(s) && Contents(s)
  }

  // ----- the steps -----

  datatype Act =
    | Background(step: Step)        // a tick, or a call of a process of another program
    | SpawnProducer | SpawnConsumer // another process starts one
    | Advance(item: int)            // the next instruction of the current process; `item` is what it makes

  /** The kernel call that an instruction makes. */
  function CallOf(s: System, pc: Pc, time: int): Step {
    match pc
    case PSleep => SleepStep(time)
    case CSleep => SleepStep(time)
    case PWaitEmpty(_) => WaitStep(s.emptyCount)
    case CWaitFull => WaitStep(s.fullCount)
    case PWaitMutex(_) => WaitStep(s.itemMutex)
    case CWaitMutex => WaitStep(s.itemMutex)
    case PSignalMutex => SignalStep(s.itemMutex)
    case CSignalMutex => SignalStep(s.itemMutex)
    case PSignalFull => SignalStep(s.fullCount)
    case CSignalEmpty => SignalStep(s.emptyCount)
    case _ => YieldStep
  }

  predicate IsCall(pc: Pc) {
    !(pc.PMake? || pc.PStore? || pc.PLoadW? || pc.PStoreW? || pc.CLoad? || pc.CLoadR? || pc.CStoreR?)
  }

  predicate Mentions(s: System, step: Step) {
    match step
    case WaitStep(i) => i == s.itemMutex || i == s.emptyCount || i == s.fullCount
    case SignalStep(i) => i == s.itemMutex || i == s.emptyCount || i == s.fullCount
    case KillStep(p) => p in s.pcs
    case _ => false
  }

  ghost predicate Allowed(s: System, act: Act)
    requires Inv(s)
  {
    var cur := s.k.Cur();
    match act
    case Background(step) =>
      KernelMachine.Allowed(s.k, step) && !Mentions(s, step) && (cur in s.pcs ==> step.TickStep?)
    case Advance(item) =>
      cur in s.pcs && (IsCall(s.pcs[cur]) ==> KernelMachine.Allowed(s.k, CallOf(s, s.pcs[cur], item)))
    case _ => cur !in s.pcs
  }

  function NextPc(s: System, pc: Pc, item: int): Pc {
    match pc
    case PSleep => PMake
    case PMake => PWaitEmpty(item)
    case PWaitEmpty(x) => PWaitMutex(x)
    case PWaitMutex(x) => PStore(x)
    case PStore(_) => PLoadW
    case PLoadW => PStoreW(s.w)
    case PStoreW(_) => PSignalMutex
    case PSignalMutex => PSignalFull
    case PSignalFull => PSleep
    case CSleep => CWaitFull
    case CWaitFull => CWaitMutex
    case CWaitMutex => CLoad
    case CLoad => CLoadR
    case CLoadR => CStoreR(s.r)
    case CStoreR(_) => CSignalMutex
    case CSignalMutex => CSignalEmpty
    case CSignalEmpty => CSleep
  }

  /** What an instruction does to the shared variables. */
  function Memory(s: System, pc: Pc): System
    requires 0 <= s.w < |s.buffer| && 0 <= s.r < |s.buffer|
  {
    match pc
    case PStore(item) => s.(buffer := s.buffer[s.w := ToChar(item)], inserted := s.inserted + [ToChar(item)])
    case PStoreW(t) => s.(w := (t + 1) % |s.buffer|)
    case CLoad => s.(consumed := s.consumed + [s.buffer[s.r]])
    case CStoreR(t) => s.(r := (t + 1) % |s.buffer|)
    case _ => s
  }

  /** Which item `p` made last, or -1. */
  function LastMade(made: seq<Item>, p: int): (i: int)
    ensures -1 <= i < |made|
    ensures i >= 0 ==> made[i].pid == p
    ensures forall j :: i < j < |made| ==> made[j].pid != p
  {
    var last := |made| - 1;
    if made == [] || made[last].pid == p then last else LastMade(made[..last], p)
  }

  /** `p` makes an item, or stores one. */
  function Logged(log: Log, p: int, pc: Pc, item: int): Log {
    match pc
    case PMake => log.(made := log.made + [Item(p, item)])
    case PStore(_) => log.(sources := log.sources + [LastMade(log.made, p)])
    case _ => log
  }

  ghost function Do(s: System, act: Act): System
    requires Inv(s) && Allowed(s, act)
  {
    match act
    case Background(step) => s.(k := After(s.k, step))
    case SpawnProducer => s.(k := After(s.k, CreateStep), pcs := s.pcs[s.k.sched.nextPid := PSleep])
    case SpawnConsumer => s.(k := After(s.k, CreateStep), pcs := s.pcs[s.k.sched.nextPid := CSleep])
    case Advance(item) =>
      var p := s.k.Cur();
      var pc := s.pcs[p];
      Memory(s, pc).(
        k := if IsCall(pc) then After(s.k, CallOf(s, pc, item)) else s.k,
        pcs := s.pcs[p := NextPc(s, pc, item)],
        log := Logged(s.log, p, pc, item))
  }

  // ----- every step keeps the invariant -----

  /** What the next instruction does to each semaphore value. */
  function DeltaMutex(pc: Pc): int { Ind(pc.PSignalMutex? || pc.CSignalMutex?) - Ind(pc.PWaitMutex? || pc.CWaitMutex?) }
  function DeltaEmpty(pc: Pc): int { Ind(pc.CSignalEmpty?) - Ind(pc.PWaitEmpty?) }
  function DeltaFull(pc: Pc): int { Ind(pc.PSignalFull?) - Ind(pc.CWaitFull?) }

  /** Every instruction keeps the books: what it does to a semaphore value is what it does to
      the regions and histories on the other side of the equation. */
  lemma Balance(s: System, pc: Pc, item: int)
    ensures var pc' := NextPc(s, pc, item);
            && DeltaMutex(pc) == -Gain(Critical, pc, pc')
            && DeltaEmpty(pc) == -Ind(pc.PStore?) - Gain(Reserving, pc, pc') + Ind(pc.CLoad?) - Gain(Loaded, pc, pc')
            && DeltaFull(pc) == Ind(pc.PStore?) - Gain(Stored, pc, pc') - Ind(pc.CLoad?) - Gain(Taking, pc, pc')
            && Gain(MovingW, pc, pc') == Ind(pc.PStore?) - Ind(pc.PStoreW?)
            && Gain(MovingR, pc, pc') == Ind(pc.CLoad?) - Ind(pc.CStoreR?)
            && (AfterMutex(pc') <==> DeltaMutex(pc) == -1)
            && (AfterEmpty(pc') <==> DeltaEmpty(pc) == -1)
            && (AfterFull(pc') <==> DeltaFull(pc) == -1)
  {
  }

  lemma NowRunning(s: System)
    requires Inv(s)
    ensures s.k.sched.ring != [] && s.k.Cur() in s.k.Processes()
    ensures forall i :: s.k.IsSem(i) ==> s.k.Cur() !in WaitersAt(s, i)
  {
    InvAt(s.k, 0);
    CurIsRunnable(s.k);
    forall i | s.k.IsSem(i) ensures s.k.Cur() !in WaitersAt(s, i) { InvAt(s.k, i); }
  }

  /** The processes past their wait on itemMutex: at most one is not queued there. */
  lemma Alone(s: System)
    requires Inv(s)
    ensures |Where(s.pcs, Critical) - WaitersAt(s, s.itemMutex)| <= 1
  {
    hide KernelMachine.Inv, Indices, Contents, Waiters;
    SemaphoreAccounting(s.k, s.itemMutex);
    var c := Where(s.pcs, Critical);
    var q := WaitersAt(s, s.itemMutex);
    forall x | x in q ensures x in c { assert AfterMutex(s.pcs[x]); }
    Difference(c, q);
  }

  /** A process that is inside is the only one: no other process touches buffer or indices. */
  lemma OnlyMe(s: System, p: int)
    requires Inv(s) && p in s.pcs && Critical(s.pcs[p]) && p !in WaitersAt(s, s.itemMutex)
    ensures forall q :: q in s.pcs && Critical(s.pcs[q]) && q !in WaitersAt(s, s.itemMutex) ==> q == p
  {
    hide KernelMachine.Inv, Indices, Contents, Counts, Waits, Waiters;
    Alone(s);
    var inside := Where(s.pcs, Critical) - WaitersAt(s, s.itemMutex);
    assert p in inside;
    Difference(inside, {p});
    assert inside - {p} == {};
    forall q | q in s.pcs && Critical(s.pcs[q]) && q !in WaitersAt(s, s.itemMutex) ensures q == p {
      assert q in inside;
    }
  }

  lemma NotQueued(s: System, q: int)
    requires HasSems(s) && Waits(s) && q in s.pcs && !AfterMutex(s.pcs[q])
    ensures q !in WaitersAt(s, s.itemMutex)
  {
    assert q !in Where(s.pcs, AfterMutex);
  }

  lemma Inside(s: System)
    requires Inv(s) && s.k.sched.ring != [] && s.k.Cur() in s.pcs && Critical(s.pcs[s.k.Cur()])
    ensures forall q :: q in s.pcs && (MovingW(s.pcs[q]) || MovingR(s.pcs[q])) ==> q == s.k.Cur()
    ensures |Where(s.pcs, MovingW)| == Ind(MovingW(s.pcs[s.k.Cur()]))
    ensures |Where(s.pcs, MovingR)| == Ind(MovingR(s.pcs[s.k.Cur()]))
  {
    hide KernelMachine.Inv, Contents, Counts, Indices, Waiters, Pids;
    var p := s.k.Cur();
    NowRunning(s);
    OnlyMe(s, p);
    forall q | q in s.pcs && (MovingW(s.pcs[q]) || MovingR(s.pcs[q])) ensures q == p {
      NotQueued(s, q);
    }
    OneIn(s.pcs, MovingW, p);
    OneIn(s.pcs, MovingR, p);
  }

  /** When a process stores, a cell is free; when one loads, an item is there. */
  lemma Room(s: System)
    requires Inv(s)
    ensures s.k.sched.ring != []
    ensures |s.inserted| - |s.consumed| <= |s.buffer|
    ensures s.k.Cur() in s.pcs && Reserving(s.pcs[s.k.Cur()]) ==> |s.inserted| - |s.consumed| < |s.buffer|
    ensures s.k.Cur() in s.pcs && Taking(s.pcs[s.k.Cur()]) ==> |s.consumed| < |s.inserted|
  {
    hide KernelMachine.Inv, Contents, Indices, Waiters, Pids;
    NowRunning(s);
    SemaphoreAccounting(s.k, s.emptyCount);
    SemaphoreAccounting(s.k, s.fullCount);
    Subset(WaitersAt(s, s.emptyCount), Where(s.pcs, Reserving), s.k.Cur());
    Subset(WaitersAt(s, s.fullCount), Where(s.pcs, Taking), s.k.Cur());
  }

  lemma AdvanceKernel(s: System, item: int)
    requires Inv(s) && Allowed(s, Advance(item))
    ensures s.k.sched.ring != []
    ensures var n := Do(s, Advance(item));
            var pc := s.pcs[s.k.Cur()];
            && KernelMachine.Inv(n.k) && HasSems(n) && n.k.Processes() == s.k.Processes()
            && n.pcs == s.pcs[s.k.Cur() := NextPc(s, pc, item)]
            && n.itemMutex == s.itemMutex && n.emptyCount == s.emptyCount && n.fullCount == s.fullCount
            && Value(n, s.itemMutex) == Value(s, s.itemMutex) + DeltaMutex(pc)
            && Value(n, s.emptyCount) == Value(s, s.emptyCount) + DeltaEmpty(pc)
            && Value(n, s.fullCount) == Value(s, s.fullCount) + DeltaFull(pc)
            && WaitersAt(n, s.itemMutex) <= WaitersAt(s, s.itemMutex) + (if DeltaMutex(pc) == -1 then {s.k.Cur()} else {})
            && WaitersAt(n, s.emptyCount) <= WaitersAt(s, s.emptyCount) + (if DeltaEmpty(pc) == -1 then {s.k.Cur()} else {})
            && WaitersAt(n, s.fullCount) <= WaitersAt(s, s.fullCount) + (if DeltaFull(pc) == -1 then {s.k.Cur()} else {})
  {
    hide KernelMachine.Inv, Indices, Contents, Counts, Waits, Waiters, After, KernelMachine.Allowed, Pids, NextPc;
    NowRunning(s);
    var pc := s.pcs[s.k.Cur()];
    if IsCall(pc) {
      var step := CallOf(s, pc, item);
      SemEffect(s.k, step, s.itemMutex);
      SemEffect(s.k, step, s.emptyCount);
      SemEffect(s.k, step, s.fullCount);
      StepProcesses(s.k, step);
    }
  }

  lemma AdvanceCounts(s: System, item: int)
    requires Inv(s) && Allowed(s, Advance(item))
    ensures HasSems(Do(s, Advance(item))) && Counts(Do(s, Advance(item)))
  {
    hide KernelMachine.Inv, Contents, Waits, Waiters, After, KernelMachine.Allowed, Pids, Where, NextPc, CallOf, IsCall,
      DeltaMutex, DeltaEmpty, DeltaFull, Gain, Value;
    AdvanceKernel(s, item);
    var p := s.k.Cur();
    var pc := NextPc(s, s.pcs[p], item);
    Balance(s, s.pcs[p], item);
    MoveOne(s.pcs, p, pc, Critical);
    MoveOne(s.pcs, p, pc, Reserving);
    MoveOne(s.pcs, p, pc, Stored);
    MoveOne(s.pcs, p, pc, Taking);
    MoveOne(s.pcs, p, pc, Loaded);
  }

  lemma AdvanceWaits(s: System, item: int)
    requires Inv(s) && Allowed(s, Advance(item))
    ensures HasSems(Do(s, Advance(item))) && Waits(Do(s, Advance(item)))
  {
    hide KernelMachine.Inv, Contents, Counts, Indices, Waiters, After, KernelMachine.Allowed, Pids, Where, NextPc, CallOf, IsCall,
      DeltaMutex, DeltaEmpty, DeltaFull, Gain, Value, WaitersAt, AfterEmpty, AfterFull, AfterMutex, Do;
    AdvanceKernel(s, item);
    NowRunning(s);
    var p := s.k.Cur();
    var pc := NextPc(s, s.pcs[p], item);
    Balance(s, s.pcs[p], item);
    MoveOne(s.pcs, p, pc, AfterEmpty);
    MoveOne(s.pcs, p, pc, AfterFull);
    MoveOne(s.pcs, p, pc, AfterMutex);
    var n := Do(s, Advance(item));
    Follow(WaitersAt(s, s.emptyCount), WaitersAt(n, s.emptyCount), Where(s.pcs, AfterEmpty), Where(n.pcs, AfterEmpty), p);
    Follow(WaitersAt(s, s.fullCount), WaitersAt(n, s.fullCount), Where(s.pcs, AfterFull), Where(n.pcs, AfterFull), p);
    Follow(WaitersAt(s, s.itemMutex), WaitersAt(n, s.itemMutex), Where(s.pcs, AfterMutex), Where(n.pcs, AfterMutex), p);
  }

  lemma ModNext(a: int, n: int)
    requires n > 0
    ensures (a % n + 1) % n == (a + 1) % n
  {
    var q := a / n;
    var x := a % n;
    assert a == q * n + x;
    if x + 1 < n {
      ModIs(a + 1, q, x + 1, n);
      ModIs(x + 1, 0, x + 1, n);
    } else {
      OneMore(q, n);
      ModIs(a + 1, q + 1, 0, n);
      ModIs(n, 1, 0, n);
    }
  }

  lemma OneMore(q: int, n: int)
    ensures (q + 1) * n == q * n + n
  {
  }

  lemma ModIs(a: int, q: int, x: int, n: int)
    requires n > 0 && a == q * n + x && 0 <= x < n
    ensures a % n == x
  {
    var d := a / n - q;
    assert d * n == x - a % n;
    assert d == 0 by {
      assert d > 0 ==> d * n >= n;
      assert d < 0 ==> d * n <= -n;
    }
  }

  /** Cells less than one lap apart are different. */
  lemma ModDistinct(i: int, j: int, n: int)
    requires n > 0 && 0 < i - j < n
    ensures i % n != j % n
  {
    var d := i / n - j / n;
    assert i - j == d * n + (i % n - j % n);
    assert d > 0 ==> d * n >= n;
    assert d <= 0 ==> d * n <= 0;
  }

  lemma AdvanceIndices(s: System, item: int)
    requires Inv(s) && Allowed(s, Advance(item))
    ensures Indices(Do(s, Advance(item)))
  {
    hide KernelMachine.Inv, Contents, Counts, Waits, Waiters, After, KernelMachine.Allowed, Pids, Where, CallOf, IsCall,
      DeltaMutex, DeltaEmpty, DeltaFull, Gain;
    NowRunning(s);
    var p := s.k.Cur();
    var pc := NextPc(s, s.pcs[p], item);
    Balance(s, s.pcs[p], item);
    MoveOne(s.pcs, p, pc, MovingW);
    MoveOne(s.pcs, p, pc, MovingR);
    if Critical(s.pcs[p]) { Inside(s); }
    ModNext(|s.inserted| - 1, |s.buffer|);
    ModNext(|s.consumed| - 1, |s.buffer|);
  }

  lemma AdvanceContents(s: System, item: int)
    requires Inv(s) && Allowed(s, Advance(item))
    ensures Do(s, Advance(item)).buffer != [] && Contents(Do(s, Advance(item)))
  {
    hide KernelMachine.Inv, Counts, Waits, Waiters, After, KernelMachine.Allowed, Pids, Where, CallOf, IsCall;
    NowRunning(s);
    Room(s);
    if Critical(s.pcs[s.k.Cur()]) { Inside(s); }
    if s.pcs[s.k.Cur()].PStore? {
      forall j | |s.consumed| <= j < |s.inserted| ensures j % |s.buffer| != s.w {
        ModDistinct(|s.inserted|, j, |s.buffer|);
      }
    }
  }

  lemma AdvanceKeepsInv(s: System, item: int)
    requires Inv(s) && Allowed(s, Advance(item))
    ensures Inv(Do(s, Advance(item)))
  {
    hide KernelMachine.Inv, Contents, Counts, Waits, Indices, Waiters, After, KernelMachine.Allowed, Pids, CallOf, IsCall,
      Do, Allowed, NextPc;
    NowRunning(s);
    AdvanceKernel(s, item);
    AdvanceCounts(s, item);
    AdvanceWaits(s, item);
    AdvanceIndices(s, item);
    AdvanceContents(s, item);
  }

  lemma BackgroundKeepsInv(s: System, step: Step)
    requires Inv(s) && Allowed(s, Background(step))
    ensures Inv(Do(s, Background(step)))
  {
    hide KernelMachine.Inv, Contents, Indices, Waiters, After, KernelMachine.Allowed, Pids, Where;
    NowRunning(s);
    SemEffect(s.k, step, s.itemMutex);
    SemEffect(s.k, step, s.emptyCount);
    SemEffect(s.k, step, s.fullCount);
    StepProcesses(s.k, step);
    SameMemory(s, s.(k := After(s.k, step)));
  }

  lemma SameMemory(s: System, n: System)
    requires s.buffer != [] && Indices(s) && Contents(s)
    requires n.buffer == s.buffer && n.w == s.w && n.r == s.r && n.inserted == s.inserted && n.consumed == s.consumed
    requires |Where(n.pcs, MovingW)| == |Where(s.pcs, MovingW)| && |Where(n.pcs, MovingR)| == |Where(s.pcs, MovingR)|
    requires forall p :: p in n.pcs && (n.pcs[p].PStoreW? || n.pcs[p].CStoreR?) ==> p in s.pcs && n.pcs[p] == s.pcs[p]
    ensures Indices(n) && Contents(n)
  {
  }

  lemma SpawnKeepsInv(s: System, pc: Pc)
    requires Inv(s) && (pc == PSleep || pc == CSleep)
    ensures Inv(s.(k := After(s.k, CreateStep), pcs := s.pcs[s.k.sched.nextPid := pc]))
  {
    hide KernelMachine.Inv, Contents, Indices, Waiters, After, KernelMachine.Allowed, Pids, Where;
    NowRunning(s);
    var p := s.k.sched.nextPid;
    FreshPid(s.k);
    SemEffect(s.k, CreateStep, s.itemMutex);
    SemEffect(s.k, CreateStep, s.emptyCount);
    SemEffect(s.k, CreateStep, s.fullCount);
    StepProcesses(s.k, CreateStep);
    Join(s.pcs, p, pc, Critical);
    Join(s.pcs, p, pc, Reserving);
    Join(s.pcs, p, pc, Stored);
    Join(s.pcs, p, pc, Taking);
    Join(s.pcs, p, pc, Loaded);
    Join(s.pcs, p, pc, AfterEmpty);
    Join(s.pcs, p, pc, AfterFull);
    Join(s.pcs, p, pc, AfterMutex);
    Join(s.pcs, p, pc, MovingW);
    Join(s.pcs, p, pc, MovingR);
    SameMemory(s, s.(k := After(s.k, CreateStep), pcs := s.pcs[p := pc]));
  }

  lemma FreshPid(k: Kernel)
    requires KernelMachine.Inv(k)
    ensures k.sched.nextPid !in k.Processes() && KernelMachine.Allowed(k, CreateStep)
  {
  }

  /** Every step keeps the invariant. */
  lemma ActKeepsInv(s: System, act: Act)
    requires Inv(s) && Allowed(s, act)
    ensures Inv(Do(s, act))
  {
    hide Inv, Allowed;
    match act
    case Background(step) => BackgroundKeepsInv(s, step);
    case SpawnProducer => SpawnKeepsInv(s, PSleep);
    case SpawnConsumer => SpawnKeepsInv(s, CSleep);
    case Advance(item) => AdvanceKeepsInv(s, item);
  }

  // ----- whole runs -----

  /** `prodCons` has created its semaphores and no producer or consumer yet. */
  ghost predicate Initial(s: System) {
    && KernelMachine.Inv(s.k) && HasSems(s) && s.buffer != []
    && Value(s, s.itemMutex) == 1 && Value(s, s.fullCount) == 0 && Value(s, s.emptyCount) == |s.buffer|
    && s.pcs == map[] && s.w == 0 && s.r == 0 && s.inserted == [] && s.consumed == []
    && s.log == Log([], [])
  }

  lemma InitialInv(s: System)
    requires Initial(s)
    ensures Inv(s)
  {
    hide KernelMachine.Inv, Waiters;
    SemaphoreAccounting(s.k, s.itemMutex);
    SemaphoreAccounting(s.k, s.emptyCount);
    SemaphoreAccounting(s.k, s.fullCount);
    assert forall where: Pc -> bool :: Where(s.pcs, where) == {};
  }

  ghost predicate Legal(s: System, acts: seq<Act>)
    requires Inv(s)
    decreases acts
  {
    acts == [] || (Allowed(s, acts[0]) && (ActKeepsInv(s, acts[0]); Legal(Do(s, acts[0]), acts[1..])))
  }

  ghost function Run(s: System, acts: seq<Act>): (n: System)
    requires Inv(s) && Legal(s, acts)
    ensures Inv(n)
    decreases acts
  {
    if acts == [] then s else ActKeepsInv(s, acts[0]); Run(Do(s, acts[0]), acts[1..])
  }

  function Max0(x: int): int { if x > 0 then x else 0 }

  /** The processes that hold a cell: past a wait on emptyCount or fullCount that has returned,
      and not yet past the matching signal. */
  ghost function InFlight(s: System): set<int>
    requires HasSems(s)
  {
    (Where(s.pcs, Reserving) - WaitersAt(s, s.emptyCount)) + Where(s.pcs, Stored)
    + (Where(s.pcs, Taking) - WaitersAt(s, s.fullCount)) + Where(s.pcs, Loaded)
  }

  /** After every run from the start, with any number of producers and consumers: what was
      consumed is a prefix of what was inserted, the buffer neither overflows nor underflows, at
      most one process is past its wait on itemMutex, and cells are never lost or invented. */
  lemma Safety(s: System, acts: seq<Act>)
    requires Initial(s)
    ensures Inv(s)
    ensures Legal(s, acts) ==>
              var n := Run(s, acts);
              && HasSems(n) && n.consumed <= n.inserted
              && |n.inserted| - |n.consumed| <= |n.buffer|
              && |Where(n.pcs, Critical) - WaitersAt(n, n.itemMutex)| <= 1
              && Max0(Value(n, n.emptyCount)) + Max0(Value(n, n.fullCount)) + |InFlight(n)| == |n.buffer|
  {
    InitialInv(s);
    if Legal(s, acts) {
      var n := Run(s, acts);
      Room(n);
      Alone(n);
      Conservation(n);
    }
  }

  // ----- from producer to consumer -----

  /** Has made an item and not stored it yet. */
  predicate Holding(pc: Pc) { pc.PWaitEmpty? || pc.PWaitMutex? || pc.PStore? }

  predicate IsHeld(s: System, i: int)
    requires 0 <= i < |s.log.made|
  {
    var p := s.log.made[i].pid;
    p in s.pcs && Holding(s.pcs[p]) && LastMade(s.log.made, p) == i
  }

  /** What was stored at `j` is an item that was made, as a char. */
  predicate ComesFrom(s: System, j: int)
    requires 0 <= j < |s.inserted|
  {
    && j < |s.log.sources| && 0 <= s.log.sources[j] < |s.log.made|
    && s.inserted[j] == ToChar(s.log.made[s.log.sources[j]].item)
  }

  /** `p` carries the item it made last, and has not stored it before. */
  predicate Carries(s: System, p: int)
    requires p in s.pcs && Holding(s.pcs[p])
  {
    var i := LastMade(s.log.made, p);
    i >= 0 && s.pcs[p].item == s.log.made[i].item && i !in s.log.sources
  }

  /** Items of the same producer are stored in the order in which they were made, and once. */
  predicate InOrder(log: Log) {
    forall i, j ::
      && 0 <= i < j < |log.sources| && 0 <= log.sources[i] < |log.made| && 0 <= log.sources[j] < |log.made|
      && log.made[log.sources[i]].pid == log.made[log.sources[j]].pid
      ==> log.sources[i] < log.sources[j]
  }

  ghost predicate Origins(s: System) {
    && |s.log.sources| == |s.inserted|
    && (forall j :: 0 <= j < |s.inserted| ==> ComesFrom(s, j))
    && (forall p :: p in s.pcs && Holding(s.pcs[p]) ==> Carries(s, p))
    && (forall i :: 0 <= i < |s.log.made| ==> i in s.log.sources || IsHeld(s, i))
    && InOrder(s.log)
  }

  lemma MakeKeepsOrigins(s: System, n: System, p: int, item: int)
    requires Origins(s) && p in s.pcs && s.pcs[p] == PMake
    requires n.pcs == s.pcs[p := PWaitEmpty(item)] && n.inserted == s.inserted
    requires n.log == s.log.(made := s.log.made + [Item(p, item)])
    ensures Origins(n)
  {
    forall j | 0 <= j < |n.inserted| ensures ComesFrom(n, j) && n.log.sources[j] < |s.log.made| { assert ComesFrom(s, j); }
    forall q | q in n.pcs && Holding(n.pcs[q]) ensures Carries(n, q) {
      if q != p { assert Carries(s, q); }
    }
    forall i | 0 <= i < |n.log.made| ensures i in n.log.sources || IsHeld(n, i) {
      if i < |s.log.made| { assert i in s.log.sources || IsHeld(s, i); }
    }
  }

  lemma StoreKeepsOrigins(s: System, n: System, p: int)
    requires Origins(s) && p in s.pcs && s.pcs[p].PStore?
    requires n.pcs == s.pcs[p := PLoadW] && n.inserted == s.inserted + [ToChar(s.pcs[p].item)]
    requires n.log == s.log.(sources := s.log.sources + [LastMade(s.log.made, p)])
    ensures Origins(n)
  {
    assert Carries(s, p);
    forall q | q in n.pcs && Holding(n.pcs[q]) ensures Carries(n, q) {
      assert Carries(s, q);
    }
    forall j | 0 <= j < |n.inserted| ensures ComesFrom(n, j) {
      if j < |s.inserted| { assert ComesFrom(s, j); }
    }
    forall i | 0 <= i < |n.log.made| ensures i in n.log.sources || IsHeld(n, i) {
      assert i in s.log.sources || IsHeld(s, i);
    }
  }

  lemma OtherKeepsOrigins(s: System, n: System, p: int)
    requires Origins(s) && (p in s.pcs ==> !s.pcs[p].PStore?)
    requires p in n.pcs && n.pcs == s.pcs[p := n.pcs[p]] && n.inserted == s.inserted && n.log == s.log
    requires if p in s.pcs && Holding(s.pcs[p]) then Holding(n.pcs[p]) && n.pcs[p].item == s.pcs[p].item else !Holding(n.pcs[p])
    ensures Origins(n)
  {
    forall q | q in n.pcs && Holding(n.pcs[q]) ensures Carries(n, q) { assert Carries(s, q); }
    forall j | 0 <= j < |n.inserted| ensures ComesFrom(n, j) { assert ComesFrom(s, j); }
    forall i | 0 <= i < |n.log.made| ensures i in n.log.sources || IsHeld(n, i) {
      assert i in s.log.sources || IsHeld(s, i);
    }
  }

  lemma ActKeepsOrigins(s: System, act: Act)
    requires Inv(s) && Allowed(s, act) && Origins(s)
    ensures Origins(Do(s, act))
  {
    hide KernelMachine.Inv, Contents, Counts, Waits, Indices, After, KernelMachine.Allowed, Pids, Origins;
    NowRunning(s);
    var n := Do(s, act);
    match act {
      case Background(_) => SameOrigins(s, n);
      case Advance(item) =>
        var p := s.k.Cur();
        match s.pcs[p] {
          case PMake => MakeKeepsOrigins(s, n, p, item);
          case PStore(_) => StoreKeepsOrigins(s, n, p);
          case _ => OtherKeepsOrigins(s, n, p);
        }
      case _ =>
        FreshPid(s.k);
        OtherKeepsOrigins(s, n, s.k.sched.nextPid);
    }
  }

  lemma SameOrigins(s: System, n: System)
    requires Origins(s) && n.pcs == s.pcs && n.inserted == s.inserted && n.log == s.log
    ensures Origins(n)
  {
    forall q | q in n.pcs && Holding(n.pcs[q]) ensures Carries(n, q) { assert Carries(s, q); }
    forall j | 0 <= j < |n.inserted| ensures ComesFrom(n, j) { assert ComesFrom(s, j); }
    forall i | 0 <= i < |n.log.made| ensures i in n.log.sources || IsHeld(n, i) {
      assert i in s.log.sources || IsHeld(s, i);
    }
  }

  lemma {:induction false} RunKeepsOrigins(s: System, acts: seq<Act>)
    requires Inv(s) && Legal(s, acts) && Origins(s)
    ensures Origins(Run(s, acts))
    decreases acts
  {
    hide Inv, Allowed, Origins, Do;
    if acts != [] {
      ActKeepsInv(s, acts[0]);
      ActKeepsOrigins(s, acts[0]);
      RunKeepsOrigins(Do(s, acts[0]), acts[1..]);
    }
  }

  /** After every run from the start: every item consumed is the char of an item that its producer made, no item
      is stored twice, a producer's items are consumed in the order in which it made them, and every item made has been
      stored or is still carried by its producer. */
  lemma EndToEnd(s: System, acts: seq<Act>)
    requires Initial(s)
    ensures Inv(s)
    ensures Legal(s, acts) ==>
              var n := Run(s, acts);
              var made, sources := n.log.made, n.log.sources;
              && |n.consumed| <= |sources| == |n.inserted|
              && (forall j :: 0 <= j < |n.consumed| ==>
                    0 <= sources[j] < |made| && n.consumed[j] == ToChar(made[sources[j]].item))
              && (forall i, j :: 0 <= i < j < |sources| ==> sources[i] != sources[j])
              && (forall i, j :: 0 <= i < j < |n.consumed| && made[sources[i]].pid == made[sources[j]].pid ==>
                    sources[i] < sources[j])
              && (forall i :: 0 <= i < |made| ==> i in sources || IsHeld(n, i))
  {
    hide KernelMachine.Inv, Allowed, Do, Counts, Waits, Indices;
    InitialInv(s);
    if Legal(s, acts) {
      RunKeepsOrigins(s, acts);
      var n := Run(s, acts);
      forall j | 0 <= j < |n.consumed|
        ensures 0 <= n.log.sources[j] < |n.log.made| && n.consumed[j] == ToChar(n.log.made[n.log.sources[j]].item)
      {
        assert ComesFrom(n, j) && n.consumed[j] == n.inserted[j];
      }
      forall i, j | 0 <= i < j < |n.log.sources| ensures n.log.sources[i] != n.log.sources[j] {
        assert ComesFrom(n, i) && ComesFrom(n, j);
      }
    }
  }

  lemma Conservation(s: System)
    requires Inv(s)
    ensures Max0(Value(s, s.emptyCount)) + Max0(Value(s, s.fullCount)) + |InFlight(s)| == |s.buffer|
  {
    hide KernelMachine.Inv, Contents, Indices, Waits, WaitersAt, Pids, Where;
    QueueLength(s, s.emptyCount);
    QueueLength(s, s.fullCount);
    Regions(s);
    Flight(Where(s.pcs, Reserving), WaitersAt(s, s.emptyCount), Where(s.pcs, Stored),
           Where(s.pcs, Taking), WaitersAt(s, s.fullCount), Where(s.pcs, Loaded));
  }

  /** As many processes are queued as the value is below 0. */
  lemma QueueLength(s: System, i: int)
    requires KernelMachine.Inv(s.k) && s.k.IsSem(i)
    ensures |WaitersAt(s, i)| == Max0(-Value(s, i))
  {
    hide KernelMachine.Inv, Waiters, Pids;
    SemaphoreAccounting(s.k, i);
  }

  lemma Flight(a: set<int>, qa: set<int>, b: set<int>, c: set<int>, qc: set<int>, d: set<int>)
    requires qa <= a && qc <= c && a + b !! c + d && a !! b && c !! d
    ensures |(a - qa) + b + (c - qc) + d| == |a| - |qa| + |b| + |c| - |qc| + |d|
  {
    Difference(a, qa);
    Difference(c, qc);
    FourSum(a - qa, b, c - qc, d);
  }

  lemma Regions(s: System)
    requires HasSems(s) && Waits(s)
    ensures WaitersAt(s, s.emptyCount) <= Where(s.pcs, Reserving) && WaitersAt(s, s.fullCount) <= Where(s.pcs, Taking)
    ensures Where(s.pcs, Reserving) + Where(s.pcs, Stored) !! Where(s.pcs, Taking) + Where(s.pcs, Loaded)
    ensures Where(s.pcs, Reserving) !! Where(s.pcs, Stored) && Where(s.pcs, Taking) !! Where(s.pcs, Loaded)
  {
    forall p | p in Where(s.pcs, Reserving) ensures p !in Where(s.pcs, Stored) {
      assert Reserving(s.pcs[p]) && !Stored(s.pcs[p]);
    }
    forall p | p in Where(s.pcs, Taking) ensures p !in Where(s.pcs, Loaded) {
      assert Taking(s.pcs[p]) && !Loaded(s.pcs[p]);
    }
    forall p | p in Where(s.pcs, Taking) + Where(s.pcs, Loaded)
      ensures p !in Where(s.pcs, Reserving) + Where(s.pcs, Stored)
    {
      assert Taking(s.pcs[p]) || Loaded(s.pcs[p]);
      assert !Reserving(s.pcs[p]) && !Stored(s.pcs[p]);
    }
  }

  lemma FourSum(a: set<int>, b: set<int>, c: set<int>, d: set<int>)
    requires a !! b && c !! d && a + b !! c + d
    ensures |a + b + c + d| == |a| + |b| + |c| + |d|
  {
    assert a + b + c + d == (a + b) + (c + d);
  }

  /** Producers and consumers never fill the queue of a semaphore, if there are no more of them than
      it has slots: their waits and signals keep to the rules of the kernel. */
  lemma CallsAreLegal(s: System, item: int)
    requires Inv(s) && s.k.Cur() in s.pcs && s.k.Cur() != INIT_PID
    requires forall i :: i in {s.itemMutex, s.emptyCount, s.fullCount} ==> |s.pcs| <= |s.k.sems[i].queue|
    ensures var call := CallOf(s, s.pcs[s.k.Cur()], item);
            IsCall(s.pcs[s.k.Cur()]) && !call.SleepStep? ==> KernelMachine.Allowed(s.k, call)
  {
    hide KernelMachine.Inv, Contents, Indices, Counts, Waiters, Pids;
    Running(s.k);
    var p := s.k.Cur();
    Subset(WaitersAt(s, s.itemMutex), s.pcs.Keys, p);
    Subset(WaitersAt(s, s.emptyCount), s.pcs.Keys, p);
    Subset(WaitersAt(s, s.fullCount), s.pcs.Keys, p);
  }
}
