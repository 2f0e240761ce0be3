/**
 How long a sleep lasts, over runs of the whole kernel: other processes lock, wait, signal, sleep, are
 created and killed meanwhile.
 */
module Sleeping {
  import opened Ring
  import opened BlockedQueue
  import opened SleepTable
  import opened KernelMachine

  function Ticks(steps: seq<KernelMachine.Step>): nat {
    if steps == [] then 0 else (if steps[0].TickStep? then 1 else 0) + Ticks(steps[1..])
  }

  lemma {:induction false} LastTickCounts(steps: seq<KernelMachine.Step>)
    requires steps != [] && steps[|steps| - 1].TickStep?
    ensures Ticks(steps) >= 1
  {
    if |steps| > 1 {
      assert steps[1..][|steps| - 2] == steps[|steps| - 1];
      LastTickCounts(steps[1..]);
    }
  }

  /** Only ticks and calls of sleep change the table. */
  lemma SleepersAfter(k: Kernel, step: KernelMachine.Step)
    requires KernelMachine.Inv(k) && KernelMachine.Allowed(k, step)
    ensures After(k, step).asleep ==
            if step.TickStep? then AfterTick(k.asleep)
            else if step.SleepStep? then k.asleep + {Sleeper(k.Cur(), 0, step.time)}
            else k.asleep
  {
    hide KernelMachine.Inv, KernelMachine.Allowed, Waiters, SetState, Schedule, AfterTick, HasReady, Ring.Step, Wake, Finished;
  }

  /** A sleeper that has counted `c` ticks, if it is alone with its pid, counts on or leaves. */
  lemma OneTick(asleep: set<Sleeper>, p: int, c: int, t: int)
    requires Sleeper(p, c, t) in asleep && forall e :: e in asleep && e.pid == p ==> e == Sleeper(p, c, t)
    ensures c + 1 != t ==> Sleeper(p, c + 1, t) in AfterTick(asleep)
    ensures c + 1 == t ==> p in Finished(asleep) && p !in PidsOf(AfterTick(asleep))
  {
    assert Bump(Sleeper(p, c, t)) == Sleeper(p, c + 1, t);
  }

  /** A READY process stays so in a dispatch, or runs. */
  lemma DispatchReady(ring: seq<Process>, p: int)
    requires ring != [] && ring[0].pid != p && Process(p, READY) in ring && HasReady(Ring.Step(ring))
    ensures var r := Schedule(ring); r != [] && (r[0] == Process(p, RUNNING) || Process(p, READY) in r)
  {
    var s := Ring.Step(ring);
    var i :| 0 <= i < |ring| && ring[i] == Process(p, READY);
    assert s[i - 1] == ring[i] && Process(p, READY) in s;
    var k := FirstReady(s);
    RotateMembers(s, k);
    assert Process(p, READY) in Rotate(s, k);
    var j :| 0 <= j < |s| && Rotate(s, k)[j] == Process(p, READY);
    assert Schedule(ring)[j] == if j == 0 then Process(p, RUNNING) else Process(p, READY);
  }

  lemma InReady(ring: seq<Process>, p: int)
    requires Process(p, READY) in ring
    ensures p in InState(ring, READY)
  {
  }

  lemma WokenIn(ring: seq<Process>, pids: set<int>, p: int)
    requires p in Pids(ring) && p in pids
    ensures Process(p, READY) in Wake(ring, pids)
  {
    var i :| 0 <= i < |ring| && ring[i].pid == p;
    assert Wake(ring, pids)[i] == Process(p, READY);
  }

  lemma NotCurrent(k: Kernel, e: Sleeper)
    requires KernelMachine.Inv(k) && e in k.asleep && e.pid in k.Processes()
    ensures forall f :: f in k.asleep && f.pid == e.pid ==> f == e
    ensures e.pid in k.Sleeping() && k.sched.ring != [] && k.Cur() != e.pid
  {
    CurIsRunnable(k);
    assert e.pid in PidsOf(k.asleep);
  }

  /** The tick that ends a sleep takes the sleeper out of the table and makes it READY; the dispatch of
      the same tick may run it. */
  lemma LastTick(k: Kernel, p: int, t: int)
    requires KernelMachine.Inv(k) && Sleeper(p, t - 1, t) in k.asleep && p in k.Processes()
    ensures var n := After(k, TickStep);
            && p in n.Processes() && p !in PidsOf(n.asleep) && p !in n.Sleeping()
            && n.sched.ring != [] && (p in InState(n.sched.ring, READY) || n.sched.ring[0] == Process(p, RUNNING))
  {
    hide KernelMachine.Inv, AfterTick, Finished, PidsOf, Pids, InState, Schedule, HasReady, Wake;
    NotCurrent(k, Sleeper(p, t - 1, t));
    OneTick(k.asleep, p, t - 1, t);
    TickedKeepsInv(k);
    DispatchKeepsInv(KernelMachine.Ticked(k));
    WokenIn(k.sched.ring, Finished(k.asleep), p);
    var ring := KernelMachine.Ticked(k).sched.ring;
    SameHead(k.sched.ring, Finished(k.asleep));
    DispatchReady(ring, p);
    if Process(p, READY) in Schedule(ring) { InReady(Schedule(ring), p); }
  }

  lemma SameHead(ring: seq<Process>, pids: set<int>)
    requires ring != []
    ensures Wake(ring, pids) != [] && Wake(ring, pids)[0].pid == ring[0].pid
  {
  }

  // ----- whole runs -----

  /** From a state in which `p` has slept `c` of `t` ticks: it sleeps on until the last of them. */
  lemma {:induction false} SleepsOn(k: Kernel, p: int, c: nat, t: int, steps: seq<KernelMachine.Step>)
    requires KernelMachine.Inv(k) && Sleeper(p, c, t) in k.asleep && p in k.Processes() && c < t
    requires KernelMachine.Legal(k, steps) && forall i :: 0 <= i < |steps| ==> steps[i] != KillStep(p)
    requires Ticks(steps) <= t - c && (Ticks(steps) == t - c ==> steps[|steps| - 1].TickStep?)
    ensures var n := KernelMachine.Run(k, steps);
            && p in n.Processes()
            && (p in n.Sleeping() <==> Ticks(steps) < t - c)
            && (Ticks(steps) == t - c ==>
                  n.sched.ring != [] && (p in InState(n.sched.ring, READY) || n.sched.ring[0] == Process(p, RUNNING)))
    decreases steps
  {
    hide KernelMachine.Inv, KernelMachine.Allowed, After, AfterTick, Finished, PidsOf, Pids, InState;
    NotCurrent(k, Sleeper(p, c, t));
    if steps != [] {
      var step := steps[0];
      StepKeepsInv(k, step);
      StepProcesses(k, step);
      SleepersAfter(k, step);
      OneTick(k.asleep, p, c, t);
      if step.TickStep? && c + 1 == t {
        if |steps| > 1 { LastTickCounts(steps[1..]); }
        LastTick(k, p, t);
        assert steps[1..] == [];
      } else {
        SleepsOn(After(k, step), p, if step.TickStep? then c + 1 else c, t, steps[1..]);
      }
    }
  }

  /** A process that sleeps for t >= 1 ticks is SLEEPING until the t-th tick, and that tick makes it READY
      (and may dispatch it at once), whatever the others do, unless it is killed. */
  lemma SleepEndsOnTime(k: Kernel, t: int, steps: seq<KernelMachine.Step>)
    requires KernelMachine.Inv(k) && KernelMachine.Allowed(k, SleepStep(t)) && t >= 1
    requires KernelMachine.Inv(After(k, SleepStep(t))) && KernelMachine.Legal(After(k, SleepStep(t)), steps)
    requires forall i :: 0 <= i < |steps| ==> steps[i] != KillStep(k.Cur())
    requires Ticks(steps) <= t && (Ticks(steps) == t ==> steps[|steps| - 1].TickStep?)
    ensures var n := KernelMachine.Run(After(k, SleepStep(t)), steps);
            && k.Cur() in n.Processes()
            && (k.Cur() in n.Sleeping() <==> Ticks(steps) < t)
            && (Ticks(steps) == t ==>
                  n.sched.ring != [] && (k.Cur() in InState(n.sched.ring, READY) || n.sched.ring[0] == Process(k.Cur(), RUNNING)))
  {
    hide KernelMachine.Inv, After, Pids, InState, KernelMachine.Allowed;
    StepProcesses(k, SleepStep(t));
    SleepersAfter(k, SleepStep(t));
    Running(k);
    SleepsOn(After(k, SleepStep(t)), k.Cur(), 0, t, steps);
  }
}
