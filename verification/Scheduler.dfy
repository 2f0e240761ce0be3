/**
 The linked process slots of Kernel/scheduler.c, updated in place.

 Each method is tied to the function of module `Ring` that says what it does to the list of
 processes; runs, safety and fairness are proved there.
 */
module Scheduler {
  import opened Ring
  import opened Sequences

  /** A slot of the circular list, with the two fields of its process that scheduling reads. */
  class ProcessSlot {
    var next: ProcessSlot?
    const pid: int
    var state: State

    constructor (pid: int)
      ensures this.pid == pid && state == READY
    {
      this.pid := pid;
      state := READY;
      next := null;
    }
  }

  /** The slots in `next` order form one cycle. */
  ghost predicate IsCycle(slots: seq<ProcessSlot>)
    reads slots
  {
    && (forall i :: 0 <= i < |slots| - 1 ==> slots[i].next == slots[i + 1])
    && (slots != [] ==> slots[|slots| - 1].next == slots[0])
  }

  ghost predicate Mirrors(slots: seq<ProcessSlot>, procs: seq<Process>)
    reads slots
  {
    && |procs| == |slots|
    && forall i :: 0 <= i < |slots| ==> procs[i] == Process(slots[i].pid, slots[i].state)
  }

  lemma MirrorsAt(slots: seq<ProcessSlot>, procs: seq<Process>, k: nat)
    requires Mirrors(slots, procs) && k < |slots|
    ensures |procs| == |slots| && slots[k].pid == procs[k].pid
  {
  }

  lemma RotateCycle(slots: seq<ProcessSlot>, procs: seq<Process>, k: nat)
    requires k <= |slots| && AllDifferent(slots) && IsCycle(slots) && Mirrors(slots, procs)
    ensures AllDifferent(Rotate(slots, k)) && IsCycle(Rotate(slots, k)) && Mirrors(Rotate(slots, k), Rotate(procs, k))
  {
    var r := Rotate(slots, k);
    var n := |slots|;
    assert forall i :: 0 <= i < n ==> r[i] == slots[if i < n - k then i + k else i - (n - k)];
  }

  /** A slot linked between the first slot and its successor extends the cycle. */
  lemma InsertCycle(slots: seq<ProcessSlot>, procs: seq<Process>, p: ProcessSlot)
    requires slots != [] && AllDifferent(slots) && p !in slots && Mirrors(slots, procs)
    requires slots[0].next == p && p.next == slots[if |slots| > 1 then 1 else 0]
    requires forall i :: 1 <= i < |slots| - 1 ==> slots[i].next == slots[i + 1]
    requires |slots| > 1 ==> slots[|slots| - 1].next == slots[0]
    ensures var r := [slots[0], p] + slots[1..];
            AllDifferent(r) && IsCycle(r) && Mirrors(r, Insert(procs, Process(p.pid, p.state)))
  {
    var r := [slots[0], p] + slots[1..];
    assert forall i :: 2 <= i < |r| ==> r[i] == slots[i - 1];
  }

  /** Linking the predecessor of a slot to its successor takes the slot out of the cycle. */
  lemma UnlinkCycle(slots: seq<ProcessSlot>, procs: seq<Process>, k: nat)
    requires k < |slots| && |slots| > 1 && AllDifferent(slots) && Mirrors(slots, procs)
    requires forall i :: 0 <= i < |slots| - 1 && i + 1 != k ==> slots[i].next == slots[i + 1]
    requires k > 0 ==> slots[|slots| - 1].next == slots[0]
    requires slots[if k > 0 then k - 1 else |slots| - 1].next == slots[k].next
    ensures AllDifferent(Without(slots, k)) && slots[k] !in Without(slots, k)
    ensures IsCycle(Without(slots, k)) && Mirrors(Without(slots, k), Without(procs, k))
  {
    var r := Without(slots, k);
    assert forall i :: 0 <= i < |r| ==> r[i] == slots[if i < k then i else i + 1];
  }

  class Scheduler {
    var current: ProcessSlot?
    var cardinalProcesses: int
    var nextPid: int
    /** The cycle from the current slot, or from its successor once it was removed. */
    ghost var slots: seq<ProcessSlot>
    ghost var procs: seq<Process>
    /** Every slot ever linked. */
    ghost var repr: set<ProcessSlot>

    ghost predicate Chained()
      reads this, repr, slots
    {
      && (forall i :: 0 <= i < |slots| ==> slots[i] in repr)
      && AllDifferent(slots) && IsCycle(slots) && Mirrors(slots, procs)
    }

    ghost predicate Linked()
      reads this, repr, slots
    {
      Chained() && cardinalProcesses == |slots|
    }

    /** `current` is a slot of one cycle of exactly `cardinalProcesses` different slots. */
    ghost predicate Valid()
      reads this, repr, slots
    {
      && Linked()
      && (if slots == [] then current == null else current == slots[0])
    }

    /** The current process was just removed: its slot is outside the cycle but points into it. */
    ghost predicate Detached()
      reads this, repr, slots
    {
      && Linked()
      && slots != []
      && current != null && current in repr && current !in slots && current.next == slots[0]
    }

    ghost function Abs(): Sched
      reads this
    {
      Sched(procs, nextPid)
    }

    constructor ()
      ensures Valid() && Abs() == Sched([], 0)
    {
      current := null;
      cardinalProcesses := 0;
      nextPid := 0;
      slots := [];
      procs := [];
      repr := {};
    }

    method GetCurrentPid() returns (pid: int)
      requires Valid()
      ensures pid == if procs == [] then -1 else procs[0].pid
    {
      pid := if current == null then -1 else current.pid;
    }

    method ChangeProcessState(pid: int, state: State)
      requires Valid()
      modifies this`procs, repr
      ensures Valid() && slots == old(slots)
      ensures procs == SetState(old(procs), pid, state)
    {
      var i := 0;
      var slot := current;
      while i < cardinalProcesses
        invariant 0 <= i <= |slots|
        invariant i < |slots| ==> slot == slots[i]
        invariant forall j :: 0 <= j < i ==> procs[j].pid != pid
      {
        if slot.pid == pid {
          slot.state := state;
          assert i == IndexOf(procs, pid);
          procs := procs[i := procs[i].(state := state)];
          return;
        }
        slot := slot.next;
        i := i + 1;
      }
      assert IndexOf(procs, pid) == |procs|;
    }

    /** Links a slot behind the current one; the caller counts it. */
    method AddProcess(p: ProcessSlot)
      requires Valid() && p !in repr
      modifies this`current, this`slots, this`procs, this`repr, p, repr
      ensures Chained() && |slots| == |old(slots)| + 1 && current == slots[0]
      ensures repr == old(repr) + {p}
      ensures procs == Insert(old(procs), Process(p.pid, old(p.state)))
    {
      repr := repr + {p};
      if current == null {
        current := p;
        current.next := current;
        slots := [p];
      } else {
        var next := current.next;
        current.next := p;
        current.next.next := next;
        InsertCycle(slots, procs, p);
        slots := [slots[0], p] + slots[1..];
      }
      procs := Insert(procs, Process(p.pid, p.state));
    }

    method CreateProcess() returns (pid: int)
      requires Valid()
      modifies this, repr
      ensures Valid() && fresh(repr - old(repr))
      ensures Abs() == Create(old(Abs()))
      ensures pid == old(nextPid)
    {
      hide AllDifferent, IsCycle, Mirrors;
      var p := new ProcessSlot(nextPid);
      assert Valid() && p !in repr;
      pid := nextPid;
      nextPid := nextPid + 1;
      AddProcess(p);
      cardinalProcesses := cardinalProcesses + 1;
    }

    /** Marks the current process. */
    method SetCurrentState(state: State)
      requires Valid() && slots != []
      modifies this`procs, repr
      ensures Valid() && slots == old(slots)
      ensures procs == old(procs)[0 := Process(old(procs)[0].pid, state)]
    {
      current.state := state;
      procs := procs[0 := procs[0].(state := state)];
    }

    /** Follows the links to the first READY process, starting with the current one. */
    method FindReady()
      requires Linked() && slots != [] && current == slots[0] && HasReady(procs)
      modifies this`current
      ensures current == slots[FirstReady(procs)]
    {
      ghost var k := 0;
      while current.state != READY
        invariant 0 <= k <= FirstReady(procs) < |slots|
        invariant current == slots[k]
        decreases FirstReady(procs) - k
      {
        current := current.next;
        k := k + 1;
      }
    }

    /** Lets the ghost lists start `k` slots further on. */
    ghost method Turn(k: nat)
      requires Linked() && k <= |slots|
      modifies this`slots, this`procs
      ensures Linked() && slots == Rotate(old(slots), k) && procs == Rotate(old(procs), k)
    {
      RotateCycle(slots, procs, k);
      slots, procs := Rotate(slots, k), Rotate(procs, k);
    }

    /** Demotes the current process and follows its link. */
    method Leave()
      requires (Valid() && slots != []) || Detached()
      modifies this`current, this`slots, this`procs, repr
      ensures Valid() && slots != []
      ensures slots == if old(Valid()) then Rotate(old(slots), 1) else old(slots)
      ensures procs == if old(Valid()) then Step(old(procs)) else old(procs)
    {
      ghost var inside := Valid();
      if current.state == RUNNING {
        current.state := READY;
      }
      if inside {
        procs := procs[0 := Demote(procs[0])];
        Turn(1);
      }
      current := current.next;
    }

    /** Moves on to the next READY process, from a current slot inside or outside the cycle. */
    method Schedule()
      requires (Valid() && procs != [] && HasReady(Step(procs))) || (Detached() && HasReady(procs))
      modifies this`current, this`slots, this`procs, repr
      ensures Valid() && slots != []
      ensures procs == if old(Valid()) then Ring.Schedule(old(procs)) else Resume(old(procs))
    {
      Leave();
      FindReady();
      Turn(FirstReady(procs));
      SetCurrentState(RUNNING);
    }

    /** The search of `removeProcess`: one lap from the successor of the current slot. */
    method FindSlot(pid: int) returns (prevSlot: ProcessSlot, slotToRemove: ProcessSlot, found: bool)
      requires Valid() && slots != []
      ensures found <==> IndexOf(procs, pid) < |procs|
      ensures found && Distinct(procs) ==>
                var k := IndexOf(procs, pid);
                slotToRemove == slots[k] && prevSlot == slots[if k > 0 then k - 1 else |slots| - 1]
    {
      assert current.next == slots[if 1 < |slots| then 1 else 0];
      prevSlot := current;
      slotToRemove := current.next;
      var i := 0;
      while slotToRemove.pid != pid && i < cardinalProcesses
        invariant 0 <= i <= |slots|
        invariant i < |slots| ==> prevSlot == slots[i] && slotToRemove == slots[if i + 1 < |slots| then i + 1 else 0]
        invariant i == |slots| ==> prevSlot == slots[0] && slotToRemove == slots[if 1 < |slots| then 1 else 0]
        invariant forall j :: 1 <= j <= i && j < |slots| ==> slots[j].pid != pid
        invariant i == |slots| ==> slots[0].pid != pid
        decreases cardinalProcesses - i
      {
        ghost var k := if i + 1 < |slots| then i + 1 else 0;
        assert slotToRemove == slots[k] && slotToRemove.next == slots[if k + 1 < |slots| then k + 1 else 0];
        prevSlot := slotToRemove;
        slotToRemove := slotToRemove.next;
        i := i + 1;
      }
      found := i != cardinalProcesses;
      ghost var k := if i + 1 < |slots| then i + 1 else 0;
      if found {
        assert procs[k].pid == pid;
      }
    }

    /** Takes a slot out of the cycle. `current` may be left pointing at it. */
    method Unlink(prevSlot: ProcessSlot, slotToRemove: ProcessSlot, ghost k: nat)
      requires Valid() && 1 < |slots| && k < |slots|
      requires slotToRemove == slots[k] && prevSlot == slots[if k > 0 then k - 1 else |slots| - 1]
      modifies this`cardinalProcesses, this`slots, this`procs, prevSlot
      ensures if k > 0 then Valid() else Detached()
      ensures slots == Without(old(slots), k) && procs == Without(old(procs), k)
      ensures slotToRemove.next == old(slotToRemove.next)
    {
      prevSlot.next := slotToRemove.next;
      cardinalProcesses := cardinalProcesses - 1;
      UnlinkCycle(slots, procs, k);
      slots, procs := Without(slots, k), Without(procs, k);
    }

    /** Removes a listed process when it is not the only one. */
    method RemoveListed(prevSlot: ProcessSlot, slotToRemove: ProcessSlot, ghost k: nat)
      requires Valid() && 1 < |slots| && k < |slots| && Distinct(procs)
      requires slotToRemove == slots[k] && prevSlot == slots[if k > 0 then k - 1 else |slots| - 1]
      requires k == 0 ==> HasReady(procs[1..])
      modifies this`current, this`cardinalProcesses, this`slots, this`procs, repr
      ensures Valid()
      ensures procs == if k > 0 then Without(old(procs), k) else Resume(old(procs)[1..])
      ensures k > 0 ==> current == old(current) && slots == Without(old(slots), k)
      ensures k > 0 ==> slotToRemove.next == old(slotToRemove.next)
    {
      assert procs[0].pid == current.pid && procs[k].pid == slotToRemove.pid;
      Unlink(prevSlot, slotToRemove, k);
      if slotToRemove.pid == current.pid {
        assert procs == old(procs)[1..];
        Schedule();
      }
    }

    /** Unlinks the slot of `pid`; removing the current process dispatches another one. */
    method RemoveProcess(pid: int)
      requires Valid() && Distinct(procs) && CanRemove(procs, pid)
      modifies this`current, this`cardinalProcesses, this`slots, this`procs, repr
      ensures Valid() && procs == Remove(old(procs), pid)
      ensures var k := IndexOf(old(procs), pid);
              pid != INIT_PID && 0 < k < |old(slots)| ==>
                && current == old(current)
                && slots == Without(old(slots), k)
                && old(slots)[k].next == old(slots[k].next)
    {
      if pid == INIT_PID {
        if current != null {
          Schedule();
        }
        return;
      }
      if current == null {
        return;
      }
      assert current.next == slots[if |slots| > 1 then 1 else 0];
      if current.pid == current.next.pid && current.pid == pid {
        assert |slots| == 1;
        current := null;
        cardinalProcesses := cardinalProcesses - 1;
        slots, procs := [], [];
        return;
      }
      var prevSlot, slotToRemove, found := FindSlot(pid);
      if found {
        RemoveListed(prevSlot, slotToRemove, IndexOf(procs, pid));
      }
    }

    /** One step of the walk: a process that is neither current nor init is removed. */
    method KillOne(aux: ProcessSlot, pid: int, ghost k: nat) returns (next: ProcessSlot)
      requires Valid() && 1 <= k < |slots| && aux == slots[k]
      requires Distinct(procs) && pid == procs[0].pid
      modifies this`current, this`cardinalProcesses, this`slots, this`procs, repr
      ensures Valid() && current == old(current)
      ensures next == old(slots)[if k + 1 < |old(slots)| then k + 1 else 0]
      ensures slots == if aux.pid == INIT_PID then old(slots) else Without(old(slots), k)
      ensures procs == if aux.pid == INIT_PID then old(procs) else Without(old(procs), k)
    {
      assert aux.pid == procs[k].pid && procs[k].pid != procs[0].pid;
      assert aux.next == slots[if k + 1 < |slots| then k + 1 else 0];
      if aux.pid != pid && aux.pid != INIT_PID {
        assert k == IndexOf(procs, aux.pid);
        RemoveProcess(aux.pid);
      }
      next := aux.next;
    }

    /** Removes everything but the current process and init, in one walk along the links. */
    method KillAllExceptCurrent()
      requires Valid() && slots != [] && Distinct(procs)
      modifies this`current, this`cardinalProcesses, this`slots, this`procs, repr
      ensures Valid() && procs == Ring.KillAllExceptCurrent(old(procs))
    {
      ghost var all, before := slots, procs;
      ghost var i, kept := 1, [slots[0]];
      WalkStarts(all, before);
      assert current.next == slots[if 1 < |slots| then 1 else 0];
      assert current.pid == procs[0].pid;
      var pid := current.pid;
      var aux := current.next;
      assert forall j :: 1 <= j < |all| ==> all[j] != all[0];
      hide AllDifferent, IsCycle, Mirrors, Distinct, Walked, Without;
      while aux != current
        invariant 1 <= i <= |all|
        invariant Valid() && current == all[0]
        invariant Walked(slots, procs, all, before, kept, i)
        invariant aux == if i < |all| then all[i] else all[0]
        decreases |all| - i
      {
        ghost var k := |kept|;
        WalkOn(slots, procs, all, before, kept, i);
        MirrorsAt(slots, procs, k);
        MirrorsAt(slots, procs, 0);
        if aux.pid == INIT_PID {
          kept := kept + [aux];
        }
        aux := KillOne(aux, pid, k);
        i := i + 1;
      }
      WalkEnds(slots, procs, all, before, kept);
    }
  }

  /** The walk of `killAllExceptCurrent` has reached position i of the cycle it started on. */
  ghost predicate Walked<T>(slots: seq<T>, procs: seq<Process>, all: seq<T>, before: seq<Process>, kept: seq<T>, i: nat) {
    && 1 <= i <= |all| == |before| && Distinct(before)
    && kept != [] && kept[0] == all[0] && |kept| == 1 + |OnlyInit(before[1..i])|
    && slots == kept + all[i..] && procs == Survivors(before, i)
  }

  lemma WalkStarts<T>(all: seq<T>, before: seq<Process>)
    requires |all| == |before| >= 1 && Distinct(before)
    ensures Walked(all, before, all, before, [all[0]], 1)
  {
    assert all == [all[0]] + all[1..] && before == Survivors(before, 1);
  }

  /** The next slot, and the walk after it is kept or taken out. */
  lemma WalkOn<T>(slots: seq<T>, procs: seq<Process>, all: seq<T>, before: seq<Process>, kept: seq<T>, i: nat)
    requires Walked(slots, procs, all, before, kept, i) && i < |all|
    ensures var k := |kept|;
            && 1 <= k < |slots| == |procs| && Distinct(procs) && procs[0] == before[0]
            && slots[k] == all[i] && (if k + 1 < |slots| then slots[k + 1] else slots[0]) == (if i + 1 < |all| then all[i + 1] else all[0])
            && (if procs[k].pid == INIT_PID then Walked(slots, procs, all, before, kept + [all[i]], i + 1)
                else Walked(Without(slots, k), Without(procs, k), all, before, kept, i + 1))
  {
    KillStep(before, i);
    WalkStep(kept, all, i);
    hide Distinct, OnlyInit, Without;
    assert |slots| == |procs|;
  }

  lemma WalkEnds<T>(slots: seq<T>, procs: seq<Process>, all: seq<T>, before: seq<Process>, kept: seq<T>)
    requires Walked(slots, procs, all, before, kept, |all|)
    ensures procs == Ring.KillAllExceptCurrent(before)
  {
    assert before[1..|before|] == before[1..];
  }

  lemma SplitAt<T>(kept: seq<T>, x: T, rest: seq<T>)
    ensures var now := kept + ([x] + rest);
            && now[|kept|] == x
            && Without(now, |kept|) == kept + rest
            && now == (kept + [x]) + rest
  {
  }

  lemma WalkStep<T>(kept: seq<T>, all: seq<T>, i: nat)
    requires 1 <= i < |all| && kept != [] && kept[0] == all[0]
    ensures var now := kept + all[i..];
            && now[|kept|] == all[i]
            && Without(now, |kept|) == kept + all[i + 1..]
            && now == (kept + [all[i]]) + all[i + 1..]
            && (if |kept| + 1 < |now| then now[|kept| + 1] else now[0]) == if i + 1 < |all| then all[i + 1] else all[0]
  {
    assert all[i..] == [all[i]] + all[i + 1..];
    SplitAt(kept, all[i], all[i + 1..]);
  }

  /** The list when the walk has reached position i. */
  ghost function Survivors(ps: seq<Process>, i: nat): seq<Process>
    requires 1 <= i <= |ps|
  {
    [ps[0]] + OnlyInit(ps[1..i]) + ps[i..]
  }

  lemma OnlyInitAppend(ps: seq<Process>, p: Process)
    ensures OnlyInit(ps + [p]) == OnlyInit(ps) + (if p.pid == INIT_PID then [p] else [])
  {
    if ps != [] {
      assert (ps + [p])[1..] == ps[1..] + [p];
    }
  }

  lemma SurvivorsDistinct(ps: seq<Process>, i: nat)
    requires Distinct(ps) && 1 <= i <= |ps|
    ensures Distinct(Survivors(ps, i))
  {
    OnlyInitIs(ps[1..i]);
    var now := Survivors(ps, i);
    var k := 1 + |OnlyInit(ps[1..i])|;
    assert forall j :: k <= j < |now| ==> now[j] == ps[j - k + i];
    assert k == 2 ==> now[1] == ps[1 + IndexOf(ps[1..i], INIT_PID)];
  }

  /** The list at position i and after it, around the process there. */
  lemma SurvivorsAt(ps: seq<Process>, i: nat)
    requires 1 <= i < |ps|
    ensures var kept := [ps[0]] + OnlyInit(ps[1..i]);
            && Survivors(ps, i) == kept + ([ps[i]] + ps[i + 1..])
            && OnlyInit(ps[1..i + 1]) == OnlyInit(ps[1..i]) + (if ps[i].pid == INIT_PID then [ps[i]] else [])
            && Survivors(ps, i + 1) == if ps[i].pid == INIT_PID then (kept + [ps[i]]) + ps[i + 1..] else kept + ps[i + 1..]
  {
    hide OnlyInit;
    assert ps[1..i + 1] == ps[1..i] + [ps[i]];
    OnlyInitAppend(ps[1..i], ps[i]);
    assert ps[i..] == [ps[i]] + ps[i + 1..];
    assert [ps[0]] + (OnlyInit(ps[1..i]) + [ps[i]]) == ([ps[0]] + OnlyInit(ps[1..i])) + [ps[i]];
  }

  lemma KillStep(ps: seq<Process>, i: nat)
    requires Distinct(ps) && 1 <= i < |ps|
    ensures var now := Survivors(ps, i);
            var k := 1 + |OnlyInit(ps[1..i])|;
            && k < |now| && now[k] == ps[i] && Distinct(now)
            && |OnlyInit(ps[1..i + 1])| == (if ps[i].pid == INIT_PID then k else k - 1)
            && Survivors(ps, i + 1) == if ps[i].pid == INIT_PID then now else Without(now, k)
  {
    hide Distinct, OnlyInit, Without, Survivors;
    SurvivorsDistinct(ps, i);
    SurvivorsAt(ps, i);
    SplitAt([ps[0]] + OnlyInit(ps[1..i]), ps[i], ps[i + 1..]);
  }
}
