/**
 The scheduler's circular list of process slots, as a value.

 Position 0 is the current process; position i is reached from it by i `next` links.
 The class `Scheduler.Scheduler` updates the linked slots and is specified by these functions.
 */
module Ring {
  import opened Sequences

  datatype State = RUNNING | READY | BLOCKED | DEAD | SLEEPING

  datatype Process = Process(pid: int, state: State)

  const INIT_PID := 0

  /** Everything the scheduler keeps: the ring and the counter that numbers processes. */
  datatype Sched = Sched(ring: seq<Process>, nextPid: int)

  function Pids(ring: seq<Process>): set<int> {
    set p | p in ring :: p.pid
  }

  /** The pids of the processes in state `s`. */
  function InState(ring: seq<Process>, s: State): set<int> {
    set p | p in ring && p.state == s :: p.pid
  }

  predicate Distinct(ring: seq<Process>) {
    forall i, j :: 0 <= i < j < |ring| ==> ring[i].pid != ring[j].pid
  }

  /** Links to follow from the current slot until `pid` is met, or the ring's length. */
  function IndexOf(ring: seq<Process>, pid: int): (k: nat)
    ensures k <= |ring|
    ensures k < |ring| ==> ring[k].pid == pid
    ensures forall j :: 0 <= j < k ==> ring[j].pid != pid
  {
    if ring == [] || ring[0].pid == pid then 0 else 1 + IndexOf(ring[1..], pid)
  }

  /** Links to follow until a READY process is met, or the ring's length. */
  function FirstReady(ring: seq<Process>): (k: nat)
    ensures k <= |ring|
    ensures k < |ring| ==> ring[k].state == READY
    ensures forall j :: 0 <= j < k ==> ring[j].state != READY
  {
    if ring == [] || ring[0].state == READY then 0 else 1 + FirstReady(ring[1..])
  }

  function Rotate<T>(s: seq<T>, k: nat): seq<T>
    requires k <= |s|
  {
    s[k..] + s[..k]
  }

  predicate HasReady(ring: seq<Process>) {
    exists p :: p in ring && p.state == READY
  }

  // ----- the scheduler's operations -----

  function SetState(ring: seq<Process>, pid: int, s: State): seq<Process> {
    var k := IndexOf(ring, pid);
    if k < |ring| then ring[k := ring[k].(state := s)] else ring
  }

  /** The preempted process becomes READY; one that blocked itself keeps its state. */
  function Demote(p: Process): Process {
    if p.state == RUNNING then p.(state := READY) else p
  }

  /** Stop at the first READY process, counting from position 0, and run it. */
  function Resume(ring: seq<Process>): seq<Process>
    requires HasReady(ring)
  {
    var r := Rotate(ring, FirstReady(ring));
    r[0 := r[0].(state := RUNNING)]
  }

  /** The ring seen from the successor of the current slot, the current process demoted. */
  function Step(ring: seq<Process>): seq<Process>
    requires ring != []
  {
    ring[1..] + [Demote(ring[0])]
  }

  function Schedule(ring: seq<Process>): seq<Process>
    requires ring != [] && HasReady(Step(ring))
  {
    Resume(Step(ring))
  }

  /** A new slot goes right behind the current one. */
  function Insert(ring: seq<Process>, p: Process): seq<Process> {
    if ring == [] then [p] else [ring[0], p] + ring[1..]
  }

  function Create(s: Sched): Sched {
    Sched(Insert(s.ring, Process(s.nextPid, READY)), s.nextPid + 1)
  }

  /** Removing a process. Asking for pid 0 only yields; removing the current process
      unlinks its slot and dispatches from the slot it still points to. */
  predicate CanRemove(ring: seq<Process>, pid: int) {
    if ring == [] then true
    else if pid == INIT_PID then HasReady(Step(ring))
    else ring[0].pid == pid && |ring| > 1 ==> HasReady(ring[1..])
  }

  function Remove(ring: seq<Process>, pid: int): seq<Process>
    requires CanRemove(ring, pid)
  {
    if ring == [] then []
    else if pid == INIT_PID then Schedule(ring)
    else
      var k := IndexOf(ring, pid);
      if k == |ring| then ring
      else if k > 0 then Without(ring, k)
      else if |ring| == 1 then []
      else Resume(ring[1..])
  }

  function OnlyInit(ring: seq<Process>): seq<Process> {
    if ring == [] then []
    else if ring[0].pid == INIT_PID then [ring[0]] + OnlyInit(ring[1..])
    else OnlyInit(ring[1..])
  }

  function KillAllExceptCurrent(ring: seq<Process>): seq<Process>
    requires ring != []
  {
    [ring[0]] + OnlyInit(ring[1..])
  }

  // ----- what every operation keeps -----

  /** Distinct pids below the counter, init present and never blocked, and nobody but the
      current process RUNNING. */
  ghost predicate Inv(s: Sched) {
    && s.ring != []
    && Distinct(s.ring)
    && (forall p :: p in s.ring ==> 0 <= p.pid < s.nextPid)
    && INIT_PID in Pids(s.ring)
    && (forall i :: 1 <= i < |s.ring| ==> s.ring[i].state != RUNNING)
    && (forall p :: p in s.ring && p.pid == INIT_PID ==> p.state == READY || p.state == RUNNING)
  }

  /** Membership survives a rotation. */
  lemma RotateMembers<T>(s: seq<T>, k: nat)
    requires k <= |s|
    ensures forall x :: x in Rotate(s, k) <==> x in s
  {
    assert s == s[..k] + s[k..];
  }

  lemma RotateDistinct(ring: seq<Process>, k: nat)
    requires k <= |ring| && Distinct(ring)
    ensures Distinct(Rotate(ring, k))
  {
    var r := Rotate(ring, k);
    var n := |ring|;
    assert forall i :: 0 <= i < n ==> r[i] == ring[if i < n - k then i + k else i - (n - k)];
  }

  /** The state of one process decides every `InState` set. */
  lemma UpdateSets(ring: seq<Process>, k: nat, s: State)
    requires k < |ring| && Distinct(ring)
    ensures var r := ring[k := ring[k].(state := s)];
            && Distinct(r)
            && Pids(r) == Pids(ring)
            && forall t :: InState(r, t) == if t == s then InState(ring, t) + {ring[k].pid}
                                            else InState(ring, t) - {ring[k].pid}
  {
    var r := ring[k := ring[k].(state := s)];
    assert forall i :: 0 <= i < |ring| && i != k ==> r[i] == ring[i] && r[i] in ring && ring[i] in r;
    assert r[k] in r && ring[k] in ring;
    forall x | x in Pids(ring) ensures x in Pids(r) {
      var i :| 0 <= i < |ring| && ring[i].pid == x;
      assert r[i].pid == x && r[i] in r;
    }
    forall t
      ensures InState(r, t) == if t == s then InState(ring, t) + {ring[k].pid}
                               else InState(ring, t) - {ring[k].pid}
    {
      forall x | x in InState(r, t)
        ensures if t == s then x in InState(ring, t) + {ring[k].pid}
                else x in InState(ring, t) - {ring[k].pid}
      {
        var i :| 0 <= i < |r| && r[i].pid == x && r[i].state == t;
      }
      forall x | x in InState(ring, t) && x != ring[k].pid ensures x in InState(r, t) {
        var i :| 0 <= i < |ring| && ring[i].pid == x && ring[i].state == t;
        assert r[i] == ring[i];
      }
      if t == s {
        assert r[k].pid == ring[k].pid && r[k].state == s;
      }
    }
  }

  /** Changing the state of a listed process moves exactly that pid between the state sets;
      an unknown pid changes nothing. */
  lemma SetStateSets(ring: seq<Process>, pid: int, s: State)
    requires Distinct(ring)
    ensures var r := SetState(ring, pid, s);
            && |r| == |ring| && Distinct(r)
            && Pids(r) == Pids(ring)
            && (pid !in Pids(ring) ==> r == ring)
            && (pid in Pids(ring) ==>
                  forall t :: InState(r, t) == if t == s then InState(ring, t) + {pid} else InState(ring, t) - {pid})
  {
    var k := IndexOf(ring, pid);
    if k < |ring| {
      UpdateSets(ring, k, s);
      assert ring[k] in ring;
    }
  }

  lemma RotateSets(ring: seq<Process>, k: nat)
    requires k <= |ring| && Distinct(ring)
    ensures Distinct(Rotate(ring, k)) && Pids(Rotate(ring, k)) == Pids(ring)
    ensures forall t :: InState(Rotate(ring, k), t) == InState(ring, t)
  {
    RotateMembers(ring, k);
    RotateDistinct(ring, k);
  }

  /** In a ring of distinct pids, a process is in one state only. */
  lemma OneState(ring: seq<Process>, p: Process, t: State)
    requires Distinct(ring) && p in ring && p.state != t
    ensures p.pid !in InState(ring, t)
  {
  }

  lemma DispatchHead(ring: seq<Process>)
    requires ring != [] && ring[0].state == READY && Distinct(ring)
    ensures var r := ring[0 := ring[0].(state := RUNNING)];
            && Distinct(r) && Pids(r) == Pids(ring)
            && InState(r, BLOCKED) == InState(ring, BLOCKED)
            && InState(r, SLEEPING) == InState(ring, SLEEPING)
  {
    UpdateSets(ring, 0, RUNNING);
    OneState(ring, ring[0], BLOCKED);
    OneState(ring, ring[0], SLEEPING);
  }

  /** Dispatching only turns one READY process into the RUNNING one. */
  lemma ResumeSets(ring: seq<Process>)
    requires HasReady(ring) && Distinct(ring)
    ensures var r := Resume(ring);
            && |r| == |ring| && Distinct(r)
            && Pids(r) == Pids(ring)
            && r[0].state == RUNNING && r[0].pid in InState(ring, READY)
            && InState(r, BLOCKED) == InState(ring, BLOCKED)
            && InState(r, SLEEPING) == InState(ring, SLEEPING)
            && (forall i :: 1 <= i < |r| ==> r[i] in ring && r[i].pid != r[0].pid)
  {
    var k := FirstReady(ring);
    var q := Rotate(ring, k);
    RotateSets(ring, k);
    assert q[0] == ring[k] && ring[k] in ring;
    DispatchHead(q);
    RotateMembers(ring, k);
    var r := Resume(ring);
    assert forall i :: 1 <= i < |r| ==> r[i] == q[i] && q[i] in q;
  }

  lemma StepSets(ring: seq<Process>)
    requires ring != [] && Distinct(ring)
    ensures var r := Step(ring);
            && Distinct(r) && Pids(r) == Pids(ring)
            && InState(r, BLOCKED) == InState(ring, BLOCKED)
            && InState(r, SLEEPING) == InState(ring, SLEEPING)
            && (forall p :: p in r ==> p in ring || p == Demote(ring[0]))
  {
    var d := ring[0 := Demote(ring[0])];
    UpdateSets(ring, 0, Demote(ring[0]).state);
    assert d == ring[0 := ring[0].(state := Demote(ring[0]).state)];
    assert Step(ring) == Rotate(d, 1);
    RotateMembers(d, 1);
    RotateDistinct(d, 1);
    assert ring[0] in ring;
    assert forall i :: 1 <= i < |ring| ==> ring[i].pid != ring[0].pid;
    assert forall t :: InState(Step(ring), t) == InState(d, t);
    if ring[0].state == RUNNING {
      assert ring[0].pid !in InState(ring, BLOCKED);
      assert ring[0].pid !in InState(ring, SLEEPING);
    }
  }

  // ----- runs -----

  /** Dispatched: a tick or a yield. Changed: a state change made on behalf of a kernel call. */
  datatype Event = Created | Changed(pid: int, state: State) | Dispatched | Removed(pid: int) | KilledOthers

  /** No kernel call marks a process RUNNING, and init makes no call that blocks it. */
  predicate Allowed(e: Event) {
    e.Changed? ==> e.pid != INIT_PID && e.state != RUNNING
  }

  /** The two processes `main` creates; nobody is RUNNING yet. */
  function Boot(): Sched {
    Create(Create(Sched([], 0)))
  }

  lemma BootInv()
    ensures Inv(Boot()) && Boot().ring == [Process(0, READY), Process(1, READY)]
  {
    assert Boot().ring == [Process(0, READY), Process(1, READY)];
    assert Boot().ring[0] in Boot().ring;
  }

  /** Under the invariant every dispatch finds a READY process, so its search ends. */
  lemma DispatchTerminates(s: Sched)
    requires Inv(s)
    ensures HasReady(Step(s.ring))
    ensures s.ring[0].pid != INIT_PID ==> HasReady(s.ring[1..])
    ensures forall pid :: CanRemove(s.ring, pid)
  {
    var i :| 0 <= i < |s.ring| && s.ring[i].pid == INIT_PID;
    assert s.ring[i] in s.ring;
    if i == 0 {
      assert Demote(s.ring[0]) in Step(s.ring);
    } else {
      assert s.ring[i].state == READY;
      assert s.ring[i] == s.ring[1..][i - 1];
      assert s.ring[i] in s.ring[1..] && s.ring[i] in Step(s.ring);
    }
    if s.ring[0].pid == INIT_PID {
      assert i == 0;
    }
  }

  function Apply(s: Sched, e: Event): Sched
    requires Inv(s)
  {
    DispatchTerminates(s);
    match e
    case Created => Create(s)
    case Changed(pid, state) => s.(ring := SetState(s.ring, pid, state))
    case Dispatched => s.(ring := Schedule(s.ring))
    case Removed(pid) => s.(ring := Remove(s.ring, pid))
    case KilledOthers => s.(ring := KillAllExceptCurrent(s.ring))
  }

  /** Which pids are listed after an event. */
  function PidsAfter(s: Sched, e: Event): set<int>
    requires s.ring != []
  {
    match e
    case Created => Pids(s.ring) + {s.nextPid}
    case Changed(_, _) => Pids(s.ring)
    case Dispatched => Pids(s.ring)
    case Removed(pid) => if pid == INIT_PID then Pids(s.ring) else Pids(s.ring) - {pid}
    case KilledOthers => {s.ring[0].pid, INIT_PID}
  }

  lemma ResumeInv(s: Sched)
    requires s.ring != [] && Distinct(s.ring) && HasReady(s.ring)
    requires forall p :: p in s.ring ==> 0 <= p.pid < s.nextPid && p.state != RUNNING
    requires INIT_PID in Pids(s.ring)
    requires forall p :: p in s.ring && p.pid == INIT_PID ==> p.state == READY
    ensures Inv(s.(ring := Resume(s.ring)))
  {
    ResumeSets(s.ring);
    var r := Resume(s.ring);
    forall p | p in r ensures 0 <= p.pid < s.nextPid {
      assert p.pid in Pids(r);
    }
  }

  lemma ScheduleInv(s: Sched)
    requires Inv(s)
    ensures HasReady(Step(s.ring)) && Inv(s.(ring := Schedule(s.ring)))
    ensures Pids(Schedule(s.ring)) == Pids(s.ring)
    ensures InState(Schedule(s.ring), BLOCKED) == InState(s.ring, BLOCKED)
    ensures InState(Schedule(s.ring), SLEEPING) == InState(s.ring, SLEEPING)
    ensures Schedule(s.ring)[0].state == RUNNING
  {
    hide InState, Resume, FirstReady;
    DispatchTerminates(s);
    StepSets(s.ring);
    ResumeSets(Step(s.ring));
    assert s.ring[0] in s.ring;
    assert forall p :: p in s.ring && p.state == RUNNING ==> p == s.ring[0];
    hide Distinct, HasReady, Step;
    ResumeInv(s.(ring := Step(s.ring)));
  }

  lemma StepReady(ring: seq<Process>)
    requires ring != [] && Distinct(ring) && forall i :: 1 <= i < |ring| ==> ring[i].state != RUNNING
    ensures InState(Step(ring), READY) == InState(ring, READY) + InState(ring, RUNNING)
    ensures InState(Step(ring), RUNNING) == {} && InState(Step(ring), DEAD) == InState(ring, DEAD)
  {
    var d := ring[0 := ring[0].(state := Demote(ring[0]).state)];
    UpdateSets(ring, 0, Demote(ring[0]).state);
    assert Step(ring) == Rotate(d, 1);
    RotateSets(d, 1);
    assert ring[0] in ring;
    assert forall p :: p in ring && p.state == RUNNING ==> p == ring[0];
    assert InState(ring, RUNNING) == if ring[0].state == RUNNING then {ring[0].pid} else {};
    forall t | t != ring[0].state ensures ring[0].pid !in InState(ring, t) { OneState(ring, ring[0], t); }
  }

  lemma ResumeReady(ring: seq<Process>)
    requires HasReady(ring) && Distinct(ring)
    ensures var r := Resume(ring);
            && r != [] && r[0].pid in InState(ring, READY)
            && InState(r, READY) == InState(ring, READY) - {r[0].pid}
            && InState(r, RUNNING) == InState(ring, RUNNING) + {r[0].pid}
            && InState(r, DEAD) == InState(ring, DEAD)
  {
    var k := FirstReady(ring);
    var q := Rotate(ring, k);
    RotateSets(ring, k);
    assert q[0] == ring[k] && ring[k] in ring && q[0] in q;
    UpdateSets(q, 0, RUNNING);
    OneState(q, q[0], DEAD);
  }

  /** A dispatch runs one of the processes that could run, and leaves the others READY, the preempted one included. */
  lemma DispatchStates(s: Sched)
    requires Inv(s)
    ensures HasReady(Step(s.ring))
    ensures var r := Schedule(s.ring);
            && r != [] && InState(r, RUNNING) == {r[0].pid}
            && r[0].pid in InState(s.ring, READY) + InState(s.ring, RUNNING)
            && InState(r, READY) == InState(s.ring, READY) + InState(s.ring, RUNNING) - {r[0].pid}
            && InState(r, DEAD) == InState(s.ring, DEAD)
  {
    hide InState, Resume, FirstReady, Pids;
    DispatchTerminates(s);
    StepSets(s.ring);
    StepReady(s.ring);
    hide Step, HasReady, Distinct;
    ResumeReady(Step(s.ring));
  }

  /** `i` is the nearest READY process behind the current one. */
  predicate NextReady(ring: seq<Process>, i: int) {
    1 <= i < |ring| && ring[i].state == READY && forall j :: 1 <= j < i ==> ring[j].state != READY
  }

  /** That process runs next, and the circle keeps its order. Asking for the removal of init does the same. */
  lemma DispatchOrder(ring: seq<Process>, i: int)
    requires NextReady(ring, i)
    ensures HasReady(Step(ring)) && CanRemove(ring, INIT_PID)
    ensures Schedule(ring) == [Process(ring[i].pid, RUNNING)] + ring[i + 1..] + [Demote(ring[0])] + ring[1..i]
    ensures Remove(ring, INIT_PID) == [Process(ring[i].pid, RUNNING)] + ring[i + 1..] + [Demote(ring[0])] + ring[1..i]
  {
    var s := Step(ring);
    assert s[i - 1] == ring[i] && s[i - 1] in s;
    FirstIs(ring, i);
    hide HasReady, FirstReady, Step, Demote;
    RotateStep(ring, Demote(ring[0]), i);
  }

  lemma FirstIs(ring: seq<Process>, i: int)
    requires NextReady(ring, i)
    ensures FirstReady(Step(ring)) == i - 1
  {
    var s := Step(ring);
    var k := FirstReady(s);
    assert s[i - 1] == ring[i] && (k < |ring| - 1 ==> s[k] == ring[k + 1]);
  }

  lemma RotateStep(ring: seq<Process>, last: Process, i: int)
    requires 1 <= i < |ring|
    ensures Rotate(ring[1..] + [last], i - 1) == [ring[i]] + ring[i + 1..] + [last] + ring[1..i]
  {
  }

  /** Asking for the removal of init only lets another process run. */
  lemma RemoveInitStates(s: Sched)
    requires Inv(s)
    ensures CanRemove(s.ring, INIT_PID)
    ensures var r := Remove(s.ring, INIT_PID);
            && r != [] && Pids(r) == Pids(s.ring) && InState(r, RUNNING) == {r[0].pid}
            && InState(r, READY) == InState(s.ring, READY) + InState(s.ring, RUNNING) - {r[0].pid}
            && InState(r, BLOCKED) == InState(s.ring, BLOCKED) && InState(r, SLEEPING) == InState(s.ring, SLEEPING)
            && InState(r, DEAD) == InState(s.ring, DEAD)
  {
    hide InState, Schedule, Pids, HasReady, Step, Distinct;
    DispatchTerminates(s);
    DispatchStates(s);
    ScheduleInv(s);
  }

  lemma OnlyInitIs(ring: seq<Process>)
    requires Distinct(ring)
    ensures OnlyInit(ring) == if IndexOf(ring, INIT_PID) < |ring| then [ring[IndexOf(ring, INIT_PID)]] else []
  {
    if ring != [] {
      OnlyInitIs(ring[1..]);
      assert forall j :: 1 <= j < |ring| ==> ring[1..][j - 1] == ring[j];
    }
  }

  lemma SingleRemoved(ring: seq<Process>, k: nat)
    requires Distinct(ring) && k < |ring|
    ensures var r := Without(ring, k);
            && Distinct(r) && Pids(r) == Pids(ring) - {ring[k].pid}
            && forall p :: p in r ==> p in ring
  {
    var r := Without(ring, k);
    assert forall i :: 0 <= i < |r| ==> r[i] == ring[if i < k then i else i + 1];
    forall x | x in Pids(ring) && x != ring[k].pid ensures x in Pids(r) {
      var i :| 0 <= i < |ring| && ring[i].pid == x;
      assert r[if i < k then i else i - 1] == ring[i];
      assert ring[i] in r;
    }
  }

  lemma RemoveOtherInv(s: Sched, k: nat)
    requires Inv(s) && 0 < k < |s.ring| && s.ring[k].pid != INIT_PID
    ensures Inv(s.(ring := Without(s.ring, k)))
  {
    SingleRemoved(s.ring, k);
    var r := Without(s.ring, k);
    assert forall i :: 1 <= i < |r| ==> r[i].state != RUNNING by {
      assert forall i :: 1 <= i < |r| ==> r[i] == s.ring[if i < k then i else i + 1];
    }
    hide Distinct, Without;
  }

  /** The removed slot still points into the ring, so dispatching from there is enough. */
  lemma RemoveCurrentInv(s: Sched)
    requires Inv(s) && s.ring[0].pid != INIT_PID
    ensures HasReady(s.ring[1..]) && Inv(s.(ring := Resume(s.ring[1..])))
    ensures Pids(Resume(s.ring[1..])) == Pids(s.ring) - {s.ring[0].pid}
  {
    var r := s.ring[1..];
    assert HasReady(r) by { DispatchTerminates(s); }
    assert Distinct(r) && Pids(r) == Pids(s.ring) - {s.ring[0].pid} by {
      SingleRemoved(s.ring, 0);
      assert s.ring[..0] + r == r;
    }
    assert forall p :: p in r ==> 0 <= p.pid < s.nextPid && p.state != RUNNING by {
      assert forall i :: 0 <= i < |r| ==> r[i] == s.ring[i + 1];
    }
    hide Distinct, HasReady;
    ResumeInv(s.(ring := r));
    ResumeSets(r);
  }

  lemma RemoveInv(s: Sched, pid: int)
    requires Inv(s) && pid != INIT_PID
    ensures CanRemove(s.ring, pid) && Inv(s.(ring := Remove(s.ring, pid)))
    ensures Pids(Remove(s.ring, pid)) == Pids(s.ring) - {pid}
  {
    DispatchTerminates(s);
    var k := IndexOf(s.ring, pid);
    if k == |s.ring| {
      assert pid !in Pids(s.ring);
    } else if k > 0 {
      SingleRemoved(s.ring, k);
      RemoveOtherInv(s, k);
    } else {
      RemoveCurrentInv(s);
      assert |s.ring| > 1;
    }
  }

  lemma KillAllInv(s: Sched)
    requires Inv(s)
    ensures Inv(s.(ring := KillAllExceptCurrent(s.ring)))
    ensures Pids(KillAllExceptCurrent(s.ring)) == {s.ring[0].pid, INIT_PID}
  {
    KillAllIs(s.ring);
    var r := KillAllExceptCurrent(s.ring);
    var i :| 0 <= i < |s.ring| && s.ring[i].pid == INIT_PID;
    var k := FirstInit(s.ring);
    assert s.ring[0] in s.ring && r[0] in r;
    if k < |s.ring| {
      assert s.ring[k] in s.ring && r[1] in r;
    }
  }

  /** The position of init behind the current process, or the ring's length. */
  function FirstInit(ring: seq<Process>): (k: nat)
    requires ring != []
    ensures 1 <= k <= |ring| && (k < |ring| ==> ring[k].pid == INIT_PID)
    ensures forall j :: 1 <= j < k ==> ring[j].pid != INIT_PID
  {
    1 + IndexOf(ring[1..], INIT_PID)
  }

  lemma KillAllIs(ring: seq<Process>)
    requires Distinct(ring) && ring != []
    ensures var k := FirstInit(ring);
            KillAllExceptCurrent(ring) == if k < |ring| then [ring[0], ring[k]] else [ring[0]]
  {
    assert forall i :: 0 <= i < |ring| - 1 ==> ring[1..][i] == ring[i + 1];
    OnlyInitIs(ring[1..]);
  }

  lemma InsertMembers(ring: seq<Process>, p: Process)
    ensures forall x :: x in Insert(ring, p) <==> x in ring || x == p
  {
    var r := Insert(ring, p);
    if ring != [] {
      assert ring == [ring[0]] + ring[1..];
    }
  }

  lemma InsertDistinct(ring: seq<Process>, p: Process)
    requires Distinct(ring) && forall q :: q in ring ==> q.pid != p.pid
    ensures Distinct(Insert(ring, p))
  {
    var r := Insert(ring, p);
    assert forall i :: 0 <= i < |ring| ==> ring[i] in ring;
    assert ring != [] ==> forall i :: 0 <= i < |r| && i != 1 ==> r[i] == ring[if i == 0 then 0 else i - 1];
  }

  lemma CreateInv(s: Sched)
    requires Inv(s)
    ensures Inv(Create(s)) && Pids(Create(s).ring) == Pids(s.ring) + {s.nextPid}
  {
    var p := Process(s.nextPid, READY);
    var r := Create(s).ring;
    InsertMembers(s.ring, p);
    InsertDistinct(s.ring, p);
    assert forall i :: 1 <= i < |r| ==> r[i] == if i == 1 then p else s.ring[i - 1];
  }

  lemma ChangeInv(s: Sched, pid: int, state: State)
    requires Inv(s) && pid != INIT_PID && state != RUNNING
    ensures Inv(s.(ring := SetState(s.ring, pid, state))) && Pids(SetState(s.ring, pid, state)) == Pids(s.ring)
  {
    SetStateSets(s.ring, pid, state);
    var r := SetState(s.ring, pid, state);
    assert forall i :: 0 <= i < |r| ==> r[i].pid == s.ring[i].pid && s.ring[i] in s.ring;
  }

  /** Every event keeps the invariant; this also says which processes it adds or drops. */
  lemma EventKeepsInv(s: Sched, e: Event)
    requires Inv(s) && Allowed(e)
    ensures Inv(Apply(s, e))
    ensures Pids(Apply(s, e).ring) == PidsAfter(s, e)
  {
    hide Inv;
    DispatchTerminates(s);
    match e
    case Created => CreateInv(s);
    case Changed(pid, state) => ChangeInv(s, pid, state);
    case Dispatched => ScheduleInv(s);
    case Removed(pid) =>
      if pid == INIT_PID { ScheduleInv(s); } else { RemoveInv(s, pid); }
    case KilledOthers => KillAllInv(s);
  }

  predicate AllAllowed(es: seq<Event>) {
    forall i :: 0 <= i < |es| ==> Allowed(es[i])
  }

  /** The state after a run. Its contract is the ring's safety theorem: every state that any
      run reaches from an invariant state satisfies the invariant. */
  function Run(s: Sched, es: seq<Event>): (t: Sched)
    requires Inv(s) && AllAllowed(es)
    ensures Inv(t) && t.nextPid >= s.nextPid
    decreases es
  {
    if es == [] then s else EventKeepsInv(s, es[0]); Run(Apply(s, es[0]), es[1..])
  }

  // ----- fairness -----

  predicate Touches(e: Event, pid: int) {
    match e
    case Changed(p, _) => p == pid
    case Removed(p) => p == pid
    case KilledOthers => true
    case _ => false
  }

  function Dispatches(es: seq<Event>): nat {
    if es == [] then 0 else (if es[0] == Dispatched then 1 else 0) + Dispatches(es[1..])
  }

  function Creations(es: seq<Event>): nat {
    if es == [] then 0 else (if es[0] == Created then 1 else 0) + Creations(es[1..])
  }

  predicate IsRunning(s: Sched, pid: int) {
    s.ring != [] && s.ring[0] == Process(pid, RUNNING)
  }

  predicate WaitsAt(s: Sched, pid: int, d: int) {
    1 <= d < |s.ring| && s.ring[d] == Process(pid, READY)
  }

  /** A dispatch brings a waiting process at least one slot closer, or runs it. */
  lemma ResumeCloser(ring: seq<Process>, pid: int, d: nat)
    requires d < |ring| && ring[d] == Process(pid, READY)
    ensures HasReady(ring)
    ensures var r := Resume(ring);
            || r[0] == Process(pid, RUNNING)
            || exists d' :: 1 <= d' <= d && d' < |r| && r[d'] == Process(pid, READY)
  {
    assert ring[d] in ring;
    var k := FirstReady(ring);
    assert k <= d;
    if k < d {
      assert Resume(ring)[d - k] == ring[d];
    }
  }

  lemma RemoveCloser(s: Sched, p: int, pid: int, d: nat)
    requires s.ring != [] && CanRemove(s.ring, p) && p != pid && p != INIT_PID && WaitsAt(s, pid, d)
    ensures var t := s.(ring := Remove(s.ring, p));
            IsRunning(t, pid) || exists d' :: WaitsAt(t, pid, d') && d' <= d
  {
    var k := IndexOf(s.ring, p);
    var t := s.(ring := Remove(s.ring, p));
    if k == |s.ring| || d < k {
      assert WaitsAt(t, pid, d);
    } else if k > 0 {
      assert WaitsAt(t, pid, d - 1);
    } else {
      assert s.ring[1..][d - 1] == s.ring[d];
      ResumeCloser(s.ring[1..], pid, d - 1);
      hide HasReady, Resume;
      if !IsRunning(t, pid) {
        var d' :| 1 <= d' <= d - 1 && d' < |t.ring| && t.ring[d'] == Process(pid, READY);
        assert WaitsAt(t, pid, d');
      }
    }
  }

  function Slack(e: Event): int {
    match e
    case Created => 1
    case Dispatched => -1
    case _ => 0
  }

  lemma EventCloser(s: Sched, e: Event, pid: int, d: nat)
    requires Inv(s) && !Touches(e, pid) && WaitsAt(s, pid, d)
    ensures var t := Apply(s, e);
            IsRunning(t, pid) || exists d' :: WaitsAt(t, pid, d') && d' <= d + Slack(e)
  {
    DispatchTerminates(s);
    var t := Apply(s, e);
    match e
    case Created => assert WaitsAt(t, pid, d + 1);
    case Changed(p, _) => assert WaitsAt(t, pid, d);
    case Dispatched => DispatchCloser(s, pid, d);
    case Removed(p) => if p == INIT_PID { DispatchCloser(s, pid, d); } else { RemoveCloser(s, p, pid, d); }
  }

  lemma DispatchCloser(s: Sched, pid: int, d: nat)
    requires Inv(s) && WaitsAt(s, pid, d)
    ensures HasReady(Step(s.ring))
    ensures var t := s.(ring := Schedule(s.ring));
            IsRunning(t, pid) || exists d' :: WaitsAt(t, pid, d') && d' <= d - 1
  {
    DispatchTerminates(s);
    var t := s.(ring := Schedule(s.ring));
    assert Step(s.ring)[d - 1] == s.ring[d];
    ResumeCloser(Step(s.ring), pid, d - 1);
    if !IsRunning(t, pid) {
      var d' :| 1 <= d' <= d - 1 && d' < |t.ring| && t.ring[d'] == Process(pid, READY);
      assert WaitsAt(t, pid, d');
    }
  }

  /** The first event of a run, and the rest. */
  lemma RunOne(s: Sched, es: seq<Event>, n: nat)
    requires Inv(s) && AllAllowed(es) && 1 <= n <= |es|
    ensures Inv(Apply(s, es[0])) && AllAllowed(es[..n]) && AllAllowed(es[1..][..n - 1])
    ensures Run(s, es[..n]) == Run(Apply(s, es[0]), es[1..][..n - 1])
  {
    hide Inv, Apply;
    EventKeepsInv(s, es[0]);
    assert es[..n][0] == es[0] && es[..n][1..] == es[1..][..n - 1];
  }

  /** No starvation: a process that waits READY at ring distance d is running after at most
      d + c dispatches, where c counts the processes created meanwhile. */
  lemma {:induction false} Fairness(s: Sched, es: seq<Event>, pid: int, d: nat)
    requires Inv(s) && AllAllowed(es) && WaitsAt(s, pid, d)
    requires forall i :: 0 <= i < |es| ==> !Touches(es[i], pid)
    requires Dispatches(es) >= d + Creations(es)
    ensures exists n :: 0 <= n <= |es| && AllAllowed(es[..n]) && IsRunning(Run(s, es[..n]), pid)
    decreases es
  {
    assert es != [];
    hide Inv, Apply;
    EventKeepsInv(s, es[0]);
    EventCloser(s, es[0], pid, d);
    var t := Apply(s, es[0]);
    if IsRunning(t, pid) {
      RunOne(s, es, 1);
    } else {
      var d' :| WaitsAt(t, pid, d') && d' <= d + Slack(es[0]);
      Fairness(t, es[1..], pid, d');
      var n :| 0 <= n <= |es[1..]| && AllAllowed(es[1..][..n]) && IsRunning(Run(t, es[1..][..n]), pid);
      RunOne(s, es, n + 1);
    }
  }
}
