/**
 The sleep table of Kernel/interrupts.c: three parallel arrays and the tick handler that scans
 them, deleting finished sleepers by moving the last entry into their place.
 */
module SleepTable {
  import opened Ring
  import Scheduler

  /** `counter` ticks seen so far; the sleeper is done when it reaches `alarm`. */
  datatype Sleeper = Sleeper(pid: int, counter: int, alarm: int)

  function Bump(e: Sleeper): Sleeper {
    e.(counter := e.counter + 1)
  }

  predicate Done(e: Sleeper) {
    e.counter == e.alarm
  }

  /** The last entry takes the place of entry `j`. */
  function Delete(table: seq<Sleeper>, j: nat): seq<Sleeper>
    requires j < |table|
  {
    table[j := table[|table| - 1]][..|table| - 1]
  }

  /** The scan of one tick from position `j` on. */
  function Scan(ring: seq<Process>, table: seq<Sleeper>, j: nat): (seq<Process>, seq<Sleeper>)
    requires j <= |table|
    decreases |table| - j
  {
    if j == |table| then (ring, table)
    else
      var e := Bump(table[j]);
      if Done(e) then Scan(SetState(ring, e.pid, READY), Delete(table[j := e], j), j)
      else Scan(ring, table[j := e], j + 1)
  }

  // ----- the table as a set of sleepers -----

  predicate OncePerPid(table: seq<Sleeper>) {
    forall i, j :: 0 <= i < j < |table| ==> table[i].pid != table[j].pid
  }

  ghost function Entries(table: seq<Sleeper>): set<Sleeper> {
    set e | e in table
  }

  ghost function PidsOf(asleep: set<Sleeper>): set<int> {
    set e | e in asleep :: e.pid
  }

  /** One tick, as it should be: every counter goes up once and those that hit their alarm leave. */
  ghost function AfterTick(asleep: set<Sleeper>): set<Sleeper> {
    set e | e in asleep && !Done(Bump(e)) :: Bump(e)
  }

  ghost function Finished(asleep: set<Sleeper>): set<int> {
    set e | e in asleep && Done(Bump(e)) :: e.pid
  }

  function Wake(ring: seq<Process>, pids: set<int>): (r: seq<Process>)
    ensures |r| == |ring|
    ensures forall i :: 0 <= i < |r| ==> r[i] == if ring[i].pid in pids then Process(ring[i].pid, READY) else ring[i]
  {
    if ring == [] then []
    else [if ring[0].pid in pids then Process(ring[0].pid, READY) else ring[0]] + Wake(ring[1..], pids)
  }

  lemma WakeOne(ring: seq<Process>, pid: int, pids: set<int>)
    requires Distinct(ring)
    ensures Distinct(SetState(ring, pid, READY))
    ensures Wake(SetState(ring, pid, READY), pids) == Wake(ring, pids + {pid})
  {
    assert forall i :: 0 <= i < |ring| ==> SetState(ring, pid, READY)[i].pid == ring[i].pid;
  }

  lemma DeleteEntries(table: seq<Sleeper>, j: nat)
    requires j < |table| && OncePerPid(table)
    ensures OncePerPid(Delete(table, j))
    ensures Delete(table, j)[..j] == table[..j]
    ensures Entries(Delete(table, j)[j..]) == Entries(table[j + 1..])
  {
    var d := Delete(table, j);
    var last := |table| - 1;
    assert forall i :: 0 <= i < last ==> d[i] == if i == j then table[last] else table[i];
    if j < last {
      assert table[j + 1..] == table[j + 1..last] + [table[last]];
      assert d[j..] == [table[last]] + table[j + 1..last];
    }
  }

  lemma EntriesSplit(a: seq<Sleeper>, b: seq<Sleeper>)
    ensures Entries(a + b) == Entries(a) + Entries(b)
  {
  }

  lemma EntriesOf(e: Sleeper)
    ensures Entries([e]) == {e}
  {
  }

  /** The scan with its swap-deletions reaches every sleeper exactly once: from position `j` on
      it does to the remaining entries what one tick should do. */
  lemma {:induction false} ScanFrom(ring: seq<Process>, table: seq<Sleeper>, j: nat)
    requires j <= |table| && OncePerPid(table) && Distinct(ring)
    ensures var (r, t) := Scan(ring, table, j);
            && OncePerPid(t)
            && Entries(t) == Entries(table[..j]) + AfterTick(Entries(table[j..]))
            && r == Wake(ring, Finished(Entries(table[j..])))
    decreases |table| - j
  {
    if j == |table| {
      assert table[..j] == table;
      assert Wake(ring, {}) == ring;
    } else {
      var e := Bump(table[j]);
      var bumped := table[j := e];
      assert table[j..] == [table[j]] + table[j + 1..];
      assert bumped[..j] == table[..j] && bumped[j + 1..] == table[j + 1..];
      SplitTick(table[j], Entries(table[j + 1..]));
      EntriesSplit([table[j]], table[j + 1..]);
      EntriesOf(table[j]);
      hide Entries, AfterTick, Finished, Wake, SetState, Delete, Distinct;
      if Done(e) {
        DeleteEntries(bumped, j);
        WakeOne(ring, e.pid, Finished(Entries(table[j + 1..])));
        ScanFrom(SetState(ring, e.pid, READY), Delete(bumped, j), j);
      } else {
        ScanFrom(ring, bumped, j + 1);
        assert bumped[..j + 1] == table[..j] + [e];
        EntriesSplit(table[..j], [e]);
        EntriesOf(e);
      }
    }
  }

  lemma SplitTick(e: Sleeper, rest: set<Sleeper>)
    ensures AfterTick({e} + rest) == AfterTick(rest) + (if Done(Bump(e)) then {} else {Bump(e)})
    ensures Finished({e} + rest) == Finished(rest) + (if Done(Bump(e)) then {e.pid} else {})
  {
  }

  /** A whole tick. */
  lemma ScanIsTick(ring: seq<Process>, table: seq<Sleeper>)
    requires OncePerPid(table) && Distinct(ring)
    ensures var (r, t) := Scan(ring, table, 0);
            && OncePerPid(t)
            && Entries(t) == AfterTick(Entries(table))
            && r == Wake(ring, Finished(Entries(table)))
  {
    ScanFrom(ring, table, 0);
    assert table[0..] == table;
  }

  class SleepTable {
    var sleepListeners: int
    var auxj: int
    const sleepPIDS: array<int>
    const sleepCounter: array<int>
    const alarmSleep: array<int>
    ghost var table: seq<Sleeper>

    ghost predicate Valid()
      reads this, sleepPIDS, sleepCounter, alarmSleep
    {
      && sleepPIDS != sleepCounter && sleepPIDS != alarmSleep && sleepCounter != alarmSleep
      && sleepPIDS.Length == sleepCounter.Length == alarmSleep.Length
      && sleepListeners == |table| <= sleepPIDS.Length
      && forall i :: 0 <= i < |table| ==> table[i] == Sleeper(sleepPIDS[i], sleepCounter[i], alarmSleep[i])
    }

    constructor (maxListeners: nat)
      ensures Valid() && table == [] && sleepPIDS.Length == maxListeners
      ensures fresh(sleepPIDS) && fresh(sleepCounter) && fresh(alarmSleep)
    {
      sleepListeners := 0;
      auxj := 0;
      sleepPIDS := new int[maxListeners];
      sleepCounter := new int[maxListeners];
      alarmSleep := new int[maxListeners];
      table := [];
    }

    /** A full table takes no entry. */
    method AddSleep(pid: int, interval: int)
      requires Valid()
      modifies this`sleepListeners, this`table, sleepPIDS, sleepCounter, alarmSleep
      ensures Valid()
      ensures table == if |old(table)| < sleepPIDS.Length then old(table) + [Sleeper(pid, 0, interval)] else old(table)
    {
      if sleepListeners >= sleepPIDS.Length {
        return;
      }
      alarmSleep[sleepListeners] := interval;
      sleepPIDS[sleepListeners] := pid;
      sleepCounter[sleepListeners] := 0;
      sleepListeners := sleepListeners + 1;
      table := table + [Sleeper(pid, 0, interval)];
    }

    method DeleteSleep(index: int)
      requires Valid() && 0 <= index
      modifies this`sleepListeners, this`table, sleepPIDS, sleepCounter, alarmSleep
      ensures Valid()
      ensures table == if index < |old(table)| then Delete(old(table), index) else old(table)
    {
      if index >= sleepListeners {
        return;
      }
      alarmSleep[index] := alarmSleep[sleepListeners - 1];
      sleepPIDS[index] := sleepPIDS[sleepListeners - 1];
      sleepCounter[index] := sleepCounter[sleepListeners - 1];
      sleepListeners := sleepListeners - 1;
      table := Delete(table, index);
    }

    method DoneSleeping(s: Scheduler.Scheduler, index: int)
      requires Valid() && s.Valid() && 0 <= index < |table|
      modifies this`sleepListeners, this`table, sleepPIDS, sleepCounter, alarmSleep
      modifies s`procs, s.repr
      ensures Valid() && s.Valid()
      ensures table == Delete(old(table), index)
      ensures s.procs == SetState(old(s.procs), old(table)[index].pid, READY)
    {
      s.ChangeProcessState(sleepPIDS[index], READY);
      DeleteSleep(index);
    }

    method Count(index: int)
      requires Valid() && 0 <= index < |table|
      modifies this`table, sleepCounter
      ensures Valid() && table == old(table)[index := Bump(old(table)[index])]
      ensures sleepCounter[index] == table[index].counter && alarmSleep[index] == table[index].alarm
    {
      sleepCounter[index] := sleepCounter[index] + 1;
      table := table[index := Bump(table[index])];
    }

    /** One round of the loop: a finished sleeper is replaced by the last one, which is
        looked at next. */
    method TickOne(s: Scheduler.Scheduler)
      requires Valid() && s.Valid() && 0 <= auxj < |table|
      modifies this`sleepListeners, this`auxj, this`table, sleepPIDS, sleepCounter, alarmSleep
      modifies s`procs, s.repr
      ensures Valid() && s.Valid()
      ensures 0 <= auxj <= |table| && |table| - auxj == |old(table)| - old(auxj) - 1
      ensures Scan(s.procs, table, auxj) == Scan(old(s.procs), old(table), old(auxj))
    {
      hide Scheduler.Scheduler.Valid, SetState;
      Count(auxj);
      if sleepCounter[auxj] == alarmSleep[auxj] {
        DoneSleeping(s, auxj);
        auxj := auxj - 1;
      }
      auxj := auxj + 1;
    }

    /** The loop of `timerTickHandlerC`. It ends because every round either moves on or
        shortens the table. */
    method TimerTick(s: Scheduler.Scheduler)
      requires Valid() && s.Valid() && OncePerPid(table) && Distinct(s.procs)
      modifies this`sleepListeners, this`auxj, this`table, sleepPIDS, sleepCounter, alarmSleep
      modifies s`procs, s.repr
      ensures Valid() && s.Valid()
      ensures OncePerPid(table) && Entries(table) == AfterTick(Entries(old(table)))
      ensures s.procs == Wake(old(s.procs), Finished(Entries(old(table))))
    {
      ScanIsTick(s.procs, table);
      hide Scheduler.Scheduler.Valid, Distinct, OncePerPid, AfterTick, Finished, Entries, Wake;
      auxj := 0;
      while auxj < sleepListeners
        invariant 0 <= auxj <= |table|
        invariant Valid() && s.Valid()
        invariant Scan(s.procs, table, auxj) == Scan(old(s.procs), old(table), 0)
        decreases sleepListeners - auxj
      {
        TickOne(s);
      }
    }

    /** The caller sleeps and another process is dispatched. */
    method Sleep(s: Scheduler.Scheduler, time: int)
      requires Valid() && s.Valid() && s.procs != []
      requires HasReady(Step(SetState(s.procs, s.procs[0].pid, SLEEPING)))
      modifies this`sleepListeners, this`table, sleepPIDS, sleepCounter, alarmSleep
      modifies s`current, s`slots, s`procs, s.repr
      ensures Valid() && s.Valid()
      ensures table == if |old(table)| < sleepPIDS.Length
                       then old(table) + [Sleeper(old(s.procs)[0].pid, 0, time)] else old(table)
      ensures s.procs == Schedule(SetState(old(s.procs), old(s.procs)[0].pid, SLEEPING))
    {
      hide Scheduler.Scheduler.Valid, HasReady, Step;
      var myPid := s.GetCurrentPid();
      AddSleep(myPid, time);
      s.ChangeProcessState(myPid, SLEEPING);
      s.Schedule();
    }
  }
}
