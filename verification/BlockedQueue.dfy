/**
 The slot arrays in which mutexes and semaphores keep the pids of blocked processes.
 A slot is free when it holds -1; waiters are taken from the lowest occupied slot.
 */
module BlockedQueue {
  import opened Sequences


  const NO_BLOCKED_QUEUE_VALUE := -1
  const NO_SPACE_LEFT := -2

  function Waiters(queue: seq<int>): set<int> {
    set p | p in queue && p != NO_BLOCKED_QUEUE_VALUE
  }

  predicate NoDuplicates(queue: seq<int>) {
    forall i, j :: 0 <= i < j < |queue| && queue[i] == queue[j] ==> queue[i] == NO_BLOCKED_QUEUE_VALUE
  }

  /** The lowest free slot, or the queue's length. */
  function FirstFree(queue: seq<int>): (k: nat)
    ensures k <= |queue|
    ensures k < |queue| ==> queue[k] == NO_BLOCKED_QUEUE_VALUE
    ensures forall j :: 0 <= j < k ==> queue[j] != NO_BLOCKED_QUEUE_VALUE
  {
    if queue == [] || queue[0] == NO_BLOCKED_QUEUE_VALUE then 0 else 1 + FirstFree(queue[1..])
  }

  /** The lowest occupied slot, or the queue's length. */
  function FirstWaiter(queue: seq<int>): (k: nat)
    ensures k <= |queue|
    ensures k < |queue| ==> queue[k] != NO_BLOCKED_QUEUE_VALUE
    ensures forall j :: 0 <= j < k ==> queue[j] == NO_BLOCKED_QUEUE_VALUE
  {
    if queue == [] || queue[0] != NO_BLOCKED_QUEUE_VALUE then 0 else 1 + FirstWaiter(queue[1..])
  }

  predicate HasRoom(queue: seq<int>) {
    FirstFree(queue) < |queue|
  }

  function Add(queue: seq<int>, pid: int): seq<int>
    requires HasRoom(queue)
  {
    queue[FirstFree(queue) := pid]
  }

  predicate HasWaiter(queue: seq<int>) {
    FirstWaiter(queue) < |queue|
  }

  /** The waiter to wake next. */
  function Next(queue: seq<int>): int
    requires HasWaiter(queue)
  {
    queue[FirstWaiter(queue)]
  }

  function Drop(queue: seq<int>): seq<int>
    requires HasWaiter(queue)
  {
    queue[FirstWaiter(queue) := NO_BLOCKED_QUEUE_VALUE]
  }

  lemma AddWaiters(queue: seq<int>, pid: int)
    requires HasRoom(queue) && NoDuplicates(queue)
    requires pid != NO_BLOCKED_QUEUE_VALUE && pid !in Waiters(queue)
    ensures NoDuplicates(Add(queue, pid)) && Waiters(Add(queue, pid)) == Waiters(queue) + {pid}
  {
    var q := Add(queue, pid);
    var k := FirstFree(queue);
    assert q[k] == pid;
    forall x | x in Waiters(queue) ensures x in q {
      var i :| 0 <= i < |queue| && queue[i] == x;
      assert q[i] == x;
    }
  }

  lemma DropWaiters(queue: seq<int>)
    requires HasWaiter(queue) && NoDuplicates(queue)
    ensures NoDuplicates(Drop(queue)) && Waiters(Drop(queue)) == Waiters(queue) - {Next(queue)}
    ensures Next(queue) in Waiters(queue)
  {
    var q := Drop(queue);
    forall x | x in Waiters(queue) && x != Next(queue) ensures x in q {
      var i :| 0 <= i < |queue| && queue[i] == x;
      assert q[i] == x;
    }
  }

  lemma WaitersCons(pid: int, rest: seq<int>)
    ensures Waiters([pid] + rest) == Waiters(rest) + (if pid == NO_BLOCKED_QUEUE_VALUE then {} else {pid})
  {
  }

  lemma NotWaiting(queue: seq<int>)
    requires NoDuplicates(queue) && queue != [] && queue[0] != NO_BLOCKED_QUEUE_VALUE
    ensures queue[0] !in Waiters(queue[1..]) && NoDuplicates(queue[1..])
  {
    assert forall i :: 1 <= i < |queue| ==> queue[1..][i - 1] == queue[i];
  }

  /** With no pid twice, the occupied slots are as many as the waiters. */
  lemma {:induction false} CountWaiters(queue: seq<int>)
    requires NoDuplicates(queue)
    ensures |Waiters(queue)| <= |queue|
    ensures |Waiters(queue)| < |queue| <==> HasRoom(queue)
    ensures |Waiters(queue)| > 0 <==> HasWaiter(queue)
  {
    if queue != [] {
      hide Waiters;
      CountWaiters(queue[1..]);
      WaitersCons(queue[0], queue[1..]);
      assert queue == [queue[0]] + queue[1..];
      if queue[0] != NO_BLOCKED_QUEUE_VALUE {
        NotWaiting(queue);
      }
    }
  }

  // ----- which slot, and in which order -----

  predicate IsLowestFree(queue: seq<int>, k: int) {
    && 0 <= k < |queue| && queue[k] == NO_BLOCKED_QUEUE_VALUE
    && forall j :: 0 <= j < k ==> queue[j] != NO_BLOCKED_QUEUE_VALUE
  }

  predicate IsLowestWaiter(queue: seq<int>, k: int) {
    && 0 <= k < |queue| && queue[k] != NO_BLOCKED_QUEUE_VALUE
    && forall j :: 0 <= j < k ==> queue[j] == NO_BLOCKED_QUEUE_VALUE
  }

  /** A pid goes into the lowest free slot, and no other slot changes. */
  lemma AddTakesLowest(queue: seq<int>, pid: int) returns (k: nat)
    requires NO_BLOCKED_QUEUE_VALUE in queue
    ensures HasRoom(queue) && IsLowestFree(queue, k) && Add(queue, pid) == queue[k := pid]
  {
    k := FirstFree(queue);
  }

  /** The pid in the lowest occupied slot is woken, and no other slot changes. */
  lemma DropTakesLowest(queue: seq<int>) returns (k: nat)
    requires exists pid :: pid in queue && pid != NO_BLOCKED_QUEUE_VALUE
    ensures HasWaiter(queue) && IsLowestWaiter(queue, k)
    ensures Next(queue) == queue[k] && Drop(queue) == queue[k := NO_BLOCKED_QUEUE_VALUE]
  {
    k := FirstWaiter(queue);
  }

  /** The pids that the next `n` wake-ups find. */
  function Woken(queue: seq<int>, n: nat): seq<int>
    decreases n
  {
    if n == 0 || !HasWaiter(queue) then [] else [Next(queue)] + Woken(Drop(queue), n - 1)
  }

  /** The waiters by slot. */
  function Order(queue: seq<int>): seq<int> {
    if queue == [] then []
    else (if queue[0] == NO_BLOCKED_QUEUE_VALUE then [] else [queue[0]]) + Order(queue[1..])
  }

  predicate AllFree(queue: seq<int>) {
    forall j :: 0 <= j < |queue| ==> queue[j] == NO_BLOCKED_QUEUE_VALUE
  }

  /** No waiter sits above a free slot. */
  predicate Compact(queue: seq<int>) {
    forall i, j :: 0 <= i < j < |queue| && queue[i] == NO_BLOCKED_QUEUE_VALUE ==> queue[j] == NO_BLOCKED_QUEUE_VALUE
  }

  lemma {:induction false} OrderConcat(a: seq<int>, b: seq<int>)
    ensures Order(a + b) == Order(a) + Order(b)
  {
    if a == [] {
      assert a + b == b;
    } else {
      assert (a + b)[1..] == a[1..] + b;
      OrderConcat(a[1..], b);
    }
  }

  lemma {:induction false} OrderOfFree(queue: seq<int>)
    ensures Order(queue) == [] <==> AllFree(queue)
  {
    if queue != [] {
      OrderOfFree(queue[1..]);
      if Order(queue) == [] {
        forall j | 0 < j < |queue| ensures queue[j] == NO_BLOCKED_QUEUE_VALUE { assert queue[j] == queue[1..][j - 1]; }
      }
    }
  }

  lemma OrderAt(queue: seq<int>, k: nat, pid: int)
    requires k < |queue|
    ensures Order(queue[k := pid])
         == Order(queue[..k]) + (if pid == NO_BLOCKED_QUEUE_VALUE then [] else [pid]) + Order(queue[k + 1..])
  {
    assert queue[k := pid] == queue[..k] + ([pid] + queue[k + 1..]);
    OrderConcat(queue[..k], [pid] + queue[k + 1..]);
    assert ([pid] + queue[k + 1..])[1..] == queue[k + 1..];
  }

  lemma OrderOfDrop(queue: seq<int>)
    ensures HasWaiter(queue) <==> Order(queue) != []
    ensures HasWaiter(queue) ==> Order(queue) == [Next(queue)] + Order(Drop(queue))
  {
    hide Order;
    OrderOfFree(queue);
    if HasWaiter(queue) {
      var k := FirstWaiter(queue);
      OrderOfFree(queue[..k]);
      OrderAt(queue, k, NO_BLOCKED_QUEUE_VALUE);
      OrderAt(queue, k, queue[k]);
      assert queue[k := queue[k]] == queue;
    }
  }

  /** Waiters are woken by slot, the lowest first. */
  lemma {:induction false} WokenBySlot(queue: seq<int>, n: nat)
    ensures Woken(queue, n) == if n <= |Order(queue)| then Order(queue)[..n] else Order(queue)
    decreases n
  {
    hide HasWaiter, Next, Drop, Order;
    OrderOfDrop(queue);
    if n > 0 && HasWaiter(queue) { WokenBySlot(Drop(queue), n - 1); }
  }

  /** A new waiter is woken after all those already there if and only if none of them sits above a free slot. */
  lemma JoinsLast(queue: seq<int>, pid: int)
    requires HasRoom(queue) && pid != NO_BLOCKED_QUEUE_VALUE && pid !in queue
    ensures Order(Add(queue, pid)) == Order(queue) + [pid] <==> Compact(queue)
  {
    var k := FirstFree(queue);
    var low, high := Order(queue[..k]), Order(queue[k + 1..]);
    OrderAt(queue, k, pid);
    OrderAt(queue, k, NO_BLOCKED_QUEUE_VALUE);
    assert queue[k := NO_BLOCKED_QUEUE_VALUE] == queue;
    OrderOfFree(queue[k + 1..]);
    HighWaiters(queue, k);
    if high != [] {
      OrderMembers(queue[k + 1..]);
      assert (low + [pid] + high)[|low|] == pid && (low + high + [pid])[|low|] == high[0];
      assert high[0] in high && high[0] in Waiters(queue[k + 1..]);
    }
  }

  lemma HighWaiters(queue: seq<int>, k: nat)
    requires IsLowestFree(queue, k)
    ensures Compact(queue) <==> AllFree(queue[k + 1..])
  {
    if AllFree(queue[k + 1..]) {
      forall j | k < j < |queue| ensures queue[j] == NO_BLOCKED_QUEUE_VALUE { assert queue[j] == queue[k + 1..][j - k - 1]; }
    }
  }

  lemma {:induction false} OrderMembers(queue: seq<int>)
    ensures forall pid :: pid in Order(queue) <==> pid in Waiters(queue)
  {
    if queue != [] {
      OrderMembers(queue[1..]);
      WaitersCons(queue[0], queue[1..]);
      assert queue == [queue[0]] + queue[1..];
    }
  }

  /** Processes that block one after the other find a slot each. */
  predicate Fits(queue: seq<int>, pids: seq<int>)
    decreases pids
  {
    pids == [] || (HasRoom(queue) && Fits(Add(queue, pids[0]), pids[1..]))
  }

  function AddAll(queue: seq<int>, pids: seq<int>): seq<int>
    requires Fits(queue, pids)
    decreases pids
  {
    if pids == [] then queue else AddAll(Add(queue, pids[0]), pids[1..])
  }

  /** Who blocks while nobody is woken is woken in the same order, after those who waited before. */
  lemma {:induction false} FirstComeFirstServed(queue: seq<int>, pids: seq<int>)
    requires Compact(queue) && |Order(queue)| + |pids| <= |queue|
    requires NO_BLOCKED_QUEUE_VALUE !in pids && (forall pid :: pid in pids ==> pid !in queue) && AllDifferent(pids)
    ensures Fits(queue, pids) && Woken(AddAll(queue, pids), |queue|) == Order(queue) + pids
    decreases pids
  {
    hide Woken, Order;
    OrderLength(queue);
    if pids == [] {
      WokenBySlot(queue, |queue|);
    } else {
      var next := Add(queue, pids[0]);
      JoinsLast(queue, pids[0]);
      forall pid | pid in pids[1..] ensures pid !in next {
        var i :| 0 <= i < |pids[1..]| && pids[1..][i] == pid;
        assert pids[0] != pids[i + 1] && pids[i + 1] in pids;
      }
      FirstComeFirstServed(next, pids[1..]);
      assert [pids[0]] + pids[1..] == pids;
    }
  }

  lemma {:induction false} OrderLength(queue: seq<int>)
    ensures |Order(queue)| <= |queue|
    ensures |Order(queue)| < |queue| <==> HasRoom(queue)
  {
    if queue != [] { OrderLength(queue[1..]); }
  }

  /** Behind a wake-up the order is lost: who blocks next takes the slot below the others and is woken before them.
      However often that happens, the others stay where they are. */
  lemma {:induction false} PassedOver(queue: seq<int>, pids: seq<int>)
    requires queue != [] && queue[0] == NO_BLOCKED_QUEUE_VALUE
    requires NO_BLOCKED_QUEUE_VALUE !in pids
    ensures Alternate(queue, pids) == (pids, queue)
    decreases pids
  {
    if pids != [] {
      var next := Add(queue, pids[0]);
      assert pids[0] in pids && next[0] == pids[0];
      assert Drop(next) == queue;
      PassedOver(queue, pids[1..]);
      assert [pids[0]] + pids[1..] == pids;
    }
  }

  /** Each of `pids` in turn blocks, and then one waiter is woken: who is woken, and the queue at the end. */
  function Alternate(queue: seq<int>, pids: seq<int>): (seq<int>, seq<int>)
    decreases pids
  {
    if pids == [] || !HasRoom(queue) then ([], queue)
    else
      var next := Add(queue, pids[0]);
      if !HasWaiter(next) then ([], next)
      else
        var (woken, last) := Alternate(Drop(next), pids[1..]);
        ([Next(next)] + woken, last)
  }

  method GetFreeSpotInBlockedQueue(blocked: array<int>, length: int) returns (index: int)
    requires length == blocked.Length
    ensures index == if HasRoom(blocked[..]) then FirstFree(blocked[..]) else NO_SPACE_LEFT
  {
    var i := 0;
    while i < length
      invariant 0 <= i <= length
      invariant forall j :: 0 <= j < i ==> blocked[j] != NO_BLOCKED_QUEUE_VALUE
    {
      if blocked[i] == NO_BLOCKED_QUEUE_VALUE {
        assert i == FirstFree(blocked[..]);
        return i;
      }
      i := i + 1;
    }
    assert FirstFree(blocked[..]) == |blocked[..]|;
    return NO_SPACE_LEFT;
  }
}
