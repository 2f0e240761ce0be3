/**
 The directory of a BMFS disk and the search of `create` for free blocks (Bootloader/BMFS/bmfs.c).

 A record whose name is empty ends the directory; one whose name starts with DELETED is a deleted
 file. `qsort` is known by its contract only: it is given as the order in which it leaves the slots.
 */
module BmfsDirectory {
  import opened Wrappers

  const DELETED: char := '\U{0001}'
  const MIB := 1048576
  const BLOCK := 2097152

  datatype Entry = Entry(fileName: string, startingBlock: nat, reservedBlocks: nat, fileSize: nat) {
    predicate Ends() { fileName == "" }

    predicate Deleted() { fileName != "" && fileName[0] == DELETED }

    predicate Live() { fileName != "" && fileName[0] != DELETED }

    /** The first block after the file. */
    function End(): nat { startingBlock + reservedBlocks }
  }

  /** Names that fit into a record and are no marker. */
  predicate IsName(name: string) {
    1 <= |name| <= 31 && name[0] != DELETED
  }

  // ----- scanning the directory -----

  /** The slot of the terminator, or the number of slots if there is none. */
  function UsedFrom(dir: seq<Entry>, k: nat): (r: nat)
    requires k <= |dir|
    ensures k <= r <= |dir| && (r < |dir| ==> dir[r].Ends())
    ensures forall i :: k <= i < r ==> !dir[i].Ends()
    decreases |dir| - k
  {
    if k == |dir| || dir[k].Ends() then k else UsedFrom(dir, k + 1)
  }

  function Used(dir: seq<Entry>): (r: nat)
    ensures r <= |dir| && (r < |dir| ==> dir[r].Ends())
    ensures forall i :: 0 <= i < r ==> !dir[i].Ends()
  {
    UsedFrom(dir, 0)
  }

  predicate HasTerminator(dir: seq<Entry>) { Used(dir) < |dir| }

  lemma {:induction false} UsedIs(dir: seq<Entry>, n: nat, k: nat)
    requires k <= n <= |dir| && (n < |dir| ==> dir[n].Ends()) && forall i :: k <= i < n ==> !dir[i].Ends()
    ensures UsedFrom(dir, k) == n
    decreases n - k
  {
    if k < n { UsedIs(dir, n, k + 1); }
  }

  /** A file that `findfile` can see. */
  predicate Visible(dir: seq<Entry>, i: int) {
    0 <= i < Used(dir) && dir[i].Live()
  }

  function FindFrom(dir: seq<Entry>, name: string, k: nat): (r: Option<nat>)
    requires k <= |dir|
    ensures r.Some? ==> k <= r.value < |dir| && dir[r.value].Live() && dir[r.value].fileName == name
    decreases |dir| - k
  {
    if k == |dir| || dir[k].Ends() then None
    else if dir[k].Live() && dir[k].fileName == name then Some(k)
    else FindFrom(dir, name, k + 1)
  }

  /** The slot that `findfile` finds. */
  function Find(dir: seq<Entry>, name: string): (r: Option<nat>)
    ensures r.Some? ==> r.value < |dir| && dir[r.value].Live() && dir[r.value].fileName == name
  {
    FindFrom(dir, name, 0)
  }

  lemma {:induction false} FindFromIs(dir: seq<Entry>, name: string, k: nat)
    requires k <= Used(dir)
    ensures match FindFrom(dir, name, k)
            case Some(i) => Visible(dir, i) && forall j :: k <= j < i && Visible(dir, j) ==> dir[j].fileName != name
            case None => forall j :: k <= j && Visible(dir, j) ==> dir[j].fileName != name
    decreases |dir| - k
  {
    if k < Used(dir) { FindFromIs(dir, name, k + 1); }
  }

  /** The first record that can be reused: a deleted one or the terminator; -1 if there is none. */
  function FreeFrom(dir: seq<Entry>, k: nat): (r: int)
    requires k <= |dir|
    ensures r == -1 || (k <= r < |dir| && !dir[r].Live())
    decreases |dir| - k
  {
    if k == |dir| then -1 else if !dir[k].Live() then k else FreeFrom(dir, k + 1)
  }

  /** What `create` counts: the slots before the terminator, or 0 if there is none. */
  function NumUsed(dir: seq<Entry>): nat {
    if HasTerminator(dir) then Used(dir) else 0
  }

  lemma {:induction false} FreeIsUsable(dir: seq<Entry>, k: nat)
    requires k <= Used(dir)
    ensures var f := FreeFrom(dir, k);
            && f <= Used(dir)
            && (f == -1 ==> !HasTerminator(dir) && forall i :: k <= i < |dir| ==> dir[i].Live())
            && (f != -1 ==> f >= k && (f == Used(dir) || dir[f].Deleted()))
    decreases Used(dir) - k
  {
    if k < Used(dir) { FreeIsUsable(dir, k + 1); }
  }

  // ----- the search for free blocks -----

  /** What `qsort` may do to the first `|order|` records: every slot comes exactly once, live records
      come first by their starting block, deleted ones last in any order. */
  ghost predicate Qsorted(dir: seq<Entry>, order: seq<nat>) {
    && |order| <= |dir|
    && (forall t :: 0 <= t < |order| ==> order[t] < |order|)
    && (forall t, u :: 0 <= t < u < |order| ==> order[t] != order[u])
    && (forall i :: 0 <= i < |order| ==> i in order)
    && (forall t, u :: 0 <= t < u < |order| && dir[order[u]].Live() ==>
          dir[order[t]].Live() && dir[order[t]].startingBlock <= dir[order[u]].startingBlock)
  }

  const TWO64 := 0x1_0000_0000_0000_0000

  function Minus64(a: int, b: int): nat { (a - b) % TWO64 }

  /** The search: the loop at record `t`, with `prev` for prev_file_end; 0 if nothing was found. */
  function Place(dir: seq<Entry>, numBlocks: nat, order: seq<nat>, requested: nat, t: nat, prev: nat): nat
    requires t <= |order| && forall u :: 0 <= u < |order| ==> order[u] < |dir|
    decreases |order| - t
  {
    var thisFileStart := if t == |order| || dir[order[t]].Deleted() then numBlocks - 1 else dir[order[t]].startingBlock;
    if Minus64(thisFileStart, prev) >= requested then prev
    else if t == |order| then 0
    else Place(dir, numBlocks, order, requested, t + 1, dir[order[t]].End())
  }

  /** The two sides of the subtraction at record `t`, if the scan gets there. */
  function Gap(dir: seq<Entry>, numBlocks: nat, order: seq<nat>, t: nat): (int, int)
    requires t <= |order| && forall u :: 0 <= u < |order| ==> order[u] < |dir|
  {
    (if t == |order| || dir[order[t]].Deleted() then numBlocks - 1 else dir[order[t]].startingBlock,
     if t == 0 then 1 else dir[order[t - 1]].End())
  }

  /** The unsigned subtraction never wraps, whatever record the scan has reached. */
  lemma NeverWraps(dir: seq<Entry>, numBlocks: nat, order: seq<nat>, t: nat)
    requires Ok(dir, numBlocks) && |order| == Used(dir) && Qsorted(dir, order) && t <= |order|
    ensures var (start, prev) := Gap(dir, numBlocks, order, t);
            0 <= prev <= start && Minus64(start, prev) == start - prev
  {
    if t > 0 {
      assert InData(dir[order[t - 1]], numBlocks);
      if t < |order| && dir[order[t]].Live() {
        assert Visible(dir, order[t - 1]) && Visible(dir, order[t]) && Apart(dir[order[t - 1]], dir[order[t]]);
      }
    }
    if t < |order| { assert InData(dir[order[t]], numBlocks); }
  }

  /** Every record lies in the data area, and files neither share blocks nor names. */
  ghost predicate Ok(dir: seq<Entry>, numBlocks: nat) {
    && 3 <= numBlocks < TWO64
    && (forall i :: 0 <= i < Used(dir) ==> InData(dir[i], numBlocks))
    && (forall i :: Visible(dir, i) ==> dir[i].fileSize <= dir[i].reservedBlocks * BLOCK)
    && (forall i, j :: Visible(dir, i) && Visible(dir, j) && i != j ==>
          Apart(dir[i], dir[j]) && dir[i].fileName != dir[j].fileName)
  }

  predicate InData(e: Entry, numBlocks: nat) {
    1 <= e.startingBlock && 1 <= e.reservedBlocks && e.End() <= numBlocks - 1
  }

  predicate Apart(a: Entry, b: Entry) {
    a.End() <= b.startingBlock || b.End() <= a.startingBlock
  }

  /** The blocks `p` to `p + requested` are in the data area and belong to no file. */
  ghost predicate FreeAt(dir: seq<Entry>, numBlocks: nat, requested: nat, p: nat) {
    && 1 <= p && p + requested <= numBlocks - 1
    && forall i :: Visible(dir, i) ==> p + requested <= dir[i].startingBlock || dir[i].End() <= p
  }

  /** Some run of free blocks is long enough. */
  ghost predicate SomeGapFits(dir: seq<Entry>, numBlocks: nat, requested: nat) {
    exists p :: FreeAt(dir, numBlocks, requested, p)
  }

  /** A deleted record is followed by enough blocks, free or not. */
  ghost predicate SomeStaleFits(dir: seq<Entry>, numBlocks: nat, requested: nat) {
    exists i :: 0 <= i < Used(dir) && dir[i].Deleted() && dir[i].End() + requested <= numBlocks - 1
  }

  /** Everything before `prev` has been looked at. */
  ghost predicate Swept(dir: seq<Entry>, numBlocks: nat, order: seq<nat>, requested: nat, t: nat, prev: nat)
    requires forall u :: 0 <= u < |order| ==> order[u] < |dir|
  {
    && t <= |order| && 1 <= prev <= numBlocks - 1
    && (forall u :: 0 <= u < t ==> dir[order[u]].End() <= prev)
    && (forall u :: t <= u < |order| && dir[order[u]].Live() ==> prev <= dir[order[u]].startingBlock)
    && (forall p :: FreeAt(dir, numBlocks, requested, p) ==> prev <= p)
  }

  lemma SweepOne(dir: seq<Entry>, numBlocks: nat, order: seq<nat>, requested: nat, t: nat, prev: nat)
    requires Ok(dir, numBlocks) && |order| == Used(dir) && Qsorted(dir, order) && requested >= 1
    requires t < |order| && dir[order[t]].Live() && Swept(dir, numBlocks, order, requested, t, prev)
    requires dir[order[t]].startingBlock - prev < requested
    ensures Swept(dir, numBlocks, order, requested, t + 1, dir[order[t]].End())
  {
    var i := order[t];
    assert Visible(dir, i) && InData(dir[i], numBlocks);
    forall u | t < u < |order| && dir[order[u]].Live()
      ensures dir[i].End() <= dir[order[u]].startingBlock
    {
      assert Visible(dir, order[u]) && Apart(dir[i], dir[order[u]]);
      assert InData(dir[order[u]], numBlocks);
    }
    forall p | FreeAt(dir, numBlocks, requested, p) ensures dir[i].End() <= p { }
  }

  /** The gap before record `t` fits: nothing lower is free. */
  lemma GapFits(dir: seq<Entry>, numBlocks: nat, order: seq<nat>, requested: nat, t: nat, prev: nat)
    requires Ok(dir, numBlocks) && |order| == Used(dir) && Qsorted(dir, order)
    requires Swept(dir, numBlocks, order, requested, t, prev) && t <= |order|
    requires t < |order| && dir[order[t]].Live() ==> requested <= dir[order[t]].startingBlock - prev
    requires prev + requested <= numBlocks - 1
    ensures FreeAt(dir, numBlocks, requested, prev)
  {
    forall i | Visible(dir, i) ensures prev + requested <= dir[i].startingBlock || dir[i].End() <= prev {
      assert i in order;
      var u :| 0 <= u < |order| && order[u] == i;
      if u > t { assert dir[order[t]].Live(); }
    }
  }

  /** After the live records the search goes on with the ends of deleted files: it takes one if
      there are enough blocks after it, no matter whose they are. */
  lemma {:induction false} PlaceStale(dir: seq<Entry>, numBlocks: nat, order: seq<nat>, requested: nat, t: nat, prev: nat)
    requires Ok(dir, numBlocks) && |order| == Used(dir) && Qsorted(dir, order)
    requires t <= |order| && 1 <= prev <= numBlocks - 1
    requires forall u :: t <= u < |order| ==> dir[order[u]].Deleted()
    ensures var r := Place(dir, numBlocks, order, requested, t, prev);
            && (prev + requested <= numBlocks - 1 ==> r == prev)
            && (r != 0 ==> r + requested <= numBlocks - 1 && r >= 1)
            && (r != 0 && r != prev ==> SomeStaleFits(dir, numBlocks, requested))
            && (r == 0 ==> forall u :: t <= u < |order| ==> dir[order[u]].End() + requested > numBlocks - 1)
    decreases |order| - t
  {
    if prev + requested > numBlocks - 1 && t < |order| {
      assert InData(dir[order[t]], numBlocks);
      PlaceStale(dir, numBlocks, order, requested, t + 1, dir[order[t]].End());
    }
  }

  lemma OnlyDeletedLeft(dir: seq<Entry>, order: seq<nat>, t: nat)
    requires |order| == Used(dir) && Qsorted(dir, order) && t <= |order|
    requires t < |order| ==> !dir[order[t]].Live()
    ensures forall u :: t <= u < |order| ==> dir[order[u]].Deleted()
  {
  }

  lemma {:induction false} PlaceIsLowest(dir: seq<Entry>, numBlocks: nat, order: seq<nat>, requested: nat, t: nat, prev: nat)
    requires Ok(dir, numBlocks) && |order| == Used(dir) && Qsorted(dir, order) && requested >= 1
    requires Swept(dir, numBlocks, order, requested, t, prev)
    ensures var r := Place(dir, numBlocks, order, requested, t, prev);
            && (forall p :: FreeAt(dir, numBlocks, requested, p) ==> FreeAt(dir, numBlocks, requested, r) && r <= p)
            && (r != 0 ==> 1 <= r && r + requested <= numBlocks - 1)
            && (r != 0 ==> SomeGapFits(dir, numBlocks, requested) || SomeStaleFits(dir, numBlocks, requested))
            && (r == 0 ==> forall u :: t <= u < |order| && dir[order[u]].Deleted() ==> dir[order[u]].End() + requested > numBlocks - 1)
    decreases |order| - t
  {
    hide Used;
    if t < |order| && dir[order[t]].Live() {
      assert InData(dir[order[t]], numBlocks);
      if dir[order[t]].startingBlock - prev >= requested {
        GapFits(dir, numBlocks, order, requested, t, prev);
      } else {
        SweepOne(dir, numBlocks, order, requested, t, prev);
        PlaceIsLowest(dir, numBlocks, order, requested, t + 1, dir[order[t]].End());
      }
    } else {
      OnlyDeletedLeft(dir, order, t);
      PlaceStale(dir, numBlocks, order, requested, t, prev);
      if prev + requested <= numBlocks - 1 { GapFits(dir, numBlocks, order, requested, t, prev); }
    }
  }

  // ----- the commands on the directory -----

  datatype Answer = Done | AlreadyExists | NoFreeEntry | NoRoom | NotFound | TooLarge | NoLocalFile

  /** The blocks for a size in MiB, rounded up to an even one: enough for the size, and no block too many. */
  function BlocksFor(maxsize: nat): (blocks: nat)
    ensures maxsize * MIB <= blocks * BLOCK < maxsize * MIB + BLOCK
  {
    (maxsize + maxsize % 2) / 2
  }

  function AfterCreate(dir: seq<Entry>, numBlocks: nat, name: string, maxsize: nat, order: seq<nat>): (r: (Answer, seq<Entry>))
    requires forall u :: 0 <= u < |order| ==> order[u] < |dir|
    ensures |r.1| == |dir|
  {
    var slot := FreeFrom(dir, 0);
    var used := NumUsed(dir);
    if Find(dir, name).Some? then (AlreadyExists, dir)
    else if slot == -1 then (NoFreeEntry, dir)
    else
      var start := Place(dir, numBlocks, order, BlocksFor(maxsize), 0, 1);
      if start == 0 then (NoRoom, dir)
      else
        var d := dir[slot := Entry(name, start, BlocksFor(maxsize), 0)];
        (Done, if slot == used && used + 1 < |dir| then d[used + 1 := d[used + 1].(fileName := "")] else d)
  }

  function AfterDelete(dir: seq<Entry>, name: string): (r: (Answer, seq<Entry>))
    ensures |r.1| == |dir|
  {
    var slot := Find(dir, name);
    if slot.None? then (NotFound, dir)
    else (Done, dir[slot.value := dir[slot.value].(fileName := [DELETED] + name[1..])])
  }

  /** The directory gains the file `e` in slot `f` and is otherwise as it was. */
  ghost predicate Adds(dir: seq<Entry>, next: seq<Entry>, f: nat, e: Entry) {
    && |next| == |dir| && f < |dir| && next[f] == e && !Visible(dir, f)
    && (forall i :: Visible(next, i) <==> Visible(dir, i) || i == f)
    && (forall i :: Visible(dir, i) ==> next[i] == dir[i])
  }

  lemma NewRecord(dir: seq<Entry>, f: nat, e: Entry)
    requires HasTerminator(dir) && f == FreeFrom(dir, 0) && e.Live()
    ensures var used := Used(dir);
            var d := dir[f := e];
            var next := if f == used && used + 1 < |dir| then d[used + 1 := d[used + 1].(fileName := "")] else d;
            && Adds(dir, next, f, e) && Used(next) == (if f == used then used + 1 else used)
            && forall i :: 0 <= i < Used(next) && i != f ==> next[i] == dir[i]
  {
    FreeIsUsable(dir, 0);
    var used := Used(dir);
    var d := dir[f := e];
    var next := if f == used && used + 1 < |dir| then d[used + 1 := d[used + 1].(fileName := "")] else d;
    UsedIs(next, if f == used then used + 1 else used, 0);
  }

  lemma PlaceFromStart(dir: seq<Entry>, numBlocks: nat, order: seq<nat>, requested: nat)
    requires Ok(dir, numBlocks) && |order| == Used(dir) && Qsorted(dir, order) && requested >= 1
    ensures var r := Place(dir, numBlocks, order, requested, 0, 1);
            && (SomeGapFits(dir, numBlocks, requested) ==> FreeAt(dir, numBlocks, requested, r))
            && (forall p :: FreeAt(dir, numBlocks, requested, p) ==> r <= p)
            && (r != 0 <==> SomeGapFits(dir, numBlocks, requested) || SomeStaleFits(dir, numBlocks, requested))
            && (r != 0 ==> r + requested <= numBlocks - 1)
  {
    PlaceIsLowest(dir, numBlocks, order, requested, 0, 1);
    if SomeStaleFits(dir, numBlocks, requested) {
      var i :| 0 <= i < Used(dir) && dir[i].Deleted() && dir[i].End() + requested <= numBlocks - 1;
      assert i in order;
    }
  }

  lemma FindIs(dir: seq<Entry>, numBlocks: nat, name: string, i: nat)
    requires Ok(dir, numBlocks) && Visible(dir, i) && dir[i].fileName == name
    ensures Find(dir, name) == Some(i)
  {
    FindFromIs(dir, name, 0);
  }

  lemma NotFoundIs(dir: seq<Entry>, name: string)
    ensures Find(dir, name).None? <==> forall i :: Visible(dir, i) ==> dir[i].fileName != name
    ensures Find(dir, name).Some? ==> Visible(dir, Find(dir, name).value)
  {
    FindFromIs(dir, name, 0);
  }

  /** A new record keeps the directory in order exactly when its blocks were free. */
  lemma AddsKeepsOk(dir: seq<Entry>, next: seq<Entry>, numBlocks: nat, f: nat, e: Entry)
    requires Ok(dir, numBlocks) && Adds(dir, next, f, e) && InData(e, numBlocks) && e.fileSize == 0
    requires forall i :: Visible(dir, i) ==> dir[i].fileName != e.fileName
    requires forall i :: 0 <= i < Used(next) && i != f ==> i < Used(dir) && next[i] == dir[i]
    ensures Ok(next, numBlocks) <==> FreeAt(dir, numBlocks, e.reservedBlocks, e.startingBlock)
  {
    hide Used;
    if Ok(next, numBlocks) {
      forall i | Visible(dir, i) ensures e.End() <= dir[i].startingBlock || dir[i].End() <= e.startingBlock {
        assert Visible(next, i) && Visible(next, f) && Apart(next[i], next[f]);
      }
    }
  }

  /** `create` of an absent name, completely. If some run of free blocks is long enough, the lowest
      one gets the file. If not, it refuses and changes nothing, unless a deleted record has enough
      blocks after it: then the file is placed there, over blocks of another file. */
  lemma Create(dir: seq<Entry>, numBlocks: nat, name: string, maxsize: nat, order: seq<nat>)
    requires Ok(dir, numBlocks) && HasTerminator(dir) && IsName(name) && maxsize >= 1
    requires |order| == NumUsed(dir) && Qsorted(dir, order) && Find(dir, name).None?
    ensures var (answer, next) := AfterCreate(dir, numBlocks, name, maxsize, order);
            var n := BlocksFor(maxsize);
            var p := Place(dir, numBlocks, order, n, 0, 1);
            var gap, stale := SomeGapFits(dir, numBlocks, n), SomeStaleFits(dir, numBlocks, n);
            && (answer == Done ==> Adds(dir, next, FreeFrom(dir, 0), Entry(name, p, n, 0)))
            && (gap ==> answer == Done && FreeAt(dir, numBlocks, n, p) && forall q :: FreeAt(dir, numBlocks, n, q) ==> p <= q)
            && (!gap && stale ==> answer == Done)
            && (!gap && !stale ==> answer == NoRoom && next == dir)
            && (Ok(next, numBlocks) <==> gap || !stale)
  {
    hide Used, FreeAt, SomeGapFits, SomeStaleFits, Visible, Place;
    var n := BlocksFor(maxsize);
    var p := Place(dir, numBlocks, order, n, 0, 1);
    var f := FreeFrom(dir, 0);
    var e := Entry(name, p, n, 0);
    FreeIsUsable(dir, 0);
    PlaceFromStart(dir, numBlocks, order, n);
    NotFoundIs(dir, name);
    if p != 0 {
      NewRecord(dir, f, e);
      AddsKeepsOk(dir, AfterCreate(dir, numBlocks, name, maxsize, order).1, numBlocks, f, e);
      if FreeAt(dir, numBlocks, n, p) { GapIs(dir, numBlocks, n, p); }
    }
  }

  lemma GapIs(dir: seq<Entry>, numBlocks: nat, requested: nat, p: nat)
    requires FreeAt(dir, numBlocks, requested, p)
    ensures SomeGapFits(dir, numBlocks, requested)
  {
  }

  /** Without deleted records `create` refuses exactly when no gap is long enough. */
  lemma CreateWithoutDeleted(dir: seq<Entry>, numBlocks: nat, name: string, maxsize: nat, order: seq<nat>)
    requires Ok(dir, numBlocks) && HasTerminator(dir) && IsName(name) && maxsize >= 1
    requires |order| == NumUsed(dir) && Qsorted(dir, order) && Find(dir, name).None?
    requires forall i :: 0 <= i < Used(dir) ==> !dir[i].Deleted()
    ensures var (answer, next) := AfterCreate(dir, numBlocks, name, maxsize, order);
            && Ok(next, numBlocks)
            && (answer == Done <==> SomeGapFits(dir, numBlocks, BlocksFor(maxsize)))
            && (answer == NoRoom && next == dir <==> !SomeGapFits(dir, numBlocks, BlocksFor(maxsize)))
  {
    hide Ok, Used, FreeAt, SomeGapFits, Visible, Place, AfterCreate, Adds;
    Create(dir, numBlocks, name, maxsize, order);
  }

  lemma PlaceAtOne(dir: seq<Entry>, numBlocks: nat, requested: nat)
    requires 3 <= numBlocks < TWO64
    ensures Place(dir, numBlocks, [], requested, 0, 1) == if 1 + requested <= numBlocks - 1 then 1 else 0
  {
  }

  /** With every slot in use or deleted there is no terminator, and `create` counts no record at
      all: it takes the first data block, whoever owns it, so that files stay apart exactly if the
      blocks from there on were free. If slot 0 is the deleted one it also ends the directory after
      it, and every other file is gone. */
  lemma CreateWithoutTerminator(dir: seq<Entry>, numBlocks: nat, name: string, maxsize: nat)
    requires !HasTerminator(dir) && 3 <= numBlocks < TWO64 && IsName(name) && maxsize >= 1
    requires Find(dir, name).None? && FreeFrom(dir, 0) != -1
    ensures var (answer, next) := AfterCreate(dir, numBlocks, name, maxsize, []);
            var n, f := BlocksFor(maxsize), FreeFrom(dir, 0);
            && (answer == Done <==> 1 + n <= numBlocks - 1)
            && (answer != Done ==> next == dir)
            && (answer == Done ==> next[f] == Entry(name, 1, n, 0))
            && (answer == Done && f == 0 ==> forall i :: Visible(next, i) <==> i == 0)
            && (answer == Done && f > 0 ==> Adds(dir, next, f, Entry(name, 1, n, 0)))
            && (Ok(dir, numBlocks) ==> (Ok(next, numBlocks) <==> answer != Done || f == 0 || FreeAt(dir, numBlocks, n, 1)))
  {
    hide Place, Find, FreeFrom, Minus64, Ok, FreeAt, UsedFrom;
    PlaceAtOne(dir, numBlocks, BlocksFor(maxsize));
    NotFoundIs(dir, name);
    FreeIsUsable(dir, 0);
    var (answer, next) := AfterCreate(dir, numBlocks, name, maxsize, []);
    var n, f := BlocksFor(maxsize), FreeFrom(dir, 0);
    var e := Entry(name, 1, n, 0);
    if answer == Done && f == 0 {
      UsedIs(next, 1, 0);
      OnlyFileOk(next, numBlocks);
    } else if answer == Done {
      UsedIs(next, |dir|, 0);
      if Ok(dir, numBlocks) { AddsKeepsOk(dir, next, numBlocks, f, e); }
    }
  }

  lemma OnlyFileOk(dir: seq<Entry>, numBlocks: nat)
    requires 3 <= numBlocks < TWO64 && Used(dir) == 1 && InData(dir[0], numBlocks) && dir[0].fileSize == 0
    ensures Ok(dir, numBlocks)
  {
  }

  /** Every file is still there, as it was. */
  ghost predicate KeepsFiles(dir: seq<Entry>, next: seq<Entry>) {
    forall i :: Visible(dir, i) ==> Visible(next, i) && next[i] == dir[i]
  }

  /** What a caller can check before: no slot is free; or there is a terminator, and a run of free
      blocks fits or no deleted record has room after it; or there is none, and the file is too large
      for the disk, or the first blocks are free and slot 0 is not the one to be used, or no file is
      visible at all. */
  ghost predicate Harmless(dir: seq<Entry>, numBlocks: nat, requested: nat) {
    || FreeFrom(dir, 0) == -1
    || (if HasTerminator(dir) then SomeGapFits(dir, numBlocks, requested) || !SomeStaleFits(dir, numBlocks, requested)
        else || 1 + requested > numBlocks - 1
             || (FreeFrom(dir, 0) > 0 && FreeAt(dir, numBlocks, requested, 1))
             || (FreeFrom(dir, 0) == 0 && forall i :: !Visible(dir, i)))
  }

  /** From every directory in order, with or without a terminator: `create` keeps all files, and
      keeps them apart, exactly in these cases. */
  lemma CreateKeepsFiles(dir: seq<Entry>, numBlocks: nat, name: string, maxsize: nat, order: seq<nat>)
    requires Ok(dir, numBlocks) && IsName(name) && maxsize >= 1
    requires |order| == NumUsed(dir) && Qsorted(dir, order) && Find(dir, name).None?
    ensures var (answer, next) := AfterCreate(dir, numBlocks, name, maxsize, order);
            var n := BlocksFor(maxsize);
            && (Ok(next, numBlocks) && KeepsFiles(dir, next) <==> Harmless(dir, numBlocks, n))
            && (answer != Done ==> next == dir)
            && (Harmless(dir, numBlocks, n) && answer == Done ==>
                  var f := FreeFrom(dir, 0);
                  f >= 0 && next[f].fileName == name && next[f].reservedBlocks == n && Adds(dir, next, f, next[f]) && next[f].fileSize == 0)
  {
    hide Used, FreeAt, SomeGapFits, SomeStaleFits, Place, FreeFrom, Find, Ok;
    var n, f := BlocksFor(maxsize), FreeFrom(dir, 0);
    if HasTerminator(dir) {
      FreeIsUsable(dir, 0);
      Create(dir, numBlocks, name, maxsize, order);
    } else if f != -1 {
      AtLeastThree(dir, numBlocks);
      assert order == [];
      CreateWithoutTerminator(dir, numBlocks, name, maxsize);
    }
  }

  lemma AtLeastThree(dir: seq<Entry>, numBlocks: nat)
    requires Ok(dir, numBlocks)
    ensures 3 <= numBlocks < TWO64
  {
  }

  /** The directory loses the file in slot `f` and is otherwise as it was. */
  lemma Delete(dir: seq<Entry>, numBlocks: nat, name: string)
    requires Ok(dir, numBlocks) && Find(dir, name).Some?
    ensures var next := AfterDelete(dir, name).1;
            var f := Find(dir, name).value;
            && Ok(next, numBlocks)
            && (forall i :: Visible(next, i) <==> Visible(dir, i) && i != f)
            && (forall i :: Visible(next, i) ==> next[i] == dir[i])
  {
    var next := AfterDelete(dir, name).1;
    NotFoundIs(dir, name);
    UsedIs(next, Used(dir), 0);
  }
}
