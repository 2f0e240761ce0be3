/**
 Concrete disks on which `create` puts one file over another, or loses files. The general conditions
 are `BmfsDirectory.Create` and `BmfsDirectory.CreateKeepsFiles`.
 */
module BmfsFailures {
  import opened Wrappers
  import opened Bytes
  import opened BmfsDirectory
  import opened Bmfs

  // ----- without a terminator -----

  /** Such directories exist: with two slots, a file over the blocks of another, and a file that
      takes the place of all others. */
  lemma WithoutTerminatorFails()
    ensures var dir := [Entry("a", 1, 1, 0), Entry([DELETED], 2, 1, 0)];
            && Ok(dir, 4) && !HasTerminator(dir) && Find(dir, "b").None?
            && AfterCreate(dir, 4, "b", 2, []) == (Done, dir[1 := Entry("b", 1, 1, 0)])
            && !Ok(dir[1 := Entry("b", 1, 1, 0)], 4)
    ensures var dir := [Entry([DELETED], 1, 1, 0), Entry("a", 2, 1, 0)];
            && Ok(dir, 4) && !HasTerminator(dir) && Find(dir, "b").None?
            && AfterCreate(dir, 4, "b", 2, []) == (Done, [Entry("b", 1, 1, 0), Entry("", 2, 1, 0)])
            && Visible(dir, 1) && !Visible([Entry("b", 1, 1, 0), Entry("", 2, 1, 0)], 1)
  {
    var over := [Entry("a", 1, 1, 0), Entry([DELETED], 2, 1, 0)];
    UsedIs(over, 2, 0);
    UsedIs(over[1 := Entry("b", 1, 1, 0)], 2, 0);
    assert Visible(over[1 := Entry("b", 1, 1, 0)], 0) && Visible(over[1 := Entry("b", 1, 1, 0)], 1);
    PlaceAtOne(over, 4, 1);
    assert FreeFrom(over, 1) == 1 && FreeFrom(over, 0) == 1;
    assert BlocksFor(2) == 1 && Place(over, 4, [], 1, 0, 1) == 1;
    var lost := [Entry([DELETED], 1, 1, 0), Entry("a", 2, 1, 0)];
    UsedIs(lost, 2, 0);
    UsedIs([Entry("b", 1, 1, 0), Entry("", 2, 1, 0)], 1, 0);
    PlaceAtOne(lost, 4, 1);
    assert Place(lost, 4, [], 1, 0, 1) == 1;
    assert lost[0 := Entry("b", 1, 1, 0)][1 := Entry("", 2, 1, 0)] == [Entry("b", 1, 1, 0), Entry("", 2, 1, 0)];
  }

  // ----- with deleted records: a run from a formatted disk -----

  lemma Chain(v: Volume, command: Command, w: Volume, rest: seq<Command>)
    requires VolumeOk(v) && Allowed(v, command) && Do(v, command).1 == w
    requires VolumeOk(w) && Legal(w, rest)
    ensures Legal(v, [command] + rest) && Run(v, [command] + rest) == Run(w, rest)
  {
    hide Ok, Do, Allowed;
    assert ([command] + rest)[1..] == rest;
  }

  const UNUSED := Entry("", 0, 0, 0)
  const GONE: string := [DELETED]

  /** The directory of a disk of seven blocks, with an unused third slot. */
  function Small(a: Entry, b: Entry): seq<Entry> { [a, b, UNUSED] }

  /** Files `a` and `b` of one block each, and `c` of four blocks. */
  const FILE_A := Entry("a", 1, 1, 0)
  const FILE_B := Entry("b", 2, 1, 0)
  const FILE_C := Entry("c", 1, 4, 0)
  const GONE_A := Entry(GONE, 1, 1, 0)
  const GONE_B := Entry(GONE, 2, 1, 0)

  lemma Creates(bytes: seq<Byte>, dir: seq<Entry>, next: seq<Entry>, name: string, maxsize: nat, order: seq<nat>, p: nat)
    requires NumBlocks(|bytes|) == 7 && Ok(dir, 7) && HasTerminator(dir) && IsName(name) && maxsize >= 1
    requires |order| == Used(dir) && Qsorted(dir, order) && Find(dir, name).None?
    requires FreeAt(dir, 7, BlocksFor(maxsize), p) && AfterCreate(dir, 7, name, maxsize, order) == (Done, next)
    ensures var c := CreateFile(name, maxsize, order);
            var v := Volume(dir, bytes);
            VolumeOk(v) && Allowed(v, c) && Do(v, c) == (Done, Volume(next, bytes)) && VolumeOk(Volume(next, bytes))
  {
    hide Ok, Qsorted, Used, FreeAt, AfterCreate;
    GapIs(dir, 7, BlocksFor(maxsize), p);
    hide SomeGapFits;
    Effect(Volume(dir, bytes), CreateFile(name, maxsize, order));
  }

  lemma Deletes(bytes: seq<Byte>, dir: seq<Entry>, next: seq<Entry>, name: string)
    requires NumBlocks(|bytes|) == 7 && Ok(dir, 7) && AfterDelete(dir, name) == (Done, next)
    ensures var v := Volume(dir, bytes);
            VolumeOk(v) && Allowed(v, DeleteFile(name)) && Do(v, DeleteFile(name)) == (Done, Volume(next, bytes)) && VolumeOk(Volume(next, bytes))
  {
    hide Ok, AfterDelete;
    Effect(Volume(dir, bytes), DeleteFile(name));
  }

  lemma FirstFile()
    ensures Ok(Small(UNUSED, UNUSED), 7)
    ensures AfterCreate(Small(UNUSED, UNUSED), 7, "a", 2, []) == (Done, Small(FILE_A, UNUSED))
    ensures HasTerminator(Small(UNUSED, UNUSED)) && Qsorted(Small(UNUSED, UNUSED), [])
    ensures Used(Small(UNUSED, UNUSED)) == 0 && Find(Small(UNUSED, UNUSED), "a").None? && FreeAt(Small(UNUSED, UNUSED), 7, 1, 1)
  {
    var dir := Small(UNUSED, UNUSED);
    UsedIs(dir, 0, 0);
    assert Place(dir, 7, [], 1, 0, 1) == 1;
    assert FreeFrom(dir, 0) == 0;
    assert dir[0 := FILE_A][1 := UNUSED] == Small(FILE_A, UNUSED);
  }

  lemma SecondFile()
    ensures AfterCreate(Small(FILE_A, UNUSED), 7, "b", 2, [0]) == (Done, Small(FILE_A, FILE_B))
    ensures HasTerminator(Small(FILE_A, UNUSED)) && Used(Small(FILE_A, UNUSED)) == 1 && Find(Small(FILE_A, UNUSED), "b").None? && FreeAt(Small(FILE_A, UNUSED), 7, 1, 2)
    ensures Qsorted(Small(FILE_A, UNUSED), [0])
  {
    var dir := Small(FILE_A, UNUSED);
    UsedIs(dir, 1, 0);
    assert FindFrom(dir, "b", 1) == None;
    assert FreeFrom(dir, 1) == 1;
    assert Place(dir, 7, [0], 1, 1, 2) == 2;
    assert dir[1 := FILE_B][2 := UNUSED] == Small(FILE_A, FILE_B);
  }

  lemma BothDeleted()
    ensures AfterDelete(Small(FILE_A, FILE_B), "a") == (Done, Small(GONE_A, FILE_B))
    ensures AfterDelete(Small(GONE_A, FILE_B), "b") == (Done, Small(GONE_A, GONE_B))
  {
    assert Find(Small(FILE_A, FILE_B), "a") == Some(0);
    assert FindFrom(Small(GONE_A, FILE_B), "b", 1) == Some(1);
    assert [DELETED] + "a"[1..] == GONE && [DELETED] + "b"[1..] == GONE;
    assert Small(FILE_A, FILE_B)[0 := GONE_A] == Small(GONE_A, FILE_B);
    assert Small(GONE_A, FILE_B)[1 := GONE_B] == Small(GONE_A, GONE_B);
  }

  lemma ThirdFile()
    ensures AfterCreate(Small(GONE_A, GONE_B), 7, "c", 8, [0, 1]) == (Done, Small(FILE_C, GONE_B))
    ensures var dir := Small(GONE_A, GONE_B);
            HasTerminator(dir) && Used(dir) == 2 && Find(dir, "c").None? && FreeAt(dir, 7, 4, 1) && Qsorted(dir, [0, 1])
  {
    var dir := Small(GONE_A, GONE_B);
    UsedIs(dir, 2, 0);
    assert FindFrom(dir, "c", 2) == None && FindFrom(dir, "c", 1) == None;
    assert FreeFrom(dir, 0) == 0;
    assert Place(dir, 7, [0, 1], 4, 0, 1) == 1;
    assert dir[0 := FILE_C] == Small(FILE_C, GONE_B);
  }

  /** The scan goes on from the end of the deleted `b`, into the blocks of `c`. */
  lemma FourthFile()
    ensures var dir := Small(FILE_C, GONE_B);
            && HasTerminator(dir) && Find(dir, "d").None? && Qsorted(dir, [0, 1])
            && !SomeGapFits(dir, 7, 2) && SomeStaleFits(dir, 7, 2)
            && AfterCreate(dir, 7, "d", 4, [0, 1]) == (Done, Small(FILE_C, Entry("d", 3, 2, 0)))
            && !Ok(Small(FILE_C, Entry("d", 3, 2, 0)), 7)
  {
    var dir := Small(FILE_C, GONE_B);
    UsedIs(dir, 2, 0);
    assert Visible(dir, 0) && dir[1].Deleted();
    assert FindFrom(dir, "d", 2) == None && FindFrom(dir, "d", 1) == None;
    assert FreeFrom(dir, 1) == 1;
    assert Place(dir, 7, [0, 1], 2, 2, 3) == 3;
    assert Place(dir, 7, [0, 1], 2, 1, 5) == 3;
    var next := Small(FILE_C, Entry("d", 3, 2, 0));
    assert dir[1 := Entry("d", 3, 2, 0)] == next;
    UsedIs(next, 2, 0);
    assert Visible(next, 0) && Visible(next, 1);
  }

  /** A run of allowed commands from a formatted disk after which `create` puts one file over
      another: two files are created and deleted, and a third one is created over both. */
  lemma DeletedRecordsMislead(bytes: seq<Byte>)
    requires NumBlocks(|bytes|) == 7
    ensures var v := Volume(Small(UNUSED, UNUSED), bytes);
            && VolumeOk(v)
            && Legal(v, MISLEADING) && Run(v, MISLEADING) == Volume(Small(FILE_C, GONE_B), bytes)
    ensures var dir := Small(FILE_C, GONE_B);
            && HasTerminator(dir) && Find(dir, "d").None? && Qsorted(dir, [0, 1])
            && !SomeGapFits(dir, 7, 2) && SomeStaleFits(dir, 7, 2)
            && AfterCreate(dir, 7, "d", 4, [0, 1]) == (Done, Small(FILE_C, Entry("d", 3, 2, 0)))
            && !Ok(Small(FILE_C, Entry("d", 3, 2, 0)), 7)
  {
    hide Ok, AfterCreate, AfterDelete, Used, Find, Qsorted, FreeAt, Do, Allowed, SomeGapFits, SomeStaleFits, Small;
    FirstFile();
    SecondFile();
    BothDeleted();
    ThirdFile();
    FourthFile();
    var v5 := Volume(Small(FILE_C, GONE_B), bytes);
    Creates(bytes, Small(UNUSED, UNUSED), Small(FILE_A, UNUSED), "a", 2, [], 1);
    Creates(bytes, Small(FILE_A, UNUSED), Small(FILE_A, FILE_B), "b", 2, [0], 2);
    Deletes(bytes, Small(FILE_A, FILE_B), Small(GONE_A, FILE_B), "a");
    Deletes(bytes, Small(GONE_A, FILE_B), Small(GONE_A, GONE_B), "b");
    Creates(bytes, Small(GONE_A, GONE_B), Small(FILE_C, GONE_B), "c", 8, [0, 1], 1);
    Chain(Volume(Small(GONE_A, GONE_B), bytes), CreateFile("c", 8, [0, 1]), v5, []);
    Chain(Volume(Small(GONE_A, FILE_B), bytes), DeleteFile("b"), Volume(Small(GONE_A, GONE_B), bytes), MISLEADING[4..]);
    Chain(Volume(Small(FILE_A, FILE_B), bytes), DeleteFile("a"), Volume(Small(GONE_A, FILE_B), bytes), MISLEADING[3..]);
    Chain(Volume(Small(FILE_A, UNUSED), bytes), CreateFile("b", 2, [0]), Volume(Small(FILE_A, FILE_B), bytes), MISLEADING[2..]);
    Chain(Volume(Small(UNUSED, UNUSED), bytes), CreateFile("a", 2, []), Volume(Small(FILE_A, UNUSED), bytes), MISLEADING[1..]);
  }

  const MISLEADING := [CreateFile("a", 2, []), CreateFile("b", 2, [0]), DeleteFile("a"), DeleteFile("b"), CreateFile("c", 8, [0, 1])]
}
