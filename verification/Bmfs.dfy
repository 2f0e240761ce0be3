/**
 A BMFS disk: its directory and its bytes. A file is the bytes of its extent up to its size.
 The directory is kept as records; their 64-byte encoding in the first block is not modelled.
 */
module Bmfs {
  import opened Wrappers
  import opened Bytes
  import opened BmfsDirectory

  datatype Volume = Volume(dir: seq<Entry>, bytes: seq<Byte>)

  function NumBlocks(bytes: nat): nat { bytes / MIB / 2 }

  ghost predicate VolumeOk(v: Volume) {
    Ok(v.dir, NumBlocks(|v.bytes|))
  }

  /** A visible file: the blocks reserved for it, and its bytes. */
  datatype File = File(blocks: nat, data: seq<Byte>)

  lemma InBounds(v: Volume, i: int)
    requires VolumeOk(v) && Visible(v.dir, i)
    ensures BLOCK <= v.dir[i].startingBlock * BLOCK
    ensures v.dir[i].startingBlock * BLOCK + v.dir[i].fileSize <= v.dir[i].End() * BLOCK <= |v.bytes|
  {
    assert InData(v.dir[i], NumBlocks(|v.bytes|));
  }

  /** What `read` copies out. */
  ghost function DataAt(v: Volume, i: int): seq<Byte>
    requires VolumeOk(v) && Visible(v.dir, i)
  {
    InBounds(v, i);
    var e := v.dir[i];
    v.bytes[e.startingBlock * BLOCK .. e.startingBlock * BLOCK + e.fileSize]
  }

  ghost function Lookup(v: Volume, name: string): Option<File>
    requires VolumeOk(v)
  {
    NotFoundIs(v.dir, name);
    var slot := Find(v.dir, name);
    if slot.None? then None else Some(File(v.dir[slot.value].reservedBlocks, DataAt(v, slot.value)))
  }

  /** The blocks of the file, if there is one, are on the disk. */
  predicate OnDisk(v: Volume, name: string) {
    var slot := Find(v.dir, name);
    slot.Some? ==> v.dir[slot.value].End() * BLOCK <= |v.bytes|
  }

  /** What `write` does, whether or not files overlap. */
  function Written(v: Volume, name: string, local: Option<seq<Byte>>): (r: (Answer, Volume))
    requires OnDisk(v, name)
    ensures |r.1.bytes| == |v.bytes|
  {
    var slot := Find(v.dir, name);
    if slot.None? then (NotFound, v)
    else if local.None? then (NoLocalFile, v)
    else
      var e := v.dir[slot.value];
      if e.reservedBlocks * BLOCK < |local.value| then (TooLarge, v)
      else (Done, Volume(v.dir[slot.value := e.(fileSize := |local.value|)], Put(v.bytes, e.startingBlock * BLOCK, local.value)))
  }

  lemma FilesOnDisk(v: Volume, name: string)
    requires VolumeOk(v)
    ensures OnDisk(v, name)
  {
    NotFoundIs(v.dir, name);
    if Find(v.dir, name).Some? { InBounds(v, Find(v.dir, name).value); }
  }

  ghost function AfterWrite(v: Volume, name: string, local: Option<seq<Byte>>): (r: (Answer, Volume))
    requires VolumeOk(v)
    ensures |r.1.bytes| == |v.bytes|
  {
    FilesOnDisk(v, name);
    Written(v, name, local)
  }

  /** What `read` copies out of the disk; past its end `getc` gives -1, which is stored as 255. */
  function Copied(bytes: seq<Byte>, e: Entry): seq<Byte> {
    seq(e.fileSize, i requires 0 <= i => if e.startingBlock * BLOCK + i < |bytes| then bytes[e.startingBlock * BLOCK + i] else 255)
  }

  /** For files on the disk these are the file's bytes. */
  lemma CopiedIsData(v: Volume, name: string)
    requires VolumeOk(v) && Find(v.dir, name).Some?
    ensures Lookup(v, name).Some? && Copied(v.bytes, v.dir[Find(v.dir, name).value]) == Lookup(v, name).value.data
  {
    NotFoundIs(v.dir, name);
    InBounds(v, Find(v.dir, name).value);
  }

  // ----- what each command does to the files -----

  /** The blocks of the record hold the same bytes. */
  ghost predicate SameExtent(v: Volume, w: Volume, i: int)
    requires |w.bytes| == |v.bytes| && 0 <= i < |v.dir|
  {
    var from, to := v.dir[i].startingBlock * BLOCK, v.dir[i].End() * BLOCK;
    forall k :: from <= k < to && k < |v.bytes| ==> w.bytes[k] == v.bytes[k]
  }

  /** A file whose record and extent are as before is as before. */
  lemma SameFile(v: Volume, w: Volume, i: int)
    requires VolumeOk(v) && VolumeOk(w) && |w.bytes| == |v.bytes|
    requires Visible(v.dir, i) && Visible(w.dir, i) && w.dir[i] == v.dir[i] && SameExtent(v, w, i)
    ensures Lookup(w, v.dir[i].fileName) == Lookup(v, v.dir[i].fileName)
  {
    hide Ok;
    InBounds(v, i);
    FindIs(v.dir, NumBlocks(|v.bytes|), v.dir[i].fileName, i);
    FindIs(w.dir, NumBlocks(|v.bytes|), v.dir[i].fileName, i);
    assert DataAt(w, i) == DataAt(v, i);
  }

  /** If the records of all files but `name` are as before, and so are their extents, so are those files. */
  lemma OtherFiles(v: Volume, w: Volume, name: string, other: string)
    requires VolumeOk(v) && VolumeOk(w) && |w.bytes| == |v.bytes| && other != name
    requires forall i :: Visible(v.dir, i) && v.dir[i].fileName != name ==> Visible(w.dir, i) && w.dir[i] == v.dir[i]
    requires forall i :: Visible(w.dir, i) && w.dir[i].fileName != name ==> Visible(v.dir, i) && w.dir[i] == v.dir[i]
    requires forall i :: Visible(v.dir, i) && v.dir[i].fileName != name ==> SameExtent(v, w, i)
    ensures Lookup(w, other) == Lookup(v, other)
  {
    hide Ok;
    NotFoundIs(v.dir, other);
    NotFoundIs(w.dir, other);
    if Find(v.dir, other).Some? { SameFile(v, w, Find(v.dir, other).value); }
  }

  lemma WriteEffect(v: Volume, name: string, local: Option<seq<Byte>>)
    requires VolumeOk(v)
    ensures var (answer, w) := AfterWrite(v, name, local);
            && VolumeOk(w)
            && (answer == Done <==> Lookup(v, name).Some? && local.Some? && |local.value| <= Lookup(v, name).value.blocks * BLOCK)
            && (answer == Done ==> Lookup(w, name) == Some(File(Lookup(v, name).value.blocks, local.value)))
            && (answer != Done ==> w == v)
            && (forall other :: other != name ==> Lookup(w, other) == Lookup(v, other))
            && (forall k :: 0 <= k < BLOCK && k < |v.bytes| ==> w.bytes[k] == v.bytes[k])
  {
    var (answer, w) := AfterWrite(v, name, local);
    NotFoundIs(v.dir, name);
    if answer == Done {
      var f := Find(v.dir, name).value;
      InBounds(v, f);
      WriteKeepsOk(v, name, local);
      forall i | Visible(v.dir, i) && i != f ensures SameExtent(v, w, i) { WriteStaysInside(v, name, local, i); }
      FindIs(w.dir, NumBlocks(|v.bytes|), name, f);
      forall other | other != name ensures Lookup(w, other) == Lookup(v, other) {
        OtherFiles(v, w, name, other);
      }
    }
  }

  lemma WriteKeepsOk(v: Volume, name: string, local: Option<seq<Byte>>)
    requires VolumeOk(v) && AfterWrite(v, name, local).0 == Done
    ensures var w := AfterWrite(v, name, local).1;
            var f := Find(v.dir, name).value;
            && VolumeOk(w) && w.dir[f] == v.dir[f].(fileSize := |local.value|)
            && (forall i :: Visible(w.dir, i) <==> Visible(v.dir, i))
            && (forall i :: Visible(v.dir, i) && i != f ==> w.dir[i] == v.dir[i] && v.dir[i].fileName != name)
  {
    hide Put;
    var w := AfterWrite(v, name, local).1;
    NotFoundIs(v.dir, name);
    UsedIs(w.dir, Used(v.dir), 0);
  }

  lemma WriteStaysInside(v: Volume, name: string, local: Option<seq<Byte>>, i: int)
    requires VolumeOk(v) && AfterWrite(v, name, local).0 == Done
    requires Visible(v.dir, i) && i != Find(v.dir, name).value
    ensures SameExtent(v, AfterWrite(v, name, local).1, i)
  {
    hide Put, Used;
    NotFoundIs(v.dir, name);
    var f := Find(v.dir, name).value;
    InBounds(v, f);
    assert Apart(v.dir[i], v.dir[f]);
  }

  // ----- runs of commands -----

  datatype Command =
    | CreateFile(name: string, maxsize: nat, order: seq<nat>)  // `order` is what qsort does
    | DeleteFile(name: string)
    | WriteFile(name: string, local: Option<seq<Byte>>)        // `local` is the local file, if it can be opened

  /** `main` accepts only sizes of at least 1. The last clause is exactly that no file is lost and
      extents stay apart (see `CreateKeepsFiles`). */
  ghost predicate Allowed(v: Volume, command: Command) {
    match command
    case CreateFile(name, maxsize, order) =>
      && IsName(name) && maxsize >= 1
      && |order| == NumUsed(v.dir) && Qsorted(v.dir, order)
      && (Find(v.dir, name).None? ==> Harmless(v.dir, NumBlocks(|v.bytes|), BlocksFor(maxsize)))
    case _ => true
  }

  ghost function Do(v: Volume, command: Command): (r: (Answer, Volume))
    requires VolumeOk(v) && Allowed(v, command)
    ensures |r.1.bytes| == |v.bytes|
  {
    match command
    case CreateFile(name, maxsize, order) =>
      var (answer, dir) := AfterCreate(v.dir, NumBlocks(|v.bytes|), name, maxsize, order); (answer, v.(dir := dir))
    case DeleteFile(name) =>
      var (answer, dir) := AfterDelete(v.dir, name); (answer, v.(dir := dir))
    case WriteFile(name, local) => AfterWrite(v, name, local)
  }

  /** What a successful command leaves under its own name. */
  ghost function Outcome(v: Volume, command: Command): Option<File>
    requires VolumeOk(v)
  {
    match command
    case CreateFile(_, maxsize, _) => Some(File(BlocksFor(maxsize), []))
    case DeleteFile(_) => None
    case WriteFile(name, local) =>
      if local.Some? && Lookup(v, name).Some? then Some(File(Lookup(v, name).value.blocks, local.value)) else None
  }

  lemma CreateEffect(v: Volume, command: Command)
    requires VolumeOk(v) && command.CreateFile? && Allowed(v, command)
    ensures var (answer, w) := Do(v, command);
            && VolumeOk(w) && (answer != Done ==> w == v)
            && (answer == Done ==> Lookup(w, command.name) == Some(File(BlocksFor(command.maxsize), [])))
            && (forall other :: other != command.name ==> Lookup(w, other) == Lookup(v, other))
  {
    var (answer, w) := Do(v, command);
    var n := NumBlocks(|v.bytes|);
    if Find(v.dir, command.name).None? {
      hide Ok, Harmless, Place, Qsorted, Used;
      CreateKeepsFiles(v.dir, n, command.name, command.maxsize, command.order);
      NotFoundIs(v.dir, command.name);
      if answer == Done {
        FindIs(w.dir, n, command.name, FreeFrom(v.dir, 0));
        assert DataAt(w, FreeFrom(v.dir, 0)) == [];
        forall other | other != command.name ensures Lookup(w, other) == Lookup(v, other) {
          OtherFiles(v, w, command.name, other);
        }
      }
    }
  }

  lemma DeleteEffect(v: Volume, name: string)
    requires VolumeOk(v)
    ensures var (answer, w) := Do(v, DeleteFile(name));
            && VolumeOk(w) && (answer != Done ==> w == v)
            && (answer == Done ==> Lookup(w, name) == None)
            && (answer == Done <==> Lookup(v, name).Some?)
            && (forall other :: other != name ==> Lookup(w, other) == Lookup(v, other))
  {
    hide Used;
    var (answer, w) := Do(v, DeleteFile(name));
    NotFoundIs(v.dir, name);
    if answer == Done {
      Delete(v.dir, NumBlocks(|v.bytes|), name);
      NotFoundIs(w.dir, name);
      forall other | other != name ensures Lookup(w, other) == Lookup(v, other) {
        OtherFiles(v, w, name, other);
      }
    }
  }

  /** What the program says to each command; a file is created exactly if there is no such file yet, a record to
      use, and a long enough run of free blocks. */
  lemma Answers(v: Volume, command: Command)
    requires VolumeOk(v) && Allowed(v, command)
    ensures var answer := Do(v, command).0;
            var file := Lookup(v, command.name);
            match command {
              case CreateFile(name, maxsize, _) =>
                && (answer == AlreadyExists <==> file.Some?)
                && (answer == NoFreeEntry <==> file.None? && forall i :: 0 <= i < |v.dir| ==> v.dir[i].Live())
                && (HasTerminator(v.dir) && file.None? ==>
                      answer == if SomeGapFits(v.dir, NumBlocks(|v.bytes|), BlocksFor(maxsize)) then Done else NoRoom)
                && (answer == Done || answer == AlreadyExists || answer == NoFreeEntry || answer == NoRoom)
              case DeleteFile(_) =>
                answer == if file.Some? then Done else NotFound
              case WriteFile(_, local) =>
                answer == if file.None? then NotFound else if local.None? then NoLocalFile
                          else if |local.value| > file.value.blocks * BLOCK then TooLarge else Done
            }
  {
    hide Ok, Place, Qsorted, Used;
    if command.CreateFile? {
      FreeIsUsable(v.dir, 0);
      if HasTerminator(v.dir) && Find(v.dir, command.name).None? {
        Create(v.dir, NumBlocks(|v.bytes|), command.name, command.maxsize, command.order);
      }
    }
  }

  /** Every command keeps the disk in order, changes no file but the one it names, and leaves that
      one as it says. Nothing but the extents of files is written. */
  lemma Effect(v: Volume, command: Command)
    requires VolumeOk(v) && Allowed(v, command)
    ensures var (answer, w) := Do(v, command);
            && VolumeOk(w)
            && (forall name :: Lookup(w, name) == if name == command.name && answer == Done then Outcome(v, command) else Lookup(v, name))
            && (forall k :: 0 <= k < BLOCK && k < |v.bytes| ==> w.bytes[k] == v.bytes[k])
  {
    hide Ok, AfterCreate, AfterDelete, AfterWrite, Find, Harmless;
    match command
    case CreateFile(name, maxsize, order) => CreateEffect(v, command);
    case DeleteFile(name) => DeleteEffect(v, name);
    case WriteFile(name, local) => WriteEffect(v, name, local);
  }

  ghost predicate Legal(v: Volume, commands: seq<Command>)
    requires VolumeOk(v)
    decreases commands
  {
    commands == [] ||
    (Allowed(v, commands[0]) && (Effect(v, commands[0]); Legal(Do(v, commands[0]).1, commands[1..])))
  }

  ghost function Run(v: Volume, commands: seq<Command>): (w: Volume)
    requires VolumeOk(v) && Legal(v, commands)
    ensures VolumeOk(w) && |w.bytes| == |v.bytes|
    decreases commands
  {
    if commands == [] then v
    else Effect(v, commands[0]); Run(Do(v, commands[0]).1, commands[1..])
  }

  /** What a name should stand for after a run: decided by the last successful command on it. */
  ghost function Expected(v: Volume, commands: seq<Command>, name: string): Option<File>
    requires VolumeOk(v) && Legal(v, commands)
    decreases |commands|
  {
    if commands == [] then Lookup(v, name)
    else
      Split(v, commands);
      var before := commands[..|commands| - 1];
      var last := commands[|commands| - 1];
      if last.name == name && Do(Run(v, before), last).0 == Done then Outcome(Run(v, before), last)
      else Expected(v, before, name)
  }

  lemma {:induction false} Split(v: Volume, commands: seq<Command>)
    requires VolumeOk(v) && Legal(v, commands) && commands != []
    ensures var before := commands[..|commands| - 1];
            var last := commands[|commands| - 1];
            && Legal(v, before) && Allowed(Run(v, before), last)
            && Run(v, commands) == Do(Run(v, before), last).1
    decreases commands
  {
    hide Ok, Do, Allowed;
    var before := commands[..|commands| - 1];
    Effect(v, commands[0]);
    if |commands| > 1 {
      Split(Do(v, commands[0]).1, commands[1..]);
      assert commands[1..][..|commands| - 2] == before[1..];
    }
  }

  /** After every run that keeps extents disjoint, every name stands for what the last successful
      command on it left, no file is larger than its blocks, and the first block is untouched. */
  lemma {:induction false} Correct(v: Volume, commands: seq<Command>, name: string)
    requires VolumeOk(v) && Legal(v, commands)
    ensures var w := Run(v, commands);
            && Lookup(w, name) == Expected(v, commands, name)
            && (Lookup(w, name).Some? ==> |Lookup(w, name).value.data| <= Lookup(w, name).value.blocks * BLOCK)
            && (forall k :: 0 <= k < BLOCK && k < |v.bytes| ==> w.bytes[k] == v.bytes[k])
    decreases |commands|
  {
    hide Ok, AfterCreate, AfterDelete, AfterWrite, Find, Harmless, Do, Allowed, Outcome;
    if commands != [] {
      Split(v, commands);
      var before := commands[..|commands| - 1];
      Correct(v, before, name);
      Effect(Run(v, before), commands[|commands| - 1]);
    }
    if Lookup(Run(v, commands), name).Some? { SizeFits(Run(v, commands), name); }
  }

  lemma SizeFits(v: Volume, name: string)
    requires VolumeOk(v) && Lookup(v, name).Some?
    ensures |Lookup(v, name).value.data| <= Lookup(v, name).value.blocks * BLOCK
  {
    NotFoundIs(v.dir, name);
  }

  /** Only deleting a file takes its blocks away. */
  lemma {:induction false} KeepsBlocks(v: Volume, name: string, commands: seq<Command>)
    requires VolumeOk(v) && Legal(v, commands) && Lookup(v, name).Some? && DeleteFile(name) !in commands
    ensures Lookup(Run(v, commands), name).Some?
    ensures Lookup(Run(v, commands), name).value.blocks == Lookup(v, name).value.blocks
    decreases commands
  {
    hide Ok, Harmless, Place;
    if commands != [] {
      assert commands[0] in commands;
      Effect(v, commands[0]);
      KeepsBlocks(Do(v, commands[0]).1, name, commands[1..]);
    }
  }

  /** A file created for `maxsize` MiB can be written with every content up to that size, at any later time. */
  lemma HoldsMaxsize(v: Volume, name: string, maxsize: nat, order: seq<nat>, later: seq<Command>, data: seq<Byte>)
    requires VolumeOk(v) && Legal(v, [CreateFile(name, maxsize, order)] + later)
    requires Do(v, CreateFile(name, maxsize, order)).0 == Done && DeleteFile(name) !in later
    requires |data| <= maxsize * MIB
    ensures var w := Run(v, [CreateFile(name, maxsize, order)] + later);
            var (answer, written) := AfterWrite(w, name, Some(data));
            && answer == Done && VolumeOk(written)
            && Lookup(written, name).Some? && Lookup(written, name).value.data == data
  {
    hide Ok, Harmless, Place;
    var create := CreateFile(name, maxsize, order);
    assert ([create] + later)[0] == create && ([create] + later)[1..] == later;
    CreateEffect(v, create);
    KeepsBlocks(Do(v, create).1, name, later);
    WriteEffect(Run(v, [create] + later), name, Some(data));
  }

  /** In particular, reading a file gives the bytes last written to it. */
  lemma ReadsLastWrite(v: Volume, name: string, data: seq<Byte>, later: seq<Command>)
    requires VolumeOk(v) && Legal(v, [WriteFile(name, Some(data))] + later)
    requires AfterWrite(v, name, Some(data)).0 == Done
    requires forall command :: command in later ==> command.name != name
    ensures Lookup(Run(v, [WriteFile(name, Some(data))] + later), name) == Some(File(Lookup(v, name).value.blocks, data))
  {
    var w := Do(v, WriteFile(name, Some(data))).1;
    Effect(v, WriteFile(name, Some(data)));
    assert ([WriteFile(name, Some(data))] + later)[1..] == later;
    Unmentioned(w, name, later);
  }

  lemma {:induction false} Unmentioned(v: Volume, name: string, commands: seq<Command>)
    requires VolumeOk(v) && Legal(v, commands)
    requires forall command :: command in commands ==> command.name != name
    ensures Lookup(Run(v, commands), name) == Lookup(v, name)
    decreases commands
  {
    if commands != [] {
      assert commands[0] in commands;
      Effect(v, commands[0]);
      Unmentioned(Do(v, commands[0]).1, name, commands[1..]);
    }
  }

  /** A formatted disk is in order and has no files. */
  lemma Formatted(v: Volume, name: string)
    requires 3 <= NumBlocks(|v.bytes|) < TWO64 && v.dir != [] && forall i :: 0 <= i < |v.dir| ==> v.dir[i].Ends()
    ensures VolumeOk(v) && HasTerminator(v.dir) && Lookup(v, name) == None
  {
    UsedIs(v.dir, 0, 0);
    NotFoundIs(v.dir, name);
  }

  // ----- the program -----

  class Disk {
    var directory: array<Entry>
    var bytes: array<Byte>

    ghost function State(): Volume
      reads this, directory, bytes
    {
      Volume(directory[..], bytes[..])
    }

    method FindFile(name: string) returns (found: bool, slot: int)
      ensures var r := Find(directory[..], name);
              found == r.Some? && (r.Some? ==> slot == r.value)
    {
      ghost var dir := directory[..];
      slot := 0;
      while slot < directory.Length
        invariant 0 <= slot <= directory.Length && Find(dir, name) == FindFrom(dir, name, slot)
      {
        if directory[slot].Ends() {
          return false, slot;
        }
        if directory[slot].Live() && directory[slot].fileName == name {
          return true, slot;
        }
        slot := slot + 1;
      }
      found := false;
    }

    method Format()
      modifies directory
      ensures State() == Volume(seq(directory.Length, _ => Entry("", 0, 0, 0)), old(State().bytes))
    {
      forall i | 0 <= i < directory.Length {
        directory[i] := Entry("", 0, 0, 0);
      }
    }

    /** Counts the records, and finds the one to use. */
    method Survey() returns (numUsed: nat, firstFree: int)
      ensures numUsed == NumUsed(directory[..]) && firstFree == FreeFrom(directory[..], 0)
    {
      ghost var dir := directory[..];
      numUsed, firstFree := 0, -1;
      for i := 0 to directory.Length
        invariant numUsed == 0
        invariant UsedFrom(dir, 0) == UsedFrom(dir, i)
        invariant firstFree == -1 ==> FreeFrom(dir, 0) == FreeFrom(dir, i)
        invariant firstFree != -1 ==> FreeFrom(dir, 0) == firstFree
      {
        if directory[i].Ends() {
          numUsed := i;
          if firstFree == -1 {
            firstFree := i;
          }
          break;
        } else if directory[i].Deleted() {
          if firstFree == -1 {
            firstFree := i;
          }
        }
      }
    }

    /** The loop over the sorted copy. */
    method FindPlace(order: seq<nat>, numBlocks: nat, requested: nat) returns (start: nat)
      requires forall u :: 0 <= u < |order| ==> order[u] < directory.Length
      ensures start == Place(directory[..], numBlocks, order, requested, 0, 1)
    {
      ghost var dir := directory[..];
      start := 0;
      var prevFileEnd := 1;
      for t := 0 to |order| + 1
        invariant start == 0 && (t <= |order| ==> Place(dir, numBlocks, order, requested, 0, 1) == Place(dir, numBlocks, order, requested, t, prevFileEnd))
        invariant t > |order| ==> Place(dir, numBlocks, order, requested, 0, 1) == 0
      {
        var thisFileStart :=
          if t == |order| || directory[order[t]].Deleted() then numBlocks - 1 else directory[order[t]].startingBlock;
        if Minus64(thisFileStart, prevFileEnd) >= requested {
          return prevFileEnd;
        }
        if t < |order| {
          prevFileEnd := directory[order[t]].End();
        }
      }
    }

    /** `order` is the order in which qsort leaves the records before the terminator. */
    method CreateFile(name: string, maxsize: nat, order: seq<nat>) returns (answer: Answer)
      requires |order| == NumUsed(directory[..]) && Qsorted(directory[..], order)
      modifies directory
      ensures (answer, directory[..]) == old(AfterCreate(directory[..], NumBlocks(bytes.Length), name, maxsize, order))
    {
      ghost var dir := directory[..];
      var size := if maxsize % 2 != 0 then maxsize + 1 else maxsize;
      var found, _ := FindFile(name);
      if found {
        return AlreadyExists;
      }
      var requested := size / 2;
      var numUsed, firstFree := Survey();
      if firstFree == -1 {
        return NoFreeEntry;
      }
      var start := FindPlace(order, NumBlocks(bytes.Length), requested);
      if start == 0 {
        return NoRoom;
      }
      directory[firstFree] := Entry(name, start, requested, 0);
      if firstFree == numUsed && numUsed + 1 < directory.Length {
        directory[numUsed + 1] := directory[numUsed + 1].(fileName := "");
      }
      answer := Done;
    }

    method DeleteFile(name: string) returns (answer: Answer)
      modifies directory
      ensures (answer, directory[..]) == old(AfterDelete(directory[..], name))
    {
      var found, slot := FindFile(name);
      if !found {
        return NotFound;
      }
      directory[slot] := directory[slot].(fileName := [DELETED] + name[1..]);
      answer := Done;
    }

    method ReadFile(name: string) returns (found: bool, data: seq<Byte>)
      ensures var r := Find(directory[..], name);
              found == r.Some? && (r.Some? ==> data == Copied(bytes[..], directory[r.value]))
      ensures VolumeOk(State()) ==>
                var r := Lookup(State(), name);
                found == r.Some? && (r.Some? ==> data == r.value.data)
    {
      var slot;
      found, slot := FindFile(name);
      data := [];
      if found {
        var entry := directory[slot];
        var at := entry.startingBlock * BLOCK;
        for i := 0 to entry.fileSize
          invariant data == Copied(bytes[..], entry)[..i]
        {
          data := data + [if at + i < bytes.Length then bytes[at + i] else 255];
        }
        if VolumeOk(State()) { CopiedIsData(State(), name); }
      }
    }

    method WriteFile(name: string, local: Option<seq<Byte>>) returns (answer: Answer)
      requires OnDisk(State(), name)
      modifies directory, bytes
      ensures (answer, State()) == old(Written(State(), name, local))
    {
      ghost var v := State();
      var found, slot := FindFile(name);
      if !found {
        return NotFound;
      }
      if local.None? {
        return NoLocalFile;
      }
      var entry := directory[slot];
      if entry.reservedBlocks * BLOCK < |local.value| {
        return TooLarge;
      }
      var at := entry.startingBlock * BLOCK;
      for i := 0 to |local.value|
        invariant directory[..] == v.dir
        invariant bytes[..] == Put(v.bytes, at, local.value[..i])
      {
        PutMore(v.bytes, at, local.value, i);
        bytes[at + i] := local.value[i];
      }
      assert local.value[..|local.value|] == local.value;
      directory[slot] := entry.(fileSize := |local.value|);
      answer := Done;
    }
  }
}
