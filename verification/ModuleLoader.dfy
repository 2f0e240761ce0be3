/**
 The loader of Kernel/moduleLoader.c, which undoes the packer, and the `memcpy` of Kernel/lib.c.
 */
module ModuleLoader {
  import opened Bytes
  import opened Wrappers
  import opened ModulePacker

  /** Memory after loading as many modules as there are targets, from `cursor` on. None if that
      leaves the memory, or copies between overlapping buffers. */
  function Loaded(mem: seq<Byte>, cursor: nat, targets: seq<nat>): (r: Option<seq<Byte>>)
    ensures r.Some? ==> |r.value| == |mem|
    decreases |targets|
  {
    if targets == [] then Some(mem)
    else if cursor + 4 > |mem| then None
    else
      var size := FromWord(mem[cursor..cursor + 4]);
      var data := cursor + 4;
      if data + size > |mem| || targets[0] + size > |mem| || !Disjoint(targets[0], size, data, size) then None
      else Loaded(Put(mem, targets[0], mem[data..data + size]), data + size, targets[1..])
  }

  /** Memory after `loadModules`. None also if there are fewer targets than modules. */
  function AfterLoad(mem: seq<Byte>, payloadStart: nat, targets: seq<nat>): (r: Option<seq<Byte>>)
    ensures r.Some? ==> |r.value| == |mem|
  {
    if payloadStart + 4 > |mem| then None
    else
      var moduleCount := FromWord(mem[payloadStart..payloadStart + 4]);
      if moduleCount > |targets| then None else Loaded(mem, payloadStart + 4, targets[..moduleCount])
  }

  class Memory {
    var cells: array<Byte>

    /** Copies word by word if everything is aligned, else byte by byte, and always forwards. */
    method Memcpy(destination: nat, source: nat, length: nat)
      requires source + length <= cells.Length && destination + length <= cells.Length
      requires Disjoint(destination, length, source, length)
      modifies cells
      ensures cells[..] == old(Put(cells[..], destination, cells[source..source + length]))
    {
      hide Put;
      assert cells[source..source + length] == cells[..][source..source + length];
      if destination % 4 == 0 && source % 4 == 0 && length % 4 == 0 {
        CopyWords(destination, source, length / 4);
      } else {
        CopyBytes(destination, source, length);
      }
    }

    method CopyWords(destination: nat, source: nat, words: nat)
      requires source + 4 * words <= cells.Length && destination + 4 * words <= cells.Length
      requires Disjoint(destination, 4 * words, source, 4 * words)
      modifies cells
      ensures cells[..] == old(Put(cells[..], destination, cells[..][source..source + 4 * words]))
    {
      hide Put;
      ghost var mem := cells[..];
      ghost var data := mem[source..source + 4 * words];
      for i := 0 to words
        invariant cells[..] == Put(mem, destination, data[..4 * i])
      {
        PutFour(mem, destination, source, 4 * words, 4 * i);
        CopyWord(destination + 4 * i, source + 4 * i);
      }
      assert data[..4 * words] == data;
    }

    method CopyBytes(destination: nat, source: nat, length: nat)
      requires source + length <= cells.Length && destination + length <= cells.Length
      requires Disjoint(destination, length, source, length)
      modifies cells
      ensures cells[..] == old(Put(cells[..], destination, cells[..][source..source + length]))
    {
      hide Put;
      ghost var mem := cells[..];
      ghost var data := mem[source..source + length];
      for i := 0 to length
        invariant cells[..] == Put(mem, destination, data[..i])
      {
        PutMore(mem, destination, data, i);
        assert cells[source + i] == data[i];
        cells[destination + i] := cells[source + i];
      }
      assert data[..length] == data;
    }

    method CopyWord(to: nat, from: nat)
      requires to + 4 <= cells.Length && from + 4 <= cells.Length
      modifies cells
      ensures cells[..] == old(Put(cells[..], to, cells[..][from..from + 4]))
    {
      ghost var mem := cells[..];
      cells[to], cells[to + 1], cells[to + 2], cells[to + 3] := cells[from], cells[from + 1], cells[from + 2], cells[from + 3];
      PutIs(mem, to, mem[from..from + 4], cells[..]);
    }

    method ReadUint32(address: nat) returns (result: nat, next: nat)
      requires address + 4 <= cells.Length
      ensures result == FromWord(cells[address..address + 4]) && next == address + 4
    {
      result, next := FromWord(cells[address..address + 4]), address + 4;
    }

    method LoadModule(cursor: nat, target: nat) returns (next: nat)
      requires Loaded(cells[..], cursor, [target]).Some?
      modifies cells
      ensures Some(cells[..]) == old(Loaded(cells[..], cursor, [target]))
      ensures cursor + 4 <= cells.Length && next == cursor + 4 + old(FromWord(cells[cursor..cursor + 4]))
    {
      hide Put, FromWord;
      ghost var mem := cells[..];
      LoadOne(mem, cursor, target);
      assert mem[cursor..cursor + 4] == cells[cursor..cursor + 4];
      var moduleSize, data := ReadUint32(cursor);
      assert mem[data..data + moduleSize] == cells[data..data + moduleSize];
      Memcpy(target, data, moduleSize);
      next := data + moduleSize;
    }

    method LoadModules(payloadStart: nat, targets: seq<nat>)
      requires AfterLoad(cells[..], payloadStart, targets).Some?
      modifies cells
      ensures Some(cells[..]) == old(AfterLoad(cells[..], payloadStart, targets))
    {
      hide Put, FromWord, Loaded;
      ghost var mem := cells[..];
      assert mem[payloadStart..payloadStart + 4] == cells[payloadStart..payloadStart + 4];
      var moduleCount, cursor := ReadUint32(payloadStart);
      for i := 0 to moduleCount
        invariant Loaded(mem, payloadStart + 4, targets[..moduleCount]) == Loaded(cells[..], cursor, targets[i..moduleCount])
      {
        assert targets[i..moduleCount][0] == targets[i] && targets[i..moduleCount][1..] == targets[i + 1..moduleCount];
        LoadFirst(cells[..], cursor, targets[i..moduleCount]);
        assert cells[..][cursor..cursor + 4] == cells[cursor..cursor + 4];
        cursor := LoadModule(cursor, targets[i]);
      }
      assert targets[moduleCount..moduleCount] == [];
      LoadNone(cells[..], cursor);
    }
  }

  /** One more word, read from a source that is not overwritten. */
  lemma PutFour(mem: seq<Byte>, at: nat, source: nat, length: nat, i: nat)
    requires at + length <= |mem| && source + length <= |mem| && Disjoint(at, length, source, length) && i + 4 <= length
    ensures var data := mem[source..source + length];
            var now := Put(mem, at, data[..i]);
            Put(now, at + i, now[source + i..source + i + 4]) == Put(mem, at, data[..i + 4])
  {
    hide Put;
    var data := mem[source..source + length];
    var now := Put(mem, at, data[..i]);
    SliceKept(mem, at, data[..i], source + i, 4);
    SubSlice(mem, source, length, i, i + 4);
    assert now[source + i..source + i + 4] == data[i..i + 4];
    PutIs(mem, at, data[..i + 4], Put(now, at + i, now[source + i..source + i + 4]));
  }

  lemma LoadNone(mem: seq<Byte>, cursor: nat)
    ensures Loaded(mem, cursor, []) == Some(mem)
  {
  }

  lemma LoadOne(mem: seq<Byte>, cursor: nat, target: nat)
    requires Loaded(mem, cursor, [target]).Some?
    ensures cursor + 4 <= |mem|
    ensures var size, data := FromWord(mem[cursor..cursor + 4]), cursor + 4;
            && data + size <= |mem| && target + size <= |mem| && Disjoint(target, size, data, size)
            && Loaded(mem, cursor, [target]) == Some(Put(mem, target, mem[data..data + size]))
  {
    assert [target][1..] == [];
  }

  lemma LoadFirst(mem: seq<Byte>, cursor: nat, targets: seq<nat>)
    requires targets != [] && Loaded(mem, cursor, targets).Some?
    ensures Loaded(mem, cursor, [targets[0]]).Some? && cursor + 4 <= |mem|
    ensures var size := FromWord(mem[cursor..cursor + 4]);
            Loaded(mem, cursor, targets) == Loaded(Loaded(mem, cursor, [targets[0]]).value, cursor + 4 + size, targets[1..])
  {
    hide FromWord, Put;
    assert [targets[0]][1..] == [];
  }

  // ----- the round trip -----

  /** Where the bytes of module `i` lie, if the modules start at `cursor`. */
  function DataStart(modules: seq<seq<Byte>>, cursor: nat, i: nat): nat
    requires i < |modules|
  {
    if i == 0 then cursor + 4 else DataStart(modules[1..], cursor + 4 + |modules[0]|, i - 1)
  }

  /** Every target lies in memory, apart from the other targets and from what is still to be read. */
  ghost predicate Safe(memory: nat, modules: seq<seq<Byte>>, cursor: nat, targets: seq<nat>) {
    && |targets| == |modules|
    && cursor + |Modules(modules)| <= memory
    && (forall i :: 0 <= i < |modules| ==>
          && targets[i] + |modules[i]| <= memory
          && (targets[i] + |modules[i]| <= DataStart(modules, cursor, i) || cursor + |Modules(modules)| <= targets[i]))
    && (forall i, j :: 0 <= i < j < |modules| ==> Disjoint(targets[i], |modules[i]|, targets[j], |modules[j]|))
  }

  predicate InTarget(modules: seq<seq<Byte>>, targets: seq<nat>, k: nat)
    requires |targets| == |modules|
  {
    exists i :: 0 <= i < |modules| && targets[i] <= k < targets[i] + |modules[i]|
  }

  lemma SafeRest(memory: nat, modules: seq<seq<Byte>>, cursor: nat, targets: seq<nat>)
    requires modules != [] && Safe(memory, modules, cursor, targets)
    ensures Modules(modules) == Word(|modules[0]|) + modules[0] + Modules(modules[1..])
    ensures Safe(memory, modules[1..], cursor + 4 + |modules[0]|, targets[1..])
  {
    var rest := modules[1..];
    forall i | 0 <= i < |rest|
      ensures DataStart(rest, cursor + 4 + |modules[0]|, i) == DataStart(modules, cursor, i + 1)
      ensures rest[i] == modules[i + 1] && targets[1..][i] == targets[i + 1]
    {
    }
  }

  /** The size, the bytes and the rest of the payload where they lie in memory. */
  lemma FirstParts(mem: seq<Byte>, cursor: nat, modules: seq<seq<Byte>>)
    requires modules != [] && cursor + |Modules(modules)| <= |mem|
    requires mem[cursor..cursor + |Modules(modules)|] == Modules(modules)
    ensures var m, data, rest := modules[0], cursor + 4, Modules(modules[1..]);
            && |Modules(modules)| == 4 + |m| + |rest|
            && FromWord(mem[cursor..data]) == |m| % TWO32
            && mem[data..data + |m|] == m
            && mem[data + |m|..data + |m| + |rest|] == rest
  {
    hide FromWord, Word;
    var m, rest := modules[0], Modules(modules[1..]);
    assert Modules(modules) == Word(|m|) + m + rest;
    Parts(mem, cursor, Word(|m|), m, rest);
    WordRoundTrip(|m|);
  }

  lemma SafeFirst(memory: nat, modules: seq<seq<Byte>>, cursor: nat, targets: seq<nat>)
    requires modules != [] && Safe(memory, modules, cursor, targets)
    ensures |targets| == |modules| && targets[0] + |modules[0]| <= memory
    ensures cursor + |Modules(modules)| <= memory
    ensures var data := cursor + 4;
            targets[0] + |modules[0]| <= data || cursor + |Modules(modules)| <= targets[0]
  {
    assert DataStart(modules, cursor, 0) == cursor + 4;
  }

  /** Memory after the first module: the module at its target, the rest of the payload as it was. */
  lemma FirstModule(mem: seq<Byte>, cursor: nat, modules: seq<seq<Byte>>, targets: seq<nat>)
    requires modules != [] && Safe(|mem|, modules, cursor, targets) && |modules[0]| < TWO32
    requires mem[cursor..cursor + |Modules(modules)|] == Modules(modules)
    ensures targets[0] + |modules[0]| <= |mem|
    ensures var next, data := Put(mem, targets[0], modules[0]), cursor + 4 + |modules[0]|;
            && Loaded(mem, cursor, targets) == Loaded(next, data, targets[1..])
            && data + |Modules(modules[1..])| <= |mem|
            && next[data..data + |Modules(modules[1..])|] == Modules(modules[1..])
  {
    hide Put, FromWord, Word, Safe, Modules, DataStart, Loaded;
    SafeFirst(|mem|, modules, cursor, targets);
    FirstParts(mem, cursor, modules);
    var m, data, rest := modules[0], cursor + 4, Modules(modules[1..]);
    SliceKept(mem, targets[0], m, data + |m|, |rest|);
    LoadStep(mem, cursor, targets, |m|);
  }

  /** Every module is at its target, and everything else is as in `mem`. */
  ghost predicate InPlace(mem: seq<Byte>, final: seq<Byte>, modules: seq<seq<Byte>>, targets: seq<nat>) {
    && |targets| == |modules| && |final| == |mem|
    && (forall i :: 0 <= i < |modules| ==> targets[i] + |modules[i]| <= |mem| && final[targets[i]..targets[i] + |modules[i]|] == modules[i])
    && (forall k :: 0 <= k < |mem| && !InTarget(modules, targets, k) ==> final[k] == mem[k])
  }

  /** Loading what was packed puts every module at its target, and changes nothing else. */
  lemma {:induction false} LoadsModules(mem: seq<Byte>, cursor: nat, modules: seq<seq<Byte>>, targets: seq<nat>)
    requires Safe(|mem|, modules, cursor, targets)
    requires mem[cursor..cursor + |Modules(modules)|] == Modules(modules)
    requires forall i :: 0 <= i < |modules| ==> |modules[i]| < TWO32
    ensures Loaded(mem, cursor, targets).Some? && InPlace(mem, Loaded(mem, cursor, targets).value, modules, targets)
    decreases |modules|
  {
    hide Safe, InPlace, Modules, Put, FromWord;
    SafeShape(|mem|, modules, cursor, targets);
    if modules == [] {
      NothingLoaded(mem, cursor);
    } else {
      hide Loaded;
      var next := Put(mem, targets[0], modules[0]);
      FirstModule(mem, cursor, modules, targets);
      SafeRest(|mem|, modules, cursor, targets);
      LoadsModules(next, cursor + 4 + |modules[0]|, modules[1..], targets[1..]);
      SafeIsApart(|mem|, modules, cursor, targets);
      FirstStays(mem, Loaded(mem, cursor, targets).value, modules, targets);
    }
  }

  lemma SafeShape(memory: nat, modules: seq<seq<Byte>>, cursor: nat, targets: seq<nat>)
    requires Safe(memory, modules, cursor, targets)
    ensures |targets| == |modules| && (modules != [] ==> targets[0] + |modules[0]| <= memory)
  {
  }

  lemma NothingLoaded(mem: seq<Byte>, cursor: nat)
    ensures Loaded(mem, cursor, []) == Some(mem) && InPlace(mem, mem, [], [])
  {
  }

  /** Every target lies in memory, apart from the other targets. */
  predicate TargetsApart(memory: nat, modules: seq<seq<Byte>>, targets: seq<nat>) {
    && |targets| == |modules|
    && (forall i :: 0 <= i < |modules| ==> targets[i] + |modules[i]| <= memory)
    && (forall i, j :: 0 <= i < j < |modules| ==> Disjoint(targets[i], |modules[i]|, targets[j], |modules[j]|))
  }

  lemma SafeIsApart(memory: nat, modules: seq<seq<Byte>>, cursor: nat, targets: seq<nat>)
    requires Safe(memory, modules, cursor, targets)
    ensures TargetsApart(memory, modules, targets)
  {
  }

  /** The later modules leave the first one alone. */
  lemma FirstStays(mem: seq<Byte>, final: seq<Byte>, modules: seq<seq<Byte>>, targets: seq<nat>)
    requires modules != [] && TargetsApart(|mem|, modules, targets)
    requires InPlace(Put(mem, targets[0], modules[0]), final, modules[1..], targets[1..])
    ensures InPlace(mem, final, modules, targets)
  {
    hide Put;
    var rest, later := modules[1..], targets[1..];
    var next := Put(mem, targets[0], modules[0]);
    forall k | targets[0] <= k < targets[0] + |modules[0]| ensures !InTarget(rest, later, k) {
      forall i | 0 <= i < |rest| ensures !(later[i] <= k < later[i] + |rest[i]|) {
        assert rest[i] == modules[i + 1] && later[i] == targets[i + 1];
      }
    }
    assert final[targets[0]..targets[0] + |modules[0]|] == next[targets[0]..targets[0] + |modules[0]|];
    forall i | 0 < i < |modules| ensures final[targets[i]..targets[i] + |modules[i]|] == modules[i] {
      assert rest[i - 1] == modules[i] && later[i - 1] == targets[i];
    }
    forall k | 0 <= k < |mem| && !InTarget(modules, targets, k) ensures final[k] == mem[k] {
      forall i | 0 <= i < |rest| ensures !(later[i] <= k < later[i] + |rest[i]|) {
        assert rest[i] == modules[i + 1] && later[i] == targets[i + 1];
      }
      assert !(targets[0] <= k < targets[0] + |modules[0]|);
    }
  }

  /** Packing and then loading is the identity: with the packed image in memory up to its payload,
      `loadModules` leaves every module's bytes at its target. */
  lemma RoundTrip(mem: seq<Byte>, payloadStart: nat, modules: seq<seq<Byte>>, targets: seq<nat>)
    requires |modules| < TWO32 && |targets| >= |modules|
    requires payloadStart + |Payload(modules)| <= |mem|
    requires mem[payloadStart..payloadStart + |Payload(modules)|] == Payload(modules)
    requires Safe(|mem|, modules, payloadStart + 4, targets[..|modules|])
    requires forall i :: 0 <= i < |modules| ==> |modules[i]| < TWO32
    ensures AfterLoad(mem, payloadStart, targets).Some?
    ensures InPlace(mem, AfterLoad(mem, payloadStart, targets).value, modules, targets[..|modules|])
  {
    hide Safe, InPlace, Modules, Loaded, FromWord, Word;
    Parts(mem, payloadStart, Word(|modules|), Modules(modules), []);
    WordRoundTrip(|modules|);
    LoadsModules(mem, payloadStart + 4, modules, targets[..|modules|]);
  }

  /** The first module that is too long: only its size modulo 2^32 was packed. So many of its bytes reach
      the target, and the loader goes on in the middle of its data, where it looks for the next size. */
  lemma FirstTooLong(mem: seq<Byte>, cursor: nat, modules: seq<seq<Byte>>, targets: seq<nat>)
    requires modules != [] && Safe(|mem|, modules, cursor, targets) && |modules[0]| >= TWO32
    requires mem[cursor..cursor + |Modules(modules)|] == Modules(modules)
    ensures targets[0] + |modules[0]| <= |mem|
    ensures var m, size, data := modules[0], |modules[0]| % TWO32, cursor + 4;
            var next := Put(mem, targets[0], m[..size]);
            && Loaded(mem, cursor, targets) == Loaded(next, data + size, targets[1..])
            && data + |m| <= |mem| && next[data + size..data + |m|] == m[size..]
  {
    hide Put, FromWord, Word, Safe, Modules, DataStart, Loaded;
    SafeFirst(|mem|, modules, cursor, targets);
    FirstParts(mem, cursor, modules);
    var m, size, data := modules[0], |modules[0]| % TWO32, cursor + 4;
    SplitSlice(mem, data, m, size);
    SliceKept(mem, targets[0], m[..size], data + size, |m| - size);
    LoadStep(mem, cursor, targets, size);
  }

  lemma LoadStep(mem: seq<Byte>, cursor: nat, targets: seq<nat>, size: nat)
    requires targets != [] && cursor + 4 + size <= |mem| && targets[0] + size <= |mem|
    requires FromWord(mem[cursor..cursor + 4]) == size && Disjoint(targets[0], size, cursor + 4, size)
    ensures Loaded(mem, cursor, targets) ==
            Loaded(Put(mem, targets[0], mem[cursor + 4..cursor + 4 + size]), cursor + 4 + size, targets[1..])
  {
    hide FromWord, Put;
  }

  /** The modules up to the `i`-th, of which only the size modulo 2^32 is left. */
  function Cut(modules: seq<seq<Byte>>, i: nat): (r: seq<seq<Byte>>)
    requires i < |modules|
    ensures |r| == i + 1
  {
    modules[..i] + [modules[i][..|modules[i]| % TWO32]]
  }

  /** The loader, started at `cursor` on `mem`, comes to memory `next`, with the modules up to the `i`-th
      in place as far as their sizes were packed, and looks for a size inside the data of module `i`. */
  ghost predicate Astray(mem: seq<Byte>, next: seq<Byte>, cursor: nat, modules: seq<seq<Byte>>, targets: seq<nat>, i: nat)
    requires i < |modules| == |targets|
  {
    var m, size, data := modules[i], |modules[i]| % TWO32, DataStart(modules, cursor, i);
    && Loaded(mem, cursor, targets) == Loaded(next, data + size, targets[i + 1..])
    && InPlace(mem, next, Cut(modules, i), targets[..i + 1])
    && data + |m| <= |mem| && next[data + size..data + |m|] == m[size..]
  }

  lemma CutApart(memory: nat, modules: seq<seq<Byte>>, targets: seq<nat>, i: nat)
    requires i < |modules| && TargetsApart(memory, modules, targets)
    ensures TargetsApart(memory, Cut(modules, i), targets[..i + 1])
  {
  }

  lemma AstrayLater(mem: seq<Byte>, next: seq<Byte>, cursor: nat, modules: seq<seq<Byte>>, targets: seq<nat>, i: nat)
    requires 0 < i < |modules| && TargetsApart(|mem|, modules, targets)
    requires Loaded(mem, cursor, targets) == Loaded(Put(mem, targets[0], modules[0]), cursor + 4 + |modules[0]|, targets[1..])
    requires Astray(Put(mem, targets[0], modules[0]), next, cursor + 4 + |modules[0]|, modules[1..], targets[1..], i - 1)
    ensures Astray(mem, next, cursor, modules, targets, i)
  {
    hide Loaded, InPlace, Put;
    CutApart(|mem|, modules, targets, i);
    assert modules[1..][i - 1] == modules[i] && targets[1..][i..] == targets[i + 1..];
    assert DataStart(modules[1..], cursor + 4 + |modules[0]|, i - 1) == DataStart(modules, cursor, i);
    assert Cut(modules, i)[1..] == Cut(modules[1..], i - 1) && targets[..i + 1][1..] == targets[1..][..i];
    FirstStays(mem, next, Cut(modules, i), targets[..i + 1]);
  }

  lemma AstrayFirst(mem: seq<Byte>, cursor: nat, modules: seq<seq<Byte>>, targets: seq<nat>)
    requires modules != [] && Safe(|mem|, modules, cursor, targets) && |modules[0]| >= TWO32
    requires mem[cursor..cursor + |Modules(modules)|] == Modules(modules)
    ensures |targets| == |modules| && targets[0] + |modules[0]| <= |mem|
    ensures Astray(mem, Put(mem, targets[0], modules[0][..|modules[0]| % TWO32]), cursor, modules, targets, 0)
  {
    hide Loaded, Put, Safe, Modules;
    SafeShape(|mem|, modules, cursor, targets);
    FirstTooLong(mem, cursor, modules, targets);
    assert Cut(modules, 0) == [modules[0][..|modules[0]| % TWO32]] && targets[..1] == [targets[0]];
    assert forall k: nat :: !InTarget(Cut(modules, 0), targets[..1], k) ==> !(targets[0] <= k < targets[0] + |modules[0]| % TWO32) by {
      assert Cut(modules, 0)[0] == modules[0][..|modules[0]| % TWO32] && targets[..1][0] == targets[0];
    }
  }

  /** In any list: the modules before the first one that is too long are loaded, and then the loader is
      led astray inside that one. */
  lemma {:induction false} TooLongLeadsAstray(mem: seq<Byte>, cursor: nat, modules: seq<seq<Byte>>, targets: seq<nat>, i: nat)
    returns (next: seq<Byte>)
    requires i < |modules| && Safe(|mem|, modules, cursor, targets) && |modules[i]| >= TWO32
    requires forall j :: 0 <= j < i ==> |modules[j]| < TWO32
    requires mem[cursor..cursor + |Modules(modules)|] == Modules(modules)
    ensures |targets| == |modules| && Astray(mem, next, cursor, modules, targets, i)
    decreases i
  {
    hide Loaded, Put, Safe, Modules, Astray;
    SafeShape(|mem|, modules, cursor, targets);
    if i == 0 {
      AstrayFirst(mem, cursor, modules, targets);
      next := Put(mem, targets[0], modules[0][..|modules[0]| % TWO32]);
    } else {
      FirstModule(mem, cursor, modules, targets);
      SafeRest(|mem|, modules, cursor, targets);
      SafeIsApart(|mem|, modules, cursor, targets);
      next := TooLongLeadsAstray(Put(mem, targets[0], modules[0]), cursor + 4 + |modules[0]|, modules[1..], targets[1..], i - 1);
      AstrayLater(mem, next, cursor, modules, targets, i);
    }
  }

  /** A module of 2^32 bytes or more is not restored: only its size modulo 2^32 is packed. */
  lemma TooLongIsCut(mem: seq<Byte>, payloadStart: nat, m: seq<Byte>, target: nat)
    requires |m| >= TWO32 && payloadStart + |Payload([m])| <= |mem| && target + |m| <= |mem|
    requires mem[payloadStart..payloadStart + |Payload([m])|] == Payload([m])
    requires Disjoint(target, |m|, payloadStart, |Payload([m])|)
    ensures var size := |m| % TWO32;
            AfterLoad(mem, payloadStart, [target]) == Some(Put(mem, target, m[..size]))
  {
    hide FromWord, Word, Put, Loaded, Modules, Payload;
    var size, cursor := |m| % TWO32, payloadStart + 4;
    OneModule(m);
    Parts(mem, payloadStart, Word(1), Word(|m|), m);
    WordRoundTrip(1);
    WordRoundTrip(|m|);
    SplitSlice(mem, cursor + 4, m, size);
    assert [target][..1] == [target];
    LoadIs(mem, cursor, target, size);
  }

  lemma OneModule(m: seq<Byte>)
    ensures Payload([m]) == Word(1) + Word(|m|) + m && |Payload([m])| == 8 + |m|
  {
    hide Word;
    assert [m][1..] == [];
    assert Modules([m]) == Word(|m|) + m;
  }

  lemma LoadIs(mem: seq<Byte>, cursor: nat, target: nat, size: nat)
    requires cursor + 4 + size <= |mem| && target + size <= |mem| && FromWord(mem[cursor..cursor + 4]) == size
    requires Disjoint(target, size, cursor + 4, size)
    ensures Loaded(mem, cursor, [target]) == Some(Put(mem, target, mem[cursor + 4..cursor + 4 + size]))
  {
    hide FromWord, Put;
    assert [target][1..] == [];
  }

  // ----- exactly when the round trip succeeds -----

  /** A cell before a target, or too far behind it for any size of 32 bits, is out of its reach. */
  ghost predicate OutOfReach(targets: seq<nat>, k: nat) {
    forall j :: 0 <= j < |targets| ==> k < targets[j] || targets[j] + TWO32 - 1 <= k
  }

  /** Whatever sizes the loader reads, it leaves such a cell as it was. */
  lemma {:induction false} LeavesCell(mem: seq<Byte>, cursor: nat, targets: seq<nat>, k: nat)
    requires k < |mem| && OutOfReach(targets, k) && Loaded(mem, cursor, targets).Some?
    ensures Loaded(mem, cursor, targets).value[k] == mem[k]
    decreases |targets|
  {
    hide Put, FromWord, OutOfReach;
    if targets != [] {
      hide Loaded;
      LoadedNext(mem, cursor, targets);
      ReachNext(targets, k);
      var size := FromWord(mem[cursor..cursor + 4]);
      LeavesCell(Put(mem, targets[0], mem[cursor + 4..cursor + 4 + size]), cursor + 4 + size, targets[1..], k);
    }
  }

  lemma LoadedNext(mem: seq<Byte>, cursor: nat, targets: seq<nat>)
    requires targets != [] && Loaded(mem, cursor, targets).Some?
    ensures cursor + 4 <= |mem|
    ensures var size := FromWord(mem[cursor..cursor + 4]);
            && cursor + 4 + size <= |mem| && targets[0] + size <= |mem|
            && Loaded(mem, cursor, targets) ==
               Loaded(Put(mem, targets[0], mem[cursor + 4..cursor + 4 + size]), cursor + 4 + size, targets[1..])
  {
    hide Put, FromWord;
  }

  lemma ReachNext(targets: seq<nat>, k: nat)
    requires targets != [] && OutOfReach(targets, k)
    ensures k < targets[0] || targets[0] + TWO32 - 1 <= k
    ensures OutOfReach(targets[1..], k)
  {
  }

  /** The last cell of a target that is too long is out of reach of every target. */
  lemma LastCell(memory: nat, modules: seq<seq<Byte>>, targets: seq<nat>, i: nat)
    requires TargetsApart(memory, modules, targets) && i < |modules| && |modules[i]| >= TWO32
    ensures OutOfReach(targets, targets[i] + |modules[i]| - 1)
  {
    forall j | 0 <= j < |targets|
      ensures targets[i] + |modules[i]| - 1 < targets[j] || targets[j] + TWO32 - 1 <= targets[i] + |modules[i]| - 1
    {
      if j < i {
        assert Disjoint(targets[j], |modules[j]|, targets[i], |modules[i]|);
      } else if i < j {
        assert Disjoint(targets[i], |modules[i]|, targets[j], |modules[j]|);
      }
    }
  }

  /** The memory does not happen to hold the last byte of a module that is too long where it belongs. */
  ghost predicate NoCoincidence(mem: seq<Byte>, modules: seq<seq<Byte>>, targets: seq<nat>)
    requires |targets| == |modules|
  {
    forall i :: 0 <= i < |modules| && |modules[i]| >= TWO32 && targets[i] + |modules[i]| <= |mem| ==>
      mem[targets[i] + |modules[i]| - 1] != modules[i][|modules[i]| - 1]
  }

  lemma TooLongIsMissing(mem: seq<Byte>, final: seq<Byte>, modules: seq<seq<Byte>>, targets: seq<nat>, i: nat)
    requires |final| == |mem| && TargetsApart(|mem|, modules, targets) && NoCoincidence(mem, modules, targets)
    requires i < |modules| && |modules[i]| >= TWO32
    requires final[targets[i] + |modules[i]| - 1] == mem[targets[i] + |modules[i]| - 1]
    ensures final[targets[i]..targets[i] + |modules[i]|] != modules[i]
  {
    var n := |modules[i]|;
    assert final[targets[i]..targets[i] + n][n - 1] == final[targets[i] + n - 1];
  }

  /** Packing and then loading leaves every module at its target, and nothing else changed, exactly if
      every module is shorter than 2^32 bytes. */
  lemma RestoresExactly(mem: seq<Byte>, payloadStart: nat, modules: seq<seq<Byte>>, targets: seq<nat>)
    requires |modules| < TWO32 && |targets| >= |modules|
    requires payloadStart + |Payload(modules)| <= |mem|
    requires mem[payloadStart..payloadStart + |Payload(modules)|] == Payload(modules)
    requires Safe(|mem|, modules, payloadStart + 4, targets[..|modules|])
    requires NoCoincidence(mem, modules, targets[..|modules|])
    ensures var r := AfterLoad(mem, payloadStart, targets);
            r.Some? && InPlace(mem, r.value, modules, targets[..|modules|])
            <==> forall i :: 0 <= i < |modules| ==> |modules[i]| < TWO32
  {
    hide Safe, InPlace, Modules, Loaded, FromWord, Word, OutOfReach, NoCoincidence, TargetsApart;
    var to := targets[..|modules|];
    if forall i :: 0 <= i < |modules| ==> |modules[i]| < TWO32 {
      RoundTrip(mem, payloadStart, modules, targets);
    } else {
      var i :| 0 <= i < |modules| && |modules[i]| >= TWO32;
      Parts(mem, payloadStart, Word(|modules|), Modules(modules), []);
      WordRoundTrip(|modules|);
      var r := Loaded(mem, payloadStart + 4, to);
      if r.Some? {
        SafeIsApart(|mem|, modules, payloadStart + 4, to);
        LastCell(|mem|, modules, to, i);
        IsInMemory(|mem|, modules, to, i);
        LeavesCell(mem, payloadStart + 4, to, to[i] + |modules[i]| - 1);
        TooLongIsMissing(mem, r.value, modules, to, i);
        if InPlace(mem, r.value, modules, to) { IsInPlace(mem, r.value, modules, to, i); }
      }
    }
  }

  lemma IsInMemory(memory: nat, modules: seq<seq<Byte>>, targets: seq<nat>, i: nat)
    requires TargetsApart(memory, modules, targets) && i < |modules|
    ensures |targets| == |modules| && targets[i] + |modules[i]| <= memory
  {
  }

  lemma IsInPlace(mem: seq<Byte>, final: seq<Byte>, modules: seq<seq<Byte>>, targets: seq<nat>, i: nat)
    requires InPlace(mem, final, modules, targets) && i < |modules|
    ensures targets[i] + |modules[i]| <= |final| && final[targets[i]..targets[i] + |modules[i]|] == modules[i]
  {
  }

  /** Such a payload exists: one module of 2^32 bytes, to be loaded behind the payload into cleared memory. */
  lemma TooLongFails() returns (mem: seq<Byte>, m: seq<Byte>, target: nat)
    ensures |m| == TWO32 && target == |Payload([m])| <= |mem| && mem[..target] == Payload([m])
    ensures Safe(|mem|, [m], 4, [target]) && NoCoincidence(mem, [m], [target])
    ensures var r := AfterLoad(mem, 0, [target]); !(r.Some? && InPlace(mem, r.value, [m], [target]))
  {
    hide Word, FromWord, Put, InPlace, Loaded;
    m := seq(TWO32, i => 1);
    OneModule(m);
    assert [m][1..] == [];
    target := |Payload([m])|;
    mem := Payload([m]) + seq(TWO32, i => 0);
    assert mem[0..target] == Payload([m]);
    assert [target][..1] == [target] && DataStart([m], 4, 0) == 8;
    RestoresExactly(mem, 0, [m], [target]);
    assert |[m][0]| >= TWO32;
  }
}
