/**
 The packer of Toolchain/ModulePacker/main.c: it appends to the kernel the number of modules and,
 for each module, its size and its bytes.
 */
module ModulePacker {
  import opened Bytes

  const BUFFER_SIZE := 128

  /** What the kernel finds after its own bytes. */
  function Modules(modules: seq<seq<Byte>>): seq<Byte> {
    if modules == [] then [] else Word(|modules[0]|) + modules[0] + Modules(modules[1..])
  }

  function Payload(modules: seq<seq<Byte>>): seq<Byte> {
    Word(|modules|) + Modules(modules)
  }

  lemma {:induction false} ModulesAppend(modules: seq<seq<Byte>>, m: seq<Byte>)
    ensures Modules(modules + [m]) == Modules(modules) + Word(|m|) + m
  {
    if modules == [] {
      assert Modules([m]) == Word(|m|) + m + Modules([]);
    } else {
      assert (modules + [m])[0] == modules[0] && (modules + [m])[1..] == modules[1..] + [m];
      ModulesAppend(modules[1..], m);
    }
  }

  /** An open file. Its end is noticed only by a read that gets fewer bytes than it asked for. */
  class File {
    var content: seq<Byte>
    var position: nat
    var eof: bool

    constructor (content: seq<Byte>)
      ensures this.content == content && position == 0 && !eof
    {
      this.content, position, eof := content, 0, false;
    }

    method Read(n: nat) returns (data: seq<Byte>)
      requires position <= |content|
      modifies `position, `eof
      ensures old(position) <= position <= |content| && data == content[old(position)..position]
      ensures position == if old(position) + n <= |content| then old(position) + n else |content|
      ensures eof == (old(eof) || |data| < n)
    {
      var end := if position + n <= |content| then position + n else |content|;
      data := content[position..end];
      eof := eof || |data| < n;
      position := end;
    }

    method Append(data: seq<Byte>)
      modifies `content
      ensures content == old(content) + data
    {
      content := content + data;
    }
  }

  /** Copies the whole source, whatever its length. */
  method WriteFile(target: File, source: File)
    requires target != source && source.position == 0 && !source.eof
    modifies target`content, source`position, source`eof
    ensures target.content == old(target.content) + source.content
  {
    while !source.eof
      invariant source.position <= |source.content| && (source.eof ==> source.position == |source.content|)
      invariant source.content == old(source.content)
      invariant target.content == old(target.content) + source.content[..source.position]
      decreases !source.eof, |source.content| - source.position
    {
      var buffer := source.Read(BUFFER_SIZE);
      target.Append(buffer);
    }
  }

  /** The reader of the next four bytes gets the size modulo 2^32. */
  method WriteSize(target: File, size: nat)
    modifies target`content
    ensures |target.content| == |old(target.content)| + 4 && old(target.content) <= target.content
    ensures FromWord(target.content[|old(target.content)|..]) == size % TWO32
  {
    WordRoundTrip(size);
    target.Append(Word(size));
  }

  lemma NoModules()
    ensures Modules([]) == []
  {
  }

  lemma Regroup(a: seq<Byte>, b: seq<Byte>, c: seq<Byte>, d: seq<Byte>)
    ensures a + b + c + d == a + (b + c + d)
  {
  }

  /** `files` are the kernel and the modules. */
  method BuildImage(files: seq<seq<Byte>>, canCreate: bool) returns (ok: bool, image: seq<Byte>)
    requires files != []
    ensures ok == canCreate
    ensures ok ==> image == files[0] + Payload(files[1..])
  {
    hide Modules, Word;
    if !canCreate {
      return false, [];
    }
    var target := new File([]);
    var source := new File(files[0]);
    WriteFile(target, source);
    var extraBinaries := |files| - 1;
    target.Append(Word(extraBinaries));
    assert files[1..1] == [];
    NoModules();
    for i := 1 to |files|
      invariant target.content == files[0] + Word(|files| - 1) + Modules(files[1..i])
    {
      source := new File(files[i]);
      ghost var before := target.content;
      WriteSize(target, |files[i]|);
      WordIs(target.content[|before|..], |files[i]|);
      assert target.content == before + Word(|files[i]|);
      WriteFile(target, source);
      ModulesAppend(files[1..i], files[i]);
      Regroup(files[0] + Word(|files| - 1), Modules(files[1..i]), Word(|files[i]|), files[i]);
      assert files[1..i + 1] == files[1..i] + [files[i]];
    }
    assert files[1..|files|] == files[1..];
    assert target.content == files[0] + Payload(files[1..]);
    return true, target.content;
  }
}
