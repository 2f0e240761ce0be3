/**
 The buffer of a pipe (Kernel/IPC.c): two indices and a flag that tells full from empty. Every call
 is taken to have the pipe's mutex at once, and blocking is left out: a call that would block
 returns 0 and does nothing.
 */
module Pipe {

  /** The cell that is `k` cells after cell `i`, in a ring of `length` cells. */
  function Cell(i: nat, k: nat, length: nat): nat
  {
    if i + k < length then i + k else i + k - length
  }

  /** The source's `i % length`. */
  function Modulo(i: nat, length: nat): nat
    requires length > 0
  {
    i % length
  }

  lemma CellIsModulo(i: nat, k: nat, length: nat)
    requires i < length && k <= length
    ensures Modulo(i + k, length) == Cell(i, k, length)
  {
    if i + k >= length { Lap(i + k - length, length); }
  }

  lemma Lap(i: nat, length: nat)
    requires i < length
    ensures (i + length) % length == i
  {
  }

  /** How many bytes are stored between the indices. */
  function CountOf(position: nat, end: nat, readFlag: int, length: nat): (n: nat)
    requires position < length && end < length
    ensures n <= length && Cell(position, n, length) == end
    ensures n == 0 <==> position == end && readFlag == 0
    ensures n == length <==> position == end && readFlag != 0
  {
    if position < end then end - position
    else if position > end then end - position + length
    else if readFlag == 0 then 0 else length
  }

  /** Going `k` cells on from the end of `n` bytes. */
  lemma GoOn(position: nat, n: nat, k: nat, length: nat)
    requires position < length && n + k <= length
    ensures Cell(position, n, length) < length && Cell(Cell(position, n, length), k, length) == Cell(position, n + k, length)
    ensures Cell(position, n + k, length) == position <==> n + k == 0 || n + k == length
  {
  }

  lemma CountIs(position: nat, n: nat, readFlag: int, length: nat)
    requires position < length && n <= length
    ensures Cell(position, n, length) < length
    ensures CountOf(position, Cell(position, n, length), readFlag, length) ==
            if 0 < n < length then n else if readFlag == 0 then 0 else length
  {
  }

  /** The same from the other side: taking `k` bytes leaves `n - k`. */
  lemma CountLeft(position: nat, n: nat, k: nat, length: nat)
    requires position < length && k <= n <= length
    ensures Cell(position, k, length) < length && Cell(position, n, length) < length
    ensures 0 < k || n < length ==> CountOf(Cell(position, k, length), Cell(position, n, length), 0, length) == n - k
    ensures k == 0 && n == length ==> CountOf(Cell(position, k, length), Cell(position, n, length), 0, length) == 0
    ensures k < n ==> (Cell(position, k, length) == Cell(position, n, length) <==> k == 0 && n == length)
  {
  }

  /** The `count` bytes from cell `position` on. */
  function Stored(cells: seq<char>, position: nat, count: nat): (s: seq<char>)
    requires position < |cells| && count <= |cells|
    ensures |s| == count && forall k :: 0 <= k < count ==> s[k] == cells[Cell(position, k, |cells|)]
  {
    seq(count, k requires 0 <= k < count => cells[Cell(position, k, |cells|)])
  }

  lemma StoreOne(cells: seq<char>, position: nat, count: nat, x: char)
    requires position < |cells| && count < |cells|
    ensures Stored(cells[Cell(position, count, |cells|) := x], position, count + 1) == Stored(cells, position, count) + [x]
  {
  }

  lemma StoredAt(cells: seq<char>, position: nat, count: nat, k: nat)
    requires position < |cells| && k < count <= |cells|
    ensures Stored(cells, position, count)[k] == cells[Cell(position, k, |cells|)]
  {
  }

  lemma DropSome(cells: seq<char>, position: nat, count: nat, n: nat)
    requires position < |cells| && n <= count <= |cells|
    ensures Cell(position, n, |cells|) < |cells|
    ensures Stored(cells, Cell(position, n, |cells|), count - n) == Stored(cells, position, count)[n..]
  {
  }

  // ----- the bounded queue -----

  function Min(a: int, b: int): (m: int)
    ensures m <= a && m <= b && (m == a || m == b)
  {
    if a <= b then a else b
  }

  /** The longest prefix of the message that fits. */
  function Accepted(queue: seq<char>, message: string, length: nat): string
    requires |queue| <= length
  {
    message[..Min(|message|, length - |queue|)]
  }

  lemma AcceptedIs(queue: seq<char>, message: string, length: nat)
    requires |queue| <= length
    ensures var n := Min(|message|, length - |queue|);
            Accepted(queue, message, length) == message[..n] && |Accepted(queue, message, length)| == n
  {
  }

  /** The number of bytes that a read asks for: -1 means as many as there can be. */
  function Wanted(bytes: int, length: nat): nat {
    if bytes == -1 then length else if bytes < 0 then 0 else bytes
  }

  /** What a read takes. */
  function Taken(queue: seq<char>, bytes: int, length: nat): string {
    queue[..Min(Wanted(bytes, length), |queue|)]
  }

  // ----- runs -----

  datatype Call = WriteCall(message: string) | ReadCall(count: int)

  /** The calls that the pipe serves as a queue. */
  predicate Served(call: Call) {
    match call
    case WriteCall(message) => message != ""
    case ReadCall(count) => count == -1 || count >= 1
  }

  datatype History = History(queue: string, accepted: string, delivered: string)

  /** What a run of calls on an empty pipe has stored, accepted and delivered: in order, and never
      more than the pipe holds. */
  function Run(calls: seq<Call>, length: nat): (h: History)
    requires forall call :: call in calls ==> Served(call)
    ensures h.accepted == h.delivered + h.queue && |h.queue| <= length
  {
    if calls == [] then History("", "", "")
    else
      var h := Run(calls[..|calls| - 1], length);
      match calls[|calls| - 1]
      case WriteCall(message) =>
        var a := Accepted(h.queue, message, length);
        History(h.queue + a, h.accepted + a, h.delivered)
      case ReadCall(count) =>
        var t := Taken(h.queue, count, length);
        History(h.queue[|t|..], h.accepted, h.delivered + t)
  }

  /** What the last call of a run did: a write appended as many bytes as there was room for, a read
      took as many of the oldest as it asked for and there were. */
  lemma LastCall(calls: seq<Call>, length: nat)
    requires calls != [] && forall call :: call in calls ==> Served(call)
    ensures var before := Run(calls[..|calls| - 1], length);
            var after := Run(calls, length);
            match calls[|calls| - 1] {
              case WriteCall(message) =>
                var n := Min(|message|, length - |before.queue|);
                after == History(before.queue + message[..n], before.accepted + message[..n], before.delivered)
              case ReadCall(count) =>
                var n := if count < 0 then |before.queue| else Min(count, |before.queue|);
                after == History(before.queue[n..], before.accepted, before.delivered + before.queue[..n])
            }
  {
    assert calls[|calls| - 1] in calls;
    assert Served(calls[|calls| - 1]);
  }

  class Pipe {
    var pipe: array<char>
    var position: int
    var end: int
    var readFlag: int

    ghost predicate Valid()
      reads this, pipe
    {
      pipe.Length > 0 && 0 <= position < pipe.Length && 0 <= end < pipe.Length && 0 <= readFlag <= 1
    }

    /** The number of bytes stored. */
    ghost function Count(): (n: nat)
      requires Valid()
      reads this, pipe
      ensures n <= pipe.Length && Cell(position, n, pipe.Length) == end
      ensures n == 0 <==> position == end && readFlag == 0
      ensures n == pipe.Length <==> position == end && readFlag == 1
    {
      CountOf(position, end, readFlag, pipe.Length)
    }

    /** The bytes stored, oldest first. */
    ghost function Contents(): (s: seq<char>)
      requires Valid()
      reads this, pipe
    {
      Stored(pipe[..], position, Count())
    }

    constructor (length: nat)
      requires length > 0
      ensures Valid() && Contents() == [] && pipe.Length == length && fresh(pipe)
    {
      pipe := new char[length];
      position, end, readFlag := 0, 0, 0;
    }

    method Next(aux: int) returns (r: int)
      requires Valid() && 0 <= aux < pipe.Length
      ensures r == Cell(aux, 1, pipe.Length)
    {
      r := aux + 1;
      if r == pipe.Length {
        r := 0;
      }
    }

    /** The loop of `Write`, on a pipe that is not full. */
    method CopyIn(message: string) returns (bytes: nat)
      requires Valid() && Count() < pipe.Length
      modifies pipe
      ensures bytes == Min(|message|, pipe.Length - Count())
      ensures Stored(pipe[..], position, Count() + bytes) == old(Contents()) + message[..bytes]
    {
      hide Stored, Modulo, Cell, CountOf;
      ghost var stored, c := Contents(), Count();
      var aux := end;
      bytes := 0;
      while bytes < |message| && (Modulo(end + bytes, pipe.Length) != position || bytes == 0)
        invariant bytes <= |message| && c + bytes <= pipe.Length
        invariant c + bytes < pipe.Length ==> aux == Cell(position, c + bytes, pipe.Length)
        invariant Stored(pipe[..], position, c + bytes) == stored + message[..bytes]
      {
        GoOn(position, c, bytes, pipe.Length);
        CellIsModulo(end, bytes, pipe.Length);
        GoOn(position, c + bytes, 1, pipe.Length);
        StoreOne(pipe[..], position, c + bytes, message[bytes]);
        ghost var cells := pipe[..];
        pipe[aux] := message[bytes];
        assert pipe[..] == cells[aux := message[bytes]];
        aux := Next(aux);
        bytes := bytes + 1;
      }
      GoOn(position, c, bytes, pipe.Length);
      CellIsModulo(end, bytes, pipe.Length);
    }

    /** Appends the longest prefix that fits and returns its length. The one exception, which
        callers must avoid: an empty message to an empty pipe leaves it full of old bytes. */
    method Write(message: string) returns (bytes: nat)
      requires Valid()
      modifies `end, `readFlag, pipe
      ensures Valid()
      ensures bytes == |Accepted(old(Contents()), message, pipe.Length)| == Min(|message|, pipe.Length - |old(Contents())|)
      ensures old(Contents()) != [] || message != "" ==> Contents() == old(Contents()) + message[..bytes]
      ensures message != "" || old(Contents()) != [] <==>
              Contents() == old(Contents()) + Accepted(old(Contents()), message, pipe.Length)
      ensures message == "" && old(Contents()) == [] ==> |Contents()| == pipe.Length
    {
      hide Stored, Modulo, Cell, CountOf, Accepted;
      ghost var stored, c := Contents(), Count();
      AcceptedIs(stored, message, pipe.Length);
      if position == end && readFlag == 1 {
        return 0;
      }
      bytes := CopyIn(message);
      GoOn(position, c, bytes, pipe.Length);
      CellIsModulo(end, bytes, pipe.Length);
      CountIs(position, c + bytes, 0, pipe.Length);
      CountIs(position, c + bytes, 1, pipe.Length);
      end := Modulo(end + bytes, pipe.Length);
      if end == position {
        readFlag := 1;
      }
      if c + bytes > 0 {
        assert Count() == c + bytes;
      } else {
        assert Count() == pipe.Length;
      }
    }

    /** The loop of `Read`, on a pipe that is not empty. */
    method CopyOut(bytes: int) returns (result: string, i: nat)
      requires Valid() && Contents() != []
      ensures i == Min(if bytes < 0 then 0 else bytes, Count()) && result == Contents()[..i]
    {
      hide Stored, Modulo, Cell, CountOf;
      ghost var stored, c := Contents(), Count();
      var aux := position;
      result, i := "", 0;
      GoOn(position, 0, 0, pipe.Length);
      while i < bytes && (Modulo(i + position, pipe.Length) != end || i == 0)
        invariant i <= c && (bytes >= 0 ==> i <= bytes) && (bytes < 0 ==> i == 0)
        invariant result == stored[..i]
        invariant i < pipe.Length ==> aux == Cell(position, i, pipe.Length)
      {
        CellIsModulo(position, i, pipe.Length);
        CountLeft(position, c, i, pipe.Length);
        GoOn(position, i, 1, pipe.Length);
        StoredAt(pipe[..], position, c, i);
        result := result + [pipe[aux]];
        aux := Next(aux);
        i := i + 1;
      }
      CellIsModulo(position, i, pipe.Length);
      CountLeft(position, c, i, pipe.Length);
    }

    /** Removes as many of the oldest bytes as are asked for and stored, and returns them. The one
        exception, which callers must avoid: asking for no byte of a full pipe empties it. */
    method Read(count: int) returns (result: string)
      requires Valid()
      modifies `position, `readFlag
      ensures Valid()
      ensures result == Taken(old(Contents()), count, pipe.Length) && result <= old(Contents())
      ensures |result| == Min(if count == -1 then |old(Contents())| else if count < 0 then 0 else count, |old(Contents())|)
      ensures Wanted(count, pipe.Length) > 0 || |old(Contents())| < pipe.Length <==>
              old(Contents()) == result + Contents()
      ensures Wanted(count, pipe.Length) == 0 && |old(Contents())| == pipe.Length ==> Contents() == []
    {
      hide Stored, Modulo, Cell, CountOf;
      ghost var stored, c := Contents(), Count();
      if position == end && readFlag == 0 {
        return "";
      }
      var i;
      result, i := CopyOut(if count == -1 then pipe.Length else count);
      CellIsModulo(position, i, pipe.Length);
      CountLeft(position, c, i, pipe.Length);
      DropSome(pipe[..], position, c, i);
      position := Modulo(position + i, pipe.Length);
      readFlag := 0;
      if i > 0 || c < pipe.Length {
        assert Contents() == stored[i..];
        assert stored == stored[..i] + stored[i..];
      }
    }
  }

  // ----- a pipe in use -----

  /** Any run of calls on an empty pipe: what its cells, indices and flag hold, together with all that
      was accepted and delivered, is what the queue says, and nothing is lost, repeated or reordered. */
  method Serve(p: Pipe, calls: seq<Call>) returns (accepted: string, delivered: string)
    requires p.Valid() && p.Contents() == [] && forall call :: call in calls ==> Served(call)
    modifies p`position, p`end, p`readFlag, p.pipe
    ensures p.Valid() && accepted == delivered + p.Contents()
    ensures Run(calls, p.pipe.Length) == History(p.Contents(), accepted, delivered)
  {
    accepted, delivered := "", "";
    for i := 0 to |calls|
      invariant p.Valid() && Run(calls[..i], p.pipe.Length) == History(p.Contents(), accepted, delivered)
    {
      assert calls[..i + 1][..i] == calls[..i] && calls[i] in calls;
      ghost var stored := p.Contents();
      match calls[i]
      case WriteCall(message) =>
        var bytes := p.Write(message);
        AcceptedIs(stored, message, p.pipe.Length);
        accepted := accepted + message[..bytes];
      case ReadCall(count) =>
        var result := p.Read(count);
        delivered := delivered + result;
        assert p.Contents() == stored[|result|..];
    }
    assert calls[..|calls|] == calls;
  }
}
