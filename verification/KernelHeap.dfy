/**
 The kernel heap of Kernel/malloc.c: `kmalloc` on a list of blocks that are carved out of one region.
 Sizes are 32-bit unsigned (`size_t` in Kernel/include/types.h).
 */
module KernelHeap {
  import opened Sequences

  const TWO32 := 0x1_0000_0000
  const BLOCK_STRUCT_SIZE := 28
  const KERNEL_HEAP_START := 0x4000
  const KERNEL_HEAP_SIZE := 4096 * 17
  const NULL := 0

  /** A block: where its header is, how many bytes follow the header, and whether it is free. */
  datatype Header = Header(address: nat, size: nat, free: bool) {
    function DataStart(): nat { address + BLOCK_STRUCT_SIZE }
    function End(): nat { address + BLOCK_STRUCT_SIZE + size }
  }

  function Align4(x: nat): nat
    requires x >= 1
  {
    ((x - 1) / 4 * 4 + 4) % TWO32
  }

  /** Rounding up to a multiple of 4, except that the last few sizes wrap around to 0. */
  lemma AlignIs(x: nat)
    requires 1 <= x < TWO32
    ensures Align4(x) % 4 == 0
    ensures x <= TWO32 - 4 ==> x <= Align4(x) < x + 4
    ensures x > TWO32 - 4 ==> Align4(x) == 0
  {
  }

  // ----- the operations on the list -----

  /** The first block that is free and larger than `size`; |list| if there is none. */
  function FirstFree(list: seq<Header>, size: nat, k: nat): (r: nat)
    requires k <= |list|
    ensures k <= r <= |list| && (r < |list| ==> list[r].free && list[r].size > size)
    ensures forall i :: k <= i < r ==> !(list[i].free && list[i].size > size)
    decreases |list| - k
  {
    if k == |list| || (list[k].free && list[k].size > size) then k else FirstFree(list, size, k + 1)
  }

  function Split(list: seq<Header>, k: nat, size: nat): seq<Header>
    requires k < |list|
  {
    var b := list[k];
    if b.size < size then list
    else list[..k]
         + [b.(size := size), Header(b.DataStart() + size, (b.size - (size + BLOCK_STRUCT_SIZE)) % TWO32, true)]
         + list[k + 1..]
  }

  function Merge(list: seq<Header>, k: nat): seq<Header>
    requires k + 1 < |list|
  {
    list[..k] + [list[k].(size := (list[k].size + (list[k + 1].size + BLOCK_STRUCT_SIZE)) % TWO32)] + list[k + 2..]
  }

  /** Whenever a block is split, merging it with the new block undoes that. */
  lemma MergeUndoesSplit(list: seq<Header>, k: nat, size: nat)
    requires k < |list| && size <= list[k].size < TWO32
    ensures Merge(Split(list, k, size), k) == list
  {
    var b := list[k];
    var s := Split(list, k, size);
    Wraps(b.size, size);
    assert s[..k] == list[..k] && s[k + 2..] == list[k + 1..];
    assert s[k] == b.(size := size);
    assert list == list[..k] + [b] + list[k + 1..];
  }

  lemma Wraps(whole: nat, size: nat)
    requires size <= whole < TWO32
    ensures (size + ((whole - (size + BLOCK_STRUCT_SIZE)) % TWO32 + BLOCK_STRUCT_SIZE)) % TWO32 == whole
  {
  }

  /** What `kmalloc` returns and leaves, once the heap is initialized. */
  function Kmalloc(list: seq<Header>, size: nat): (int, seq<Header>)
  {
    if size == 0 then (NULL, list)
    else
      var s := Align4(size);
      var k := FirstFree(list, s, 0);
      if k == |list| then (NULL, list)
      else
        var l := if list[k].size > (s + 4 + BLOCK_STRUCT_SIZE) % TWO32 then Split(list, k, s) else list;
        (list[k].DataStart(), if k < |l| then l[k := l[k].(free := false)] else l)
  }

  lemma SplitNothing(list: seq<Header>, k: nat, size: nat)
    requires k < |list| && list[k].size < size
    ensures Split(list, k, size) == list
  {
  }

  lemma SplitLength(list: seq<Header>, k: nat, size: nat)
    requires k < |list| && list[k].size >= size
    ensures |Split(list, k, size)| == |list| + 1
  {
  }

  lemma SplitAt(list: seq<Header>, k: nat, size: nat, i: nat)
    requires k < |list| && list[k].size >= size && i <= |list| < |Split(list, k, size)|
    ensures Split(list, k, size)[i] ==
            if i < k then list[i]
            else if i == k then list[k].(size := size)
            else if i == k + 1 then Header(list[k].DataStart() + size, (list[k].size - (size + BLOCK_STRUCT_SIZE)) % TWO32, true)
            else list[i - 1]
  {
  }

  lemma MergeLength(list: seq<Header>, k: nat)
    requires k + 1 < |list|
    ensures |Merge(list, k)| == |list| - 1
  {
  }

  lemma MergeAt(list: seq<Header>, k: nat, i: nat)
    requires k + 1 < |list| && i < |list| - 1 == |Merge(list, k)|
    ensures Merge(list, k)[i] ==
            if i < k then list[i]
            else if i == k then list[k].(size := (list[k].size + (list[k + 1].size + BLOCK_STRUCT_SIZE)) % TWO32)
            else list[i + 1]
  {
  }

  // ----- the invariant -----

  /** Every block ends where the next one starts. */
  predicate Tiles(list: seq<Header>) {
    forall i :: 0 <= i < |list| - 1 ==> list[i].End() == list[i + 1].address
  }

  predicate Inv(list: seq<Header>) {
    && list != [] && Tiles(list)
    && list[0].address == KERNEL_HEAP_START
    && list[|list| - 1].End() == KERNEL_HEAP_START + BLOCK_STRUCT_SIZE + KERNEL_HEAP_SIZE
    && (forall i :: 0 <= i < |list| ==> list[i].size <= KERNEL_HEAP_SIZE && list[i].size % 4 == 0)
    && (forall i :: 0 <= i < |list| - 1 ==> !list[i].free)
  }

  function Fresh(): seq<Header> { [Header(KERNEL_HEAP_START, KERNEL_HEAP_SIZE, true)] }

  /** Sizes and headers together. */
  function Total(list: seq<Header>): nat {
    if list == [] then 0 else list[0].size + BLOCK_STRUCT_SIZE + Total(list[1..])
  }

  lemma {:induction false} TotalOfTiles(list: seq<Header>)
    requires list != [] && Tiles(list)
    ensures Total(list) == list[|list| - 1].End() - list[0].address
  {
    if |list| > 1 {
      assert list[0].End() == list[1].address;
      forall i | 0 <= i < |list[1..]| - 1 ensures list[1..][i].End() == list[1..][i + 1].address {
        assert list[1..][i] == list[i + 1];
        assert list[i + 1].End() == list[i + 1 + 1].address;
      }
      TotalOfTiles(list[1..]);
    } else {
      assert list[1..] == [];
    }
  }

  /** The bump allocator: what is left of the region, until its last piece is handed out. */
  datatype Bump = Open(address: nat, left: nat) | Closed

  function Rest(list: seq<Header>): Bump
    requires list != []
  {
    var b := list[|list| - 1];
    if b.free then Open(b.address, b.size) else Closed
  }

  /** The bump allocator's answer: the pointer, the number of bytes behind it, and the rest. */
  function Take(rest: Bump, size: nat): (int, nat, Bump) {
    if size == 0 || rest.Closed? || rest.left <= Align4(size) then (NULL, 0, rest)
    else
      var s := Align4(size);
      if rest.left > s + 4 + BLOCK_STRUCT_SIZE then
        (rest.address + BLOCK_STRUCT_SIZE, s, Open(rest.address + BLOCK_STRUCT_SIZE + s, rest.left - s - BLOCK_STRUCT_SIZE))
      else (rest.address + BLOCK_STRUCT_SIZE, rest.left, Closed)
  }

  lemma OnlyTheLast(list: seq<Header>, size: nat)
    requires Inv(list)
    ensures var n := |list| - 1;
            FirstFree(list, size, 0) == if list[n].free && list[n].size > size then n else |list|
  {
  }

  /** The list whose last block is replaced by one or two that fill the same place. */
  lemma ReplaceLast(list: seq<Header>, tail: seq<Header>)
    requires Inv(list) && (|tail| == 1 || (|tail| == 2 && tail[0].End() == tail[1].address && !tail[0].free))
    requires tail[0].address == list[|list| - 1].address && tail[|tail| - 1].End() == list[|list| - 1].End()
    requires forall b :: b in tail ==> b.size <= KERNEL_HEAP_SIZE && b.size % 4 == 0
    ensures Inv(list[..|list| - 1] + tail)
  {
    var n := |list| - 1;
    var next := list[..n] + tail;
    forall i | 0 <= i < |next| - 1 ensures next[i].End() == next[i + 1].address && !next[i].free {
      if i < n { assert list[i].End() == list[i + 1].address; }
    }
    forall i | 0 <= i < |next| ensures next[i].size <= KERNEL_HEAP_SIZE && next[i].size % 4 == 0 {
      if i >= n { assert next[i] in tail; }
    }
  }

  lemma LastFits(list: seq<Header>)
    requires Inv(list)
    ensures list != []
    ensures var b := list[|list| - 1]; b.size <= KERNEL_HEAP_SIZE && b.size % 4 == 0
  {
  }

  /** What the last block becomes when `s` bytes of it are handed out. */
  function HandedOut(b: Header, s: nat): seq<Header> {
    if b.size > s + 4 + BLOCK_STRUCT_SIZE
    then [Header(b.address, s, false), Header(b.DataStart() + s, b.size - (s + BLOCK_STRUCT_SIZE), true)]
    else [b.(free := false)]
  }

  lemma KmallocShape(list: seq<Header>, size: nat)
    requires Inv(list) && size < TWO32
    ensures var n := |list| - 1;
            var b := list[n];
            Kmalloc(list, size) ==
            if size > 0 && b.free && b.size > Align4(size) then (b.DataStart(), list[..n] + HandedOut(b, Align4(size)))
            else (NULL, list)
  {
    hide Inv, Align4, FirstFree;
    LastFits(list);
    var n := |list| - 1;
    if size > 0 {
      var s, b := Align4(size), list[n];
      OnlyTheLast(list, s);
      assert list == list[..n] + [b] && list[n + 1..] == [];
      if b.free && b.size > s {
        var l := if b.size > s + 4 + BLOCK_STRUCT_SIZE then Split(list, n, s) else list;
        assert l[n := l[n].(free := false)] == list[..n] + HandedOut(b, s);
      }
    }
  }

  /** First fit over the list is that bump allocator: only the last block is ever free. */
  lemma KmallocBumps(list: seq<Header>, size: nat)
    requires Inv(list) && size < TWO32
    ensures var (pointer, next) := Kmalloc(list, size);
            var (address, bytes, rest) := Take(Rest(list), size);
            && Inv(next) && pointer == address && Rest(next) == rest
            && (pointer == NULL ==> next == list)
            && (pointer != NULL ==>
                  && |next| == (if rest.Open? then |list| + 1 else |list|)
                  && next[..|list| - 1] == list[..|list| - 1]
                  && next[|list| - 1] == Header(list[|list| - 1].address, bytes, false)
                  && next[|list| - 1].DataStart() == pointer)
  {
    hide Inv, Align4, Kmalloc;
    LastFits(list);
    KmallocShape(list, size);
    var n := |list| - 1;
    if size > 0 && list[n].free && list[n].size > Align4(size) {
      AlignIs(size);
      ReplaceLast(list, HandedOut(list[n], Align4(size)));
    }
  }

  // ----- whole runs -----

  /** What a successful call returned, how many bytes are behind it, and how many were asked for. */
  datatype Grant = Grant(pointer: int, bytes: nat, requested: nat)

  datatype Heap = Heap(list: seq<Header>, grants: seq<Grant>)

  /** The blocks handed out are the first ones of the list, in the order of the calls. */
  ghost predicate HeapInv(h: Heap) {
    && Inv(h.list)
    && |h.grants| == (if h.list[|h.list| - 1].free then |h.list| - 1 else |h.list|)
    && (forall i :: 0 <= i < |h.grants| ==> IsGrantOf(h.grants[i], h.list[i]))
  }

  /** The last three sizes of 32 bits wrap to 0 and get a block without bytes. */
  predicate IsGrantOf(g: Grant, b: Header) {
    && g.pointer == b.DataStart() && g.bytes == b.size && !b.free
    && 1 <= g.requested < TWO32
    && (g.bytes >= g.requested <==> g.requested <= TWO32 - 4)
  }

  ghost function Called(h: Heap, size: nat): Heap
    requires h.list != []
  {
    var (pointer, next) := Kmalloc(h.list, size);
    var (_, bytes, _) := Take(Rest(h.list), size);
    Heap(next, if pointer == NULL then h.grants else h.grants + [Grant(pointer, bytes, size)])
  }

  lemma CalledKeepsInv(h: Heap, size: nat)
    requires HeapInv(h) && size < TWO32
    ensures HeapInv(Called(h, size))
  {
    hide Kmalloc, Inv;
    LastFits(h.list);
    KmallocBumps(h.list, size);
    var next := Called(h, size);
    if size > 0 { AlignIs(size); }
    var n := |h.list| - 1;
    forall i | 0 <= i < |next.grants| ensures IsGrantOf(next.grants[i], next.list[i]) {
      if i < n { assert next.list[..n][i] == h.list[..n][i]; }
    }
  }

  ghost function Run(h: Heap, sizes: seq<nat>): (n: Heap)
    requires HeapInv(h) && forall i :: 0 <= i < |sizes| ==> sizes[i] < TWO32
    ensures HeapInv(n)
    decreases |sizes|
  {
    if sizes == [] then h
    else CalledKeepsInv(h, sizes[0]); Run(Called(h, sizes[0]), sizes[1..])
  }

  lemma {:induction false} InOrder(list: seq<Header>, i: nat, j: nat)
    requires Tiles(list) && i < j < |list|
    ensures list[i].End() <= list[j].address
    decreases j - i
  {
    assert list[i].End() == list[i + 1].address;
    if i + 1 < j { InOrder(list, i + 1, j); }
  }

  lemma {:induction false} Aligned(list: seq<Header>, i: nat)
    requires Inv(list) && i < |list|
    ensures list[i].address % 4 == 0 && KERNEL_HEAP_START <= list[i].address
  {
    if i > 0 {
      Aligned(list, i - 1);
      assert list[i - 1].End() == list[i - 1 + 1].address;
    }
  }

  /** The `i`-th call got memory of the region, apart from all headers and all other calls' memory. */
  lemma Granted(h: Heap, i: nat)
    requires HeapInv(h) && i < |h.grants|
    ensures var g := h.grants[i];
            && g.pointer % 4 == 0
            && KERNEL_HEAP_START + BLOCK_STRUCT_SIZE <= g.pointer
            && g.pointer + g.bytes <= KERNEL_HEAP_START + BLOCK_STRUCT_SIZE + KERNEL_HEAP_SIZE
            && (g.bytes >= g.requested <==> g.requested <= TWO32 - 4)
  {
    Aligned(h.list, i);
    assert IsGrantOf(h.grants[i], h.list[i]);
    if i + 1 < |h.list| { InOrder(h.list, i, |h.list| - 1); }
  }

  lemma GrantsApart(h: Heap, i: nat, j: nat)
    requires HeapInv(h) && i < j < |h.grants|
    ensures h.grants[i].pointer + h.grants[i].bytes <= h.grants[j].pointer - BLOCK_STRUCT_SIZE
  {
    assert IsGrantOf(h.grants[i], h.list[i]) && IsGrantOf(h.grants[j], h.list[j]);
    InOrder(h.list, i, j);
  }

  /** After every run of calls on a fresh heap: the memory handed out lies in the region, aligned, and
      no two calls got overlapping memory or memory that holds a header; a call got at least what it
      asked for exactly if it asked for at most 2^32 - 4 bytes; sizes and headers add up as before. */
  lemma Safety(sizes: seq<nat>, i: nat, j: nat)
    requires forall k :: 0 <= k < |sizes| ==> sizes[k] < TWO32
    ensures HeapInv(Heap(Fresh(), []))
    ensures var n := Run(Heap(Fresh(), []), sizes);
            && Total(n.list) == BLOCK_STRUCT_SIZE + KERNEL_HEAP_SIZE
            && (i < |n.grants| ==>
                  var g := n.grants[i];
                  && g.pointer % 4 == 0
                  && KERNEL_HEAP_START + BLOCK_STRUCT_SIZE <= g.pointer
                  && g.pointer + g.bytes <= KERNEL_HEAP_START + BLOCK_STRUCT_SIZE + KERNEL_HEAP_SIZE
                  && (g.bytes >= g.requested <==> g.requested <= TWO32 - 4))
            && (i < j < |n.grants| ==> n.grants[i].pointer + n.grants[i].bytes <= n.grants[j].pointer - BLOCK_STRUCT_SIZE)
  {
    hide HeapInv;
    FreshIsOk();
    var n := Run(Heap(Fresh(), []), sizes);
    TotalIs(n);
    if i < |n.grants| { Granted(n, i); }
    if i < j < |n.grants| { GrantsApart(n, i, j); }
  }

  /** The failing side exists: on a fresh heap each of the three largest sizes gets a block of no bytes. */
  lemma LargestGetNothing(size: nat)
    requires TWO32 - 4 < size < TWO32
    ensures HeapInv(Heap(Fresh(), []))
    ensures Run(Heap(Fresh(), []), [size]).grants == [Grant(KERNEL_HEAP_START + BLOCK_STRUCT_SIZE, 0, size)]
  {
    FreshIsOk();
    AlignIs(size);
    CalledKeepsInv(Heap(Fresh(), []), size);
    KmallocBumps(Fresh(), size);
    assert [size][1..] == [];
  }

  lemma FreshIsOk()
    ensures HeapInv(Heap(Fresh(), []))
  {
  }

  lemma TotalIs(h: Heap)
    requires HeapInv(h)
    ensures Total(h.list) == BLOCK_STRUCT_SIZE + KERNEL_HEAP_SIZE
  {
    TotalOfTiles(h.list);
  }

  // ----- the list itself -----

  class Block {
    const address: nat
    var size: nat
    var next: Block?
    var prev: Block?
    var free: bool

    constructor (address: nat, size: nat, next: Block?, prev: Block?, free: bool)
      ensures this.address == address && this.size == size && this.next == next && this.prev == prev && this.free == free
    {
      this.address, this.size, this.next, this.prev, this.free := address, size, next, prev, free;
    }

    ghost predicate Is(h: Header)
      reads this
    {
      address == h.address && size == h.size && free == h.free
    }
  }

  class Allocator {
    var kernelBase: Block?
    ghost var blocks: seq<Block>
    ghost var list: seq<Header>

    ghost function At(i: int): Block?
      reads this
    {
      if 0 <= i < |blocks| then blocks[i] else null
    }

    /** The `i`-th block holds what `list` says, and leads to the next one. */
    ghost predicate Linked(i: nat)
      requires i < |blocks| == |list|
      reads this, blocks
    {
      blocks[i].Is(list[i]) && blocks[i].next == At(i + 1)
    }

    /** The chain of `next` runs through `blocks`, and `list` is what they hold. */
    ghost predicate Valid()
      reads this, blocks
    {
      && kernelBase == At(0) && AllDifferent(blocks) && |list| == |blocks|
      && (forall i :: 0 <= i < |blocks| ==> Linked(i))
    }

    /** `prev` is the inverse of `next`. */
    ghost predicate BackLinked()
      reads this, blocks
    {
      forall i :: 0 <= i < |blocks| ==> Back(i)
    }

    ghost predicate Back(i: nat)
      requires i < |blocks|
      reads this, blocks
    {
      blocks[i].prev == At(i - 1)
    }

    constructor ()
      ensures Valid() && BackLinked() && list == []
    {
      kernelBase, blocks, list := null, [], [];
    }

    method InitializeKernelHeap()
      modifies this
      ensures Valid() && BackLinked() && list == Fresh() && fresh(blocks)
    {
      kernelBase := new Block(KERNEL_HEAP_START, KERNEL_HEAP_SIZE, null, null, true);
      blocks, list := [kernelBase], Fresh();
    }

    method FindFirstFreeBlock(block: Block?, size: nat) returns (found: Block?, ghost k: nat)
      requires Valid() && block == kernelBase
      ensures k == FirstFree(list, size, 0) && found == At(k)
    {
      found, k := block, 0;
      while found != null && !(found.free && found.size > size)
        invariant k <= |blocks| && found == At(k)
        invariant FirstFree(list, size, 0) == FirstFree(list, size, k)
        decreases |blocks| - k
      {
        assert Linked(k);
        found, k := found.next, k + 1;
      }
      assert k < |blocks| ==> Linked(k);
    }

    /** The new block, linked behind `block`. */
    method CutOff(block: Block, size: nat) returns (newBlock: Block)
      modifies block
      ensures fresh(newBlock) && block.next == newBlock && block.size == size
      ensures block.free == old(block.free) && block.prev == old(block.prev)
      ensures newBlock.address == block.address + BLOCK_STRUCT_SIZE + size && newBlock.free
      ensures newBlock.size == (old(block.size) - (size + BLOCK_STRUCT_SIZE)) % TWO32
      ensures newBlock.next == old(block.next) && newBlock.prev == block
    {
      newBlock := new Block(block.address + BLOCK_STRUCT_SIZE + size, (block.size - (size + BLOCK_STRUCT_SIZE)) % TWO32,
                            block.next, block, true);
      block.next := newBlock;
      block.size := size;
    }

    /** The block after `block` keeps its old `prev`: the list stays back-linked if `block` was last. */
    method SplitBlock(block: Block, size: nat, ghost k: nat)
      requires Valid() && k < |blocks| && blocks[k] == block
      modifies this, block
      ensures Valid() && list == old(Split(list, k, size))
      ensures k < |blocks| && blocks[k] == block
      ensures forall b :: b in blocks && b !in old(blocks) ==> fresh(b)
      ensures old(BackLinked()) && k == old(|blocks|) - 1 ==> BackLinked()
    {
      Others(blocks, k);
      hide AllDifferent, Split, With;
      assert Linked(k);
      if block.size < size {
        SplitNothing(list, k, size);
        return;
      }
      ghost var before := list;
      var newBlock := CutOff(block, size);
      WithIsDifferent(blocks, k + 1, newBlock);
      WithAt(blocks, k + 1, newBlock);
      SplitLength(list, k, size);
      blocks, list := With(blocks, k + 1, newBlock), Split(list, k, size);
      forall i | 0 <= i < |blocks| ensures Linked(i) {
        SplitAt(before, k, size, i);
        if i < k { assert old(Linked(i)); } else if i > k + 1 { assert old(Linked(i - 1)); }
      }
      if old(BackLinked()) && k + 2 == |blocks| {
        forall i | 0 <= i < |blocks| ensures Back(i) { if i <= k { assert old(Back(i)); } }
      }
    }

    /** The block after the merged ones keeps its old `prev`. */
    method MergeBlocks(firstBlock: Block, ghost k: nat)
      requires Valid() && k + 1 < |blocks| && blocks[k] == firstBlock
      modifies this, firstBlock
      ensures Valid() && list == old(Merge(list, k))
      ensures old(BackLinked()) && k + 2 == old(|blocks|) ==> BackLinked()
    {
      Others(blocks, k);
      hide AllDifferent, Merge, Without;
      assert Linked(k) && Linked(k + 1);
      WithoutIsDifferent(blocks, k + 1);
      WithoutAt(blocks, k + 1);
      ghost var before := list;
      var next := firstBlock.next;
      firstBlock.size := (firstBlock.size + (next.size + BLOCK_STRUCT_SIZE)) % TWO32;
      firstBlock.next := next.next;
      blocks, list := Without(blocks, k + 1), Merge(list, k);
      MergeLength(before, k);
      forall i | 0 <= i < |blocks| ensures Linked(i) {
        MergeAt(before, k, i);
        if i < k { assert old(Linked(i)); } else if i > k { assert old(Linked(i + 1)); }
      }
      if old(BackLinked()) && k + 1 == |blocks| {
        forall i | 0 <= i < |blocks| ensures Back(i) { assert old(Back(i)); }
      }
    }

    /** Without initialization every call answers the start of the heap. */
    method KMalloc(size: nat) returns (pointer: int)
      requires Valid() && BackLinked() && size < TWO32 && (list != [] ==> Inv(list))
      modifies this, blocks
      ensures Valid() && BackLinked()
      ensures old(list) == [] ==> pointer == KERNEL_HEAP_START && list == []
      ensures old(list) != [] ==> Inv(list) && (pointer, list) == old(Kmalloc(list, size))
    {
      if kernelBase == null {
        return KERNEL_HEAP_START;
      }
      if size == 0 {
        return NULL;
      }
      hide AllDifferent, Inv, Split, FirstFree, Align4, Take, Rest;
      KmallocBumps(list, size);
      var s := Align4(size);
      OnlyTheLast(list, s);
      var freeBlock, k := FindFirstFreeBlock(kernelBase, s);
      if freeBlock == null {
        return NULL;
      }
      assert Linked(k);
      if freeBlock.size > (s + 4 + BLOCK_STRUCT_SIZE) % TWO32 {
        SplitBlock(freeBlock, s, k);
      }
      HandOver(freeBlock, k);
      return freeBlock.address + BLOCK_STRUCT_SIZE;
    }

    method HandOver(block: Block, ghost k: nat)
      requires Valid() && BackLinked() && k < |blocks| && blocks[k] == block
      modifies block, `list
      ensures Valid() && BackLinked() && list == old(list[k := list[k].(free := false)])
    {
      assert forall i :: 0 <= i < |blocks| && i != k ==> blocks[i] != block;
      block.free := false;
      list := list[k := list[k].(free := false)];
      forall i | 0 <= i < |blocks| ensures Linked(i) && Back(i) { assert old(Linked(i)) && old(Back(i)); }
    }
  }

  lemma Others(blocks: seq<Block>, k: nat)
    requires AllDifferent(blocks) && k < |blocks|
    ensures forall i :: 0 <= i < |blocks| && i != k ==> blocks[i] != blocks[k]
  {
  }
}
