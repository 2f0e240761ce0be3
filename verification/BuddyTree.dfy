/**
 The marks of the buddy allocator as a perfect binary tree of height `h`, whose leaves are the
 pages. Everything here is about trees of any height; `Buddy` ties it to the array of the source.
 */
module BuddyTree {
  import opened Wrappers

  datatype Mark = Empty | Partial | Full

  datatype Tree = Leaf(mark: Mark) | Node(mark: Mark, left: Tree, right: Tree)

  function Pow2(n: nat): (r: nat)
    ensures r >= 1
  {
    if n == 0 then 1 else 2 * Pow2(n - 1)
  }

  predicate Perfect(t: Tree, h: nat) {
    if h == 0 then t.Leaf? else t.Node? && Perfect(t.left, h - 1) && Perfect(t.right, h - 1)
  }

  function AllEmpty(h: nat): (t: Tree)
    ensures Perfect(t, h) && t.mark == Empty
  {
    if h == 0 then Leaf(Empty) else Node(Empty, AllEmpty(h - 1), AllEmpty(h - 1))
  }

  // ----- blocks: the `j`-th node from the left at depth `d` -----

  datatype Block = Block(d: nat, j: nat)

  predicate IsBlock(h: nat, b: Block) {
    b.d <= h && b.j < Pow2(b.d)
  }

  /** The number of pages of a block. */
  function Pages(h: nat, b: Block): nat
    requires b.d <= h
  {
    Pow2(h - b.d)
  }

  /** The first page of a block. */
  function Start(h: nat, d: nat, j: nat): (r: nat)
    requires d <= h && j < Pow2(d)
    ensures r + Pow2(h - d) <= Pow2(h)
  {
    if d == 0 then 0
    else if j < Pow2(d - 1) then Start(h - 1, d - 1, j)
    else Pow2(h - 1) + Start(h - 1, d - 1, j - Pow2(d - 1))
  }

  lemma {:induction false} StartIsMultiple(h: nat, d: nat, j: nat)
    requires d <= h && j < Pow2(d)
    ensures Start(h, d, j) == j * Pow2(h - d)
  {
    if d > 0 {
      var half := Pow2(d - 1);
      if j < half {
        StartIsMultiple(h - 1, d - 1, j);
      } else {
        StartIsMultiple(h - 1, d - 1, j - half);
        Pow2Splits(h - 1, d - 1);
        Distribute(half, j - half, Pow2(h - d));
      }
    }
  }

  lemma Distribute(a: int, b: int, c: int)
    ensures a * c + b * c == (a + b) * c
  {
  }

  lemma {:induction false} Pow2Splits(h: nat, d: nat)
    requires d <= h
    ensures Pow2(h) == Pow2(d) * Pow2(h - d)
  {
    if d > 0 {
      Pow2Splits(h - 1, d - 1);
      Distribute(Pow2(d - 1), Pow2(d - 1), Pow2(h - d));
    }
  }

  lemma {:induction false} Pow2Monotonic(a: nat, b: nat)
    requires a <= b
    ensures Pow2(a) <= Pow2(b)
  {
    if a < b { Pow2Monotonic(a, b - 1); }
  }

  predicate Apart(h: nat, a: Block, b: Block)
    requires IsBlock(h, a) && IsBlock(h, b)
  {
    || Start(h, a.d, a.j) + Pages(h, a) <= Start(h, b.d, b.j)
    || Start(h, b.d, b.j) + Pages(h, b) <= Start(h, a.d, a.j)
  }

  // ----- which block a request gets -----

  /** The node is EMPTY and none of its proper ancestors is FULL. */
  predicate Free(t: Tree, h: nat, d: nat, j: nat)
    requires Perfect(t, h) && d <= h && j < Pow2(d)
  {
    if d == 0 then t.mark == Empty
    else t.mark != Full && (if j < Pow2(d - 1) then Free(t.left, h - 1, d - 1, j)
                            else Free(t.right, h - 1, d - 1, j - Pow2(d - 1)))
  }

  /** The search of `getNextPageRecursive`. */
  function First(t: Tree, h: nat, d: nat): (r: Option<nat>)
    requires Perfect(t, h) && d <= h
    ensures r.Some? ==> r.value < Pow2(d)
  {
    if t.mark == Full then None
    else if d == 0 then (if t.mark == Partial then None else Some(0))
    else
      var l := First(t.left, h - 1, d - 1);
      if l.Some? then l
      else
        var r := First(t.right, h - 1, d - 1);
        if r.Some? then Some(Pow2(d - 1) + r.value) else None
  }

  /** The search finds the leftmost free node of its level, and NULL exactly when there is none. */
  lemma {:induction false} FirstIsLeftmost(t: Tree, h: nat, d: nat)
    requires Perfect(t, h) && d <= h
    ensures var r := First(t, h, d);
            && (r.Some? ==> Free(t, h, d, r.value))
            && (forall j: nat :: j < Pow2(d) && (r.Some? ==> j < r.value) ==> !Free(t, h, d, j))
  {
    if d > 0 {
      FirstIsLeftmost(t.left, h - 1, d - 1);
      FirstIsLeftmost(t.right, h - 1, d - 1);
    }
  }

  /** The marks after the node is handed out: only those on the path to it change. */
  function Marked(t: Tree, h: nat, d: nat, j: nat): (n: Tree)
    requires Perfect(t, h) && d <= h && j < Pow2(d)
    ensures Perfect(n, h)
  {
    if d == 0 then t.(mark := Full)
    else if j < Pow2(d - 1) then Node(Partial, Marked(t.left, h - 1, d - 1, j), t.right)
    else
      var right := Marked(t.right, h - 1, d - 1, j - Pow2(d - 1));
      Node(if right.mark == Full then Full else t.mark, t.left, right)
  }

  /** The least k such that 2^k pages are enough. */
  function Order(pages: nat): (k: nat)
    requires pages >= 1
    ensures Pow2(k) >= pages && (k > 0 ==> Pow2(k - 1) < pages)
  {
    if pages == 1 then 0 else 1 + Order((pages + 1) / 2)
  }

  lemma OrderFits(h: nat, pages: nat)
    requires 1 <= pages <= Pow2(h)
    ensures Order(pages) <= h
  {
    if Order(pages) > h { Pow2Monotonic(h, Order(pages) - 1); }
  }

  lemma {:induction false} OrderOfPow2(k: nat)
    ensures Order(Pow2(k)) == k
  {
    if k > 0 {
      OrderOfPow2(k - 1);
      assert (Pow2(k) + 1) / 2 == Pow2(k - 1);
    }
  }

  /** What `allocPage` hands out. */
  function Alloc(t: Tree, h: nat, pages: nat): (r: Option<Block>)
    requires Perfect(t, h)
    ensures r.Some? ==> IsBlock(h, r.value) && Pages(h, r.value) >= pages >= 1
  {
    if pages == 0 || pages > Pow2(h) then None
    else
      OrderFits(h, pages);
      var d := h - Order(pages);
      var r := First(t, h, d);
      if r.Some? then Some(Block(d, r.value)) else None
  }

  function AfterAlloc(t: Tree, h: nat, pages: nat): (n: Tree)
    requires Perfect(t, h)
    ensures Perfect(n, h)
  {
    var r := Alloc(t, h, pages);
    if r.Some? then Marked(t, h, r.value.d, r.value.j) else t
  }

  // ----- which marks can be trusted -----

  /** An EMPTY node has only EMPTY nodes below it. */
  predicate Trusted(t: Tree, h: nat)
    requires Perfect(t, h)
  {
    h > 0 ==>
      && Trusted(t.left, h - 1) && Trusted(t.right, h - 1)
      && (t.mark == Empty ==> t.left.mark == Empty && t.right.mark == Empty)
  }

  lemma {:induction false} EmptyIsEmpty(t: Tree, h: nat)
    requires Perfect(t, h) && Trusted(t, h) && t.mark == Empty
    ensures t == AllEmpty(h)
  {
    if h > 0 {
      EmptyIsEmpty(t.left, h - 1);
      EmptyIsEmpty(t.right, h - 1);
    }
  }

  lemma {:induction false} AllEmptyIsTrusted(h: nat)
    ensures Trusted(AllEmpty(h), h)
  {
    if h > 0 { AllEmptyIsTrusted(h - 1); }
  }

  /** The block is marked FULL and nothing below it is marked. */
  predicate Solid(t: Tree, h: nat, d: nat, j: nat)
    requires Perfect(t, h) && d <= h && j < Pow2(d)
  {
    if d == 0 then t == AllEmpty(h).(mark := Full)
    else if j < Pow2(d - 1) then Solid(t.left, h - 1, d - 1, j)
    else Solid(t.right, h - 1, d - 1, j - Pow2(d - 1))
  }

  /** In an untouched subtree nothing is solid; above a solid block nothing is EMPTY. */
  lemma {:induction false} NotSolidBelowEmpty(t: Tree, h: nat, d: nat, j: nat)
    requires Perfect(t, h) && Trusted(t, h) && d <= h && j < Pow2(d) && Solid(t, h, d, j)
    ensures t.mark != Empty
  {
    if d > 0 {
      if j < Pow2(d - 1) { NotSolidBelowEmpty(t.left, h - 1, d - 1, j); }
      else { NotSolidBelowEmpty(t.right, h - 1, d - 1, j - Pow2(d - 1)); }
    }
  }

  lemma {:induction false} NothingSolid(h: nat, d: nat, j: nat)
    requires d <= h && j < Pow2(d)
    ensures !Solid(AllEmpty(h), h, d, j)
  {
    if d > 0 {
      if j < Pow2(d - 1) { NothingSolid(h - 1, d - 1, j); } else { NothingSolid(h - 1, d - 1, j - Pow2(d - 1)); }
    }
  }

  /** Two solid blocks of one tree never overlap. */
  lemma {:induction false} SolidApart(t: Tree, h: nat, a: Block, b: Block)
    requires Perfect(t, h) && IsBlock(h, a) && IsBlock(h, b) && a != b
    requires Solid(t, h, a.d, a.j) && Solid(t, h, b.d, b.j)
    ensures Apart(h, a, b)
    decreases h
  {
    hide AllEmpty;
    if a.d > 0 && b.d > 0 {
      var half := Pow2(a.d - 1);
      var half' := Pow2(b.d - 1);
      if a.j < half {
        if b.j < half' { SolidApart(t.left, h - 1, Block(a.d - 1, a.j), Block(b.d - 1, b.j)); }
      } else if b.j >= half' {
        SolidApart(t.right, h - 1, Block(a.d - 1, a.j - half), Block(b.d - 1, b.j - half'));
      }
    } else if a.d == 0 {
      BelowSolid(t, h, b);
    } else {
      BelowSolid(t, h, a);
    }
  }

  lemma BelowSolid(t: Tree, h: nat, b: Block)
    requires IsBlock(h, b) && t == AllEmpty(h).(mark := Full) && Solid(t, h, b.d, b.j)
    ensures b.d == 0
  {
    if b.d > 0 {
      if b.j < Pow2(b.d - 1) { NothingSolid(h - 1, b.d - 1, b.j); }
      else { NothingSolid(h - 1, b.d - 1, b.j - Pow2(b.d - 1)); }
    }
  }

  // ----- allocation -----

  /** Handing out the leftmost free node keeps EMPTY trustworthy and makes the node solid. Going
      right only after the left half had nothing matters: the mark above is not updated then. */
  lemma {:induction false} MarkedIsTrusted(t: Tree, h: nat, d: nat, j: nat)
    requires Perfect(t, h) && Trusted(t, h) && d <= h && First(t, h, d) == Some(j)
    ensures Trusted(Marked(t, h, d, j), h) && Solid(Marked(t, h, d, j), h, d, j)
    ensures Marked(t, h, d, j).mark != Empty
  {
    if d == 0 {
      EmptyIsEmpty(t, h);
    } else if First(t.left, h - 1, d - 1).Some? {
      MarkedIsTrusted(t.left, h - 1, d - 1, j);
    } else {
      MarkedIsTrusted(t.right, h - 1, d - 1, j - Pow2(d - 1));
      assert t.mark != Empty by {
        if t.mark == Empty {
          EmptyIsEmpty(t.left, h - 1);
          FirstOfEmpty(h - 1, d - 1);
        }
      }
    }
  }

  lemma {:induction false} FirstOfEmpty(h: nat, d: nat)
    requires d <= h
    ensures First(AllEmpty(h), h, d) == Some(0)
  {
    if d > 0 { FirstOfEmpty(h - 1, d - 1); }
  }

  /** A solid block stays solid while others are handed out. */
  lemma {:induction false} MarkedKeepsSolid(t: Tree, h: nat, d: nat, j: nat, b: Block)
    requires Perfect(t, h) && Trusted(t, h) && d <= h && j < Pow2(d) && Free(t, h, d, j)
    requires IsBlock(h, b) && Solid(t, h, b.d, b.j)
    ensures Solid(Marked(t, h, d, j), h, b.d, b.j) && b != Block(d, j)
    decreases h
  {
    NotSolidBelowEmpty(t, h, b.d, b.j);
    if d > 0 && b.d > 0 {
      var half := Pow2(d - 1);
      var half' := Pow2(b.d - 1);
      if j < half && b.j < half' {
        MarkedKeepsSolid(t.left, h - 1, d - 1, j, Block(b.d - 1, b.j));
      } else if j >= half && b.j >= half' {
        MarkedKeepsSolid(t.right, h - 1, d - 1, j - half, Block(b.d - 1, b.j - half'));
      }
    }
  }

  /** A node becomes FULL exactly if the block handed out below it is the last of its level, whatever is to the left of it. */
  lemma {:induction false} FullAtTheLast(t: Tree, h: nat, d: nat, j: nat)
    requires Perfect(t, h) && d <= h && First(t, h, d) == Some(j)
    ensures Marked(t, h, d, j).mark == Full <==> j == Pow2(d) - 1
  {
    if d > 0 && First(t.left, h - 1, d - 1).None? {
      FullAtTheLast(t.right, h - 1, d - 1, j - Pow2(d - 1));
    }
  }

  /** Node `k` of depth `e` overlaps block `j` of depth `d`, or lies below a node of which that block is the last. */
  predicate Takes(d: nat, j: nat, e: nat, k: nat)
    requires j < Pow2(d) && k < Pow2(e)
  {
    || d == 0 || e == 0 || j == Pow2(d) - 1
    || (j < Pow2(d - 1) && k < Pow2(e - 1) && Takes(d - 1, j, e - 1, k))
    || (j >= Pow2(d - 1) && k >= Pow2(e - 1) && Takes(d - 1, j - Pow2(d - 1), e - 1, k - Pow2(e - 1)))
  }

  /** Exactly these nodes, of all sizes, cannot be had any more after an allocation. */
  lemma {:induction false} TakenExactly(t: Tree, h: nat, d: nat, j: nat, e: nat, k: nat)
    requires Perfect(t, h) && Trusted(t, h) && d <= h && First(t, h, d) == Some(j) && e <= h && k < Pow2(e)
    ensures Free(Marked(t, h, d, j), h, e, k) <==> Free(t, h, e, k) && !Takes(d, j, e, k)
    decreases h
  {
    MarkedIsTrusted(t, h, d, j);
    FullAtTheLast(t, h, d, j);
    if d > 0 && e > 0 {
      if j < Pow2(d - 1) && k < Pow2(e - 1) {
        TakenExactly(t.left, h - 1, d - 1, j, e - 1, k);
      } else if j >= Pow2(d - 1) && k >= Pow2(e - 1) {
        TakenExactly(t.right, h - 1, d - 1, j - Pow2(d - 1), e - 1, k - Pow2(e - 1));
      }
    }
  }

  // ----- deallocation -----

  /** The mark of a parent after one step of `freeUpRecursive`. */
  function Lower(parent: Mark, sibling: Mark): Mark {
    if parent == Full && sibling == Empty then Empty
    else if parent == Full && sibling == Full then Partial
    else if parent == Partial && sibling == Empty then Empty
    else parent
  }

  /** The marks after `deallocPage` of a page: its leaf is cleared, then the path above it lowered. */
  function Climb(t: Tree, h: nat, page: nat): (n: Tree)
    requires Perfect(t, h) && page < Pow2(h)
    ensures Perfect(n, h)
  {
    if h == 0 then Leaf(Empty)
    else if page < Pow2(h - 1) then
      Node(Lower(t.mark, t.right.mark), Climb(t.left, h - 1, page), t.right)
    else
      Node(Lower(t.mark, t.left.mark), t.left, Climb(t.right, h - 1, page - Pow2(h - 1)))
  }

  /** The mark of the sibling of the node that leads from the root to the page. */
  function SiblingMark(t: Tree, h: nat, page: nat): Mark
    requires Perfect(t, h) && page < Pow2(h) && h > 0
  {
    if page < Pow2(h - 1) then t.right.mark else t.left.mark
  }

  /** On the way up from the page, no EMPTY sibling comes after one that is not. */
  predicate InOrder(t: Tree, h: nat, page: nat)
    requires Perfect(t, h) && page < Pow2(h)
  {
    h > 0 ==>
      var child := if page < Pow2(h - 1) then t.left else t.right;
      var rest := if page < Pow2(h - 1) then page else page - Pow2(h - 1);
      && InOrder(child, h - 1, rest)
      && (h > 1 && SiblingMark(t, h, page) == Empty ==> SiblingMark(child, h - 1, rest) == Empty)
  }

  lemma ClimbMark(t: Tree, h: nat, page: nat)
    requires Perfect(t, h) && Trusted(t, h) && page < Pow2(h)
    ensures Climb(t, h, page).mark == Empty <==> h == 0 || SiblingMark(t, h, page) == Empty
  {
  }

  /** Deallocating a page keeps EMPTY trustworthy exactly when the siblings on the way up are in
      that order: `freeUpRecursive` does not look at the node it climbs from. */
  lemma {:induction false} ClimbIsTrusted(t: Tree, h: nat, page: nat)
    requires Perfect(t, h) && Trusted(t, h) && page < Pow2(h)
    ensures Trusted(Climb(t, h, page), h) <==> InOrder(t, h, page)
  {
    if h > 0 {
      if page < Pow2(h - 1) {
        ClimbMark(t.left, h - 1, page);
        ClimbIsTrusted(t.left, h - 1, page);
      } else {
        ClimbMark(t.right, h - 1, page - Pow2(h - 1));
        ClimbIsTrusted(t.right, h - 1, page - Pow2(h - 1));
      }
    }
  }

  /** The subtree of a block. */
  function At(t: Tree, h: nat, d: nat, j: nat): Tree
    requires Perfect(t, h) && d <= h && j < Pow2(d)
  {
    if d == 0 then t
    else if j < Pow2(d - 1) then At(t.left, h - 1, d - 1, j)
    else At(t.right, h - 1, d - 1, j - Pow2(d - 1))
  }

  lemma {:induction false} ClimbEmpty(h: nat)
    ensures Climb(AllEmpty(h).(mark := Full), h, 0) == AllEmpty(h)
    ensures Climb(AllEmpty(h), h, 0) == AllEmpty(h)
  {
    if h > 0 { ClimbEmpty(h - 1); }
  }

  /** Deallocating a block empties it, and leaves every other block solid. */
  lemma {:induction false} ClimbFrees(t: Tree, h: nat, b: Block)
    requires Perfect(t, h) && IsBlock(h, b) && Solid(t, h, b.d, b.j)
    ensures Start(h, b.d, b.j) < Pow2(h)
    ensures At(Climb(t, h, Start(h, b.d, b.j)), h, b.d, b.j) == AllEmpty(h - b.d)
    decreases h
  {
    if b.d == 0 {
      ClimbEmpty(h);
    } else if b.j < Pow2(b.d - 1) {
      ClimbFrees(t.left, h - 1, Block(b.d - 1, b.j));
    } else {
      ClimbFrees(t.right, h - 1, Block(b.d - 1, b.j - Pow2(b.d - 1)));
    }
  }

  lemma {:induction false} ClimbKeepsSolid(t: Tree, h: nat, page: nat, b: Block)
    requires Perfect(t, h) && page < Pow2(h) && IsBlock(h, b) && Solid(t, h, b.d, b.j)
    requires page < Start(h, b.d, b.j) || Start(h, b.d, b.j) + Pages(h, b) <= page
    ensures Solid(Climb(t, h, page), h, b.d, b.j)
    decreases h
  {
    hide AllEmpty;
    if b.d > 0 {
      if b.j < Pow2(b.d - 1) {
        if page < Pow2(h - 1) { ClimbKeepsSolid(t.left, h - 1, page, Block(b.d - 1, b.j)); }
      } else if page >= Pow2(h - 1) {
        ClimbKeepsSolid(t.right, h - 1, page - Pow2(h - 1), Block(b.d - 1, b.j - Pow2(b.d - 1)));
      }
    }
  }

  /** Above the node, no FULL node has a PARTIAL child beside the way down. */
  predicate Unhidden(t: Tree, h: nat, d: nat, j: nat)
    requires Perfect(t, h) && d <= h && j < Pow2(d)
  {
    d > 0 ==>
      if j < Pow2(d - 1) then !(t.mark == Full && t.right.mark == Partial) && Unhidden(t.left, h - 1, d - 1, j)
      else !(t.mark == Full && t.left.mark == Partial) && Unhidden(t.right, h - 1, d - 1, j - Pow2(d - 1))
  }

  /** A deallocated block is free again exactly if no such node is above it: the climb lowers every FULL
      parent but those whose other child is PARTIAL. */
  lemma {:induction false} FreedIsFree(t: Tree, h: nat, b: Block)
    requires Perfect(t, h) && IsBlock(h, b) && Solid(t, h, b.d, b.j)
    ensures Start(h, b.d, b.j) < Pow2(h)
    ensures Free(Climb(t, h, Start(h, b.d, b.j)), h, b.d, b.j) <==> Unhidden(t, h, b.d, b.j)
    decreases h
  {
    hide AllEmpty;
    if b.d == 0 {
      ClimbEmpty(h);
      RootOfEmpty(h);
    } else if b.j < Pow2(b.d - 1) {
      FreedIsFree(t.left, h - 1, Block(b.d - 1, b.j));
    } else {
      FreedIsFree(t.right, h - 1, Block(b.d - 1, b.j - Pow2(b.d - 1)));
    }
  }

  lemma RootOfEmpty(h: nat)
    ensures AllEmpty(h).mark == Empty
  {
  }

  // ----- whole runs -----

  datatype Heap = Heap(tree: Tree, live: set<Block>)

  datatype Event = Alloced(pages: nat) | Freed(block: Block)

  /** EMPTY can be trusted, and every block in use is solid. */
  ghost predicate Inv(s: Heap, h: nat) {
    && Perfect(s.tree, h) && Trusted(s.tree, h)
    && (forall b :: b in s.live ==> IsBlock(h, b) && Solid(s.tree, h, b.d, b.j))
  }

  /** A block is freed once, by its first page, and only if the climb keeps EMPTY trustworthy. */
  ghost predicate Allowed(s: Heap, h: nat, e: Event)
    requires Inv(s, h)
  {
    e.Freed? ==>
      && e.block in s.live
      && InOrder(s.tree, h, Start(h, e.block.d, e.block.j))
  }

  ghost function Do(s: Heap, h: nat, e: Event): (n: Heap)
    requires Inv(s, h) && Allowed(s, h, e)
  {
    match e
    case Alloced(pages) =>
      var r := Alloc(s.tree, h, pages);
      Heap(AfterAlloc(s.tree, h, pages), if r.Some? then s.live + {r.value} else s.live)
    case Freed(b) =>
      Heap(Climb(s.tree, h, Start(h, b.d, b.j)), s.live - {b})
  }

  lemma AllocKeepsInv(s: Heap, h: nat, pages: nat)
    requires Inv(s, h)
    ensures Inv(Do(s, h, Alloced(pages)), h)
    ensures Alloc(s.tree, h, pages).Some? ==> Alloc(s.tree, h, pages).value !in s.live
  {
    hide Pow2, Perfect, Trusted, Solid, First, Marked, Free, Order;
    var r := Alloc(s.tree, h, pages);
    if r.Some? {
      var b := r.value;
      FirstIsLeftmost(s.tree, h, b.d);
      MarkedIsTrusted(s.tree, h, b.d, b.j);
      forall a | a in s.live
        ensures a != b && Solid(Marked(s.tree, h, b.d, b.j), h, a.d, a.j)
      {
        MarkedKeepsSolid(s.tree, h, b.d, b.j, a);
      }
    }
  }

  lemma FreeKeepsInv(s: Heap, h: nat, b: Block)
    requires Inv(s, h) && Allowed(s, h, Freed(b))
    ensures Inv(Do(s, h, Freed(b)), h)
  {
    hide Pow2, Perfect, Trusted, Solid, Start, Climb, InOrder;
    var page := Start(h, b.d, b.j);
    ClimbIsTrusted(s.tree, h, page);
    forall a | a in s.live && a != b
      ensures Solid(Climb(s.tree, h, page), h, a.d, a.j)
    {
      SolidApart(s.tree, h, a, b);
      ClimbKeepsSolid(s.tree, h, page, a);
    }
  }

  lemma EventKeepsInv(s: Heap, h: nat, e: Event)
    requires Inv(s, h) && Allowed(s, h, e)
    ensures Inv(Do(s, h, e), h)
  {
    hide Inv, Do;
    match e
    case Alloced(pages) => AllocKeepsInv(s, h, pages);
    case Freed(b) => FreeKeepsInv(s, h, b);
  }

  ghost predicate Legal(s: Heap, h: nat, events: seq<Event>)
    requires Inv(s, h)
    decreases events
  {
    events == [] ||
    (Allowed(s, h, events[0]) && (EventKeepsInv(s, h, events[0]); Legal(Do(s, h, events[0]), h, events[1..])))
  }

  /** The state after a run. */
  ghost function Run(s: Heap, h: nat, events: seq<Event>): (n: Heap)
    requires Inv(s, h) && Legal(s, h, events)
    ensures Inv(n, h)
    decreases events
  {
    if events == [] then s
    else EventKeepsInv(s, h, events[0]); Run(Do(s, h, events[0]), h, events[1..])
  }

  /** Blocks in use lie in the heap and no two share a page. */
  lemma LiveBlocks(s: Heap, h: nat, a: Block, b: Block)
    requires Inv(s, h) && a in s.live && b in s.live
    ensures IsBlock(h, a) && IsBlock(h, b)
    ensures Start(h, a.d, a.j) + Pages(h, a) <= Pow2(h)
    ensures a != b ==> Apart(h, a, b)
  {
    hide Pow2, Perfect, Trusted, Solid, Start;
    if a != b { SolidApart(s.tree, h, a, b); }
  }

  /** From a fresh heap, whatever is allocated and freed: at any time no two blocks in use share a page. */
  lemma Safety(h: nat, events: seq<Event>, a: Block, b: Block)
    ensures Inv(Heap(AllEmpty(h), {}), h)
    ensures var s := Heap(AllEmpty(h), {});
            Legal(s, h, events) && a in Run(s, h, events).live && b in Run(s, h, events).live ==>
              && IsBlock(h, a) && IsBlock(h, b)
              && Start(h, a.d, a.j) + Pages(h, a) <= Pow2(h)
              && (a != b ==> Apart(h, a, b))
  {
    hide Pow2, Perfect, Trusted, Solid, Start, Apart, AllEmpty, IsBlock, Pages;
    AllEmptyIsTrusted(h);
    var s := Heap(AllEmpty(h), {});
    if Legal(s, h, events) && a in Run(s, h, events).live && b in Run(s, h, events).live {
      LiveBlocks(Run(s, h, events), h, a, b);
    }
  }

  /** Runs that only allocate need no condition. */
  lemma {:induction false} AllocationIsLegal(s: Heap, h: nat, events: seq<Event>)
    requires Inv(s, h) && forall e :: e in events ==> e.Alloced?
    ensures Legal(s, h, events)
    decreases events
  {
    if events != [] {
      assert events[0] in events;
      EventKeepsInv(s, h, events[0]);
      AllocationIsLegal(Do(s, h, events[0]), h, events[1..]);
    }
  }

  // ----- requests of one size -----

  /** A subtree whose first `n` nodes at depth `d` are handed out. */
  function Filled(h: nat, d: nat, n: nat): (t: Tree)
    requires d <= h && n <= Pow2(d)
    ensures Perfect(t, h)
    ensures t.mark == if n == 0 then Empty else if n < Pow2(d) then Partial else Full
  {
    if d == 0 then (if n == 0 then AllEmpty(h) else AllEmpty(h).(mark := Full))
    else
      var half := Pow2(d - 1);
      Node(if n == 0 then Empty else if n < Pow2(d) then Partial else Full,
           Filled(h - 1, d - 1, if n < half then n else half),
           Filled(h - 1, d - 1, if n < half then 0 else n - half))
  }

  lemma {:induction false} FilledFromEmpty(h: nat, d: nat)
    requires d <= h
    ensures Filled(h, d, 0) == AllEmpty(h)
  {
    if d > 0 { FilledFromEmpty(h - 1, d - 1); }
  }

  /** The next node is the one after the last, until there is none. */
  lemma {:induction false} FillFirst(h: nat, d: nat, n: nat)
    requires d <= h && n <= Pow2(d)
    ensures First(Filled(h, d, n), h, d) == if n < Pow2(d) then Some(n) else None
  {
    hide AllEmpty, Perfect;
    if d > 0 {
      var half := Pow2(d - 1);
      FillFirst(h - 1, d - 1, if n < half then n else half);
      if n >= half { FillFirst(h - 1, d - 1, n - half); }
    }
  }

  lemma {:induction false} FillNext(h: nat, d: nat, n: nat)
    requires d <= h && n < Pow2(d)
    ensures Marked(Filled(h, d, n), h, d, n) == Filled(h, d, n + 1)
  {
    hide AllEmpty, Perfect;
    if d > 0 {
      var half := Pow2(d - 1);
      FillNext(h - 1, d - 1, if n < half then n else n - half);
    }
  }

  /** The tree after `n` requests of the same size. */
  function Requested(h: nat, pages: nat, n: nat): (t: Tree)
    ensures Perfect(t, h)
  {
    if n == 0 then AllEmpty(h) else AfterAlloc(Requested(h, pages, n - 1), h, pages)
  }

  /** One request of 2^k pages. */
  lemma FillOne(h: nat, k: nat, n: nat)
    requires k <= h && n <= Pow2(h - k)
    ensures var d := h - k;
            && Alloc(Filled(h, d, n), h, Pow2(k)) == (if n < Pow2(d) then Some(Block(d, n)) else None)
            && AfterAlloc(Filled(h, d, n), h, Pow2(k)) == Filled(h, d, if n < Pow2(d) then n + 1 else n)
  {
    hide First, Marked, Filled, Order, Pow2, Perfect;
    Pow2Monotonic(k, h);
    OrderOfPow2(k);
    FillFirst(h, h - k, n);
    if n < Pow2(h - k) { FillNext(h, h - k, n); }
  }

  lemma {:induction false} FilledBy(h: nat, k: nat, n: nat)
    requires k <= h
    ensures Requested(h, Pow2(k), n) == Filled(h, h - k, if n < Pow2(h - k) then n else Pow2(h - k))
  {
    hide Filled, AfterAlloc, Pow2, AllEmpty, Perfect;
    if n == 0 {
      FilledFromEmpty(h, h - k);
    } else {
      FilledBy(h, k, n - 1);
      FillOne(h, k, if n - 1 < Pow2(h - k) then n - 1 else Pow2(h - k));
    }
  }

  /** Of the requests of 2^k pages, exactly the first N / 2^k succeed, at consecutive places. */
  lemma FillsExactly(h: nat, k: nat, n: nat)
    requires k <= h
    ensures var d := h - k;
            && Requested(h, Pow2(k), n) == Filled(h, d, if n < Pow2(d) then n else Pow2(d))
            && Alloc(Requested(h, Pow2(k), n), h, Pow2(k)) == (if n < Pow2(d) then Some(Block(d, n)) else None)
            && (n < Pow2(d) ==> Start(h, d, n) == n * Pow2(k))
  {
    hide Filled, Alloc, AfterAlloc, Pow2, Start, Requested, Perfect;
    var d := h - k;
    FilledBy(h, k, n);
    FillOne(h, k, if n < Pow2(d) then n else Pow2(d));
    if n < Pow2(d) { StartIsMultiple(h, d, n); }
  }

  // ----- one block of an empty heap -----

  lemma {:induction false} ClimbMarked(h: nat, d: nat, j: nat)
    requires d <= h && j < Pow2(d)
    ensures Climb(Marked(AllEmpty(h), h, d, j), h, Start(h, d, j)) == AllEmpty(h)
  {
    if d == 0 {
      ClimbEmpty(h);
    } else if j < Pow2(d - 1) {
      ClimbMarked(h - 1, d - 1, j);
    } else {
      ClimbMarked(h - 1, d - 1, j - Pow2(d - 1));
    }
  }

  lemma FirstBlock(h: nat, pages: nat)
    requires 1 <= pages <= Pow2(h)
    ensures Order(pages) <= h
    ensures var d := h - Order(pages);
            && Alloc(AllEmpty(h), h, pages) == Some(Block(d, 0))
            && AfterAlloc(AllEmpty(h), h, pages) == Marked(AllEmpty(h), h, d, 0)
  {
    hide First, Marked, Order, AllEmpty, Pow2, Perfect;
    OrderFits(h, pages);
    FirstOfEmpty(h, h - Order(pages));
  }

  /** Allocating a block of any size on an empty heap succeeds, and deallocating it restores the empty heap. */
  lemma RoundTrip(h: nat, pages: nat)
    requires 1 <= pages <= Pow2(h)
    ensures var r := Alloc(AllEmpty(h), h, pages);
            && r.Some?
            && Climb(AfterAlloc(AllEmpty(h), h, pages), h, Start(h, r.value.d, r.value.j)) == AllEmpty(h)
  {
    hide Alloc, AfterAlloc, Marked, Start, Climb, Order, AllEmpty, Pow2, Perfect;
    FirstBlock(h, pages);
    ClimbMarked(h, h - Order(pages), 0);
  }

  /** With four pages: allocate one, allocate one, deallocate the second, allocate all four. The
      climb has marked the root EMPTY although the first page is in use, and the page is handed out
      again. The siblings on the way up were FULL, EMPTY. */
  lemma DeallocationCanOverlap()
    ensures var h := 2;
            var t := AfterAlloc(AfterAlloc(AllEmpty(h), h, 1), h, 1);
            && Alloc(AllEmpty(h), h, 1) == Some(Block(2, 0))
            && Alloc(AfterAlloc(AllEmpty(h), h, 1), h, 1) == Some(Block(2, 1))
            && !InOrder(t, h, Start(h, 2, 1))
            && Alloc(Climb(t, h, Start(h, 2, 1)), h, 4) == Some(Block(0, 0))
            && !Apart(h, Block(0, 0), Block(2, 0))
  {
    FillsExactly(2, 0, 0);
    FillsExactly(2, 0, 1);
    FillsExactly(2, 0, 2);
    OrderOfPow2(2);
    hide First, Marked, Order, Alloc, AfterAlloc, Requested;
    assert Pow2(1) == 2 && Pow2(2) == 4;
    assert Filled(2, 2, 2) == Node(Partial, Node(Full, Leaf(Full), Leaf(Full)), AllEmpty(1)) by {
      assert Filled(1, 1, 2) == Node(Full, Leaf(Full), Leaf(Full));
      FilledFromEmpty(1, 1);
    }
  }

  const ONE_TAKEN := Node(Partial, Node(Partial, Leaf(Full), Leaf(Empty)), Node(Empty, Leaf(Empty), Leaf(Empty)))
  const THREE_TAKEN := Node(Full, Node(Partial, Leaf(Full), Leaf(Empty)), Node(Full, Leaf(Empty), Leaf(Empty)))
  const TWO_FREED := Node(Full, Node(Partial, Leaf(Full), Leaf(Empty)), Node(Empty, Leaf(Empty), Leaf(Empty)))

  lemma TakeOne()
    ensures Perfect(ONE_TAKEN, 2) && AfterAlloc(AllEmpty(2), 2, 1) == ONE_TAKEN
  {
    hide First, Alloc, AfterAlloc;
    assert Pow2(2) == 4 && Pow2(1) == 2;
    FirstBlock(2, 1);
    assert AllEmpty(1) == Node(Empty, Leaf(Empty), Leaf(Empty));
    assert Marked(AllEmpty(1), 1, 1, 0) == Node(Partial, Leaf(Full), Leaf(Empty));
  }

  lemma SearchTwo()
    ensures Perfect(ONE_TAKEN, 2) && First(ONE_TAKEN, 2, 1) == Some(1)
  {
    assert Pow2(0) == 1 && Pow2(1) == 2;
    assert First(ONE_TAKEN.left, 1, 0) == None && First(ONE_TAKEN.right, 1, 0) == Some(0);
  }

  lemma MarkTwo()
    ensures Perfect(ONE_TAKEN, 2) && Pow2(1) == 2 && Marked(ONE_TAKEN, 2, 1, 1) == THREE_TAKEN
  {
    assert Pow2(0) == 1 && Pow2(1) == 2;
    assert Marked(ONE_TAKEN.right, 1, 0, 0) == THREE_TAKEN.right;
  }

  lemma TakeTwo()
    ensures Perfect(ONE_TAKEN, 2)
    ensures Alloc(ONE_TAKEN, 2, 2) == Some(Block(1, 1)) && AfterAlloc(ONE_TAKEN, 2, 2) == THREE_TAKEN
  {
    hide First, Marked, Order, Perfect;
    assert Pow2(2) == 4 && Pow2(1) == 2;
    OrderOfPow2(1);
    SearchTwo();
    MarkTwo();
  }

  lemma FreeTwo()
    ensures Perfect(THREE_TAKEN, 2) && Pow2(1) == 2 && Solid(THREE_TAKEN, 2, 1, 1) && !Unhidden(THREE_TAKEN, 2, 1, 1)
    ensures Pow2(2) == 4 && Start(2, 1, 1) == 2 && Climb(THREE_TAKEN, 2, 2) == TWO_FREED
  {
    assert AllEmpty(1) == Node(Empty, Leaf(Empty), Leaf(Empty));
    assert Climb(THREE_TAKEN.right, 1, 0) == TWO_FREED.right;
  }

  /** With four pages: allocate one, allocate two. The root is FULL although the second page is not in use.
      Deallocate the two: the root stays FULL, as its left half is PARTIAL, and no request of any size is
      served although three pages are free. */
  lemma FreedCanBeHidden()
    ensures var h := 2;
            var t := AfterAlloc(AfterAlloc(AllEmpty(h), h, 1), h, 2);
            && Alloc(AfterAlloc(AllEmpty(h), h, 1), h, 2) == Some(Block(1, 1))
            && Pow2(1) == 2 && Solid(t, h, 1, 1) && !Unhidden(t, h, 1, 1)
            && Start(h, 1, 1) < Pow2(h)
            && forall pages :: Alloc(Climb(t, h, Start(h, 1, 1)), h, pages) == None
  {
    hide Marked, Order, Requested, AllEmpty, Climb, Solid, Unhidden, AfterAlloc;
    TakeOne();
    TakeTwo();
    FreeTwo();
  }
}
