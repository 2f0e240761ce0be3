/**
 The other direction of the buddy allocator's marks: a node that is not EMPTY has a block in use in
 its subtree. With it, a deallocation that `BuddyTree.ClimbIsTrusted` warns about always does harm: it
 marks a node EMPTY above a block that is in use.
 */
module BuddyUse {
  import opened Wrappers
  import opened BuddyTree

  /** A node that is not EMPTY is a block itself or has a child that is not EMPTY. */
  predicate Tight(t: Tree, h: nat)
    requires Perfect(t, h)
  {
    if h == 0 then t.mark != Partial
    else
      && Tight(t.left, h - 1) && Tight(t.right, h - 1)
      && (t.mark != Empty ==> t == AllEmpty(h).(mark := Full) || t.left.mark != Empty || t.right.mark != Empty)
  }

  lemma {:induction false} AllEmptyIsTight(h: nat)
    ensures Tight(AllEmpty(h), h) && Tight(AllEmpty(h).(mark := Full), h)
  {
    if h > 0 { AllEmptyIsTight(h - 1); }
  }

  // ----- blocks of a half, seen from the whole -----

  function InLeft(b: Block): Block { Block(b.d + 1, b.j) }

  function InRight(b: Block): Block { Block(b.d + 1, Pow2(b.d) + b.j) }

  lemma Lifted(h: nat, b: Block)
    requires h > 0 && IsBlock(h - 1, b)
    ensures IsBlock(h, InLeft(b)) && IsBlock(h, InRight(b))
    ensures Start(h, b.d + 1, b.j) == Start(h - 1, b.d, b.j)
    ensures Start(h, b.d + 1, Pow2(b.d) + b.j) == Pow2(h - 1) + Start(h - 1, b.d, b.j)
    ensures Pages(h, InLeft(b)) == Pages(h, InRight(b)) == Pages(h - 1, b)
  {
  }

  /** The pages of block `a` are among those of node `n`. */
  predicate Within(h: nat, a: Block, n: Block)
    requires IsBlock(h, a) && IsBlock(h, n)
  {
    && Start(h, n.d, n.j) <= Start(h, a.d, a.j)
    && Start(h, a.d, a.j) + Pages(h, a) <= Start(h, n.d, n.j) + Pages(h, n)
  }

  predicate IsSolid(t: Tree, h: nat, b: Block)
    requires Perfect(t, h)
  {
    IsBlock(h, b) && Solid(t, h, b.d, b.j)
  }

  /** Some block is in use below a node that is not EMPTY. */
  lemma {:induction false} SomeBlock(t: Tree, h: nat) returns (b: Block)
    requires Perfect(t, h) && Tight(t, h) && t.mark != Empty
    ensures IsSolid(t, h, b)
  {
    if t == AllEmpty(h).(mark := Full) {
      b := Block(0, 0);
    } else if t.left.mark != Empty {
      b := SomeBlock(t.left, h - 1);
      b := InLeft(b);
    } else {
      b := SomeBlock(t.right, h - 1);
      b := InRight(b);
    }
  }

  /** A block that lies within a proper node is in the same half, and lies within it there. */
  lemma SameHalf(h: nat, a: Block, n: Block)
    requires IsBlock(h, a) && IsBlock(h, n) && n.d > 0 && Within(h, a, n)
    ensures a.d > 0 && (a.j < Pow2(a.d - 1) <==> n.j < Pow2(n.d - 1))
    ensures n.j < Pow2(n.d - 1) ==> Within(h - 1, Block(a.d - 1, a.j), Block(n.d - 1, n.j))
    ensures n.j >= Pow2(n.d - 1) ==>
              Within(h - 1, Block(a.d - 1, a.j - Pow2(a.d - 1)), Block(n.d - 1, n.j - Pow2(n.d - 1)))
  {
    hide Start, Pow2;
    InHalf(h, n);
    if a.d > 0 { InHalf(h, a); } else { WholeHeap(h, a); }
  }

  lemma WholeHeap(h: nat, b: Block)
    requires IsBlock(h, b) && b.d == 0
    ensures Start(h, b.d, b.j) == 0 && Pages(h, b) == Pow2(h) && (h > 0 ==> Pow2(h) == 2 * Pow2(h - 1))
  {
  }

  /** A proper block, seen from its half. */
  lemma InHalf(h: nat, b: Block)
    requires IsBlock(h, b) && b.d > 0
    ensures b.j < Pow2(b.d - 1) ==>
              var l := Block(b.d - 1, b.j);
              && IsBlock(h - 1, l) && Pages(h - 1, l) == Pages(h, b)
              && Start(h, b.d, b.j) == Start(h - 1, l.d, l.j) <= Pow2(h - 1) - Pages(h, b)
    ensures b.j >= Pow2(b.d - 1) ==>
              var r := Block(b.d - 1, b.j - Pow2(b.d - 1));
              && IsBlock(h - 1, r) && Pages(h - 1, r) == Pages(h, b)
              && Start(h, b.d, b.j) == Pow2(h - 1) + Start(h - 1, r.d, r.j)
    ensures Start(h, b.d, b.j) + Pages(h, b) <= Pow2(h) == 2 * Pow2(h - 1)
  {
  }

  /** Above a block in use nothing is EMPTY, as long as EMPTY can be trusted. */
  lemma {:induction false} AboveSolid(t: Tree, h: nat, n: Block, a: Block)
    requires Perfect(t, h) && Trusted(t, h) && IsSolid(t, h, a) && IsBlock(h, n) && Within(h, a, n)
    ensures At(t, h, n.d, n.j).mark != Empty
    decreases h
  {
    hide Within, Start, AllEmpty;
    if n.d == 0 {
      NotSolidBelowEmpty(t, h, a.d, a.j);
    } else {
      SameHalf(h, a, n);
      if n.j < Pow2(n.d - 1) {
        AboveSolid(t.left, h - 1, Block(n.d - 1, n.j), Block(a.d - 1, a.j));
      } else {
        AboveSolid(t.right, h - 1, Block(n.d - 1, n.j - Pow2(n.d - 1)), Block(a.d - 1, a.j - Pow2(a.d - 1)));
      }
    }
  }

  lemma UpLeft(t: Tree, h: nat, n: Block, a: Block)
    requires h > 0 && Perfect(t, h) && IsBlock(h - 1, n) && IsSolid(t.left, h - 1, a) && Within(h - 1, a, n)
    ensures IsBlock(h, InLeft(n)) && IsSolid(t, h, InLeft(a)) && Within(h, InLeft(a), InLeft(n))
    ensures At(t, h, n.d + 1, n.j) == At(t.left, h - 1, n.d, n.j)
  {
    hide Start, Pow2, AllEmpty;
    Lifted(h, n);
    Lifted(h, a);
  }

  lemma UpRight(t: Tree, h: nat, n: Block, a: Block)
    requires h > 0 && Perfect(t, h) && IsBlock(h - 1, n) && IsSolid(t.right, h - 1, a) && Within(h - 1, a, n)
    ensures IsBlock(h, InRight(n)) && IsSolid(t, h, InRight(a)) && Within(h, InRight(a), InRight(n))
    ensures At(t, h, n.d + 1, Pow2(n.d) + n.j) == At(t.right, h - 1, n.d, n.j)
  {
    hide Start, Pow2, AllEmpty;
    Lifted(h, n);
    Lifted(h, a);
  }

  lemma WithinAll(h: nat, a: Block)
    requires IsBlock(h, a)
    ensures Within(h, a, Block(0, 0))
  {
  }

  // ----- allocation and deallocation -----

  lemma {:induction false} MarkedIsTight(t: Tree, h: nat, d: nat, j: nat)
    requires Perfect(t, h) && Trusted(t, h) && Tight(t, h) && d <= h && First(t, h, d) == Some(j)
    ensures Tight(Marked(t, h, d, j), h)
  {
    MarkedIsTrusted(t, h, d, j);
    if d == 0 {
      EmptyIsEmpty(t, h);
      AllEmptyIsTight(h);
    } else if First(t.left, h - 1, d - 1).Some? {
      MarkedIsTight(t.left, h - 1, d - 1, j);
      MarkedIsTrusted(t.left, h - 1, d - 1, j);
    } else {
      MarkedIsTight(t.right, h - 1, d - 1, j - Pow2(d - 1));
      MarkedIsTrusted(t.right, h - 1, d - 1, j - Pow2(d - 1));
    }
  }

  /** An allocation puts exactly one more block in use. */
  lemma {:induction false} MarkedAddsOne(t: Tree, h: nat, d: nat, j: nat, b: Block)
    requires Perfect(t, h) && Trusted(t, h) && d <= h && First(t, h, d) == Some(j)
    requires IsSolid(Marked(t, h, d, j), h, b) && b != Block(d, j)
    ensures IsSolid(t, h, b)
    decreases h
  {
    if d == 0 {
      EmptyIsEmpty(t, h);
      BelowSolid(AllEmpty(h).(mark := Full), h, b);
    } else if First(t.left, h - 1, d - 1).Some? {
      MarkedIsTrusted(t.left, h - 1, d - 1, j);
      if b.d > 0 && b.j < Pow2(b.d - 1) { MarkedAddsOne(t.left, h - 1, d - 1, j, Block(b.d - 1, b.j)); }
    } else {
      MarkedIsTrusted(t.right, h - 1, d - 1, j - Pow2(d - 1));
      if b.d > 0 && b.j >= Pow2(b.d - 1) {
        MarkedAddsOne(t.right, h - 1, d - 1, j - Pow2(d - 1), Block(b.d - 1, b.j - Pow2(b.d - 1)));
      }
    }
  }

  lemma {:induction false} ClimbIsTight(t: Tree, h: nat, page: nat)
    requires Perfect(t, h) && Tight(t, h) && page < Pow2(h)
    ensures Tight(Climb(t, h, page), h)
  {
    if h > 0 {
      if page < Pow2(h - 1) { ClimbIsTight(t.left, h - 1, page); } else { ClimbIsTight(t.right, h - 1, page - Pow2(h - 1)); }
    }
  }

  /** A deallocation puts no block in use, and none that has the page stays. */
  lemma {:induction false} ClimbAddsNone(t: Tree, h: nat, page: nat, b: Block)
    requires Perfect(t, h) && page < Pow2(h) && IsSolid(Climb(t, h, page), h, b)
    ensures IsSolid(t, h, b)
    ensures page < Start(h, b.d, b.j) || Start(h, b.d, b.j) + Pages(h, b) <= page
    decreases h
  {
    if b.d > 0 {
      if page < Pow2(h - 1) && b.j < Pow2(b.d - 1) {
        ClimbAddsNone(t.left, h - 1, page, Block(b.d - 1, b.j));
      } else if page >= Pow2(h - 1) && b.j >= Pow2(b.d - 1) {
        ClimbAddsNone(t.right, h - 1, page - Pow2(h - 1), Block(b.d - 1, b.j - Pow2(b.d - 1)));
      }
    }
  }

  /** If the siblings are not in order, a node becomes EMPTY with a block in use below it. */
  lemma {:induction false} EmptyAboveUse(t: Tree, h: nat, page: nat) returns (n: Block, a: Block)
    requires Perfect(t, h) && Trusted(t, h) && Tight(t, h) && page < Pow2(h) && !InOrder(t, h, page)
    ensures IsBlock(h, n) && At(Climb(t, h, page), h, n.d, n.j).mark == Empty
    ensures IsSolid(Climb(t, h, page), h, a) && Within(h, a, n)
    decreases h
  {
    hide Within, Start, Solid, AllEmpty, Tight, Trusted;
    TightBelow(t, h);
    var c := Climb(t, h, page);
    if page < Pow2(h - 1) {
      if InOrder(t.left, h - 1, page) {
        n := Block(0, 0);
        a := ClimbedChild(t.left, h - 1, page);
        WithinAll(h - 1, a);
        UpLeft(c, h, n, a);
        a := InLeft(a);
        WithinAll(h, a);
      } else {
        n, a := EmptyAboveUse(t.left, h - 1, page);
        UpLeft(c, h, n, a);
        n, a := InLeft(n), InLeft(a);
      }
    } else {
      if InOrder(t.right, h - 1, page - Pow2(h - 1)) {
        n := Block(0, 0);
        a := ClimbedChild(t.right, h - 1, page - Pow2(h - 1));
        WithinAll(h - 1, a);
        UpRight(c, h, n, a);
        a := InRight(a);
        WithinAll(h, a);
      } else {
        n, a := EmptyAboveUse(t.right, h - 1, page - Pow2(h - 1));
        UpRight(c, h, n, a);
        n, a := InRight(n), InRight(a);
      }
    }
  }

  lemma TightBelow(t: Tree, h: nat)
    requires Perfect(t, h) && Trusted(t, h) && Tight(t, h)
    ensures h > 0 ==> Trusted(t.left, h - 1) && Tight(t.left, h - 1) && Trusted(t.right, h - 1) && Tight(t.right, h - 1)
  {
  }

  /** A subtree that keeps a sibling that is not EMPTY keeps a block in use. */
  lemma ClimbedChild(t: Tree, h: nat, page: nat) returns (a: Block)
    requires Perfect(t, h) && Trusted(t, h) && Tight(t, h) && page < Pow2(h) && h > 0 && SiblingMark(t, h, page) != Empty
    ensures IsSolid(Climb(t, h, page), h, a)
  {
    ClimbMark(t, h, page);
    ClimbIsTight(t, h, page);
    a := SomeBlock(Climb(t, h, page), h);
  }

  // ----- runs -----

  /** The blocks in use are exactly those that the marks show. */
  ghost predicate Exact(s: Heap, h: nat) {
    && Inv(s, h) && Tight(s.tree, h)
    && forall b :: IsSolid(s.tree, h, b) ==> b in s.live
  }

  lemma FreshIsExact(h: nat)
    ensures Exact(Heap(AllEmpty(h), {}), h)
  {
    AllEmptyIsTrusted(h);
    AllEmptyIsTight(h);
    forall b | IsBlock(h, b) ensures !Solid(AllEmpty(h), h, b.d, b.j) { NothingSolid(h, b.d, b.j); }
  }

  lemma EventKeepsExact(s: Heap, h: nat, e: Event)
    requires Exact(s, h) && Allowed(s, h, e)
    ensures Exact(Do(s, h, e), h)
  {
    hide Pow2, Perfect, Trusted, Solid, Start, Climb, InOrder, First, Marked, Order, Tight;
    EventKeepsInv(s, h, e);
    match e
    case Alloced(pages) =>
      var r := Alloc(s.tree, h, pages);
      if r.Some? {
        MarkedIsTight(s.tree, h, r.value.d, r.value.j);
        forall b | IsSolid(Do(s, h, e).tree, h, b) && b != r.value ensures b in s.live {
          MarkedAddsOne(s.tree, h, r.value.d, r.value.j, b);
        }
      }
    case Freed(f) =>
      ClimbIsTight(s.tree, h, Start(h, f.d, f.j));
      forall b | IsSolid(Do(s, h, e).tree, h, b) ensures b in s.live && b != f {
        ClimbAddsNone(s.tree, h, Start(h, f.d, f.j), b);
      }
  }

  lemma {:induction false} RunIsExact(s: Heap, h: nat, events: seq<Event>)
    requires Exact(s, h) && Legal(s, h, events)
    ensures Exact(Run(s, h, events), h)
    decreases events
  {
    if events != [] {
      hide Exact, Do, Allowed, Inv;
      ExactIsInv(s, h);
      EventKeepsExact(s, h, events[0]);
      EventKeepsInv(s, h, events[0]);
      RunIsExact(Do(s, h, events[0]), h, events[1..]);
    }
  }

  /** After every run that has given back all it got, the heap is as at the start. */
  lemma AllGivenBack(h: nat, events: seq<Event>)
    requires Inv(Heap(AllEmpty(h), {}), h) && Legal(Heap(AllEmpty(h), {}), h, events)
    requires Run(Heap(AllEmpty(h), {}), h, events).live == {}
    ensures Run(Heap(AllEmpty(h), {}), h, events).tree == AllEmpty(h)
  {
    hide Pow2, Perfect, Trusted, Solid, Tight, Run, Legal, AllEmpty;
    FreshIsExact(h);
    RunIsExact(Heap(AllEmpty(h), {}), h, events);
    var t := Run(Heap(AllEmpty(h), {}), h, events).tree;
    if t.mark != Empty {
      var b := SomeBlock(t, h);
    } else {
      EmptyIsEmpty(t, h);
    }
  }

  lemma ExactIsInv(s: Heap, h: nat)
    requires Exact(s, h)
    ensures Inv(s, h)
  {
  }

  /** After a deallocation, node `n` is EMPTY although block `a` below it is still in use. */
  ghost predicate Harms(s: Heap, h: nat, b: Block, n: Block, a: Block)
    requires Inv(s, h) && b in s.live
  {
    && a in s.live && a != b && IsBlock(h, n) && IsBlock(h, a) && Within(h, a, n)
    && At(Climb(s.tree, h, Start(h, b.d, b.j)), h, n.d, n.j).mark == Empty
  }

  /** After every run from a fresh heap, freeing a block is harmless exactly if the siblings on its way
      up are in order. Otherwise some block that is still in use lies below an EMPTY node. */
  lemma FreeingIsHarmlessExactly(h: nat, events: seq<Event>, b: Block)
    requires Inv(Heap(AllEmpty(h), {}), h) && Legal(Heap(AllEmpty(h), {}), h, events)
    requires b in Run(Heap(AllEmpty(h), {}), h, events).live
    ensures var s := Run(Heap(AllEmpty(h), {}), h, events);
            InOrder(s.tree, h, Start(h, b.d, b.j)) <==> forall n, a :: !Harms(s, h, b, n, a)
  {
    hide Pow2, Perfect, Trusted, Solid, Start, Climb, InOrder, Tight, Run, Legal, At, Within;
    FreshIsExact(h);
    RunIsExact(Heap(AllEmpty(h), {}), h, events);
    var s := Run(Heap(AllEmpty(h), {}), h, events);
    var page := Start(h, b.d, b.j);
    if InOrder(s.tree, h, page) {
      ClimbIsTrusted(s.tree, h, page);
      forall n, a | a in s.live && a != b && IsBlock(h, n) && IsBlock(h, a) && Within(h, a, n)
        ensures !Harms(s, h, b, n, a)
      {
        SolidApart(s.tree, h, a, b);
        ClimbKeepsSolid(s.tree, h, page, a);
        AboveSolid(Climb(s.tree, h, page), h, n, a);
      }
    } else {
      var n, a := EmptyAboveUse(s.tree, h, page);
      ClimbAddsNone(s.tree, h, page, a);
      assert Harms(s, h, b, n, a);
    }
  }

  // ----- the harm that an EMPTY mark above a block in use does -----

  /** The tree after `m` requests of the same size. */
  function Repeated(t: Tree, h: nat, pages: nat, m: nat): (n: Tree)
    requires Perfect(t, h)
    ensures Perfect(n, h)
    decreases m
  {
    if m == 0 then t else Repeated(AfterAlloc(t, h, pages), h, pages, m - 1)
  }

  /** Handing out the leftmost free node makes it not free, makes no node to its left free, and leaves
      every other free node free. */
  lemma {:induction false} OthersStayFree(t: Tree, h: nat, d: nat, i: nat, j: nat)
    requires Perfect(t, h) && d <= h && i < Pow2(d) && j < Pow2(d) && First(t, h, d) == Some(i)
    ensures j <= i ==> !Free(Marked(t, h, d, i), h, d, j)
    ensures j > i && Free(t, h, d, j) ==> Free(Marked(t, h, d, i), h, d, j)
    ensures Marked(t, h, d, i).mark != Full || j <= i || !Free(t, h, d, j)
  {
    if d > 0 {
      var half := Pow2(d - 1);
      FirstIsLeftmost(t.left, h - 1, d - 1);
      if First(t.left, h - 1, d - 1).Some? {
        if j < half { OthersStayFree(t.left, h - 1, d - 1, i, j); }
      } else if j >= half {
        OthersStayFree(t.right, h - 1, d - 1, i - half, j - half);
      }
    }
  }

  /** A free node is handed out sooner or later to requests of its size. */
  lemma {:induction false} FreeIsHandedOut(t: Tree, h: nat, d: nat, j: nat, low: nat) returns (m: nat)
    requires Perfect(t, h) && d <= h && j < Pow2(d) && Free(t, h, d, j)
    requires low <= j && forall i :: 0 <= i < low ==> !Free(t, h, d, i)
    ensures Alloc(Repeated(t, h, Pow2(h - d), m), h, Pow2(h - d)) == Some(Block(d, j))
    decreases j - low
  {
    var i := NextBlock(t, h, d, j, low);
    if i == j {
      m := 0;
    } else {
      hide First, Free, Marked, Alloc, AfterAlloc, Pow2;
      var n := Marked(t, h, d, i);
      forall k | 0 <= k <= i ensures !Free(n, h, d, k) { OthersStayFree(t, h, d, i, k); }
      OthersStayFree(t, h, d, i, j);
      m := FreeIsHandedOut(n, h, d, j, i + 1);
      m := m + 1;
    }
  }

  lemma NextBlock(t: Tree, h: nat, d: nat, j: nat, low: nat) returns (i: nat)
    requires Perfect(t, h) && d <= h && j < Pow2(d) && Free(t, h, d, j)
    requires low <= j && forall i :: 0 <= i < low ==> !Free(t, h, d, i)
    ensures low <= i <= j && i < Pow2(d) && First(t, h, d) == Some(i)
    ensures Alloc(t, h, Pow2(h - d)) == Some(Block(d, i)) && AfterAlloc(t, h, Pow2(h - d)) == Marked(t, h, d, i)
  {
    hide First, Free, Marked, Alloc, AfterAlloc, Pow2, Perfect;
    FirstIsLeftmost(t, h, d);
    i := First(t, h, d).value;
    OneRequest(t, h, d);
  }

  /** Requests never make a node of their size free. */
  lemma {:induction false} FreeBefore(t: Tree, h: nat, d: nat, i: nat, j: nat)
    requires Perfect(t, h) && d <= h && i < Pow2(d) && j < Pow2(d) && First(t, h, d) == Some(i)
    requires Free(Marked(t, h, d, i), h, d, j)
    ensures Free(t, h, d, j)
  {
    if d > 0 {
      var half := Pow2(d - 1);
      if i < half && j < half {
        FirstIsLeftmost(t.left, h - 1, d - 1);
        FreeBefore(t.left, h - 1, d - 1, i, j);
      } else if i >= half && j >= half {
        FreeBefore(t.right, h - 1, d - 1, i - half, j - half);
      }
    }
  }

  lemma {:induction false} WasFree(t: Tree, h: nat, b: Block, m: nat)
    requires Perfect(t, h) && IsBlock(h, b) && HandedOut(t, h, b, m)
    ensures Free(t, h, b.d, b.j)
    decreases m
  {
    hide First, Free, Marked, Pow2, Order, Alloc, AfterAlloc, Perfect;
    FirstIsLeftmost(t, h, b.d);
    OneRequest(t, h, b.d);
    if m > 0 {
      WasFree(AfterAlloc(t, h, Pages(h, b)), h, b, m - 1);
      var r := First(t, h, b.d);
      if r.Some? { FreeBefore(t, h, b.d, r.value, b.j); }
    }
  }

  /** What a request of the size of the nodes at depth `d` gets. */
  lemma OneRequest(t: Tree, h: nat, d: nat)
    requires Perfect(t, h) && d <= h
    ensures var r := First(t, h, d);
            && Alloc(t, h, Pow2(h - d)) == (if r.Some? then Some(Block(d, r.value)) else None)
            && AfterAlloc(t, h, Pow2(h - d)) == if r.Some? then Marked(t, h, d, r.value) else t
  {
    hide First, Marked, Order, Pow2, Perfect;
    OrderOfPow2(h - d);
    Pow2Monotonic(h - d, h);
  }

  /** After `m` requests of its size, the next one gets block `b`. */
  predicate HandedOut(t: Tree, h: nat, b: Block, m: nat)
    requires Perfect(t, h) && IsBlock(h, b)
  {
    Alloc(Repeated(t, h, Pages(h, b), m), h, Pages(h, b)) == Some(b)
  }

  /** After every run from a fresh heap: a block that is deallocated is handed out again to requests of its
      size if and only if no FULL node with a PARTIAL child beside the way down was above it. */
  lemma FreedIsHandedOutExactly(h: nat, events: seq<Event>, b: Block)
    requires Inv(Heap(AllEmpty(h), {}), h) && Legal(Heap(AllEmpty(h), {}), h, events)
    requires b in Run(Heap(AllEmpty(h), {}), h, events).live
    ensures var t := Run(Heap(AllEmpty(h), {}), h, events).tree;
            Unhidden(t, h, b.d, b.j) <==> exists m :: HandedOut(Climb(t, h, Start(h, b.d, b.j)), h, b, m)
  {
    hide Pow2, Perfect, Trusted, Solid, Start, Climb, First, Free, Repeated, Alloc, InOrder, Run, Legal, Unhidden;
    var t := Run(Heap(AllEmpty(h), {}), h, events).tree;
    var n := Climb(t, h, Start(h, b.d, b.j));
    FreedIsFree(t, h, b);
    if Unhidden(t, h, b.d, b.j) {
      var m := FreeIsHandedOut(n, h, b.d, b.j, 0);
      assert HandedOut(n, h, b, m);
    }
    if m :| HandedOut(n, h, b, m) {
      WasFree(n, h, b, m);
    }
  }

  /** If the node that a harmful deallocation leaves EMPTY has no FULL node above it, its pages, and with
      them those of a block in use, are handed out again after some requests of its size. */
  lemma HandedOutAgain(s: Heap, h: nat, b: Block, n: Block, a: Block) returns (m: nat)
    requires Inv(s, h) && b in s.live && Harms(s, h, b, n, a)
    requires Free(Climb(s.tree, h, Start(h, b.d, b.j)), h, n.d, n.j)
    ensures a in s.live && a != b && !Apart(h, a, n)
    ensures Alloc(Repeated(Climb(s.tree, h, Start(h, b.d, b.j)), h, Pages(h, n), m), h, Pages(h, n)) == Some(n)
  {
    hide Pow2, Perfect, Trusted, Solid, Start, Climb, First, Free, Repeated, Alloc;
    m := FreeIsHandedOut(Climb(s.tree, h, Start(h, b.d, b.j)), h, n.d, n.j, 0);
  }
}
