/**
 The buddy allocator of Kernel/buddyAllocator.c: an implicit binary tree in the array `occupied`,
 where node `i` (counted from 1) has the children 2i and 2i + 1. The number of pages is 2^height.
 The methods are specified by `BuddyTree`, through the tree that the array represents.
 */
module Buddy {
  import opened Wrappers
  import opened BuddyTree

  const PAGE_SIZE := 4096
  const HEAP_BASE := 0x1000000
  const NULL := 0

  // ----- the array as a tree -----

  /** All nodes of the subtree of height `h` at node `i` are among the first `n`. */
  predicate Fits(n: nat, i: nat, h: nat): (r: bool)
    ensures r && h > 0 ==> 2 * i + 1 <= n
    decreases h
  {
    1 <= i <= n && (h > 0 ==> Fits(n, 2 * i, h - 1) && Fits(n, 2 * i + 1, h - 1))
  }

  lemma {:induction false} RootFits(n: nat, i: nat, h: nat)
    requires i >= 1 && (i + 1) * Pow2(h) - 1 <= n
    ensures Fits(n, i, h)
    decreases h
  {
    if h > 0 {
      var q := Pow2(h - 1);
      assert (2 * i + 2) * q == (i + 1) * (2 * q);
      assert (2 * i + 1) * q <= (2 * i + 2) * q;
      RootFits(n, 2 * i, h - 1);
      RootFits(n, 2 * i + 1, h - 1);
    }
    assert i + 1 <= (i + 1) * Pow2(h);
  }

  function TreeAt(m: seq<Mark>, i: nat, h: nat): (t: Tree)
    requires Fits(|m|, i, h)
    ensures Perfect(t, h) && t.mark == m[i - 1]
    decreases h
  {
    if h == 0 then Leaf(m[i - 1]) else Node(m[i - 1], TreeAt(m, 2 * i, h - 1), TreeAt(m, 2 * i + 1, h - 1))
  }

  /** Node `i` is `r` or below it. */
  predicate Under(i: nat, r: nat) {
    i >= r >= 1 && (i == r || Under(i / 2, r))
  }

  lemma {:induction false} UnderChild(i: nat, c: nat)
    requires c >= 2 && Under(i, c)
    ensures Under(i, c / 2)
  {
    if i != c { UnderChild(i / 2, c); }
  }

  lemma {:induction false} SiblingsApart(i: nat, c: nat, s: nat)
    requires c != s && c / 2 == s / 2 >= 1 && Under(i, c)
    ensures !Under(i, s)
  {
    if i != c && i != s { SiblingsApart(i / 2, c, s); }
  }

  ghost predicate SameUnder(m: seq<Mark>, n: seq<Mark>, r: nat) {
    |m| == |n| && forall i :: 1 <= i <= |m| && Under(i, r) ==> m[i - 1] == n[i - 1]
  }

  ghost predicate SameOutside(m: seq<Mark>, n: seq<Mark>, r: nat) {
    |m| == |n| && forall i :: 1 <= i <= |m| && !Under(i, r) ==> m[i - 1] == n[i - 1]
  }

  lemma Narrow(m: seq<Mark>, n: seq<Mark>, c: nat)
    requires c >= 2 && SameUnder(m, n, c / 2)
    ensures SameUnder(m, n, c)
  {
    forall i | 1 <= i <= |m| && Under(i, c) ensures m[i - 1] == n[i - 1] { UnderChild(i, c); }
  }

  /** A change below one child happens outside of the other. */
  lemma Away(m: seq<Mark>, n: seq<Mark>, c: nat, s: nat)
    requires c != s && c / 2 == s / 2 >= 1 && SameOutside(m, n, c)
    ensures SameUnder(m, n, s)
  {
    forall i | 1 <= i <= |m| && Under(i, s) ensures m[i - 1] == n[i - 1] { SiblingsApart(i, s, c); }
  }

  lemma Widen(m: seq<Mark>, n: seq<Mark>, c: nat)
    requires c >= 2 && SameOutside(m, n, c)
    ensures SameOutside(m, n, c / 2)
  {
    forall i | 1 <= i <= |m| && !Under(i, c / 2) ensures m[i - 1] == n[i - 1] { if Under(i, c) { UnderChild(i, c); } }
  }

  lemma {:induction false} SameTree(m: seq<Mark>, n: seq<Mark>, r: nat, h: nat)
    requires Fits(|m|, r, h) && SameUnder(m, n, r)
    ensures TreeAt(m, r, h) == TreeAt(n, r, h)
    decreases h
  {
    assert Under(r, r);
    if h > 0 {
      Narrow(m, n, 2 * r);
      Narrow(m, n, 2 * r + 1);
      SameTree(m, n, 2 * r, h - 1);
      SameTree(m, n, 2 * r + 1, h - 1);
    }
  }

  /** A change below one child leaves the mark of the parent and the subtree of the other child. */
  lemma ChildChanged(m: seq<Mark>, n: seq<Mark>, r: nat, c: nat, s: nat, h: nat)
    requires h > 0 && Fits(|m|, r, h) && c != s && c / 2 == s / 2 == r && SameOutside(m, n, c)
    ensures n[r - 1] == m[r - 1]
    ensures TreeAt(n, s, h - 1) == TreeAt(m, s, h - 1)
    ensures SameOutside(m, n, r)
  {
    assert !Under(r, c);
    Away(m, n, c, s);
    SameTree(m, n, s, h - 1);
    Widen(m, n, c);
  }

  /** A change of one mark. */
  lemma RootChanged(m: seq<Mark>, r: nat, h: nat, mark: Mark)
    requires Fits(|m|, r, h)
    ensures TreeAt(m[r - 1 := mark], r, h) == TreeAt(m, r, h).(mark := mark)
    ensures SameOutside(m, m[r - 1 := mark], r)
  {
    if h > 0 {
      var n := m[r - 1 := mark];
      SameTree(m, n, 2 * r, h - 1);
      SameTree(m, n, 2 * r + 1, h - 1);
    }
  }

  /** The addresses in `base`: a left child starts where its parent does, a right child half way. */
  predicate BasesAt(bases: seq<int>, i: nat, h: nat)
    requires Fits(|bases|, i, h)
    decreases h
  {
    && bases[i - 1] > NULL
    && (h > 0 ==>
          && bases[2 * i - 1] == bases[i - 1] && bases[2 * i] == bases[i - 1] + PAGE_SIZE * Pow2(h - 1)
          && BasesAt(bases, 2 * i, h - 1) && BasesAt(bases, 2 * i + 1, h - 1))
  }

  /** What a search of the subtree at `i`, for a block `d` levels down, does to the marks `m` and returns. */
  ghost predicate Searched(m: seq<Mark>, n: seq<Mark>, bases: seq<int>, i: nat, h: nat, d: nat, page: int)
    requires Fits(|m|, i, h) && |n| == |bases| == |m| && d <= h
  {
    var t := TreeAt(m, i, h);
    var r := First(t, h, d);
    && SameOutside(m, n, i)
    && page == (if r.Some? then bases[i - 1] + PAGE_SIZE * Start(h, d, r.value) else NULL)
    && TreeAt(n, i, h) == if r.Some? then Marked(t, h, d, r.value) else t
  }

  lemma SearchedHere(m: seq<Mark>, bases: seq<int>, i: nat, h: nat, d: nat)
    requires Fits(|m|, i, h) && |bases| == |m| && d <= h
    ensures m[i - 1] == Full || (d == 0 && m[i - 1] == Partial) ==> Searched(m, m, bases, i, h, d, NULL)
    ensures d == 0 && m[i - 1] == Empty ==> Searched(m, m[i - 1 := Full], bases, i, h, d, bases[i - 1])
  {
    hide Fits, Under;
    RootChanged(m, i, h, Full);
  }

  lemma SearchedLeft(m: seq<Mark>, n: seq<Mark>, bases: seq<int>, i: nat, h: nat, d: nat, page: int)
    requires Fits(|m|, i, h) && |n| == |bases| == |m| && 0 < d <= h
    requires m[i - 1] != Full && BasesAt(bases, i, h) && page != NULL
    requires Searched(m, n, bases, 2 * i, h - 1, d - 1, page)
    ensures Searched(m, n[i - 1 := Partial], bases, i, h, d, page)
  {
    hide Under, Fits, SameOutside;
    ChildChanged(m, n, i, 2 * i, 2 * i + 1, h);
    RootChanged(n, i, h, Partial);
    Outside(m, n, n[i - 1 := Partial], i);
  }

  lemma SearchedRight(m: seq<Mark>, n: seq<Mark>, o: seq<Mark>, bases: seq<int>, i: nat, h: nat, d: nat, page: int)
    requires Fits(|m|, i, h) && |n| == |o| == |bases| == |m| && 0 < d <= h
    requires m[i - 1] != Full && BasesAt(bases, i, h)
    requires Searched(m, n, bases, 2 * i, h - 1, d - 1, NULL)
    requires Searched(n, o, bases, 2 * i + 1, h - 1, d - 1, page)
    ensures Searched(m, if page != NULL && o[2 * i] == Full then o[i - 1 := Full] else o, bases, i, h, d, page)
  {
    hide Under, Fits, SameOutside, TreeAt, BasesAt, Start, Marked, Pow2, Perfect;
    Inside(m, bases, i, h);
    Outcome(m, n, bases, 2 * i, h - 1, d - 1, NULL);
    Outcome(n, o, bases, 2 * i + 1, h - 1, d - 1, page);
    TwoChildren(m, n, o, i, h);
    ChildBases(bases, i, h);
    RightBlock(TreeAt(m, i, h), h, d);
  }

  lemma ChildBases(bases: seq<int>, i: nat, h: nat)
    requires h > 0 && Fits(|bases|, i, h) && BasesAt(bases, i, h)
    ensures bases[2 * i] == bases[i - 1] + PAGE_SIZE * Pow2(h - 1)
  {
  }

  lemma RightBlock(t: Tree, h: nat, d: nat)
    requires 0 < d <= h && Perfect(t, h) && t.mark != Full && First(t.left, h - 1, d - 1).None?
    ensures var r := First(t.right, h - 1, d - 1);
            && First(t, h, d) == (if r.Some? then Some(Pow2(d - 1) + r.value) else None)
            && (r.Some? ==>
                  var right := Marked(t.right, h - 1, d - 1, r.value);
                  && Start(h, d, Pow2(d - 1) + r.value) == Pow2(h - 1) + Start(h - 1, d - 1, r.value)
                  && Marked(t, h, d, Pow2(d - 1) + r.value) == Node(if right.mark == Full then Full else t.mark, t.left, right))
  {
  }

  /** The tree after changes below the two children that leave the left one as it was. */
  lemma TwoChildren(m: seq<Mark>, n: seq<Mark>, o: seq<Mark>, i: nat, h: nat)
    requires h > 0 && Fits(|m|, i, h) && Fits(|m|, 2 * i, h - 1) && Fits(|m|, 2 * i + 1, h - 1)
    requires SameOutside(m, n, 2 * i) && SameOutside(n, o, 2 * i + 1) && TreeAt(n, 2 * i, h - 1) == TreeAt(m, 2 * i, h - 1)
    ensures SameOutside(m, o, i) && SameOutside(m, o[i - 1 := Full], i)
    ensures TreeAt(n, 2 * i + 1, h - 1) == TreeAt(m, 2 * i + 1, h - 1)
    ensures o[2 * i] == TreeAt(o, 2 * i + 1, h - 1).mark
    ensures TreeAt(m, i, h) == Node(m[i - 1], TreeAt(m, 2 * i, h - 1), TreeAt(m, 2 * i + 1, h - 1))
    ensures TreeAt(o, i, h) == TreeAt(m, i, h).(right := TreeAt(o, 2 * i + 1, h - 1))
    ensures TreeAt(o[i - 1 := Full], i, h) == TreeAt(o, i, h).(mark := Full)
  {
    hide Under, SameOutside;
    ChildChanged(m, n, i, 2 * i, 2 * i + 1, h);
    ChildChanged(n, o, i, 2 * i + 1, 2 * i, h);
    Outside(m, n, o, i);
    RootChanged(o, i, h, Full);
    Outside(m, o, o[i - 1 := Full], i);
  }

  /** The search answers NULL exactly when it found nothing. */
  lemma Outcome(m: seq<Mark>, n: seq<Mark>, bases: seq<int>, i: nat, h: nat, d: nat, page: int)
    requires Fits(|m|, i, h) && |n| == |bases| == |m| && d <= h
    requires BasesAt(bases, i, h) && Searched(m, n, bases, i, h, d, page)
    ensures page == NULL <==> First(TreeAt(m, i, h), h, d).None?
  {
    hide TreeAt, First, SameOutside, Marked;
  }

  lemma Inside(m: seq<Mark>, bases: seq<int>, i: nat, h: nat)
    requires Fits(|m|, i, h) && |bases| == |m| && BasesAt(bases, i, h)
    ensures 1 <= i <= |m|
    ensures h > 0 ==> Fits(|m|, 2 * i, h - 1) && Fits(|m|, 2 * i + 1, h - 1) && 2 * i + 1 <= |m|
    ensures h > 0 ==> BasesAt(bases, 2 * i, h - 1) && BasesAt(bases, 2 * i + 1, h - 1)
  {
  }

  lemma Outside(m: seq<Mark>, n: seq<Mark>, o: seq<Mark>, r: nat)
    requires SameOutside(m, n, r) && SameOutside(n, o, r)
    ensures SameOutside(m, o, r)
  {
  }

  // ----- the addresses that createHeap computes -----

  function Depth(i: nat): nat
    requires i >= 1
  {
    if i == 1 then 0 else 1 + Depth(i / 2)
  }

  lemma {:induction false} DepthIs(i: nat, d: nat)
    requires Pow2(d) <= i < 2 * Pow2(d)
    ensures Depth(i) == d
  {
    if d > 0 { DepthIs(i / 2, d - 1); }
  }

  lemma {:induction false} DepthBounds(i: nat)
    requires i >= 1
    ensures Pow2(Depth(i)) <= i < 2 * Pow2(Depth(i))
  {
    if i > 1 { DepthBounds(i / 2); }
  }

  /** The entry of node `i`: its place in its level times the size of a block of that level. */
  function BaseOf(height: nat, i: nat): int
    requires i >= 1
  {
    HEAP_BASE + PAGE_SIZE * Pow2(height) / Pow2(Depth(i)) * (i - Pow2(Depth(i)))
  }

  /** The entry for the `e`-th node at depth `d`. */
  lemma EntryIs(height: nat, d: nat, e: nat)
    requires e < Pow2(d)
    ensures BaseOf(height, Pow2(d) + e) == HEAP_BASE + PAGE_SIZE * Pow2(height) / Pow2(d) * e
    ensures d == 0 ==> BaseOf(height, Pow2(d) + e) == HEAP_BASE && Depth(Pow2(d) + e) == 0
  {
    DepthIs(Pow2(d) + e, d);
  }

  lemma BlockSize(height: nat, d: nat)
    requires d <= height
    ensures PAGE_SIZE * Pow2(height) / Pow2(d) == PAGE_SIZE * Pow2(height - d)
  {
    Pow2Splits(height, d);
    var p, q := Pow2(d), Pow2(height - d);
    Quotient(PAGE_SIZE * q, p);
    assert PAGE_SIZE * Pow2(height) == (PAGE_SIZE * q) * p;
  }

  lemma Quotient(a: nat, p: nat)
    requires p > 0
    ensures a * p / p == a
  {
    var x: int := a * p / p - a;
    var rest := a * p % p;
    assert x * p == -rest;
    assert x >= 0 || x * p + p <= 0;
    assert x <= 0 || x * p >= p;
  }

  lemma ChildBase(height: nat, i: nat)
    requires i >= 1 && Depth(i) < height
    ensures BaseOf(height, 2 * i) == BaseOf(height, i)
    ensures BaseOf(height, 2 * i + 1) == BaseOf(height, i) + PAGE_SIZE * Pow2(height - Depth(i) - 1)
    ensures BaseOf(height, i) >= HEAP_BASE
  {
    var d := Depth(i);
    assert Depth(2 * i) == d + 1 && Depth(2 * i + 1) == d + 1;
    BlockSize(height, d);
    BlockSize(height, d + 1);
    DepthBounds(i);
    var q := PAGE_SIZE * Pow2(height - d - 1);
    var e := i - Pow2(d);
    assert 2 * i - Pow2(d + 1) == 2 * e;
    assert BaseOf(height, i) == HEAP_BASE + 2 * q * e;
    assert BaseOf(height, 2 * i) == HEAP_BASE + q * (2 * e);
    assert BaseOf(height, 2 * i + 1) == HEAP_BASE + q * (2 * e + 1);
    Terms(q, e);
  }

  lemma Terms(q: nat, e: nat)
    ensures 2 * q * e == q * (2 * e) && q * (2 * e + 1) == 2 * q * e + q && 2 * q * e >= 0
  {
  }

  /** The formula of `createHeap` gives every child its place in its parent. */
  lemma {:induction false} BasesFollow(bases: seq<int>, height: nat, i: nat, h: nat)
    requires Fits(|bases|, i, h) && Depth(i) + h == height
    requires forall k :: 1 <= k <= |bases| ==> bases[k - 1] == BaseOf(height, k)
    requires h == 0 ==> BaseOf(height, i) > NULL
    ensures BasesAt(bases, i, h)
    decreases h
  {
    if h > 0 {
      hide BaseOf;
      ChildBase(height, i);
      BasesFollow(bases, height, 2 * i, h - 1);
      BasesFollow(bases, height, 2 * i + 1, h - 1);
    }
  }

  // ----- the path of freeUpRecursive -----

  function Sibling(i: nat): nat
    requires i >= 2
  {
    if i % 2 == 1 then i - 1 else i + 1
  }

  function Step(m: seq<Mark>, i: nat): (n: seq<Mark>)
    requires |m| % 2 == 1 && 2 <= i <= |m|
    ensures |n| == |m|
  {
    m[i / 2 - 1 := Lower(m[i / 2 - 1], m[Sibling(i) - 1])]
  }

  /** The marks after the climb from node `i` to the root. */
  function Climbed(m: seq<Mark>, i: nat): (n: seq<Mark>)
    requires |m| % 2 == 1 && 1 <= i <= |m|
    ensures |n| == |m|
    decreases i
  {
    if i == 1 then m else Climbed(Step(m, i), i / 2)
  }

  /** The leaf of a page in the subtree at `r`. */
  function LeafOf(r: nat, h: nat, page: nat): nat
    requires page < Pow2(h)
    decreases h
  {
    if h == 0 then r
    else if page < Pow2(h - 1) then LeafOf(2 * r, h - 1, page)
    else LeafOf(2 * r + 1, h - 1, page - Pow2(h - 1))
  }

  lemma Double(r: nat, q: nat)
    ensures (2 * r) * q == r * (2 * q) && (2 * r + 1) * q == r * (2 * q) + q
  {
    Distribute(2 * r, 1, q);
    assert (2 * r) * q == r * (2 * q);
  }

  lemma {:induction false} LeafIs(r: nat, h: nat, page: nat)
    requires page < Pow2(h)
    ensures LeafOf(r, h, page) == r * Pow2(h) + page
    decreases h
  {
    if h > 0 {
      var q := Pow2(h - 1);
      Double(r, q);
      if page < q { LeafIs(2 * r, h - 1, page); } else { LeafIs(2 * r + 1, h - 1, page - q); }
    }
  }

  lemma {:induction false} LeafFits(n: nat, r: nat, h: nat, page: nat)
    requires page < Pow2(h) && Fits(n, r, h)
    ensures 1 <= LeafOf(r, h, page) <= n
    decreases h
  {
    if h > 0 {
      if page < Pow2(h - 1) { LeafFits(n, 2 * r, h - 1, page); } else { LeafFits(n, 2 * r + 1, h - 1, page - Pow2(h - 1)); }
    }
  }

  /** The leaf cleared and the path from it to `r` lowered, read from the top. */
  function Lowered(m: seq<Mark>, r: nat, h: nat, page: nat): (n: seq<Mark>)
    requires |m| % 2 == 1 && Fits(|m|, r, h) && page < Pow2(h)
    ensures |n| == |m|
    decreases h
  {
    if h == 0 then m[r - 1 := Empty]
    else if page < Pow2(h - 1) then Step(Lowered(m, 2 * r, h - 1, page), 2 * r)
    else Step(Lowered(m, 2 * r + 1, h - 1, page - Pow2(h - 1)), 2 * r + 1)
  }

  /** The child on the way to a page, and the page's number there. */
  function Towards(r: nat, h: nat, page: nat): (nat, nat)
    requires h > 0
  {
    if page < Pow2(h - 1) then (2 * r, page) else (2 * r + 1, page - Pow2(h - 1))
  }

  lemma LoweredNode(m: seq<Mark>, r: nat, h: nat, page: nat)
    requires |m| % 2 == 1 && Fits(|m|, r, h) && page < Pow2(h) && h > 0
    ensures var (c, rest) := Towards(r, h, page);
            && rest < Pow2(h - 1) && Fits(|m|, c, h - 1) && c / 2 == r >= 1 && c <= |m|
            && LeafOf(r, h, page) == LeafOf(c, h - 1, rest)
            && Lowered(m, r, h, page) == Step(Lowered(m, c, h - 1, rest), c)
  {
  }

  /** The tree of a node with child `c` and its sibling. */
  function Parent(mark: Mark, c: nat, child: Tree, sibling: Tree): Tree {
    if c % 2 == 0 then Node(mark, child, sibling) else Node(mark, sibling, child)
  }

  lemma ClimbNode(m: seq<Mark>, r: nat, h: nat, page: nat)
    requires Fits(|m|, r, h) && page < Pow2(h) && h > 0
    ensures var (c, rest) := Towards(r, h, page);
            && Fits(|m|, c, h - 1) && Fits(|m|, Sibling(c), h - 1) && rest < Pow2(h - 1)
            && Climb(TreeAt(m, r, h), h, page) ==
               Parent(Lower(m[r - 1], m[Sibling(c) - 1]), c, Climb(TreeAt(m, c, h - 1), h - 1, rest), TreeAt(m, Sibling(c), h - 1))
  {
  }

  lemma {:induction false} LoweredIsClimb(m: seq<Mark>, r: nat, h: nat, page: nat)
    requires |m| % 2 == 1 && Fits(|m|, r, h) && page < Pow2(h)
    ensures TreeAt(Lowered(m, r, h, page), r, h) == Climb(TreeAt(m, r, h), h, page)
    ensures SameOutside(m, Lowered(m, r, h, page), r)
    decreases h
  {
    if h == 0 {
      RootChanged(m, r, h, Empty);
    } else {
      hide SameOutside, TreeAt, Climb, Step, Lowered;
      LoweredNode(m, r, h, page);
      var (c, rest) := Towards(r, h, page);
      LoweredIsClimb(m, c, h - 1, rest);
      OneUp(m, r, h, page);
    }
  }

  lemma OneUp(m: seq<Mark>, r: nat, h: nat, page: nat)
    requires |m| % 2 == 1 && Fits(|m|, r, h) && page < Pow2(h) && h > 0
    requires var (c, rest) := Towards(r, h, page);
             && rest < Pow2(h - 1) && Fits(|m|, c, h - 1)
             && SameOutside(m, Lowered(m, c, h - 1, rest), c)
             && TreeAt(Lowered(m, c, h - 1, rest), c, h - 1) == Climb(TreeAt(m, c, h - 1), h - 1, rest)
    ensures TreeAt(Lowered(m, r, h, page), r, h) == Climb(TreeAt(m, r, h), h, page)
    ensures SameOutside(m, Lowered(m, r, h, page), r)
  {
    hide SameOutside, Fits, Pow2, Step, Lowered, LeafOf, TreeAt, Climb, Perfect, Under;
    var (c, rest) := Towards(r, h, page);
    LoweredNode(m, r, h, page);
    ClimbNode(m, r, h, page);
    ParentLowered(m, Lowered(m, c, h - 1, rest), r, c, Sibling(c), h);
  }

  /** One step of the climb, after changes below node `c`. */
  lemma ParentLowered(m: seq<Mark>, n: seq<Mark>, r: nat, c: nat, s: nat, h: nat)
    requires |m| % 2 == 1 && |n| == |m| && h > 0 && Fits(|m|, r, h)
    requires c != s && c / 2 == s / 2 == r && SameOutside(m, n, c)
    ensures TreeAt(Step(n, c), r, h) == Parent(Lower(m[r - 1], m[s - 1]), c, TreeAt(n, c, h - 1), TreeAt(m, s, h - 1))
    ensures SameOutside(m, Step(n, c), r)
  {
    hide SameOutside;
    ChildChanged(m, n, r, c, s, h);
    RootChanged(n, r, h, Lower(n[r - 1], n[s - 1]));
    Outside(m, n, Step(n, c), r);
  }

  lemma ClimbedStep(m: seq<Mark>, c: nat)
    requires |m| % 2 == 1 && 2 <= c <= |m|
    ensures Climbed(m, c) == Climbed(Step(m, c), c / 2)
  {
  }

  /** Going up from the leaf gives the same marks. */
  lemma {:induction false} ClimbedIsLowered(m: seq<Mark>, r: nat, h: nat, page: nat)
    requires |m| % 2 == 1 && Fits(|m|, r, h) && page < Pow2(h)
    ensures 1 <= LeafOf(r, h, page) <= |m|
    ensures Climbed(m[LeafOf(r, h, page) - 1 := Empty], LeafOf(r, h, page)) == Climbed(Lowered(m, r, h, page), r)
    decreases h
  {
    hide Climbed, Step, Fits;
    LeafFits(|m|, r, h, page);
    if h > 0 {
      hide Lowered, LeafOf, Pow2;
      var (c, rest) := Towards(r, h, page);
      LoweredNode(m, r, h, page);
      ClimbedIsLowered(m, c, h - 1, rest);
      ClimbedStep(Lowered(m, c, h - 1, rest), c);
    }
  }

  lemma PageClimbs(m: seq<Mark>, height: nat, page: nat)
    requires page < Pow2(height) && |m| == 2 * Pow2(height) - 1 && Fits(|m|, 1, height)
    ensures var leaf := page + |m| / 2;
            && TreeAt(Climbed(m[leaf := Empty], leaf + 1), 1, height) == Climb(TreeAt(m, 1, height), height, page)
  {
    hide Climbed, Climb, TreeAt, Fits, Lowered, LeafOf, Step;
    LeafIs(1, height, page);
    ClimbedIsLowered(m, 1, height, page);
    LoweredIsClimb(m, 1, height, page);
    AtRoot(Lowered(m, 1, height, page));
  }

  lemma AtRoot(m: seq<Mark>)
    requires |m| % 2 == 1
    ensures Climbed(m, 1) == m
  {
  }

  // ----- the allocator -----

  class Allocator {
    const height: nat
    var occupied: array<Mark>
    var base: array<int>
    var heapLevel: int

    ghost predicate Valid()
      reads this, occupied, base
    {
      && heapLevel == height + 1
      && occupied.Length == base.Length == 2 * Pow2(height) - 1
      && Fits(occupied.Length, 1, height)
      && base[0] == HEAP_BASE && BasesAt(base[..], 1, height)
    }

    /** The marks as a tree. */
    ghost function Marks(): (t: Tree)
      requires Valid()
      reads this, occupied, base
      ensures Perfect(t, height)
    {
      TreeAt(occupied[..], 1, height)
    }

    constructor CreateHeap(height: nat)
      ensures Valid() && this.height == height && Marks() == AllEmpty(height)
      ensures fresh(occupied) && fresh(base)
    {
      hide BasesAt, TreeAt, Fits, BaseOf, Depth;
      this.height := height;
      var heapSize := 2 * Pow2(height) - 1;
      var memory := PAGE_SIZE * Pow2(height);
      var marks := new Mark[heapSize](_ => Empty);
      var bases := new int[heapSize](_ => NULL);
      var i, level, currentElementsInLevel, maxElementsInLevel := 0, 1, 0, 1;
      while i < heapSize
        invariant 0 <= i <= heapSize && level >= 1
        invariant maxElementsInLevel == Pow2(level - 1) && i + 1 == maxElementsInLevel + currentElementsInLevel
        invariant 0 <= currentElementsInLevel <= maxElementsInLevel && (i > 0 ==> currentElementsInLevel > 0)
        invariant forall k :: 0 <= k < i ==> marks[k] == Empty
        invariant forall k :: 1 <= k <= i ==> bases[k - 1] == BaseOf(height, k)
      {
        if maxElementsInLevel == currentElementsInLevel {
          currentElementsInLevel := 0;
          maxElementsInLevel := maxElementsInLevel * 2;
          level := level + 1;
        }
        marks[i] := Empty;
        EntryIs(height, level - 1, currentElementsInLevel);
        bases[i] := HEAP_BASE + memory / maxElementsInLevel * currentElementsInLevel;
        i, currentElementsInLevel := i + 1, currentElementsInLevel + 1;
      }
      LastLevel(height, level, currentElementsInLevel);
      occupied, base, heapLevel := marks, bases, level;
      new;
      RootFits(heapSize, 1, height);
      EntryIs(height, 0, 0);
      BasesFollow(base[..], height, 1, height);
      EmptyMarks(occupied[..], 1, height);
    }

    /** Searches the subtree of height `h` at node `index`. */
    method GetNextPageRecursive(index: nat, currentLevel: int, level: int, ghost h: nat) returns (page: int)
      requires Valid() && Fits(occupied.Length, index, h) && BasesAt(base[..], index, h)
      requires 0 <= level - currentLevel <= h
      modifies occupied
      ensures Searched(old(occupied[..]), occupied[..], base[..], index, h, level - currentLevel, page)
      decreases h
    {
      hide Searched, Fits, BasesAt;
      ghost var m, d := occupied[..], level - currentLevel;
      SearchedHere(m, base[..], index, h, d);
      Inside(m, base[..], index, h);
      if occupied[index - 1] == Full {
        return NULL;
      }
      if currentLevel == level {
        if occupied[index - 1] == Partial {
          return NULL;
        }
        occupied[index - 1] := Full;
        assert occupied[..] == m[index - 1 := Full];
        return base[index - 1];
      }
      var left := GetNextPageRecursive(2 * index, currentLevel + 1, level, h - 1);
      ghost var n := occupied[..];
      if left == NULL {
        var right := GetNextPageRecursive(2 * index + 1, currentLevel + 1, level, h - 1);
        ghost var o := occupied[..];
        SearchedRight(m, n, o, base[..], index, h, d, right);
        if right == NULL {
          return NULL;
        }
        if occupied[2 * index] == Full {
          occupied[index - 1] := Full;
          assert occupied[..] == o[index - 1 := Full];
        }
        return right;
      }
      SearchedLeft(m, n, base[..], index, h, d, left);
      occupied[index - 1] := Partial;
      assert occupied[..] == n[index - 1 := Partial];
      return left;
    }

    /** The level whose blocks are the smallest that hold `pages` pages. */
    method GetLevel(pages: int) returns (level: int)
      requires Valid() && pages >= 1
      ensures level == heapLevel - Order(pages)
    {
      hide BasesAt, Fits, Pow2;
      var i := 0;
      var rta := pages;
      while rta != 1
        invariant rta >= 1 && i >= 0 && i + Order(rta) == Order(pages)
        decreases rta
      {
        if rta % 2 != 0 {
          rta := rta / 2 + 1;
        } else {
          rta := rta / 2;
        }
        i := i + 1;
      }
      return heapLevel - i;
    }

    /** Hands out the leftmost free block that is large enough, or NULL if there is none. */
    method AllocPage(pages: nat) returns (page: int)
      requires Valid()
      modifies occupied
      ensures Valid() && Marks() == old(AfterAlloc(Marks(), height, pages))
      ensures var r := old(Alloc(Marks(), height, pages));
              page == if r.Some? then HEAP_BASE + PAGE_SIZE * Start(height, r.value.d, r.value.j) else NULL
    {
      if pages == 0 || pages > Pow2(height) {
        return NULL;
      }
      // the level is at most heapLevel, so the source's second guard never fires
      var level := GetLevel(pages);
      OrderFits(height, pages);
      page := GetNextPageRecursive(1, 1, level, height);
    }

    /** Climbs from node `index` to the root. */
    method FreeUpRecursive(index: nat)
      requires occupied.Length % 2 == 1 && 1 <= index <= occupied.Length
      modifies occupied
      ensures occupied[..] == old(Climbed(occupied[..], index))
      decreases index
    {
      if index == 1 {
        return;
      }
      var parent := index / 2 - 1;
      var sibling := Sibling(index) - 1;
      ghost var m := occupied[..];
      if occupied[parent] == Full && occupied[sibling] == Empty {
        occupied[parent] := Empty;
      } else if occupied[parent] == Full && occupied[sibling] == Full {
        occupied[parent] := Partial;
      } else if occupied[parent] == Partial && occupied[sibling] == Empty {
        occupied[parent] := Empty;
      }
      assert occupied[..] == Step(m, index);
      FreeUpRecursive(index / 2);
    }

    /** `isValid` accepts every address. */
    method DeallocPage(page: int) returns (ans: int)
      requires Valid() && HEAP_BASE <= page < HEAP_BASE + PAGE_SIZE * Pow2(height)
      modifies occupied
      ensures Valid() && ans == 0
      ensures (page - HEAP_BASE) / PAGE_SIZE < Pow2(height)
      ensures Marks() == old(Climb(Marks(), height, (page - HEAP_BASE) / PAGE_SIZE))
    {
      hide BasesAt, Climb, Climbed, Pow2, Perfect, TreeAt;
      var index := (page - HEAP_BASE) / PAGE_SIZE;
      var half := occupied.Length / 2;
      ghost var m := occupied[..];
      PageClimbs(m, height, index);
      occupied[index + half] := Empty;
      assert occupied[..] == m[index + half := Empty];
      FreeUpRecursive(index + half + 1);
      ans := 0;
    }
  }

  lemma LastLevel(height: nat, level: nat, count: nat)
    requires level >= 1 && 1 <= count <= Pow2(level - 1) && 2 * Pow2(height) == Pow2(level - 1) + count
    ensures level == height + 1
  {
    if level - 1 < height { Pow2Monotonic(level, height); }
    if level - 1 > height { Pow2Monotonic(height + 1, level - 1); }
  }

  lemma {:induction false} EmptyMarks(m: seq<Mark>, i: nat, h: nat)
    requires Fits(|m|, i, h) && forall k :: 0 <= k < |m| ==> m[k] == Empty
    ensures TreeAt(m, i, h) == AllEmpty(h)
    decreases h
  {
    if h > 0 {
      EmptyMarks(m, 2 * i, h - 1);
      EmptyMarks(m, 2 * i + 1, h - 1);
    }
  }
}
