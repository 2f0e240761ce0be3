/**
 Program counters of a set of processes, and the processes that are at some place in their code.
 */
module Programs {

  function Where<Pc>(pcs: map<int, Pc>, where: Pc -> bool): set<int> {
    set p | p in pcs && where(pcs[p])
  }

  function Ind(b: bool): int { if b then 1 else 0 }

  /** How many processes a region gains when one goes from `pc` to `pc'`. */
  function Gain<Pc>(where: Pc -> bool, pc: Pc, pc': Pc): int { Ind(where(pc')) - Ind(where(pc)) }

  lemma Move<Pc>(pcs: map<int, Pc>, p: int, pc: Pc, where: Pc -> bool)
    ensures Where(pcs[p := pc], where) == if where(pc) then Where(pcs, where) + {p} else Where(pcs, where) - {p}
  {
  }

  lemma MoveOne<Pc>(pcs: map<int, Pc>, p: int, pc: Pc, where: Pc -> bool)
    requires p in pcs
    ensures |Where(pcs[p := pc], where)| == |Where(pcs, where)| + Gain(where, pcs[p], pc)
    ensures Where(pcs, where) - {p} <= Where(pcs[p := pc], where)
    ensures where(pc) ==> p in Where(pcs[p := pc], where)
  {
    Move(pcs, p, pc, where);
  }

  /** A new process that starts outside a region leaves it alone. */
  lemma Join<Pc>(pcs: map<int, Pc>, p: int, pc: Pc, where: Pc -> bool)
    requires p !in pcs && !where(pc)
    ensures Where(pcs[p := pc], where) == Where(pcs, where)
  {
    Move(pcs, p, pc, where);
    assert p !in Where(pcs, where);
  }

  lemma OneIn<Pc>(pcs: map<int, Pc>, where: Pc -> bool, p: int)
    requires p in pcs && forall q :: q in pcs && where(pcs[q]) ==> q == p
    ensures |Where(pcs, where)| == Ind(where(pcs[p]))
  {
    var w := Where(pcs, where);
    forall q | q in w ensures q == p {
      assert where(pcs[q]);
    }
    if where(pcs[p]) {
      assert w == {p};
    } else {
      assert p !in w;
      assert w == {};
    }
  }

  lemma Difference(a: set<int>, b: set<int>)
    requires b <= a
    ensures |a - b| == |a| - |b|
  {
    assert a == (a - b) + b;
  }

  lemma Subset(a: set<int>, b: set<int>, x: int)
    requires a <= b && x !in a
    ensures |a| <= |b| && (x in b ==> |a| < |b|)
  {
    Difference(b, a);
    if x in b { assert x in b - a; }
  }

  /** Queued processes stay inside the region of their call when only `p` moves. */
  lemma Follow(queued: set<int>, queued': set<int>, region: set<int>, region': set<int>, p: int)
    requires queued <= region && p !in queued && region - {p} <= region'
    requires queued' <= queued + {p} && (p in queued' ==> p in region')
    ensures queued' <= region'
  {
  }
}
