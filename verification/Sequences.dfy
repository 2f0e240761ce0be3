/** Sequences without repetitions, and with one element added or taken out. */
module Sequences {

  predicate AllDifferent<T(==)>(s: seq<T>) {
    forall i, j :: 0 <= i < j < |s| ==> s[i] != s[j]
  }

  function Without<T>(s: seq<T>, k: nat): seq<T>
    requires k < |s|
  {
    s[..k] + s[k + 1..]
  }

  function With<T>(s: seq<T>, k: nat, x: T): seq<T>
    requires k <= |s|
  {
    s[..k] + [x] + s[k..]
  }

  lemma WithoutAt<T>(s: seq<T>, k: nat)
    requires k < |s|
    ensures |Without(s, k)| == |s| - 1
    ensures forall i :: 0 <= i < k ==> Without(s, k)[i] == s[i]
    ensures forall i :: k <= i < |s| - 1 ==> Without(s, k)[i] == s[i + 1]
  {
  }

  lemma WithAt<T>(s: seq<T>, k: nat, x: T)
    requires k <= |s|
    ensures |With(s, k, x)| == |s| + 1 && With(s, k, x)[k] == x
    ensures forall i :: 0 <= i < k ==> With(s, k, x)[i] == s[i]
    ensures forall i :: k < i < |s| + 1 ==> With(s, k, x)[i] == s[i - 1]
  {
  }

  lemma WithIsDifferent<T>(s: seq<T>, k: nat, x: T)
    requires AllDifferent(s) && k <= |s| && x !in s
    ensures AllDifferent(With(s, k, x))
  {
  }

  lemma WithoutIsDifferent<T>(s: seq<T>, k: nat)
    requires AllDifferent(s) && k < |s|
    ensures AllDifferent(Without(s, k))
  {
  }
}
