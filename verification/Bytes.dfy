/** Bytes, and 32-bit words with the low byte first. */
module Bytes {
  type Byte = b: int | 0 <= b < 256

  const TWO32 := 0x1_0000_0000

  /** The low 32 bits of `n`. */
  function Word(n: nat): (w: seq<Byte>)
    ensures |w| == 4
  {
    [n % 256, n / 256 % 256, n / 256 / 256 % 256, n / 256 / 256 / 256 % 256]
  }

  function FromWord(w: seq<Byte>): (n: nat)
    requires |w| == 4
    ensures n < TWO32
  {
    w[0] as int + 256 * (w[1] as int) + 65536 * (w[2] as int) + 16777216 * (w[3] as int)
  }

  lemma WordRoundTrip(n: nat)
    ensures FromWord(Word(n)) == n % TWO32
  {
    var a := n / 256;
    var b := a / 256;
    var c := b / 256;
    assert n == FromWord(Word(n)) + TWO32 * (c / 256);
  }

  /** A word is determined by its value. */
  lemma WordIs(w: seq<Byte>, n: nat)
    requires |w| == 4 && FromWord(w) == n % TWO32
    ensures w == Word(n)
  {
    WordRoundTrip(n);
    Digits(w, Word(n));
  }

  lemma Digits(v: seq<Byte>, w: seq<Byte>)
    requires |v| == |w| == 4 && FromWord(v) == FromWord(w)
    ensures v == w
  {
    assert v[0] as int - w[0] as int == 256 * ((w[1] as int - v[1] as int) + 256 * (w[2] as int - v[2] as int) + 65536 * (w[3] as int - v[3] as int));
    assert v[0] == w[0];
    assert v[1] as int - w[1] as int == 256 * ((w[2] as int - v[2] as int) + 256 * (w[3] as int - v[3] as int));
    assert v[1] == w[1];
  }

  /** The bytes with `data` put at `at`. */
  function Put(bytes: seq<Byte>, at: nat, data: seq<Byte>): (r: seq<Byte>)
    requires at + |data| <= |bytes|
    ensures |r| == |bytes|
    ensures r[at..at + |data|] == data
    ensures forall k :: 0 <= k < |bytes| && !(at <= k < at + |data|) ==> r[k] == bytes[k]
  {
    bytes[..at] + data + bytes[at + |data|..]
  }

  /** Writing on after the first `i` bytes. */
  lemma PutMore(bytes: seq<Byte>, at: nat, data: seq<Byte>, i: nat)
    requires at + |data| <= |bytes| && i < |data|
    ensures Put(bytes, at, data[..i + 1]) == Put(bytes, at, data[..i])[at + i := data[i]]
  {
  }

  lemma PutIs(bytes: seq<Byte>, at: nat, data: seq<Byte>, r: seq<Byte>)
    requires at + |data| <= |bytes| == |r|
    requires forall k :: 0 <= k < |data| ==> r[at + k] == data[k]
    requires forall k :: 0 <= k < |bytes| && !(at <= k < at + |data|) ==> r[k] == bytes[k]
    ensures r == Put(bytes, at, data)
  {
    forall k | 0 <= k < |bytes| ensures r[k] == Put(bytes, at, data)[k] {
      if at <= k < at + |data| { assert r[at + (k - at)] == data[k - at]; }
    }
  }

  predicate Disjoint(a: nat, n: nat, b: nat, m: nat) {
    a + n <= b || b + m <= a
  }

  /** A slice that is not written to. */
  lemma SliceKept(bytes: seq<Byte>, at: nat, data: seq<Byte>, from: nat, n: nat)
    requires at + |data| <= |bytes| && from + n <= |bytes| && Disjoint(at, |data|, from, n)
    ensures Put(bytes, at, data)[from..from + n] == bytes[from..from + n]
  {
  }

  lemma SubSlice(bytes: seq<Byte>, from: nat, n: nat, i: nat, j: nat)
    requires i <= j <= n && from + n <= |bytes|
    ensures bytes[from..from + n][i..j] == bytes[from + i..from + j]
  {
    var (s, t) := (bytes[from..from + n][i..j], bytes[from + i..from + j]);
    assert |s| == |t|;
    forall k | 0 <= k < |s| ensures s[k] == t[k] {
      assert s[k] == bytes[from..from + n][i + k] == bytes[from + i + k];
    }
  }

  lemma SplitSlice(bytes: seq<Byte>, from: nat, data: seq<Byte>, i: nat)
    requires from + |data| <= |bytes| && bytes[from..from + |data|] == data && i <= |data|
    ensures bytes[from..from + i] == data[..i] && bytes[from + i..from + |data|] == data[i..]
  {
    SubSlice(bytes, from, |data|, 0, i);
    SubSlice(bytes, from, |data|, i, |data|);
  }

  /** Three parts that stand one after the other. */
  lemma Parts(bytes: seq<Byte>, at: nat, a: seq<Byte>, b: seq<Byte>, c: seq<Byte>)
    requires at + |a| + |b| + |c| <= |bytes| && bytes[at..at + |a| + |b| + |c|] == a + b + c
    ensures bytes[at..at + |a|] == a
    ensures bytes[at + |a|..at + |a| + |b|] == b
    ensures bytes[at + |a| + |b|..at + |a| + |b| + |c|] == c
  {
    var s := a + b + c;
    SubSlice(bytes, at, |s|, 0, |a|);
    SubSlice(bytes, at, |s|, |a|, |a| + |b|);
    SubSlice(bytes, at, |s|, |a| + |b|, |s|);
    assert s[..|a|] == a && s[|a|..|a| + |b|] == b && s[|a| + |b|..] == c;
  }
}
