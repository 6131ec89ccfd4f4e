/** Bytes, and the numbers that runs of bytes denote. */
module Bytes {

  type Byte = b: int | 0 <= b < 256

  function Min(x: nat, y: nat): nat {
    if x < y then x else y
  }

  /** What lies past the end reads as zero. */
  function ByteOrZero(s: seq<Byte>, i: nat): Byte {
    if i < |s| then s[i] else 0
  }

  function Pow256(n: nat): (p: nat)
    ensures p > 0
  {
    if n == 0 then 1 else 256 * Pow256(n - 1)
  }

  /** Little-endian value of a run of bytes. */
  function Le(s: seq<Byte>): nat {
    if s == [] then 0 else s[0] + 256 * Le(s[1..])
  }

  /** A number as `n` little-endian bytes. */
  function LeBytes(v: nat, n: nat): (s: seq<Byte>)
    ensures |s| == n
  {
    if n == 0 then [] else [v % 256] + LeBytes(v / 256, n - 1)
  }

  lemma {:induction false} LeOfBytes(v: nat, n: nat)
    requires v < Pow256(n)
    ensures Le(LeBytes(v, n)) == v
  {
    if n > 0 {
      assert v / 256 < Pow256(n - 1);
      LeOfBytes(v / 256, n - 1);
      assert LeBytes(v, n)[1..] == LeBytes(v / 256, n - 1);
    }
  }

  lemma SliceOfSlice(s: seq<Byte>, from: nat, to: nat, start: nat, end: nat)
    requires from <= start <= end <= to <= |s|
    ensures s[from..to][start - from..end - from] == s[start..end]
  {
    var inner, outer := s[from..to][start - from..end - from], s[start..end];
    forall i | 0 <= i < end - start
      ensures inner[i] == outer[i]
    {
      assert inner[i] == s[from..to][start - from + i] == s[start + i];
    }
    assert inner == outer;
  }

  lemma JoinedSlices(s: seq<Byte>, a: nat, b: nat, c: nat)
    requires a <= b <= c <= |s|
    ensures s[a..b] + s[b..c] == s[a..c]
  {
  }

  /** Concatenation of a list of byte runs. */
  function Concat(runs: seq<seq<Byte>>): seq<Byte> {
    if runs == [] then [] else runs[0] + Concat(runs[1..])
  }

  lemma {:induction false} ConcatAppend(a: seq<seq<Byte>>, b: seq<seq<Byte>>)
    ensures Concat(a + b) == Concat(a) + Concat(b)
  {
    if a == [] {
      assert a + b == b;
    } else {
      assert (a + b)[1..] == a[1..] + b;
      ConcatAppend(a[1..], b);
    }
  }

  lemma ConcatOne(run: seq<Byte>)
    ensures Concat([run]) == run
  {
  }

  lemma ConcatNext(runs: seq<seq<Byte>>, k: nat)
    requires k < |runs|
    ensures Concat(runs[..k + 1]) == Concat(runs[..k]) + runs[k]
    ensures Concat(runs[k..]) == runs[k] + Concat(runs[k + 1..])
  {
    ConcatAppend(runs[..k], [runs[k]]);
    ConcatOne(runs[k]);
    assert runs[..k] + [runs[k]] == runs[..k + 1];
    assert runs[k..][1..] == runs[k + 1..];
  }

  lemma ConcatSplit(runs: seq<seq<Byte>>, k: nat)
    requires k <= |runs|
    ensures Concat(runs) == Concat(runs[..k]) + Concat(runs[k..])
  {
    ConcatAppend(runs[..k], runs[k..]);
    assert runs[..k] + runs[k..] == runs;
  }
}
