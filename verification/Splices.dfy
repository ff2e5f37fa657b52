/** Reading and overwriting a stretch of a buffer, the effect of `memcpy` on what it copies from and to. */
module Splices {

  /** `n` elements from `from` on. */
  function Slice<T>(s: seq<T>, from: nat, n: nat): (r: seq<T>)
    requires from + n <= |s|
    ensures |r| == n
  {
    s[from..from + n]
  }

  /** `s` with the elements from `at` on overwritten by `b`. */
  function Splice<T>(s: seq<T>, at: nat, b: seq<T>): (r: seq<T>)
    requires at + |b| <= |s|
    ensures |r| == |s|
  {
    s[..at] + b + s[at + |b|..]
  }

  /** `n` times the same element: what `memset` writes. */
  function Repeated<T>(v: T, n: nat): (r: seq<T>)
    ensures |r| == n
  {
    seq(n, _ => v)
  }

  lemma SliceOfSplice<T>(s: seq<T>, at: nat, b: seq<T>, from: nat, n: nat)
    requires at + |b| <= |s| && from + n <= |s|
    ensures from + n <= at || at + |b| <= from ==> Slice(Splice(s, at, b), from, n) == Slice(s, from, n)
    ensures from == at && n == |b| ==> Slice(Splice(s, at, b), from, n) == b
  {
  }

  lemma SpliceInSlice<T>(s: seq<T>, from: nat, n: nat, off: nat, b: seq<T>)
    requires from + n <= |s| && off + |b| <= n
    ensures Slice(Splice(s, from + off, b), from, n) == Splice(Slice(s, from, n), off, b)
  {
  }

  /** A part of a slice. */
  lemma PartOfSlice<T>(s: seq<T>, from: nat, n: nat, a: nat, b: nat)
    requires a <= b <= n && from + n <= |s|
    ensures Slice(s, from, n)[a..b] == s[from + a..from + b]
  {
    var left, right := Slice(s, from, n)[a..b], s[from + a..from + b];
    forall k: nat | k < b - a
      ensures left[k] == right[k]
    {
      assert left[k] == s[from..from + n][a + k];
    }
  }

  lemma SpliceNothing<T>(s: seq<T>, at: nat, b: seq<T>)
    requires at <= |s| && b == []
    ensures Splice(s, at, b) == s
  {
  }

  lemma SpliceAll<T>(s: seq<T>, b: seq<T>)
    requires |b| == |s|
    ensures Splice(s, 0, b) == b
  {
  }

  lemma SlicePrefix<T>(s: seq<T>, from: nat, n: nat, k: nat)
    requires k <= n && from + n <= |s|
    ensures s[from..from + k] == Slice(s, from, n)[..k]
  {
  }

  /** `memcpy(dst + at, src, n)` between two buffers. */
  method CopyInto<T>(dst: array<T>, at: nat, src: seq<T>)
    requires at + |src| <= dst.Length
    modifies dst
    ensures dst[..] == Splice(old(dst[..]), at, src)
  {
    forall k | 0 <= k < |src| {
      dst[at + k] := src[k];
    }
  }
}
