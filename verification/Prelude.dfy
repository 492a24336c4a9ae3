/** Shared result types and writes into a sequence. */
module Prelude {
  datatype Option<+T> = None | Some(value: T)

  datatype Result<+T, +E> = Ok(value: T) | Err(error: E)

  const U32: nat := 0x1_0000_0000
  const U64: nat := 0x1_0000_0000_0000_0000

  /** The `len` elements from `at` on. */
  function Cut<T>(s: seq<T>, at: nat, len: nat): (r: seq<T>)
    requires at + len <= |s|
    ensures |r| == len
  {
    seq(len, k requires 0 <= k < len => s[at + k])
  }

  /** `b` with `v` written over it at `at`. */
  function Put<T>(b: seq<T>, at: nat, v: seq<T>): (r: seq<T>)
    requires at + |v| <= |b|
    ensures |r| == |b|
    ensures forall p :: 0 <= p < |b| ==> r[p] == if at <= p < at + |v| then v[p - at] else b[p]
  {
    b[..at] + v + b[at + |v|..]
  }

  lemma PutGet<T>(b: seq<T>, at: nat, v: seq<T>)
    requires at + |v| <= |b|
    ensures Cut(Put(b, at, v), at, |v|) == v
  {
  }

  lemma PutTwice<T>(b: seq<T>, at: nat, v: seq<T>, w: seq<T>)
    requires at + |v| <= |b| && |w| == |v|
    ensures Put(Put(b, at, v), at, w) == Put(b, at, w)
  {
  }
}
