/** Little-endian integers and in-place writes on byte buffers. */
module Bytes {
  import opened Prelude

  type byte = b: nat | b < 256

  function Pow256(n: nat): nat {
    if n == 0 then 1 else 256 * Pow256(n - 1)
  }

  lemma PowersOf256()
    ensures Pow256(2) == 65536 && Pow256(4) == 0x1_0000_0000 && Pow256(8) == 0x1_0000_0000_0000_0000
  {
  }

  /** The `n` little-endian bytes of `v`. */
  function LeBytes(v: nat, n: nat): (r: seq<byte>)
    ensures |r| == n
    decreases n
  {
    if n == 0 then [] else [v % 256] + LeBytes(v / 256, n - 1)
  }

  /** The little-endian value of `n` bytes at `pos`. */
  function LeAt(buf: seq<byte>, pos: nat, n: nat): nat
    requires pos + n <= |buf|
    decreases n
  {
    if n == 0 then 0 else buf[pos] + 256 * LeAt(buf, pos + 1, n - 1)
  }

  /** The least significant byte comes first. */
  lemma LeOrder()
    ensures LeBytes(0x0102_0304, 4) == [4, 3, 2, 1] && LeAt([4, 3, 2, 1], 0, 4) == 0x0102_0304
  {
  }

  /** `v` is what `buf` holds from `pos` on. */
  ghost predicate HoldsAt(buf: seq<byte>, pos: nat, v: seq<byte>) {
    pos + |v| <= |buf| && forall k :: 0 <= k < |v| ==> buf[pos + k] == v[k]
  }

  lemma HoldsSlice(buf: seq<byte>, pos: nat, v: seq<byte>)
    requires HoldsAt(buf, pos, v)
    ensures Cut(buf, pos, |v|) == v
  {
  }

  lemma {:induction false} LeRoundTrip(buf: seq<byte>, pos: nat, v: nat, n: nat)
    requires HoldsAt(buf, pos, LeBytes(v, n)) && v < Pow256(n)
    ensures LeAt(buf, pos, n) == v
    decreases n
  {
    if n > 0 {
      var rest := LeBytes(v / 256, n - 1);
      forall k | 0 <= k < |rest| ensures buf[pos + 1 + k] == rest[k] {
        assert buf[pos + (k + 1)] == LeBytes(v, n)[k + 1];
      }
      LeRoundTrip(buf, pos + 1, v / 256, n - 1);
      assert buf[pos + 0] == LeBytes(v, n)[0];
    }
  }

  lemma LeAppended(buf: seq<byte>, v: nat, n: nat)
    requires v < Pow256(n)
    ensures LeAt(buf + LeBytes(v, n), |buf|, n) == v
  {
    LeRoundTrip(buf + LeBytes(v, n), |buf|, v, n);
  }

  lemma {:induction false} LeAtSurvives(buf: seq<byte>, more: seq<byte>, pos: nat, n: nat)
    requires pos + n <= |buf|
    ensures LeAt(buf + more, pos, n) == LeAt(buf, pos, n)
    decreases n
  {
    if n > 0 { LeAtSurvives(buf, more, pos + 1, n - 1); }
  }

  /** Writes `v` if it fits, and reports whether it did. */
  method WriteBytes(buf: array<byte>, at: nat, v: seq<byte>) returns (ok: bool)
    modifies buf
    ensures ok <==> at + |v| <= buf.Length
    ensures buf[..] == if ok then Put(old(buf[..]), at, v) else old(buf[..])
  {
    if at + |v| > buf.Length {
      return false;
    }
    for k := 0 to |v|
      invariant forall p :: 0 <= p < buf.Length ==> buf[p] == if at <= p < at + k then v[p - at] else old(buf[p])
    {
      buf[at + k] := v[k];
    }
    return true;
  }
}
