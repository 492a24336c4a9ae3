/** Anti-forensic splitting and merging (libs/luks2/src/keyslot.rs). */
module AntiForensic {
  import opened Prelude
  import opened Xts

  const HashLen: nat := 32

  type Hash = seq<u8> -> seq<u8>

  /** Nothing is assumed of the hash but its output length. */
  ghost predicate HashLaw(hash: Hash) {
    forall x :: |hash(x)| == HashLen
  }

  datatype AfError = SizeOverflow | TooManyChunks | MissingLastStripe | SizeMismatch

  function Be32(i: nat): seq<u8> {
    [(i / 0x100_0000 % 256) as u8, (i / 0x1_0000 % 256) as u8, (i / 0x100 % 256) as u8, (i % 256) as u8]
  }

  // ---------- diffusion ----------

  /** Chunk `i` of 32 bytes, or what is left of one. */
  function Chunk(d: seq<u8>, i: nat): seq<u8>
    requires HashLen * i <= |d|
  {
    if HashLen * i + HashLen <= |d| then d[HashLen * i..HashLen * i + HashLen] else d[HashLen * i..]
  }

  /** Each chunk is replaced by the hash of its index and itself, cut to the chunk's length. */
  function DiffusedByte(hash: Hash, d: seq<u8>, p: nat): u8
    requires p < |d|
  {
    var h := hash(Be32(p / HashLen) + Chunk(d, p / HashLen));
    if p % HashLen < |h| then h[p % HashLen] else 0
  }

  function Diffuse(hash: Hash, d: seq<u8>): (r: seq<u8>)
    ensures |r| == |d|
  {
    seq(|d|, p requires 0 <= p < |d| => DiffusedByte(hash, d, p))
  }

  /** The index goes into the hash with its most significant byte first. */
  lemma Be32Order()
    ensures Be32(1) == [0, 0, 0, 1]
  {
  }

  /** The chunks are the whole buffer: each byte is in the chunk of its index, at its place there. */
  lemma ChunkAt(d: seq<u8>, p: nat)
    requires p < |d|
    ensures var c := Chunk(d, p / HashLen);
            p % HashLen < |c| <= HashLen && c[p % HashLen] == d[p]
            && (|c| < HashLen ==> HashLen * (p / HashLen) + |c| == |d|)
  {
  }

  predicate TooLong(len: nat) {
    len > HashLen * U32
  }

  /** The first `n` chunks are diffused and the rest is as it was. */
  ghost predicate DiffusedTo(hash: Hash, d: seq<u8>, now: seq<u8>, n: nat) {
    |now| == |d| && forall p :: 0 <= p < |d| ==> now[p] == if p < HashLen * n then DiffusedByte(hash, d, p) else d[p]
  }

  lemma DiffusedChunk(hash: Hash, d: seq<u8>, now: seq<u8>, i: nat, out: seq<u8>)
    requires HashLaw(hash) && DiffusedTo(hash, d, now, i) && HashLen * i <= |d|
    requires |out| == |Chunk(d, i)| && out == hash(Be32(i) + Chunk(now, i))[..|out|]
    ensures DiffusedTo(hash, d, Put(now, HashLen * i, out), i + 1)
  {
    assert Chunk(now, i) == Chunk(d, i);
    var next := Put(now, HashLen * i, out);
    forall p | 0 <= p < |d| ensures next[p] == if p < HashLen * (i + 1) then DiffusedByte(hash, d, p) else d[p] {
      if HashLen * i <= p < HashLen * (i + 1) {
        assert p / HashLen == i && p % HashLen == p - HashLen * i;
      }
    }
  }

  method WriteChunk(data: array<u8>, at: nat, out: seq<u8>)
    requires at + |out| <= data.Length
    modifies data
    ensures data[..] == Put(old(data[..]), at, out)
  {
    for k := 0 to |out|
      invariant forall p :: 0 <= p < data.Length ==> data[p] == if at <= p < at + k then out[p - at] else old(data[p])
    {
      data[at + k] := out[k];
    }
  }

  /** Diffuses a buffer in place, chunk by chunk and then the remainder. */
  method AfDiffuse(hash: Hash, data: array<u8>) returns (r: Result<(), AfError>)
    requires HashLaw(hash)
    modifies data
    ensures r.Err? <==> TooLong(data.Length)
    ensures r.Ok? ==> data[..] == Diffuse(hash, old(data[..]))
  {
    ghost var d := data[..];
    var chunks := data.Length / HashLen;
    for i := 0 to chunks
      invariant DiffusedTo(hash, d, data[..], i) && i <= U32
    {
      if i >= U32 {
        return Err(TooManyChunks);
      }
      var out := hash(Be32(i) + Chunk(data[..], i));
      DiffusedChunk(hash, d, data[..], i, out);
      WriteChunk(data, HashLen * i, out);
    }
    var rest := data.Length % HashLen;
    if rest != 0 {
      if chunks >= U32 {
        return Err(TooManyChunks);
      }
      var out := hash(Be32(chunks) + Chunk(data[..], chunks))[..rest];
      DiffusedChunk(hash, d, data[..], chunks, out);
      WriteChunk(data, HashLen * chunks, out);
    }
    return Ok(());
  }

  // ---------- stripes ----------

  /** Where stripe `i` of `k`-byte stripes starts. */
  function Pos(k: nat, i: nat): nat {
    if i == 0 then 0 else Pos(k, i - 1) + k
  }

  lemma {:induction false} PosIsProduct(k: nat, i: nat)
    ensures Pos(k, i) == k * i
  {
    if i > 0 {
      PosIsProduct(k, i - 1);
      assert k * i == k * (i - 1) + k;
    }
  }

  lemma {:induction false} PosGrows(k: nat, i: nat, n: nat)
    requires i < n
    ensures Pos(k, i) + k <= Pos(k, n)
  {
    if i < n - 1 { PosGrows(k, i, n - 1); }
  }

  function Stripe(data: seq<u8>, k: nat, i: nat): seq<u8>
    requires Pos(k, i) + k <= |data|
  {
    if i == 0 then data[..k] else data[Pos(k, i)..Pos(k, i) + k]
  }

  function Zeros(k: nat): (r: seq<u8>)
    ensures |r| == k
  {
    seq(k, _ => 0)
  }

  type Diffusion = seq<u8> -> seq<u8>

  ghost predicate KeepsLength(diffuse: Diffusion) {
    forall d :: |diffuse(d)| == |d|
  }

  /** The hash-based diffusion as a function of the buffer. */
  function DiffuseWith(hash: Hash): Diffusion {
    d => Diffuse(hash, d)
  }

  /** The running diffusion after the first `i` stripes. */
  ghost function Mix(diffuse: Diffusion, data: seq<u8>, k: nat, i: nat): (r: seq<u8>)
    requires KeepsLength(diffuse) && Pos(k, i) <= |data|
    ensures |r| == k
  {
    if i == 0 then Zeros(k) else diffuse(Xor(Mix(diffuse, data, k, i - 1), Stripe(data, k, i - 1)))
  }

  lemma StripeAgrees(a: seq<u8>, more: seq<u8>, k: nat, i: nat)
    requires Pos(k, i) + k <= |a|
    ensures Stripe(a + more, k, i) == Stripe(a, k, i)
  {
  }

  /** Later stripes do not change the running diffusion. */
  lemma {:induction false} MixAgrees(diffuse: Diffusion, a: seq<u8>, more: seq<u8>, k: nat, i: nat)
    requires KeepsLength(diffuse) && Pos(k, i) <= |a|
    ensures Mix(diffuse, a + more, k, i) == Mix(diffuse, a, k, i)
  {
    if i > 0 {
      MixAgrees(diffuse, a, more, k, i - 1);
      StripeAgrees(a, more, k, i - 1);
    }
  }

  /** The last stripe hides the key behind the diffusion of all the others. */
  ghost function SplitWith(diffuse: Diffusion, key: seq<u8>, n: nat, random: seq<u8>): seq<u8>
    requires KeepsLength(diffuse) && n > 0 && |random| == Pos(|key|, n - 1)
  {
    random + Xor(key, Mix(diffuse, random, |key|, n - 1))
  }

  ghost function Merged(diffuse: Diffusion, data: seq<u8>, k: nat, n: nat): (r: seq<u8>)
    requires KeepsLength(diffuse) && |data| == Pos(k, n)
    ensures |r| == k
  {
    if n == 0 then Zeros(k) else Xor(Mix(diffuse, data, k, n - 1), Stripe(data, k, n - 1))
  }

  lemma LastStripe(random: seq<u8>, last: seq<u8>, k: nat, n: nat)
    requires n > 0 && |random| == Pos(k, n - 1) && |last| == k
    ensures Stripe(random + last, k, n - 1) == last
  {
  }

  lemma XorZeros(a: seq<u8>)
    ensures Xor(Zeros(|a|), a) == a
  {
    forall i | 0 <= i < |a| ensures Xor(Zeros(|a|), a)[i] == a[i] {
    }
  }

  /** One stripe is the key itself. */
  lemma OneStripe(diffuse: Diffusion, a: seq<u8>)
    requires KeepsLength(diffuse)
    ensures Pos(|a|, 1) == |a| && Merged(diffuse, a, |a|, 1) == a
  {
    assert Pos(|a|, 1) == |a|;
    XorZeros(a);
  }

  /** Of two stripes, the second hides the key behind the diffusion of the first. */
  lemma TwoStripes(diffuse: Diffusion, a: seq<u8>, b: seq<u8>)
    requires KeepsLength(diffuse) && |a| == |b|
    ensures Pos(|a|, 2) == |a + b| && Merged(diffuse, a + b, |a|, 2) == Xor(diffuse(a), b)
  {
    var k := |a|;
    assert Pos(k, 1) == k;
    XorZeros(a);
    StripeAgrees(a, b, k, 0);
    assert Mix(diffuse, a + b, k, 1) == diffuse(a);
    LastStripe(a, b, k, 2);
  }

  lemma XorRecovers(a: seq<u8>, b: seq<u8>)
    requires |a| == |b|
    ensures Xor(a, Xor(b, a)) == b
  {
  }

  /** Merging undoes splitting, for any length-preserving diffusion, key, stripe count and random stripes. */
  lemma MergeUndoesSplit(diffuse: Diffusion, key: seq<u8>, n: nat, random: seq<u8>)
    requires KeepsLength(diffuse) && n > 0 && |random| == Pos(|key|, n - 1)
    ensures |SplitWith(diffuse, key, n, random)| == Pos(|key|, n)
    ensures Merged(diffuse, SplitWith(diffuse, key, n, random), |key|, n) == key
  {
    var mix := Mix(diffuse, random, |key|, n - 1);
    MixAgrees(diffuse, random, Xor(key, mix), |key|, n - 1);
    LastStripe(random, Xor(key, mix), |key|, n);
    XorRecovers(mix, key);
  }

  method MixStripe(diffusion: array<u8>, stripe: seq<u8>)
    requires |stripe| == diffusion.Length
    modifies diffusion
    ensures diffusion[..] == Xor(old(diffusion[..]), stripe)
  {
    for i := 0 to diffusion.Length
      invariant forall p :: 0 <= p < diffusion.Length ==>
                  diffusion[p] == if p < i then old(diffusion[p]) ^ stripe[p] else old(diffusion[p])
    {
      diffusion[i] := diffusion[i] ^ stripe[i];
    }
  }

  method MixAndDiffuse(hash: Hash, diffusion: array<u8>, stripe: seq<u8>) returns (r: Result<(), AfError>)
    requires HashLaw(hash) && |stripe| == diffusion.Length
    modifies diffusion
    ensures r.Err? <==> TooLong(diffusion.Length)
    ensures r.Ok? ==> diffusion[..] == Diffuse(hash, Xor(old(diffusion[..]), stripe))
  {
    MixStripe(diffusion, stripe);
    r := AfDiffuse(hash, diffusion);
  }

  /** Mixes and diffuses the first `m` stripes. */
  method MixStripes(hash: Hash, diffusion: array<u8>, data: seq<u8>, m: nat) returns (r: Result<(), AfError>)
    requires HashLaw(hash) && |data| >= Pos(diffusion.Length, m) && diffusion[..] == Zeros(diffusion.Length)
    modifies diffusion
    ensures r.Err? <==> m > 0 && TooLong(diffusion.Length)
    ensures r.Ok? ==> diffusion[..] == Mix(DiffuseWith(hash), data, diffusion.Length, m)
  {
    var k := diffusion.Length;
    for i := 0 to m
      invariant Pos(k, i) <= |data| && diffusion[..] == Mix(DiffuseWith(hash), data, k, i)
      invariant i > 0 ==> !TooLong(k)
    {
      PosGrows(k, i, m);
      r := MixAndDiffuse(hash, diffusion, Stripe(data, k, i));
      if r.Err? {
        return;
      }
    }
    return Ok(());
  }

  /** Splits a key into stripes; `random` is what the generator fills all but the last with. */
  method AfSplit(hash: Hash, key: seq<u8>, stripes: nat, random: seq<u8>) returns (r: Result<seq<u8>, AfError>)
    requires HashLaw(hash) && |key| > 0 && (stripes > 0 ==> |random| == Pos(|key|, stripes - 1))
    ensures r.Ok? <==> 0 < stripes && |key| * stripes < U64 && (stripes > 1 ==> !TooLong(|key|))
    ensures r.Ok? ==> r.value == SplitWith(DiffuseWith(hash), key, stripes, random)
  {
    if |key| * stripes >= U64 {
      return Err(SizeOverflow);
    }
    if stripes == 0 {
      return Err(MissingLastStripe);
    }
    var diffusion := new u8[|key|](_ => 0);
    assert diffusion[..] == Zeros(|key|);
    var mixed := MixStripes(hash, diffusion, random, stripes - 1);
    if mixed.Err? {
      return Err(mixed.error);
    }
    return Ok(random + Xor(key, diffusion[..]));
  }

  method AfMerge(hash: Hash, data: seq<u8>, keySize: nat, stripes: nat) returns (r: Result<seq<u8>, AfError>)
    requires HashLaw(hash) && keySize > 0
    ensures r.Ok? <==> keySize * stripes < U64 && |data| == keySize * stripes && (stripes > 1 ==> !TooLong(keySize))
    ensures r.Ok? ==> |data| == Pos(keySize, stripes) && r.value == Merged(DiffuseWith(hash), data, keySize, stripes)
  {
    if keySize * stripes >= U64 {
      return Err(SizeOverflow);
    }
    if |data| != keySize * stripes {
      return Err(SizeMismatch);
    }
    PosIsProduct(keySize, stripes);
    var diffusion := new u8[keySize](_ => 0);
    assert diffusion[..] == Zeros(keySize);
    if stripes == 0 {
      return Ok(diffusion[..]);
    }
    var mixed := MixStripes(hash, diffusion, data, stripes - 1);
    if mixed.Err? {
      return Err(mixed.error);
    }
    MixStripe(diffusion, Stripe(data, keySize, stripes - 1));
    return Ok(diffusion[..]);
  }
}
