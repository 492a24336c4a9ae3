/** AES-XTS over an uninterpreted block cipher (libs/luks2/src/xts.rs). */
module Xts {
  import opened Prelude

  type u8 = bv8

  /** A keyed block cipher; nothing about it is assumed beyond `Lawful`. */
  datatype Cipher = Cipher(enc: (seq<u8>, seq<u8>) -> seq<u8>, dec: (seq<u8>, seq<u8>) -> seq<u8>)

  /** Both directions map 16-byte blocks to 16-byte blocks and undo each other, for every 32-byte key. */
  ghost predicate Lawful(c: Cipher) {
    forall k, b :: |k| == 32 && |b| == 16 ==>
      |c.enc(k, b)| == 16 && |c.dec(k, b)| == 16 && c.dec(k, c.enc(k, b)) == b && c.enc(k, c.dec(k, b)) == b
  }

  datatype Mode = Encrypt | Decrypt

  datatype XtsError = BadKeyLength | DataTooShort

  function Apply(c: Cipher, mode: Mode, key: seq<u8>, block: seq<u8>): seq<u8> {
    match mode case Encrypt => c.enc(key, block) case Decrypt => c.dec(key, block)
  }

  // ---------- masking ----------

  /** `a` with the bytes of `b` mixed in, as far as both reach. */
  function Xor(a: seq<u8>, b: seq<u8>): (r: seq<u8>)
    ensures |r| == |a|
  {
    seq(|a|, i requires 0 <= i < |a| => if i < |b| then a[i] ^ b[i] else a[i])
  }

  lemma XorUndoes(a: seq<u8>, b: seq<u8>)
    ensures Xor(Xor(a, b), b) == a
  {
  }

  // ---------- the tweak as a polynomial over GF(2) ----------

  function Bit(b: u8, j: nat): bool
    requires j < 8
  {
    match j
    case 0 => b & 1 != 0
    case 1 => b & 2 != 0
    case 2 => b & 4 != 0
    case 3 => b & 8 != 0
    case 4 => b & 16 != 0
    case 5 => b & 32 != 0
    case 6 => b & 64 != 0
    case 7 => b & 128 != 0
  }

  /** The coefficient of x^k in a little-endian block. */
  function Coef(t: seq<u8>, k: nat): bool
    requires k < 8 * |t|
  {
    Bit(t[k / 8], k % 8)
  }

  /** x^128 + x^7 + x^2 + x + 1. */
  predicate Modulus(k: nat) {
    k == 128 || k == 7 || k == 2 || k == 1 || k == 0
  }

  function ShiftIn(b: u8, carry: u8): u8 {
    (b << 1) | carry
  }

  function CarryInto(t: seq<u8>, i: nat): u8
    requires i <= |t|
  {
    if i == 0 then 0 else t[i - 1] >> 7
  }

  /** What the in-place doubling computes. */
  function MulX(t: seq<u8>): (r: seq<u8>)
    ensures |r| == |t|
  {
    seq(|t|, i requires 0 <= i < |t| =>
      var b := ShiftIn(t[i], CarryInto(t, i));
      if i == 0 && CarryInto(t, |t|) == 1 then b ^ 0x87 else b)
  }

  lemma ShiftBits(b: u8, c: u8, j: nat)
    requires j < 8
    ensures Bit(ShiftIn(b, c >> 7), j) == if j == 0 then Bit(c, 7) else Bit(b, j - 1)
  {
  }

  lemma ReduceBits(b: u8, j: nat)
    requires j < 8
    ensures Bit(b ^ 0x87, j) == (Bit(b, j) != (j == 0 || j == 1 || j == 2 || j == 7))
  {
  }

  lemma CarryIsTopBit(b: u8)
    ensures b >> 7 == 1 <==> Bit(b, 7)
  {
  }

  /** The bit just below bit `j` of byte `i`. */
  function BitBelow(t: seq<u8>, i: nat, j: nat): bool
    requires i < |t| && j < 8
  {
    if j > 0 then Bit(t[i], j - 1) else i > 0 && Bit(t[i - 1], 7)
  }

  lemma MulXBit(t: seq<u8>, i: nat, j: nat)
    requires |t| == 16 && i < 16 && j < 8
    ensures Bit(MulX(t)[i], j) ==
            (BitBelow(t, i, j) != (i == 0 && Bit(t[15], 7) && (j == 0 || j == 1 || j == 2 || j == 7)))
  {
    CarryIsTopBit(t[15]);
    var prev: u8 := if i == 0 then 0 else t[i - 1];
    assert CarryInto(t, i) == prev >> 7;
    ShiftBits(t[i], prev, j);
    ReduceBits(ShiftIn(t[i], prev >> 7), j);
  }

  lemma CoefBelow(t: seq<u8>, k: nat)
    requires |t| == 16 && k < 128
    ensures BitBelow(t, k / 8, k % 8) == (k > 0 && Coef(t, k - 1))
  {
  }

  /** Doubling is multiplication by x: x * t and the result differ by t's top coefficient times the modulus. */
  lemma MulXIsTimesX(t: seq<u8>, k: nat)
    requires |t| == 16 && k <= 128
    ensures ((k > 0 && Coef(t, k - 1)) != (k < 128 && Coef(MulX(t), k))) <==> (Coef(t, 127) && Modulus(k))
  {
    if k < 128 {
      MulXBit(t, k / 8, k % 8);
      CoefBelow(t, k);
    }
  }

  method Gf128MulX(tweak: array<u8>)
    requires tweak.Length == 16
    modifies tweak
    ensures tweak[..] == MulX(old(tweak[..]))
  {
    ghost var t := tweak[..];
    var carry: u8 := 0;
    for i := 0 to 16
      invariant carry == CarryInto(t, i)
      invariant forall p :: 0 <= p < i ==> tweak[p] == ShiftIn(t[p], CarryInto(t, p))
      invariant forall p :: i <= p < 16 ==> tweak[p] == t[p]
    {
      var newCarry := tweak[i] >> 7;
      tweak[i] := (tweak[i] << 1) | carry;
      carry := newCarry;
    }
    if carry == 1 {
      tweak[0] := tweak[0] ^ 0x87;
    }
  }

  // ---------- the mode of operation ----------

  /** One masked block: mask, cipher, mask again. */
  function Crypt(c: Cipher, mode: Mode, key: seq<u8>, t: seq<u8>, block: seq<u8>): seq<u8> {
    Xor(Apply(c, mode, key, Xor(block, t)), t)
  }

  lemma CryptUndoes(c: Cipher, key: seq<u8>, t: seq<u8>, block: seq<u8>)
    requires Lawful(c) && |key| == 32 && |block| == 16
    ensures |Crypt(c, Encrypt, key, t, block)| == 16 && |Crypt(c, Decrypt, key, t, block)| == 16
    ensures Crypt(c, Decrypt, key, t, Crypt(c, Encrypt, key, t, block)) == block
  {
    var masked := Xor(block, t);
    XorUndoes(c.enc(key, masked), t);
    XorUndoes(block, t);
  }

  /** The tweak times x^j. */
  function Tweak(t: seq<u8>, j: nat): (r: seq<u8>)
    ensures |r| == |t|
  {
    if j == 0 then t else MulX(Tweak(t, j - 1))
  }

  /** The first power is the doubling, and powers add up; this determines all of them. */
  lemma {:induction false} TweakAdds(t: seq<u8>, i: nat, j: nat)
    ensures Tweak(t, 0) == t && Tweak(t, 1) == MulX(t)
    ensures Tweak(Tweak(t, i), j) == Tweak(t, i + j)
  {
    if j > 0 { TweakAdds(t, i, j - 1); }
  }

  lemma XorSwaps(a: seq<u8>, b: seq<u8>, d: seq<u8>)
    requires |a| == |b| == |d|
    ensures Xor(Xor(a, d), Xor(b, d)) == Xor(a, b) && Xor(a, Xor(b, d)) == Xor(Xor(a, b), d)
  {
  }

  lemma XorZero(a: seq<u8>, zero: seq<u8>)
    requires |zero| == |a| && forall k :: 0 <= k < |zero| ==> zero[k] == 0
    ensures Xor(a, zero) == a
  {
    forall k | 0 <= k < |a| ensures Xor(a, zero)[k] == a[k] {
    }
  }

  /** Masking is linear: what is added to both tweak and block is added to the result; a zero tweak is the cipher. */
  lemma CryptMasks(c: Cipher, mode: Mode, key: seq<u8>, t: seq<u8>, block: seq<u8>, d: seq<u8>)
    requires Lawful(c) && |key| == 32 && |block| == |t| == |d| == 16
    ensures Crypt(c, mode, key, Xor(t, d), Xor(block, d)) == Xor(Crypt(c, mode, key, t, block), d)
    ensures (forall k :: 0 <= k < 16 ==> t[k] == 0) ==> Crypt(c, mode, key, t, block) == Apply(c, mode, key, block)
  {
    XorSwaps(block, t, d);
    XorSwaps(Apply(c, mode, key, Xor(block, t)), t, d);
    if forall k :: 0 <= k < 16 ==> t[k] == 0 { XorZero(block, t); XorZero(Apply(c, mode, key, block), t); }
  }

  function BlockOf(data: seq<u8>, j: nat): seq<u8>
    requires 16 * j + 16 <= |data|
  {
    Cut(data, 16 * j, 16)
  }

  /** Block `j` went through the cipher, masked with the tweak times x^j. */
  ghost predicate BlockDone(c: Cipher, mode: Mode, key: seq<u8>, t: seq<u8>, before: seq<u8>, after: seq<u8>, j: nat)
    requires 16 * j + 16 <= |before| == |after|
  {
    BlockOf(after, j) == Crypt(c, mode, key, Tweak(t, j), BlockOf(before, j))
  }

  /** The first `n` blocks of `before` went through the cipher, block `j` masked with the tweak times x^j. */
  ghost predicate Processed(c: Cipher, mode: Mode, key: seq<u8>, t: seq<u8>, before: seq<u8>, after: seq<u8>, n: nat) {
    |before| == |after| && 16 * n <= |before|
    && (forall j :: 0 <= j < n ==> BlockDone(c, mode, key, t, before, after, j))
    && (forall p :: 16 * n <= p < |before| ==> after[p] == before[p])
  }

  lemma SameBlocks(a: seq<u8>, b: seq<u8>, n: nat)
    requires |a| == |b| && 16 * n <= |a|
    requires forall j :: 0 <= j < n ==> BlockOf(a, j) == BlockOf(b, j)
    requires forall p :: 16 * n <= p < |a| ==> a[p] == b[p]
    ensures a == b
  {
    forall p | 0 <= p < 16 * n ensures a[p] == b[p] {
      var j := p / 16;
      assert a[p] == BlockOf(a, j)[p - 16 * j] && b[p] == BlockOf(b, j)[p - 16 * j];
    }
  }

  /** Decrypting undoes encrypting, whatever the data's length; a partial last block was never touched. */
  lemma ProcessedUndoes(c: Cipher, key: seq<u8>, t: seq<u8>, a: seq<u8>, b: seq<u8>, d: seq<u8>, n: nat)
    requires Lawful(c) && |key| == 32
    requires Processed(c, Encrypt, key, t, a, b, n) && Processed(c, Decrypt, key, t, b, d, n)
    ensures d == a
  {
    forall j | 0 <= j < n ensures BlockOf(d, j) == BlockOf(a, j) {
      assert BlockDone(c, Encrypt, key, t, a, b, j) && BlockDone(c, Decrypt, key, t, b, d, j);
      CryptUndoes(c, key, Tweak(t, j), BlockOf(a, j));
    }
    SameBlocks(d, a, n);
  }

  /** What the data becomes is determined. */
  lemma ProcessedDeterministic(c: Cipher, mode: Mode, key: seq<u8>, t: seq<u8>, a: seq<u8>, b: seq<u8>, d: seq<u8>,
                               n: nat)
    requires Processed(c, mode, key, t, a, b, n) && Processed(c, mode, key, t, a, d, n)
    ensures b == d
  {
    forall j | 0 <= j < n ensures BlockOf(b, j) == BlockOf(d, j) {
      assert BlockDone(c, mode, key, t, a, b, j) && BlockDone(c, mode, key, t, a, d, j);
    }
    SameBlocks(b, d, n);
  }

  lemma XorWritten(d: seq<u8>, at: nat, t: seq<u8>, now: seq<u8>)
    requires at + 16 <= |d| == |now| && |t| == 16
    requires forall p :: 0 <= p < |d| ==> now[p] == if at <= p < at + 16 then d[p] ^ t[p - at] else d[p]
    ensures now == Put(d, at, Xor(Cut(d, at, 16), t))
  {
  }

  method XorBlock(data: array<u8>, at: nat, tweak: array<u8>)
    requires at + 16 <= data.Length && tweak.Length == 16 && data != tweak
    modifies data
    ensures data[..] == Put(old(data[..]), at, Xor(Cut(old(data[..]), at, 16), tweak[..]))
  {
    ghost var d, t := data[..], tweak[..];
    for i := 0 to 16
      invariant forall p :: 0 <= p < data.Length ==> data[p] == if at <= p < at + i then d[p] ^ t[p - at] else d[p]
    {
      data[at + i] := data[at + i] ^ tweak[i];
    }
    XorWritten(d, at, t, data[..]);
  }

  method CipherBlock(c: Cipher, mode: Mode, key: seq<u8>, data: array<u8>, at: nat)
    requires Lawful(c) && |key| == 32 && at + 16 <= data.Length
    modifies data
    ensures |Apply(c, mode, key, Cut(old(data[..]), at, 16))| == 16
    ensures data[..] == Put(old(data[..]), at, Apply(c, mode, key, Cut(old(data[..]), at, 16)))
  {
    var out := Apply(c, mode, key, Cut(data[..], at, 16));
    for i := 0 to 16
      invariant forall p :: 0 <= p < data.Length ==>
                  data[p] == if at <= p < at + i then out[p - at] else old(data[p])
    {
      data[at + i] := out[i];
    }
  }

  method CryptBlock(c: Cipher, mode: Mode, key: seq<u8>, data: array<u8>, at: nat, tweak: array<u8>)
    requires Lawful(c) && |key| == 32 && at + 16 <= data.Length && tweak.Length == 16 && data != tweak
    modifies data
    ensures |Crypt(c, mode, key, tweak[..], Cut(old(data[..]), at, 16))| == 16
    ensures data[..] == Put(old(data[..]), at, Crypt(c, mode, key, tweak[..], Cut(old(data[..]), at, 16)))
  {
    ghost var d, t := data[..], tweak[..];
    ghost var masked := Xor(Cut(d, at, 16), t);
    ghost var out := Apply(c, mode, key, masked);
    XorBlock(data, at, tweak);
    PutGet(d, at, masked);
    CipherBlock(c, mode, key, data, at);
    PutTwice(d, at, masked, out);
    PutGet(d, at, out);
    XorBlock(data, at, tweak);
    PutTwice(d, at, out, Xor(out, t));
  }

  lemma OtherBlock(data: seq<u8>, j: nat, out: seq<u8>, i: nat)
    requires |out| == 16 && 16 * j + 16 <= |data| && i < j
    ensures BlockOf(Put(data, 16 * j, out), i) == BlockOf(data, i)
  {
  }

  lemma SameBlock(a: seq<u8>, b: seq<u8>, j: nat)
    requires |a| == |b| && 16 * j + 16 <= |a| && forall p :: 16 * j <= p < |a| ==> a[p] == b[p]
    ensures BlockOf(a, j) == BlockOf(b, j)
  {
  }

  lemma OldBlockDone(c: Cipher, mode: Mode, key: seq<u8>, t: seq<u8>, before: seq<u8>, was: seq<u8>, j: nat,
                     out: seq<u8>, i: nat)
    requires i < j && 16 * j + 16 <= |before| == |was| && BlockDone(c, mode, key, t, before, was, i) && |out| == 16
    ensures BlockDone(c, mode, key, t, before, Put(was, 16 * j, out), i)
  {
    OtherBlock(was, j, out, i);
  }

  lemma NewBlockDone(c: Cipher, mode: Mode, key: seq<u8>, t: seq<u8>, before: seq<u8>, was: seq<u8>, j: nat,
                     out: seq<u8>)
    requires 16 * j + 16 <= |before| == |was| && forall p :: 16 * j <= p < |was| ==> was[p] == before[p]
    requires |out| == 16 && out == Crypt(c, mode, key, Tweak(t, j), BlockOf(was, j))
    ensures BlockDone(c, mode, key, t, before, Put(was, 16 * j, out), j)
  {
    SameBlock(was, before, j);
    PutGet(was, 16 * j, out);
  }

  lemma NextBlock(c: Cipher, mode: Mode, key: seq<u8>, t: seq<u8>, before: seq<u8>, was: seq<u8>, now: seq<u8>, j: nat,
                  out: seq<u8>)
    requires Processed(c, mode, key, t, before, was, j) && 16 * j + 16 <= |was|
    requires |out| == 16 && out == Crypt(c, mode, key, Tweak(t, j), BlockOf(was, j))
    requires now == Put(was, 16 * j, out)
    ensures Processed(c, mode, key, t, before, now, j + 1)
  {
    forall i | 0 <= i < j + 1 ensures BlockDone(c, mode, key, t, before, now, i) {
      if i < j {
        OldBlockDone(c, mode, key, t, before, was, j, out, i);
      } else {
        NewBlockDone(c, mode, key, t, before, was, j, out);
      }
    }
  }

  lemma CryptLength(c: Cipher, mode: Mode, key: seq<u8>, t: seq<u8>, block: seq<u8>)
    requires Lawful(c) && |key| == 32 && |block| == 16
    ensures |Crypt(c, mode, key, t, block)| == 16
  {
    CryptUndoes(c, key, t, block);
  }

  lemma NextExists(c: Cipher, mode: Mode, key: seq<u8>, t: seq<u8>, a: seq<u8>, was: seq<u8>, j: nat)
    returns (b: seq<u8>)
    requires Lawful(c) && |key| == 32 && Processed(c, mode, key, t, a, was, j) && 16 * j + 16 <= |a|
    ensures Processed(c, mode, key, t, a, b, j + 1)
  {
    CryptLength(c, mode, key, Tweak(t, j), BlockOf(was, j));
    b := Put(was, 16 * j, Crypt(c, mode, key, Tweak(t, j), BlockOf(was, j)));
    NextBlock(c, mode, key, t, a, was, b, j, Crypt(c, mode, key, Tweak(t, j), BlockOf(was, j)));
  }

  /** Some result always exists. */
  lemma {:induction false} ProcessedExists(c: Cipher, mode: Mode, key: seq<u8>, t: seq<u8>, a: seq<u8>, n: nat)
    returns (b: seq<u8>)
    requires Lawful(c) && |key| == 32 && 16 * n <= |a|
    ensures Processed(c, mode, key, t, a, b, n)
  {
    if n == 0 {
      b := a;
    } else {
      b := ProcessedExists(c, mode, key, t, a, n - 1);
      b := NextExists(c, mode, key, t, a, b, n - 1);
    }
  }

  /** One block, then the running tweak doubles. */
  method StepBlock(c: Cipher, mode: Mode, key: seq<u8>, data: array<u8>, current: array<u8>, j: nat)
    requires Lawful(c) && |key| == 32 && current.Length == 16 && data != current && 16 * j + 16 <= data.Length
    modifies data, current
    ensures |Crypt(c, mode, key, old(current[..]), BlockOf(old(data[..]), j))| == 16
    ensures data[..] == Put(old(data[..]), 16 * j, Crypt(c, mode, key, old(current[..]), BlockOf(old(data[..]), j)))
    ensures current[..] == MulX(old(current[..]))
  {
    CryptBlock(c, mode, key, data, 16 * j, current);
    ghost var now := data[..];
    Gf128MulX(current);
    assert data[..] == now;
  }

  method ProcessBlocks(c: Cipher, mode: Mode, key: seq<u8>, data: array<u8>, current: array<u8>)
    requires Lawful(c) && |key| == 32 && current.Length == 16 && data != current
    modifies data, current
    ensures Processed(c, mode, key, old(current[..]), old(data[..]), data[..], data.Length / 16)
  {
    ghost var before, start := data[..], current[..];
    for j := 0 to data.Length / 16
      invariant current[..] == Tweak(start, j) && Processed(c, mode, key, start, before, data[..], j)
    {
      ghost var was, t := data[..], current[..];
      StepBlock(c, mode, key, data, current, j);
      NextBlock(c, mode, key, start, before, was, data[..], j, Crypt(c, mode, key, t, BlockOf(was, j)));
    }
  }

  /** Encrypts or decrypts every whole block in place; the errors are exactly a bad key or too little data. */
  method XtsProcess(c: Cipher, key: seq<u8>, tweak: seq<u8>, data: array<u8>, mode: Mode)
    returns (r: Result<(), XtsError>)
    requires Lawful(c) && |tweak| == 16
    modifies data
    ensures r == if |key| != 64 then Err(BadKeyLength)
                 else if data.Length < 16 then Err(DataTooShort)
                 else Ok(())
    ensures r.Ok? ==> Processed(c, mode, key[..32], c.enc(key[32..], tweak), old(data[..]), data[..], data.Length / 16)
    ensures r.Err? ==> data[..] == old(data[..])
  {
    if |key| != 64 {
      return Err(BadKeyLength);
    }
    if data.Length < 16 {
      return Err(DataTooShort);
    }
    var start := c.enc(key[32..], tweak);
    var current := new u8[16](i requires 0 <= i < 16 => start[i]);
    assert current[..] == start;
    ProcessBlocks(c, mode, key[..32], data, current);
    return Ok(());
  }
}
