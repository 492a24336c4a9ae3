/** Wrapping a volume key in a keyslot (libs/luks2/src/keyslot.rs, libs/luks2/src/digest.rs). */
module Keyslots {
  import opened Prelude
  import opened Xts
  import opened AntiForensic
  import opened Metadata

  /** The libraries underneath, as functions of which only `PrimsLaw` is known. */
  datatype Prims = Prims(cipher: Cipher, hash: Hash,
                         argon2: (seq<u8>, seq<u8>, nat, nat, nat, nat) -> Option<seq<u8>>,
                         pbkdf2: (seq<u8>, seq<u8>, nat) -> seq<u8>,
                         b64encode: seq<u8> -> string, b64decode: string -> Option<seq<u8>>,
                         codec: Codec)

  ghost predicate PrimsLaw(p: Prims) {
    Lawful(p.cipher) && HashLaw(p.hash) && CodecLaw(p.codec)
    && (forall x :: p.b64decode(p.b64encode(x)) == Some(x))
    && (forall pass, salt, m, t, c, n :: p.argon2(pass, salt, m, t, c, n).Some? ==>
          |p.argon2(pass, salt, m, t, c, n).value| == n)
  }

  datatype KeyError = UnsupportedKdf | BadSalt | KdfFailed | BadSplit(af: AfError) | BadCipher(xts: XtsError)

  function OrElse(x: Option<nat>, default_: nat): nat {
    match x case None => default_ case Some(v) => v
  }

  function DeriveKey(p: Prims, pass: seq<u8>, slot: Keyslot): (r: Result<seq<u8>, KeyError>)
    ensures PrimsLaw(p) && r.Ok? ==> |r.value| == slot.keySize
  {
    if slot.kdf.type_ != "argon2id" then Err(UnsupportedKdf)
    else
      match p.b64decode(slot.kdf.salt)
      case None => Err(BadSalt)
      case Some(salt) =>
        match p.argon2(pass, salt, OrElse(slot.kdf.memory, 0x10_0000), OrElse(slot.kdf.time, 4),
                       OrElse(slot.kdf.cpus, 4), slot.keySize)
        case None => Err(KdfFailed)
        case Some(key) => Ok(key)
  }

  const ZeroTweak: seq<u8> := seq(16, _ => 0)

  /** `after` is `before` through the cipher under a 64-byte key, with tweak zero. */
  ghost predicate Crypts(p: Prims, mode: Mode, key: seq<u8>, before: seq<u8>, after: seq<u8>)
    requires |key| == 64
  {
    Processed(p.cipher, mode, key[..32], p.cipher.enc(key[32..], ZeroTweak), before, after, |before| / 16)
  }

  method RunXts(p: Prims, key: seq<u8>, data: seq<u8>, mode: Mode) returns (r: Result<seq<u8>, KeyError>)
    requires PrimsLaw(p)
    ensures r.Ok? <==> |key| == 64 && |data| >= 16
    ensures r.Ok? ==> Crypts(p, mode, key, data, r.value)
  {
    var buf := new u8[|data|](i requires 0 <= i < |data| => data[i]);
    assert buf[..] == data;
    var done := XtsProcess(p.cipher, key, ZeroTweak, buf, mode);
    if done.Err? {
      return Err(BadCipher(done.error));
    }
    return Ok(buf[..]);
  }

  // ---------- wrapping and unwrapping ----------

  /** Stripes of this many bytes can be split and merged. */
  predicate Stripable(keyLen: nat, stripes: nat) {
    0 < stripes && 16 <= keyLen * stripes < U64 && (stripes > 1 ==> !TooLong(keyLen))
  }

  /** `data` is `key` split into the slot's stripes and encrypted under the key derived from `pass`. */
  ghost predicate Wrapped(p: Prims, pass: seq<u8>, slot: Keyslot, key: seq<u8>, data: seq<u8>) {
    var derived := DeriveKey(p, pass, slot);
    derived.Ok? && |derived.value| == 64 && Stripable(|key|, slot.af.stripes)
    && exists random: seq<u8> :: |random| == Pos(|key|, slot.af.stripes - 1)
         && Crypts(p, Encrypt, derived.value, SplitWith(DiffuseWith(p.hash), key, slot.af.stripes, random), data)
  }

  /** Decrypting `data` for this passphrase and slot and merging the stripes gives `key`. */
  ghost predicate Unwraps(p: Prims, pass: seq<u8>, slot: Keyslot, key: seq<u8>, data: seq<u8>)
    requires PrimsLaw(p)
  {
    var derived := DeriveKey(p, pass, slot);
    derived.Ok? && slot.keySize == 64 && Stripable(slot.keySize, slot.af.stripes)
    && |data| == slot.keySize * slot.af.stripes == Pos(slot.keySize, slot.af.stripes)
    && forall plain :: Crypts(p, Decrypt, derived.value, data, plain) ==>
         Merged(DiffuseWith(p.hash), plain, slot.keySize, slot.af.stripes) == key
  }

  lemma SplitSize(hash: Hash, key: seq<u8>, n: nat, random: seq<u8>)
    requires n > 0 && |random| == Pos(|key|, n - 1)
    ensures |SplitWith(DiffuseWith(hash), key, n, random)| == |key| * n == Pos(|key|, n)
  {
    MergeUndoesSplit(DiffuseWith(hash), key, n, random);
    PosIsProduct(|key|, n);
  }

  method EncryptKeyslot(p: Prims, pass: seq<u8>, key: seq<u8>, slot: Keyslot, random: seq<u8>)
    returns (r: Result<seq<u8>, KeyError>)
    requires PrimsLaw(p) && |key| > 0 && (slot.af.stripes > 0 ==> |random| == Pos(|key|, slot.af.stripes - 1))
    ensures r.Ok? <==> DeriveKey(p, pass, slot).Ok? && slot.keySize == 64 && Stripable(|key|, slot.af.stripes)
    ensures r.Ok? ==> Wrapped(p, pass, slot, key, r.value)
  {
    var derived := DeriveKey(p, pass, slot);
    if derived.Err? {
      return Err(derived.error);
    }
    var striped := AfSplit(p.hash, key, slot.af.stripes, random);
    if striped.Err? {
      return Err(BadSplit(striped.error));
    }
    SplitSize(p.hash, key, slot.af.stripes, random);
    r := RunXts(p, derived.value, striped.value, Encrypt);
  }

  /** What was wrapped unwraps to the same key. */
  lemma WrappedUnwraps(p: Prims, pass: seq<u8>, slot: Keyslot, key: seq<u8>, data: seq<u8>)
    requires PrimsLaw(p) && |key| == slot.keySize && Wrapped(p, pass, slot, key, data)
    ensures Unwraps(p, pass, slot, key, data)
  {
    var n, derived := slot.af.stripes, DeriveKey(p, pass, slot).value;
    var random: seq<u8> :| |random| == Pos(|key|, n - 1)
      && Crypts(p, Encrypt, derived, SplitWith(DiffuseWith(p.hash), key, n, random), data);
    var striped := SplitWith(DiffuseWith(p.hash), key, n, random);
    SplitSize(p.hash, key, n, random);
    MergeUndoesSplit(DiffuseWith(p.hash), key, n, random);
    forall plain | Crypts(p, Decrypt, derived, data, plain) ensures plain == striped {
      ProcessedUndoes(p.cipher, derived[..32], p.cipher.enc(derived[32..], ZeroTweak), striped, data, plain,
                      |data| / 16);
    }
  }

  /** Data unwraps to one key only. */
  lemma UnwrapsToOne(p: Prims, pass: seq<u8>, slot: Keyslot, key: seq<u8>, other: seq<u8>, data: seq<u8>)
    requires PrimsLaw(p) && Unwraps(p, pass, slot, key, data) && Unwraps(p, pass, slot, other, data)
    ensures key == other
  {
    var derived := DeriveKey(p, pass, slot).value;
    var plain := ProcessedExists(p.cipher, Decrypt, derived[..32], p.cipher.enc(derived[32..], ZeroTweak),
                                 data, |data| / 16);
    assert Crypts(p, Decrypt, derived, data, plain);
  }

  lemma PlainUnwraps(p: Prims, pass: seq<u8>, slot: Keyslot, data: seq<u8>, plain: seq<u8>)
    requires PrimsLaw(p) && DeriveKey(p, pass, slot).Ok? && slot.keySize == 64
    requires Stripable(slot.keySize, slot.af.stripes)
    requires |data| == slot.keySize * slot.af.stripes == Pos(slot.keySize, slot.af.stripes)
    requires Crypts(p, Decrypt, DeriveKey(p, pass, slot).value, data, plain)
    ensures Unwraps(p, pass, slot, Merged(DiffuseWith(p.hash), plain, slot.keySize, slot.af.stripes), data)
  {
    var derived := DeriveKey(p, pass, slot).value;
    forall other | Crypts(p, Decrypt, derived, data, other) ensures other == plain {
      ProcessedDeterministic(p.cipher, Decrypt, derived[..32], p.cipher.enc(derived[32..], ZeroTweak),
                             data, plain, other, |data| / 16);
    }
  }

  /** Returns exactly the key the data unwraps to, and fails exactly when there is none. */
  method DecryptKeyslot(p: Prims, pass: seq<u8>, slot: Keyslot, data: seq<u8>) returns (r: Result<seq<u8>, KeyError>)
    requires PrimsLaw(p)
    ensures forall key :: Unwraps(p, pass, slot, key, data) <==> r == Ok(key)
  {
    PosIsProduct(slot.keySize, slot.af.stripes);
    var derived := DeriveKey(p, pass, slot);
    if derived.Err? {
      return Err(derived.error);
    }
    var plain := RunXts(p, derived.value, data, Decrypt);
    if plain.Err? {
      return Err(plain.error);
    }
    var merged := AfMerge(p.hash, plain.value, slot.keySize, slot.af.stripes);
    if merged.Err? {
      return Err(BadSplit(merged.error));
    }
    PlainUnwraps(p, pass, slot, data, plain.value);
    return Ok(merged.value);
  }

  // ---------- digests ----------

  const DigestIterations: nat := 1000

  function CreateDigest(p: Prims, key: seq<u8>, slots: seq<string>, segments: seq<string>, salt: seq<u8>): Digest {
    Digest("pbkdf2", slots, segments, "sha256", DigestIterations, p.b64encode(salt),
           p.b64encode(p.pbkdf2(key, salt, DigestIterations)))
  }

  /** `Some(true)` when the candidate's digest is the stored one; `None` on a malformed digest. */
  function VerifyDigest(p: Prims, key: seq<u8>, d: Digest): Option<bool> {
    if d.type_ != "pbkdf2" then None
    else
      match p.b64decode(d.salt)
      case None => None
      case Some(salt) =>
        match p.b64decode(d.value)
        case None => None
        case Some(expected) => Some(p.pbkdf2(key, salt, d.iterations) == expected)
  }

  /** `d` is a digest of `key`. */
  predicate IsDigestOf(p: Prims, d: Digest, key: seq<u8>) {
    var salt := p.b64decode(d.salt);
    d.type_ == "pbkdf2" && salt.Some? && p.b64decode(d.value) == Some(p.pbkdf2(key, salt.value, d.iterations))
  }

  /** Two keys have the same value under the salt and the iterations of `d`. */
  predicate SameDigest(p: Prims, d: Digest, a: seq<u8>, b: seq<u8>) {
    var salt := p.b64decode(d.salt);
    salt.Some? && p.pbkdf2(a, salt.value, d.iterations) == p.pbkdf2(b, salt.value, d.iterations)
  }

  /** A candidate is verified exactly against digests of it. */
  lemma VerifiedMeans(p: Prims, key: seq<u8>, d: Digest)
    ensures VerifyDigest(p, key, d) == Some(true) <==> IsDigestOf(p, d, key)
  {
  }

  lemma SameDigestMeans(p: Prims, d: Digest, key: seq<u8>, other: seq<u8>)
    requires IsDigestOf(p, d, key)
    ensures IsDigestOf(p, d, other) <==> SameDigest(p, d, other, key)
  {
  }

  /** A created digest accepts exactly the keys with the same value as the key it was made from. */
  lemma CreatedDigestVerifies(p: Prims, key: seq<u8>, slots: seq<string>, segments: seq<string>, salt: seq<u8>,
                              other: seq<u8>)
    requires PrimsLaw(p)
    ensures IsDigestOf(p, CreateDigest(p, key, slots, segments, salt), key)
    ensures VerifyDigest(p, other, CreateDigest(p, key, slots, segments, salt)) == Some(true) <==>
            p.pbkdf2(other, salt, 1000) == p.pbkdf2(key, salt, 1000)
  {
    assert p.b64decode(p.b64encode(salt)) == Some(salt);
    var value := p.pbkdf2(key, salt, DigestIterations);
    assert p.b64decode(p.b64encode(value)) == Some(value);
  }

  /** The check of a candidate against the digests of its keyslot. */
  predicate VerifyCandidate(p: Prims, key: seq<u8>, slotId: string, m: Metadata) {
    exists d :: d in m.digests && slotId in m.digests[d].keyslots && VerifyDigest(p, key, m.digests[d]) == Some(true)
  }

  /** Some digest of this keyslot is a digest of the key. */
  ghost predicate Confirmed(p: Prims, key: seq<u8>, slotId: string, m: Metadata) {
    exists d :: d in m.digests && slotId in m.digests[d].keyslots && IsDigestOf(p, m.digests[d], key)
  }

  lemma CandidateMeans(p: Prims, key: seq<u8>, slotId: string, m: Metadata)
    ensures VerifyCandidate(p, key, slotId, m) <==> Confirmed(p, key, slotId, m)
  {
    forall d | d in m.digests
      ensures VerifyDigest(p, key, m.digests[d]) == Some(true) <==> IsDigestOf(p, m.digests[d], key)
    {
      VerifiedMeans(p, key, m.digests[d]);
    }
  }
}
