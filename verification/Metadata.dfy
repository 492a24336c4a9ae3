/** LUKS2 JSON metadata and its TPM2 token (libs/luks2/src/metadata.rs). */
module Metadata {
  import opened Prelude
  import opened Xts
  import Decimal

  datatype Json =
    | JNull
    | JBool(b: bool)
    | JNumber(n: int)
    | JString(s: string)
    | JArray(items: seq<Json>)
    | JObject(fields: map<string, Json>)

  datatype Token = Token(type_: string, keyslots: seq<string>, pcrs: seq<nat>, hashAlg: string, blob: string,
                         policyHash: string)

  datatype Kdf = Kdf(type_: string, salt: string, time: Option<nat>, memory: Option<nat>, cpus: Option<nat>)

  datatype Af = Af(type_: string, stripes: nat, hash: string)

  datatype Area = Area(type_: string, offset: string, size: string, encryption: string, keySize: nat)

  datatype Keyslot = Keyslot(type_: string, keySize: nat, kdf: Kdf, af: Af, area: Area)

  datatype Segment = Segment(type_: string, offset: string, ivTweak: string, size: string, encryption: string,
                             sectorSize: nat)

  datatype Digest = Digest(type_: string, keyslots: seq<string>, segments: seq<string>, hash: string,
                           iterations: nat, salt: string, value: string)

  datatype Config = Config(jsonSize: string, keyslotsSize: string)

  datatype Metadata = Metadata(keyslots: map<string, Keyslot>, tokens: map<string, Json>,
                               segments: map<string, Segment>, digests: map<string, Digest>, config: Config)

  datatype MetaError = EncodeFailed | TooLarge | DecodeFailed | NoToken | BadToken

  const AfStripes: nat := 4000
  const VolumeKeySize: nat := 64
  const HeaderSize: nat := 16 * 1024 * 1024
  const JsonSize: nat := 12288
  const KeyslotAreaOffset: nat := 0x8000
  const KeyslotAreaSize: nat := 64 * 4000

  /** The JSON library: text both ways, and token structs to and from JSON values. */
  datatype Codec = Codec(encode: Metadata -> Option<seq<u8>>, decode: seq<u8> -> Option<Metadata>,
                         toValue: Token -> Option<Json>, fromValue: Json -> Option<Token>)

  function TypeOf(v: Json): Option<string> {
    if v.JObject? && "type" in v.fields && v.fields["type"].JString? then Some(v.fields["type"].s) else None
  }

  /** Decoding undoes encoding, text has no NUL, and each decoded token took at least one byte of text. */
  ghost predicate CodecLaw(c: Codec) {
    (forall m :: c.encode(m).Some? ==> c.decode(c.encode(m).value) == Some(m) && (0 as u8) !in c.encode(m).value) &&
    (forall b :: c.decode(b).Some? ==> |c.decode(b).value.tokens| <= |b|) &&
    (forall t :: c.toValue(t).Some? ==> c.fromValue(c.toValue(t).value) == Some(t)
                                        && TypeOf(c.toValue(t).value) == Some(t.type_))
  }

  predicate IsTpm2(v: Json) {
    TypeOf(v) == Some("tpm2")
  }

  // ---------- the padded JSON area ----------

  function FirstZero(data: seq<u8>): (r: nat)
    ensures r <= |data|
  {
    if data == [] || data[0] == 0 then 0 else 1 + FirstZero(data[1..])
  }

  lemma {:induction false} FirstZeroAfterText(text: seq<u8>, pad: nat)
    requires (0 as u8) !in text
    ensures FirstZero(text + seq(pad, _ => 0)) == |text|
  {
    var data := text + seq(pad, _ => 0);
    if text != [] {
      assert data[1..] == text[1..] + seq(pad, _ => 0);
      FirstZeroAfterText(text[1..], pad);
    }
  }

  function ToJsonBuffer(c: Codec, m: Metadata, size: nat): Result<seq<u8>, MetaError> {
    match c.encode(m)
    case None => Err(EncodeFailed)
    case Some(text) => if |text| > size then Err(TooLarge) else Ok(text + seq(size - |text|, _ => 0))
  }

  /** The text of a JSON area: what comes before its first NUL. */
  function JsonText(data: seq<u8>): seq<u8> {
    data[..FirstZero(data)]
  }

  function FromJsonBuffer(c: Codec, data: seq<u8>): Option<Metadata> {
    c.decode(JsonText(data))
  }

  lemma {:induction false} FirstZeroMeans(data: seq<u8>)
    ensures forall k :: 0 <= k < FirstZero(data) ==> data[k] != 0
    ensures FirstZero(data) < |data| ==> data[FirstZero(data)] == 0
  {
    if data != [] && data[0] != 0 {
      FirstZeroMeans(data[1..]);
      forall k | 0 <= k < FirstZero(data) ensures data[k] != 0 {
        if k > 0 { assert data[k] == data[1..][k - 1]; }
      }
    }
  }

  /** Areas of one size have the same text exactly if they agree up to its end, the first NUL included. */
  lemma SameText(a: seq<u8>, b: seq<u8>)
    requires |a| == |b|
    ensures JsonText(a) == JsonText(b) <==> forall k :: 0 <= k <= FirstZero(b) && k < |b| ==> a[k] == b[k]
  {
    FirstZeroMeans(a);
    FirstZeroMeans(b);
    var x, y := FirstZero(a), FirstZero(b);
    if forall k :: 0 <= k <= y && k < |b| ==> a[k] == b[k] {
      assert x == y;
    }
    if JsonText(a) == JsonText(b) {
      assert |JsonText(a)| == x && |JsonText(b)| == y;
      forall k | 0 <= k < y ensures a[k] == b[k] {
        assert JsonText(a)[k] == JsonText(b)[k];
      }
    }
  }

  /** Metadata written to a JSON area reads back. */
  lemma JsonRoundTrip(c: Codec, m: Metadata, size: nat)
    requires CodecLaw(c) && ToJsonBuffer(c, m, size).Ok?
    ensures |ToJsonBuffer(c, m, size).value| == size
    ensures FromJsonBuffer(c, ToJsonBuffer(c, m, size).value) == Some(m)
  {
    var text := c.encode(m).value;
    FirstZeroAfterText(text, size - |text|);
    assert ToJsonBuffer(c, m, size).value[..|text|] == text;
  }

  // ---------- the TPM2 token ----------

  /** The tokens hold at most one TPM2 token. */
  ghost predicate AtMostOneTpm2(tokens: map<string, Json>) {
    forall a, b :: a in tokens && b in tokens && IsTpm2(tokens[a]) && IsTpm2(tokens[b]) ==> a == b
  }

  /** The decimal ids `0 .. n` are all taken. */
  ghost predicate Taken(tokens: map<string, Json>, n: nat) {
    forall i: nat :: i < n ==> Decimal.Show(i) in tokens
  }

  ghost function Ids(n: nat): set<string> {
    set i: nat | i < n :: Decimal.Show(i)
  }

  lemma {:induction false} IdsCount(n: nat)
    ensures |Ids(n)| == n
  {
    if n > 0 {
      IdsCount(n - 1);
      assert Decimal.Show(n - 1) !in Ids(n - 1) by {
        if Decimal.Show(n - 1) in Ids(n - 1) {
          var i: nat :| i < n - 1 && Decimal.Show(i) == Decimal.Show(n - 1);
          Decimal.ShowInjective(i, n - 1);
        }
      }
      assert Ids(n) == Ids(n - 1) + {Decimal.Show(n - 1)};
    }
  }

  lemma SubsetCount<T>(a: set<T>, b: set<T>)
    requires a <= b
    ensures |a| <= |b|
  {
    if a != {} {
      var x :| x in a;
      SubsetCount(a - {x}, b - {x});
    }
  }

  /** A map cannot hold more decimal ids than it has entries. */
  lemma TakenBound(tokens: map<string, Json>, n: nat)
    requires Taken(tokens, n)
    ensures n <= |tokens|
  {
    IdsCount(n);
    SubsetCount(Ids(n), tokens.Keys);
    assert |tokens.Keys| == |tokens|;
  }

  /** `u32::saturating_add(1)`. */
  function SaturatingSucc(n: nat): nat {
    if n + 1 < U32 then n + 1 else n
  }

  /** Some id that the counter can reach is free. */
  ghost predicate HasFreeId(tokens: map<string, Json>) {
    exists n: nat :: n < U32 && Decimal.Show(n) !in tokens
  }

  lemma FewTokensLeaveRoom(tokens: map<string, Json>)
    requires |tokens| < U32
    ensures HasFreeId(tokens)
  {
    if !HasFreeId(tokens) { TakenBound(tokens, U32); }
  }

  /** The counter of the id search after `k` steps past taken ids. */
  function Counter(k: nat): (r: nat)
    ensures r == if k < U32 then k else U32 - 1
  {
    if k == 0 then 0 else SaturatingSucc(Counter(k - 1))
  }

  /** The id search stops exactly when an id it can reach is free. */
  lemma IdSearchEnds(tokens: map<string, Json>)
    ensures (exists k: nat :: Decimal.Show(Counter(k)) !in tokens) <==> HasFreeId(tokens)
  {
    if n: nat :| n < U32 && Decimal.Show(n) !in tokens {
      assert Counter(n) == n;
    }
  }

  /** The metadata of any JSON area leaves an id free, so the search for one always ends on a device. */
  lemma AreaLeavesRoom(c: Codec, data: seq<u8>)
    requires CodecLaw(c) && FromJsonBuffer(c, data).Some? && |data| < U32
    ensures HasFreeId(FromJsonBuffer(c, data).value.tokens)
  {
    FewTokensLeaveRoom(FromJsonBuffer(c, data).value.tokens);
  }

  /** The TPM2 token's id, or else the smallest free decimal id. */
  ghost predicate TokenId(tokens: map<string, Json>, id: string) {
    (id in tokens ==> IsTpm2(tokens[id])) &&
    (id !in tokens ==> (forall t :: t in tokens ==> !IsTpm2(tokens[t]))
                       && exists n: nat :: id == Decimal.Show(n) && Taken(tokens, n))
  }

  /** With at most one TPM2 token there is no choice of id. */
  lemma OneTokenId(tokens: map<string, Json>, a: string, b: string)
    requires AtMostOneTpm2(tokens) && TokenId(tokens, a) && TokenId(tokens, b)
    ensures a == b
  {
    if a !in tokens && b !in tokens {
      var n: nat :| a == Decimal.Show(n) && Taken(tokens, n);
      var k: nat :| b == Decimal.Show(k) && Taken(tokens, k);
    }
  }

  method FindOrAllocId(tokens: map<string, Json>) returns (id: string)
    requires HasFreeId(tokens) || exists t :: t in tokens && IsTpm2(tokens[t])
    ensures TokenId(tokens, id)
  {
    if t :| t in tokens && IsTpm2(tokens[t]) {
      return t;
    }
    ghost var free: nat :| free < U32 && Decimal.Show(free) !in tokens;
    var next: nat := 0;
    while Decimal.Show(next) in tokens
      invariant Taken(tokens, next) && next <= free
      decreases free - next
    {
      assert Taken(tokens, next + 1);
      next := SaturatingSucc(next);
    }
    return Decimal.Show(next);
  }

  /** The value that reads back as `token`, and no other TPM2 token. */
  ghost predicate HoldsToken(c: Codec, tokens: map<string, Json>, token: Token) {
    AtMostOneTpm2(tokens) && exists id :: id in tokens && IsTpm2(tokens[id]) && c.fromValue(tokens[id]) == Some(token)
  }

  /** The metadata with the token stored under `id`. */
  function WithToken(c: Codec, m: Metadata, token: Token, id: string): Result<Metadata, MetaError> {
    match c.toValue(token)
    case None => Err(EncodeFailed)
    case Some(value) => Ok(m.(tokens := m.tokens[id := value]))
  }

  /** A token stored under its id is the only TPM2 token; everything but the TPM2 token stays as it was. */
  lemma WithTokenHolds(c: Codec, m: Metadata, token: Token, id: string)
    requires CodecLaw(c) && TokenId(m.tokens, id) && WithToken(c, m, token, id).Ok?
    ensures var m' := WithToken(c, m, token, id).value;
            m' == m.(tokens := m'.tokens)
            && (AtMostOneTpm2(m.tokens) && token.type_ == "tpm2" ==> HoldsToken(c, m'.tokens, token))
            && (forall t :: t in m.tokens && TypeOf(m.tokens[t]) != Some("tpm2") ==>
                  t in m'.tokens && m'.tokens[t] == m.tokens[t])
  {
    var tokens := WithToken(c, m, token, id).value.tokens;
    assert id in tokens && tokens[id] == c.toValue(token).value;
  }

  /** Sets the TPM2 token, replacing the previous one. */
  method SetTpm2Token(c: Codec, m: Metadata, token: Token) returns (r: Result<Metadata, MetaError>, ghost id: string)
    requires HasFreeId(m.tokens) || exists t :: t in m.tokens && IsTpm2(m.tokens[t])
    ensures r == WithToken(c, m, token, id)
    ensures r.Ok? ==> TokenId(m.tokens, id)
    ensures r.Ok? <==> c.toValue(token).Some?
    ensures r.Ok? ==> exists k :: TokenId(m.tokens, k) && r.value == m.(tokens := m.tokens[k := c.toValue(token).value])
  {
    var value := c.toValue(token);
    if value.None? {
      return Err(EncodeFailed), "";
    }
    var next := FindOrAllocId(m.tokens);
    return Ok(m.(tokens := m.tokens[next := value.value])), next;
  }

  /** Reads a TPM2 token, whichever the map yields first. */
  method GetTpm2Token(c: Codec, m: Metadata) returns (r: Result<Token, MetaError>)
    ensures r == Err(NoToken) <==> forall id :: id in m.tokens ==> !IsTpm2(m.tokens[id])
    ensures r.Ok? ==> exists id :: id in m.tokens && IsTpm2(m.tokens[id]) && c.fromValue(m.tokens[id]) == Some(r.value)
    ensures r.Err? && r.error != NoToken ==>
              r.error == BadToken
              && exists id :: id in m.tokens && IsTpm2(m.tokens[id]) && c.fromValue(m.tokens[id]).None?
    ensures forall token :: HoldsToken(c, m.tokens, token) ==> r == Ok(token)
  {
    if id :| id in m.tokens && IsTpm2(m.tokens[id]) {
      var token := c.fromValue(m.tokens[id]);
      return if token.None? then Err(BadToken) else Ok(token.value);
    }
    return Err(NoToken);
  }

  // ---------- fresh metadata ----------

  function NewMetadata(sectorSize: nat): Metadata {
    Metadata(map[], map[],
             map["0" := Segment("crypt", Decimal.Show(HeaderSize), "0", "dynamic", "aes-xts-plain64", sectorSize)],
             map[], Config(Decimal.Show(JsonSize), Decimal.Show(16744448)))
  }

  function NewKeyslot(salt: string): Keyslot {
    Keyslot("luks2", VolumeKeySize, Kdf("argon2id", salt, Some(1), Some(0x1_0000), Some(4)),
            Af("luks1", AfStripes, "sha256"),
            Area("raw", Decimal.Show(KeyslotAreaOffset), Decimal.Show(KeyslotAreaSize), "aes-xts-plain64",
                 VolumeKeySize))
  }
}
