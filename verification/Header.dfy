/** The LUKS2 binary header (libs/luks2/src/header.rs). */
module Header {
  import opened Prelude
  import opened Xts
  import opened AntiForensic

  datatype Header = Header(size: bv64, sequenceId: bv64, title: seq<u8>, salt: seq<u8>, uuid: seq<u8>,
                           subsystem: seq<u8>, checksum: seq<u8>)

  datatype HeaderError = TooShort | BadMagic | BadVersion | ChecksumMismatch

  const BinaryHeaderSize: nat := 4096
  const ChecksumOffset: nat := 376
  const DefaultSize: bv64 := 0x100_0000
  const Magic: seq<u8> := [0x4c, 0x55, 0x4b, 0x53, 0xba, 0xbe]
  const Version: seq<u8> := [0, 2]
  const ChecksumAlg: seq<u8> := [0x73, 0x68, 0x61, 0x32, 0x35, 0x36]

  /** What the field widths of the source allow. */
  predicate Fits(h: Header) {
    |h.title| == 48 && |h.salt| == 64 && |h.uuid| == 40
    && |h.subsystem| == 48 && |h.checksum| == 64
  }

  function Zeros(n: nat): seq<u8> {
    seq(n, _ => 0)
  }

  /** The first `keep` bytes of `text`, padded with zeros to `size`. */
  function Padded(text: seq<u8>, keep: nat, size: nat): (r: seq<u8>)
    requires keep <= size
    ensures |r| == size
  {
    if |text| <= keep then text + Zeros(size - |text|) else Cut(text, 0, keep) + Zeros(size - keep)
  }

  function NewHeader(uuid: seq<u8>, title: seq<u8>, salt: seq<u8>): Header {
    Header(DefaultSize, 1, Padded(title, 47, 48), salt, Padded(uuid, 40, 40), Zeros(48), Zeros(64))
  }

  // ---------- big-endian integers ----------

  /** `u64::to_be_bytes`. */
  function BeBytes(v: bv64): (r: seq<u8>)
    ensures |r| == 8
  {
    [(v >> 56) as u8, ((v >> 48) & 0xff) as u8, ((v >> 40) & 0xff) as u8, ((v >> 32) & 0xff) as u8,
     ((v >> 24) & 0xff) as u8, ((v >> 16) & 0xff) as u8, ((v >> 8) & 0xff) as u8, (v & 0xff) as u8]
  }

  /** `u64::from_be_bytes`. */
  function BeValue(b: seq<u8>): bv64
    requires |b| == 8
  {
    ((b[0] as bv64) << 56) | ((b[1] as bv64) << 48) | ((b[2] as bv64) << 40) | ((b[3] as bv64) << 32)
    | ((b[4] as bv64) << 24) | ((b[5] as bv64) << 16) | ((b[6] as bv64) << 8) | (b[7] as bv64)
  }

  lemma BeRoundTrip(v: bv64)
    ensures BeValue(BeBytes(v)) == v
  {
  }

  // ---------- fields in a buffer ----------

  datatype Field = Field(at: nat, bytes: seq<u8>)

  /** Fields in increasing order, without overlap, inside a buffer of `size` bytes. */
  ghost predicate LaidOut(fs: seq<Field>, size: nat) {
    forall i :: 0 <= i < |fs| ==>
      fs[i].at + |fs[i].bytes| <= size && forall j :: i < j < |fs| ==> fs[i].at + |fs[i].bytes| <= fs[j].at
  }

  function PutAll(buf: seq<u8>, fs: seq<Field>): (r: seq<u8>)
    requires LaidOut(fs, |buf|)
    ensures |r| == |buf|
  {
    if fs == [] then buf
    else
      var n := |fs| - 1;
      Put(PutAll(buf, fs[..n]), fs[n].at, fs[n].bytes)
  }

  lemma CutOfPut(b: seq<u8>, at: nat, v: seq<u8>, pos: nat, len: nat)
    requires at + |v| <= |b| && pos + len <= |b| && (pos + len <= at || at + |v| <= pos)
    ensures Cut(Put(b, at, v), pos, len) == Cut(b, pos, len)
  {
  }

  /** Every field reads back. */
  lemma {:induction false} FieldsReadBack(buf: seq<u8>, fs: seq<Field>, i: nat)
    requires LaidOut(fs, |buf|) && i < |fs|
    ensures Cut(PutAll(buf, fs), fs[i].at, |fs[i].bytes|) == fs[i].bytes
    decreases |fs|
  {
    var n := |fs| - 1;
    var before := PutAll(buf, fs[..n]);
    if i == n {
      PutGet(before, fs[n].at, fs[n].bytes);
    } else {
      FieldsReadBack(buf, fs[..n], i);
      CutOfPut(before, fs[n].at, fs[n].bytes, fs[i].at, |fs[i].bytes|);
    }
  }

  /** Bytes past all fields are untouched. */
  lemma {:induction false} PastFields(buf: seq<u8>, fs: seq<Field>, pos: nat, len: nat)
    requires LaidOut(fs, |buf|) && pos + len <= |buf|
    requires forall i :: 0 <= i < |fs| ==> fs[i].at + |fs[i].bytes| <= pos
    ensures Cut(PutAll(buf, fs), pos, len) == Cut(buf, pos, len)
  {
    if fs != [] {
      var n := |fs| - 1;
      PastFields(buf, fs[..n], pos, len);
      CutOfPut(PutAll(buf, fs[..n]), fs[n].at, fs[n].bytes, pos, len);
    }
  }

  // ---------- serializing and parsing ----------

  function Fields(h: Header, primary: bool): (r: seq<Field>)
    requires Fits(h)
    ensures LaidOut(r, ChecksumOffset)
  {
    [Field(0, Magic), Field(6, Version), Field(8, BeBytes(h.size)), Field(16, BeBytes(h.sequenceId)),
     Field(24, h.title), Field(72, ChecksumAlg), Field(104, h.salt), Field(168, h.uuid), Field(208, h.subsystem),
     Field(256, BeBytes(if primary then 0 else h.size))]
  }

  /** The header before its checksum is filled in. */
  function Unsummed(h: Header, primary: bool): (r: seq<u8>)
    requires Fits(h)
    ensures |r| == BinaryHeaderSize
  {
    PutAll(Zeros(BinaryHeaderSize), Fields(h, primary))
  }

  function Serialize(hash: Hash, h: Header, primary: bool): (r: seq<u8>)
    requires HashLaw(hash) && Fits(h)
    ensures |r| == BinaryHeaderSize
  {
    Put(Unsummed(h, primary), ChecksumOffset, hash(Unsummed(h, primary)))
  }

  /** The header that the bytes spell out, checked or not. */
  function Spelled(data: seq<u8>): Header
    requires |data| >= BinaryHeaderSize
  {
    Header(BeValue(Cut(data, 8, 8)), BeValue(Cut(data, 16, 8)), Cut(data, 24, 48), Cut(data, 104, 64),
           Cut(data, 168, 40), Cut(data, 208, 48), Cut(data, ChecksumOffset, 64))
  }

  function Parse(hash: Hash, data: seq<u8>): Result<Header, HeaderError> {
    if |data| < BinaryHeaderSize then Err(TooShort)
    else if Cut(data, 0, 6) != Magic then Err(BadMagic)
    else if Cut(data, 6, 2) != Version then Err(BadVersion)
    else if hash(Put(Cut(data, 0, BinaryHeaderSize), ChecksumOffset, Zeros(64))) != Cut(data, ChecksumOffset, 32)
      then Err(ChecksumMismatch)
    else Ok(Spelled(data))
  }

  lemma FieldKept(hash: Hash, h: Header, primary: bool, i: nat)
    requires HashLaw(hash) && Fits(h) && i < |Fields(h, primary)|
    ensures var f := Fields(h, primary)[i];
            f.at + |f.bytes| <= ChecksumOffset && Cut(Serialize(hash, h, primary), f.at, |f.bytes|) == f.bytes
  {
    var f := Fields(h, primary)[i];
    FieldsReadBack(Zeros(BinaryHeaderSize), Fields(h, primary), i);
    CutOfPut(Unsummed(h, primary), ChecksumOffset, hash(Unsummed(h, primary)), f.at, |f.bytes|);
  }

  /** Where the serialized header has what. */
  lemma SerializedLayout(hash: Hash, h: Header, primary: bool)
    requires HashLaw(hash) && Fits(h)
    ensures var data := Serialize(hash, h, primary);
            Cut(data, 0, 6) == [0x4c, 0x55, 0x4b, 0x53, 0xba, 0xbe] && Cut(data, 6, 2) == [0, 2]
            && Cut(data, 8, 8) == BeBytes(h.size) && Cut(data, 16, 8) == BeBytes(h.sequenceId)
            && Cut(data, 24, 48) == h.title && Cut(data, 72, 6) == [0x73, 0x68, 0x61, 0x32, 0x35, 0x36]
            && Cut(data, 104, 64) == h.salt && Cut(data, 168, 40) == h.uuid && Cut(data, 208, 48) == h.subsystem
            && Cut(data, 256, 8) == BeBytes(if primary then 0 else h.size)
  {
    FieldKept(hash, h, primary, 0);
    FieldKept(hash, h, primary, 1);
    FieldKept(hash, h, primary, 2);
    FieldKept(hash, h, primary, 3);
    FieldKept(hash, h, primary, 4);
    FieldKept(hash, h, primary, 5);
    FieldKept(hash, h, primary, 6);
    FieldKept(hash, h, primary, 7);
    FieldKept(hash, h, primary, 8);
    FieldKept(hash, h, primary, 9);
  }

  /** `clear` is the first 4096 bytes of `data` with the checksum field zero. */
  ghost predicate Cleared(data: seq<u8>, clear: seq<u8>) {
    |clear| == BinaryHeaderSize <= |data|
    && forall k :: 0 <= k < BinaryHeaderSize ==> clear[k] == if 376 <= k < 440 then 0 else data[k]
  }

  /** A header is accepted exactly with the right magic, version and checksum, whoever wrote it. */
  lemma ParseAccepts(hash: Hash, data: seq<u8>, clear: seq<u8>)
    requires Cleared(data, clear)
    ensures Parse(hash, data).Ok? <==>
            Cut(data, 0, 6) == [0x4c, 0x55, 0x4b, 0x53, 0xba, 0xbe] && Cut(data, 6, 2) == [0, 2]
            && hash(clear) == Cut(data, 376, 32)
  {
    assert Put(Cut(data, 0, BinaryHeaderSize), ChecksumOffset, Zeros(64)) == clear;
  }

  /** Data put over zeros is undone by zeros. */
  lemma ZerosUndo(raw: seq<u8>, at: nat, d: seq<u8>, n: nat)
    requires at + n <= |raw| && |d| <= n && forall k :: at <= k < at + n ==> raw[k] == 0
    ensures Put(Put(raw, at, d), at, Zeros(n)) == raw
  {
  }

  lemma ZerosFollow(raw: seq<u8>, at: nat, d: seq<u8>, n: nat)
    requires at + n <= |raw| && |d| <= n && forall k :: at <= k < at + n ==> raw[k] == 0
    ensures Cut(Put(raw, at, d), at, n) == d + Zeros(n - |d|)
  {
  }

  lemma ZeroBytes(raw: seq<u8>, at: nat, n: nat)
    requires at + n <= |raw| && Cut(raw, at, n) == Zeros(n)
    ensures forall k :: at <= k < at + n ==> raw[k] == 0
  {
    forall k | at <= k < at + n ensures raw[k] == 0 {
      assert Cut(raw, at, n)[k - at] == raw[k];
    }
  }

  /** Zeroing the checksum field of a serialized header gives back what was summed. */
  lemma ChecksumCovers(hash: Hash, h: Header, primary: bool)
    requires HashLaw(hash) && Fits(h)
    ensures Put(Serialize(hash, h, primary), ChecksumOffset, Zeros(64)) == Unsummed(h, primary)
    ensures Cut(Serialize(hash, h, primary), ChecksumOffset, 64) == hash(Unsummed(h, primary)) + Zeros(32)
  {
    PastFields(Zeros(BinaryHeaderSize), Fields(h, primary), ChecksumOffset, 64);
    assert Cut(Zeros(BinaryHeaderSize), ChecksumOffset, 64) == Zeros(64);
    ZeroBytes(Unsummed(h, primary), ChecksumOffset, 64);
    ZerosUndo(Unsummed(h, primary), ChecksumOffset, hash(Unsummed(h, primary)), 64);
    ZerosFollow(Unsummed(h, primary), ChecksumOffset, hash(Unsummed(h, primary)), 64);
  }

  /** The serialized header spells out its fields. */
  lemma SerializedSpells(hash: Hash, h: Header, primary: bool)
    requires HashLaw(hash) && Fits(h)
    ensures Spelled(Serialize(hash, h, primary)) == h.(checksum := hash(Unsummed(h, primary)) + Zeros(32))
  {
    FieldKept(hash, h, primary, 2);
    FieldKept(hash, h, primary, 3);
    FieldKept(hash, h, primary, 4);
    FieldKept(hash, h, primary, 6);
    FieldKept(hash, h, primary, 7);
    FieldKept(hash, h, primary, 8);
    ChecksumCovers(hash, h, primary);
    BeRoundTrip(h.size);
    BeRoundTrip(h.sequenceId);
  }

  /** Parsing either copy of a serialized header gives the header with its checksum. */
  lemma ParseUndoesSerialize(hash: Hash, h: Header, primary: bool)
    requires HashLaw(hash) && Fits(h)
    ensures Parse(hash, Serialize(hash, h, primary))
            == Ok(h.(checksum := hash(Unsummed(h, primary)) + Zeros(32)))
  {
    var data := Serialize(hash, h, primary);
    FieldKept(hash, h, primary, 0);
    FieldKept(hash, h, primary, 1);
    ChecksumCovers(hash, h, primary);
    assert Cut(data, 0, BinaryHeaderSize) == data;
    assert Cut(data, ChecksumOffset, 32) == Cut(data, ChecksumOffset, 64)[..32];
    SerializedSpells(hash, h, primary);
  }
}
