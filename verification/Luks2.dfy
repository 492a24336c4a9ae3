/** Formatting a device, opening it and keeping its TPM2 token (libs/luks2/src/lib.rs). */
module Luks2 {
  import opened Prelude
  import opened Xts
  import opened AntiForensic
  import opened Metadata
  import opened Keyslots
  import Decimal
  import Header
  import Order

  datatype LuksError =
    | Io | BadHeader(header: Header.HeaderError) | Json(meta: MetaError) | Key(key: KeyError)
    | BadAreaOffset | BadAreaSize | WrongPassphrase | NoSegment | BadSegmentOffset

  const BinaryHeaderSize: nat := Header.BinaryHeaderSize
  const SecondJson: nat := HeaderSize + BinaryHeaderSize
  const MinDisk: nat := SecondJson + JsonSize

  // ---------- the device ----------

  function Region(disk: seq<u8>, at: nat, len: nat): seq<u8>
    requires at + len <= |disk|
  {
    Cut(disk, at, len)
  }

  /** What the disk holds once the first `n` bytes of `data` went to `at`, as far as they fit. */
  function Stored(disk: seq<u8>, at: nat, data: seq<u8>, n: nat): (r: seq<u8>)
    ensures |r| == |disk|
    ensures forall k :: 0 <= k < |disk| ==>
              r[k] == if at <= k < at + n && k < at + |data| then data[k - at] else disk[k]
  {
    seq(|disk|, k requires 0 <= k < |disk| => if at <= k < at + n && k < at + |data| then data[k - at] else disk[k])
  }

  /** For each write of one call: nothing, or how many bytes it stores before it fails. */
  type Faults = nat -> Option<nat>

  function Reach(data: seq<u8>, fault: Option<nat>): nat {
    match fault case None => |data| case Some(n) => n
  }

  predicate Completes(disk: seq<u8>, at: nat, data: seq<u8>, fault: Option<nat>) {
    fault.None? && at + |data| <= |disk|
  }

  /** A block device: reads past the end fail, a write fails past the end or at a fault, after storing a part. */
  class Device {
    var bytes: seq<u8>

    constructor (content: seq<u8>)
      ensures bytes == content
    {
      bytes := content;
    }

    method ReadAt(offset: nat, len: nat) returns (r: Result<seq<u8>, LuksError>)
      ensures r.Ok? <==> offset + len <= |bytes|
      ensures r.Ok? ==> r.value == Region(bytes, offset, len)
      ensures r.Err? ==> r == Err(Io)
    {
      if offset + len > |bytes| {
        return Err(Io);
      }
      return Ok(Cut(bytes, offset, len));
    }

    method WriteAt(offset: nat, data: seq<u8>, fault: Option<nat>) returns (ok: bool)
      modifies this
      ensures ok <==> Completes(old(bytes), offset, data, fault)
      ensures bytes == Stored(old(bytes), offset, data, Reach(data, fault))
    {
      ok := Completes(bytes, offset, data, fault);
      bytes := Stored(bytes, offset, data, Reach(data, fault));
    }
  }

  // ---------- what a formatted device holds ----------

  /** The decoded primary metadata, if the disk is large enough and it decodes. */
  function Primary(p: Prims, disk: seq<u8>): Option<Metadata> {
    if |disk| < BinaryHeaderSize + JsonSize then None
    else FromJsonBuffer(p.codec, Region(disk, BinaryHeaderSize, JsonSize))
  }

  /** The primary copy is there but does not decode. */
  predicate Unreadable(p: Prims, disk: seq<u8>) {
    |disk| >= BinaryHeaderSize + JsonSize && Primary(p, disk).None?
  }

  /** The only digest is for the keyslot and is one of `key`. */
  predicate OnlyDigest(p: Prims, m: Metadata, key: seq<u8>) {
    m.digests.Keys == {"0"} && "0" in m.digests["0"].keyslots && IsDigestOf(p, m.digests["0"], key)
  }

  /** The only keyslot wraps `key` for `pass`, and the only digest is of it. */
  ghost predicate Unlocks(p: Prims, disk: seq<u8>, m: Metadata, pass: seq<u8>, key: seq<u8>)
    requires PrimsLaw(p)
  {
    |disk| >= HeaderSize && m.keyslots.Keys == {"0"} && OnlyDigest(p, m, key)
    && Decimal.Parse(m.keyslots["0"].area.offset) == Some(KeyslotAreaOffset)
    && Decimal.Parse(m.keyslots["0"].area.size) == Some(KeyslotAreaSize)
    && Unwraps(p, pass, m.keyslots["0"], key, Region(disk, KeyslotAreaOffset, KeyslotAreaSize))
  }

  /** What the header area says of the volume. */
  datatype Volume = Volume(uuid: seq<u8>, sectorSize: nat, key: seq<u8>)

  /** The parsed binary header. */
  function HeaderOf(p: Prims, disk: seq<u8>): Result<Header.Header, LuksError> {
    if |disk| < BinaryHeaderSize then Err(Io)
    else
      match Header.Parse(p.hash, Region(disk, 0, BinaryHeaderSize))
      case Err(e) => Err(BadHeader(e))
      case Ok(h) => Ok(h)
  }

  /** The segment starts after the header area. */
  predicate HoldsSegment(m: Metadata, sectorSize: nat) {
    "0" in m.segments && Decimal.Parse(m.segments["0"].offset) == Some(HeaderSize)
    && m.segments["0"].sectorSize == sectorSize
  }

  /** The binary header and the metadata identify the volume. */
  predicate Identified(p: Prims, disk: seq<u8>, m: Metadata, volume: Volume) {
    var h := HeaderOf(p, disk);
    h.Ok? && h.value.uuid == volume.uuid && HoldsSegment(m, volume.sectorSize)
  }

  /** The last token written, if any was. */
  ghost predicate LastToken(p: Prims, m: Metadata, last: Option<Token>) {
    match last
    case None => forall id :: id in m.tokens ==> !IsTpm2(m.tokens[id])
    case Some(token) => HoldsToken(p.codec, m.tokens, token)
  }

  /**
   * The header area gives the volume for `pass` and holds the token `last`. Nothing is said of the
   * second copy, which lies in the data segment.
   */
  ghost predicate Sealed(p: Prims, disk: seq<u8>, pass: seq<u8>, volume: Volume, last: Option<Token>)
    requires PrimsLaw(p)
  {
    var m := Primary(p, disk);
    m.Some? && Unlocks(p, disk, m.value, pass, volume.key) && Identified(p, disk, m.value, volume)
    && AtMostOneTpm2(m.value.tokens) && LastToken(p, m.value, last)
  }

  /** The two JSON copies are equal. */
  predicate Mirrored(disk: seq<u8>) {
    |disk| >= MinDisk && Region(disk, BinaryHeaderSize, JsonSize) == Region(disk, SecondJson, JsonSize)
  }

  /** The binary header and the keyslot area are the same. */
  predicate SameHeader(before: seq<u8>, after: seq<u8>) {
    |after| == |before| >= HeaderSize
    && Region(after, 0, BinaryHeaderSize) == Region(before, 0, BinaryHeaderSize)
    && Region(after, KeyslotAreaOffset, KeyslotAreaSize) == Region(before, KeyslotAreaOffset, KeyslotAreaSize)
  }

  /** Sealing depends on the header, the keyslot area and the text of the primary copy only. */
  lemma SealedBy(p: Prims, before: seq<u8>, after: seq<u8>, pass: seq<u8>, volume: Volume, last: Option<Token>)
    requires PrimsLaw(p) && Sealed(p, before, pass, volume, last) && SameHeader(before, after)
    requires JsonText(Region(after, BinaryHeaderSize, JsonSize)) == JsonText(Region(before, BinaryHeaderSize, JsonSize))
    ensures Sealed(p, after, pass, volume, last)
  {
  }

  // ---------- TPM2 tokens ----------

  predicate IsTpm2Token(t: Token) {
    t.type_ == "tpm2"
  }

  method ReadMetadata(p: Prims, device: Device) returns (r: Result<Metadata, LuksError>)
    ensures |device.bytes| < BinaryHeaderSize + JsonSize ==> r == Err(Io)
    ensures |device.bytes| >= BinaryHeaderSize + JsonSize ==>
              r == match Primary(p, device.bytes) case None => Err(Json(DecodeFailed)) case Some(m) => Ok(m)
  {
    var json := device.ReadAt(BinaryHeaderSize, JsonSize);
    if json.Err? {
      return Err(json.error);
    }
    var m := FromJsonBuffer(p.codec, json.value);
    return if m.None? then Err(Json(DecodeFailed)) else Ok(m.value);
  }

  method ReadTpm2Token(p: Prims, device: Device) returns (r: Result<Token, LuksError>)
    requires PrimsLaw(p)
    ensures r == Err(Io) <==> |device.bytes| < BinaryHeaderSize + JsonSize
    ensures r == Err(Json(DecodeFailed)) <==> Unreadable(p, device.bytes)
    ensures forall pass, volume, token :: Sealed(p, device.bytes, pass, volume, Some(token)) ==> r == Ok(token)
    ensures forall pass, volume :: Sealed(p, device.bytes, pass, volume, None) ==> r == Err(Json(NoToken))
  {
    var m := ReadMetadata(p, device);
    if m.Err? {
      return Err(m.error);
    }
    var token := GetTpm2Token(p.codec, m.value);
    return if token.Err? then Err(Json(token.error)) else Ok(token.value);
  }

  /** The JSON a token write puts down when the token goes under `id`, or why there is none. */
  function NewJson(p: Prims, disk: seq<u8>, token: Token, id: string): Result<seq<u8>, LuksError> {
    if |disk| < BinaryHeaderSize + JsonSize then Err(Io)
    else
      match Primary(p, disk)
      case None => Err(Json(DecodeFailed))
      case Some(m) =>
        match WithToken(p.codec, m, token, id)
        case Err(e) => Err(Json(e))
        case Ok(m') =>
          match ToJsonBuffer(p.codec, m', JsonSize)
          case Err(e) => Err(Json(e))
          case Ok(json) => Ok(json)
  }

  /** `id` is one the token can get on this disk. */
  ghost predicate IdFor(p: Prims, disk: seq<u8>, token: Token, id: string) {
    Primary(p, disk).Some? && p.codec.toValue(token).Some? ==> TokenId(Primary(p, disk).value.tokens, id)
  }

  /** The disk after writing the primary copy and then, if that completed, the second; and whether both completed. */
  function AfterWrites(disk: seq<u8>, json: seq<u8>, faults: Faults): (seq<u8>, bool) {
    var one := Stored(disk, BinaryHeaderSize, json, Reach(json, faults(0)));
    if !Completes(disk, BinaryHeaderSize, json, faults(0)) then (one, false)
    else (Stored(one, SecondJson, json, Reach(json, faults(1))), Completes(one, SecondJson, json, faults(1)))
  }

  /** Replaces the token in both JSON copies; a failure before the writes leaves the device as it was. */
  method WriteTpm2Token(p: Prims, device: Device, token: Token, faults: Faults)
    returns (r: Result<(), LuksError>, ghost id: string)
    requires PrimsLaw(p)
    modifies device
    ensures IdFor(p, old(device.bytes), token, id)
    ensures match NewJson(p, old(device.bytes), token, id)
            case Err(e) => r == Err(e) && device.bytes == old(device.bytes)
            case Ok(json) =>
              device.bytes == AfterWrites(old(device.bytes), json, faults).0
              && r == if AfterWrites(old(device.bytes), json, faults).1 then Ok(()) else Err(Io)
  {
    id := "";
    var m := ReadMetadata(p, device);
    if m.Err? {
      return Err(m.error), id;
    }
    FewTokensLeaveRoom(m.value.tokens);
    var updated;
    updated, id := SetTpm2Token(p.codec, m.value, token);
    if updated.Err? {
      return Err(Json(updated.error)), id;
    }
    var json := ToJsonBuffer(p.codec, updated.value, JsonSize);
    if json.Err? {
      return Err(Json(json.error)), id;
    }
    var ok := device.WriteAt(BinaryHeaderSize, json.value, faults(0));
    if !ok {
      return Err(Io), id;
    }
    ok := device.WriteAt(SecondJson, json.value, faults(1));
    return if ok then Ok(()) else Err(Io), id;
  }

  /** What a token write left in the primary copy: the old text, the new text, or neither. */
  datatype Effect = Kept | Landed | Torn

  function EffectOf(before: seq<u8>, json: seq<u8>, after: seq<u8>): Effect
    requires |before| == |after| >= HeaderSize
  {
    var text := JsonText(Region(after, BinaryHeaderSize, JsonSize));
    if text == JsonText(json) then Landed
    else if text == JsonText(Region(before, BinaryHeaderSize, JsonSize)) then Kept
    else Torn
  }

  predicate InPrimary(k: nat) {
    BinaryHeaderSize <= k < BinaryHeaderSize + JsonSize
  }

  predicate InSecond(k: nat) {
    SecondJson <= k < SecondJson + JsonSize
  }

  /** Whatever fails, only the two JSON copies change, and the second only once the primary is complete. */
  lemma WritesKeepRest(disk: seq<u8>, json: seq<u8>, faults: Faults)
    requires |disk| >= HeaderSize && |json| == JsonSize
    ensures var after := AfterWrites(disk, json, faults).0;
            SameHeader(disk, after)
            && (forall k :: 0 <= k < |disk| && !InPrimary(k) && !InSecond(k) ==> after[k] == disk[k])
            && (faults(0).Some? ==> forall k :: HeaderSize <= k < |disk| ==> after[k] == disk[k])
  {
  }

  /** The primary copy after the writes: the stored part of the new JSON over the old. */
  lemma PrimaryAfter(disk: seq<u8>, json: seq<u8>, faults: Faults)
    requires |disk| >= HeaderSize && |json| == JsonSize
    ensures var after := AfterWrites(disk, json, faults).0;
            |after| == |disk|
            && forall k :: 0 <= k < JsonSize ==>
                 Region(after, BinaryHeaderSize, JsonSize)[k] ==
                 if k < Reach(json, faults(0)) then json[k] else Region(disk, BinaryHeaderSize, JsonSize)[k]
  {
  }

  /** The new JSON differs from the old area at some position of `[from, to)` before the end of a text. */
  ghost predicate Differs(json: seq<u8>, area: seq<u8>, from: nat, to: nat, end: nat) {
    exists k :: from <= k < to && k <= end && k < |json| && k < |area| && json[k] != area[k]
  }

  /**
   * A write tears the primary copy exactly if the stored part changes the old text and the part that
   * was not stored would have changed it too.
   */
  lemma TornExactly(before: seq<u8>, json: seq<u8>, faults: Faults)
    requires |before| >= HeaderSize && |json| == JsonSize
    ensures var n, area := Reach(json, faults(0)), Region(before, BinaryHeaderSize, JsonSize);
            EffectOf(before, json, AfterWrites(before, json, faults).0) == Torn <==>
            Differs(json, area, 0, n, FirstZero(area)) && Differs(json, area, n, JsonSize, FirstZero(json))
  {
    var area, now := Region(before, BinaryHeaderSize, JsonSize),
                     Region(AfterWrites(before, json, faults).0, BinaryHeaderSize, JsonSize);
    PrimaryAfter(before, json, faults);
    SameText(now, json);
    SameText(now, area);
  }

  /** The new JSON and the old area differ at two places, the first within the old text, the second within the new. */
  ghost predicate TwoChanges(area: seq<u8>, json: seq<u8>) {
    exists i, j :: 0 <= i < j < |area| == |json| && i <= FirstZero(area) && j <= FirstZero(json)
                   && area[i] != json[i] && area[j] != json[j]
  }

  /** Some failure of a token write can tear the primary copy exactly if the texts differ at two places. */
  lemma CanTear(before: seq<u8>, json: seq<u8>)
    requires |before| >= HeaderSize && |json| == JsonSize
    ensures (exists faults: Faults :: EffectOf(before, json, AfterWrites(before, json, faults).0) == Torn) <==>
            TwoChanges(Region(before, BinaryHeaderSize, JsonSize), json)
  {
    var area := Region(before, BinaryHeaderSize, JsonSize);
    if faults: Faults :| EffectOf(before, json, AfterWrites(before, json, faults).0) == Torn {
      TearFindsTwo(before, json, faults);
    }
    if TwoChanges(area, json) {
      var i, j :| 0 <= i < j < |area| == |json| && i <= FirstZero(area) && j <= FirstZero(json)
                  && area[i] != json[i] && area[j] != json[j];
      TearBetween(before, json, i, j, FailAfter(j));
    }
  }

  /** Every write fails after `n` bytes. */
  function FailAfter(n: nat): Faults {
    _ => Some(n)
  }

  lemma TearFindsTwo(before: seq<u8>, json: seq<u8>, faults: Faults)
    requires |before| >= HeaderSize && |json| == JsonSize
    requires EffectOf(before, json, AfterWrites(before, json, faults).0) == Torn
    ensures TwoChanges(Region(before, BinaryHeaderSize, JsonSize), json)
  {
    var area, n := Region(before, BinaryHeaderSize, JsonSize), Reach(json, faults(0));
    TornExactly(before, json, faults);
    var i :| 0 <= i < n && i <= FirstZero(area) && i < |json| && i < |area| && json[i] != area[i];
    var j :| n <= j < JsonSize && j <= FirstZero(json) && j < |json| && j < |area| && json[j] != area[j];
  }

  lemma TearBetween(before: seq<u8>, json: seq<u8>, i: nat, j: nat, faults: Faults)
    requires |before| >= HeaderSize && |json| == JsonSize && i < j < JsonSize && faults(0) == Some(j)
    requires var area := Region(before, BinaryHeaderSize, JsonSize);
             i <= FirstZero(area) && j <= FirstZero(json) && area[i] != json[i] && area[j] != json[j]
    ensures EffectOf(before, json, AfterWrites(before, json, faults).0) == Torn
  {
    TornExactly(before, json, faults);
  }

  /** A complete primary write lands; only a fault inside the new text can tear it. */
  lemma TearNeedsFault(before: seq<u8>, json: seq<u8>, faults: Faults)
    requires |before| >= HeaderSize && |json| == JsonSize
    ensures var effect := EffectOf(before, json, AfterWrites(before, json, faults).0);
            (faults(0).None? ==> effect == Landed)
            && (effect == Torn ==> faults(0).Some? && 0 < faults(0).value <= FirstZero(json))
  {
    TornExactly(before, json, faults);
    if faults(0).None? {
      PrimaryAfter(before, json, faults);
      assert Region(AfterWrites(before, json, faults).0, BinaryHeaderSize, JsonSize) == json;
    }
  }

  /** A tear leaves the second copy as it was: if the copies were equal, one of them is still whole. */
  lemma TearSparesSecond(before: seq<u8>, json: seq<u8>, faults: Faults)
    requires Mirrored(before) && |json| == JsonSize
    requires EffectOf(before, json, AfterWrites(before, json, faults).0) == Torn
    ensures Region(AfterWrites(before, json, faults).0, SecondJson, JsonSize)
            == Region(before, BinaryHeaderSize, JsonSize)
  {
    TearNeedsFault(before, json, faults);
    WritesKeepRest(before, json, faults);
  }

  /**
   * After a tear to text that does not decode, reading the token and opening fail, since both read the
   * primary copy only, although the second copy still decodes to the old metadata.
   */
  lemma TearHidesWholeCopy(p: Prims, before: seq<u8>, json: seq<u8>, faults: Faults)
    requires Mirrored(before) && |json| == JsonSize && Primary(p, before).Some?
    requires EffectOf(before, json, AfterWrites(before, json, faults).0) == Torn
    requires Primary(p, AfterWrites(before, json, faults).0).None?
    ensures var after := AfterWrites(before, json, faults).0;
            Unreadable(p, after)
            && FromJsonBuffer(p.codec, Region(after, SecondJson, JsonSize)) == Primary(p, before)
  {
    TearSparesSecond(before, json, faults);
  }

  /** A write that completes leaves both copies equal to the new JSON and changes nothing else. */
  lemma SuccessMirrors(before: seq<u8>, json: seq<u8>, faults: Faults)
    requires |json| == JsonSize && AfterWrites(before, json, faults).1
    ensures |before| >= MinDisk
    ensures var after := AfterWrites(before, json, faults).0;
            Mirrored(after) && Region(after, SecondJson, JsonSize) == json
  {
  }

  /** With the same header and new metadata that differs in its tokens only, the seal moves to the new token. */
  lemma Resealed(p: Prims, before: seq<u8>, after: seq<u8>, pass: seq<u8>, volume: Volume, last: Option<Token>,
                 m': Metadata, token: Token)
    requires PrimsLaw(p) && Sealed(p, before, pass, volume, last) && SameHeader(before, after)
    requires Primary(p, after) == Some(m') && m' == Primary(p, before).value.(tokens := m'.tokens)
    requires HoldsToken(p.codec, m'.tokens, token)
    ensures Sealed(p, after, pass, volume, Some(token))
  {
    assert Unlocks(p, after, m', pass, volume.key);
    assert HeaderOf(p, after) == HeaderOf(p, before);
  }

  /** The JSON of a token write decodes to metadata that differs in its tokens only and holds the token. */
  lemma NewJsonHolds(p: Prims, disk: seq<u8>, token: Token, id: string, json: seq<u8>) returns (m': Metadata)
    requires PrimsLaw(p) && IdFor(p, disk, token, id) && NewJson(p, disk, token, id) == Ok(json)
    ensures |json| == JsonSize && Primary(p, disk).Some? && p.codec.decode(JsonText(json)) == Some(m')
    ensures m' == Primary(p, disk).value.(tokens := m'.tokens)
    ensures AtMostOneTpm2(Primary(p, disk).value.tokens) && IsTpm2Token(token) ==> HoldsToken(p.codec, m'.tokens, token)
  {
    var m := Primary(p, disk).value;
    m' := WithToken(p.codec, m, token, id).value;
    JsonRoundTrip(p.codec, m', JsonSize);
    WithTokenHolds(p.codec, m, token, id);
  }

  /** Landed writes seal with the new token, kept ones with the old. */
  lemma EffectSeals(p: Prims, before: seq<u8>, token: Token, id: string, json: seq<u8>, after: seq<u8>,
                    pass: seq<u8>, volume: Volume, last: Option<Token>)
    requires PrimsLaw(p) && Sealed(p, before, pass, volume, last) && IsTpm2Token(token)
    requires IdFor(p, before, token, id) && NewJson(p, before, token, id) == Ok(json) && SameHeader(before, after)
    ensures EffectOf(before, json, after) == Kept ==> Sealed(p, after, pass, volume, last)
    ensures EffectOf(before, json, after) == Landed ==> Sealed(p, after, pass, volume, Some(token))
  {
    var m' := NewJsonHolds(p, before, token, id, json);
    if EffectOf(before, json, after) == Kept {
      SealedBy(p, before, after, pass, volume, last);
    } else if EffectOf(before, json, after) == Landed {
      Resealed(p, before, after, pass, volume, last, m', token);
    }
  }

  // ---------- opening ----------

  /** The slot's area is well described and lies on the disk. */
  ghost predicate SlotReadable(disk: seq<u8>, slot: Keyslot) {
    var offset, size := Decimal.Parse(slot.area.offset), Decimal.Parse(slot.area.size);
    offset.Some? && size.Some? && offset.value + size.value <= |disk|
  }

  /** The slot's area unwraps to `key` under the passphrase, and a digest of the slot is one of it. */
  ghost predicate SlotAccepts(p: Prims, disk: seq<u8>, pass: seq<u8>, m: Metadata, id: string, key: seq<u8>)
    requires PrimsLaw(p) && id in m.keyslots && SlotReadable(disk, m.keyslots[id])
  {
    var slot := m.keyslots[id];
    var data := Region(disk, Decimal.Parse(slot.area.offset).value, Decimal.Parse(slot.area.size).value);
    Unwraps(p, pass, slot, key, data) && Confirmed(p, key, id, m)
  }

  ghost predicate SlotRejects(p: Prims, disk: seq<u8>, pass: seq<u8>, m: Metadata, id: string)
    requires PrimsLaw(p) && id in m.keyslots
  {
    SlotReadable(disk, m.keyslots[id]) && forall key :: !SlotAccepts(p, disk, pass, m, id, key)
  }

  /** The first slot, by id, that does not reject. */
  ghost predicate FirstSlot(p: Prims, disk: seq<u8>, pass: seq<u8>, m: Metadata, id: string)
    requires PrimsLaw(p)
  {
    id in m.keyslots && forall other :: other in m.keyslots && other != id && Order.LexLe(other, id) ==>
                          SlotRejects(p, disk, pass, m, other)
  }

  lemma EarlierName(names: seq<string>, i: nat, other: string) returns (j: nat)
    requires Order.Sorted(names, Order.LexLe) && i < |names|
    requires other in names && other != names[i] && Order.LexLe(other, names[i])
    ensures j < i && names[j] == other
  {
    j :| 0 <= j < |names| && names[j] == other;
    if j > i { Order.LexLeAntisymmetric(other, names[i]); }
  }

  /** The slots of the first `i` names reject. */
  ghost predicate RejectBefore(p: Prims, disk: seq<u8>, pass: seq<u8>, m: Metadata, names: seq<string>, i: nat)
    requires PrimsLaw(p)
  {
    i <= |names| && forall j :: 0 <= j < i ==> names[j] in m.keyslots && SlotRejects(p, disk, pass, m, names[j])
  }

  lemma FirstInOrder(p: Prims, disk: seq<u8>, pass: seq<u8>, m: Metadata, names: seq<string>, i: nat)
    requires PrimsLaw(p) && multiset(names) == multiset(m.keyslots.Keys) && Order.Sorted(names, Order.LexLe)
    requires i < |names| && names[i] in m.keyslots
    requires RejectBefore(p, disk, pass, m, names, i)
    ensures FirstSlot(p, disk, pass, m, names[i])
  {
    forall other | other in m.keyslots && other != names[i] && Order.LexLe(other, names[i])
      ensures SlotRejects(p, disk, pass, m, other)
    {
      assert other in multiset(names);
      var j := EarlierName(names, i, other);
    }
  }

  /** What one slot gives: an accepted key, nothing, or an error if its area cannot be read. */
  method TrySlot(p: Prims, device: Device, pass: seq<u8>, m: Metadata, id: string)
    returns (r: Result<Option<seq<u8>>, LuksError>)
    requires PrimsLaw(p) && id in m.keyslots
    ensures r.Err? <==> !SlotReadable(device.bytes, m.keyslots[id])
    ensures r.Err? ==> r.error != WrongPassphrase
    ensures r.Ok? && r.value.Some? ==> SlotAccepts(p, device.bytes, pass, m, id, r.value.value)
    ensures r.Ok? && r.value.None? ==> SlotRejects(p, device.bytes, pass, m, id)
  {
    var slot := m.keyslots[id];
    var offset := Decimal.Parse(slot.area.offset);
    if offset.None? {
      return Err(BadAreaOffset);
    }
    var size := Decimal.Parse(slot.area.size);
    if size.None? {
      return Err(BadAreaSize);
    }
    var data := device.ReadAt(offset.value, size.value);
    if data.Err? {
      return Err(data.error);
    }
    var candidate := DecryptKeyslot(p, pass, slot, data.value);
    if candidate.Ok? { CandidateMeans(p, candidate.value, id, m); }
    if candidate.Ok? && VerifyCandidate(p, candidate.value, id, m) {
      return Ok(Some(candidate.value));
    }
    return Ok(None);
  }

  /**
   * What trying the slots in id order gives: a key that the first slot that does not reject accepts,
   * a wrong passphrase when all slots reject, any other error when the first one is unreadable.
   */
  ghost predicate Tried(p: Prims, disk: seq<u8>, pass: seq<u8>, m: Metadata, r: Result<seq<u8>, LuksError>)
    requires PrimsLaw(p)
  {
    if r == Err(WrongPassphrase) then forall id :: id in m.keyslots ==> SlotRejects(p, disk, pass, m, id)
    else exists id :: FirstSlot(p, disk, pass, m, id)
                      && if r.Ok? then SlotReadable(disk, m.keyslots[id]) && SlotAccepts(p, disk, pass, m, id, r.value)
                         else !SlotReadable(disk, m.keyslots[id])
  }

  lemma TriedAt(p: Prims, disk: seq<u8>, pass: seq<u8>, m: Metadata, id: string, r: Result<seq<u8>, LuksError>)
    requires PrimsLaw(p) && FirstSlot(p, disk, pass, m, id) && r != Err(WrongPassphrase)
    requires r.Ok? ==> SlotReadable(disk, m.keyslots[id]) && SlotAccepts(p, disk, pass, m, id, r.value)
    requires r.Err? ==> !SlotReadable(disk, m.keyslots[id])
    ensures Tried(p, disk, pass, m, r)
  {
  }

  lemma NoneAccepts(p: Prims, disk: seq<u8>, pass: seq<u8>, m: Metadata, names: seq<string>)
    requires PrimsLaw(p) && multiset(names) == multiset(m.keyslots.Keys)
    requires RejectBefore(p, disk, pass, m, names, |names|)
    ensures Tried(p, disk, pass, m, Err(WrongPassphrase))
  {
    forall id | id in m.keyslots ensures SlotRejects(p, disk, pass, m, id) {
      assert id in multiset(names);
    }
  }

  lemma OneMoreRejects(p: Prims, disk: seq<u8>, pass: seq<u8>, m: Metadata, names: seq<string>, i: nat)
    requires PrimsLaw(p) && RejectBefore(p, disk, pass, m, names, i) && i < |names| && names[i] in m.keyslots
    requires SlotRejects(p, disk, pass, m, names[i])
    ensures RejectBefore(p, disk, pass, m, names, i + 1)
  {
  }

  method TryKeyslots(p: Prims, device: Device, pass: seq<u8>, m: Metadata) returns (r: Result<seq<u8>, LuksError>)
    requires PrimsLaw(p)
    ensures Tried(p, device.bytes, pass, m, r)
  {
    var names := Order.SortedKeys(m.keyslots.Keys);
    for i := 0 to |names|
      invariant RejectBefore(p, device.bytes, pass, m, names, i)
    {
      var id := names[i];
      assert id in multiset(names);
      FirstInOrder(p, device.bytes, pass, m, names, i);
      var one := TrySlot(p, device, pass, m, id);
      if one.Err? {
        TriedAt(p, device.bytes, pass, m, id, Err(one.error));
        return Err(one.error);
      }
      if one.value.Some? {
        TriedAt(p, device.bytes, pass, m, id, Ok(one.value.value));
        return Ok(one.value.value);
      }
      OneMoreRejects(p, device.bytes, pass, m, names, i);
    }
    NoneAccepts(p, device.bytes, pass, m, names);
    return Err(WrongPassphrase);
  }

  /** A device that unlocks has one slot, and it accepts the volume key and nothing else. */
  lemma UnlockedAccepts(p: Prims, disk: seq<u8>, m: Metadata, pass: seq<u8>, key: seq<u8>)
    requires PrimsLaw(p) && Unlocks(p, disk, m, pass, key)
    ensures SlotReadable(disk, m.keyslots["0"]) && SlotAccepts(p, disk, pass, m, "0", key)
    ensures forall k :: SlotAccepts(p, disk, pass, m, "0", k) ==> k == key
  {
    var data := Region(disk, KeyslotAreaOffset, KeyslotAreaSize);
    forall k | SlotAccepts(p, disk, pass, m, "0", k) ensures k == key {
      UnwrapsToOne(p, pass, m.keyslots["0"], key, k, data);
    }
  }

  lemma AcceptsOne(p: Prims, disk: seq<u8>, pass: seq<u8>, m: Metadata, id: string, x: seq<u8>, y: seq<u8>)
    requires PrimsLaw(p) && id in m.keyslots && SlotReadable(disk, m.keyslots[id])
    requires SlotAccepts(p, disk, pass, m, id, x) && SlotAccepts(p, disk, pass, m, id, y)
    ensures x == y
  {
    var slot := m.keyslots[id];
    UnwrapsToOne(p, pass, slot, x, y,
                 Region(disk, Decimal.Parse(slot.area.offset).value, Decimal.Parse(slot.area.size).value));
  }

  /** Under `pass` the keyslot area gives `candidate`, which has the digest of the volume key. */
  ghost predicate Passes(p: Prims, disk: seq<u8>, m: Metadata, key: seq<u8>, pass: seq<u8>, candidate: seq<u8>)
    requires PrimsLaw(p) && "0" in m.keyslots && "0" in m.digests && |disk| >= HeaderSize
  {
    Unwraps(p, pass, m.keyslots["0"], candidate, Region(disk, KeyslotAreaOffset, KeyslotAreaSize))
    && SameDigest(p, m.digests["0"], candidate, key)
  }

  lemma OnlyDigestConfirms(p: Prims, m: Metadata, key: seq<u8>, candidate: seq<u8>)
    requires OnlyDigest(p, m, key)
    ensures Confirmed(p, candidate, "0", m) <==> SameDigest(p, m.digests["0"], candidate, key)
  {
    SameDigestMeans(p, m.digests["0"], key, candidate);
    assert forall d :: d in m.digests ==> d == "0";
  }

  lemma AcceptedPasses(p: Prims, disk: seq<u8>, m: Metadata, owner: seq<u8>, key: seq<u8>, pass: seq<u8>,
                       candidate: seq<u8>)
    requires PrimsLaw(p) && Unlocks(p, disk, m, owner, key)
    ensures SlotReadable(disk, m.keyslots["0"])
    ensures SlotAccepts(p, disk, pass, m, "0", candidate) <==> Passes(p, disk, m, key, pass, candidate)
  {
    OnlyDigestConfirms(p, m, key, candidate);
  }

  lemma TriedOnlySlot(p: Prims, disk: seq<u8>, pass: seq<u8>, m: Metadata, r: Result<seq<u8>, LuksError>)
    requires PrimsLaw(p) && m.keyslots.Keys == {"0"} && Tried(p, disk, pass, m, r)
    ensures r == Err(WrongPassphrase) ==> SlotRejects(p, disk, pass, m, "0")
    ensures r != Err(WrongPassphrase) && SlotReadable(disk, m.keyslots["0"]) ==>
              r.Ok? && SlotAccepts(p, disk, pass, m, "0", r.value)
  {
    assert forall id :: id in m.keyslots ==> id == "0";
  }

  /**
   * What any passphrase gives on a device that unlocks for its owner: a key exactly if the keyslot area
   * gives it and it has the volume key's digest, and a wrong passphrase exactly if there is none.
   */
  lemma WrongPassphraseExactly(p: Prims, disk: seq<u8>, m: Metadata, owner: seq<u8>, key: seq<u8>, pass: seq<u8>,
                               r: Result<seq<u8>, LuksError>)
    requires PrimsLaw(p) && Unlocks(p, disk, m, owner, key) && Tried(p, disk, pass, m, r)
    ensures r == Err(WrongPassphrase) <==> forall candidate :: !Passes(p, disk, m, key, pass, candidate)
    ensures forall candidate :: r == Ok(candidate) <==> Passes(p, disk, m, key, pass, candidate)
  {
    AcceptedPasses(p, disk, m, owner, key, pass, key);
    TriedOnlySlot(p, disk, pass, m, r);
    forall candidate
      ensures r == Ok(candidate) <==> Passes(p, disk, m, key, pass, candidate)
    {
      AcceptedPasses(p, disk, m, owner, key, pass, candidate);
      if r.Ok? && SlotAccepts(p, disk, pass, m, "0", candidate) {
        AcceptsOne(p, disk, pass, m, "0", candidate, r.value);
      }
    }
  }

  /** What the device mapper is asked for, in 512-byte sectors. */
  datatype Mapping = Mapping(uuid: seq<u8>, key: seq<u8>, offset: nat, size: nat, sectorSize: nat)

  /** The volume from the end of the header area to the end of the disk. */
  function MappingOf(volume: Volume, diskSize: nat): Mapping
    requires diskSize >= HeaderSize
  {
    Mapping(volume.uuid, volume.key, HeaderSize / 512, (diskSize - HeaderSize) / 512, volume.sectorSize)
  }

  method OpenVolumeKey(p: Prims, device: Device, pass: seq<u8>, m: Metadata) returns (r: Result<seq<u8>, LuksError>)
    requires PrimsLaw(p) && Primary(p, device.bytes) == Some(m)
    ensures Tried(p, device.bytes, pass, m, r)
    ensures forall volume, last :: Sealed(p, device.bytes, pass, volume, last) ==> r == Ok(volume.key)
  {
    r := TryKeyslots(p, device, pass, m);
    forall volume, last | Sealed(p, device.bytes, pass, volume, last) ensures r == Ok(volume.key) {
      UnlockedAccepts(p, device.bytes, m, pass, volume.key);
    }
  }

  /** The mapping that the header and the segment of the metadata describe. */
  function SegmentMapping(h: Header.Header, m: Metadata, key: seq<u8>, diskSize: nat): Result<Mapping, LuksError> {
    if "0" !in m.segments then Err(NoSegment)
    else
      match Decimal.Parse(m.segments["0"].offset)
      case None => Err(BadSegmentOffset)
      case Some(start) =>
        var size := if start <= diskSize then diskSize - start else 0;
        Ok(Mapping(h.uuid, key, start / 512, size / 512, m.segments["0"].sectorSize))
  }

  lemma SegmentMapped(h: Header.Header, m: Metadata, volume: Volume, diskSize: nat)
    requires HoldsSegment(m, volume.sectorSize) && h.uuid == volume.uuid && diskSize >= HeaderSize
    ensures SegmentMapping(h, m, volume.key, diskSize) == Ok(MappingOf(volume, diskSize))
  {
  }

  lemma SealedMapping(p: Prims, disk: seq<u8>, pass: seq<u8>, volume: Volume, last: Option<Token>)
    requires PrimsLaw(p) && Sealed(p, disk, pass, volume, last)
    ensures SegmentMapping(HeaderOf(p, disk).value, Primary(p, disk).value, volume.key, |disk|)
            == Ok(MappingOf(volume, |disk|))
  {
    SegmentMapped(HeaderOf(p, disk).value, Primary(p, disk).value, volume, |disk|);
  }

  method ReadHeader(p: Prims, device: Device) returns (r: Result<Header.Header, LuksError>)
    ensures r == HeaderOf(p, device.bytes)
  {
    var head := device.ReadAt(0, BinaryHeaderSize);
    if head.Err? {
      return Err(head.error);
    }
    var h := Header.Parse(p.hash, head.value);
    return if h.Err? then Err(BadHeader(h.error)) else Ok(h.value);
  }

  /** A keyslot gives the key, and the header and the segment give the rest of the mapping. */
  ghost predicate OpensAs(p: Prims, disk: seq<u8>, pass: seq<u8>, mapping: Mapping)
    requires PrimsLaw(p)
  {
    HeaderOf(p, disk).Ok? && Primary(p, disk).Some?
    && Tried(p, disk, pass, Primary(p, disk).value, Ok(mapping.key))
    && SegmentMapping(HeaderOf(p, disk).value, Primary(p, disk).value, mapping.key, |disk|) == Ok(mapping)
  }

  /** There is a mapping for the passphrase. */
  ghost predicate Opens(p: Prims, disk: seq<u8>, pass: seq<u8>)
    requires PrimsLaw(p)
  {
    exists mapping :: OpensAs(p, disk, pass, mapping)
  }

  lemma OneFirstSlot(p: Prims, disk: seq<u8>, pass: seq<u8>, m: Metadata, a: string, b: string)
    requires PrimsLaw(p) && FirstSlot(p, disk, pass, m, a) && FirstSlot(p, disk, pass, m, b)
    requires !SlotRejects(p, disk, pass, m, a) && !SlotRejects(p, disk, pass, m, b)
    ensures a == b
  {
    Order.LexLeTotal(a, b);
  }

  /** Where trying the slots can give a key, it gives nothing else. */
  lemma TriedOne(p: Prims, disk: seq<u8>, pass: seq<u8>, m: Metadata, key: seq<u8>, r: Result<seq<u8>, LuksError>)
    requires PrimsLaw(p) && Tried(p, disk, pass, m, Ok(key)) && Tried(p, disk, pass, m, r)
    ensures r == Ok(key)
  {
    var a :| FirstSlot(p, disk, pass, m, a)
             && SlotReadable(disk, m.keyslots[a]) && SlotAccepts(p, disk, pass, m, a, key);
    if r != Err(WrongPassphrase) {
      var b :| FirstSlot(p, disk, pass, m, b)
               && if r.Ok? then SlotReadable(disk, m.keyslots[b]) && SlotAccepts(p, disk, pass, m, b, r.value)
                  else !SlotReadable(disk, m.keyslots[b]);
      OneFirstSlot(p, disk, pass, m, a, b);
      if r.Ok? { AcceptsOne(p, disk, pass, m, a, key, r.value); }
    }
  }

  /** What trying the slots gave, mapped. */
  function Mapped(h: Header.Header, m: Metadata, key: Result<seq<u8>, LuksError>, diskSize: nat)
    : Result<Mapping, LuksError>
  {
    match key case Err(e) => Err(e) case Ok(k) => SegmentMapping(h, m, k, diskSize)
  }

  lemma MappedKey(h: Header.Header, m: Metadata, key: seq<u8>, diskSize: nat)
    ensures SegmentMapping(h, m, key, diskSize).Ok? ==> SegmentMapping(h, m, key, diskSize).value.key == key
  {
  }

  lemma MappedOpens(p: Prims, disk: seq<u8>, pass: seq<u8>, h: Header.Header, m: Metadata, key: seq<u8>,
                    mapping: Mapping)
    requires PrimsLaw(p) && HeaderOf(p, disk) == Ok(h) && Primary(p, disk) == Some(m)
    requires Tried(p, disk, pass, m, Ok(key)) && SegmentMapping(h, m, key, |disk|) == Ok(mapping)
    ensures OpensAs(p, disk, pass, mapping)
  {
    MappedKey(h, m, key, |disk|);
  }

  lemma OpensGives(p: Prims, disk: seq<u8>, pass: seq<u8>, h: Header.Header, m: Metadata,
                   key: Result<seq<u8>, LuksError>, mapping: Mapping)
    requires PrimsLaw(p) && HeaderOf(p, disk) == Ok(h) && Primary(p, disk) == Some(m)
    requires Tried(p, disk, pass, m, key) && OpensAs(p, disk, pass, mapping)
    ensures Mapped(h, m, key, |disk|) == Ok(mapping)
  {
    TriedOne(p, disk, pass, m, mapping.key, key);
  }

  lemma OpenedWith(p: Prims, disk: seq<u8>, pass: seq<u8>, h: Header.Header, m: Metadata,
                   key: Result<seq<u8>, LuksError>, r: Result<Mapping, LuksError>)
    requires PrimsLaw(p) && HeaderOf(p, disk) == Ok(h) && Primary(p, disk) == Some(m)
    requires Tried(p, disk, pass, m, key) && r == Mapped(h, m, key, |disk|)
    ensures r.Ok? ==> OpensAs(p, disk, pass, r.value)
    ensures r.Ok? <==> Opens(p, disk, pass)
  {
    if r.Ok? { MappedOpens(p, disk, pass, h, m, key.value, r.value); }
    if mapping :| OpensAs(p, disk, pass, mapping) {
      OpensGives(p, disk, pass, h, m, key, mapping);
    }
  }

  /**
   * Opening up to the request to the device mapper: a key that a keyslot gives, mapped as the header
   * and the segment say. A sealed device gives its volume.
   */
  method Open(p: Prims, device: Device, pass: seq<u8>) returns (r: Result<Mapping, LuksError>)
    requires PrimsLaw(p)
    ensures HeaderOf(p, device.bytes).Err? ==> r == Err(HeaderOf(p, device.bytes).error)
    ensures HeaderOf(p, device.bytes).Ok? && Unreadable(p, device.bytes) ==> r == Err(Json(DecodeFailed))
    ensures r.Ok? <==> Opens(p, device.bytes, pass)
    ensures r.Ok? ==> OpensAs(p, device.bytes, pass, r.value)
    ensures forall volume, last :: Sealed(p, device.bytes, pass, volume, last) ==>
              r == Ok(MappingOf(volume, |device.bytes|))
  {
    var h := ReadHeader(p, device);
    if h.Err? {
      return Err(h.error);
    }
    var m := ReadMetadata(p, device);
    if m.Err? {
      return Err(m.error);
    }
    var key := OpenVolumeKey(p, device, pass, m.value);
    r := Mapped(h.value, m.value, key, |device.bytes|);
    OpenedWith(p, device.bytes, pass, h.value, m.value, key, r);
    forall volume, last | Sealed(p, device.bytes, pass, volume, last)
      ensures r == Ok(MappingOf(volume, |device.bytes|))
    {
      SealedMapping(p, device.bytes, pass, volume, last);
    }
  }

  // ---------- formatting ----------

  /** The random values, names and sector size that formatting gets from outside. */
  datatype Fresh = Fresh(volumeKey: seq<u8>, kdfSalt: seq<u8>, digestSalt: seq<u8>, stripes: seq<u8>,
                         uuid: seq<u8>, title: seq<u8>, headerSalt: seq<u8>, sectorSize: nat)

  predicate FreshLengths(f: Fresh) {
    |f.volumeKey| == VolumeKeySize && |f.stripes| == Pos(VolumeKeySize, AfStripes - 1) && |f.headerSalt| == 64
  }

  function FormatHeader(f: Fresh): (h: Header.Header)
    requires FreshLengths(f)
    ensures Header.Fits(h)
  {
    Header.NewHeader(f.uuid, f.title, f.headerSalt)
  }

  /** The volume a format makes. */
  function FreshVolume(f: Fresh): Volume
    requires FreshLengths(f)
  {
    Volume(FormatHeader(f).uuid, f.sectorSize, f.volumeKey)
  }

  function FormatMetadata(p: Prims, f: Fresh): Metadata {
    NewMetadata(f.sectorSize).(
      keyslots := map["0" := NewKeyslot(p.b64encode(f.kdfSalt))],
      digests := map["0" := CreateDigest(p, f.volumeKey, ["0"], ["0"], f.digestSalt)])
  }

  function Written(disk: seq<u8>, primary: seq<u8>, secondary: seq<u8>, json: seq<u8>, keydata: seq<u8>): (r: seq<u8>)
    ensures |r| == |disk|
  {
    var a := Stored(disk, 0, primary, |primary|);
    var b := Stored(a, BinaryHeaderSize, json, |json|);
    var c := Stored(b, KeyslotAreaOffset, keydata, |keydata|);
    var d := Stored(c, HeaderSize, secondary, |secondary|);
    Stored(d, SecondJson, json, |json|)
  }

  lemma WrittenRegions(disk: seq<u8>, primary: seq<u8>, secondary: seq<u8>, json: seq<u8>, keydata: seq<u8>)
    requires |disk| >= MinDisk && |json| == JsonSize && |keydata| == KeyslotAreaSize
    requires |primary| == |secondary| == BinaryHeaderSize
    ensures Region(Written(disk, primary, secondary, json, keydata), 0, BinaryHeaderSize) == primary
    ensures Region(Written(disk, primary, secondary, json, keydata), BinaryHeaderSize, JsonSize) == json
    ensures Region(Written(disk, primary, secondary, json, keydata), SecondJson, JsonSize) == json
    ensures Region(Written(disk, primary, secondary, json, keydata), KeyslotAreaOffset, KeyslotAreaSize) == keydata
  {
  }

  lemma FormatDigest(p: Prims, f: Fresh)
    requires PrimsLaw(p)
    ensures OnlyDigest(p, FormatMetadata(p, f), f.volumeKey)
  {
    CreatedDigestVerifies(p, f.volumeKey, ["0"], ["0"], f.digestSalt, f.volumeKey);
  }

  /** On a formatted device a key has the digest of the volume key exactly if it has its PBKDF2 value. */
  lemma FormatSameDigest(p: Prims, f: Fresh, candidate: seq<u8>)
    requires PrimsLaw(p)
    ensures SameDigest(p, FormatMetadata(p, f).digests["0"], candidate, f.volumeKey) <==>
            p.pbkdf2(candidate, f.digestSalt, 1000) == p.pbkdf2(f.volumeKey, f.digestSalt, 1000)
  {
    assert p.b64decode(p.b64encode(f.digestSalt)) == Some(f.digestSalt);
  }

  lemma FormatUnlocks(p: Prims, disk: seq<u8>, f: Fresh, pass: seq<u8>)
    requires PrimsLaw(p) && FreshLengths(f) && |disk| >= MinDisk
    requires Unwraps(p, pass, NewKeyslot(p.b64encode(f.kdfSalt)), f.volumeKey,
                     Region(disk, KeyslotAreaOffset, KeyslotAreaSize))
    ensures Unlocks(p, disk, FormatMetadata(p, f), pass, f.volumeKey)
  {
    FormatDigest(p, f);
    FreshSlotArea(p.b64encode(f.kdfSalt));
  }

  /** The key that encrypts a fresh keyslot is Argon2id of the passphrase and the stored salt, at fixed costs. */
  lemma FreshDerives(p: Prims, salt: seq<u8>, pass: seq<u8>)
    requires PrimsLaw(p)
    ensures var key := p.argon2(pass, salt, 0x1_0000, 1, 4, 64);
            DeriveKey(p, pass, NewKeyslot(p.b64encode(salt))) == if key.Some? then Ok(key.value) else Err(KdfFailed)
  {
    assert p.b64decode(p.b64encode(salt)) == Some(salt);
  }

  lemma FreshSlotArea(salt: string)
    ensures Decimal.Parse(NewKeyslot(salt).area.offset) == Some(KeyslotAreaOffset)
    ensures Decimal.Parse(NewKeyslot(salt).area.size) == Some(KeyslotAreaSize)
  {
    Decimal.ParseUndoesShow(KeyslotAreaOffset);
    Decimal.ParseUndoesShow(KeyslotAreaSize);
  }

  lemma FormatIdentified(p: Prims, disk: seq<u8>, f: Fresh)
    requires PrimsLaw(p) && FreshLengths(f) && |disk| >= BinaryHeaderSize
    requires Region(disk, 0, BinaryHeaderSize) == Header.Serialize(p.hash, FormatHeader(f), true)
    ensures Identified(p, disk, FormatMetadata(p, f), FreshVolume(f))
  {
    Header.ParseUndoesSerialize(p.hash, FormatHeader(f), true);
    Decimal.ParseUndoesShow(HeaderSize);
  }

  lemma FormatSeals(p: Prims, disk: seq<u8>, f: Fresh, pass: seq<u8>, json: seq<u8>, keydata: seq<u8>)
    requires PrimsLaw(p) && FreshLengths(f) && |disk| >= MinDisk
    requires ToJsonBuffer(p.codec, FormatMetadata(p, f), JsonSize) == Ok(json)
    requires Unwraps(p, pass, NewKeyslot(p.b64encode(f.kdfSalt)), f.volumeKey, keydata)
    requires Region(disk, 0, BinaryHeaderSize) == Header.Serialize(p.hash, FormatHeader(f), true)
    requires Region(disk, BinaryHeaderSize, JsonSize) == json
    requires Region(disk, KeyslotAreaOffset, KeyslotAreaSize) == keydata
    ensures Sealed(p, disk, pass, FreshVolume(f), None)
  {
    JsonRoundTrip(p.codec, FormatMetadata(p, f), JsonSize);
    FormatUnlocks(p, disk, f, pass);
    FormatIdentified(p, disk, f);
  }

  ghost predicate NoFaults(faults: Faults, n: nat) {
    forall k: nat :: k < n ==> faults(k).None?
  }

  method WriteAll(device: Device, primary: seq<u8>, secondary: seq<u8>, json: seq<u8>, keydata: seq<u8>, faults: Faults)
    returns (ok: bool)
    requires |primary| == |secondary| == BinaryHeaderSize && |json| == JsonSize && |keydata| == KeyslotAreaSize
    modifies device
    ensures |device.bytes| == old(|device.bytes|)
    ensures ok <==> |device.bytes| >= MinDisk && NoFaults(faults, 5)
    ensures ok ==> device.bytes == Written(old(device.bytes), primary, secondary, json, keydata)
  {
    ok := device.WriteAt(0, primary, faults(0));
    if ok { ok := device.WriteAt(BinaryHeaderSize, json, faults(1)); }
    if ok { ok := device.WriteAt(KeyslotAreaOffset, keydata, faults(2)); }
    if ok { ok := device.WriteAt(HeaderSize, secondary, faults(3)); }
    if ok { ok := device.WriteAt(SecondJson, json, faults(4)); }
  }

  /** Formatting succeeds exactly on a large enough device without faults when the key and the metadata can be made. */
  method Format(p: Prims, device: Device, pass: seq<u8>, f: Fresh, faults: Faults) returns (r: Result<(), LuksError>)
    requires PrimsLaw(p) && FreshLengths(f)
    modifies device
    ensures |device.bytes| == old(|device.bytes|)
    ensures r.Ok? <==> |device.bytes| >= MinDisk && NoFaults(faults, 5)
                       && p.argon2(pass, f.kdfSalt, 0x1_0000, 1, 4, 64).Some?
                       && ToJsonBuffer(p.codec, FormatMetadata(p, f), JsonSize).Ok?
    ensures r.Ok? ==> Sealed(p, device.bytes, pass, FreshVolume(f), None) && Mirrored(device.bytes)
  {
    FreshDerives(p, f.kdfSalt, pass);
    var m := FormatMetadata(p, f);
    var slot := NewKeyslot(p.b64encode(f.kdfSalt));
    var keydata := EncryptKeyslot(p, pass, f.volumeKey, slot, f.stripes);
    if keydata.Err? {
      return Err(Key(keydata.error));
    }
    var json := ToJsonBuffer(p.codec, m, JsonSize);
    if json.Err? {
      return Err(Json(json.error));
    }
    JsonRoundTrip(p.codec, m, JsonSize);
    WrappedUnwraps(p, pass, slot, f.volumeKey, keydata.value);
    ghost var disk := device.bytes;
    var primary := Header.Serialize(p.hash, FormatHeader(f), true);
    var secondary := Header.Serialize(p.hash, FormatHeader(f), false);
    var ok := WriteAll(device, primary, secondary, json.value, keydata.value, faults);
    if !ok {
      return Err(Io);
    }
    WrittenRegions(disk, primary, secondary, json.value, keydata.value);
    FormatSeals(p, device.bytes, f, pass, json.value, keydata.value);
    return Ok(());
  }

  // ---------- whole runs ----------

  /** A use of a formatted device: a token write, or a write to the opened volume, which starts at the segment. */
  datatype Op = PutToken(token: Token, faults: Faults) | UseVolume(at: nat, data: seq<u8>, fault: Option<nat>)

  type Outcome = Result<(), LuksError>

  /** A token write under `id`: its result, its effect and the disk after it. */
  ghost predicate PutStep(p: Prims, before: seq<u8>, token: Token, id: string, faults: Faults, r: Outcome,
                          effect: Effect, after: seq<u8>)
  {
    |before| == |after| >= HeaderSize && IdFor(p, before, token, id) &&
    match NewJson(p, before, token, id)
    case Err(e) => r == Err(e) && after == before && effect == Kept
    case Ok(json) =>
      |json| == JsonSize && after == AfterWrites(before, json, faults).0 && effect == EffectOf(before, json, after)
      && r == if AfterWrites(before, json, faults).1 then Ok(()) else Err(Io)
  }

  ghost predicate UseStep(before: seq<u8>, at: nat, data: seq<u8>, fault: Option<nat>, r: Outcome, effect: Effect,
                          after: seq<u8>)
  {
    |before| >= HeaderSize && after == Stored(before, HeaderSize + at, data, Reach(data, fault)) && effect == Kept
    && r == if Completes(before, HeaderSize + at, data, fault) then Ok(()) else Err(Io)
  }

  /** One operation, as a step from disk to disk. */
  ghost predicate Stepped(p: Prims, before: seq<u8>, op: Op, r: Outcome, effect: Effect, after: seq<u8>) {
    match op
    case PutToken(token, faults) => exists id :: PutStep(p, before, token, id, faults, r, effect, after)
    case UseVolume(at, data, fault) => UseStep(before, at, data, fault, r, effect, after)
  }

  /** A volume write changes nothing of the header area. */
  lemma VolumeKeepsHeader(disk: seq<u8>, at: nat, data: seq<u8>, n: nat)
    requires |disk| >= HeaderSize
    ensures SameHeader(disk, Stored(disk, HeaderSize + at, data, n))
    ensures Region(Stored(disk, HeaderSize + at, data, n), BinaryHeaderSize, JsonSize)
            == Region(disk, BinaryHeaderSize, JsonSize)
  {
  }

  lemma StepKeepsHeader(p: Prims, before: seq<u8>, op: Op, r: Outcome, effect: Effect, after: seq<u8>)
    requires Stepped(p, before, op, r, effect, after)
    ensures SameHeader(before, after)
  {
    match op
    case UseVolume(at, data, fault) => VolumeKeepsHeader(before, at, data, Reach(data, fault));
    case PutToken(token, faults) =>
      var id :| PutStep(p, before, token, id, faults, r, effect, after);
      if NewJson(p, before, token, id).Ok? { WritesKeepRest(before, NewJson(p, before, token, id).value, faults); }
  }

  /**
   * How the effect of an operation follows from its result and faults: a token that got past the first
   * write landed, one for which there is no JSON changed nothing, only a failed first write can tear.
   */
  predicate Explained(op: Op, r: Outcome, effect: Effect) {
    match op
    case UseVolume(_, _, _) => effect == Kept
    case PutToken(_, faults) =>
      (r.Ok? || (r == Err(Io) && faults(0).None?) ==> effect == Landed)
      && (r.Err? && r != Err(Io) ==> effect == Kept)
      && (effect == Torn ==> r == Err(Io) && faults(0).Some? && faults(0).value > 0)
  }

  lemma StepIsExplained(p: Prims, before: seq<u8>, op: Op, r: Outcome, effect: Effect, after: seq<u8>)
    requires Stepped(p, before, op, r, effect, after)
    ensures Explained(op, r, effect)
  {
    if op.PutToken? {
      var id :| PutStep(p, before, op.token, id, op.faults, r, effect, after);
      if NewJson(p, before, op.token, id).Ok? {
        TearNeedsFault(before, NewJson(p, before, op.token, id).value, op.faults);
      }
    }
  }

  function TokenAfter(op: Op, effect: Effect, before: Option<Token>): Option<Token> {
    if op.PutToken? && effect == Landed then Some(op.token) else before
  }

  predicate OnlyTpm2(op: Op) {
    op.PutToken? ==> IsTpm2Token(op.token)
  }

  lemma UseSeals(p: Prims, before: seq<u8>, at: nat, data: seq<u8>, n: nat, after: seq<u8>,
                 pass: seq<u8>, volume: Volume, last: Option<Token>)
    requires PrimsLaw(p) && Sealed(p, before, pass, volume, last) && after == Stored(before, HeaderSize + at, data, n)
    ensures Sealed(p, after, pass, volume, last)
  {
    VolumeKeepsHeader(before, at, data, n);
    SealedBy(p, before, after, pass, volume, last);
  }

  lemma PutSeals(p: Prims, before: seq<u8>, token: Token, id: string, faults: Faults, r: Outcome, effect: Effect,
                 after: seq<u8>, pass: seq<u8>, volume: Volume, last: Option<Token>)
    requires PrimsLaw(p) && PutStep(p, before, token, id, faults, r, effect, after) && IsTpm2Token(token)
    requires effect != Torn && Sealed(p, before, pass, volume, last)
    ensures Sealed(p, after, pass, volume, if effect == Landed then Some(token) else last)
  {
    if NewJson(p, before, token, id).Ok? {
      var json := NewJson(p, before, token, id).value;
      WritesKeepRest(before, json, faults);
      EffectSeals(p, before, token, id, json, after, pass, volume, last);
    }
  }

  lemma PutStepSeals(p: Prims, before: seq<u8>, op: Op, r: Outcome, effect: Effect, after: seq<u8>,
                     pass: seq<u8>, volume: Volume, last: Option<Token>)
    requires PrimsLaw(p) && op.PutToken? && Stepped(p, before, op, r, effect, after) && OnlyTpm2(op)
    requires effect != Torn && Sealed(p, before, pass, volume, last)
    ensures Sealed(p, after, pass, volume, if effect == Landed then Some(op.token) else last)
  {
    var id :| PutStep(p, before, op.token, id, op.faults, r, effect, after);
    PutSeals(p, before, op.token, id, op.faults, r, effect, after, pass, volume, last);
  }

  /** An operation that does not tear the primary copy keeps the seal, with the token that landed. */
  lemma StepSeals(p: Prims, before: seq<u8>, op: Op, r: Outcome, effect: Effect, after: seq<u8>,
                  pass: seq<u8>, volume: Volume, last: Option<Token>)
    requires PrimsLaw(p) && Stepped(p, before, op, r, effect, after) && OnlyTpm2(op) && effect != Torn
    requires Sealed(p, before, pass, volume, last)
    ensures Sealed(p, after, pass, volume, TokenAfter(op, effect, last))
  {
    if op.PutToken? {
      PutStepSeals(p, before, op, r, effect, after, pass, volume, last);
    } else {
      UseSeals(p, before, op.at, op.data, Reach(op.data, op.fault), after, pass, volume, last);
    }
  }

  /** Whether the two copies are equal after an operation, as far as its result tells. */
  function MirrorAfter(op: Op, r: Outcome, was: bool): bool {
    match op
    case PutToken(_, _) => r.Ok? || (was && r != Err(Io))
    case UseVolume(at, data, _) => was && (at + |data| <= BinaryHeaderSize || BinaryHeaderSize + JsonSize <= at)
  }

  lemma StepMirrors(p: Prims, before: seq<u8>, op: Op, r: Outcome, effect: Effect, after: seq<u8>)
    requires Stepped(p, before, op, r, effect, after) && MirrorAfter(op, r, Mirrored(before))
    ensures Mirrored(after)
  {
    match op
    case UseVolume(at, data, fault) => VolumeKeepsMirror(before, at, data, Reach(data, fault));
    case PutToken(token, faults) =>
      var id :| PutStep(p, before, token, id, faults, r, effect, after);
      if NewJson(p, before, token, id).Ok? { SuccessMirrors(before, NewJson(p, before, token, id).value, faults); }
  }

  lemma VolumeKeepsMirror(disk: seq<u8>, at: nat, data: seq<u8>, n: nat)
    requires Mirrored(disk) && (at + |data| <= BinaryHeaderSize || BinaryHeaderSize + JsonSize <= at)
    ensures Mirrored(Stored(disk, HeaderSize + at, data, n))
  {
    VolumeKeepsHeader(disk, at, data, n);
    assert Region(Stored(disk, HeaderSize + at, data, n), SecondJson, JsonSize) == Region(disk, SecondJson, JsonSize);
  }

  method RunOp(p: Prims, device: Device, op: Op) returns (r: Outcome, ghost effect: Effect)
    requires PrimsLaw(p) && |device.bytes| >= HeaderSize
    modifies device
    ensures Stepped(p, old(device.bytes), op, r, effect, device.bytes)
  {
    ghost var before := device.bytes;
    match op
    case UseVolume(at, data, fault) =>
      var ok := device.WriteAt(HeaderSize + at, data, fault);
      r, effect := if ok then Ok(()) else Err(Io), Kept;
    case PutToken(token, faults) =>
      ghost var id;
      r, id := WriteTpm2Token(p, device, token, faults);
      effect := Kept;
      if NewJson(p, before, token, id).Ok? {
        ghost var json := NewJson(p, before, token, id).value;
        ghost var m' := NewJsonHolds(p, before, token, id, json);
        effect := EffectOf(before, json, device.bytes);
      }
      assert PutStep(p, before, token, id, faults, r, effect, device.bytes);
  }

  // ---------- what every run keeps ----------

  /** The disks that the first `n` operations go through, with their results and effects. */
  ghost predicate Trace(p: Prims, disks: seq<seq<u8>>, ops: seq<Op>, results: seq<Outcome>,
                        effects: seq<Effect>, n: nat)
  {
    n <= |ops| && |disks| == n + 1 && |results| == |effects| == n
    && forall k :: 0 <= k < n ==> Stepped(p, disks[k], ops[k], results[k], effects[k], disks[k + 1])
  }

  /** The last of the first `n` tokens that landed, or else the one before the run. */
  function LastLanded(ops: seq<Op>, effects: seq<Effect>, before: Option<Token>, n: nat): Option<Token>
    requires n <= |ops| && n <= |effects|
  {
    if n == 0 then before else TokenAfter(ops[n - 1], effects[n - 1], LastLanded(ops, effects, before, n - 1))
  }

  /** Whether the copies are equal after the first `n` operations, as far as the results tell. */
  function MirrorTo(ops: seq<Op>, results: seq<Outcome>, was: bool, n: nat): bool
    requires n <= |ops| && n <= |results|
  {
    if n == 0 then was else MirrorAfter(ops[n - 1], results[n - 1], MirrorTo(ops, results, was, n - 1))
  }

  /** Every run keeps the binary header and the wrapped key, whatever fails. */
  lemma {:induction false} RunKeepsHeader(p: Prims, disks: seq<seq<u8>>, ops: seq<Op>, results: seq<Outcome>,
                                          effects: seq<Effect>, n: nat, k: nat)
    requires Trace(p, disks, ops, results, effects, n) && k <= n && |disks[0]| >= HeaderSize
    ensures SameHeader(disks[0], disks[k])
  {
    if k > 0 {
      RunKeepsHeader(p, disks, ops, results, effects, n, k - 1);
      StepKeepsHeader(p, disks[k - 1], ops[k - 1], results[k - 1], effects[k - 1], disks[k]);
    }
  }

  /** After the first `k` operations the device is sealed with the last token that landed. */
  ghost predicate SealedAfter(p: Prims, disks: seq<seq<u8>>, ops: seq<Op>, effects: seq<Effect>, k: nat,
                              pass: seq<u8>, volume: Volume, last: Option<Token>)
    requires PrimsLaw(p)
  {
    k < |disks| && k <= |ops| && k <= |effects|
    && Sealed(p, disks[k], pass, volume, LastLanded(ops, effects, last, k))
  }

  lemma SealedAtStart(p: Prims, disks: seq<seq<u8>>, ops: seq<Op>, effects: seq<Effect>,
                      pass: seq<u8>, volume: Volume, last: Option<Token>)
    requires PrimsLaw(p) && disks != [] && Sealed(p, disks[0], pass, volume, last)
    ensures SealedAfter(p, disks, ops, effects, 0, pass, volume, last)
  {
  }

  lemma SealedOneMore(p: Prims, disks: seq<seq<u8>>, ops: seq<Op>, results: seq<Outcome>, effects: seq<Effect>,
                      n: nat, k: nat, pass: seq<u8>, volume: Volume, last: Option<Token>)
    requires PrimsLaw(p) && Trace(p, disks, ops, results, effects, n) && k < n
    requires OnlyTpm2(ops[k]) && effects[k] != Torn && SealedAfter(p, disks, ops, effects, k, pass, volume, last)
    ensures SealedAfter(p, disks, ops, effects, k + 1, pass, volume, last)
  {
    StepSeals(p, disks[k], ops[k], results[k], effects[k], disks[k + 1], pass, volume,
              LastLanded(ops, effects, last, k));
  }

  /** Each of the first `n` operations keeps the seal. */
  ghost predicate KeepsSeal(p: Prims, disks: seq<seq<u8>>, ops: seq<Op>, effects: seq<Effect>, n: nat,
                            pass: seq<u8>, volume: Volume, last: Option<Token>)
    requires PrimsLaw(p)
  {
    forall k: nat :: k < n && SealedAfter(p, disks, ops, effects, k, pass, volume, last) ==>
      SealedAfter(p, disks, ops, effects, k + 1, pass, volume, last)
  }

  lemma TraceKeepsSeal(p: Prims, disks: seq<seq<u8>>, ops: seq<Op>, results: seq<Outcome>, effects: seq<Effect>,
                       n: nat, pass: seq<u8>, volume: Volume, last: Option<Token>)
    requires PrimsLaw(p) && Trace(p, disks, ops, results, effects, n)
    requires (forall op :: op in ops ==> OnlyTpm2(op)) && Torn !in effects
    ensures KeepsSeal(p, disks, ops, effects, n, pass, volume, last)
  {
    forall k: nat | k < n && SealedAfter(p, disks, ops, effects, k, pass, volume, last)
      ensures SealedAfter(p, disks, ops, effects, k + 1, pass, volume, last)
    {
      assert OnlyTpm2(ops[k]) && effects[k] != Torn;
      SealedOneMore(p, disks, ops, results, effects, n, k, pass, volume, last);
    }
  }

  lemma {:induction false} SealedThroughout(p: Prims, disks: seq<seq<u8>>, ops: seq<Op>, effects: seq<Effect>, n: nat,
                                            k: nat, pass: seq<u8>, volume: Volume, last: Option<Token>)
    requires PrimsLaw(p) && k <= n && KeepsSeal(p, disks, ops, effects, n, pass, volume, last)
    requires SealedAfter(p, disks, ops, effects, 0, pass, volume, last)
    ensures SealedAfter(p, disks, ops, effects, k, pass, volume, last)
  {
    if k > 0 { SealedThroughout(p, disks, ops, effects, n, k - 1, pass, volume, last); }
  }

  /** Every run without a tear keeps the device sealed with the last token that landed. */
  lemma RunSeals(p: Prims, disks: seq<seq<u8>>, ops: seq<Op>, results: seq<Outcome>, effects: seq<Effect>, n: nat,
                 k: nat, pass: seq<u8>, volume: Volume, last: Option<Token>)
    requires PrimsLaw(p) && Trace(p, disks, ops, results, effects, n) && k <= n
    requires (forall op :: op in ops ==> OnlyTpm2(op)) && Torn !in effects
    requires SealedAfter(p, disks, ops, effects, 0, pass, volume, last)
    ensures SealedAfter(p, disks, ops, effects, k, pass, volume, last)
  {
    TraceKeepsSeal(p, disks, ops, results, effects, n, pass, volume, last);
    SealedThroughout(p, disks, ops, effects, n, k, pass, volume, last);
  }

  /** After every run the copies are equal where the results tell so. */
  lemma {:induction false} RunMirrors(p: Prims, disks: seq<seq<u8>>, ops: seq<Op>, results: seq<Outcome>,
                                      effects: seq<Effect>, n: nat, k: nat)
    requires Trace(p, disks, ops, results, effects, n) && k <= n && MirrorTo(ops, results, Mirrored(disks[0]), k)
    ensures Mirrored(disks[k])
  {
    if k > 0 {
      var was := MirrorTo(ops, results, Mirrored(disks[0]), k - 1);
      if was { RunMirrors(p, disks, ops, results, effects, n, k - 1); }
      StepMirrors(p, disks[k - 1], ops[k - 1], results[k - 1], effects[k - 1], disks[k]);
    }
  }

  ghost predicate AllExplained(ops: seq<Op>, results: seq<Outcome>, effects: seq<Effect>) {
    |results| == |effects| == |ops| && forall k :: 0 <= k < |ops| ==> Explained(ops[k], results[k], effects[k])
  }

  lemma RunIsExplained(p: Prims, disks: seq<seq<u8>>, ops: seq<Op>, results: seq<Outcome>, effects: seq<Effect>)
    requires Trace(p, disks, ops, results, effects, |ops|)
    ensures AllExplained(ops, results, effects)
  {
    forall k | 0 <= k < |ops| ensures Explained(ops[k], results[k], effects[k]) {
      StepIsExplained(p, disks[k], ops[k], results[k], effects[k], disks[k + 1]);
    }
  }

  lemma TraceMore(p: Prims, disks: seq<seq<u8>>, ops: seq<Op>, results: seq<Outcome>, effects: seq<Effect>, n: nat,
                  r: Outcome, effect: Effect, after: seq<u8>)
    requires Trace(p, disks, ops, results, effects, n) && n < |ops| && Stepped(p, disks[n], ops[n], r, effect, after)
    ensures Trace(p, disks + [after], ops, results + [r], effects + [effect], n + 1)
  {
  }

  /** Any run of token writes and volume writes, failing or not, goes through exactly the steps of its operations. */
  method RunOps(p: Prims, device: Device, ops: seq<Op>)
    returns (results: seq<Outcome>, ghost effects: seq<Effect>, ghost disks: seq<seq<u8>>)
    requires PrimsLaw(p) && |device.bytes| >= HeaderSize
    modifies device
    ensures Trace(p, disks, ops, results, effects, |ops|)
    ensures disks[0] == old(device.bytes) && disks[|ops|] == device.bytes
  {
    results, effects, disks := [], [], [device.bytes];
    for n := 0 to |ops|
      invariant Trace(p, disks, ops, results, effects, n)
      invariant disks[0] == old(device.bytes) && disks[n] == device.bytes && |device.bytes| >= HeaderSize
    {
      var r, effect := RunOp(p, device, ops[n]);
      StepKeepsHeader(p, disks[n], ops[n], r, effect, device.bytes);
      TraceMore(p, disks, ops, results, effects, n, r, effect, device.bytes);
      results, effects, disks := results + [r], effects + [effect], disks + [device.bytes];
    }
  }

  /** A sealed device opens with its passphrase and gives its last token. */
  method ReadBack(p: Prims, device: Device, pass: seq<u8>, ghost volume: Volume, ghost last: Option<Token>)
    returns (mapping: Result<Mapping, LuksError>, token: Result<Token, LuksError>)
    requires PrimsLaw(p)
    ensures Sealed(p, device.bytes, pass, volume, last) ==>
              mapping == Ok(MappingOf(volume, |device.bytes|))
              && token == match last case None => Err(Json(NoToken)) case Some(t) => Ok(t)
  {
    mapping := Open(p, device, pass);
    token := ReadTpm2Token(p, device);
  }

  /** A run on a formatted device: its effects are explained, and it keeps the header, the seal and the mirror. */
  method RunFormatted(p: Prims, device: Device, ops: seq<Op>, ghost pass: seq<u8>, ghost volume: Volume)
    returns (results: seq<Outcome>, ghost effects: seq<Effect>)
    requires PrimsLaw(p) && Sealed(p, device.bytes, pass, volume, None) && Mirrored(device.bytes)
    requires forall op :: op in ops ==> OnlyTpm2(op)
    modifies device
    ensures AllExplained(ops, results, effects) && SameHeader(old(device.bytes), device.bytes)
    ensures Torn !in effects ==> Sealed(p, device.bytes, pass, volume, LastLanded(ops, effects, None, |ops|))
    ensures MirrorTo(ops, results, true, |ops|) ==> Mirrored(device.bytes)
  {
    ghost var disks;
    results, effects, disks := RunOps(p, device, ops);
    RunIsExplained(p, disks, ops, results, effects);
    RunKeepsHeader(p, disks, ops, results, effects, |ops|, |ops|);
    SealedAtStart(p, disks, ops, effects, pass, volume, None);
    if Torn !in effects { RunSeals(p, disks, ops, results, effects, |ops|, |ops|, pass, volume, None); }
    if MirrorTo(ops, results, true, |ops|) { RunMirrors(p, disks, ops, results, effects, |ops|, |ops|); }
  }

  /**
   * After a format and any run: the copies are equal where the results tell so, and without a torn
   * primary copy the passphrase opens the formatted volume and the last token that landed reads back.
   */
  method Lifecycle(p: Prims, device: Device, pass: seq<u8>, f: Fresh, faults: Faults, ops: seq<Op>)
    returns (formatted: bool, results: seq<Outcome>, ghost effects: seq<Effect>,
             mapping: Result<Mapping, LuksError>, token: Result<Token, LuksError>)
    requires PrimsLaw(p) && FreshLengths(f)
    requires forall op :: op in ops ==> OnlyTpm2(op)
    modifies device
    ensures formatted ==> |device.bytes| >= MinDisk && AllExplained(ops, results, effects)
    ensures formatted && MirrorTo(ops, results, true, |ops|) ==> Mirrored(device.bytes)
    ensures formatted && Torn !in effects ==>
              mapping == Ok(MappingOf(FreshVolume(f), |device.bytes|))
              && token == match LastLanded(ops, effects, None, |ops|)
                          case None => Err(Json(NoToken))
                          case Some(t) => Ok(t)
  {
    results, effects, mapping, token := [], [], Err(Io), Err(Io);
    var r := Format(p, device, pass, f, faults);
    formatted := r.Ok?;
    if formatted {
      results, effects := RunFormatted(p, device, ops, pass, FreshVolume(f));
      mapping, token := ReadBack(p, device, pass, FreshVolume(f), LastLanded(ops, effects, None, |ops|));
    }
  }

  // ---------- the second copy and the data segment ----------

  /** The opened volume covers the second JSON copy. */
  lemma VolumeCoversSecondCopy(volume: Volume, diskSize: nat, k: nat)
    requires diskSize >= MinDisk && InSecond(k)
    ensures var m := MappingOf(volume, diskSize);
            m.offset * 512 <= k < (m.offset + m.size) * 512
  {
  }

  /** A successful token write keeps a stretch of the segment exactly if the new JSON has its bytes in the overlap. */
  lemma StretchSurvives(before: seq<u8>, json: seq<u8>, faults: Faults, at: nat, len: nat)
    requires |json| == JsonSize && AfterWrites(before, json, faults).1 && HeaderSize <= at && at + len <= |before|
    ensures Region(AfterWrites(before, json, faults).0, at, len) == Region(before, at, len) <==>
            forall k :: at <= k < at + len && InSecond(k) ==> before[k] == json[k - SecondJson]
  {
    var after := AfterWrites(before, json, faults).0;
    forall k | at <= k < at + len
      ensures after[k] == before[k] <==> (InSecond(k) ==> before[k] == json[k - SecondJson])
      ensures Region(after, at, len)[k - at] == after[k] && Region(before, at, len)[k - at] == before[k]
    {
    }
  }

  /** It leaves the whole data segment alone exactly if the second copy already is the new JSON. */
  lemma SegmentSurvives(before: seq<u8>, json: seq<u8>, faults: Faults)
    requires |json| == JsonSize && AfterWrites(before, json, faults).1
    ensures |before| >= MinDisk
    ensures var size := |before| - HeaderSize;
            Region(AfterWrites(before, json, faults).0, HeaderSize, size) == Region(before, HeaderSize, size) <==>
            Region(before, SecondJson, JsonSize) == json
  {
    StretchSurvives(before, json, faults, HeaderSize, |before| - HeaderSize);
    forall k: nat | InSecond(k) ensures Region(before, SecondJson, JsonSize)[k - SecondJson] == before[k] {
    }
    if forall k :: HeaderSize <= k < |before| && InSecond(k) ==> before[k] == json[k - SecondJson] {
      assert Region(before, SecondJson, JsonSize) == json;
    }
  }

  /** The first token write to any freshly formatted device alters its data segment. */
  lemma FirstTokenAltersSegment(p: Prims, before: seq<u8>, pass: seq<u8>, volume: Volume, token: Token, id: string,
                                json: seq<u8>, faults: Faults)
    requires PrimsLaw(p) && Sealed(p, before, pass, volume, None) && Mirrored(before) && IsTpm2Token(token)
    requires IdFor(p, before, token, id) && NewJson(p, before, token, id) == Ok(json)
    requires AfterWrites(before, json, faults).1
    ensures var size := |before| - HeaderSize;
            Region(AfterWrites(before, json, faults).0, HeaderSize, size) != Region(before, HeaderSize, size)
  {
    var m' := NewJsonHolds(p, before, token, id, json);
    SegmentSurvives(before, json, faults);
  }
}
