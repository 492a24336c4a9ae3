/** A token write whose failure leaves metadata that nothing can read (libs/luks2/src/lib.rs). */
module TornWrite {
  import opened Prelude
  import opened Xts
  import opened Metadata
  import opened Keyslots
  import opened Luks2
  import Decimal

  const SomeToken: Token := Token("tpm2", [], [], "sha256", "", "")

  const SomeValue: Json := JObject(map["type" := JString("tpm2")])

  const Bare: Metadata := NewMetadata(512)

  const WithSome: Metadata := Bare.(tokens := map["0" := SomeValue])

  /** A JSON library that knows two texts. */
  function TwoTexts(): Codec {
    Codec(m => if m == Bare then Some([1, 1]) else if m == WithSome then Some([2, 2]) else None,
          text => if text == [1, 1] then Some(Bare) else if text == [2, 2] then Some(WithSome) else None,
          token => if token == SomeToken then Some(SomeValue) else None,
          value => if value == SomeValue then Some(SomeToken) else None)
  }

  lemma EncodesBack(m: Metadata)
    requires TwoTexts().encode(m).Some?
    ensures TwoTexts().decode(TwoTexts().encode(m).value) == Some(m) && (0 as u8) !in TwoTexts().encode(m).value
  {
    var text := TwoTexts().encode(m).value;
    assert text == if m == Bare then [1, 1] else [2, 2];
  }

  lemma FewTokens(text: seq<u8>)
    requires TwoTexts().decode(text).Some?
    ensures |TwoTexts().decode(text).value.tokens| <= |text|
  {
    assert |Bare.tokens| == 0 && |WithSome.tokens| == 1 && |text| == 2;
  }

  lemma ValuesBack(token: Token)
    requires TwoTexts().toValue(token).Some?
    ensures TwoTexts().fromValue(TwoTexts().toValue(token).value) == Some(token)
    ensures TypeOf(TwoTexts().toValue(token).value) == Some(token.type_)
  {
  }

  lemma Lawful(c: Codec)
    requires forall m :: c.encode(m).Some? ==>
               c.decode(c.encode(m).value) == Some(m) && (0 as u8) !in c.encode(m).value
    requires forall b :: c.decode(b).Some? ==> |c.decode(b).value.tokens| <= |b|
    requires forall t :: c.toValue(t).Some? ==>
               c.fromValue(c.toValue(t).value) == Some(t) && TypeOf(c.toValue(t).value) == Some(t.type_)
    ensures CodecLaw(c)
  {
  }

  /** It is one that the laws allow. */
  lemma TwoTextsLawful(c: Codec)
    requires c == TwoTexts()
    ensures CodecLaw(c)
  {
    forall m | c.encode(m).Some? ensures c.decode(c.encode(m).value) == Some(m) && (0 as u8) !in c.encode(m).value {
      EncodesBack(m);
    }
    forall text | c.decode(text).Some? ensures |c.decode(text).value.tokens| <= |text| { FewTokens(text); }
    forall token | c.toValue(token).Some?
      ensures c.fromValue(c.toValue(token).value) == Some(token) && TypeOf(c.toValue(token).value) == Some(token.type_)
    {
      ValuesBack(token);
    }
    Lawful(c);
  }

  function Area(text: seq<u8>): (r: seq<u8>)
    requires |text| <= JsonSize
    ensures |r| == JsonSize
  {
    text + seq(JsonSize - |text|, _ => 0)
  }

  lemma AreaText(text: seq<u8>)
    requires |text| <= JsonSize && (0 as u8) !in text
    ensures JsonText(Area(text)) == text && FirstZero(Area(text)) == |text|
  {
    FirstZeroAfterText(text, JsonSize - |text|);
  }

  lemma ZeroIsFree()
    ensures TokenId(map[], "0")
  {
    assert Decimal.Show(0) == "0" && Taken(map[], 0);
  }

  lemma CallMakesJson(p: Prims, before: seq<u8>)
    requires p.codec == TwoTexts() && |before| >= HeaderSize
    requires Region(before, BinaryHeaderSize, JsonSize) == Area([1, 1])
    ensures IdFor(p, before, SomeToken, "0") && NewJson(p, before, SomeToken, "0") == Ok(Area([2, 2]))
  {
    AreaText([1, 1]);
    ZeroIsFree();
    assert Primary(p, before) == Some(Bare);
    assert Bare.tokens["0" := SomeValue] == WithSome.tokens;
  }

  lemma HalfWritten(before: seq<u8>, json: seq<u8>, after: seq<u8>, faults: Faults)
    requires |before| >= HeaderSize && faults(0) == Some(1) && json == Area([2, 2])
    requires after == AfterWrites(before, json, faults).0
    requires Region(before, BinaryHeaderSize, JsonSize) == Area([1, 1])
    ensures |after| == |before| && Region(after, BinaryHeaderSize, JsonSize) == Area([2, 1])
  {
    PrimaryAfter(before, json, faults);
  }

  lemma TornText(before: seq<u8>, json: seq<u8>, after: seq<u8>)
    requires |before| == |after| >= HeaderSize && json == Area([2, 2])
    requires Region(before, BinaryHeaderSize, JsonSize) == Area([1, 1])
    requires Region(after, BinaryHeaderSize, JsonSize) == Area([2, 1])
    ensures EffectOf(before, json, after) == Torn
  {
    AreaText([2, 1]);
    AreaText([2, 2]);
    AreaText([1, 1]);
  }

  lemma NoSuchText(p: Prims, after: seq<u8>)
    requires p.codec == TwoTexts() && |after| >= HeaderSize
    requires Region(after, BinaryHeaderSize, JsonSize) == Area([2, 1])
    ensures Unreadable(p, after)
  {
    AreaText([2, 1]);
  }

  /** A token write that fails after one byte leaves a primary copy that no read can decode. */
  lemma TornCall(p: Prims, before: seq<u8>, faults: Faults)
    requires p.codec == TwoTexts() && |before| >= HeaderSize && faults(0) == Some(1)
    requires Region(before, BinaryHeaderSize, JsonSize) == Area([1, 1])
    ensures NewJson(p, before, SomeToken, "0") == Ok(Area([2, 2]))
    ensures var after := AfterWrites(before, Area([2, 2]), faults).0;
            EffectOf(before, Area([2, 2]), after) == Torn && Unreadable(p, after)
  {
    var json := Area([2, 2]);
    var after := AfterWrites(before, json, faults).0;
    CallMakesJson(p, before);
    HalfWritten(before, json, after, faults);
    TornText(before, json, after);
    NoSuchText(p, after);
  }
}
