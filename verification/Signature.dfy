/** Searching EFI signature lists for an X.509 certificate (libs/firmware/src/signature.rs). */
module Signature {
  import opened Prelude
  import opened Bytes

  const ListHeaderSize: nat := 28
  const DataHeaderSize: nat := 16

  /** a5c059a1-94e4-4aa7-87b5-ab155c2bf072 in its stored byte order. */
  const X509Guid: seq<byte> :=
    [0xa1, 0x59, 0xc0, 0xa5, 0xe4, 0x94, 0xa7, 0x4a, 0x87, 0xb5, 0xab, 0x15, 0x5c, 0x2b, 0xf0, 0x72]

  // ---------- what the bytes of one list mean ----------

  function HeaderLen(list: seq<byte>): nat
    requires |list| >= ListHeaderSize
  {
    LeAt(list, 20, 4)
  }

  function SignatureLen(list: seq<byte>): nat
    requires |list| >= ListHeaderSize
  {
    LeAt(list, 24, 4)
  }

  /** Where signature `k` starts. */
  function SignatureAt(headerLen: nat, sigLen: nat, k: nat): nat {
    ListHeaderSize + headerLen + k * sigLen
  }

  /** Signature `k` lies in the list and its data is the certificate. */
  predicate EntryMatches(list: seq<byte>, cert: seq<byte>, headerLen: nat, sigLen: nat, k: nat) {
    var o := SignatureAt(headerLen, sigLen, k);
    sigLen >= DataHeaderSize && o + sigLen <= |list| && list[o + DataHeaderSize..o + sigLen] == cert
  }

  ghost predicate ListContains(list: seq<byte>, cert: seq<byte>) {
    |list| >= ListHeaderSize && exists k: nat :: EntryMatches(list, cert, HeaderLen(list), SignatureLen(list), k)
  }

  lemma NextSignature(h: nat, s: nat, k: nat)
    ensures SignatureAt(h, s, k + 1) == SignatureAt(h, s, k) + s
  {
  }

  lemma {:induction false} LaterSignatures(h: nat, s: nat, k: nat, j: nat)
    requires k <= j
    ensures SignatureAt(h, s, k) <= SignatureAt(h, s, j)
    decreases j
  {
  }

  method X509ListContains(list: seq<byte>, cert: seq<byte>) returns (found: bool)
    ensures found <==> ListContains(list, cert)
  {
    if |list| < ListHeaderSize {
      return false;
    }
    var sigLen := SignatureLen(list);
    var headerLen := HeaderLen(list);
    if sigLen == 0 || sigLen < DataHeaderSize {
      return false;
    }
    var certLen := sigLen - DataHeaderSize;
    var offset := ListHeaderSize + headerLen;
    ghost var k: nat := 0;
    while offset + sigLen <= |list|
      invariant offset == SignatureAt(headerLen, sigLen, k)
      invariant forall j: nat :: j < k ==> !EntryMatches(list, cert, headerLen, sigLen, j)
      decreases |list| - offset
    {
      var start := offset + DataHeaderSize;
      if list[start..start + certLen] == cert {
        assert EntryMatches(list, cert, HeaderLen(list), SignatureLen(list), k);
        return true;
      }
      NextSignature(headerLen, sigLen, k);
      offset, k := offset + sigLen, k + 1;
    }
    forall j: nat ensures !EntryMatches(list, cert, HeaderLen(list), SignatureLen(list), j) {
      if j >= k { LaterSignatures(headerLen, sigLen, k, j); }
    }
    return false;
  }

  // ---------- the lists before the first malformed one ----------

  /** A whole list header at `off`, with a size that covers it and stays inside the data. */
  predicate ListAt(data: seq<byte>, off: nat) {
    off + ListHeaderSize <= |data| && ListHeaderSize <= LeAt(data, off + 16, 4)
    && off + LeAt(data, off + 16, 4) <= |data|
  }

  function Lists(data: seq<byte>, off: nat): seq<seq<byte>>
    decreases |data| - off
  {
    if !ListAt(data, off) then []
    else
      var size := LeAt(data, off + 16, 4);
      [Cut(data, off, size)] + Lists(data, off + size)
  }

  predicate IsX509(list: seq<byte>) {
    |list| >= 16 && list[..16] == X509Guid
  }

  ghost predicate SomeListContains(lists: seq<seq<byte>>, cert: seq<byte>) {
    exists l :: l in lists && IsX509(l) && ListContains(l, cert)
  }

  lemma SomeListCons(l: seq<byte>, rest: seq<seq<byte>>, cert: seq<byte>)
    ensures SomeListContains([l] + rest, cert) <==>
            (IsX509(l) && ListContains(l, cert)) || SomeListContains(rest, cert)
  {
  }

  /** On any bytes the answer is the one for the lists before the first malformed one. */
  method ContainsX509(data: seq<byte>, cert: seq<byte>) returns (found: bool)
    ensures found <==> cert != [] && SomeListContains(Lists(data, 0), cert)
  {
    if cert == [] {
      return false;
    }
    var offset := 0;
    while offset + ListHeaderSize <= |data|
      invariant offset <= |data|
      invariant SomeListContains(Lists(data, 0), cert) <==> SomeListContains(Lists(data, offset), cert)
      decreases |data| - offset
    {
      var listSize := LeAt(data, offset + 16, 4);
      var end := offset + listSize;
      if listSize < ListHeaderSize || end > |data| {
        return false;
      }
      var list := Cut(data, offset, listSize);
      SomeListCons(list, Lists(data, end), cert);
      assert Lists(data, offset) == [list] + Lists(data, end);
      if list[..16] == X509Guid {
        var here := X509ListContains(list, cert);
        if here {
          return true;
        }
      }
      offset := end;
    }
    return false;
  }

  // ---------- well-formed lists laid out in bytes ----------

  datatype SignatureData = SignatureData(owner: seq<byte>, data: seq<byte>)

  datatype SignatureList = SignatureList(guid: seq<byte>, header: seq<byte>, sigLen: nat,
                                         signatures: seq<SignatureData>)

  function ListLen(l: SignatureList): nat {
    SignatureAt(|l.header|, l.sigLen, |l.signatures|)
  }

  ghost predicate WellFormed(l: SignatureList) {
    |l.guid| == 16 && DataHeaderSize <= l.sigLen && ListLen(l) < Pow256(4) && l.sigLen < Pow256(4)
    && forall s :: s in l.signatures ==> |s.owner| == DataHeaderSize && |s.data| == l.sigLen - DataHeaderSize
  }

  function Flat(signatures: seq<SignatureData>): seq<byte> {
    if signatures == [] then [] else signatures[0].owner + signatures[0].data + Flat(signatures[1..])
  }

  function Head(l: SignatureList): seq<byte> {
    l.guid + LeBytes(ListLen(l), 4) + LeBytes(|l.header|, 4) + LeBytes(l.sigLen, 4)
  }

  function Encode(l: SignatureList): seq<byte> {
    Head(l) + l.header + Flat(l.signatures)
  }

  function Concat(parts: seq<seq<byte>>): seq<byte> {
    if parts == [] then [] else parts[0] + Concat(parts[1..])
  }

  function EncodeAll(ls: seq<SignatureList>): seq<byte> {
    Concat(seq(|ls|, i requires 0 <= i < |ls| => Encode(ls[i])))
  }

  lemma {:induction false} FlatLen(signatures: seq<SignatureData>, n: nat)
    requires forall s :: s in signatures ==> |s.owner| + |s.data| == n
    ensures |Flat(signatures)| == |signatures| * n
  {
    if signatures != [] {
      FlatLen(signatures[1..], n);
      assert |signatures| * n == n + (|signatures| - 1) * n;
    }
  }

  /** Signature `k` of the flat list. */
  lemma {:induction false} FlatAt(signatures: seq<SignatureData>, n: nat, k: nat)
    requires k < |signatures| && forall s :: s in signatures ==> |s.owner| + |s.data| == n
    ensures HoldsAt(Flat(signatures), k * n, signatures[k].owner + signatures[k].data)
  {
    var flat := Flat(signatures);
    var head, rest := signatures[0].owner + signatures[0].data, Flat(signatures[1..]);
    assert signatures[0] in signatures;
    assert flat == head + rest;
    if k > 0 {
      FlatAt(signatures[1..], n, k - 1);
      assert k * n == n + (k - 1) * n;
      var v := signatures[k].owner + signatures[k].data;
      forall i | 0 <= i < |v| ensures flat[k * n + i] == v[i] {
        assert flat[k * n + i] == rest[(k - 1) * n + i];
      }
    }
  }

  lemma EncodeLen(l: SignatureList)
    requires WellFormed(l)
    ensures |Encode(l)| == ListLen(l)
  {
    FlatLen(l.signatures, l.sigLen);
  }

  /** Where the parts of a concatenation are. */
  lemma PartsAt(guid: seq<byte>, n: seq<byte>, h: seq<byte>, s: seq<byte>, tail: seq<byte>)
    requires |guid| == 16 && |n| == |h| == |s| == 4
    ensures var e := guid + n + h + s + tail;
            e[..16] == guid && HoldsAt(e, 16, n) && HoldsAt(e, 20, h) && HoldsAt(e, 24, s)
  {
  }

  lemma EncodeFields(l: SignatureList)
    requires WellFormed(l)
    ensures |Encode(l)| == ListLen(l) >= ListHeaderSize && Encode(l)[..16] == l.guid
    ensures LeAt(Encode(l), 16, 4) == ListLen(l)
    ensures HeaderLen(Encode(l)) == |l.header| && SignatureLen(Encode(l)) == l.sigLen
  {
    EncodeLen(l);
    var n, h, s := LeBytes(ListLen(l), 4), LeBytes(|l.header|, 4), LeBytes(l.sigLen, 4);
    PartsAt(l.guid, n, h, s, l.header + Flat(l.signatures));
    EncodeAssociates(l.guid + n + h + s, l.header, Flat(l.signatures));
    LeRoundTrip(Encode(l), 16, ListLen(l), 4);
    LeRoundTrip(Encode(l), 20, |l.header|, 4);
    LeRoundTrip(Encode(l), 24, l.sigLen, 4);
  }

  lemma EncodeAssociates(a: seq<byte>, b: seq<byte>, c: seq<byte>)
    ensures a + b + c == a + (b + c)
  {
  }

  lemma HoldsAfter(head: seq<byte>, rest: seq<byte>, pos: nat, v: seq<byte>)
    requires HoldsAt(rest, pos, v)
    ensures HoldsAt(head + rest, |head| + pos, v)
  {
  }

  lemma HoldsSecond(buf: seq<byte>, pos: nat, a: seq<byte>, b: seq<byte>)
    requires HoldsAt(buf, pos, a + b)
    ensures buf[pos + |a|..pos + |a| + |b|] == b
  {
    forall k | 0 <= k < |b| ensures buf[pos + |a| + k] == b[k] { assert buf[pos + (|a| + k)] == (a + b)[|a| + k]; }
  }

  lemma EncodedSignature(head: seq<byte>, l: SignatureList, k: nat)
    requires WellFormed(l) && k < |l.signatures| && |head| == ListHeaderSize + |l.header|
    ensures SignatureIs(head + Flat(l.signatures), l, k)
  {
    var o, s := SignatureAt(|l.header|, l.sigLen, k), l.signatures[k];
    assert s in l.signatures;
    FlatAt(l.signatures, l.sigLen, k);
    HoldsAfter(head, Flat(l.signatures), k * l.sigLen, s.owner + s.data);
    HoldsSecond(head + Flat(l.signatures), o, s.owner, s.data);
  }

  /** Signature `k` of `l` is where the layout says. */
  ghost predicate SignatureIs(e: seq<byte>, l: SignatureList, k: nat)
    requires k < |l.signatures|
  {
    var o := SignatureAt(|l.header|, l.sigLen, k);
    l.sigLen >= DataHeaderSize && o + l.sigLen <= |e| && e[o + DataHeaderSize..o + l.sigLen] == l.signatures[k].data
  }

  /** Everything the search can see of a list's encoding. */
  ghost predicate Reads(e: seq<byte>, l: SignatureList) {
    WellFormed(l) && |e| == ListLen(l) >= ListHeaderSize && e[..16] == l.guid && LeAt(e, 16, 4) == ListLen(l)
    && HeaderLen(e) == |l.header| && SignatureLen(e) == l.sigLen
    && forall k :: 0 <= k < |l.signatures| ==> SignatureIs(e, l, k)
  }

  lemma EncodingReads(l: SignatureList)
    requires WellFormed(l)
    ensures Reads(Encode(l), l)
  {
    EncodeFields(l);
    forall k | 0 <= k < |l.signatures| ensures SignatureIs(Encode(l), l, k) {
      EncodedSignature(Head(l) + l.header, l, k);
    }
  }

  /** An encoded list contains a certificate exactly when one of its signatures is that certificate. */
  lemma ReadListContains(e: seq<byte>, l: SignatureList, cert: seq<byte>)
    requires Reads(e, l)
    ensures ListContains(e, cert) <==> exists s :: s in l.signatures && s.data == cert
  {
    var h, n := |l.header|, l.sigLen;
    if ListContains(e, cert) {
      var k: nat :| EntryMatches(e, cert, h, n, k);
      NextSignature(h, n, k);
      if k >= |l.signatures| { LaterSignatures(h, n, |l.signatures|, k); }
      assert SignatureIs(e, l, k);
      assert l.signatures[k] in l.signatures;
    }
    if exists s :: s in l.signatures && s.data == cert {
      var k :| 0 <= k < |l.signatures| && l.signatures[k].data == cert;
      assert SignatureIs(e, l, k);
      assert EntryMatches(e, cert, h, n, k);
    }
  }

  /** A list that states its own size. */
  predicate SelfSized(e: seq<byte>) {
    |e| >= ListHeaderSize && LeAt(e, 16, 4) == |e|
  }

  lemma HoldsSplit(data: seq<byte>, off: nat, a: seq<byte>, b: seq<byte>)
    requires HoldsAt(data, off, a + b)
    ensures HoldsAt(data, off, a) && HoldsAt(data, off + |a|, b)
  {
    forall k | 0 <= k < |a| ensures data[off + k] == a[k] { assert (a + b)[k] == a[k]; }
    forall k | 0 <= k < |b| ensures data[off + |a| + k] == b[k] { assert data[off + (|a| + k)] == (a + b)[|a| + k]; }
  }

  lemma {:induction false} LeAtAgrees(data: seq<byte>, off: nat, a: seq<byte>, pos: nat, n: nat)
    requires HoldsAt(data, off, a) && pos + n <= |a|
    ensures LeAt(data, off + pos, n) == LeAt(a, pos, n)
    decreases n
  {
    if n > 0 {
      LeAtAgrees(data, off, a, pos + 1, n - 1);
    }
  }

  lemma ListStep(data: seq<byte>, off: nat, e: seq<byte>)
    requires HoldsAt(data, off, e) && SelfSized(e)
    ensures Lists(data, off) == [e] + Lists(data, off + |e|)
  {
    LeAtAgrees(data, off, e, 16, 4);
    assert Cut(data, off, |e|) == e;
  }

  /** Self-sized lists lie one after the other from `off` to the end. */
  ghost predicate LaidOut(data: seq<byte>, off: nat, parts: seq<seq<byte>>)
    decreases |parts|
  {
    if parts == [] then off == |data|
    else
      HoldsAt(data, off, parts[0]) && SelfSized(parts[0])
      && LaidOut(data, off + |parts[0]|, parts[1..])
  }

  lemma {:induction false} ConcatIsLaidOut(data: seq<byte>, off: nat, parts: seq<seq<byte>>)
    requires HoldsAt(data, off, Concat(parts)) && off + |Concat(parts)| == |data|
    requires forall e :: e in parts ==> SelfSized(e)
    ensures LaidOut(data, off, parts)
    decreases |parts|
  {
    if parts != [] {
      assert parts[0] in parts;
      HoldsSplit(data, off, parts[0], Concat(parts[1..]));
      ConcatIsLaidOut(data, off + |parts[0]|, parts[1..]);
    }
  }

  /** The walk over lists laid end to end meets exactly those lists. */
  lemma {:induction false} ListsOfLaidOut(data: seq<byte>, off: nat, parts: seq<seq<byte>>)
    requires LaidOut(data, off, parts)
    ensures Lists(data, off) == parts
    decreases |parts|
  {
    if parts != [] {
      ListStep(data, off, parts[0]);
      ListsOfLaidOut(data, off + |parts[0]|, parts[1..]);
      assert parts == [parts[0]] + parts[1..];
    }
  }

  /** Some X.509 list holds the certificate. */
  ghost predicate SomeSignature(ls: seq<SignatureList>, cert: seq<byte>) {
    exists i, s :: 0 <= i < |ls| && ls[i].guid == X509Guid && s in ls[i].signatures && s.data == cert
  }

  lemma ReadListsContain(lists: seq<seq<byte>>, ls: seq<SignatureList>, cert: seq<byte>)
    requires |lists| == |ls| && forall i :: 0 <= i < |ls| ==> Reads(lists[i], ls[i])
    ensures SomeListContains(lists, cert) <==> SomeSignature(ls, cert)
  {
    if SomeListContains(lists, cert) {
      var x :| x in lists && IsX509(x) && ListContains(x, cert);
      var i :| 0 <= i < |lists| && lists[i] == x;
      ReadListContains(x, ls[i], cert);
    }
    if SomeSignature(ls, cert) {
      var i, s :| 0 <= i < |ls| && ls[i].guid == X509Guid && s in ls[i].signatures && s.data == cert;
      ReadListContains(lists[i], ls[i], cert);
      assert lists[i] in lists;
    }
  }

  /** On well-formed lists the search is exact: some X.509 list holds the certificate. */
  lemma EncodedContains(ls: seq<SignatureList>, cert: seq<byte>)
    requires forall l :: l in ls ==> WellFormed(l)
    ensures SomeListContains(Lists(EncodeAll(ls), 0), cert) <==> SomeSignature(ls, cert)
  {
    var parts := seq(|ls|, i requires 0 <= i < |ls| => Encode(ls[i]));
    forall i | 0 <= i < |ls| ensures Reads(parts[i], ls[i]) {
      assert ls[i] in ls;
      EncodingReads(ls[i]);
    }
    PartsContain(parts, ls, cert);
  }

  lemma PartsContain(parts: seq<seq<byte>>, ls: seq<SignatureList>, cert: seq<byte>)
    requires |parts| == |ls| && forall i :: 0 <= i < |ls| ==> Reads(parts[i], ls[i])
    ensures SomeListContains(Lists(Concat(parts), 0), cert) <==> SomeSignature(ls, cert)
  {
    var data := Concat(parts);
    forall e | e in parts ensures SelfSized(e) {
      var i :| 0 <= i < |parts| && parts[i] == e;
      assert Reads(parts[i], ls[i]);
    }
    ConcatIsLaidOut(data, 0, parts);
    ListsOfLaidOut(data, 0, parts);
    ReadListsContain(parts, ls, cert);
  }
}
