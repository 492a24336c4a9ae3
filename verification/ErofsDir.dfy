/** EROFS directory blocks (libs/erofs/src/dir.rs). */
module ErofsDir {
  import opened Prelude
  import opened Bytes

  const BlockSize: nat := 4096
  const DirentSize: nat := 12
  const NidBytes: nat := 8
  const OffsetBytes: nat := 2

  datatype Entry = Entry(name: seq<byte>, nid: nat, fileType: byte)

  function EntrySize(e: Entry): nat {
    DirentSize + |e.name|
  }

  /** Node numbers are 64 bits wide. */
  ghost predicate WideNids(es: seq<Entry>) {
    forall i :: 0 <= i < |es| ==> es[i].nid < U64
  }

  /** Every entry fits a block on its own. */
  predicate AllFit(es: seq<Entry>) {
    forall i :: 0 <= i < |es| ==> EntrySize(es[i]) <= BlockSize
  }

  // ---------- the greedy packing ----------

  /** How far a block that already uses `used` bytes reaches from `end`. */
  function Fit(es: seq<Entry>, end: nat, used: nat): (r: nat)
    requires end <= |es|
    ensures end <= r <= |es|
    decreases |es| - end
  {
    if end < |es| && used + EntrySize(es[end]) <= BlockSize then Fit(es, end + 1, used + EntrySize(es[end])) else end
  }

  function BlockEnd(es: seq<Entry>, start: nat): (r: nat)
    requires start <= |es|
    ensures start <= r <= |es|
  {
    Fit(es, start, 0)
  }

  /** The bytes of entries `s..i`. */
  function Size(es: seq<Entry>, s: nat, i: nat): nat
    requires s <= i <= |es|
    decreases i - s
  {
    if s == i then 0 else Size(es, s, i - 1) + EntrySize(es[i - 1])
  }

  /** A block reaches as far as its entries fit, and no further. */
  lemma {:induction false} FitMeans(es: seq<Entry>, s: nat, end: nat)
    requires s <= end <= |es| && Size(es, s, end) <= BlockSize
    ensures var r := Fit(es, end, Size(es, s, end));
            Size(es, s, r) <= BlockSize && (r < |es| ==> Size(es, s, r + 1) > BlockSize)
    decreases |es| - end
  {
    if end < |es| && Size(es, s, end) + EntrySize(es[end]) <= BlockSize {
      FitMeans(es, s, end + 1);
    }
  }

  /** The packing makes progress exactly when the next entry fits a block on its own. */
  lemma Progress(es: seq<Entry>, start: nat)
    requires start < |es|
    ensures BlockEnd(es, start) > start <==> EntrySize(es[start]) <= BlockSize
  {
  }

  method BlockEndLoop(es: seq<Entry>, start: nat) returns (end: nat)
    requires start <= |es|
    ensures end == BlockEnd(es, start)
  {
    var used: nat := 0;
    end := start;
    while end < |es|
      invariant start <= end <= |es| && Fit(es, end, used) == BlockEnd(es, start)
    {
      var entrySize := EntrySize(es[end]);
      if used + entrySize > BlockSize {
        break;
      }
      used := used + entrySize;
      end := end + 1;
    }
  }

  /** The bytes the blocks from `start` on take: whole blocks, then what the last one uses. */
  function Planned(es: seq<Entry>, start: nat): nat
    requires start <= |es| && AllFit(es)
    decreases |es| - start
  {
    if start == |es| then 0
    else
      var end := BlockEnd(es, start);
      if end == |es| then Size(es, start, end) else BlockSize + Planned(es, end)
  }

  /** One step of the predictor: round up to a block boundary if the entry does not fit. */
  function NextSize(size: nat, entrySize: nat): nat {
    var at := if size % BlockSize + entrySize > BlockSize then (size + BlockSize - 1) / BlockSize * BlockSize else size;
    at + entrySize
  }

  lemma NextSizeMeans(k: nat, used: nat, entrySize: nat)
    requires used <= BlockSize && entrySize <= BlockSize && (used == 0 ==> k == 0)
    requires used + entrySize > BlockSize || used < BlockSize
    ensures NextSize(BlockSize * k + used, entrySize) ==
            if used + entrySize > BlockSize then BlockSize * (k + 1) + entrySize else BlockSize * k + used + entrySize
  {
  }

  /** The predictor over the first `i` entries. */
  function Predicted(es: seq<Entry>, i: nat): nat
    requires i <= |es|
  {
    if i == 0 then 0 else NextSize(Predicted(es, i - 1), EntrySize(es[i - 1]))
  }

  /** Entry `i` comes next in the block of entries from `s`, which is block `k`. */
  ghost predicate Filling(es: seq<Entry>, i: nat, s: nat, k: nat)
    requires AllFit(es)
  {
    s <= i <= |es| && (s == i ==> i == 0 == k)
    && Predicted(es, i) == BlockSize * k + Size(es, s, i) && Size(es, s, i) <= BlockSize
    && (s < i ==> Size(es, s, i) > 0)
    && Fit(es, i, Size(es, s, i)) == BlockEnd(es, s) && Planned(es, 0) == BlockSize * k + Planned(es, s)
  }

  lemma FillingNewBlock(es: seq<Entry>, i: nat, s: nat, k: nat)
    requires AllFit(es) && i < |es| && Filling(es, i, s, k) && Size(es, s, i) + EntrySize(es[i]) > BlockSize
    requires Predicted(es, i + 1) == BlockSize * (k + 1) + EntrySize(es[i])
    ensures Filling(es, i + 1, i, k + 1)
  {
    assert BlockEnd(es, s) == i && s < i;
    assert Planned(es, s) == BlockSize + Planned(es, i);
    assert Size(es, i, i + 1) == EntrySize(es[i]);
    assert Fit(es, i + 1, EntrySize(es[i])) == BlockEnd(es, i);
  }

  lemma FillingSameBlock(es: seq<Entry>, i: nat, s: nat, k: nat)
    requires AllFit(es) && i < |es| && Filling(es, i, s, k) && Size(es, s, i) + EntrySize(es[i]) <= BlockSize
    requires Predicted(es, i + 1) == BlockSize * k + Size(es, s, i) + EntrySize(es[i])
    ensures Filling(es, i + 1, s, k)
  {
    assert Size(es, s, i + 1) == Size(es, s, i) + EntrySize(es[i]);
  }

  lemma FillingNext(es: seq<Entry>, i: nat, s: nat, k: nat) returns (s': nat, k': nat)
    requires AllFit(es) && i < |es| && Filling(es, i, s, k)
    ensures Filling(es, i + 1, s', k')
  {
    NextSizeMeans(k, Size(es, s, i), EntrySize(es[i]));
    if Size(es, s, i) + EntrySize(es[i]) > BlockSize {
      FillingNewBlock(es, i, s, k);
      s', k' := i, k + 1;
    } else {
      FillingSameBlock(es, i, s, k);
      s', k' := s, k;
    }
  }

  /** Where every entry fits a block, the predictor predicts exactly what the packing takes. */
  lemma {:induction false} PredictedIsPlanned(es: seq<Entry>, i: nat) returns (s: nat, k: nat)
    requires AllFit(es) && i <= |es|
    ensures Filling(es, i, s, k)
    ensures i == |es| ==> Predicted(es, i) == Planned(es, 0)
  {
    if i == 0 {
      s, k := 0, 0;
    } else {
      s, k := PredictedIsPlanned(es, i - 1);
      s, k := FillingNext(es, i - 1, s, k);
    }
  }

  lemma {:induction false} PredictedHoldsAll(es: seq<Entry>, i: nat)
    requires i <= |es|
    ensures Predicted(es, i) >= Size(es, 0, i)
  {
    if i > 0 { PredictedHoldsAll(es, i - 1); }
  }

  /** The size predictor never falls short of the entries, and matches the packing wherever the packing ends. */
  method DataSize(es: seq<Entry>) returns (size: nat)
    ensures size == Predicted(es, |es|) >= Size(es, 0, |es|)
    ensures AllFit(es) ==> size == Planned(es, 0)
  {
    size := 0;
    for i := 0 to |es|
      invariant size == Predicted(es, i)
    {
      size := NextSize(size, EntrySize(es[i]));
    }
    PredictedHoldsAll(es, |es|);
    if AllFit(es) { ghost var s, k := PredictedIsPlanned(es, |es|); }
  }

  // ---------- the layout of one block ----------

  /** The bytes of the names of entries `s..i`. */
  function NamesLen(es: seq<Entry>, s: nat, i: nat): nat
    requires s <= i <= |es|
    decreases i - s
  {
    if s == i then 0 else NamesLen(es, s, i - 1) + |es[i - 1].name|
  }

  lemma {:induction false} SizeSplits(es: seq<Entry>, s: nat, i: nat)
    requires s <= i <= |es|
    ensures Size(es, s, i) == DirentSize * (i - s) + NamesLen(es, s, i)
    decreases i - s
  {
    if s < i { SizeSplits(es, s, i - 1); }
  }

  lemma {:induction false} NamesGrow(es: seq<Entry>, s: nat, i: nat, j: nat)
    requires s <= i <= j <= |es|
    ensures NamesLen(es, s, i) <= NamesLen(es, s, j)
    decreases j
  {
    if i < j { NamesGrow(es, s, i, j - 1); }
  }

  /** Where the name of entry `i` starts inside the block of entries `s..e`. */
  function NameOff(es: seq<Entry>, s: nat, e: nat, i: nat): nat
    requires s <= i <= e <= |es|
  {
    DirentSize * (e - s) + NamesLen(es, s, i)
  }

  function Dirent(e: Entry, nameOff: nat): (r: seq<byte>)
    ensures |r| == DirentSize
  {
    LeBytes(e.nid, NidBytes) + LeBytes(nameOff, OffsetBytes) + [e.fileType, 0]
  }

  /** Entry `i` of the block of entries `s..e` at `base` is on disk. */
  ghost predicate Stored(buf: seq<byte>, base: nat, es: seq<Entry>, s: nat, e: nat, i: nat)
    requires s <= i < e <= |es|
  {
    HoldsAt(buf, base + DirentSize * (i - s), Dirent(es[i], NameOff(es, s, e, i)))
    && HoldsAt(buf, base + NameOff(es, s, e, i), es[i].name)
  }

  /** The bytes below `limit` are the same. */
  ghost predicate SameBelow(a: seq<byte>, b: seq<byte>, limit: nat) {
    |a| == |b| && forall p :: 0 <= p < limit && p < |a| ==> b[p] == a[p]
  }

  ghost predicate ZeroFrom(buf: seq<byte>, from: nat, to: nat) {
    forall p :: from <= p < to && p < |buf| ==> buf[p] == 0
  }

  /** A write below the next name and outside an entry's own bytes leaves that entry stored. */
  lemma StoredSurvives(b: seq<byte>, base: nat, es: seq<Entry>, s: nat, e: nat, j: nat, at: nat, v: seq<byte>)
    requires s <= j < e <= |es| && Stored(b, base, es, s, e, j) && at + |v| <= |b|
    requires var d := base + DirentSize * (j - s); at + |v| <= d || d + DirentSize <= at
    requires var n := base + NameOff(es, s, e, j); at + |v| <= n || n + |es[j].name| <= at
    ensures Stored(Put(b, at, v), base, es, s, e, j)
  {
  }

  // ---------- reading a directory back ----------

  /** A name ends at the first NUL, or at the end of its block. */
  function NameStop(buf: seq<byte>, from: nat, end: nat): (r: nat)
    requires from <= end <= |buf|
    ensures from <= r <= end
    decreases end - from
  {
    if from < end && buf[from] != 0 then NameStop(buf, from + 1, end) else from
  }

  function ReadEntry(buf: seq<byte>, base: nat, end: nat, count: nat, i: nat): Option<Entry>
    requires i < count && end <= |buf|
  {
    if base + DirentSize * count > end then None
    else
      var from := base + LeAt(buf, base + DirentSize * i + 8, OffsetBytes);
      if from > end then None
      else
        var stop := if i + 1 < count then base + LeAt(buf, base + DirentSize * (i + 1) + 8, OffsetBytes)
                    else NameStop(buf, from, end);
        if stop < from || stop > end then None
        else Some(Entry(Cut(buf, from, stop - from), LeAt(buf, base + DirentSize * i, NidBytes),
                        buf[base + DirentSize * i + 10]))
  }

  function ReadEntries(buf: seq<byte>, base: nat, end: nat, count: nat, i: nat): Option<seq<Entry>>
    requires i <= count && end <= |buf|
    decreases count - i
  {
    if i == count then Some([])
    else
      match ReadEntry(buf, base, end, count, i)
      case None => None
      case Some(e) =>
        match ReadEntries(buf, base, end, count, i + 1)
        case None => None
        case Some(rest) => Some([e] + rest)
  }

  /** The first name offset tells how many entries a block has. */
  function ReadBlock(buf: seq<byte>, base: nat, end: nat): Option<seq<Entry>>
    requires end <= |buf|
  {
    if base + DirentSize > end then None
    else ReadEntries(buf, base, end, LeAt(buf, base + 8, OffsetBytes) / DirentSize, 0)
  }

  function ReadDir(buf: seq<byte>, base: nat): Option<seq<Entry>>
    decreases |buf| - base
  {
    if base >= |buf| then Some([])
    else
      var end := if base + BlockSize <= |buf| then base + BlockSize else |buf|;
      match ReadBlock(buf, base, end)
      case None => None
      case Some(es) =>
        match ReadDir(buf, end)
        case None => None
        case Some(rest) => Some(es + rest)
  }

  /** The dirent at `d` reads as the fields of `e` and a name offset. */
  predicate DirentReads(buf: seq<byte>, d: nat, e: Entry, nameOff: nat) {
    d + DirentSize <= |buf|
    && LeAt(buf, d, NidBytes) == e.nid && LeAt(buf, d + 8, OffsetBytes) == nameOff && buf[d + 10] == e.fileType
  }

  lemma DirentFields(buf: seq<byte>, d: nat, e: Entry, nameOff: nat)
    requires HoldsAt(buf, d, Dirent(e, nameOff)) && e.nid < U64 && nameOff < 65536
    ensures DirentReads(buf, d, e, nameOff)
  {
    var bytes := Dirent(e, nameOff);
    assert HoldsAt(buf, d, LeBytes(e.nid, NidBytes)) by {
      forall k | 0 <= k < 8 ensures buf[d + k] == LeBytes(e.nid, NidBytes)[k] {
        assert bytes[k] == LeBytes(e.nid, NidBytes)[k];
      }
    }
    assert HoldsAt(buf, d + 8, LeBytes(nameOff, OffsetBytes)) by {
      forall k | 0 <= k < 2 ensures buf[d + 8 + k] == LeBytes(nameOff, OffsetBytes)[k] {
        assert buf[d + (8 + k)] == bytes[8 + k];
      }
    }
    assert buf[d + 10] == bytes[10];
    PowersOf256();
    LeRoundTrip(buf, d, e.nid, NidBytes);
    LeRoundTrip(buf, d + 8, nameOff, OffsetBytes);
  }

  lemma {:induction false} NameStops(buf: seq<byte>, from: nat, stop: nat, end: nat)
    requires from <= stop <= end <= |buf| && (stop == end || buf[stop] == 0)
    requires forall p :: from <= p < stop ==> buf[p] != 0
    ensures NameStop(buf, from, end) == stop
    decreases stop - from
  {
    if from < stop { NameStops(buf, from + 1, stop, end); }
  }

  /** The block of entries `s..e` is on disk in `base..end`, with nothing but zeros after its names. */
  ghost predicate BlockStored(buf: seq<byte>, base: nat, end: nat, es: seq<Entry>, s: nat, e: nat) {
    s < e <= |es| && end <= |buf| && base + NameOff(es, s, e, e) <= end && NameOff(es, s, e, e) <= BlockSize
    && (forall i :: s <= i < e ==> Stored(buf, base, es, s, e, i))
    && ZeroFrom(buf, base + NameOff(es, s, e, e), end)
  }

  /** What the bytes of a stored entry read as. */
  ghost predicate ReadsAs(buf: seq<byte>, base: nat, es: seq<Entry>, s: nat, e: nat, i: nat)
    requires s <= i < e <= |es|
  {
    var d, n := base + DirentSize * (i - s), base + NameOff(es, s, e, i);
    n + |es[i].name| <= |buf| && DirentReads(buf, d, es[i], NameOff(es, s, e, i))
    && Cut(buf, n, |es[i].name|) == es[i].name
  }

  lemma StoredDirentReads(buf: seq<byte>, base: nat, es: seq<Entry>, s: nat, e: nat, i: nat)
    requires s <= i < e <= |es| && Stored(buf, base, es, s, e, i) && es[i].nid < U64
    requires NameOff(es, s, e, i) <= BlockSize
    ensures DirentReads(buf, base + DirentSize * (i - s), es[i], NameOff(es, s, e, i))
  {
    DirentFields(buf, base + DirentSize * (i - s), es[i], NameOff(es, s, e, i));
  }

  lemma StoredNameReads(buf: seq<byte>, base: nat, es: seq<Entry>, s: nat, e: nat, i: nat)
    requires s <= i < e <= |es| && Stored(buf, base, es, s, e, i)
    ensures var n := base + NameOff(es, s, e, i); n + |es[i].name| <= |buf| && Cut(buf, n, |es[i].name|) == es[i].name
  {
    HoldsSlice(buf, base + NameOff(es, s, e, i), es[i].name);
  }

  lemma StoredReads(buf: seq<byte>, base: nat, es: seq<Entry>, s: nat, e: nat, i: nat)
    requires s <= i < e <= |es| && Stored(buf, base, es, s, e, i) && es[i].nid < U64
    requires NameOff(es, s, e, i) <= BlockSize
    ensures ReadsAs(buf, base, es, s, e, i)
  {
    StoredDirentReads(buf, base, es, s, e, i);
    StoredNameReads(buf, base, es, s, e, i);
  }

  predicate Plain(e: Entry) {
    forall k :: 0 <= k < |e.name| ==> e.name[k] != 0
  }

  /** An entry whose name ends at its first NUL. */
  function Shown(e: Entry): Entry {
    e.(name := Cut(e.name, 0, NameStop(e.name, 0, |e.name|)))
  }

  lemma {:induction false} NameStopMeans(name: seq<byte>, from: nat)
    requires from <= |name|
    ensures var t := NameStop(name, from, |name|);
            (forall k :: from <= k < t ==> name[k] != 0) && (t < |name| ==> name[t] == 0)
    decreases |name| - from
  {
    if from < |name| && name[from] != 0 { NameStopMeans(name, from + 1); }
  }

  lemma ShownIsSame(e: Entry)
    ensures Shown(e) == e <==> Plain(e)
  {
    NameStopMeans(e.name, 0);
    if Plain(e) {
      assert Shown(e).name == e.name;
    } else {
      assert |Shown(e).name| < |e.name|;
    }
  }

  /** Every entry of the block reads back, its last name up to the first NUL. */
  ghost predicate BlockReads(buf: seq<byte>, base: nat, end: nat, es: seq<Entry>, s: nat, e: nat) {
    s < e <= |es| && end <= |buf| && base + NameOff(es, s, e, e) <= end
    && (forall i :: s <= i < e ==> ReadsAs(buf, base, es, s, e, i))
    && base + NameOff(es, s, e, e - 1) <= end
    && NameStop(buf, base + NameOff(es, s, e, e - 1), end)
       == base + NameOff(es, s, e, e - 1) + NameStop(es[e - 1].name, 0, |es[e - 1].name|)
  }

  lemma LastNameStops(buf: seq<byte>, base: nat, end: nat, es: seq<Entry>, s: nat, e: nat)
    requires s < e <= |es| && base + NameOff(es, s, e, e) <= end <= |buf|
    requires ReadsAs(buf, base, es, s, e, e - 1) && ZeroFrom(buf, base + NameOff(es, s, e, e), end)
    ensures NameStop(buf, base + NameOff(es, s, e, e - 1), end)
            == base + NameOff(es, s, e, e - 1) + NameStop(es[e - 1].name, 0, |es[e - 1].name|)
  {
    var from, name := base + NameOff(es, s, e, e - 1), es[e - 1].name;
    var t := NameStop(name, 0, |name|);
    NameStopMeans(name, 0);
    forall p | from <= p < from + |name| ensures buf[p] == name[p - from] {
      assert Cut(buf, from, |name|)[p - from] == name[p - from];
    }
    NameStops(buf, from, from + t, end);
  }

  lemma BlockStoredReads(buf: seq<byte>, base: nat, end: nat, es: seq<Entry>, s: nat, e: nat)
    requires BlockStored(buf, base, end, es, s, e) && WideNids(es)
    ensures BlockReads(buf, base, end, es, s, e)
  {
    forall i | s <= i < e ensures ReadsAs(buf, base, es, s, e, i) {
      NamesGrow(es, s, i, e);
      StoredReads(buf, base, es, s, e, i);
    }
    LastNameStops(buf, base, end, es, s, e);
  }

  lemma CutAgain(buf: seq<byte>, from: nat, name: seq<byte>, t: nat)
    requires from + |name| <= |buf| && Cut(buf, from, |name|) == name && t <= |name|
    ensures Cut(buf, from, t) == Cut(name, 0, t)
  {
    forall k | 0 <= k < t ensures Cut(buf, from, t)[k] == Cut(name, 0, t)[k] {
      assert Cut(buf, from, |name|)[k] == name[k];
    }
  }

  lemma ReadsEntry(buf: seq<byte>, base: nat, end: nat, es: seq<Entry>, s: nat, e: nat, i: nat)
    requires BlockReads(buf, base, end, es, s, e) && s <= i < e
    ensures ReadEntry(buf, base, end, e - s, i - s) == Some(if i + 1 < e then es[i] else Shown(es[i]))
  {
    NamesGrow(es, s, i + 1, e);
    assert ReadsAs(buf, base, es, s, e, i);
    assert NameOff(es, s, e, i + 1) == NameOff(es, s, e, i) + |es[i].name|;
    if i + 1 < e {
      assert ReadsAs(buf, base, es, s, e, i + 1);
    } else {
      CutAgain(buf, base + NameOff(es, s, e, i), es[i].name, NameStop(es[i].name, 0, |es[i].name|));
    }
  }

  lemma SliceCons(es: seq<Entry>, i: nat, e: nat)
    requires i < e <= |es|
    ensures es[i..e] == [es[i]] + es[i + 1..e]
  {
  }

  ghost predicate EntriesRead(buf: seq<byte>, base: nat, end: nat, es: seq<Entry>, s: nat, e: nat)
    requires s <= e <= |es| && end <= |buf|
  {
    forall i :: s <= i < e ==> ReadEntry(buf, base, end, e - s, i - s) == Some(es[i])
  }

  lemma {:induction false} ReadsEntries(buf: seq<byte>, base: nat, end: nat, es: seq<Entry>, s: nat, e: nat, i: nat)
    requires s <= i <= e <= |es| && end <= |buf| && EntriesRead(buf, base, end, es, s, e)
    ensures ReadEntries(buf, base, end, e - s, i - s) == Some(es[i..e])
    decreases e - i
  {
    if i < e {
      ReadsEntries(buf, base, end, es, s, e, i + 1);
      assert ReadEntry(buf, base, end, e - s, i - s) == Some(es[i]);
      assert i + 1 - s == i - s + 1;
      SliceCons(es, i, e);
    } else {
      assert es[i..e] == [];
    }
  }

  /** `rs` is `es` on the block `s..e`, with the last name up to its first NUL. */
  ghost predicate ShownBlock(es: seq<Entry>, rs: seq<Entry>, s: nat, e: nat) {
    s <= e <= |es| == |rs| && forall i :: s <= i < e ==> rs[i] == if i + 1 < e then es[i] else Shown(es[i])
  }

  lemma ReadsBlock(buf: seq<byte>, base: nat, end: nat, es: seq<Entry>, rs: seq<Entry>, s: nat, e: nat)
    requires BlockReads(buf, base, end, es, s, e) && ShownBlock(es, rs, s, e)
    ensures ReadBlock(buf, base, end) == Some(rs[s..e])
  {
    NamesGrow(es, s, s, e);
    assert ReadsAs(buf, base, es, s, e, s);
    assert LeAt(buf, base + 8, OffsetBytes) / DirentSize == e - s;
    assert ReadEntries(buf, base, end, e - s, 0) == Some(rs[s..e]) by {
      forall i | s <= i < e ensures ReadEntry(buf, base, end, e - s, i - s) == Some(rs[i]) {
        ReadsEntry(buf, base, end, es, s, e, i);
      }
      ReadsEntries(buf, base, end, rs, s, e, s);
    }
  }

  // ---------- the blocks of a whole directory ----------

  /** Where block `k` starts in the entry list. */
  function BlockStart(es: seq<Entry>, k: nat): (r: nat)
    ensures r <= |es|
  {
    if k == 0 then 0 else BlockEnd(es, BlockStart(es, k - 1))
  }

  lemma {:induction false} BlockStartMonotone(es: seq<Entry>, a: nat, b: nat)
    requires a <= b
    ensures BlockStart(es, a) <= BlockStart(es, b)
    decreases b
  {
    if a < b { BlockStartMonotone(es, a, b - 1); }
  }

  lemma {:induction false} StartsAreFar(es: seq<Entry>, k: nat)
    requires AllFit(es)
    ensures BlockStart(es, k) >= k || BlockStart(es, k) == |es|
  {
    if k > 0 {
      StartsAreFar(es, k - 1);
      if BlockStart(es, k - 1) < |es| { Progress(es, BlockStart(es, k - 1)); }
    }
  }

  /** Every entry before the start of a block fits a block on its own. */
  lemma {:induction false} PackedFit(es: seq<Entry>, start: nat, end: nat, used: nat, i: nat)
    requires start <= end <= |es| && start <= i < Fit(es, end, used)
    requires forall j :: start <= j < end ==> EntrySize(es[j]) <= BlockSize
    ensures EntrySize(es[i]) <= BlockSize
    decreases |es| - end
  {
    if end < |es| && used + EntrySize(es[end]) <= BlockSize {
      PackedFit(es, start, end + 1, used + EntrySize(es[end]), i);
    }
  }

  lemma {:induction false} BlocksFit(es: seq<Entry>, k: nat, i: nat)
    requires i < BlockStart(es, k)
    ensures EntrySize(es[i]) <= BlockSize
  {
    var start := BlockStart(es, k - 1);
    if i < start { BlocksFit(es, k - 1, i); } else { PackedFit(es, start, start, 0, i); }
  }

  /** The packing loop reaches the end of the entries exactly if every entry fits a block on its own. */
  lemma PackingEnds(es: seq<Entry>)
    ensures (exists k: nat :: BlockStart(es, k) == |es|) <==> AllFit(es)
  {
    if AllFit(es) {
      StartsAreFar(es, |es|);
      assert BlockStart(es, |es|) == |es|;
    } else if k: nat :| BlockStart(es, k) == |es| {
      forall i | 0 <= i < |es| ensures EntrySize(es[i]) <= BlockSize { BlocksFit(es, k, i); }
    }
  }

  /** A single entry with a name of 4085 bytes is never packed. */
  lemma {:induction false} LongNameSpins(e: Entry, k: nat)
    requires |e.name| == 4085
    ensures BlockStart([e], k) == 0
  {
    if k > 0 { LongNameSpins(e, k - 1); }
  }

  /** Entry `i` is the last of its block. */
  ghost predicate EndsBlock(es: seq<Entry>, i: nat) {
    exists k: nat :: BlockStart(es, k) == i + 1
  }

  /** What a directory reads back as: the last name of each block ends at its first NUL. */
  ghost function AsRead(es: seq<Entry>): (r: seq<Entry>)
    ensures |r| == |es|
  {
    seq(|es|, i requires 0 <= i < |es| => if EndsBlock(es, i) then Shown(es[i]) else es[i])
  }

  /** A directory reads back as written exactly if no block ends in a name with a NUL. */
  lemma AsReadIsSame(es: seq<Entry>)
    ensures AsRead(es) == es <==> forall i :: 0 <= i < |es| && EndsBlock(es, i) ==> Plain(es[i])
  {
    forall i | 0 <= i < |es| ensures Shown(es[i]) == es[i] <==> Plain(es[i]) { ShownIsSame(es[i]); }
    if AsRead(es) == es {
      forall i | 0 <= i < |es| && EndsBlock(es, i) ensures Plain(es[i]) { assert AsRead(es)[i] == es[i]; }
    }
  }

  /** A directory of one entry whose name holds a NUL does not read back as written. */
  lemma NulNameIsCut(e: Entry)
    requires EntrySize(e) <= BlockSize && !Plain(e)
    ensures AsRead([e]) != [e]
  {
    assert BlockStart([e], 1) == 1;
    assert EndsBlock([e], 0);
    AsReadIsSame([e]);
  }

  lemma BlockShown(es: seq<Entry>, k: nat)
    requires BlockStart(es, k) < BlockStart(es, k + 1)
    ensures ShownBlock(es, AsRead(es), BlockStart(es, k), BlockStart(es, k + 1))
  {
    var s, e := BlockStart(es, k), BlockStart(es, k + 1);
    forall i | s <= i < e ensures EndsBlock(es, i) <==> i + 1 == e {
      if j: nat :| BlockStart(es, j) == i + 1 {
        if j <= k { BlockStartMonotone(es, j, k); } else { BlockStartMonotone(es, k + 1, j); }
      }
    }
  }

  /** Where block `k` ends in a buffer of `size` bytes. */
  function BlockLimit(size: nat, k: nat): nat {
    if BlockSize * k + BlockSize <= size then BlockSize * k + BlockSize else size
  }

  ghost predicate StoredBlock(buf: seq<byte>, es: seq<Entry>, k: nat) {
    BlockStart(es, k) < |es| ==>
      BlockStored(buf, BlockSize * k, BlockLimit(|buf|, k), es, BlockStart(es, k), BlockStart(es, k + 1))
  }

  ghost predicate StoredBlocks(buf: seq<byte>, es: seq<Entry>, n: nat) {
    forall k :: 0 <= k < n ==> StoredBlock(buf, es, k)
  }

  ghost predicate BlockReadable(buf: seq<byte>, es: seq<Entry>, k: nat) {
    BlockStart(es, k) < |es| ==>
      BlockStart(es, k) < BlockStart(es, k + 1) && BlockLimit(|buf|, k) <= |buf|
      && ReadBlock(buf, BlockSize * k, BlockLimit(|buf|, k))
         == Some(AsRead(es)[BlockStart(es, k)..BlockStart(es, k + 1)])
  }

  lemma StoredIsReadable(buf: seq<byte>, es: seq<Entry>, k: nat)
    requires WideNids(es) && StoredBlock(buf, es, k)
    ensures BlockReadable(buf, es, k)
  {
    var s, e := BlockStart(es, k), BlockStart(es, k + 1);
    if s < |es| {
      BlockStoredReads(buf, BlockSize * k, BlockLimit(|buf|, k), es, s, e);
      BlockShown(es, k);
      ReadsBlock(buf, BlockSize * k, BlockLimit(|buf|, k), es, AsRead(es), s, e);
    }
  }

  /** The whole buffer is block `k` and what follows it. */
  ghost predicate Reaches(size: nat, es: seq<Entry>, k: nat)
    requires AllFit(es)
  {
    if BlockStart(es, k) < |es| then size == BlockSize * k + Planned(es, BlockStart(es, k)) else size <= BlockSize * k
  }

  lemma {:induction false} SizePositive(es: seq<Entry>, s: nat, i: nat)
    requires s <= i <= |es|
    ensures Size(es, s, i) >= DirentSize * (i - s)
    decreases i - s
  {
    if s < i { SizePositive(es, s, i - 1); }
  }

  lemma ReachesNext(size: nat, es: seq<Entry>, k: nat)
    requires AllFit(es) && Reaches(size, es, k) && BlockStart(es, k) < |es|
    ensures BlockStart(es, k) < BlockStart(es, k + 1) && Reaches(size, es, k + 1)
    ensures BlockSize * k < size
    ensures BlockStart(es, k + 1) < |es| ==> BlockSize * k + BlockSize < size
    ensures BlockStart(es, k + 1) == |es| ==>
              size == BlockSize * k + Size(es, BlockStart(es, k), |es|) <= BlockSize * k + BlockSize
  {
    var s, e := BlockStart(es, k), BlockStart(es, k + 1);
    Progress(es, s);
    FitMeans(es, s, s);
    SizePositive(es, s, e);
    if e < |es| {
      Progress(es, e);
      SizePositive(es, e, BlockEnd(es, e));
    }
  }

  lemma RestAfter(es: seq<Entry>, s: nat, e: nat)
    requires s <= e <= |es|
    ensures es[s..e] + es[e..] == es[s..]
  {
  }

  lemma ReadsThenRest(buf: seq<byte>, rs: seq<Entry>, base: nat, end: nat, s: nat, e: nat)
    requires s <= e <= |rs| && base < |buf| && end == if base + BlockSize <= |buf| then base + BlockSize else |buf|
    requires ReadBlock(buf, base, end) == Some(rs[s..e]) && ReadDir(buf, end) == Some(rs[e..])
    ensures ReadDir(buf, base) == Some(rs[s..])
  {
    RestAfter(rs, s, e);
  }

  /** Reading on after block `k` starts at its limit, or there is nothing left. */
  lemma ReadsFromLimit(buf: seq<byte>, rs: seq<Entry>, k: nat, e: nat)
    requires e <= |rs| && ReadDir(buf, BlockSize * (k + 1)) == Some(rs[e..])
    requires if e < |rs| then BlockSize * k + BlockSize < |buf| else |buf| <= BlockSize * k + BlockSize
    ensures ReadDir(buf, BlockLimit(|buf|, k)) == Some(rs[e..])
  {
    if e == |rs| { assert rs[e..] == []; }
  }

  lemma BlockThenRest(buf: seq<byte>, es: seq<Entry>, k: nat)
    requires AllFit(es) && BlockStart(es, k) < |es| && Reaches(|buf|, es, k) && BlockReadable(buf, es, k)
    requires ReadDir(buf, BlockSize * (k + 1)) == Some(AsRead(es)[BlockStart(es, k + 1)..])
    ensures ReadDir(buf, BlockSize * k) == Some(AsRead(es)[BlockStart(es, k)..])
  {
    var s, e := BlockStart(es, k), BlockStart(es, k + 1);
    ReachesNext(|buf|, es, k);
    ReadsFromLimit(buf, AsRead(es), k, e);
    ReadsThenRest(buf, AsRead(es), BlockSize * k, BlockLimit(|buf|, k), s, e);
  }

  /** From block `k` on, the rest of the entries reads back. */
  lemma {:induction false} ReadsFrom(buf: seq<byte>, es: seq<Entry>, k: nat, n: nat)
    requires AllFit(es) && k <= n && BlockStart(es, n) == |es| && Reaches(|buf|, es, k)
    requires forall j :: 0 <= j < n ==> BlockReadable(buf, es, j)
    ensures ReadDir(buf, BlockSize * k) == Some(AsRead(es)[BlockStart(es, k)..])
    decreases n - k
  {
    if BlockStart(es, k) == |es| {
      assert AsRead(es)[|es|..] == [];
    } else {
      ReachesNext(|buf|, es, k);
      ReadsFrom(buf, es, k + 1, n);
      BlockThenRest(buf, es, k);
    }
  }

  // ---------- writing ----------

  lemma FourPuts(b: seq<byte>, d: nat, e: Entry, off: nat)
    requires d + DirentSize <= |b|
    ensures var named := Put(Put(b, d, LeBytes(e.nid, NidBytes)), d + 8, LeBytes(off, OffsetBytes));
            Put(Put(named, d + 10, [e.fileType]), d + 11, [0]) == Put(b, d, Dirent(e, off))
  {
  }

  /** The buffer after one entry is written: its dirent at `d`, its name at `n`. */
  ghost function Written(b: seq<byte>, d: nat, n: nat, e: Entry, off: nat): (r: seq<byte>)
    requires d + DirentSize <= |b| && n + |e.name| <= |b|
    ensures |r| == |b|
  {
    Put(Put(b, d, Dirent(e, off)), n, e.name)
  }

  /** The place of entry `i` in its block: dirent at `d`, name at `n`, which is offset `off` of the block. */
  ghost predicate IsPlace(base: nat, es: seq<Entry>, s: nat, e: nat, i: nat, d: nat, n: nat, off: nat) {
    s <= i < e <= |es| && off == NameOff(es, s, e, i) && n == base + off && d == base + DirentSize * (i - s)
  }

  method WriteEntry(buf: array<byte>, d: nat, n: nat, e: Entry, off: nat) returns (ok: bool)
    requires d + DirentSize <= buf.Length && n + |e.name| <= buf.Length
    modifies buf
    ensures ok && buf[..] == Written(old(buf[..]), d, n, e, off)
  {
    FourPuts(buf[..], d, e, off);
    ok := WriteBytes(buf, d, LeBytes(e.nid, NidBytes));
    if ok { ok := WriteBytes(buf, d + 8, LeBytes(off, OffsetBytes)); }
    if ok { ok := WriteBytes(buf, d + 10, [e.fileType]); }
    if ok { ok := WriteBytes(buf, d + 11, [0]); }
    if ok { ok := WriteBytes(buf, n, e.name); }
  }

  /** The first entries of a block are stored and everything after the names so far is zero. */
  ghost predicate PartStored(buf: seq<byte>, base: nat, es: seq<Entry>, s: nat, e: nat, i: nat) {
    s <= i <= e <= |es| && (forall j :: s <= j < i ==> Stored(buf, base, es, s, e, j))
    && ZeroFrom(buf, base + NameOff(es, s, e, i), |buf|)
  }

  lemma WrittenIsStored(b: seq<byte>, base: nat, es: seq<Entry>, s: nat, e: nat, i: nat, d: nat, n: nat, off: nat)
    requires IsPlace(base, es, s, e, i, d, n, off) && n + |es[i].name| <= |b|
    ensures Stored(Written(b, d, n, es[i], off), base, es, s, e, i)
  {
  }

  lemma OthersStayStored(b: seq<byte>, base: nat, es: seq<Entry>, s: nat, e: nat, i: nat, d: nat, n: nat, off: nat,
                         j: nat)
    requires IsPlace(base, es, s, e, i, d, n, off) && n + |es[i].name| <= |b|
    requires s <= j < i && Stored(b, base, es, s, e, j)
    ensures Stored(Written(b, d, n, es[i], off), base, es, s, e, j)
  {
    NamesGrow(es, s, j + 1, i);
    StoredSurvives(b, base, es, s, e, j, d, Dirent(es[i], off));
    StoredSurvives(Put(b, d, Dirent(es[i], off)), base, es, s, e, j, n, es[i].name);
  }

  lemma OnlyThere(b: seq<byte>, base: nat, es: seq<Entry>, s: nat, e: nat, i: nat, d: nat, n: nat, off: nat, p: nat)
    requires IsPlace(base, es, s, e, i, d, n, off) && n + |es[i].name| <= |b| && p < |b|
    requires p < base || n + |es[i].name| <= p
    ensures Written(b, d, n, es[i], off)[p] == b[p]
  {
  }

  lemma EntriesStored(b: seq<byte>, base: nat, es: seq<Entry>, s: nat, e: nat, i: nat, d: nat, n: nat, off: nat)
    requires PartStored(b, base, es, s, e, i) && IsPlace(base, es, s, e, i, d, n, off) && n + |es[i].name| <= |b|
    ensures forall j :: s <= j < i + 1 ==> Stored(Written(b, d, n, es[i], off), base, es, s, e, j)
  {
    forall j | s <= j < i + 1 ensures Stored(Written(b, d, n, es[i], off), base, es, s, e, j) {
      if j < i {
        OthersStayStored(b, base, es, s, e, i, d, n, off, j);
      } else {
        WrittenIsStored(b, base, es, s, e, i, d, n, off);
      }
    }
  }

  lemma RestUntouched(b: seq<byte>, base: nat, es: seq<Entry>, s: nat, e: nat, i: nat, d: nat, n: nat, off: nat)
    requires IsPlace(base, es, s, e, i, d, n, off) && n + |es[i].name| <= |b|
    requires ZeroFrom(b, base + NameOff(es, s, e, i), |b|)
    ensures SameBelow(b, Written(b, d, n, es[i], off), base)
    ensures ZeroFrom(Written(b, d, n, es[i], off), base + NameOff(es, s, e, i + 1), |b|)
  {
    forall p | 0 <= p < |b| && (p < base || n + |es[i].name| <= p) ensures Written(b, d, n, es[i], off)[p] == b[p] {
      OnlyThere(b, base, es, s, e, i, d, n, off, p);
    }
  }

  /** Writing the next entry in its place keeps the earlier ones, the zeros after it, and the blocks before. */
  lemma EntryWritten(b: seq<byte>, b': seq<byte>, base: nat, es: seq<Entry>, s: nat, e: nat, i: nat,
                     d: nat, n: nat, off: nat)
    requires PartStored(b, base, es, s, e, i) && IsPlace(base, es, s, e, i, d, n, off)
    requires n + |es[i].name| <= |b| && b' == Written(b, d, n, es[i], off)
    ensures SameBelow(b, b', base) && PartStored(b', base, es, s, e, i + 1)
  {
    EntriesStored(b, base, es, s, e, i, d, n, off);
    RestUntouched(b, base, es, s, e, i, d, n, off);
  }

  /** Bytes below `limit` decide the blocks that end there. */
  lemma StoredBelow(a: seq<byte>, b: seq<byte>, es: seq<Entry>, n: nat)
    requires StoredBlocks(a, es, n) && SameBelow(a, b, BlockSize * n)
    ensures StoredBlocks(b, es, n)
  {
    forall k | 0 <= k < n ensures StoredBlock(b, es, k) {
      assert StoredBlock(a, es, k);
      if BlockStart(es, k) < |es| { BlockStoredBelow(a, b, es, k); }
    }
  }

  lemma BlockStoredBelow(a: seq<byte>, b: seq<byte>, es: seq<Entry>, k: nat)
    requires |a| == |b| && StoredBlock(a, es, k) && BlockStart(es, k) < |es|
    requires SameBelow(a, b, BlockLimit(|a|, k))
    ensures StoredBlock(b, es, k)
  {
    var base, s, e := BlockSize * k, BlockStart(es, k), BlockStart(es, k + 1);
    var limit := BlockLimit(|a|, k);
    assert BlockStored(a, base, limit, es, s, e);
    forall i | s <= i < e ensures Stored(b, base, es, s, e, i) {
      assert Stored(a, base, es, s, e, i);
      NameFits(es, s, e, i);
      StoredAgrees(a, b, base, es, s, e, i, limit);
    }
    assert ZeroFrom(b, base + NameOff(es, s, e, e), limit);
  }

  lemma StoredAgrees(a: seq<byte>, b: seq<byte>, base: nat, es: seq<Entry>, s: nat, e: nat, i: nat, limit: nat)
    requires s <= i < e <= |es| && Stored(a, base, es, s, e, i) && limit <= |a| == |b|
    requires base + NameOff(es, s, e, i + 1) <= limit && SameBelow(a, b, limit)
    ensures Stored(b, base, es, s, e, i)
  {
  }

  lemma SameBelowTransitive(a: seq<byte>, b: seq<byte>, c: seq<byte>, limit: nat)
    requires SameBelow(a, b, limit) && SameBelow(b, c, limit)
    ensures SameBelow(a, c, limit)
  {
  }

  lemma NameFits(es: seq<Entry>, s: nat, e: nat, i: nat)
    requires s <= i < e <= |es|
    ensures NameOff(es, s, e, i) + |es[i].name| == NameOff(es, s, e, i + 1) <= NameOff(es, s, e, e)
  {
    NamesGrow(es, s, i + 1, e);
  }

  /** Writes the entries of one block into the zeroed rest of the buffer. */
  method WriteBlock(buf: array<byte>, es: seq<Entry>, base: nat, s: nat, e: nat)
    requires s < e <= |es| && base + NameOff(es, s, e, e) <= buf.Length && ZeroFrom(buf[..], base, buf.Length)
    requires NameOff(es, s, e, e) <= BlockSize
    modifies buf
    ensures PartStored(buf[..], base, es, s, e, e)
    ensures SameBelow(old(buf[..]), buf[..], base)
  {
    var direntOffset, nameOffset: nat := 0, DirentSize * (e - s);
    ghost var first := buf[..];
    for i := s to e
      invariant direntOffset == DirentSize * (i - s) && nameOffset == NameOff(es, s, e, i)
      invariant PartStored(buf[..], base, es, s, e, i) && SameBelow(first, buf[..], base)
    {
      NameFits(es, s, e, i);
      var nameOffset16 := if nameOffset < 65536 then nameOffset else 0;
      ghost var before := buf[..];
      var direntStart, nameStart := base + direntOffset, base + nameOffset;
      var ok := WriteEntry(buf, direntStart, nameStart, es[i], nameOffset16);
      EntryWritten(before, buf[..], base, es, s, e, i, direntStart, nameStart, nameOffset16);
      SameBelowTransitive(first, before, buf[..], base);
      direntOffset := direntOffset + DirentSize;
      nameOffset := nameOffset + |es[i].name|;
    }
  }

  lemma BlockDone(before: seq<byte>, after: seq<byte>, es: seq<Entry>, k: nat)
    requires |before| == |after| && AllFit(es) && Reaches(|after|, es, k) && BlockStart(es, k) < |es|
    requires StoredBlocks(before, es, k)
    requires PartStored(after, BlockSize * k, es, BlockStart(es, k), BlockStart(es, k + 1), BlockStart(es, k + 1))
    requires SameBelow(before, after, BlockSize * k)
    ensures StoredBlocks(after, es, k + 1) && ZeroFrom(after, BlockSize * (k + 1), |after|)
  {
    var s, e := BlockStart(es, k), BlockStart(es, k + 1);
    ReachesNext(|after|, es, k);
    FitMeans(es, s, s);
    SizeSplits(es, s, e);
    StoredBelow(before, after, es, k);
    assert StoredBlock(after, es, k);
  }

  lemma AllRead(out: seq<byte>, es: seq<Entry>, n: nat)
    requires AllFit(es) && WideNids(es) && StoredBlocks(out, es, n) && BlockStart(es, n) == |es|
    requires |out| == Planned(es, 0)
    ensures ReadDir(out, 0) == Some(AsRead(es))
  {
    forall j | 0 <= j < n ensures BlockReadable(out, es, j) { StoredIsReadable(out, es, j); }
    ReadsFrom(out, es, 0, n);
    assert AsRead(es)[0..] == AsRead(es);
  }

  lemma BlockFits(total: nat, es: seq<Entry>, k: nat)
    requires AllFit(es) && Reaches(total, es, k) && BlockStart(es, k) < |es|
    ensures var s, e := BlockStart(es, k), BlockEnd(es, BlockStart(es, k));
            s < e && NameOff(es, s, e, e) <= BlockSize && BlockSize * k + NameOff(es, s, e, e) <= total
  {
    var s, e := BlockStart(es, k), BlockStart(es, k + 1);
    ReachesNext(total, es, k);
    FitMeans(es, s, s);
    SizeSplits(es, s, e);
  }

  /** The serialized directory reads back as its entries, up to a NUL in the last name of a block. */
  method SerializeEntries(es: seq<Entry>) returns (out: seq<byte>)
    requires AllFit(es) && WideNids(es)
    ensures |out| == Planned(es, 0) && ReadDir(out, 0) == Some(AsRead(es))
  {
    var total := DataSize(es);
    var buf := new byte[total](_ => 0);
    var blockStart, start: nat := 0, 0;
    ghost var k: nat := 0;
    while start < |es|
      invariant start == BlockStart(es, k) && Reaches(total, es, k)
      invariant start < |es| ==> blockStart == BlockSize * k
      invariant StoredBlocks(buf[..], es, k) && ZeroFrom(buf[..], BlockSize * k, total)
      decreases |es| - start
    {
      BlockFits(total, es, k);
      ReachesNext(total, es, k);
      var end := BlockEndLoop(es, start);
      ghost var before := buf[..];
      WriteBlock(buf, es, blockStart, start, end);
      BlockDone(before, buf[..], es, k);
      blockStart := blockStart + if end == |es| then total - blockStart else BlockSize;
      start, k := end, k + 1;
    }
    out := buf[..];
    AllRead(out, es, k);
  }
}
