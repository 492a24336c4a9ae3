/** The FAT32 geometry search (libs/fatfs/src/layout.rs). */
module FatLayout {
  import opened Prelude
  import opened FatTypes

  datatype LayoutError = TooLarge | TooSmallForReserved | Insufficient

  /** `u64::wrapping_sub`. */
  function WrappingSub(a: nat, b: nat): nat
    requires a < U64 && b < U64
  {
    if a >= b then a - b else a + U64 - b
  }

  /** `u64::div_euclid`. */
  function Quot(a: nat, b: nat): (q: nat)
    requires b > 0
    ensures b == 1 ==> q == a
  {
    a / b
  }

  /** The FAT size and cluster count one cluster size gives, with 64-bit wrap-around. */
  function TestSpc(spc: nat, totalSectors: nat, rsvd: nat): Option<(nat, nat)>
    requires spc > 0 && totalSectors < U64 && rsvd < U64
  {
    var dataSectors := WrappingSub(totalSectors, rsvd);
    var totalClusters := Quot(dataSectors, spc);
    if totalClusters == 0 then None
    else
      var entries := if totalClusters + 2 < U64 then totalClusters + 2 else U64 - 1;
      if entries * FatEntrySize >= U64 then None
      else
        var fatSectors := AlignFatSectors(CeilDiv(entries * FatEntrySize, SectorSize), rsvd);
        var finalClusters := Quot(WrappingSub(dataSectors, (fatSectors * FatCount) % U64), spc);
        if finalClusters == 0 then None else Some((fatSectors, finalClusters))
  }

  predicate Accepts(spc: nat, totalSectors: nat) {
    spc > 0 && totalSectors < U64 && TestSpc(spc, totalSectors, ReservedSectors).Some?
    && TestSpc(spc, totalSectors, ReservedSectors).value.1 >= Fat32MinClusters
  }

  const SpcValues: seq<nat> := [64, 32, 16, 8, 4, 2, 1]

  // ---------- what a geometry means, without machine arithmetic ----------

  /** Whole pages of FAT sectors, four to a page, with an entry for each of `c` clusters. */
  function FatFor(c: nat): (f: nat)
    ensures 128 * f >= c + 2 > 128 * (f - 4) && f % 4 == 0
  {
    4 * ((c + 2 + 511) / 512)
  }

  /** Rounding up to sectors and then to the page boundary gives exactly those pages. */
  lemma AlignedFat(c: nat)
    ensures AlignFatSectors(CeilDiv((c + 2) * FatEntrySize, SectorSize), ReservedSectors) == FatFor(c)
  {
    var s := CeilDiv((c + 2) * FatEntrySize, SectorSize);
    AlignIsLeast(s, ReservedSectors);
    assert 128 * s >= c + 2 > 128 * (s - 1);
  }

  /** From 16 sectors on the two FATs always fit in the data area, so nothing wraps. */
  lemma FatsFit(c: nat, data: nat)
    requires c <= data && 8 <= data
    ensures 2 * FatFor(c) <= data
  {
  }

  lemma QuotBounds(a: nat, b: nat)
    requires b in SpcValues
    ensures b * Quot(a, b) <= a < b * Quot(a, b) + b && Quot(a, b) <= a
  {
  }

  /** From 16 sectors on the search computes exactly what the geometry means. */
  lemma TestSpcMeans(spc: nat, t: nat)
    requires spc in SpcValues && 16 <= t < U32
    ensures var fat := FatFor(Quot(t - 8, spc));
            2 * fat <= t - 8
            && TestSpc(spc, t, ReservedSectors) ==
               (if Quot(t - 8 - 2 * fat, spc) == 0 then None else Some((fat, Quot(t - 8 - 2 * fat, spc))))
  {
    var c := Quot(t - 8, spc);
    QuotBounds(t - 8, spc);
    FatsFit(c, t - 8);
    AlignedFat(c);
    var fat := FatFor(c);
    assert WrappingSub(t, ReservedSectors) == t - 8;
    if c == 0 {
      QuotBounds(t - 8 - 2 * fat, spc);
    } else {
      assert (c + 2) * FatEntrySize < U64;
      assert (fat * FatCount) % U64 == 2 * fat;
      assert WrappingSub(t - 8, 2 * fat) == t - 8 - 2 * fat;
    }
  }

  /** The clusters that cluster size `spc` leaves after its FATs, in plain arithmetic. */
  function Clusters(spc: nat, t: nat): nat
    requires spc in SpcValues && 16 <= t
  {
    QuotBounds(t - 8, spc);
    FatsFit(Quot(t - 8, spc), t - 8);
    Quot(t - 8 - 2 * FatFor(Quot(t - 8, spc)), spc)
  }

  lemma AcceptsMeans(spc: nat, t: nat)
    requires spc in SpcValues && 16 <= t < U32
    ensures Accepts(spc, t) <==> Clusters(spc, t) >= Fat32MinClusters
    ensures Accepts(spc, t) ==>
              TestSpc(spc, t, ReservedSectors) == Some((FatFor(Quot(t - 8, spc)), Clusters(spc, t)))
  {
    TestSpcMeans(spc, t);
  }

  /** With one-sector clusters FAT32 starts exactly at 66581 sectors, although the count is not monotone. */
  lemma OneSectorThreshold(t: nat)
    requires 16 <= t
    ensures Clusters(1, t) >= Fat32MinClusters <==> t >= 66581
  {
  }

  /** The cluster count drops when the FAT grows by a page. */
  lemma NotMonotone()
    ensures Clusters(1, 66566) > Clusters(1, 66567)
  {
  }

  lemma WiderNeedsMore(spc: nat, t: nat)
    requires spc in SpcValues && spc > 1 && 16 <= t < 66581
    ensures Clusters(spc, t) < Fat32MinClusters
  {
  }

  /** A rejected cluster size bounds the volume. */
  lemma RejectedIsSmall(wide: nat, t: nat)
    requires wide in SpcValues && 16 <= t && Clusters(wide, t) < Fat32MinClusters
    ensures t < 70000 * wide
  {
  }

  /** So the next smaller cluster size, when it is chosen, has few clusters. */
  lemma FewClusters(spc: nat, t: nat)
    requires spc in SpcValues && 16 <= t < U32
    requires spc < 64 ==> Clusters(2 * spc, t) < Fat32MinClusters
    ensures Clusters(spc, t) + 1 < 0x0FFF_FFF7
  {
    var fat := FatFor(Quot(t - 8, spc));
    QuotBounds(t - 8, spc);
    FatsFit(Quot(t - 8, spc), t - 8);
    QuotBounds(t - 8 - 2 * fat, spc);
    if spc < 64 {
      RejectedIsSmall(2 * spc, t);
    }
  }

  /** What the promise of an accepted geometry is. */
  ghost predicate Sound(l: Layout) {
    16 <= l.totalSectors < U32 && l.spc in SpcValues && l.reservedSectors == ReservedSectors
    // the data region starts on a page boundary and there is a FAT entry for every cluster
    && (l.reservedSectors + FatCount * l.fatSectors) % DataAlignSectors == 0
    && FatEntrySize * (l.clusters + 2) <= l.fatSectors * SectorSize
    // everything fits, with less than a cluster left over
    && l.reservedSectors + FatCount * l.fatSectors + l.spc * l.clusters <= l.totalSectors
    && l.totalSectors < l.reservedSectors + FatCount * l.fatSectors + l.spc * l.clusters + l.spc
    // it is FAT32, with the widest clusters that keep it so, and every cluster number is usable
    && Fat32MinClusters <= l.clusters && l.clusters + 1 < 0x0FFF_FFF7
    && forall wide :: wide in SpcValues && wide > l.spc ==> Clusters(wide, l.totalSectors) < Fat32MinClusters
  }

  /** The first cluster size from position `i` on that keeps the volume FAT32, or else the last. */
  function WidestFrom(t: nat, i: nat): (spc: nat)
    requires 16 <= t && i < |SpcValues|
    ensures spc in SpcValues
    decreases |SpcValues| - i
  {
    if i + 1 == |SpcValues| || Clusters(SpcValues[i], t) >= Fat32MinClusters then SpcValues[i] else WidestFrom(t, i + 1)
  }

  lemma {:induction false} WidestMeans(t: nat, i: nat)
    requires 16 <= t && i < |SpcValues|
    ensures var spc := WidestFrom(t, i);
            (spc > 1 ==> Clusters(spc, t) >= Fat32MinClusters)
            && forall k :: i <= k < |SpcValues| && SpcValues[k] > spc ==> Clusters(SpcValues[k], t) < Fat32MinClusters
    decreases |SpcValues| - i
  {
    if i + 1 < |SpcValues| { WidestMeans(t, i + 1); }
  }

  /** The geometry of `t` sectors, in plain arithmetic: the widest clusters that keep the volume FAT32. */
  function Geometry(t: nat): Layout
    requires 16 <= t
  {
    var spc := WidestFrom(t, 0);
    Layout(t, ReservedSectors, FatFor(Quot(t - 8, spc)), spc, Clusters(spc, t))
  }

  lemma {:induction false} WidestIs(t: nat, i: nat, n: nat)
    requires 16 <= t && i <= n < |SpcValues| && Clusters(SpcValues[n], t) >= Fat32MinClusters
    requires forall k :: i <= k < n ==> Clusters(SpcValues[k], t) < Fat32MinClusters
    ensures WidestFrom(t, i) == SpcValues[n]
    decreases n - i
  {
    if i < n { WidestIs(t, i + 1, n); }
  }

  lemma ChosenFits(spc: nat, t: nat, fat: nat, clusters: nat)
    requires spc in SpcValues && 16 <= t && fat == FatFor(Quot(t - 8, spc)) && clusters == Clusters(spc, t)
    ensures FatEntrySize * (clusters + 2) <= fat * SectorSize
    ensures ReservedSectors + FatCount * fat + spc * clusters <= t
    ensures t < ReservedSectors + FatCount * fat + spc * clusters + spc
  {
    QuotBounds(t - 8, spc);
    FatsFit(Quot(t - 8, spc), t - 8);
    QuotBounds(t - 8 - 2 * fat, spc);
    assert clusters <= Quot(t - 8, spc);
  }

  /** `Sound`, with the alignment of the data region given by that of the FAT. */
  lemma SoundIf(l: Layout)
    requires 16 <= l.totalSectors < U32 && l.spc in SpcValues && l.reservedSectors == ReservedSectors
    requires l.fatSectors % 4 == 0 && FatEntrySize * (l.clusters + 2) <= l.fatSectors * SectorSize
    requires l.reservedSectors + FatCount * l.fatSectors + l.spc * l.clusters <= l.totalSectors
    requires l.totalSectors < l.reservedSectors + FatCount * l.fatSectors + l.spc * l.clusters + l.spc
    requires Fat32MinClusters <= l.clusters && l.clusters + 1 < 0x0FFF_FFF7
    requires forall wide :: wide in SpcValues && wide > l.spc ==> Clusters(wide, l.totalSectors) < Fat32MinClusters
    ensures Sound(l)
  {
  }

  lemma WidestIsSound(spc: nat, t: nat)
    requires spc in SpcValues && 16 <= t < U32 && Clusters(spc, t) >= Fat32MinClusters
    requires forall wide :: wide in SpcValues && wide > spc ==> Clusters(wide, t) < Fat32MinClusters
    ensures Sound(Layout(t, ReservedSectors, FatFor(Quot(t - 8, spc)), spc, Clusters(spc, t)))
  {
    var fat, clusters := FatFor(Quot(t - 8, spc)), Clusters(spc, t);
    assert clusters + 1 < 0x0FFF_FFF7 by {
      assert spc < 64 ==> 2 * spc in SpcValues;
      FewClusters(spc, t);
    }
    ChosenFits(spc, t, fat, clusters);
    assert fat % 4 == 0;
    SoundIf(Layout(t, ReservedSectors, fat, spc, clusters));
  }

  lemma AcceptedIsSound(spc: nat, t: nat)
    requires spc in SpcValues && 16 <= t < U32 && Accepts(spc, t)
    requires forall wide :: wide in SpcValues && wide > spc ==> !Accepts(wide, t)
    ensures var (fat, clusters) := TestSpc(spc, t, ReservedSectors).value;
            Sound(Layout(t, ReservedSectors, fat, spc, clusters))
  {
    forall wide | wide in SpcValues && wide > spc ensures Clusters(wide, t) < Fat32MinClusters {
      AcceptsMeans(wide, t);
    }
    AcceptsMeans(spc, t);
    WidestIsSound(spc, t);
  }

  lemma FloorValue()
    ensures MinImageSize() == 66581 * SectorSize
  {
  }

  /** The advertised floor is the exact threshold. */
  lemma FloorIsExact(t: nat)
    requires 16 <= t < U32
    ensures (exists spc :: spc in SpcValues && Accepts(spc, t)) <==> MinImageSize() <= t * SectorSize
  {
    FloorValue();
    if t >= 66581 {
      OneSectorThreshold(t);
      AcceptsMeans(1, t);
      assert 1 in SpcValues;
    } else {
      forall spc | spc in SpcValues ensures !Accepts(spc, t) {
        AcceptsMeans(spc, t);
        if spc == 1 { OneSectorThreshold(t); } else { WiderNeedsMore(spc, t); }
      }
    }
  }

  // ---------- images too small for the reserved area and one FAT page ----------

  /** The sector counts for which the unsigned subtractions wrap into a huge volume. */
  predicate Wraps(t: nat) {
    2 <= t < 16 && t != 8
  }

  /** A FAT is never smaller than a page, so with the reserved area it needs 16 sectors. */
  lemma FatNeedsAPage(spc: nat, t: nat)
    requires spc > 0 && t < U64 && TestSpc(spc, t, ReservedSectors).Some?
    ensures TestSpc(spc, t, ReservedSectors).value.0 >= 4
  {
    var c := Quot(WrappingSub(t, ReservedSectors), spc);
    var entries := if c + 2 < U64 then c + 2 else U64 - 1;
    AlignIsLeast(CeilDiv(entries * FatEntrySize, SectorSize), ReservedSectors);
  }

  /** An image of 1 KiB is accepted with more clusters than any disk has. */
  lemma OneKibibyteIsAccepted()
    ensures TestSpc(64, 2, ReservedSectors) == Some((2251799813685252, 288160007407534079))
  {
    assert Quot(WrappingSub(2, 8), 64) == 288230376151711743;
    AlignedFat(288230376151711743);
    assert FatFor(288230376151711743) == 2251799813685252;
  }

  lemma OneSectorWraps(t: nat)
    requires 9 <= t < 16
    ensures TestSpc(1, t, ReservedSectors) == Some((4, U64 + t - 16))
  {
    AlignedFat(t - 8);
  }

  lemma TinyWraps(t: nat)
    requires Wraps(t)
    ensures Accepts(if t < 8 then 64 else 1, t)
  {
    if t < 8 {
      assert Quot(WrappingSub(t, 8), 64) == 288230376151711743;
      AlignedFat(288230376151711743);
    } else {
      OneSectorWraps(t);
    }
  }

  /** Below 16 sectors a cluster size is accepted exactly when a subtraction wraps. */
  lemma TinyImages(t: nat)
    requires 2 <= t < 16
    ensures (exists spc :: spc in SpcValues && Accepts(spc, t)) <==> Wraps(t)
  {
    if Wraps(t) {
      TinyWraps(t);
    } else {
      forall spc | spc in SpcValues ensures !Accepts(spc, t) { QuotBounds(0, spc); }
    }
  }

  /** A size is formatted exactly when it is within the advertised limits or so small that it wraps. */
  predicate Formats(imageSize: nat) {
    MinImageSize() <= imageSize <= MaxImageSize || Wraps(imageSize / SectorSize)
  }

  lemma FormatsMeans(imageSize: nat)
    requires imageSize <= MaxImageSize && imageSize / SectorSize >= 2
    ensures Formats(imageSize) <==> exists spc :: spc in SpcValues && Accepts(spc, imageSize / SectorSize)
  {
    var t := imageSize / SectorSize;
    FloorValue();
    if t < 16 { TinyImages(t); } else { FloorIsExact(t); }
  }

  function LayoutFor(spc: nat, t: nat): Layout
    requires Accepts(spc, t)
  {
    var p := TestSpc(spc, t, ReservedSectors).value;
    Layout(t, ReservedSectors, p.0, spc, p.1)
  }

  /** The first accepted cluster size gives a sound layout, except for the sizes that wrap. */
  lemma FirstAccepted(t: nat, i: nat)
    requires 2 <= t < U32 && i < |SpcValues| && Accepts(SpcValues[i], t)
    requires forall k :: 0 <= k < i ==> !Accepts(SpcValues[k], t)
    ensures t >= 16 ==> LayoutFor(SpcValues[i], t) == Geometry(t) && Sound(Geometry(t))
    ensures t < 16 ==> ReservedSectors + FatCount * LayoutFor(SpcValues[i], t).fatSectors > t
  {
    FatNeedsAPage(SpcValues[i], t);
    if t >= 16 {
      assert forall wide :: wide in SpcValues && wide > SpcValues[i] ==> exists k :: 0 <= k < i && SpcValues[k] == wide;
      AcceptedIsSound(SpcValues[i], t);
      forall k | 0 <= k <= i ensures Clusters(SpcValues[k], t) >= Fat32MinClusters <==> k == i {
        AcceptsMeans(SpcValues[k], t);
      }
      AcceptsMeans(SpcValues[i], t);
      WidestIs(t, 0, i);
    }
  }

  method Compute(imageSize: nat) returns (r: Result<Layout, LayoutError>)
    requires imageSize < U64
    ensures r.Ok? <==> Formats(imageSize)
    ensures r.Ok? ==> r.value.totalSectors == imageSize / SectorSize
    ensures r.Ok? && !Wraps(imageSize / SectorSize) ==>
              r.value.totalSectors >= 16 && r.value == Geometry(r.value.totalSectors) && Sound(r.value)
    ensures r.Ok? && Wraps(imageSize / SectorSize) ==>
              r.value.reservedSectors + FatCount * r.value.fatSectors > r.value.totalSectors
  {
    if imageSize > MaxImageSize {
      return Err(TooLarge);
    }
    var t := imageSize / SectorSize;
    if t < 2 {
      FloorValue();
      return Err(TooSmallForReserved);
    }
    FormatsMeans(imageSize);
    for i := 0 to |SpcValues|
      invariant forall k :: 0 <= k < i ==> !Accepts(SpcValues[k], t)
    {
      var spc := SpcValues[i];
      var triple := TestSpc(spc, t, ReservedSectors);
      if triple.Some? && triple.value.1 >= Fat32MinClusters {
        assert Accepts(spc, t);
        FirstAccepted(t, i);
        return Ok(Layout(t, ReservedSectors, triple.value.0, spc, triple.value.1));
      }
    }
    return Err(Insufficient);
  }
}
