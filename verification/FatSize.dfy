/** Sizing a FAT32 volume for its data (libs/fatfs/src/builder/mod.rs, `image_size_for`). */
module FatSize {
  import opened Prelude
  import opened FatTypes
  import opened FatLayout

  const DirectoryOverhead: nat := 0x10_0000
  const FreeSlack: nat := 0x40_0000
  const MaxSectors: nat := 0xFFFF_FFFF

  /** The data bytes of the largest volume. */
  const MaxCapacity: nat := 67092479 * 64 * SectorSize

  datatype SizeError = BadSize(layoutError: LayoutError) | OverCeiling

  /** The bytes in the data clusters of a volume of `t` sectors. */
  function Capacity(t: nat): nat
    requires 16 <= t
  {
    DataBytes(Geometry(t))
  }

  /** `u64::next_multiple_of(512)`, wrapping. */
  function NextSector(n: nat): (r: nat)
    ensures n + SectorSize <= U64 ==> n <= r < n + SectorSize && r % SectorSize == 0
  {
    CeilDiv(n, SectorSize) * SectorSize % U64
  }

  lemma ClustersInside(spc: nat, t: nat)
    requires spc in SpcValues && 16 <= t
    ensures spc * Clusters(spc, t) <= t - 8
  {
    var fat := FatFor(Quot(t - 8, spc));
    QuotBounds(t - 8, spc);
    FatsFit(Quot(t - 8, spc), t - 8);
    QuotBounds(t - 8 - 2 * fat, spc);
  }

  lemma DataBytesBound(l: Layout, n: nat)
    requires l.spc * l.clusters <= n
    ensures DataBytes(l) <= n * SectorSize
  {
  }

  lemma WideClusters(t: nat)
    requires 16 <= t <= MaxSectors
    ensures Clusters(64, t) <= 67092479
  {
  }

  lemma WideBytes(l: Layout, n: nat)
    requires l.spc == 64 && l.clusters <= n
    ensures DataBytes(l) <= n * 64 * SectorSize
  {
  }

  lemma NarrowBytes(l: Layout, t: nat)
    requires 16 <= t && l.spc in SpcValues && l.spc < 64 && l.spc * l.clusters <= t - 8 && t < 140000 * l.spc
    ensures DataBytes(l) <= MaxCapacity
  {
    DataBytesBound(l, t - 8);
  }

  lemma WiderIsRejected(t: nat, spc: nat, wide: nat)
    requires 16 <= t && spc == WidestFrom(t, 0) && wide in SpcValues && wide > spc
    ensures Clusters(wide, t) < Fat32MinClusters
  {
    WidestMeans(t, 0);
    var k :| 0 <= k < |SpcValues| && SpcValues[k] == wide;
  }

  lemma Doubles(spc: nat)
    requires spc in SpcValues && spc < 64
    ensures 2 * spc in SpcValues
  {
  }

  /** The chosen cluster size keeps the volume FAT32, or is the least, and every wider one was rejected. */
  lemma GeometryMeans(t: nat, l: Layout)
    requires 16 <= t && l == Geometry(t)
    ensures l.spc in SpcValues && l.clusters == Clusters(l.spc, t) && (l.spc > 1 ==> l.clusters >= Fat32MinClusters)
    ensures forall wide :: wide in SpcValues && wide > l.spc ==> Clusters(wide, t) < Fat32MinClusters
    ensures l.spc < 64 ==> 2 * l.spc in SpcValues
  {
    var spc := WidestFrom(t, 0);
    WidestMeans(t, 0);
    forall wide | wide in SpcValues && wide > spc ensures Clusters(wide, t) < Fat32MinClusters {
      WiderIsRejected(t, spc, wide);
    }
    if spc < 64 { Doubles(spc); }
  }

  lemma LayoutHoldsMost(t: nat, l: Layout)
    requires 16 <= t <= MaxSectors && l.spc in SpcValues && l.clusters == Clusters(l.spc, t)
    requires l.spc < 64 ==> 2 * l.spc in SpcValues && Clusters(2 * l.spc, t) < Fat32MinClusters
    ensures DataBytes(l) <= MaxCapacity
  {
    if l.spc == 64 {
      WideClusters(t);
      WideBytes(l, 67092479);
    } else {
      RejectedIsSmall(2 * l.spc, t);
      ClustersInside(l.spc, t);
      NarrowBytes(l, t);
    }
  }

  /** No volume holds more than the largest one, although the cluster count is not monotone. */
  lemma LargestHoldsMost(t: nat)
    requires 16 <= t <= MaxSectors
    ensures Capacity(t) <= MaxCapacity
  {
    GeometryMeans(t, Geometry(t));
    LayoutHoldsMost(t, Geometry(t));
  }

  lemma LargestHolds(t: nat)
    requires t == MaxSectors
    ensures Capacity(t) == MaxCapacity
  {
    assert Clusters(SpcValues[0], t) == 67092479;
    WidestIs(t, 0, 0);
  }

  /** What the volume must hold; the sums saturate. */
  function Target(totalData: nat): nat {
    if totalData + DirectoryOverhead + FreeSlack < U64 then totalData + DirectoryOverhead + FreeSlack else U64 - 1
  }

  /** The first size tried. */
  function FirstSize(target: nat): nat {
    NextSector(if target < MinImageSize() then MinImageSize() else target)
  }

  /** The next size tried. */
  function NextTry(size: nat): nat {
    if NextSector(size + FreeSlack) < MaxImageSize then NextSector(size + FreeSlack) else MaxImageSize
  }

  /** A size that the search can reach: whole sectors within the limits. */
  predicate Candidate(size: nat) {
    MinImageSize() <= size <= MaxImageSize && size % SectorSize == 0
  }

  predicate Holds(size: nat, target: nat) {
    16 <= size / SectorSize && Capacity(size / SectorSize) >= target
  }

  lemma CandidateSectors(size: nat)
    requires Candidate(size)
    ensures 16 <= size / SectorSize <= MaxSectors && !Wraps(size / SectorSize)
  {
    FloorValue();
  }

  lemma NextIsCandidate(size: nat)
    requires Candidate(size) && size < MaxImageSize
    ensures Candidate(NextTry(size)) && size < NextTry(size) <= size + FreeSlack
  {
    FloorValue();
  }

  /** A target above the largest capacity fits no volume. */
  lemma NothingHolds(size: nat, target: nat)
    requires Candidate(size) && target > MaxCapacity
    ensures !Holds(size, target)
  {
    CandidateSectors(size);
    LargestHoldsMost(size / SectorSize);
  }

  /** The first size is within the limits exactly if the target, rounded up, is. */
  lemma FirstCandidate(target: nat)
    requires target < U64
    ensures target <= MaxImageSize ==> Candidate(FirstSize(target))
    ensures target > MaxImageSize ==> !Formats(FirstSize(target))
  {
    FloorValue();
  }

  /** Whether a size formats and then holds the target. */
  method TrySize(size: nat, target: nat) returns (r: Result<bool, LayoutError>)
    requires size < U64
    ensures r.Ok? <==> Formats(size)
    ensures r.Ok? && Candidate(size) ==> (r.value <==> Holds(size, target))
  {
    var geometry := Compute(size);
    if geometry.Err? {
      return Err(geometry.error);
    }
    if Candidate(size) { CandidateSectors(size); }
    return Ok(DataBytes(geometry.value) >= target);
  }

  /** The sizes tried in vain, each the next one after the one before, from the first one on, up to the next. */
  ghost predicate Tried(tried: seq<nat>, first: nat, next: nat, target: nat) {
    (forall s :: s in tried ==> Candidate(s) && s < next && !Holds(s, target))
    && (forall i :: 0 < i < |tried| ==> tried[i] == NextTry(tried[i - 1]))
    && if tried == [] then next == first else tried[0] == first && next == NextTry(tried[|tried| - 1])
  }

  /** The search for this target tries these sizes in vain and then stops at `size`. */
  ghost predicate Finds(tried: seq<nat>, size: nat, target: nat) {
    Tried(tried, FirstSize(target), size, target) && Candidate(size) && Holds(size, target)
  }

  lemma {:induction false} SameTries(a: seq<nat>, x: nat, b: seq<nat>, y: nat, target: nat, first: nat, i: nat)
    requires Tried(a, first, x, target) && Tried(b, first, y, target) && i < |a| && i < |b|
    ensures a[i] == b[i]
  {
    if i > 0 { SameTries(a, x, b, y, target, first, i - 1); }
  }

  lemma NextIsTried(a: seq<nat>, x: nat, b: seq<nat>, y: nat, target: nat, first: nat)
    requires Tried(a, first, x, target) && Tried(b, first, y, target) && |a| < |b|
    ensures b[|a|] == x
  {
    if a != [] { SameTries(a, x, b, y, target, first, |a| - 1); }
  }

  lemma SameNext(a: seq<nat>, x: nat, b: seq<nat>, y: nat, target: nat, first: nat)
    requires Tried(a, first, x, target) && Tried(b, first, y, target) && |a| == |b|
    ensures x == y
  {
    if a != [] { SameTries(a, x, b, y, target, first, |a| - 1); }
  }

  lemma NotShorter(a: seq<nat>, x: nat, b: seq<nat>, y: nat, target: nat)
    requires Finds(a, x, target) && Finds(b, y, target)
    ensures |a| >= |b|
  {
    if |a| < |b| {
      NextIsTried(a, x, b, y, target, FirstSize(target));
    }
  }

  /** The search for a target has one result. */
  lemma FindsOne(a: seq<nat>, x: nat, b: seq<nat>, y: nat, target: nat)
    requires Finds(a, x, target) && Finds(b, y, target)
    ensures x == y
  {
    NotShorter(a, x, b, y, target);
    NotShorter(b, y, a, x, target);
    SameNext(a, x, b, y, target, FirstSize(target));
  }

  lemma TriedOneMore(tried: seq<nat>, first: nat, size: nat, target: nat)
    requires Tried(tried, first, size, target) && Candidate(size) && size < MaxImageSize && !Holds(size, target)
    ensures Tried(tried + [size], first, NextTry(size), target) && Candidate(NextTry(size)) && size < NextTry(size)
  {
    NextIsCandidate(size);
  }

  lemma LargestDecides(size: nat, target: nat)
    requires size == MaxImageSize
    ensures Candidate(size) && (Holds(size, target) <==> target <= MaxCapacity)
  {
    FloorValue();
    LargestHolds(size / SectorSize);
  }

  /**
   * Finds a volume exactly when the largest one would do: the first of the tried sizes, 4 MiB apart,
   * whose data clusters hold the data, the directory overhead and the slack.
   */
  method ImageSizeFor(totalData: nat) returns (r: Result<nat, SizeError>, ghost tried: seq<nat>)
    requires totalData < U64
    ensures r.Ok? <==> totalData + DirectoryOverhead + FreeSlack <= MaxCapacity
    ensures r.Ok? ==> Finds(tried, r.value, Target(totalData))
  {
    var target := Target(totalData);
    var size := FirstSize(target);
    ghost var first := size;
    tried := [];
    FirstCandidate(target);
    while true
      invariant size < U64 && if target <= MaxImageSize then Candidate(size) else !Formats(size)
      invariant Tried(tried, first, size, target)
      decreases MaxImageSize - size
    {
      var fits := TrySize(size, target);
      if fits.Err? {
        return Err(BadSize(fits.error)), tried;
      }
      if fits.value {
        if target > MaxCapacity { NothingHolds(size, target); }
        return Ok(size), tried;
      }
      if size >= MaxImageSize {
        LargestDecides(size, target);
        return Err(OverCeiling), tried;
      }
      TriedOneMore(tried, first, size, target);
      tried := tried + [size];
      size := NextTry(size);
    }
  }

  /** Below 131072 sectors only clusters of one sector keep a volume FAT32. */
  lemma NarrowClusters(t: nat)
    requires 66581 <= t < 131072
    ensures Geometry(t).spc == 1 && Geometry(t).clusters == t - 8 - 2 * FatFor(t - 8)
  {
    forall k | 0 <= k < 6 ensures Clusters(SpcValues[k], t) < Fat32MinClusters {
    }
    OneSectorThreshold(t);
    WidestIs(t, 0, 6);
  }

  lemma OneSectorBytes(l: Layout, clusters: nat)
    requires l.spc == 1 && l.clusters == clusters
    ensures DataBytes(l) == clusters * SectorSize
  {
  }

  lemma NarrowCapacity(t: nat)
    requires 66581 <= t < 131072
    ensures Capacity(t) == (t - 8 - 2 * FatFor(t - 8)) * SectorSize
  {
    NarrowClusters(t);
    OneSectorBytes(Geometry(t), t - 8 - 2 * FatFor(t - 8));
  }

  lemma NarrowHolds(size: nat, t: nat, target: nat)
    requires size == t * SectorSize && 66581 <= t < 131072
    ensures Candidate(size) && (Holds(size, target) <==> (t - 8 - 2 * FatFor(t - 8)) * SectorSize >= target)
  {
    assert size / SectorSize == t;
    FloorValue();
    NarrowCapacity(t);
  }

  lemma NarrowDecides(size: nat, t: nat, target: nat, bytes: nat)
    requires size == t * SectorSize && 66581 <= t < 131072 && bytes == (t - 8 - 2 * FatFor(t - 8)) * SectorSize
    ensures Candidate(size) && (Holds(size, target) <==> bytes >= target)
  {
    NarrowHolds(size, t, target);
  }

  lemma CapacityInside(t: nat, l: Layout)
    requires 16 <= t && l == Geometry(t)
    ensures DataBytes(l) <= (t - 8) * SectorSize
  {
    GeometryMeans(t, l);
    ClustersInside(l.spc, t);
    DataBytesBound(l, t - 8);
  }

  lemma HoldsLess(size: nat, target: nat)
    requires Candidate(size) && Holds(size, target)
    ensures target < size
  {
    var t := size / SectorSize;
    CapacityInside(t, Geometry(t));
  }

  lemma RoundsBelow(size: nat, target: nat)
    requires Candidate(size) && target <= size
    ensures FirstSize(target) <= size
  {
    FloorValue();
  }

  /** No volume below the first size tried holds the target. */
  lemma NothingSmaller(size: nat, target: nat)
    requires Candidate(size) && Holds(size, target)
    ensures FirstSize(target) <= size
  {
    HoldsLess(size, target);
    RoundsBelow(size, target);
  }

  lemma FloorHolds(size: nat, target: nat)
    requires size == MinImageSize()
    ensures Holds(size, target) <==> target <= 65525 * SectorSize
  {
    FloorValue();
    NarrowDecides(size, 66581, target, 65525 * SectorSize);
  }

  /** The first size holds the target exactly for small targets. */
  lemma FirstHoldsExactly(target: nat)
    requires target <= MaxImageSize
    ensures Holds(FirstSize(target), target) <==> target <= 65525 * SectorSize
  {
    var size := FirstSize(target);
    FloorValue();
    FirstCandidate(target);
    CandidateSectors(size);
    if target <= MinImageSize() {
      FloorHolds(size, target);
    } else {
      CapacityInside(size / SectorSize, Geometry(size / SectorSize));
    }
  }
}
