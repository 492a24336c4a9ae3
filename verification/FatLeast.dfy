/** When the sizing loop gives the smallest volume (libs/fatfs/src/builder/mod.rs, `image_size_for`). */
module FatLeast {
  import opened Prelude
  import opened FatTypes
  import opened FatLayout
  import opened FatSize

  // ---------- capacities grow, with a gap of eight sectors ----------

  lemma PagesGrow(a: nat, b: nat)
    requires a <= b
    ensures FatFor(a) <= FatFor(b) <= FatFor(a) + 4 * ((b - a + 511) / 512)
  {
  }

  lemma QuotGrows(a: nat, b: nat, spc: nat)
    requires spc in SpcValues && a <= b
    ensures Quot(a, spc) <= Quot(b, spc) <= Quot(a, spc) + (b - a)
  {
    QuotBounds(a, spc);
    QuotBounds(b, spc);
  }

  /** The sectors that clusters of this size leave for data, before rounding down to whole clusters. */
  function Room(spc: nat, t: nat): nat
    requires spc in SpcValues && 16 <= t
  {
    QuotBounds(t - 8, spc);
    FatsFit(Quot(t - 8, spc), t - 8);
    t - 8 - 2 * FatFor(Quot(t - 8, spc))
  }

  lemma RoomGrows(spc: nat, a: nat, b: nat)
    requires spc in SpcValues && 16 <= a && a + 8 <= b
    ensures Room(spc, a) <= Room(spc, b)
  {
    QuotGrows(a - 8, b - 8, spc);
    var p, q, n := Quot(a - 8, spc), Quot(b - 8, spc), b - a;
    PagesGrow(p, q);
    assert (q - p + 511) / 512 <= (n + 511) / 512 && 8 * ((n + 511) / 512) <= n;
  }

  lemma ClustersGrow(spc: nat, a: nat, b: nat)
    requires spc in SpcValues && 16 <= a && a + 8 <= b
    ensures Clusters(spc, a) <= Clusters(spc, b)
  {
    RoomGrows(spc, a, b);
    QuotGrows(Room(spc, a), Room(spc, b), spc);
  }

  lemma RoundedDown(spc: nat, t: nat)
    requires spc in SpcValues && 16 <= t
    ensures spc * Clusters(spc, t) <= Room(spc, t) < spc * Clusters(spc, t) + spc
  {
    QuotBounds(Room(spc, t), spc);
  }

  lemma MulLe(a: nat, b: nat, k: nat)
    requires a <= b
    ensures k * a <= k * b
  {
  }

  lemma WiderHasMoreRoom(spc: nat, t: nat)
    requires spc in SpcValues && 2 * spc in SpcValues && 16 <= t
    ensures Room(spc, t) <= Room(2 * spc, t)
  {
    QuotBounds(t - 8, spc);
    QuotBounds(t - 8, 2 * spc);
    PagesGrow(Quot(t - 8, 2 * spc), Quot(t - 8, spc));
  }

  lemma LessThanFewest(wide: nat, x: nat, room: nat, c: nat)
    requires x <= room < wide * c + wide && c < Fat32MinClusters
    ensures x < wide * Fat32MinClusters
  {
    MulLe(c + 1, Fat32MinClusters, wide);
  }

  lemma InWiderRoom(spc: nat, wide: nat, t: nat)
    requires spc in SpcValues && wide in SpcValues && wide == 2 * spc && 16 <= t
    ensures spc * Clusters(spc, t) <= Room(wide, t)
  {
    RoundedDown(spc, t);
    WiderHasMoreRoom(spc, t);
  }

  /** Where the next wider clusters are too few, the volume holds less than the fewest of them would. */
  lemma RejectedHoldsLess(spc: nat, wide: nat, t: nat)
    requires spc in SpcValues && wide in SpcValues && wide == 2 * spc && 16 <= t
    requires Clusters(wide, t) < Fat32MinClusters
    ensures spc * Clusters(spc, t) < wide * Fat32MinClusters
  {
    InWiderRoom(spc, wide, t);
    RoundedDown(wide, t);
    LessThanFewest(wide, spc * Clusters(spc, t), Room(wide, t), Clusters(wide, t));
  }

  /** `spc` is the cluster size of the geometry of `t` sectors, which has `c` clusters. */
  ghost predicate IsChosen(t: nat, spc: nat, c: nat)
    requires 16 <= t
  {
    spc in SpcValues && c == Clusters(spc, t) && (spc > 1 ==> c >= Fat32MinClusters)
    && (spc < 64 ==> 2 * spc in SpcValues)
    && forall wide :: wide in SpcValues && wide > spc ==> Clusters(wide, t) < Fat32MinClusters
  }

  lemma Chosen(t: nat) returns (spc: nat, c: nat)
    requires 16 <= t
    ensures IsChosen(t, spc, c) && Capacity(t) == c * spc * SectorSize
  {
    var l := Geometry(t);
    GeometryMeans(t, l);
    spc, c := l.spc, l.clusters;
  }

  lemma WiderHoldsMore(s: nat, x: nat, w: nat, y: nat)
    requires s * x < 2 * s * Fat32MinClusters && 2 * s <= w && Fat32MinClusters <= y
    ensures x * s <= y * w
  {
    MulLe(2 * s, w, Fat32MinClusters);
    MulLe(Fat32MinClusters, y, w);
  }

  lemma NoWiderBefore(a: nat, s: nat, x: nat, b: nat, w: nat, y: nat)
    requires 16 <= a && a + 8 <= b && IsChosen(a, s, x) && IsChosen(b, w, y)
    ensures s == w || 2 * s <= w
  {
    ClustersGrow(s, a, b);
  }

  lemma DataGrows(a: nat, s: nat, x: nat, b: nat, w: nat, y: nat)
    requires 16 <= a && a + 8 <= b && IsChosen(a, s, x) && IsChosen(b, w, y)
    ensures x * s <= y * w
  {
    NoWiderBefore(a, s, x, b, w, y);
    if s == w {
      ClustersGrow(s, a, b);
      MulLe(x, y, s);
    } else {
      RejectedHoldsLess(s, 2 * s, a);
      WiderHoldsMore(s, x, w, y);
    }
  }

  /** A volume holds at least what any volume smaller by eight sectors or more holds. */
  lemma CapacityGrows(a: nat, b: nat)
    requires 16 <= a && a + 8 <= b
    ensures Capacity(a) <= Capacity(b)
  {
    var s, x := Chosen(a);
    var w, y := Chosen(b);
    DataGrows(a, s, x, b, w, y);
    MulLe(x * s, y * w, SectorSize);
  }

  // ---------- beyond 4480000 sectors clusters are the widest ----------

  lemma WideFrom(t: nat)
    requires 4480000 <= t
    ensures Capacity(t) == Clusters(64, t) * 64 * SectorSize
  {
    var spc, c := Chosen(t);
    WidestFromHere(t, spc, c);
  }

  lemma WidestFromHere(t: nat, spc: nat, c: nat)
    requires 4480000 <= t && IsChosen(t, spc, c)
    ensures spc == 64
  {
    var half := spc;
    if half != 64 && Clusters(2 * half, t) < Fat32MinClusters { RejectedIsSmall(2 * half, t); }
  }

  /** The pages of file allocation table, and the room for data, with the widest clusters on `u` sectors. */
  function Pages(u: nat): nat {
    (u / 64 + 513) / 512
  }

  function WideRoom(u: nat): int {
    u - 8 * Pages(u)
  }

  lemma WideMeans(t: nat)
    requires 16 <= t
    ensures WideRoom(t - 8) >= 0 && Clusters(64, t) == WideRoom(t - 8) / 64
  {
    QuotBounds(t - 8, 64);
    FatsFit(Quot(t - 8, 64), t - 8);
  }

  lemma PagesStep(u: nat, i: nat)
    requires i <= 8 && i <= u
    ensures Pages(u - i) <= Pages(u) <= Pages(u - i) + 1
    ensures u % 64 >= i ==> Pages(u - i) == Pages(u)
    ensures 0 < i && u % 64 == 0 ==> Pages(u - i) == Pages(u - 1)
  {
  }

  /** Room that rises to a whole cluster by one sector, without a new page. */
  lemma RoomAtRise(r: int, before: int)
    requires before == r - 1 || before == r + 7
    requires before / 64 < r / 64
    ensures before == r - 1 && r % 64 == 0
  {
  }

  lemma AlignedRoom(u: nat, r: int, p: nat)
    requires u == r + 8 * p && r % 64 == 0
    ensures u % 8 == 0
  {
    assert r == 64 * (r / 64);
  }

  lemma AlignedAtRise(u: nat)
    requires 64 <= u && WideRoom(u - 1) / 64 < WideRoom(u) / 64
    ensures Pages(u - 1) == Pages(u) && u % 8 == 0
  {
    PagesStep(u, 1);
    RoomAtRise(WideRoom(u), WideRoom(u - 1));
    AlignedRoom(u, WideRoom(u), Pages(u));
  }

  lemma EighthsOf(u: nat)
    requires u % 8 == 0
    ensures u % 64 == 0 || u % 64 >= 8
  {
    assert u == 64 * (u / 64) + u % 64;
  }

  lemma SamePages(u: nat, i: nat)
    requires 2 <= i <= 8 && 64 <= u && u % 8 == 0 && Pages(u - 1) == Pages(u)
    ensures Pages(u - i) == Pages(u)
  {
    PagesStep(u, i);
    EighthsOf(u);
  }

  lemma NoDip(u: nat, i: nat)
    requires 2 <= i <= 8 && 64 <= u && WideRoom(u - 1) / 64 < WideRoom(u) / 64
    ensures WideRoom(u - i) / 64 <= WideRoom(u - 1) / 64
  {
    AlignedAtRise(u);
    SamePages(u, i);
    assert WideRoom(u - i) <= WideRoom(u - 1);
  }

  /** Where the cluster count rises, it had not been higher within the eight sectors before. */
  lemma NoDipBefore(t: nat, i: nat)
    requires 100 <= t && 2 <= i <= 8 && Clusters(64, t - 1) < Clusters(64, t)
    ensures Clusters(64, t - i) <= Clusters(64, t - 1)
  {
    WideMeans(t);
    WideMeans(t - 1);
    WideMeans(t - i);
    NoDip(t - 8, i);
  }

  lemma HoldsAt(t: nat, target: nat)
    requires 16 <= t
    ensures Holds(t * SectorSize, target) <==> Capacity(t) >= target
  {
    assert t * SectorSize / SectorSize == t;
  }

  /** On large volumes, if a target fits `t` sectors and not one sector less, it fits nothing smaller. */
  lemma NothingBelow(t: nat, s: nat, target: nat)
    requires 4480100 <= t && 16 <= s < t && Capacity(t) >= target > Capacity(t - 1)
    ensures Capacity(s) < target
  {
    if s + 9 <= t {
      CapacityGrows(s, t - 1);
    } else if s < t - 1 {
      WideFrom(t);
      WideFrom(t - 1);
      WideFrom(s);
      NoDipBefore(t, t - s);
    }
  }

  // ---------- how much a volume loses to its file allocation tables ----------

  lemma QuotBelow(a: nat, spc: nat, n: nat)
    requires spc in SpcValues && a < n * spc
    ensures Quot(a, spc) < n
  {
    QuotBounds(a, spc);
  }

  lemma NarrowLoss(t: nat, spc: nat, c: nat)
    requires 16 <= t && IsChosen(t, spc, c) && spc < 64
    ensures c * spc + 2300 >= t
  {
    RejectedIsSmall(2 * spc, t);
    QuotBelow(t - 8, spc, 140000);
    RoundedDown(spc, t);
    assert FatFor(Quot(t - 8, spc)) <= 1096;
  }

  /** Up to 33251328 data sectors the tables take less than one step of the search and a sector. */
  lemma WideLoss(k: nat, n: nat)
    requires k <= 33251328 && (n == 8191 || n == 8192)
    ensures WideRoom(k + n - 8) / 64 * 64 >= k
  {
    assert Pages(k + n - 8) <= if k < 33251264 then 1015 else 1016;
  }

  /** For the next seven counts they take more than one step and less than two. */
  lemma WideLossNext(k: nat)
    requires 33251329 <= k <= 33251335
    ensures WideRoom(k + 8192 - 8) / 64 * 64 < k
    ensures WideRoom(k + 16383 - 8) / 64 * 64 >= k && WideRoom(k + 16384 - 8) / 64 * 64 >= k
  {
    assert Pages(k + 8184) == 1016;
    assert Pages(k + 16375) <= 1017 && Pages(k + 16376) <= 1017;
  }

  /** A volume whose widest clusters hold `k` sectors, if it has them, holds them. */
  lemma LossHolds(k: nat, t: nat)
    requires 16 <= t && k + 8191 <= t && WideRoom(t - 8) / 64 * 64 >= k
    ensures Capacity(t) >= k * SectorSize
  {
    var spc, c := Chosen(t);
    if spc < 64 {
      NarrowLoss(t, spc, c);
    } else {
      WideMeans(t);
    }
    MulLe(k, c * spc, SectorSize);
  }

  // ---------- the results of the search ----------

  /** The sectors a target takes. */
  function Sectors(target: nat): (k: nat)
    ensures (k - 1) * SectorSize < target <= k * SectorSize
  {
    CeilDiv(target, SectorSize)
  }

  function FirstSectors(target: nat): nat {
    if Sectors(target) < 66581 then 66581 else Sectors(target)
  }

  lemma FirstInSectors(target: nat)
    requires target <= MaxImageSize
    ensures FirstSize(target) == FirstSectors(target) * SectorSize
  {
    FloorValue();
  }

  lemma NextInSectors(t: nat)
    requires t + 8192 < MaxSectors
    ensures NextTry(t * SectorSize) == (t + 8192) * SectorSize
  {
  }

  const LastSmall: nat := 33251335

  /** The target fits `t` sectors. */
  predicate FitsIn(t: nat, target: nat)
  {
    16 <= t && Capacity(t) >= target
  }

  lemma EnoughFits(t: nat, k: nat, target: nat)
    requires 16 <= t && Sectors(target) <= k && k + 8191 <= t && WideRoom(t - 8) / 64 * 64 >= k
    ensures FitsIn(t, target)
  {
    LossHolds(k, t);
    MulLe(Sectors(target), k, SectorSize);
  }

  lemma HoldsIn(size: nat, t: nat, target: nat)
    requires size == t * SectorSize && 16 <= t
    ensures Holds(size, target) <==> FitsIn(t, target)
  {
    HoldsAt(t, target);
  }

  lemma NearFits(target: nat, t: nat, n: nat)
    requires Sectors(target) <= t <= 33251328 && 66581 <= t && (n == 8191 || n == 8192)
    ensures FitsIn(t + n, target)
  {
    WideLoss(t, n);
    EnoughFits(t + n, t, target);
  }

  /** Up to 33251328 sectors one step after the first size, or a sector less, is enough. */
  lemma NearHolds(target: nat, t: nat, n: nat, size: nat)
    requires Sectors(target) <= t <= 33251328 && 66581 <= t && (n == 8191 || n == 8192) && size == (t + n) * SectorSize
    ensures Holds(size, target)
  {
    NearFits(target, t, n);
    HoldsIn(size, t + n, target);
  }

  /** For the next seven counts one step is not enough. */
  lemma FarFails(target: nat, t: nat, size: nat)
    requires t == Sectors(target) && 33251329 <= t <= LastSmall && size == (t + 8192) * SectorSize
    ensures !Holds(size, target)
  {
    WideLossNext(t);
    WideFrom(t + 8192);
    WideMeans(t + 8192);
    HoldsIn(size, t + 8192, target);
  }

  /** But two steps, or a sector less, are. */
  lemma FarHolds(target: nat, t: nat, n: nat, size: nat)
    requires t == Sectors(target) && 33251329 <= t <= LastSmall && (n == 16383 || n == 16384)
    requires size == (t + n) * SectorSize
    ensures Holds(size, target)
  {
    WideLossNext(t);
    EnoughFits(t + n, t, target);
    HoldsIn(size, t + n, target);
  }

  /** Where the search gets from a first size that does not hold, if the second or third does. */
  lemma Steps(tried: seq<nat>, size: nat, target: nat, first: nat, one: nat, two: nat)
    requires Finds(tried, size, target) && first == FirstSize(target) && !Holds(first, target)
    requires one == NextTry(first) && two == NextTry(one)
    ensures size == one || !Holds(one, target)
    ensures size != one && Holds(two, target) ==> size == two
  {
    if |tried| > 1 { assert tried[1] in tried && tried[1] == one; }
    if |tried| > 2 { assert tried[2] in tried && tried[2] == two; }
  }

  lemma FirstSizes(target: nat, t: nat, one: nat, two: nat)
    requires target <= LastSmall * SectorSize && t == FirstSectors(target)
    requires one == (t + 8192) * SectorSize && two == (t + 16384) * SectorSize
    ensures one == NextTry(FirstSize(target)) && two == NextTry(one)
  {
    FirstInSectors(target);
    NextInSectors(t);
    NextInSectors(t + 8192);
  }

  lemma NearResult(tried: seq<nat>, size: nat, target: nat, t: nat, one: nat)
    requires Finds(tried, size, target) && 65525 * SectorSize < target <= LastSmall * SectorSize
    requires t == FirstSectors(target) <= 33251328 && one == (t + 8192) * SectorSize
    ensures size == one
  {
    FirstSizes(target, t, one, (t + 16384) * SectorSize);
    FirstHoldsExactly(target);
    NearHolds(target, t, 8192, one);
    Steps(tried, size, target, FirstSize(target), one, NextTry(one));
  }

  lemma FarResult(tried: seq<nat>, size: nat, target: nat, t: nat, one: nat, two: nat)
    requires Finds(tried, size, target) && t == Sectors(target) && 33251329 <= t <= LastSmall
    requires one == (t + 8192) * SectorSize && two == (t + 16384) * SectorSize
    ensures size == two
  {
    FirstSizes(target, t, one, two);
    FirstHoldsExactly(target);
    FarFails(target, t, one);
    FarHolds(target, t, 16384, two);
    Steps(tried, size, target, FirstSize(target), one, two);
  }

  /** What the search gives for targets past the first size, up to 33251335 sectors. */
  function ResultFor(t: nat): nat {
    (if t <= 33251328 then t + 8192 else t + 16384) * SectorSize
  }

  lemma ResultIs(tried: seq<nat>, size: nat, target: nat, t: nat)
    requires Finds(tried, size, target) && 65525 * SectorSize < target <= LastSmall * SectorSize
    requires t == FirstSectors(target)
    ensures size == ResultFor(t)
  {
    if t <= 33251328 {
      NearResult(tried, size, target, t, (t + 8192) * SectorSize);
    } else {
      FarResult(tried, size, target, t, (t + 8192) * SectorSize, (t + 16384) * SectorSize);
    }
  }

  lemma SpareFor(size: nat, less: nat, target: nat, t: nat)
    requires target <= LastSmall * SectorSize && t == FirstSectors(target)
    requires size == ResultFor(t) && size == less + SectorSize
    ensures Holds(less, target)
  {
    if t <= 33251328 { NearHolds(target, t, 8191, less); } else { FarHolds(target, t, 16383, less); }
  }

  /** Up to 33251335 sectors, past the first size, the result has a sector to spare. */
  lemma SectorToSpare(tried: seq<nat>, size: nat, target: nat)
    requires Finds(tried, size, target) && 65525 * SectorSize < target <= LastSmall * SectorSize
    ensures size >= SectorSize && Holds(size - SectorSize, target)
  {
    var t := FirstSectors(target);
    ResultIs(tried, size, target, t);
    SpareFor(size, size - SectorSize, target, t);
  }

  /** No volume within the limits that holds the target is smaller. */
  ghost predicate Smallest(size: nat, target: nat) {
    forall s :: MinImageSize() <= s <= MaxImageSize && Holds(s, target) ==> size <= s
  }

  lemma SectorsWithin(s: nat)
    requires MinImageSize() <= s <= MaxImageSize
    ensures Candidate(s / SectorSize * SectorSize) && s / SectorSize * SectorSize <= s
    ensures s / SectorSize >= 66581
  {
    FloorValue();
  }

  lemma FirstAtMost(s: nat, target: nat)
    requires MinImageSize() <= s <= MaxImageSize && Holds(s, target)
    ensures FirstSize(target) <= s
  {
    SectorsWithin(s);
    HoldsAt(s / SectorSize, target);
    NothingSmaller(s / SectorSize * SectorSize, target);
  }

  lemma FirstIsSmallest(target: nat)
    ensures Smallest(FirstSize(target), target)
  {
    forall s | MinImageSize() <= s <= MaxImageSize && Holds(s, target) ensures FirstSize(target) <= s {
      FirstAtMost(s, target);
    }
  }

  lemma NotBelow(t: nat, s: nat, target: nat)
    requires 4480100 <= t && FitsIn(t, target) && !FitsIn(t - 1, target)
    requires 66581 <= s / SectorSize && Holds(s, target)
    ensures t * SectorSize <= s
  {
    var w := s / SectorSize;
    if w < t { NothingBelow(t, w, target); }
  }

  lemma LargeIsSmallest(t: nat, size: nat, target: nat)
    requires size == t * SectorSize && 4480100 <= t && FitsIn(t, target) && !FitsIn(t - 1, target)
    ensures Smallest(size, target)
  {
    forall s | MinImageSize() <= s <= MaxImageSize && Holds(s, target) ensures size <= s {
      SectorsWithin(s);
      NotBelow(t, s, target);
    }
  }

  lemma TightIsSmallest(size: nat, target: nat)
    requires Candidate(size) && Holds(size, target) && target > LastSmall * SectorSize
    requires !Holds(size - SectorSize, target)
    ensures Smallest(size, target)
  {
    var t := size / SectorSize;
    HoldsLess(size, target);
    assert size == t * SectorSize && size - SectorSize == (t - 1) * SectorSize;
    HoldsIn(size, t, target);
    HoldsIn(size - SectorSize, t - 1, target);
    LargeIsSmallest(t, size, target);
  }

  lemma SpareIsNotSmallest(size: nat, target: nat)
    requires MinImageSize() + SectorSize <= size <= MaxImageSize && Holds(size - SectorSize, target)
    ensures !Smallest(size, target)
  {
    var s: nat := size - SectorSize;
    assert MinImageSize() <= s <= MaxImageSize && Holds(s, target);
  }

  /** For small targets the search stops at its first size. */
  lemma StopsAtFirst(tried: seq<nat>, size: nat, target: nat)
    requires Finds(tried, size, target) && target <= 65525 * SectorSize
    ensures size == FirstSize(target)
  {
    FirstHoldsExactly(target);
  }

  lemma SectorApart(a: nat, b: nat)
    requires a < b && a % SectorSize == 0 && b % SectorSize == 0
    ensures a + SectorSize <= b
  {
  }

  lemma GoesOn(tried: seq<nat>, size: nat, target: nat)
    requires Finds(tried, size, target) && 65525 * SectorSize < target <= MaxImageSize
    ensures MinImageSize() + SectorSize <= size
  {
    FirstHoldsExactly(target);
    FirstCandidate(target);
    assert tried[0] in tried;
    SectorApart(FirstSize(target), size);
  }

  /**
   * The search gives the smallest volume exactly if its first size holds the target, or if the volume
   * it gives has no sector to spare.
   */
  lemma SmallestExactly(tried: seq<nat>, size: nat, target: nat)
    requires Finds(tried, size, target) && target <= MaxImageSize
    ensures size >= SectorSize
    ensures Smallest(size, target) <==> target <= 65525 * SectorSize || !Holds(size - SectorSize, target)
  {
    FloorValue();
    if target <= 65525 * SectorSize {
      StopsAtFirst(tried, size, target);
      FirstIsSmallest(target);
    } else {
      GoesOn(tried, size, target);
      if Holds(size - SectorSize, target) {
        SpareIsNotSmallest(size, target);
      } else {
        if target <= LastSmall * SectorSize { SectorToSpare(tried, size, target); }
        TightIsSmallest(size, target);
      }
    }
  }

  /** Up to 33251335 sectors the target alone decides. */
  lemma SmallTargets(tried: seq<nat>, size: nat, target: nat)
    requires Finds(tried, size, target) && target <= LastSmall * SectorSize
    ensures Smallest(size, target) <==> target <= 65525 * SectorSize
  {
    SmallestExactly(tried, size, target);
    if target > 65525 * SectorSize { SectorToSpare(tried, size, target); }
  }

  // ---------- two targets ----------

  lemma ThirtySizes(target: nat, t: nat, one: nat)
    requires target == Target(0x1E0_0000) && t == 71680 && one == (t + 8192) * SectorSize
    ensures target == t * SectorSize && FirstSectors(target) == t
    ensures FirstSize(target) == target && NextTry(target) == one
  {
    FirstInSectors(target);
    NextInSectors(t);
  }

  lemma ThirtyHolds(target: nat, one: nat)
    requires target == 71680 * SectorSize && one == 79872 * SectorSize
    ensures Holds(one, target)
  {
    NarrowDecides(one, 79872, target, 78616 * SectorSize);
  }

  lemma EnoughHolds(target: nat, enough: nat)
    requires target == 71680 * SectorSize && enough == 73000 * SectorSize
    ensures Candidate(enough) && Holds(enough, target)
  {
    NarrowDecides(enough, 73000, target, 71848 * SectorSize);
  }

  /** The search for 30 MiB of data gives 79872 sectors, although 73000 would do. */
  lemma ThirtyMebibytes(tried: seq<nat>, size: nat, target: nat, t: nat, one: nat, enough: nat)
    requires target == Target(0x1E0_0000) && Finds(tried, size, target)
    requires t == 71680 && one == (t + 8192) * SectorSize && enough == 73000 * SectorSize
    ensures size == one && Candidate(enough) && Holds(enough, target) && !Smallest(size, target)
  {
    ThirtySizes(target, t, one);
    ThirtyHolds(target, one);
    FirstHoldsExactly(target);
    Steps(tried, size, target, target, one, NextTry(one));
    EnoughHolds(target, enough);
  }

  lemma TightFits(target: nat, t: nat)
    requires t == LastSmall + 1 && target == t * SectorSize
    ensures FitsIn(t + 8192, target) && !FitsIn(t + 8191, target)
  {
    WideFrom(t + 8192);
    WideMeans(t + 8192);
    WideFrom(t + 8191);
    WideMeans(t + 8191);
    assert Pages(t + 8184) == 1016 && Pages(t + 8183) == 1016;
  }

  lemma TightHolds(target: nat, t: nat, one: nat)
    requires t == LastSmall + 1 && target == t * SectorSize && one == (t + 8192) * SectorSize
    ensures Holds(one, target) && !Holds(one - SectorSize, target)
  {
    TightFits(target, t);
    HoldsIn(one, t + 8192, target);
    HoldsIn(one - SectorSize, t + 8191, target);
  }

  lemma TightSizes(target: nat, t: nat, one: nat)
    requires t == LastSmall + 1 && target == t * SectorSize && one == (t + 8192) * SectorSize
    ensures FirstSize(target) == target && NextTry(target) == one && target <= MaxImageSize
  {
    assert Sectors(target) == t;
    FirstInSectors(target);
    NextInSectors(t);
  }

  /** For 33251336 sectors, the first target that does not alone decide, the result is the smallest volume. */
  lemma TightTarget(tried: seq<nat>, size: nat, target: nat, t: nat, one: nat)
    requires t == LastSmall + 1 && target == t * SectorSize && one == (t + 8192) * SectorSize
    requires Finds(tried, size, target)
    ensures size == one && Smallest(size, target)
  {
    TightSizes(target, t, one);
    TightHolds(target, t, one);
    FirstHoldsExactly(target);
    Steps(tried, size, target, target, one, NextTry(one));
    TightIsSmallest(size, target);
  }
}
