/** Cluster allocation, the file allocation table and free-space accounting (libs/fatfs/src/table.rs). */
module FatTable {
  import opened Prelude
  import opened FatTypes
  import opened FatLayout
  import opened Bytes

  datatype ClusterMap = ClusterMap(dirStarts: seq<nat>, dirCounts: seq<nat>, fileStarts: seq<nat>, fileCounts: seq<nat>)

  /** A contiguous range of clusters. */
  datatype Run = Run(start: nat, count: nat)

  function CountAt(counts: seq<nat>, i: nat): nat {
    if i < |counts| then counts[i] else 0
  }

  function RunsOf(starts: seq<nat>, counts: seq<nat>): (r: seq<Run>)
    ensures |r| == |starts|
  {
    seq(|starts|, i requires 0 <= i < |starts| => Run(starts[i], CountAt(counts, i)))
  }

  function Runs(m: ClusterMap): seq<Run> {
    RunsOf(m.dirStarts, m.dirCounts) + RunsOf(m.fileStarts, m.fileCounts)
  }

  predicate Within(r: Run, i: nat) {
    r.start <= i < r.start + r.count
  }

  ghost predicate Disjoint(runs: seq<Run>) {
    forall a, b, i: nat :: 0 <= a < b < |runs| && Within(runs[a], i) ==> !Within(runs[b], i)
  }

  ghost predicate InRange(runs: seq<Run>, n: nat) {
    forall r :: r in runs ==> r.count > 0 ==> RootCluster <= r.start && r.start + r.count <= n
  }

  // ---------- the table as a value ----------

  /** What a chain stores at cluster `i`: the next cluster, or the end mark. */
  function Link(r: Run, i: nat): nat {
    if i + 1 < r.start + r.count && i + 1 < U32 then i + 1 else Eoc
  }

  function FillChain(fat: seq<nat>, r: Run): (f: seq<nat>)
    ensures |f| == |fat|
  {
    seq(|fat|, i requires 0 <= i < |fat| => if Within(r, i) then Link(r, i) else fat[i])
  }

  function EmptyTable(n: nat): (f: seq<nat>)
    ensures |f| == n
  {
    seq(n, i => if i == 0 then 0x0FFF_FFF8 else if i == 1 then Eoc else 0)
  }

  function Table(runs: seq<Run>, n: nat): (f: seq<nat>)
    ensures |f| == n
  {
    if runs == [] then EmptyTable(n) else FillChain(Table(runs[..|runs| - 1], n), runs[|runs| - 1])
  }

  /** Inside a run the table holds that run's link; outside all runs it is untouched. */
  lemma {:induction false} TableEntry(runs: seq<Run>, n: nat, i: nat, k: nat)
    requires Disjoint(runs) && i < n
    ensures k < |runs| && Within(runs[k], i) ==> Table(runs, n)[i] == Link(runs[k], i)
    ensures (forall r :: r in runs ==> !Within(r, i)) ==> Table(runs, n)[i] == EmptyTable(n)[i]
  {
    if runs != [] {
      var m := |runs| - 1;
      var rest := runs[..m];
      assert Disjoint(rest) by {
        forall a, b, j: nat | 0 <= a < b < |rest| && Within(rest[a], j) ensures !Within(rest[b], j) {
          assert Within(runs[a], j);
        }
      }
      TableEntry(rest, n, i, k);
      if k < m && Within(runs[k], i) { assert !Within(runs[m], i); }
      if forall r :: r in runs ==> !Within(r, i) {
        assert forall r :: r in rest ==> r in runs;
        assert runs[m] in runs;
      }
    }
  }

  // ---------- following a chain ----------

  /** The clusters met by following the table from `at`, if the end mark comes within `limit` steps. */
  function ReadChain(fat: seq<nat>, at: nat, limit: nat): Option<seq<nat>>
    decreases limit
  {
    if at >= |fat| || limit == 0 then None
    else if fat[at] == Eoc then Some([at])
    else
      match ReadChain(fat, fat[at], limit - 1)
      case None => None
      case Some(rest) => Some([at] + rest)
  }

  function From(start: nat, count: nat): (r: seq<nat>)
    ensures |r| == count
  {
    seq(count, k => start + k)
  }

  lemma {:induction false} ChainFrom(runs: seq<Run>, n: nat, k: nat, at: nat, limit: nat)
    requires Disjoint(runs) && InRange(runs, n) && n <= Eoc && k < |runs| && Within(runs[k], at)
    requires limit >= runs[k].start + runs[k].count - at
    ensures ReadChain(Table(runs, n), at, limit) == Some(From(at, runs[k].start + runs[k].count - at))
    decreases runs[k].start + runs[k].count - at
  {
    var end := runs[k].start + runs[k].count;
    assert runs[k] in runs;
    TableEntry(runs, n, at, k);
    if at + 1 < end {
      ChainFrom(runs, n, k, at + 1, limit - 1);
      assert From(at, end - at) == [at] + From(at + 1, end - (at + 1));
    } else {
      assert From(at, 1) == [at];
    }
  }

  /** Following the table from a run's start visits exactly that run, in order, and then ends. */
  lemma ChainReads(runs: seq<Run>, n: nat, k: nat)
    requires Disjoint(runs) && InRange(runs, n) && n <= Eoc && k < |runs| && runs[k].count > 0
    ensures ReadChain(Table(runs, n), runs[k].start, n) == Some(From(runs[k].start, runs[k].count))
  {
    assert runs[k] in runs;
    ChainFrom(runs, n, k, runs[k].start, n);
  }

  // ---------- free space ----------

  /** The free entries among the first `n`. */
  function ZerosBelow(fat: seq<nat>, n: nat): nat
    requires n <= |fat|
  {
    if n == 0 then 0 else ZerosBelow(fat, n - 1) + if fat[n - 1] == 0 then 1 else 0
  }

  function Zeros(fat: seq<nat>): nat {
    ZerosBelow(fat, |fat|)
  }

  /** How many clusters of a run lie below `n`. */
  function Below(r: Run, n: nat): nat {
    if n <= r.start then 0 else if n - r.start <= r.count then n - r.start else r.count
  }

  lemma {:induction false} FillUsesBelow(fat: seq<nat>, r: Run, n: nat)
    requires n <= |fat| && forall i: nat :: Within(r, i) && i < |fat| ==> fat[i] == 0
    ensures ZerosBelow(FillChain(fat, r), n) == ZerosBelow(fat, n) - Below(r, n)
  {
    if n > 0 {
      FillUsesBelow(fat, r, n - 1);
      assert Within(r, n - 1) ==> Link(r, n - 1) != 0;
    }
  }

  /** Filling a free run uses up exactly as many free entries as it is long. */
  lemma FillUses(fat: seq<nat>, r: Run)
    requires r.count > 0 ==> r.start + r.count <= |fat|
    requires forall i: nat :: Within(r, i) && i < |fat| ==> fat[i] == 0
    ensures Zeros(FillChain(fat, r)) == Zeros(fat) - r.count
  {
    FillUsesBelow(fat, r, |fat|);
  }

  /** The clusters of the first `k` runs. */
  function UsedBelow(runs: seq<Run>, k: nat): nat
    requires k <= |runs|
  {
    if k == 0 then 0 else UsedBelow(runs, k - 1) + runs[k - 1].count
  }

  function Used(runs: seq<Run>): nat {
    UsedBelow(runs, |runs|)
  }

  lemma {:induction false} UsedPrefix(runs: seq<Run>, m: nat, k: nat)
    requires k <= m <= |runs|
    ensures UsedBelow(runs[..m], k) == UsedBelow(runs, k)
  {
    if k > 0 { UsedPrefix(runs, m, k - 1); }
  }

  lemma {:induction false} EmptyZeros(n: nat, i: nat)
    requires i <= n
    ensures ZerosBelow(EmptyTable(n), i) == if i < 2 then 0 else i - 2
  {
    if i > 0 { EmptyZeros(n, i - 1); }
  }

  /** The free entries of the table are the clusters no run uses. */
  lemma {:induction false} FreeEntries(runs: seq<Run>, n: nat)
    requires Disjoint(runs) && InRange(runs, n) && n >= 2
    ensures Zeros(Table(runs, n)) == n - 2 - Used(runs)
  {
    if runs == [] {
      EmptyZeros(n, n);
    } else {
      var m := |runs| - 1;
      var rest, last := runs[..m], runs[m];
      assert Disjoint(rest) && InRange(rest, n) by {
        forall a, b, j: nat | 0 <= a < b < |rest| && Within(rest[a], j) ensures !Within(rest[b], j) {
          assert Within(runs[a], j);
        }
        forall r | r in rest ensures r in runs {}
      }
      FreeEntries(rest, n);
      UsedPrefix(runs, m, m);
      assert last in runs;
      forall i: nat | Within(last, i) && i < n ensures Table(rest, n)[i] == 0 {
        forall r | r in rest ensures !Within(r, i) {
          var a :| 0 <= a < |rest| && rest[a] == r;
          assert runs[a] == r;
        }
        TableEntry(rest, n, i, 0);
      }
      FillUses(Table(rest, n), last);
    }
  }

  // ---------- allocation ----------

  datatype FatError = TooManyClusters | FileTooLarge | ClusterOutOfRange | NotEnoughClusters

  /** The clusters that the first `k` payloads need. */
  function NeedBelow(sizes: seq<nat>, clusterBytes: nat, k: nat): nat
    requires clusterBytes > 0 && k <= |sizes|
  {
    if k == 0 then 0 else NeedBelow(sizes, clusterBytes, k - 1) + CeilDiv(sizes[k - 1], clusterBytes)
  }

  function Need(sizes: seq<nat>, clusterBytes: nat): nat
    requires clusterBytes > 0
  {
    NeedBelow(sizes, clusterBytes, |sizes|)
  }

  /** The runs payloads get: as many clusters as each needs, laid end to end from cluster 2. */
  function PlanAt(sizes: seq<nat>, clusterBytes: nat, k: nat): Run
    requires clusterBytes > 0 && k < |sizes|
  {
    Run(RootCluster + NeedBelow(sizes, clusterBytes, k), CeilDiv(sizes[k], clusterBytes))
  }

  function Plan(sizes: seq<nat>, clusterBytes: nat): (runs: seq<Run>)
    requires clusterBytes > 0
    ensures |runs| == |sizes|
  {
    seq(|sizes|, k requires 0 <= k < |sizes| => PlanAt(sizes, clusterBytes, k))
  }

  lemma {:induction false} NeedMonotone(sizes: seq<nat>, clusterBytes: nat, a: nat, b: nat)
    requires clusterBytes > 0 && a <= b <= |sizes|
    ensures NeedBelow(sizes, clusterBytes, a) <= NeedBelow(sizes, clusterBytes, b)
  {
    if a < b { NeedMonotone(sizes, clusterBytes, a, b - 1); }
  }

  lemma {:induction false} PlanUses(sizes: seq<nat>, clusterBytes: nat, k: nat)
    requires clusterBytes > 0 && k <= |sizes|
    ensures UsedBelow(Plan(sizes, clusterBytes), k) == NeedBelow(sizes, clusterBytes, k)
  {
    if k > 0 {
      PlanUses(sizes, clusterBytes, k - 1);
      assert Plan(sizes, clusterBytes)[k - 1] == PlanAt(sizes, clusterBytes, k - 1);
    }
  }

  /** Planned runs never overlap, stay in range and use exactly what is needed. */
  lemma PlanIsDisjoint(sizes: seq<nat>, clusterBytes: nat, n: nat)
    requires clusterBytes > 0 && RootCluster + Need(sizes, clusterBytes) <= n
    ensures Disjoint(Plan(sizes, clusterBytes)) && InRange(Plan(sizes, clusterBytes), n)
    ensures Used(Plan(sizes, clusterBytes)) == Need(sizes, clusterBytes)
  {
    var runs := Plan(sizes, clusterBytes);
    forall a, b, i: nat | 0 <= a < b < |runs| && Within(runs[a], i) ensures !Within(runs[b], i) {
      assert runs[a] == PlanAt(sizes, clusterBytes, a) && runs[b] == PlanAt(sizes, clusterBytes, b);
      NeedMonotone(sizes, clusterBytes, a + 1, b);
    }
    forall r | r in runs ensures RootCluster <= r.start && r.start + r.count <= n {
      var k :| 0 <= k < |runs| && runs[k] == r;
      NeedMonotone(sizes, clusterBytes, k + 1, |sizes|);
    }
    PlanUses(sizes, clusterBytes, |sizes|);
  }

  /** Planned runs leave no gap. */
  lemma {:induction false} PlanCovers(sizes: seq<nat>, clusterBytes: nat, m: nat, i: nat) returns (k: nat)
    requires clusterBytes > 0 && m <= |sizes|
    requires RootCluster <= i < RootCluster + NeedBelow(sizes, clusterBytes, m)
    ensures k < m && Within(Plan(sizes, clusterBytes)[k], i)
  {
    if i < RootCluster + NeedBelow(sizes, clusterBytes, m - 1) {
      k := PlanCovers(sizes, clusterBytes, m - 1, i);
    } else {
      k := m - 1;
    }
  }

  /** The first cluster of payload `k`. */
  function StartAt(sizes: seq<nat>, clusterBytes: nat, k: nat): nat
    requires clusterBytes > 0 && k <= |sizes|
  {
    RootCluster + NeedBelow(sizes, clusterBytes, k)
  }

  /** The first `n` payloads start at 32-bit cluster numbers. */
  ghost predicate StartsFit(sizes: seq<nat>, clusterBytes: nat, n: nat)
    requires clusterBytes > 0 && n <= |sizes|
  {
    forall k: nat :: k < n ==> StartAt(sizes, clusterBytes, k) < U32
  }

  ghost predicate CountsFit(sizes: seq<nat>, clusterBytes: nat, n: nat)
    requires clusterBytes > 0 && n <= |sizes|
  {
    forall k :: 0 <= k < n ==> CeilDiv(sizes[k], clusterBytes) < U32
  }

  /** Every start is a 32-bit cluster number, every directory's count fits 32 bits, the end fits 64 bits. */
  ghost predicate Addressable(dirSizes: seq<nat>, all: seq<nat>, clusterBytes: nat)
    requires clusterBytes > 0
  {
    CountsFit(dirSizes, clusterBytes, |dirSizes|) && StartsFit(all, clusterBytes, |all|)
    && StartAt(all, clusterBytes, |all|) < U64
  }

  /** Every file fits a directory entry, all payloads together fit the layout, and no number is too wide. */
  ghost predicate Allocatable(files: seq<nat>, layout: Layout, dirSizes: seq<nat>)
    requires layout.spc > 0
  {
    (forall i :: 0 <= i < |files| ==> files[i] < U32) &&
    Need(dirSizes + files, layout.spc * SectorSize) <= layout.clusters &&
    Addressable(dirSizes, dirSizes + files, layout.spc * SectorSize)
  }

  /** On every layout with 32-bit cluster numbers, what fits is addressable. */
  lemma FittingIsAddressable(files: seq<nat>, layout: Layout, dirSizes: seq<nat>)
    requires layout.spc > 0 && layout.clusters + RootCluster < U32
    requires Need(dirSizes + files, layout.spc * SectorSize) <= layout.clusters
    ensures Addressable(dirSizes, dirSizes + files, layout.spc * SectorSize)
  {
    var all, clusterBytes := dirSizes + files, layout.spc * SectorSize;
    forall k: nat | k <= |all| ensures NeedBelow(all, clusterBytes, k) <= layout.clusters {
      NeedMonotone(all, clusterBytes, k, |all|);
    }
    forall k | 0 <= k < |dirSizes| ensures CeilDiv(dirSizes[k], clusterBytes) < U32 {
      assert NeedBelow(all, clusterBytes, k + 1) <= layout.clusters && all[k] == dirSizes[k];
    }
  }

  predicate WellFormed(m: ClusterMap) {
    |m.dirStarts| == |m.dirCounts| && |m.fileStarts| == |m.fileCounts|
  }

  /** `starts` and `counts` hold the planned runs from position `base` on. */
  ghost predicate Holds(sizes: seq<nat>, clusterBytes: nat, base: nat, starts: seq<nat>, counts: seq<nat>)
    requires clusterBytes > 0
  {
    |starts| == |counts| && base + |starts| <= |sizes|
    && forall k :: 0 <= k < |starts| ==> Run(starts[k], counts[k]) == PlanAt(sizes, clusterBytes, base + k)
  }

  lemma HoldsAll(sizes: seq<nat>, clusterBytes: nat, m: ClusterMap)
    requires clusterBytes > 0 && |sizes| == |m.dirStarts| + |m.fileStarts|
    requires Holds(sizes, clusterBytes, 0, m.dirStarts, m.dirCounts)
    requires Holds(sizes, clusterBytes, |m.dirStarts|, m.fileStarts, m.fileCounts)
    ensures WellFormed(m) && Runs(m) == Plan(sizes, clusterBytes)
  {
  }

  /** Every count has room for its payload, with less than a cluster to spare. */
  ghost predicate Rooms(sizes: seq<nat>, counts: seq<nat>, clusterBytes: nat) {
    |sizes| == |counts|
    && forall k :: 0 <= k < |sizes| ==> sizes[k] <= counts[k] * clusterBytes < sizes[k] + clusterBytes
  }

  /** The runs follow each other from cluster 2 on. */
  ghost predicate EndToEnd(runs: seq<Run>) {
    forall k :: 0 <= k < |runs| ==>
      runs[k].start == if k == 0 then RootCluster else runs[k - 1].start + runs[k - 1].count
  }

  /** What the payloads get, in plain numbers. */
  ghost predicate Allotted(m: ClusterMap, files: seq<nat>, dirSizes: seq<nat>, clusterBytes: nat) {
    Rooms(dirSizes, m.dirCounts, clusterBytes) && Rooms(files, m.fileCounts, clusterBytes) && EndToEnd(Runs(m))
  }

  lemma PlanRooms(sizes: seq<nat>, clusterBytes: nat, base: nat, part: seq<nat>, starts: seq<nat>, counts: seq<nat>)
    requires clusterBytes > 0 && Holds(sizes, clusterBytes, base, starts, counts) && |part| == |counts|
    requires forall k :: 0 <= k < |part| ==> part[k] == sizes[base + k]
    ensures Rooms(part, counts, clusterBytes)
  {
    forall k | 0 <= k < |part| ensures part[k] <= counts[k] * clusterBytes < part[k] + clusterBytes {
      assert Run(starts[k], counts[k]) == PlanAt(sizes, clusterBytes, base + k);
      CeilDivMeans(part[k], clusterBytes);
    }
  }

  lemma PlanEndToEnd(sizes: seq<nat>, clusterBytes: nat)
    requires clusterBytes > 0
    ensures EndToEnd(Plan(sizes, clusterBytes))
  {
    var runs := Plan(sizes, clusterBytes);
    forall k | 0 <= k < |runs|
      ensures runs[k].start == if k == 0 then RootCluster else runs[k - 1].start + runs[k - 1].count
    {
      assert runs[k] == PlanAt(sizes, clusterBytes, k);
      if k > 0 { assert runs[k - 1] == PlanAt(sizes, clusterBytes, k - 1); }
    }
  }

  lemma HeldIsAllotted(m: ClusterMap, files: seq<nat>, dirSizes: seq<nat>, clusterBytes: nat)
    requires clusterBytes > 0 && |m.dirCounts| == |dirSizes| && |m.fileCounts| == |files|
    requires Holds(dirSizes + files, clusterBytes, 0, m.dirStarts, m.dirCounts)
    requires Holds(dirSizes + files, clusterBytes, |m.dirStarts|, m.fileStarts, m.fileCounts)
    ensures Allotted(m, files, dirSizes, clusterBytes)
  {
    var all := dirSizes + files;
    PlanRooms(all, clusterBytes, 0, dirSizes, m.dirStarts, m.dirCounts);
    PlanRooms(all, clusterBytes, |dirSizes|, files, m.fileStarts, m.fileCounts);
    HoldsAll(all, clusterBytes, m);
    PlanEndToEnd(all, clusterBytes);
  }

  /** Places the directories, or fails exactly when a number is too wide. */
  method PlaceDirs(dirSizes: seq<nat>, clusterBytes: nat, ghost all: seq<nat>)
    returns (r: Result<(seq<nat>, seq<nat>, nat), FatError>)
    requires clusterBytes > 0 && dirSizes <= all
    ensures r.Ok? <==> CountsFit(dirSizes, clusterBytes, |dirSizes|) && StartsFit(all, clusterBytes, |dirSizes|)
                       && StartAt(all, clusterBytes, |dirSizes|) < U64
    ensures r.Ok? ==> |r.value.0| == |dirSizes| && Holds(all, clusterBytes, 0, r.value.0, r.value.1)
                      && r.value.2 == StartAt(all, clusterBytes, |dirSizes|)
  {
    var next: nat := RootCluster;
    var starts: seq<nat>, counts: seq<nat> := [], [];
    for i := 0 to |dirSizes|
      invariant |starts| == i && Holds(all, clusterBytes, 0, starts, counts)
      invariant next == StartAt(all, clusterBytes, i) < U64
      invariant CountsFit(dirSizes, clusterBytes, i) && StartsFit(all, clusterBytes, i)
    {
      NeedMonotone(all, clusterBytes, i + 1, |dirSizes|);
      var count := CeilDiv(dirSizes[i], clusterBytes);
      if next >= U32 {
        return Err(ClusterOutOfRange);
      }
      if count >= U32 {
        return Err(TooManyClusters);
      }
      if next + count >= U64 {
        return Err(ClusterOutOfRange);
      }
      starts, counts, next := starts + [next], counts + [count], next + count;
    }
    return Ok((starts, counts, next));
  }

  /** Places the files after the directories, or fails exactly when a file or a number is too wide. */
  method PlaceFiles(files: seq<nat>, clusterBytes: nat, first: nat, ghost dirSizes: seq<nat>, ghost all: seq<nat>)
    returns (r: Result<(seq<nat>, seq<nat>, nat), FatError>)
    requires clusterBytes > 0 && all == dirSizes + files && first == StartAt(all, clusterBytes, |dirSizes|) < U64
    requires StartsFit(all, clusterBytes, |dirSizes|)
    ensures r.Ok? <==> (forall i :: 0 <= i < |files| ==> files[i] < U32) && StartsFit(all, clusterBytes, |all|)
                       && StartAt(all, clusterBytes, |all|) < U64
    ensures r.Ok? ==> |r.value.0| == |files| && Holds(all, clusterBytes, |dirSizes|, r.value.0, r.value.1)
                      && r.value.2 == StartAt(all, clusterBytes, |all|)
  {
    var next := first;
    var starts: seq<nat>, counts: seq<nat> := [], [];
    for i := 0 to |files|
      invariant |starts| == i && Holds(all, clusterBytes, |dirSizes|, starts, counts)
      invariant next == StartAt(all, clusterBytes, |dirSizes| + i) < U64
      invariant forall k :: 0 <= k < i ==> files[k] < U32
      invariant StartsFit(all, clusterBytes, |dirSizes| + i)
    {
      NeedMonotone(all, clusterBytes, |dirSizes| + i + 1, |all|);
      if files[i] >= U32 {
        return Err(FileTooLarge);
      }
      var count := CeilDiv(files[i], clusterBytes);
      if next >= U32 || next + count >= U64 {
        return Err(ClusterOutOfRange);
      }
      starts, counts, next := starts + [next], counts + [count], next + count;
    }
    return Ok((starts, counts, next));
  }

  /** Allocates exactly when everything fits, and then exactly the planned runs. */
  method AssignClusters(files: seq<nat>, layout: Layout, dirSizes: seq<nat>) returns (r: Result<ClusterMap, FatError>)
    requires 0 < layout.spc
    ensures r.Ok? <==> Allocatable(files, layout, dirSizes)
    ensures r.Ok? ==> WellFormed(r.value) && Runs(r.value) == Plan(dirSizes + files, layout.spc * SectorSize)
    ensures r.Ok? ==> Allotted(r.value, files, dirSizes, layout.spc * SectorSize)
  {
    var clusterBytes := layout.spc * SectorSize;
    ghost var all := dirSizes + files;
    NeedMonotone(all, clusterBytes, |dirSizes|, |all|);
    var dirs := PlaceDirs(dirSizes, clusterBytes, all);
    if dirs.Err? {
      return Err(dirs.error);
    }
    var placed := PlaceFiles(files, clusterBytes, dirs.value.2, dirSizes, all);
    if placed.Err? {
      return Err(placed.error);
    }
    if placed.value.2 - RootCluster > layout.clusters {
      return Err(NotEnoughClusters);
    }
    var m := ClusterMap(dirs.value.0, dirs.value.1, placed.value.0, placed.value.1);
    HoldsAll(all, clusterBytes, m);
    HeldIsAllotted(m, files, dirSizes, clusterBytes);
    return Ok(m);
  }

  // ---------- writing the table ----------

  method FillFatChain(fat: array<nat>, start: nat, count: nat)
    requires start + count < U64
    modifies fat
    ensures fat[..] == FillChain(old(fat[..]), Run(start, count))
  {
    ghost var r := Run(start, count);
    for j := 0 to count
      invariant forall i :: 0 <= i < fat.Length ==>
                  fat[i] == if start <= i < start + j then Link(r, i) else old(fat[i])
    {
      var value := if j + 1 < count then (if start + j + 1 < U32 then start + j + 1 else Eoc) else Eoc;
      var idx := start + j;
      if idx < fat.Length {
        fat[idx] := value;
      }
    }
  }

  /** Entry `k` of a little-endian table. */
  function EntryOf(bytes: seq<byte>, k: nat): nat
    requires 4 * k + 4 <= |bytes|
  {
    LeAt(bytes, 4 * k, 4)
  }

  /** `bytes` starts with the entries of `fat` in order. */
  ghost predicate Encodes(bytes: seq<byte>, fat: seq<nat>) {
    4 * |fat| <= |bytes| && forall k :: 0 <= k < |fat| ==> EntryOf(bytes, k) == fat[k]
  }

  lemma EncodesSurvives(bytes: seq<byte>, pad: seq<byte>, fat: seq<nat>)
    requires Encodes(bytes, fat)
    ensures Encodes(bytes + pad, fat)
  {
  }

  lemma EncodesAppend(bytes: seq<byte>, fat: seq<nat>, piece: seq<byte>, v: nat)
    requires Encodes(bytes, fat) && |bytes| == 4 * |fat| && |piece| == 4 && EntryOf(bytes + piece, |fat|) == v
    ensures Encodes(bytes + piece, fat + [v])
  {
  }

  lemma EncodesOneMore(bytes: seq<byte>, fat: seq<nat>, v: nat)
    requires Encodes(bytes, fat) && |bytes| == 4 * |fat| && v < U32
    ensures Encodes(bytes + LeBytes(v, 4), fat + [v])
  {
    assert v < Pow256(4) by { PowersOf256(); }
    LeAppended(bytes, v, 4);
    EncodesAppend(bytes, fat, LeBytes(v, 4), v);
  }

  lemma {:induction false} TableFitsU32(runs: seq<Run>, n: nat)
    ensures forall i :: 0 <= i < n ==> Table(runs, n)[i] < U32
  {
    if runs != [] { TableFitsU32(runs[..|runs| - 1], n); }
  }

  /** The table after the placed runs and the first `i` of a list of further ones. */
  ghost function Partial(placed: seq<Run>, more: seq<Run>, i: nat, n: nat): seq<nat>
    requires i <= |more|
  {
    if i == 0 then Table(placed, n) else FillChain(Partial(placed, more, i - 1, n), more[i - 1])
  }

  lemma {:induction false} PartialIsTable(placed: seq<Run>, more: seq<Run>, i: nat, n: nat)
    requires i <= |more|
    ensures Partial(placed, more, i, n) == Table(placed + more[..i], n)
  {
    if i == 0 {
      assert placed + more[..i] == placed;
    } else {
      PartialIsTable(placed, more, i - 1, n);
      assert placed + more[..i] == (placed + more[..i - 1]) + [more[i - 1]];
    }
  }

  /** One pass of chain writing, after the runs already in the table. */
  method FillRuns(fat: array<nat>, starts: seq<nat>, counts: seq<nat>, ghost placed: seq<Run>)
    requires fat[..] == Table(placed, fat.Length)
    requires forall i :: 0 <= i < |starts| ==> starts[i] + CountAt(counts, i) < U64
    modifies fat
    ensures fat[..] == Table(placed + RunsOf(starts, counts), fat.Length)
  {
    ghost var more := RunsOf(starts, counts);
    for i := 0 to |starts|
      invariant fat[..] == Partial(placed, more, i, fat.Length)
    {
      FillFatChain(fat, starts[i], CountAt(counts, i));
    }
    PartialIsTable(placed, more, |more|, fat.Length);
    assert more[..|more|] == more;
  }

  function Max(a: nat, b: nat): nat {
    if a < b then b else a
  }

  /** The bytes of the table for the map's runs, zero-padded to the FAT's sectors. */
  method MakeFat(m: ClusterMap, layout: Layout) returns (bytes: seq<byte>)
    requires layout.clusters + 2 < U64
    requires forall i :: 0 <= i < |m.dirStarts| ==> m.dirStarts[i] + CountAt(m.dirCounts, i) < U64
    requires forall i :: 0 <= i < |m.fileStarts| ==> m.fileStarts[i] + CountAt(m.fileCounts, i) < U64
    ensures Encodes(bytes, Table(Runs(m), layout.clusters + 2))
    ensures |bytes| == Max(4 * (layout.clusters + 2), layout.fatSectors * SectorSize)
    ensures forall k :: 4 * (layout.clusters + 2) <= k < |bytes| ==> bytes[k] == 0
  {
    var n := layout.clusters + 2;
    ghost var runs := Runs(m);
    var fat := NewTable(n);
    FillRuns(fat, m.dirStarts, m.dirCounts, []);
    assert [] + RunsOf(m.dirStarts, m.dirCounts) == RunsOf(m.dirStarts, m.dirCounts);
    FillRuns(fat, m.fileStarts, m.fileCounts, RunsOf(m.dirStarts, m.dirCounts));
    TableFitsU32(runs, n);
    bytes := WriteTable(fat, fat[..]);
    var needed := layout.fatSectors * SectorSize;
    if |bytes| < needed {
      var pad: seq<byte> := seq(needed - |bytes|, _ => 0);
      EncodesSurvives(bytes, pad, Table(runs, n));
      bytes := bytes + pad;
    }
  }

  method NewTable(n: nat) returns (fat: array<nat>)
    ensures fresh(fat) && fat.Length == n && fat[..] == EmptyTable(n)
  {
    fat := new nat[n](i => if i == 0 then 0x0FFF_FFF8 else if i == 1 then Eoc else 0);
  }

  method WriteTable(fat: array<nat>, ghost entries: seq<nat>) returns (bytes: seq<byte>)
    requires fat[..] == entries && forall i :: 0 <= i < |entries| ==> entries[i] < U32
    ensures |bytes| == 4 * |entries| && Encodes(bytes, entries)
  {
    bytes := [];
    for i := 0 to fat.Length
      invariant |bytes| == 4 * i && Encodes(bytes, entries[..i])
    {
      assert fat[i] == fat[..][i];
      EncodesOneMore(bytes, entries[..i], fat[i]);
      assert entries[..i] + [fat[i]] == entries[..i + 1];
      bytes := bytes + LeBytes(fat[i], 4);
    }
    assert entries[..|entries|] == entries;
  }

  // ---------- the FSInfo sector ----------

  datatype FsInfo = FsInfo(freeClusters: nat, nextFree: nat)

  function Sum(counts: seq<nat>): nat {
    if counts == [] then 0 else Sum(counts[..|counts| - 1]) + counts[|counts| - 1]
  }

  function FromMap(m: ClusterMap, layout: Layout): FsInfo {
    var used := Sum(m.dirCounts) + Sum(m.fileCounts);
    var free := if used <= layout.clusters then layout.clusters - used else 0;
    FsInfo(if free < U32 then free else UnknownCluster,
           if free == 0 then UnknownCluster
           else if RootCluster + used < U32 then RootCluster + used
           else UnknownCluster)
  }

  lemma {:induction false} SumIsUsed(starts: seq<nat>, counts: seq<nat>, k: nat)
    requires |starts| == |counts| && k <= |counts|
    ensures Sum(counts[..k]) == UsedBelow(RunsOf(starts, counts), k)
  {
    if k > 0 {
      assert counts[..k][..k - 1] == counts[..k - 1];
      SumIsUsed(starts, counts, k - 1);
    }
  }

  lemma {:induction false} UsedAppend(a: seq<Run>, b: seq<Run>, k: nat)
    requires k <= |b|
    ensures UsedBelow(a + b, |a| + k) == Used(a) + UsedBelow(b, k)
  {
    if k > 0 {
      UsedAppend(a, b, k - 1);
    } else {
      assert (a + b)[..|a|] == a;
      UsedPrefix(a + b, |a|, |a|);
    }
  }

  lemma MapUses(m: ClusterMap)
    requires WellFormed(m)
    ensures Used(Runs(m)) == Sum(m.dirCounts) + Sum(m.fileCounts)
  {
    var a, b := RunsOf(m.dirStarts, m.dirCounts), RunsOf(m.fileStarts, m.fileCounts);
    assert m.dirCounts[..|m.dirCounts|] == m.dirCounts && m.fileCounts[..|m.fileCounts|] == m.fileCounts;
    SumIsUsed(m.dirStarts, m.dirCounts, |m.dirCounts|);
    SumIsUsed(m.fileStarts, m.fileCounts, |m.fileCounts|);
    UsedAppend(a, b, |b|);
  }

  /** The recorded free count is the number of zero entries of the table. */
  lemma FreeCountIsExact(m: ClusterMap, layout: Layout)
    requires WellFormed(m) && layout.clusters < U32
    requires Disjoint(Runs(m)) && InRange(Runs(m), layout.clusters + 2)
    ensures FromMap(m, layout).freeClusters == Zeros(Table(Runs(m), layout.clusters + 2))
  {
    MapUses(m);
    FreeEntries(Runs(m), layout.clusters + 2);
  }

  /** A planned table has no free entry before the end of the plan, and a free one there. */
  lemma PlanEndIsFree(sizes: seq<nat>, clusterBytes: nat, n: nat)
    requires clusterBytes > 0 && RootCluster + Need(sizes, clusterBytes) < n
    ensures Table(Plan(sizes, clusterBytes), n)[RootCluster + Need(sizes, clusterBytes)] == 0
  {
    var runs, next := Plan(sizes, clusterBytes), RootCluster + Need(sizes, clusterBytes);
    PlanIsDisjoint(sizes, clusterBytes, n);
    forall r | r in runs ensures !Within(r, next) {
      var k :| 0 <= k < |runs| && runs[k] == r;
      assert r == PlanAt(sizes, clusterBytes, k);
      NeedMonotone(sizes, clusterBytes, k + 1, |sizes|);
    }
    TableEntry(runs, n, next, 0);
  }

  lemma PlannedIsUsed(sizes: seq<nat>, clusterBytes: nat, n: nat, i: nat)
    requires clusterBytes > 0 && i < RootCluster + Need(sizes, clusterBytes) <= n
    ensures Table(Plan(sizes, clusterBytes), n)[i] != 0
  {
    var runs := Plan(sizes, clusterBytes);
    PlanIsDisjoint(sizes, clusterBytes, n);
    if i >= RootCluster {
      var k := PlanCovers(sizes, clusterBytes, |sizes|, i);
      TableEntry(runs, n, i, k);
    } else {
      forall r | r in runs ensures !Within(r, i) { assert RootCluster <= r.start || r.count == 0; }
      TableEntry(runs, n, i, 0);
    }
  }

  /** For an allocated map the recorded next free cluster is the first free one, if there is one. */
  lemma NextFreeIsFirst(m: ClusterMap, layout: Layout, sizes: seq<nat>, clusterBytes: nat)
    requires WellFormed(m) && clusterBytes > 0 && Runs(m) == Plan(sizes, clusterBytes)
    requires Need(sizes, clusterBytes) < layout.clusters && layout.clusters + 2 < U32
    ensures var next := FromMap(m, layout).nextFree;
            var fat := Table(Runs(m), layout.clusters + 2);
            next < |fat| && fat[next] == 0 && forall i :: 0 <= i < next ==> fat[i] != 0
  {
    MapUses(m);
    PlanUses(sizes, clusterBytes, |sizes|);
    PlanEndIsFree(sizes, clusterBytes, layout.clusters + 2);
    var fat := Table(Plan(sizes, clusterBytes), layout.clusters + 2);
    forall i | 0 <= i < RootCluster + Need(sizes, clusterBytes) ensures fat[i] != 0 {
      PlannedIsUsed(sizes, clusterBytes, layout.clusters + 2, i);
    }
  }

  // ---------- the whole plan of an image ----------

  datatype Image = Image(layout: Layout, map_: ClusterMap, fatBytes: seq<byte>, info: FsInfo)

  datatype PlanError = BadLayout(layoutError: LayoutError) | BadPayload(fatError: FatError)

  /** Following the table from each run's start visits exactly that run. */
  ghost predicate ChainsRead(runs: seq<Run>, n: nat) {
    forall r :: r in runs && r.count > 0 ==> ChainOf(Table(runs, n), r)
  }

  ghost predicate ChainOf(fat: seq<nat>, r: Run) {
    ReadChain(fat, r.start, |fat|) == Some(From(r.start, r.count))
  }

  ghost predicate Covered(runs: seq<Run>, i: nat) {
    exists r :: r in runs && Within(r, i)
  }

  /** Outside all runs the table holds the two reserved entries and zeros. */
  ghost predicate OutsideIsFree(runs: seq<Run>, n: nat) {
    n >= 2 && Table(runs, n)[0] == 0x0FFF_FFF8 && Table(runs, n)[1] == Eoc
    && forall i: nat :: RootCluster <= i < n && !Covered(runs, i) ==> Table(runs, n)[i] == 0
  }

  lemma OutsideRuns(runs: seq<Run>, n: nat)
    requires Disjoint(runs) && InRange(runs, n) && n >= 2
    ensures OutsideIsFree(runs, n)
  {
    forall i: nat | i < n && !Covered(runs, i) ensures Table(runs, n)[i] == EmptyTable(n)[i] {
      forall r | r in runs ensures !Within(r, i) {}
      TableEntry(runs, n, i, 0);
    }
    forall i: nat | i < 2 ensures !Covered(runs, i) {}
  }

  /** Every free entry is counted, and the recorded next one is the first, or unknown when there is none. */
  ghost predicate Accounted(info: FsInfo, fat: seq<nat>) {
    info.freeClusters == Zeros(fat) &&
    if Zeros(fat) == 0 then info.nextFree == UnknownCluster
    else info.nextFree < |fat| && fat[info.nextFree] == 0 && forall i :: 0 <= i < info.nextFree ==> fat[i] != 0
  }

  /** The table on disk: exactly the FAT's sectors, every chain readable, zero elsewhere, every free entry counted. */
  ghost predicate GoodTable(i: Image) {
    var n := i.layout.clusters + 2;
    var runs := Runs(i.map_);
    |i.fatBytes| == i.layout.fatSectors * SectorSize && Encodes(i.fatBytes, Table(runs, n))
    && ChainsRead(runs, n) && OutsideIsFree(runs, n) && Accounted(i.info, Table(runs, n))
  }

  lemma PlanIsAccounted(m: ClusterMap, l: Layout, sizes: seq<nat>, clusterBytes: nat)
    requires WellFormed(m) && clusterBytes > 0 && Runs(m) == Plan(sizes, clusterBytes)
    requires Need(sizes, clusterBytes) <= l.clusters && l.clusters + 2 < U32
    ensures Accounted(FromMap(m, l), Table(Runs(m), l.clusters + 2))
  {
    var n := l.clusters + 2;
    PlanIsDisjoint(sizes, clusterBytes, n);
    FreeCountIsExact(m, l);
    FreeEntries(Runs(m), n);
    MapUses(m);
    if Need(sizes, clusterBytes) < l.clusters {
      NextFreeIsFirst(m, l, sizes, clusterBytes);
    }
  }

  lemma AllChainsRead(runs: seq<Run>, n: nat)
    requires Disjoint(runs) && InRange(runs, n) && n <= Eoc
    ensures ChainsRead(runs, n)
  {
    forall r | r in runs && r.count > 0 ensures ChainOf(Table(runs, n), r) {
      var k :| 0 <= k < |runs| && runs[k] == r;
      ChainReads(runs, n, k);
    }
  }

  lemma PlannedTableIsGood(i: Image, sizes: seq<nat>, clusterBytes: nat)
    requires i.layout.clusters + 2 <= Eoc && 4 * (i.layout.clusters + 2) <= i.layout.fatSectors * SectorSize
    requires WellFormed(i.map_) && clusterBytes > 0
    requires Runs(i.map_) == Plan(sizes, clusterBytes) && Need(sizes, clusterBytes) <= i.layout.clusters
    requires Encodes(i.fatBytes, Table(Runs(i.map_), i.layout.clusters + 2))
    requires |i.fatBytes| == Max(4 * (i.layout.clusters + 2), i.layout.fatSectors * SectorSize)
    requires i.info == FromMap(i.map_, i.layout)
    ensures GoodTable(i)
  {
    var n := i.layout.clusters + 2;
    var runs := Runs(i.map_);
    PlanIsDisjoint(sizes, clusterBytes, n);
    AllChainsRead(runs, n);
    OutsideRuns(runs, n);
    PlanIsAccounted(i.map_, i.layout, sizes, clusterBytes);
  }

  lemma RunsStayBelow(m: ClusterMap, sizes: seq<nat>, clusterBytes: nat, n: nat)
    requires WellFormed(m) && clusterBytes > 0 && Runs(m) == Plan(sizes, clusterBytes)
    requires RootCluster + Need(sizes, clusterBytes) <= n
    ensures forall i :: 0 <= i < |m.dirStarts| ==> m.dirStarts[i] + CountAt(m.dirCounts, i) <= n
    ensures forall i :: 0 <= i < |m.fileStarts| ==> m.fileStarts[i] + CountAt(m.fileCounts, i) <= n
  {
    forall k | 0 <= k < |Runs(m)| ensures Runs(m)[k].start + Runs(m)[k].count <= n {
      assert Runs(m)[k] == PlanAt(sizes, clusterBytes, k);
      NeedMonotone(sizes, clusterBytes, k + 1, |sizes|);
    }
    assert forall i :: 0 <= i < |m.dirStarts| ==> Runs(m)[i] == Run(m.dirStarts[i], CountAt(m.dirCounts, i));
    forall i | 0 <= i < |m.fileStarts| ensures m.fileStarts[i] + CountAt(m.fileCounts, i) <= n {
      assert Runs(m)[|m.dirStarts| + i] == Run(m.fileStarts[i], CountAt(m.fileCounts, i));
    }
  }

  /** Allocation, table and accounting for a sound geometry: succeeds exactly when the payloads fit it. */
  method PlanWith(files: seq<nat>, dirSizes: seq<nat>, l: Layout) returns (r: Result<Image, PlanError>)
    requires Sound(l)
    ensures r.Ok? <==> Allocatable(files, l, dirSizes)
    ensures r.Ok? ==> r.value.layout == l && GoodTable(r.value)
                      && Runs(r.value.map_) == Plan(dirSizes + files, l.spc * SectorSize)
                      && Allotted(r.value.map_, files, dirSizes, l.spc * SectorSize)
  {
    var m := AssignClusters(files, l, dirSizes);
    if m.Err? {
      return Err(BadPayload(m.error));
    }
    RunsStayBelow(m.value, dirSizes + files, l.spc * SectorSize, l.clusters + 2);
    var bytes := MakeFat(m.value, l);
    var i := Image(l, m.value, bytes, FromMap(m.value, l));
    PlannedTableIsGood(i, dirSizes + files, l.spc * SectorSize);
    return Ok(i);
  }

  /** The whole plan of an image, for every size that does not wrap. */
  method PlanImage(files: seq<nat>, dirSizes: seq<nat>, imageSize: nat) returns (r: Result<Image, PlanError>)
    requires imageSize < U64 && !Wraps(imageSize / SectorSize)
    ensures r.Ok? <==> MinImageSize() <= imageSize <= MaxImageSize && imageSize / SectorSize >= 16
                       && Allocatable(files, Geometry(imageSize / SectorSize), dirSizes)
    ensures r.Ok? ==> r.value.layout == Geometry(imageSize / SectorSize) && Sound(r.value.layout)
    ensures r.Ok? ==> Runs(r.value.map_) == Plan(dirSizes + files, r.value.layout.spc * SectorSize)
                      && Allotted(r.value.map_, files, dirSizes, r.value.layout.spc * SectorSize)
    ensures r.Ok? ==> GoodTable(r.value)
  {
    var layout := Compute(imageSize);
    if layout.Err? {
      return Err(BadLayout(layout.error));
    }
    r := PlanWith(files, dirSizes, layout.value);
  }
}
