/** FAT32 constants, layouts and cluster maps (libs/fatfs/src/types.rs). */
module FatTypes {
  const SectorSize: nat := 512
  const DataAlignSectors: nat := 8
  const FatCount: nat := 2
  const RootCluster: nat := 2
  const Eoc: nat := 0x0FFF_FFFF
  const UnknownCluster: nat := 0xFFFF_FFFF
  const Fat32MinClusters: nat := 0xFFF5
  const ReservedSectors: nat := 8
  const FatEntrySize: nat := 4
  const MaxImageSize: nat := 0xFFFF_FFFF * SectorSize

  datatype Layout = Layout(totalSectors: nat, reservedSectors: nat, fatSectors: nat, spc: nat, clusters: nat)

  /** The bytes in the data clusters. */
  function DataBytes(l: Layout): nat {
    l.clusters * l.spc * SectorSize
  }

  function CeilDiv(a: nat, b: nat): (r: nat)
    requires b > 0
  {
    (a + b - 1) / b
  }

  /** The least number of units of size `b` that hold `a`. */
  lemma CeilDivMeans(a: nat, b: nat)
    requires b > 0
    ensures a <= CeilDiv(a, b) * b < a + b
  {
    var n := a + b - 1;
    assert n == b * (n / b) + n % b;
  }

  function AlignFatSectors(fatSectors: nat, reserved: nat): nat {
    var overhead := reserved + FatCount * fatSectors;
    var aligned := CeilDiv(overhead, DataAlignSectors) * DataAlignSectors;
    fatSectors + CeilDiv(aligned - overhead, FatCount)
  }

  /** The separately computed floor that the builder advertises. */
  function MinImageSize(): nat {
    var entriesPerSector := SectorSize / FatEntrySize;
    var fatSectors := AlignFatSectors(CeilDiv(Fat32MinClusters + 2, entriesPerSector - FatCount), ReservedSectors);
    (Fat32MinClusters + ReservedSectors + FatCount * fatSectors) * SectorSize
  }

  lemma AlignsTo(fatSectors: nat, reserved: nat, q: nat, r: nat, f: nat)
    requires reserved + 2 * fatSectors == 8 * q + r && (r == 0 || r == 2 || r == 4 || r == 6)
    requires f == fatSectors + if r == 0 then 0 else (8 - r) / 2
    ensures AlignFatSectors(fatSectors, reserved) == f
  {
  }

  /** The aligned size is the least one, from the given size on, that ends on a page boundary. */
  lemma AlignIsLeast(fatSectors: nat, reserved: nat)
    requires reserved % FatCount == 0
    ensures var f := AlignFatSectors(fatSectors, reserved);
            fatSectors <= f < fatSectors + 4
            && (reserved + FatCount * f) % DataAlignSectors == 0
            && forall g: nat :: fatSectors <= g < f ==> (reserved + FatCount * g) % DataAlignSectors != 0
  {
    var q, r := (reserved + 2 * fatSectors) / 8, (reserved + 2 * fatSectors) % 8;
    assert r == 0 || r == 2 || r == 4 || r == 6;
    var f := fatSectors + (if r == 0 then 0 else (8 - r) / 2);
    AlignsTo(fatSectors, reserved, q, r, f);
    forall g: nat | fatSectors <= g < f ensures (reserved + FatCount * g) % DataAlignSectors != 0 {
      assert reserved + 2 * g == 8 * q + r + 2 * (g - fatSectors);
    }
  }
}
