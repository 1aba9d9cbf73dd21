/** The layout of a FAT16 volume: where the kernel looks for its areas, clusters and FAT entries. */
module FatVolume {
  import opened Machine
  import opened DiskStreams

  // bytes of a directory item
  const ITEM := 32

  // A volume with empty clusters is not one: the kernel divides by the cluster size.
  type ClusterSectors = x: int | 1 <= x < 0x100 witness 1

  /** The header fields the kernel uses (section "FAT Data Structure" of the FAT specification). */
  datatype Volume = Volume(sectorsPerCluster: ClusterSectors, reservedSectors: uint16, fatCopies: byte, sectorsPerFat: uint16,
                           rootEntries: uint16, bigSectors: uint32)
  {
    /** fat16_root_directory_sector */
    function RootSector(): nat { fatCopies * sectorsPerFat + reservedSectors }

    function RootSize(): nat { rootEntries * ITEM }

    /** The sector the kernel takes for the end of the root directory: a last partial sector is dropped. */
    function EndingSector(): nat { RootSector() + RootSize() / SECTOR }

    /** fat16_get_cluster_size */
    function ClusterSize(): nat { sectorsPerCluster * SECTOR }

    /** fat16_cluster_to_sector, in unsigned arithmetic. */
    function ClusterSector(c: nat): uint32 { U32(EndingSector() + U32(c - 2) * sectorsPerCluster) }

    /** Where a cluster's bytes start, as the kernel computes it. */
    function ClusterPos(c: nat): uint32 { U32(ClusterSector(c) * SECTOR) }

    /** The position fat16_get_fat_entry seeks to: the first FAT sector times the entry's offset. */
    function LookupPos(c: nat): uint32 { U32(reservedSectors * U32(c * 2)) }

    /** Where the entry of cluster c lies (section "FAT Data Structure" of the FAT specification). */
    function EntryPos(c: nat): nat { reservedSectors * SECTOR + 2 * c }

    /** The cluster that byte `offset` of the data area lies in. */
    function ClusterAt(offset: nat): nat {
      QuotientIsNat(offset, ClusterSize());
      2 + offset / ClusterSize()
    }

    /** The cluster's bytes lie where 32-bit positions reach. */
    predicate Reaches(c: nat) { c >= 2 && (EndingSector() + (c - 1) * sectorsPerCluster) * SECTOR <= 0x1_0000_0000 }
  }

  /**
   The copies of the FAT lie one behind the other from the reserved sectors on, and the root directory
   begins where the last one ends.
   */
  lemma RootFollowsFats(v: Volume, i: nat)
    requires i < v.fatCopies
    ensures (v.reservedSectors + (i + 1) * v.sectorsPerFat) * 512 <= v.RootSector() * 512
    ensures i + 1 == v.fatCopies ==> (v.reservedSectors + (i + 1) * v.sectorsPerFat) * 512 == v.RootSector() * 512
  {
    MulMonotone(i + 1, v.fatCopies, v.sectorsPerFat);
  }

  /** So no cluster in reach and no byte from the root directory on lies in a copy of the FAT or in front of it. */
  lemma ClustersClearFats(v: Volume, i: nat, c: nat)
    requires i < v.fatCopies && v.Reaches(c)
    ensures (v.reservedSectors + (i + 1) * v.sectorsPerFat) * 512 <= v.RootSector() * 512 <= v.ClusterPos(c)
  {
    RootFollowsFats(v, i);
    ClusterPosInReach(v, c);
    MulMonotone(0, c - 2, v.sectorsPerCluster);
  }

  // The volume the kernel's own boot sector describes.
  const KERNEL_VOLUME := Volume(128, 200, 2, 256, 64, 0x773594)

  /** Where its areas lie, and that none of its clusters is looked up at its own entry. */
  lemma KernelVolumeLayout(c: uint16)
    ensures KERNEL_VOLUME.RootSector() == 712 && KERNEL_VOLUME.RootSize() == 2048 && KERNEL_VOLUME.EndingSector() == 716
    ensures KERNEL_VOLUME.ClusterSize() == 65536
    ensures KERNEL_VOLUME.ClusterPos(2) == 716 * 512 && KERNEL_VOLUME.ClusterPos(3) == 844 * 512
    ensures KERNEL_VOLUME.LookupPos(c) == 400 * c && KERNEL_VOLUME.EntryPos(c) == 102400 + 2 * c
    ensures KERNEL_VOLUME.LookupPos(c) != KERNEL_VOLUME.EntryPos(c)
    ensures KERNEL_VOLUME.Reaches(c) <==> 2 <= c <= 65531
  {
    KernelLookup(c);
  }

  lemma KernelLookup(c: uint16)
    ensures U32(200 * U32(c * 2)) == 400 * c && 400 * c != 102400 + 2 * c
  {
  }

  /** The two bytes at p, as a number. */
  function PairAt(d: seq<byte>, p: nat): uint16 { ByteOf(d, p) + 0x100 * ByteOf(d, p + 1) }

  /** fat16_get_fat_entry on a disk with contents d. */
  function FatEntry(v: Volume, d: seq<byte>, c: nat): uint16 { PairAt(d, v.LookupPos(c)) }

  /** The FAT on a disk, as the lookup the kernel makes of it. */
  function Fat(v: Volume, d: seq<byte>): nat -> nat { (c: nat) => FatEntry(v, d, c) }

  ghost predicate IsFat(next: nat -> nat, v: Volume, d: seq<byte>) {
    forall c: nat {:trigger FatEntry(v, d, c)} :: next(c) == FatEntry(v, d, c)
  }

  lemma FatIsFat(v: Volume, d: seq<byte>)
    ensures IsFat(Fat(v, d), v, d)
  {
  }

  /** The entry of cluster c. */
  function OwnEntry(v: Volume, d: seq<byte>, c: nat): uint16 { PairAt(d, v.EntryPos(c)) }

  /** The clusters looked up at their own entry; the second case needs the product to wrap. */
  predicate FindsOwnEntry(reserved: uint16, c: uint16) {
    (reserved - 1) * (c - 256) == 256 || (reserved - 1) * (c - 256) == 0x8000_0100
  }

  /** The lookup multiplies where it should add, and goes to the cluster's own entry only by this coincidence. */
  lemma LookupIsRightIff(v: Volume, c: uint16)
    ensures v.LookupPos(c) == v.EntryPos(c) <==> FindsOwnEntry(v.reservedSectors, c)
  {
    var r: nat := v.reservedSectors;
    Expand(r, c);
    MulMonotone(r, 0xffff, c);
    WrapOnce(c * 2);
    WrapOnce(r * (c * 2));
    MeetsLinear(r, c, r * c, v.LookupPos(c));
  }

  lemma WrapOnce(x: nat)
    requires x < 0x2_0000_0000
    ensures U32(x) == if x < 0x1_0000_0000 then x else x - 0x1_0000_0000
  {
  }

  lemma MeetsLinear(r: nat, c: nat, rc: nat, look: nat)
    requires r < 0x1_0000 && c < 0x1_0000 && look == if 2 * rc < 0x1_0000_0000 then 2 * rc else 2 * rc - 0x1_0000_0000
    ensures look == r * SECTOR + 2 * c <==> rc - 256 * r - c in {0, 0x8000_0000}
  {
  }

  lemma Expand(r: int, c: int)
    ensures r * (c * 2) == 2 * (r * c) && (r - 1) * (c - 256) == r * c - 256 * r - c + 256
  {
  }

  /** So the lookup returns a cluster's own entry, on every disk, for exactly those clusters. */
  lemma ReadsOwnEntryIff(v: Volume, c: uint16)
    ensures FindsOwnEntry(v.reservedSectors, c) <==> forall d: seq<byte> :: FatEntry(v, d, c) == OwnEntry(v, d, c)
  {
    LookupIsRightIff(v, c);
    if v.LookupPos(c) != v.EntryPos(c) {
      var p := v.EntryPos(c);
      var d: seq<byte> := seq(p + 1, i => if i == p then 1 else 0);
      assert OwnEntry(v, d, c) == 1;
      assert FatEntry(v, d, c) % 0x100 == 0;
    }
  }

  /** No volume has two such clusters. */
  lemma AtMostOneIsRight(v: Volume, a: uint16, b: uint16)
    requires v.LookupPos(a) == v.EntryPos(a) && v.LookupPos(b) == v.EntryPos(b)
    ensures a == b
  {
    LookupIsRightIff(v, a);
    LookupIsRightIff(v, b);
    if a <= b {
      SameProduct(v.reservedSectors - 1, a - 256, b - 256);
    } else {
      SameProduct(v.reservedSectors - 1, b - 256, a - 256);
    }
  }

  lemma SameProduct(r: int, x: int, y: int)
    requires -1 <= r && x <= y < x + 0x1_0000
    requires r * x in {256, 0x8000_0100} && r * y in {256, 0x8000_0100}
    ensures x == y
  {
    var gap := y - x;
    assert r * y == r * x + r * gap;
    if r > 0 {
      FactorAtMost(r, x);
      FactorAtMost(r, gap);
      MulMonotone(r, 256, gap);
    }
  }

  /** A positive product is at least each of its factors. */
  lemma FactorAtMost(r: nat, x: int)
    ensures x >= 1 ==> r <= r * x
    ensures x <= 0 ==> r * x <= 0
  {
  }

  /** With one reserved sector no cluster is looked up right; with two, cluster 512 is the only one. */
  lemma LookupExamples(v: Volume, c: uint16)
    ensures v.reservedSectors == 1 ==> v.LookupPos(c) != v.EntryPos(c)
    ensures v.reservedSectors == 2 ==> (v.LookupPos(c) == v.EntryPos(c) <==> c == 512)
  {
    LookupIsRightIff(v, c);
  }

  /** fat16_is_entry_invalid */
  predicate IsInvalid(entry: int) { entry in {0xFF8, 0xFFF, 0xFF0, 0xFF6, 0x00, 0xFF7} }

  lemma QuotientIsNat(n: nat, size: nat)
    requires size > 0
    ensures n / size >= 0
  {
  }

  lemma MulMonotone(a: nat, b: nat, k: nat)
    ensures a <= b ==> a * k <= b * k
  {
  }

  /** Within reach the unsigned arithmetic does not wrap. */
  lemma ClusterPosInReach(v: Volume, c: nat)
    requires v.Reaches(c)
    ensures v.ClusterPos(c) == (v.EndingSector() + (c - 2) * v.sectorsPerCluster) * SECTOR
    ensures v.ClusterPos(c) + v.ClusterSize() <= 0x1_0000_0000
  {
    var spc: nat := v.sectorsPerCluster;
    OneClusterMore(c - 2, spc);
    NoWrap(v.EndingSector(), c - 2, (c - 2) * spc, spc);
  }

  /** In and out of reach, the position is that of the cluster but for whole turns of 2^32. */
  lemma ClusterPosTurns(v: Volume, c: nat)
    ensures (v.ClusterPos(c) - (v.EndingSector() + (c - 2) * v.sectorsPerCluster) * 512) % 0x1_0000_0000 == 0
  {
    var spc: int := v.sectorsPerCluster;
    var a := Turns(c - 2);
    var b := Turns(v.EndingSector() + U32(c - 2) * spc);
    var e := Turns(v.ClusterSector(c) * SECTOR);
    TurnsAddUp(v.EndingSector(), c - 2, spc, a, b, e, v.ClusterPos(c));
  }

  lemma Turns(x: int) returns (t: int)
    ensures U32(x) == x + t * 0x1_0000_0000
  {
    U32IsModulo(x);
    t := -(x / 0x1_0000_0000);
  }

  lemma TurnsAddUp(ending: int, k: int, spc: int, a: int, b: int, e: int, pos: int)
    requires pos == (ending + (k + a * 0x1_0000_0000) * spc + b * 0x1_0000_0000) * 512 + e * 0x1_0000_0000
    ensures (pos - (ending + k * spc) * 512) % 0x1_0000_0000 == 0
  {
    assert (k + a * 0x1_0000_0000) * spc == k * spc + (a * spc) * 0x1_0000_0000;
    assert pos - (ending + k * spc) * 512 == ((a * spc + b) * 512 + e) * 0x1_0000_0000;
  }

  lemma OneClusterMore(k: nat, spc: nat)
    requires spc >= 1
    ensures (k + 1) * spc == k * spc + spc && k <= k * spc
  {
    MulMonotone(1, spc, k);
  }

  lemma NoWrap(e: nat, c: nat, k: nat, spc: nat)
    requires spc >= 1 && c <= k && (e + k + spc) * SECTOR <= 0x1_0000_0000
    ensures U32(c) == c && U32(e + k) == e + k && U32((e + k) * SECTOR) == (e + k) * SECTOR
  {
  }

  /** Distinct clusters occupy disjoint byte ranges, all behind the sectors counted as root directory. */
  lemma ClustersAreDisjoint(v: Volume, a: nat, b: nat)
    requires v.Reaches(a) && v.Reaches(b) && a < b
    ensures v.EndingSector() * SECTOR <= v.ClusterPos(a)
    ensures v.ClusterPos(a) + v.ClusterSize() <= v.ClusterPos(b)
  {
    ClusterPosInReach(v, a);
    ClusterPosInReach(v, b);
    ClusterOrder(v.EndingSector(), a - 2, b - 2, v.sectorsPerCluster);
  }

  lemma ClusterOrder(e: nat, a: nat, b: nat, spc: nat)
    requires a < b
    ensures e + a * spc + spc <= e + b * spc && 0 <= a * spc
  {
    MulMonotone(a + 1, b, spc);
  }

  /** Every cluster clears the reserved, FAT and root directory areas exactly when root entries fill whole sectors. */
  lemma ClustersClearRootIff(v: Volume)
    requires v.Reaches(2)
    ensures v.RootSize() % SECTOR == 0 <==>
            forall c: nat | v.Reaches(c) :: v.RootSector() * SECTOR + v.RootSize() <= v.ClusterPos(c)
  {
    ClusterPosInReach(v, 2);
    assert v.ClusterPos(2) == v.EndingSector() * SECTOR;
    if v.RootSize() % SECTOR == 0 {
      forall c: nat | v.Reaches(c)
        ensures v.RootSector() * SECTOR + v.RootSize() <= v.ClusterPos(c)
      {
        if c > 2 { ClustersAreDisjoint(v, 2, c); }
      }
    }
  }

  /** FAT lookups are at even positions and stay inside one sector. */
  lemma LookupCovered(v: Volume, c: nat)
    ensures Covers(v.LookupPos(c), 2)
  {
    EvenProduct(v.reservedSectors, c);
    PairsAreCovered(v.LookupPos(c) / 2);
    assert v.LookupPos(c) == 2 * (v.LookupPos(c) / 2);
  }

  lemma EvenProduct(r: nat, c: nat)
    ensures U32(r * U32(c * 2)) % 2 == 0
  {
    WrapKeepsParity(c * 2);
    EvenTimes(r, U32(c * 2));
    WrapKeepsParity(r * U32(c * 2));
  }

  lemma EvenTimes(r: nat, h: nat)
    requires h % 2 == 0
    ensures (r * h) % 2 == 0
  {
    assert r * h == 2 * (r * (h / 2));
  }

  lemma WrapKeepsParity(x: nat)
    ensures U32(x) % 2 == x % 2
  {
    U32IsModulo(x);
  }

  lemma WrapKeepsInSector(x: nat)
    ensures InSector(U32(x)) == InSector(x)
  {
    U32IsModulo(x);
  }
}
