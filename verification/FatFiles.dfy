/**
 Files and the root directory as bytes of the flat disk: what a read delivers of a file, what the
 first write of a new file changes, and what every run of such writes keeps.
 */
module FatFiles {
  import opened Machine
  import opened DiskStreams
  import opened FatVolume
  import opened FatChain

  // ---- reading ----

  /** Where clusters lie: the position of each, and the set of those whose bytes are in reach. */
  datatype Layout = Layout(size: nat, at: nat -> nat, ok: nat -> bool) {
    /** Clusters start on sectors, at positions below 2^32; the bytes of those in reach are all below it. */
    ghost predicate Sound() {
      IsClusterSize(size) && forall c: nat :: SoundAt(c)
    }

    predicate SoundAt(c: nat) {
      at(c) < 0x1_0000_0000 && InSector(at(c)) == 0 && (ok(c) ==> at(c) + size <= 0x1_0000_0000)
    }
  }

  lemma LayoutIsSound(v: Volume)
    ensures LayoutOf(v).Sound()
  {
    forall c: nat ensures LayoutOf(v).SoundAt(c) {
      ClusterPosAligned(v.ClusterSector(c));
      if v.Reaches(c) { ClusterPosInReach(v, c); }
    }
  }

  function LayoutOf(v: Volume): Layout { Layout(v.ClusterSize(), (c: nat) => v.ClusterPos(c), (c: nat) => v.Reaches(c)) }

  ghost predicate IsLayoutOf(l: Layout, v: Volume) {
    forall w: Volume {:trigger LayoutOf(w)} | w == v :: l == LayoutOf(w)
  }

  /** The bytes come from the given sources, wherever those are disk positions in reach. */
  ghost predicate Delivers(l: Layout, d: seq<byte>, bytes: seq<byte>, sources: seq<Source>) {
    |bytes| == |sources| && forall i | 0 <= i < |sources| :: DeliversByte(l, d, bytes[i], sources[i])
  }

  predicate DeliversByte(l: Layout, d: seq<byte>, b: byte, s: Source) {
    s.In? && l.ok(s.cluster) ==> b == ByteOf(d, l.at(s.cluster) + s.pos)
  }

  /** The first k clusters of the file that starts at c, one after the other. */
  function Contents(l: Layout, d: seq<byte>, next: Lookup, c: nat, k: nat): (s: seq<byte>)
    decreases k
  {
    if k == 0 then [] else Slice(d, l.at(c), l.size) + Contents(l, d, next, next(c), k - 1)
  }

  /** Byte p of a file lies at position r of its cluster number q, where p is q clusters and r bytes. */
  lemma {:induction false} ContentsAt(l: Layout, d: seq<byte>, next: Lookup, c: nat, k: nat, q: nat, r: nat, p: nat)
    requires r < l.size && p == q * l.size + r < |Contents(l, d, next, c, k)| && ChainLong(next, c, q)
    ensures Contents(l, d, next, c, k)[p] == ByteOf(d, l.at(Advance(next, c, q)) + r)
    decreases k
  {
    if q > 0 {
      OneMore(q - 1, l.size);
      ContentsAt(l, d, next, next(c), k - 1, q - 1, r, p - l.size);
    } else {
      ZeroTimes(l.size);
    }
  }

  lemma ZeroTimes(size: nat)
    ensures 0 * size == 0
  {
  }

  lemma OneMore(q: nat, size: nat)
    ensures (q + 1) * size == q * size + size
  {
  }

  lemma {:induction false} ContentsLength(l: Layout, d: seq<byte>, next: Lookup, c: nat, k: nat)
    ensures |Contents(l, d, next, c, k)| == k * l.size
    decreases k
  {
    if k > 0 {
      ContentsLength(l, d, next, next(c), k - 1);
      OneMore(k - 1, l.size);
    }
  }

  lemma {:induction false} ShorterChain(next: Lookup, c: nat, k: nat, q: nat)
    requires ChainLong(next, c, k) && q <= k
    ensures ChainLong(next, c, q)
    decreases q
  {
    if q > 0 { ShorterChain(next, next(c), k - 1, q - 1); }
  }

  /** A file of k clusters, all in reach. */
  ghost predicate IsFile(l: Layout, next: Lookup, c: nat, k: nat) {
    l.size > 0 && k > 0 && ChainLong(next, c, k - 1) && forall q: nat | q < k :: l.ok(Advance(next, c, q))
  }

  /** A file of k clusters by the specification, all in reach. */
  ghost predicate IsSpecFile(l: Layout, next: Lookup, c: nat, k: nat) {
    l.size > 0 && k > 0 && SpecChainLong(next, c, k - 1) && forall q: nat | q < k :: l.ok(Iterate(next, c, q))
  }

  /** It is a file to the kernel exactly when none of its clusters behind the first is misread. */
  lemma SpecFileIsFileIff(l: Layout, next: Lookup, c: nat, k: nat)
    requires IsSpecFile(l, next, c, k)
    ensures IsFile(l, next, c, k) <==> forall i: nat | 1 <= i < k :: !MisreadAt(next, c, i)
  {
    SpecChainIsChainIff(next, c, k - 1);
    if ChainLong(next, c, k - 1) {
      forall q: nat | q < k ensures Advance(next, c, q) == Iterate(next, c, q) {
        ShorterChain(next, c, k - 1, q);
        ShorterSpecChain(next, c, k - 1, q);
        SpecChainIsChainIff(next, c, q);
      }
    }
  }

  lemma {:induction false} ShorterSpecChain(next: Lookup, c: nat, k: nat, q: nat)
    requires SpecChainLong(next, c, k) && q <= k
    ensures SpecChainLong(next, c, q)
    decreases q
  {
    if q > 0 { ShorterSpecChain(next, next(c), k - 1, q - 1); }
  }

  /** Bytes delivered from the expected sources are a slice of the file. */
  lemma ExpectedIsSlice(l: Layout, d: seq<byte>, next: Lookup, c: nat, k: nat, offset: nat, bytes: seq<byte>)
    requires IsFile(l, next, c, k) && offset + |bytes| <= k * l.size
    requires Delivers(l, d, bytes, Expected(next, l.size, c, offset, |bytes|))
    ensures |Contents(l, d, next, c, k)| == k * l.size
    ensures bytes == Contents(l, d, next, c, k)[offset..offset + |bytes|]
  {
    ContentsLength(l, d, next, c, k);
    var file := Contents(l, d, next, c, k);
    forall i | 0 <= i < |bytes| ensures bytes[i] == file[offset + i] {
      ByteOfFile(l, d, next, c, k, offset + i);
      var s := FileByte(next, l.size, c, offset + i);
      assert Expected(next, l.size, c, offset, |bytes|)[i] == s;
      assert DeliversByte(l, d, bytes[i], s);
    }
  }

  lemma ByteOfFile(l: Layout, d: seq<byte>, next: Lookup, c: nat, k: nat, p: nat)
    requires IsFile(l, next, c, k) && p < |Contents(l, d, next, c, k)|
    ensures var s := FileByte(next, l.size, c, p);
            l.ok(s.cluster) && Contents(l, d, next, c, k)[p] == ByteOf(d, l.at(s.cluster) + s.pos)
  {
    ContentsLength(l, d, next, c, k);
    QuotientBelow(l.size, k, p);
    ShorterChain(next, c, k - 1, p / l.size);
    ContentsAt(l, d, next, c, k, p / l.size, p % l.size, p);
  }

  lemma QuotientBelow(size: nat, k: nat, p: nat)
    requires size > 0 && p < k * size
    ensures p / size < k && p % size < size && p == p / size * size + p % size
  {
    Split(size, p);
    MulMonotone(k, p / size, size);
  }

  // ---- directory items ----

  /** A directory item as it lies on disk (section "FAT Directory Structure" of the FAT specification). */
  type Item = s: seq<byte> | |s| == ITEM witness seq(ITEM, _ => 0)

  function Pair(lo: byte, hi: byte): uint16 { lo as int + 0x100 * hi as int }

  function HighCluster(item: Item): uint16 { Pair(item[20], item[21]) }

  function LowCluster(item: Item): uint16 { Pair(item[26], item[27]) }

  function FileSize(item: Item): uint32 { Pair(item[28], item[29]) as int + 0x1_0000 * Pair(item[30], item[31]) as int }

  function WithLowCluster(item: Item, c: uint16): (r: Item)
    ensures LowCluster(r) == c && HighCluster(r) == HighCluster(item) && FileSize(r) == FileSize(item)
    ensures r[..26] == item[..26] && r[28..] == item[28..]
    ensures r[26] == c % 0x100 && r[27] == c / 0x100
  {
    item[26 := c % 0x100][27 := c / 0x100]
  }

  /** The two halves of an item's cluster number have their bytes at offsets 20 and 26, the low ones first. */
  lemma ClusterBytes(item: Item)
    ensures HighCluster(item) % 0x100 == item[20] && HighCluster(item) / 0x100 == item[21]
    ensures LowCluster(item) % 0x100 == item[26] && LowCluster(item) / 0x100 == item[27]
  {
    PairBytes(item[20], item[21]);
    PairBytes(item[26], item[27]);
  }

  lemma PairBytes(lo: byte, hi: byte)
    ensures Pair(lo, hi) % 0x100 == lo && Pair(lo, hi) / 0x100 == hi
  {
  }

  /** The file size has its bytes at offset 28, the lowest first. */
  lemma SizeBytes(item: Item)
    ensures FileSize(item) % 0x100 == item[28] && FileSize(item) / 0x100 % 0x100 == item[29]
    ensures FileSize(item) / 0x1_0000 % 0x100 == item[30] && FileSize(item) / 0x100_0000 == item[31]
  {
    PairBytes(item[28], item[29]);
    PairBytes(item[30], item[31]);
    Words(Pair(item[28], item[29]), Pair(item[30], item[31]));
  }

  lemma Words(lo: uint16, hi: uint16)
    ensures var n: int := lo as int + 0x1_0000 * hi as int;
            n % 0x100 == lo % 0x100 && n / 0x100 % 0x100 == lo / 0x100 && n / 0x1_0000 % 0x100 == hi % 0x100 && n / 0x100_0000 == hi / 0x100
  {
  }

  /** The lowest free cluster at or above `from`; 0x10000 when there is none. */
  function LowestFree(v: Volume, d: seq<byte>, from: nat): nat
    decreases 0x1_0000 - from
  {
    if from >= 0x1_0000 then 0x1_0000
    else if FatEntry(v, d, from) == 0 then from
    else LowestFree(v, d, from + 1)
  }

  predicate IsLowestFree(v: Volume, d: seq<byte>, from: nat, c: nat) {
    from <= c < 0x1_0000 && FatEntry(v, d, c) == 0 && forall k | from <= k < c :: FatEntry(v, d, k) != 0
  }

  /** The search finds a cluster exactly when there is a free one, and then the lowest. */
  lemma {:induction false} LowestFreeIsLowest(v: Volume, d: seq<byte>, from: nat, c: nat)
    requires c < 0x1_0000
    ensures LowestFree(v, d, from) == c <==> IsLowestFree(v, d, from, c)
    decreases 0x1_0000 - from
  {
    if from < 0x1_0000 && FatEntry(v, d, from) != 0 {
      LowestFreeIsLowest(v, d, from + 1, c);
    }
  }

  /** fat16_end_cluster */
  function EndCluster(v: Volume): uint16 { U16(U32(v.bigSectors * SECTOR) / v.ClusterSize() + 2) }

  /** Unless its arithmetic wraps, it is the first cluster that does not end within as many sectors as the volume has. */
  lemma EndClusterIff(v: Volume, c: nat)
    requires v.bigSectors < 0x80_0000 && v.bigSectors / v.sectorsPerCluster < 0xFFFE && c >= 2
    ensures c < EndCluster(v) <==> (c - 1) * v.sectorsPerCluster <= v.bigSectors
  {
    var n, spc: nat := v.bigSectors, v.sectorsPerCluster;
    SameRatio(n, spc);
    Split(spc, n);
    MulMonotone(c - 1, n / spc, spc);
    MulMonotone(n / spc + 1, c - 1, spc);
    assert (n / spc + 1) * spc == n / spc * spc + spc;
  }

  lemma SameRatio(n: nat, spc: nat)
    requires spc > 0
    ensures n * SECTOR / (spc * SECTOR) == n / spc >= 0
  {
    Split(spc, n);
    QuotientIsNat(n, spc);
    var q, r := n / spc, n % spc;
    assert n * SECTOR == q * (spc * SECTOR) + r * SECTOR;
    DivMod(spc * SECTOR, q, r * SECTOR);
  }

  lemma KernelVolumeEnd()
    ensures EndCluster(KERNEL_VOLUME) == 61037
  {
  }

  // A directory is a row of 32-byte slots from byte `root` of the disk on.

  /** Slot k, as bytes. */
  function Slot(d: seq<byte>, root: nat, k: nat): seq<byte> { Slice(d, root + ITEM * k, ITEM) }

  /** `count` entries followed by end markers, in `slots` slots that lie on the disk. */
  ghost predicate HasEntries(d: seq<byte>, root: nat, slots: nat, count: nat) {
    && root + ITEM * slots <= |d| && count <= slots
    && (forall k | 0 <= k < count :: Slot(d, root, k)[0] != 0)
    && (forall k | count <= k < slots :: Slot(d, root, k)[0] == 0)
  }

  /** The disk with an entry in slot k, and as much of the data behind the directory as a write gets there. */
  function PutEntry(d: seq<byte>, root: nat, k: nat, entry: seq<byte>, at: nat, data: seq<byte>): seq<byte> {
    WriteBytes(Overlay(d, root + ITEM * k, entry), at, data)
  }

  /** The first n bytes are the same. */
  ghost predicate SameFront(d: seq<byte>, d': seq<byte>, n: nat) {
    forall p | 0 <= p < n :: ByteOf(d', p) == ByteOf(d, p)
  }

  lemma SameSlice(d: seq<byte>, d': seq<byte>, pos: nat, n: nat)
    requires forall p | pos <= p < pos + n :: ByteOf(d', p) == ByteOf(d, p)
    ensures Slice(d', pos, n) == Slice(d, pos, n)
  {
  }

  lemma SliceIs(d: seq<byte>, pos: nat, data: seq<byte>)
    requires forall p | pos <= p < pos + |data| :: ByteOf(d, p) == data[p - pos]
    ensures Slice(d, pos, |data|) == data
  {
  }

  lemma PutEntryBytes(d: seq<byte>, root: nat, slots: nat, k: nat, entry: seq<byte>, at: nat, data: seq<byte>)
    requires k < slots && root + ITEM * slots <= at && root + ITEM * slots <= |d| && |entry| == ITEM
    ensures var d' := PutEntry(d, root, k, entry, at, data);
            |d'| == |d| && forall p | 0 <= p < |d| ::
              ByteOf(d', p) == if Lands(at, |data|, p) then data[p - at]
                               else if root + ITEM * k <= p < root + ITEM * k + ITEM then entry[p - (root + ITEM * k)]
                               else ByteOf(d, p)
  {
  }

  lemma PutEntryLeaves(d: seq<byte>, root: nat, slots: nat, k: nat, entry: seq<byte>, at: nat, data: seq<byte>)
    requires k < slots && root + ITEM * slots <= at && root + ITEM * slots <= |d| && |entry| == ITEM
    ensures var d' := PutEntry(d, root, k, entry, at, data);
            && |d'| == |d| && Slot(d', root, k) == entry
            && (forall j | 0 <= j < slots && j != k :: Slot(d', root, j) == Slot(d, root, j))
            && SameFront(d, d', root + ITEM * k)
            && (Covers(at, |data|) && at + |data| <= |d| ==> Slice(d', at, |data|) == data)
  {
    var d' := PutEntry(d, root, k, entry, at, data);
    PutEntryBytes(d, root, slots, k, entry, at, data);
    SliceIs(d', root + ITEM * k, entry);
    forall j | 0 <= j < slots && j != k ensures Slot(d', root, j) == Slot(d, root, j) {
      SameSlice(d, d', root + ITEM * j, ITEM);
    }
    if Covers(at, |data|) && at + |data| <= |d| { SliceIs(d', at, data); }
  }

  /** An entry and the data that goes with it. */
  datatype Placement = Placement(entry: seq<byte>, at: nat, data: seq<byte>)

  /** d' is d with the placement made at the old end marker, slot k; the data goes behind the directory. */
  ghost predicate Placed(d: seq<byte>, d': seq<byte>, root: nat, slots: nat, k: nat, p: Placement) {
    && |p.entry| == ITEM && p.entry[0] != 0 && k < slots && root + ITEM * slots <= p.at
    && d' == PutEntry(d, root, k, p.entry, p.at, p.data)
  }

  /** Filling the slot of the old end marker appends one entry and keeps all others. */
  lemma PlacedAppends(d: seq<byte>, d': seq<byte>, root: nat, slots: nat, k: nat, p: Placement)
    requires HasEntries(d, root, slots, k) && Placed(d, d', root, slots, k, p)
    ensures HasEntries(d', root, slots, k + 1) && |d'| == |d| && Slot(d', root, k) == p.entry
    ensures SameFront(d, d', root + ITEM * k)
    ensures forall j | 0 <= j < slots && j != k :: Slot(d', root, j) == Slot(d, root, j)
    ensures Covers(p.at, |p.data|) && p.at + |p.data| <= |d| ==> Slice(d', p.at, |p.data|) == p.data
  {
    PutEntryLeaves(d, root, slots, k, p.entry, p.at, p.data);
  }

  /** A run of placements; ds are the disks before and after each. */
  ghost predicate PlacedRun(ds: seq<seq<byte>>, root: nat, slots: nat, count: nat, ps: seq<Placement>) {
    |ds| == |ps| + 1 && forall i: nat | i < |ps| :: Placed(ds[i], ds[i + 1], root, slots, count + i, ps[i])
  }

  /** Slots from `count` on hold the first n entries of the run. */
  ghost predicate HoldsEntries(d: seq<byte>, root: nat, count: nat, ps: seq<Placement>, n: nat)
    requires n <= |ps|
  {
    forall i: nat | i < n :: Slot(d, root, count + i) == ps[i].entry
  }

  lemma HoldsOneMore(d: seq<byte>, d': seq<byte>, root: nat, count: nat, ps: seq<Placement>, n: nat)
    requires n < |ps| && HoldsEntries(d, root, count, ps, n)
    requires SameFront(d, d', root + ITEM * (count + n)) && Slot(d', root, count + n) == ps[n].entry
    ensures HoldsEntries(d', root, count, ps, n + 1)
  {
    forall i: nat | i < n ensures Slot(d', root, count + i) == ps[i].entry {
      SameSlice(d, d', root + ITEM * (count + i), ITEM);
    }
  }

  lemma {:induction false} PlacedRunAppends(ds: seq<seq<byte>>, root: nat, slots: nat, count: nat, ps: seq<Placement>, n: nat)
    requires PlacedRun(ds, root, slots, count, ps) && HasEntries(ds[0], root, slots, count) && n <= |ps|
    ensures HasEntries(ds[n], root, slots, count + n) && |ds[n]| == |ds[0]|
    ensures SameFront(ds[0], ds[n], root + ITEM * count)
    ensures HoldsEntries(ds[n], root, count, ps, n)
  {
    if n > 0 {
      PlacedRunAppends(ds, root, slots, count, ps, n - 1);
      assert Placed(ds[n - 1], ds[n - 1 + 1], root, slots, count + (n - 1), ps[n - 1]);
      PlacedOneMore(ds[0], ds[n - 1], ds[n], root, slots, count, ps, n - 1);
    }
  }

  lemma PlacedOneMore(d0: seq<byte>, d: seq<byte>, d': seq<byte>, root: nat, slots: nat, count: nat, ps: seq<Placement>, n: nat)
    requires n < |ps| && HasEntries(d, root, slots, count + n) && Placed(d, d', root, slots, count + n, ps[n])
    requires SameFront(d0, d, root + ITEM * count) && HoldsEntries(d, root, count, ps, n)
    ensures HasEntries(d', root, slots, count + n + 1) && |d'| == |d|
    ensures SameFront(d0, d', root + ITEM * count) && HoldsEntries(d', root, count, ps, n + 1)
  {
    PlacedAppends(d, d', root, slots, count + n, ps[n]);
    HoldsOneMore(d, d', root, count, ps, n);
  }

  /** Where the root directory starts. */
  function Root(v: Volume): nat { v.RootSector() * SECTOR }

  /** Where that is in the header's numbers: behind every copy of the FAT, and so is every slot. */
  lemma SlotsClearFats(v: Volume, i: nat, k: nat)
    requires i < v.fatCopies
    ensures Root(v) == (v.reservedSectors + v.fatCopies * v.sectorsPerFat) * 512
    ensures (v.reservedSectors + (i + 1) * v.sectorsPerFat) * 512 <= Root(v) + ITEM * k
  {
    RootFollowsFats(v, i);
  }

  /** A root directory in whole sectors, where the cursor reaches it. */
  ghost predicate HasDirectory(v: Volume, d: seq<byte>, count: nat) {
    v.RootSize() % SECTOR == 0 && Root(v) + ITEM * v.rootEntries < 0x1_0000_0000 && HasEntries(d, Root(v), v.rootEntries, count)
  }

  /** A file to be written for the first time: an item that has no cluster yet, and data of any length. */
  datatype NewFile = NewFile(item: Item, data: seq<byte>) {
    predicate IsNew() { item[0] != 0 && LowCluster(item) == 0 }
  }

  /** The search for a free cluster succeeds and the directory has a slot left. */
  predicate HasRoom(v: Volume, d: seq<byte>, count: nat) {
    var c := LowestFree(v, d, 3);
    count < v.rootEntries && c < 0x1_0000 && c <= EndCluster(v) && v.Reaches(c)
  }

  /** The disk after the first fat16_write of a new file: its entry, then its data. */
  function FirstWrite(v: Volume, d: seq<byte>, count: nat, f: NewFile): seq<byte>
    requires HasRoom(v, d, count)
  {
    var c := LowestFree(v, d, 3);
    WriteBytes(WriteBytes(d, Root(v) + ITEM * count, WithLowCluster(f.item, c)), v.ClusterPos(c), f.data)
  }

  lemma EntryCovered(sector: nat, k: nat)
    ensures Covers(sector * SECTOR + ITEM * k, ITEM)
  {
    assert sector * SECTOR + ITEM * k == 32 * (sector * 16 + k);
    EntriesAreCovered(sector * 16 + k);
  }

  /** Data at a cluster gets to the disk in full exactly up to 255 sectors. */
  lemma DataCovered(v: Volume, c: nat, n: nat)
    ensures n > 0 ==> (Covers(v.ClusterPos(c), n) <==> n <= 255 * SECTOR)
  {
    ClusterPosAligned(v.ClusterSector(c));
    if n > 0 { SectorsAreCoveredIff(v.ClusterPos(c), n); }
  }

  lemma ClusterCovered(v: Volume, c: nat, n: nat)
    requires 0 < n <= v.ClusterSize()
    ensures Covers(v.ClusterPos(c), n)
  {
    ClusterPosAligned(v.ClusterSector(c));
    SectorsAreCoveredIff(v.ClusterPos(c), n);
  }

  lemma ClusterPosAligned(sector: nat)
    ensures U32(sector * SECTOR) % SECTOR == 0
  {
    WrapKeepsInSector(sector * SECTOR);
  }

  lemma CoveredWrite(d: seq<byte>, pos: nat, data: seq<byte>)
    requires Covers(pos, |data|)
    ensures WriteBytes(d, pos, data) == Overlay(d, pos, data)
  {
  }

  lemma FirstWriteIsPutEntry(v: Volume, d: seq<byte>, count: nat, f: NewFile)
    requires HasRoom(v, d, count)
    ensures var c := LowestFree(v, d, 3);
            FirstWrite(v, d, count, f) == PutEntry(d, Root(v), count, WithLowCluster(f.item, c), v.ClusterPos(c), f.data)
  {
    EntryCovered(v.RootSector(), count);
    CoveredWrite(d, Root(v) + ITEM * count, WithLowCluster(f.item, LowestFree(v, d, 3)));
  }

  lemma ClusterBehindRoot(v: Volume, c: nat)
    requires v.Reaches(c) && v.RootSize() % SECTOR == 0
    ensures Root(v) + ITEM * v.rootEntries <= v.ClusterPos(c)
  {
    ClusterPosInReach(v, c);
    MulMonotone(0, c - 2, v.sectorsPerCluster);
    WholeSectors(v.RootSector(), v.RootSize(), (c - 2) * v.sectorsPerCluster);
  }

  lemma WholeSectors(sector: nat, size: nat, k: nat)
    requires size % SECTOR == 0
    ensures sector * SECTOR + size <= (sector + size / SECTOR + k) * SECTOR
  {
  }

  /** What the first write of a new file puts where. */
  function PlacementOf(v: Volume, d: seq<byte>, f: NewFile): Placement {
    var c := LowestFree(v, d, 3);
    Placement(WithLowCluster(f.item, U16(c)), v.ClusterPos(c), f.data)
  }

  /** The first write of a new file appends its entry and puts its data behind the directory. */
  lemma FirstWriteIsPlaced(v: Volume, d: seq<byte>, count: nat, f: NewFile)
    requires v.RootSize() % SECTOR == 0 && HasRoom(v, d, count) && f.IsNew()
    ensures Placed(d, FirstWrite(v, d, count, f), Root(v), v.rootEntries, count, PlacementOf(v, d, f))
  {
    FirstWriteIsPutEntry(v, d, count, f);
    ClusterBehindRoot(v, LowestFree(v, d, 3));
    FirstByteStays(f.item, LowestFree(v, d, 3));
  }

  lemma FirstByteStays(item: Item, c: nat)
    requires c < 0x1_0000
    ensures U16(c) == c && WithLowCluster(item, c)[0] == item[0]
  {
    assert WithLowCluster(item, c)[..26][0] == item[..26][0];
  }

  /**
   The first write of a new file, whatever its length and also where the transfer is refused, takes
   the lowest free cluster at or above 3 and appends one entry at the old end marker; every other
   entry and everything in front of it stays.
   */
  lemma FirstWriteAppends(v: Volume, d: seq<byte>, count: nat, f: NewFile)
    requires HasDirectory(v, d, count) && HasRoom(v, d, count) && f.IsNew()
    ensures var c, d' := LowestFree(v, d, 3), FirstWrite(v, d, count, f);
            && IsLowestFree(v, d, 3, c)
            && HasDirectory(v, d', count + 1) && |d'| == |d|
            && Slot(d', Root(v), count) == WithLowCluster(f.item, U16(c))
            && (forall k | 0 <= k < v.rootEntries && k != count :: Slot(d', Root(v), k) == Slot(d, Root(v), k))
            && SameFront(d, d', Root(v) + ITEM * count)
            && (|f.data| <= 255 * SECTOR && v.ClusterPos(c) + |f.data| <= |d| ==> Slice(d', v.ClusterPos(c), |f.data|) == f.data)
  {
    LowestFreeIsLowest(v, d, 3, LowestFree(v, d, 3));
    FirstWriteIsPlaced(v, d, count, f);
    DataCovered(v, LowestFree(v, d, 3), |f.data|);
    PlacedAppends(d, FirstWrite(v, d, count, f), Root(v), v.rootEntries, count, PlacementOf(v, d, f));
  }

  /** A run of first writes of new files, each of which finds room; ds are the disks before and after each. */
  ghost predicate WriteRun(v: Volume, ds: seq<seq<byte>>, count: nat, files: seq<NewFile>) {
    |ds| == |files| + 1 && forall i: nat | i < |files| :: WriteStep(v, ds[i], ds[i + 1], count + i, files[i])
  }

  ghost predicate WriteStep(v: Volume, d: seq<byte>, d': seq<byte>, count: nat, f: NewFile) {
    f.IsNew() && HasRoom(v, d, count) && d' == FirstWrite(v, d, count, f)
  }

  function Placements(v: Volume, ds: seq<seq<byte>>, files: seq<NewFile>): seq<Placement>
    requires |ds| >= |files|
  {
    seq(|files|, i requires 0 <= i < |files| => PlacementOf(v, ds[i], files[i]))
  }

  lemma RunIsPlaced(v: Volume, ds: seq<seq<byte>>, count: nat, files: seq<NewFile>)
    requires WriteRun(v, ds, count, files) && v.RootSize() % SECTOR == 0
    ensures PlacedRun(ds, Root(v), v.rootEntries, count, Placements(v, ds, files))
  {
    var ps := Placements(v, ds, files);
    forall i: nat | i < |ps| ensures Placed(ds[i], ds[i + 1], Root(v), v.rootEntries, count + i, ps[i]) {
      assert WriteStep(v, ds[i], ds[i + 1], count + i, files[i]);
      FirstWriteIsPlaced(v, ds[i], count + i, files[i]);
    }
  }

  /**
   Every run of first writes keeps the directory in order: nothing changes in front of the old end
   marker, so a directory cached before the run is a prefix of the one on disk after it; and the
   new files' entries follow in order.
   */
  lemma RunKeepsDirectory(v: Volume, ds: seq<seq<byte>>, count: nat, files: seq<NewFile>, n: nat)
    requires WriteRun(v, ds, count, files) && HasDirectory(v, ds[0], count) && n <= |files|
    ensures HasDirectory(v, ds[n], count + n) && |ds[n]| == |ds[0]|
    ensures SameFront(ds[0], ds[n], Root(v) + ITEM * count)
    ensures HoldsEntries(ds[n], Root(v), count, Placements(v, ds, files), n)
  {
    RunIsPlaced(v, ds, count, files);
    PlacedRunAppends(ds, Root(v), v.rootEntries, count, Placements(v, ds, files), n);
  }

  /**
   What the stream read into the cache at mount time, all of a directory of up to 255 sectors, stays
   the front part of the directory on disk through every run.
   */
  lemma CacheStaysPrefix(v: Volume, ds: seq<seq<byte>>, count: nat, files: seq<NewFile>, n: nat, cache: seq<byte>, stale: seq<byte>)
    requires WriteRun(v, ds, count, files) && HasDirectory(v, ds[0], count) && n <= |files|
    requires |stale| == v.RootSize() && cache == ReadBytes(ds[0], Root(v), v.RootSize(), stale)
    ensures HasDirectory(v, ds[n], count + n)
    ensures var m := Min(ITEM * count, Filled(v.RootSize())); 0 <= m <= |cache| && cache[..m] == Slice(ds[n], Root(v), m)
    ensures v.RootSize() <= 255 * SECTOR ==> v.RootSize() <= Filled(v.RootSize())
  {
    RunKeepsDirectory(v, ds, count, files, n);
    var m := Min(ITEM * count, Filled(v.RootSize()));
    SameSlice(ds[0], ds[n], Root(v), m);
    CachedFront(v, ds[0], m, stale);
    if 0 < v.RootSize() <= 255 * SECTOR { SectorsReach(v.RootSize()); }
  }

  lemma CachedFront(v: Volume, d: seq<byte>, m: nat, stale: seq<byte>)
    requires |stale| == v.RootSize() && m <= v.RootSize() && m <= Filled(v.RootSize())
    ensures ReadBytes(d, Root(v), v.RootSize(), stale)[..m] == Slice(d, Root(v), m)
  {
    AlignedPlus(v.RootSector(), 0);
    forall i | 0 <= i < m ensures ReadByte(d, Root(v), v.RootSize(), stale, i) == ByteOf(d, Root(v) + i) {
    }
  }

  /** A cached slot is the one on disk, whatever lay in memory, exactly when the sectors moved hold it. */
  lemma CachedSlotIff(v: Volume, d: seq<byte>, j: nat)
    requires j < v.rootEntries
    ensures ITEM * j + ITEM <= Filled(v.RootSize()) <==>
            forall stale: seq<byte> | |stale| == v.RootSize() ::
              ReadBytes(d, Root(v), v.RootSize(), stale)[ITEM * j..ITEM * j + ITEM] == Slot(d, Root(v), j)
  {
    AlignedPlus(v.RootSector(), 0);
    if ITEM * j + ITEM <= Filled(v.RootSize()) {
      forall stale: seq<byte> | |stale| == v.RootSize()
        ensures ReadBytes(d, Root(v), v.RootSize(), stale)[ITEM * j..ITEM * j + ITEM] == Slot(d, Root(v), j)
      {
        CachedSlot(v, d, j, stale);
      }
    } else {
      var stale := Constant(v.RootSize(), if ByteOf(d, Root(v) + ITEM * j) == 0 then 1 else 0);
      assert ITEM * j >= Filled(v.RootSize());
      assert ReadBytes(d, Root(v), v.RootSize(), stale)[ITEM * j..ITEM * j + ITEM][0] == stale[ITEM * j];
      assert Slot(d, Root(v), j)[0] == ByteOf(d, Root(v) + ITEM * j);
    }
  }

  lemma CachedSlot(v: Volume, d: seq<byte>, j: nat, stale: seq<byte>)
    requires j < v.rootEntries && |stale| == v.RootSize() && ITEM * j + ITEM <= Filled(v.RootSize())
    ensures ReadBytes(d, Root(v), v.RootSize(), stale)[ITEM * j..ITEM * j + ITEM] == Slot(d, Root(v), j)
  {
    AlignedPlus(v.RootSector(), 0);
    var slot := ReadBytes(d, Root(v), v.RootSize(), stale)[ITEM * j..ITEM * j + ITEM];
    forall i | 0 <= i < ITEM ensures slot[i] == ByteOf(d, Root(v) + ITEM * j + i) {
      assert slot[i] == ReadByte(d, Root(v), v.RootSize(), stale, ITEM * j + i);
    }
  }

  /** The lookups for the clusters up to c all read in front of the root directory. */
  ghost predicate LookupsInFront(v: Volume, c: nat) {
    forall k | 3 <= k <= c :: v.LookupPos(k) + 1 < Root(v)
  }

  lemma {:induction false} SameLookups(v: Volume, d: seq<byte>, d': seq<byte>, from: nat, c: nat)
    requires 3 <= from && c == LowestFree(v, d, from) < 0x1_0000 && LookupsInFront(v, c)
    requires SameFront(d, d', Root(v))
    ensures LowestFree(v, d', from) == c
    decreases 0x1_0000 - from
  {
    LowestFreeIsLowest(v, d, from, c);
    SameEntry(v, d, d', from);
    if FatEntry(v, d, from) != 0 { SameLookups(v, d, d', from + 1, c); }
  }

  lemma SameEntry(v: Volume, d: seq<byte>, d': seq<byte>, k: nat)
    requires v.LookupPos(k) + 1 < Root(v) && SameFront(d, d', Root(v))
    ensures FatEntry(v, d', k) == FatEntry(v, d, k)
  {
  }

  /**
   No first write marks its cluster as taken: when the lookups lie in front of the directory, all
   files of a run are given the same cluster, and the last one's data is what it holds.
   */
  lemma RunSharesCluster(v: Volume, ds: seq<seq<byte>>, count: nat, files: seq<NewFile>, n: nat)
    requires WriteRun(v, ds, count, files) && HasDirectory(v, ds[0], count) && n < |files|
    requires LookupsInFront(v, LowestFree(v, ds[0], 3))
    ensures var p := Placements(v, ds, files)[n];
            && LowestFree(v, ds[n], 3) == LowestFree(v, ds[0], 3)
            && p.at == v.ClusterPos(LowestFree(v, ds[0], 3)) && p.data == files[n].data
            && (|p.data| <= 255 * SECTOR && p.at + |p.data| <= |ds[0]| ==> Slice(ds[n + 1], p.at, |p.data|) == files[n].data)
  {
    RunKeepsDirectory(v, ds, count, files, n);
    RunFreeCluster(v, ds, count, files, n);
    RunHoldsData(v, ds, count, files, n);
  }

  lemma RunHoldsData(v: Volume, ds: seq<seq<byte>>, count: nat, files: seq<NewFile>, n: nat)
    requires WriteRun(v, ds, count, files) && n < |files| && HasDirectory(v, ds[n], count + n)
    ensures var p := Placements(v, ds, files)[n];
            |p.data| <= 255 * SECTOR && p.at + |p.data| <= |ds[n]| ==> Slice(ds[n + 1], p.at, |p.data|) == p.data
  {
    RunIsPlaced(v, ds, count, files);
    var p := Placements(v, ds, files)[n];
    DataCovered(v, LowestFree(v, ds[n], 3), |p.data|);
    assert Placed(ds[n], ds[n + 1], Root(v), v.rootEntries, count + n, p);
    PlacedAppends(ds[n], ds[n + 1], Root(v), v.rootEntries, count + n, p);
  }

  lemma RunFreeCluster(v: Volume, ds: seq<seq<byte>>, count: nat, files: seq<NewFile>, n: nat)
    requires WriteRun(v, ds, count, files) && n < |files| && LookupsInFront(v, LowestFree(v, ds[0], 3))
    requires SameFront(ds[0], ds[n], Root(v))
    ensures LowestFree(v, ds[n], 3) == LowestFree(v, ds[0], 3)
  {
    assert WriteStep(v, ds[0], ds[0 + 1], count + 0, files[0]);
    SameLookups(v, ds[0], ds[n], 3, LowestFree(v, ds[0], 3));
  }

  // ---- which cluster the next new file gets ----

  /** Byte p of the disk once an entry and data have been put on it. */
  function ByteAfter(d: seq<byte>, slot: nat, entry: Item, at: nat, data: seq<byte>, p: nat): byte {
    if p >= |d| then 0
    else if Lands(at, |data|, p) then data[p - at]
    else if slot <= p < slot + ITEM then entry[p - slot]
    else d[p]
  }

  function PairAfter(d: seq<byte>, slot: nat, p: Placement, b: nat): uint16
    requires |p.entry| == ITEM
  {
    ByteAfter(d, slot, p.entry, p.at, p.data, b) + 0x100 * ByteAfter(d, slot, p.entry, p.at, p.data, b + 1)
  }

  /** One of the two bytes at b lies in the n bytes at `at`. */
  predicate Meets(b: nat, at: nat, n: nat) { at <= b + 1 && b < at + n }

  /** The new entry and the new data change whether the pair at b is zero. */
  predicate Disturbs(d: seq<byte>, slot: nat, p: Placement, b: nat)
    requires |p.entry| == ITEM
  {
    PairAfter(d, slot, p, b) == 0 <==> PairAt(d, b) != 0
  }

  /** For that the pair must lie in one of them. */
  lemma DisturbedIsMet(d: seq<byte>, slot: nat, p: Placement, b: nat)
    requires |p.entry| == ITEM && Disturbs(d, slot, p, b)
    ensures Meets(b, slot, ITEM) || Meets(b, p.at, |p.data|)
  {
  }

  lemma DisturbsIff(d: seq<byte>, d': seq<byte>, root: nat, slots: nat, k: nat, p: Placement, b: nat)
    requires HasEntries(d, root, slots, k) && Placed(d, d', root, slots, k, p)
    ensures Disturbs(d, root + ITEM * k, p, b) <==> (PairAt(d', b) == 0 <==> PairAt(d, b) != 0)
  {
    PutEntryBytes(d, root, slots, k, p.entry, p.at, p.data);
    assert forall q | q in {b, b + 1} :: ByteOf(d', q) == ByteAfter(d, root + ITEM * k, p.entry, p.at, p.data, q);
  }

  /** The placement in slot `count` disturbs no lookup up to that of cluster c. */
  ghost predicate LeavesLookups(v: Volume, d: seq<byte>, count: nat, p: Placement, c: nat)
    requires |p.entry| == ITEM
  {
    forall k: nat | 3 <= k <= c :: !DisturbsLookup(v, d, count, p, k)
  }

  /** It disturbs the lookup of cluster k. */
  predicate DisturbsLookup(v: Volume, d: seq<byte>, count: nat, p: Placement, k: nat)
    requires |p.entry| == ITEM
  {
    Disturbs(d, Root(v) + ITEM * count, p, v.LookupPos(k))
  }

  /** The next new file gets the same cluster exactly when the first write changes no lookup up to that cluster. */
  lemma SharesClusterIff(v: Volume, d: seq<byte>, count: nat, f: NewFile)
    requires HasDirectory(v, d, count) && HasRoom(v, d, count) && f.IsNew()
    ensures var c := LowestFree(v, d, 3);
            LowestFree(v, FirstWrite(v, d, count, f), 3) == c <==> LeavesLookups(v, d, count, PlacementOf(v, d, f), c)
  {
    FirstWriteIsPlaced(v, d, count, f);
    PlacedSharesIff(v, d, FirstWrite(v, d, count, f), count, PlacementOf(v, d, f));
  }

  lemma PlacedSharesIff(v: Volume, d: seq<byte>, d': seq<byte>, count: nat, p: Placement)
    requires HasEntries(d, Root(v), v.rootEntries, count) && Placed(d, d', Root(v), v.rootEntries, count, p)
    requires LowestFree(v, d, 3) < 0x1_0000
    ensures LowestFree(v, d', 3) == LowestFree(v, d, 3) <==> LeavesLookups(v, d, count, p, LowestFree(v, d, 3))
  {
    LeavesUpToIff(v, d, d', count, p, LowestFree(v, d, 3), LowestFree(v, d', 3));
  }

  lemma LeavesUpToIff(v: Volume, d: seq<byte>, d': seq<byte>, count: nat, p: Placement, c: nat, c': nat)
    requires HasEntries(d, Root(v), v.rootEntries, count) && Placed(d, d', Root(v), v.rootEntries, count, p)
    requires LowestFree(v, d, 3) == c < 0x1_0000 && c' == LowestFree(v, d', 3)
    ensures c' == c <==> LeavesLookups(v, d, count, p, c)
  {
    forall k: nat ensures DisturbsLookup(v, d, count, p, k) <==> (FatEntry(v, d', k) == 0 <==> FatEntry(v, d, k) != 0) {
      DisturbsLookupIff(v, d, d', count, p, k);
    }
    SameLowestIff(v, d, d', c);
  }

  lemma DisturbsLookupIff(v: Volume, d: seq<byte>, d': seq<byte>, count: nat, p: Placement, k: nat)
    requires HasEntries(d, Root(v), v.rootEntries, count) && Placed(d, d', Root(v), v.rootEntries, count, p)
    ensures DisturbsLookup(v, d, count, p, k) <==> (FatEntry(v, d', k) == 0 <==> FatEntry(v, d, k) != 0)
  {
    DisturbsIff(d, d', Root(v), v.rootEntries, count, p, v.LookupPos(k));
  }

  lemma SameLowestIff(v: Volume, d: seq<byte>, d': seq<byte>, c: nat)
    requires LowestFree(v, d, 3) == c < 0x1_0000
    ensures LowestFree(v, d', 3) == c <==> forall k | 3 <= k <= c :: FatEntry(v, d', k) == 0 <==> FatEntry(v, d, k) == 0
  {
    LowestFreeIsLowest(v, d, 3, c);
    LowestFreeIsLowest(v, d', 3, c);
  }

  /** All files of a run share one cluster exactly when no write of it disturbs the lookups. */
  lemma RunSharesClusterIff(v: Volume, ds: seq<seq<byte>>, count: nat, files: seq<NewFile>)
    requires WriteRun(v, ds, count, files) && HasDirectory(v, ds[0], count)
    ensures var ps := Placements(v, ds, files);
            (forall i: nat | i <= |files| :: LowestFree(v, ds[i], 3) == LowestFree(v, ds[0], 3)) <==>
            forall i: nat | i < |files| :: StepLeavesLookups(v, ds, count, ps, i)
  {
    RunIsPlaced(v, ds, count, files);
    RunFindsRoom(v, ds, count, files);
    PlacedRunSharesIff(v, ds, count, Placements(v, ds, files), |files|);
  }

  lemma RunFindsRoom(v: Volume, ds: seq<seq<byte>>, count: nat, files: seq<NewFile>)
    requires WriteRun(v, ds, count, files)
    ensures forall i: nat | i < |files| :: LowestFree(v, ds[i], 3) < 0x1_0000
  {
    forall i: nat | i < |files| ensures LowestFree(v, ds[i], 3) < 0x1_0000 {
      assert WriteStep(v, ds[i], ds[i + 1], count + i, files[i]);
    }
  }

  lemma {:induction false} PlacedRunSharesIff(v: Volume, ds: seq<seq<byte>>, count: nat, ps: seq<Placement>, n: nat)
    requires PlacedRun(ds, Root(v), v.rootEntries, count, ps) && HasEntries(ds[0], Root(v), v.rootEntries, count)
    requires n <= |ps| && forall i: nat | i < |ps| :: LowestFree(v, ds[i], 3) < 0x1_0000
    ensures (forall i: nat | i <= n :: LowestFree(v, ds[i], 3) == LowestFree(v, ds[0], 3)) <==>
            forall i: nat | i < n :: StepLeavesLookups(v, ds, count, ps, i)
  {
    if n > 0 {
      PlacedRunSharesIff(v, ds, count, ps, n - 1);
      PlacedStepSharesIff(v, ds, count, ps, n - 1);
    }
  }

  ghost predicate StepLeavesLookups(v: Volume, ds: seq<seq<byte>>, count: nat, ps: seq<Placement>, i: nat)
    requires i < |ps| && i < |ds|
  {
    |ps[i].entry| == ITEM && LeavesLookups(v, ds[i], count + i, ps[i], LowestFree(v, ds[i], 3))
  }

  lemma PlacedStepSharesIff(v: Volume, ds: seq<seq<byte>>, count: nat, ps: seq<Placement>, i: nat)
    requires PlacedRun(ds, Root(v), v.rootEntries, count, ps) && HasEntries(ds[0], Root(v), v.rootEntries, count)
    requires i < |ps| && LowestFree(v, ds[i], 3) < 0x1_0000
    ensures LowestFree(v, ds[i + 1], 3) == LowestFree(v, ds[i], 3) <==> StepLeavesLookups(v, ds, count, ps, i)
  {
    PlacedRunAppends(ds, Root(v), v.rootEntries, count, ps, i);
    assert Placed(ds[i], ds[i + 1], Root(v), v.rootEntries, count + i, ps[i]);
    PlacedSharesIff(v, ds[i], ds[i + 1], count + i, ps[i]);
  }

  /** Where the new entry lands on the very lookup of its cluster, the next new file gets another one. */
  lemma EntryHidesCluster(v: Volume, d: seq<byte>, count: nat, f: NewFile)
    requires HasDirectory(v, d, count) && HasRoom(v, d, count) && f.IsNew()
    requires v.LookupPos(LowestFree(v, d, 3)) == Root(v) + ITEM * count
    ensures LowestFree(v, FirstWrite(v, d, count, f), 3) != LowestFree(v, d, 3)
  {
    var c := LowestFree(v, d, 3);
    FirstWriteIsPlaced(v, d, count, f);
    LowestFreeIsLowest(v, d, 3, c);
    EntryDisturbs(d, Root(v) + ITEM * count, PlacementOf(v, d, f));
    assert DisturbsLookup(v, d, count, PlacementOf(v, d, f), c);
    SharesClusterIff(v, d, count, f);
  }

  lemma EntryDisturbs(d: seq<byte>, slot: nat, p: Placement)
    requires |p.entry| == ITEM && p.entry[0] != 0 && slot + ITEM <= |d| && slot + ITEM <= p.at && PairAt(d, slot) == 0
    ensures Disturbs(d, slot, p, slot)
  {
  }

  /** Below cluster 256 every lookup lies in front of the directory, whatever the volume. */
  lemma LowLookupsInFront(v: Volume, c: nat)
    requires c < 256 && v.RootSector() > 0
    ensures LookupsInFront(v, c)
  {
    var r: nat := v.reservedSectors;
    forall k | 3 <= k <= c ensures v.LookupPos(k) + 1 < Root(v) {
      MulMonotone(k * 2, 510, r);
      LowLookup(r, k, v.fatCopies * v.sectorsPerFat);
    }
  }

  lemma LowLookup(r: nat, k: nat, fats: nat)
    requires r < 0x1_0000 && k < 256 && k * 2 * r <= 510 * r && fats + r > 0
    ensures U32(r * U32(k * 2)) + 1 < (fats + r) * SECTOR
  {
    assert r * (k * 2) == k * 2 * r;
  }

  // A volume without FATs, whose lookup of cluster 256 falls on the first slot of its root directory;
  // the lookups before it read a sector full of ones.
  const OVERLAPPING := Volume(1, 1, 0, 0, 16, 300)
  function OnesThenZeros(): seq<byte> { seq(600 * SECTOR, i => if i < SECTOR then 1 else 0) }

  /** There the first file's entry makes its own cluster look taken, and the next file gets another one. */
  lemma OverlappingVolumeFindsAnother(v: Volume, d: seq<byte>, f: NewFile)
    requires v == OVERLAPPING && d == OnesThenZeros() && f.IsNew()
    ensures HasDirectory(v, d, 0) && HasRoom(v, d, 0) && LowestFree(v, d, 3) == 256
    ensures LowestFree(v, FirstWrite(v, d, 0, f), 3) != 256
  {
    OverlappingLowest(v, d);
    OverlappingDirectory(v, d);
    EntryHidesCluster(v, d, 0, f);
  }

  lemma OverlappingLowest(v: Volume, d: seq<byte>)
    requires v == OVERLAPPING && d == OnesThenZeros()
    ensures LowestFree(v, d, 3) == 256 && HasRoom(v, d, 0) && v.LookupPos(256) == Root(v)
  {
    forall k | 3 <= k <= 256 ensures FatEntry(v, d, k) == 0 <==> k == 256 {
      assert v.LookupPos(k) == 2 * k;
    }
    LowestFreeIsLowest(v, d, 3, 256);
  }

  lemma OverlappingDirectory(v: Volume, d: seq<byte>)
    requires v == OVERLAPPING && d == OnesThenZeros()
    ensures HasDirectory(v, d, 0)
  {
    assert Root(v) == SECTOR && v.RootSize() == SECTOR && |d| == 600 * SECTOR;
    EmptyDirectory(d, SECTOR, 16);
  }

  lemma EmptyDirectory(d: seq<byte>, root: nat, slots: nat)
    requires root + ITEM * slots <= |d| && forall p | root <= p < |d| :: d[p] == 0
    ensures HasEntries(d, root, slots, 0)
  {
    forall k | 0 <= k < slots ensures Slot(d, root, k)[0] == 0 {
      assert Slot(d, root, k)[0] == ByteOf(d, root + ITEM * k);
    }
  }

  // A freshly formatted volume of eight sectors, and a one-byte file to put on it.
  const SMALL := Volume(1, 1, 1, 1, 16, 8)
  function Formatted(): seq<byte> { seq(8 * SECTOR, _ => 0) }
  function OneByteFile(): NewFile { NewFile(seq(ITEM, _ => 0)[0 := 65], [66]) }

  /** There the conditions of the results above all hold, so two files written in a row share cluster 3. */
  lemma SmallVolumeHasRoom()
    ensures HasDirectory(SMALL, Formatted(), 0) && HasRoom(SMALL, Formatted(), 0) && OneByteFile().IsNew()
    ensures LowestFree(SMALL, Formatted(), 3) == 3 && LookupsInFront(SMALL, 3)
    ensures SMALL.Reaches(3) && SMALL.ClusterPos(3) + SMALL.ClusterSize() <= |Formatted()|
  {
    assert FatEntry(SMALL, Formatted(), 3) == 0;
    assert Root(SMALL) == 2 * SECTOR && SMALL.RootSize() == SECTOR;
    EmptyDirectory(Formatted(), 2 * SECTOR, 16);
  }

  // ---- other files ----

  /** Files whose clusters keep their bytes keep their contents. */
  lemma {:induction false} SameContents(l: Layout, d: seq<byte>, d': seq<byte>, next: Lookup, c: nat, k: nat)
    requires forall q: nat | q < k :: KeepsCluster(l, d, d', Iterate(next, c, q))
    ensures Contents(l, d', next, c, k) == Contents(l, d, next, c, k)
    decreases k
  {
    if k > 0 {
      assert KeepsCluster(l, d, d', Iterate(next, c, 0));
      forall q: nat | q < k - 1 ensures KeepsCluster(l, d, d', Iterate(next, next(c), q)) {
        assert KeepsCluster(l, d, d', Iterate(next, c, q + 1));
      }
      SameContents(l, d, d', next, next(c), k - 1);
    }
  }

  predicate KeepsCluster(l: Layout, d: seq<byte>, d': seq<byte>, c: nat) { Slice(d', l.at(c), l.size) == Slice(d, l.at(c), l.size) }

  /** The k clusters of the file from g are in reach, and none of them lies in the n bytes from cluster c on. */
  ghost predicate Avoids(v: Volume, next: Lookup, g: nat, k: nat, c: nat, n: nat) {
    forall q: nat | q < k :: v.Reaches(Iterate(next, g, q)) && Clears(v, Iterate(next, g, q), c, n)
  }

  /** Cluster e lies in front of cluster c, or behind n bytes from there. */
  predicate Clears(v: Volume, e: nat, c: nat, n: nat) { e < c || (e - c) * v.ClusterSize() >= n }

  /** Data written to a cluster, of any length, changes no file that has no cluster among those it spills over. */
  lemma WriteKeepsOtherFiles(v: Volume, d: seq<byte>, next: Lookup, g: nat, k: nat, c: nat, data: seq<byte>)
    requires v.Reaches(c) && Avoids(v, next, g, k, c, |data|)
    ensures Contents(LayoutOf(v), WriteBytes(d, v.ClusterPos(c), data), next, g, k) == Contents(LayoutOf(v), d, next, g, k)
  {
    var d' := WriteBytes(d, v.ClusterPos(c), data);
    forall q: nat | q < k ensures KeepsCluster(LayoutOf(v), d, d', Iterate(next, g, q)) {
      OtherClusterStays(v, d, Iterate(next, g, q), c, data);
    }
    SameContents(LayoutOf(v), d, d', next, g, k);
  }

  lemma OtherClusterStays(v: Volume, d: seq<byte>, e: nat, c: nat, data: seq<byte>)
    requires v.Reaches(c) && v.Reaches(e) && Clears(v, e, c, |data|)
    ensures KeepsCluster(LayoutOf(v), d, WriteBytes(d, v.ClusterPos(c), data), e)
  {
    if e < c { ClustersAreDisjoint(v, e, c); } else { ClusterDistance(v, c, e); }
    WriteStaysInside(d, v.ClusterPos(c), data, v.ClusterPos(e), v.ClusterSize());
  }

  lemma ClusterDistance(v: Volume, a: nat, b: nat)
    requires v.Reaches(a) && v.Reaches(b) && a <= b
    ensures v.ClusterPos(b) == v.ClusterPos(a) + (b - a) * v.ClusterSize()
  {
    ClusterPosInReach(v, a);
    ClusterPosInReach(v, b);
    ClustersApart(a - 2, b - a, v.sectorsPerCluster);
  }

  lemma ClustersApart(a: nat, k: nat, spc: nat)
    ensures (a + k) * spc == a * spc + k * spc && k * (spc * SECTOR) == k * spc * SECTOR
  {
  }

  lemma WriteStaysInside(d: seq<byte>, pos: nat, data: seq<byte>, at: nat, n: nat)
    requires pos + |data| <= at || at + n <= pos
    ensures Slice(WriteBytes(d, pos, data), at, n) == Slice(d, at, n)
  {
    forall p | at <= p < at + n ensures ByteOf(WriteBytes(d, pos, data), p) == ByteOf(d, p) {
    }
    SameSlice(d, WriteBytes(d, pos, data), at, n);
  }

  /** Nor does the first write of a new file, its entry included. */
  lemma FirstWriteKeepsOtherFiles(v: Volume, d: seq<byte>, count: nat, f: NewFile, next: Lookup, g: nat, k: nat)
    requires HasDirectory(v, d, count) && HasRoom(v, d, count) && Avoids(v, next, g, k, LowestFree(v, d, 3), |f.data|)
    ensures Contents(LayoutOf(v), FirstWrite(v, d, count, f), next, g, k) == Contents(LayoutOf(v), d, next, g, k)
  {
    var c := LowestFree(v, d, 3);
    var d1 := WriteBytes(d, Root(v) + ITEM * count, WithLowCluster(f.item, c));
    WriteKeepsOtherFiles(v, d1, next, g, k, c, f.data);
    forall q: nat | q < k ensures KeepsCluster(LayoutOf(v), d, d1, Iterate(next, g, q)) {
      ClusterBehindRoot(v, Iterate(next, g, q));
      WriteStaysInside(d, Root(v) + ITEM * count, WithLowCluster(f.item, c), v.ClusterPos(Iterate(next, g, q)), v.ClusterSize());
    }
    SameContents(LayoutOf(v), d, d1, next, g, k);
  }

  /** Up to a cluster of data, written to a cluster and read back from the start of the file, is unchanged. */
  lemma WriteReadRoundTrip(v: Volume, d: seq<byte>, next: Lookup, c: nat, data: seq<byte>, bytes: seq<byte>)
    requires v.Reaches(c) && 0 < |data| <= v.ClusterSize() && v.ClusterPos(c) + |data| <= |d|
    requires Delivers(LayoutOf(v), WriteBytes(d, v.ClusterPos(c), data), bytes, Visited(next, v.ClusterSize(), c, 0, |data|))
    ensures bytes == data
  {
    ClusterCovered(v, c, |data|);
    ClusterRoundTrip(LayoutOf(v), d, next, c, data, bytes);
  }

  lemma ClusterRoundTrip(l: Layout, d: seq<byte>, next: Lookup, c: nat, data: seq<byte>, bytes: seq<byte>)
    requires IsClusterSize(l.size) && l.ok(c) && 0 < |data| <= l.size && l.at(c) + |data| <= |d| && Covers(l.at(c), |data|)
    requires Delivers(l, WriteBytes(d, l.at(c), data), bytes, Visited(next, l.size, c, 0, |data|))
    ensures bytes == data
  {
    CoveredWrite(d, l.at(c), data);
    FirstClusterDelivers(l, WriteBytes(d, l.at(c), data), next, c, bytes);
    OverlayHolds(d, l.at(c), data, bytes);
  }

  lemma OverlayHolds(d: seq<byte>, pos: nat, data: seq<byte>, bytes: seq<byte>)
    requires pos + |data| <= |d| && |bytes| == |data|
    requires forall i | 0 <= i < |bytes| :: bytes[i] == ByteOf(Overlay(d, pos, data), pos + i)
    ensures bytes == data
  {
  }

  lemma FirstClusterDelivers(l: Layout, d: seq<byte>, next: Lookup, c: nat, bytes: seq<byte>)
    requires IsClusterSize(l.size) && l.ok(c) && 0 < |bytes| <= l.size
    requires Delivers(l, d, bytes, Visited(next, l.size, c, 0, |bytes|))
    ensures forall i | 0 <= i < |bytes| :: bytes[i] == ByteOf(d, l.at(c) + i)
  {
    FirstClusterSpan(next, l.size, c, |bytes|);
    SpanDelivers(l, d, c, bytes);
  }

  lemma SpanDelivers(l: Layout, d: seq<byte>, c: nat, bytes: seq<byte>)
    requires l.ok(c) && Delivers(l, d, bytes, Span(c, 0, |bytes|))
    ensures forall i | 0 <= i < |bytes| :: bytes[i] == ByteOf(d, l.at(c) + i)
  {
    forall i | 0 <= i < |bytes| ensures bytes[i] == ByteOf(d, l.at(c) + i) {
      assert Span(c, 0, |bytes|)[i] == In(c, 0 + i);
      assert DeliversByte(l, d, bytes[i], In(c, i));
    }
  }

  lemma FirstClusterSpan(next: Lookup, size: nat, c: nat, n: nat)
    requires IsClusterSize(size) && 0 < n <= size
    ensures Visited(next, size, c, 0, n) == Span(c, 0, n)
  {
    FromClusterStart(size, n);
    DivMod(size, 0, 0);
    ExactReads(next, size, c, 0, n);
    ExpectedInCluster(next, size, c, 0, n);
  }
}
