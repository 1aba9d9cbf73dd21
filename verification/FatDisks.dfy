/**
 Reads on real disks: for which offsets and lengths every file of every volume is read byte for
 byte, with disks that show the failure everywhere else.
 */
module FatDisks {
  import opened Machine
  import opened DiskStreams
  import opened FatVolume
  import opened FatChain
  import opened FatFiles

  // ---- a disk with a given track ----

  /** One FAT of 65536 entries behind one reserved sector, which is where the lookups of this volume fall as well. */
  function RingVolume(spc: ClusterSectors): Volume { Volume(spc, 1, 1, 256, 16, 0) }

  // The bytes the lookups of a volume with one reserved sector read.
  const FAT_BYTES := 0x2_0000

  /** A disk with the track of len steps in its FAT, and a single one at byte mark behind it. */
  function TrackDisk(p: nat, len: nat, mark: nat): seq<byte>
    requires 0 < p <= MAX_RING && mark >= FAT_BYTES
  {
    seq(mark + 1, i requires 0 <= i <= mark => TrackByte(p, len, mark, i))
  }

  function TrackByte(p: nat, len: nat, mark: nat, i: nat): byte
    requires 0 < p <= MAX_RING
  {
    if i >= FAT_BYTES then (if i == mark then 1 else 0)
    else if i % 2 == 0 then TrackNext(p, len, i / 2) % 0x100
    else TrackNext(p, len, i / 2) / 0x100
  }

  /** The kernel's own lookups find the track. */
  lemma TrackDiskHasTrack(spc: ClusterSectors, p: nat, len: nat, mark: nat)
    requires 0 < p <= MAX_RING && mark >= FAT_BYTES
    ensures IsTrack(Fat(RingVolume(spc), TrackDisk(p, len, mark)), p, len)
  {
    var v, d := RingVolume(spc), TrackDisk(p, len, mark);
    forall k: nat | k < len ensures RingLink(Fat(v, d), p, k) {
      TrackEntry(spc, p, len, mark, RingCluster(p, k));
      TrackNextLinks(p, len, k);
    }
  }

  lemma TrackEntry(spc: ClusterSectors, p: nat, len: nat, mark: nat, c: nat)
    requires 0 < p <= MAX_RING && mark >= FAT_BYTES && c < 0x1_0000
    ensures FatEntry(RingVolume(spc), TrackDisk(p, len, mark), c) == TrackNext(p, len, c)
  {
    LooksBehindReserved(RingVolume(spc), c);
    TrackPair(p, len, mark, c);
  }

  lemma LooksBehindReserved(v: Volume, c: nat)
    requires v.reservedSectors == 1 && c < 0x1_0000
    ensures v.LookupPos(c) == 2 * c
  {
  }

  lemma TrackPair(p: nat, len: nat, mark: nat, c: nat)
    requires 0 < p <= MAX_RING && mark >= FAT_BYTES && c < 0x1_0000
    ensures PairAt(TrackDisk(p, len, mark), 2 * c) == TrackNext(p, len, c)
  {
    var d := TrackDisk(p, len, mark);
    assert (2 * c) / 2 == c == (2 * c + 1) / 2;
    assert ByteOf(d, 2 * c) == TrackByte(p, len, mark, 2 * c) && ByteOf(d, 2 * c + 1) == TrackByte(p, len, mark, 2 * c + 1);
  }

  /** The ring's clusters are in reach, behind the FAT, and two sizes apart at least. */
  lemma RingReaches(spc: ClusterSectors, c: nat)
    requires RING <= c < RING + 2 * MAX_RING
    ensures RingVolume(spc).Reaches(c) && RingVolume(spc).ClusterPos(c) == (258 + (c - 2) * spc) * SECTOR >= FAT_BYTES
  {
    MulMonotone(spc, 0xff, c - 1);
    MulMonotone(0, spc, c - 2);
    ClusterPosInReach(RingVolume(spc), c);
  }

  lemma RingBytesDiffer(spc: ClusterSectors, p: nat, a: nat, r: nat, b: nat, t: nat)
    requires 0 < p <= MAX_RING && InRing(p, a) && InRing(p, b) && r < 2 * (spc * SECTOR) && t < spc * SECTOR && (a != b || r != t)
    ensures RingVolume(spc).ClusterPos(a) + r != RingVolume(spc).ClusterPos(b) + t
  {
    RingReaches(spc, a);
    RingReaches(spc, b);
    InRingIsEven(p, a);
    InRingIsEven(p, b);
    if a < b { TwoApart(a - 2, b - 2, spc); }
    if b < a { TwoApart(b - 2, a - 2, spc); }
  }

  lemma InRingIsEven(p: nat, c: nat)
    requires p > 0 && InRing(p, c)
    ensures c % 2 == 0
  {
  }

  lemma TwoApart(j: nat, k: nat, spc: nat)
    requires j + 2 <= k
    ensures j * spc + 2 * spc <= k * spc
  {
    MulMonotone(j + 2, k, spc);
    assert (j + 2) * spc == j * spc + 2 * spc;
  }

  /** What a read delivers when the memory it does not write holds zeros. */
  function FromSources(l: Layout, d: seq<byte>, sources: seq<Source>): (bytes: seq<byte>)
    ensures Delivers(l, d, bytes, sources)
  {
    seq(|sources|, i requires 0 <= i < |sources| => FromSource(l, d, sources[i]))
  }

  function FromSource(l: Layout, d: seq<byte>, s: Source): byte {
    if s.In? && l.ok(s.cluster) then ByteOf(d, l.at(s.cluster) + s.pos) else 0
  }

  /** Where y belongs and x is read, some disk gives a wrong byte. */
  lemma MarkShows(spc: ClusterSectors, p: nat, len: nat, x: Source, y: Source) returns (mark: nat)
    requires 0 < p <= MAX_RING && Confused(p, spc * SECTOR, x, y)
    ensures mark >= FAT_BYTES
    ensures var l, d := LayoutOf(RingVolume(spc)), TrackDisk(p, len, mark);
            && l.ok(y.cluster) && ByteOf(d, l.at(y.cluster) + y.pos) == 1
            && (x.In? ==> l.ok(x.cluster) && ByteOf(d, l.at(x.cluster) + x.pos) == 0)
  {
    RingReaches(spc, y.cluster);
    mark := RingVolume(spc).ClusterPos(y.cluster) + y.pos;
    if x.In? {
      RingReaches(spc, x.cluster);
      RingBytesDiffer(spc, p, x.cluster, x.pos, y.cluster, y.pos);
    }
  }

  /** The track's clusters are a file. */
  lemma TrackIsFile(spc: ClusterSectors, next: Lookup, p: nat, len: nat, k: nat)
    requires IsTrack(next, p, len) && 0 < k <= len + 1
    ensures IsFile(LayoutOf(RingVolume(spc)), next, RING, k)
  {
    FromRing(next, p, len, k - 1);
    forall q: nat | q < k ensures RingVolume(spc).Reaches(Advance(next, RING, q)) {
      FromRing(next, p, len, q);
      RingReaches(spc, RingCluster(p, q));
    }
  }

  /** A whole file by the specification: k different clusters, and an end mark behind the last. */
  ghost predicate IsWholeFile(next: Lookup, c: nat, k: nat) {
    && k > 0 && SpecChainLong(next, c, k - 1) && SpecEnds(next(Iterate(next, c, k - 1)))
    && forall i: nat, j: nat | i < j < k :: Iterate(next, c, i) != Iterate(next, c, j)
  }

  /** A track less than once around is a whole file. */
  lemma TrackIsWholeFile(spc: ClusterSectors, len: nat, mark: nat)
    requires len < MAX_RING && mark >= FAT_BYTES
    ensures IsWholeFile(Fat(RingVolume(spc), TrackDisk(MAX_RING, len, mark)), RING, len + 1)
  {
    TrackDiskHasTrack(spc, MAX_RING, len, mark);
    TrackEntry(spc, MAX_RING, len, mark, RingCluster(MAX_RING, len));
    WholeTrack(Fat(RingVolume(spc), TrackDisk(MAX_RING, len, mark)), len);
  }

  lemma WholeTrack(next: Lookup, len: nat)
    requires len < MAX_RING && IsTrack(next, MAX_RING, len) && next(RingCluster(MAX_RING, len)) == END_MARK
    ensures IsWholeFile(next, RING, len + 1)
  {
    FromRing(next, MAX_RING, len, len);
    forall i: nat | i <= len ensures Iterate(next, RING, i) == RING + 2 * i {
      FromRing(next, MAX_RING, len, i);
    }
  }

  /** A disk with the track on which x and y are different bytes. */
  lemma WrongDisk(spc: ClusterSectors, p: nat, len: nat, x: Source, y: Source) returns (v: Volume, d: seq<byte>, mark: nat)
    requires 0 < p <= MAX_RING && Confused(p, spc * SECTOR, x, y)
    ensures mark >= FAT_BYTES && v == RingVolume(spc) && d == TrackDisk(p, len, mark)
    ensures IsTrack(Fat(v, d), p, len) && IsFile(LayoutOf(v), Fat(v, d), RING, len + 1)
    ensures FromSource(LayoutOf(v), d, x) == 0 && ByteOf(d, LayoutOf(v).at(y.cluster) + y.pos) == 1
  {
    mark := MarkShows(spc, p, len, x, y);
    v, d := RingVolume(spc), TrackDisk(p, len, mark);
    TrackDiskHasTrack(spc, p, len, mark);
    TrackIsFile(spc, Fat(v, d), p, len, len + 1);
  }

  // ---- one read ----

  ghost predicate IsSliceOf(bytes: seq<byte>, file: seq<byte>, offset: nat) {
    offset + |bytes| <= |file| && bytes == file[offset..offset + |bytes|]
  }

  /** A read of the k-cluster file from c delivered the given bytes. */
  ghost predicate Reads(v: Volume, d: seq<byte>, c: nat, k: nat, offset: nat, bytes: seq<byte>) {
    && IsFile(LayoutOf(v), Fat(v, d), c, k) && offset + |bytes| <= k * v.ClusterSize()
    && Delivers(LayoutOf(v), d, bytes, Visited(Fat(v, d), v.ClusterSize(), c, offset, |bytes|))
  }

  /** They are the file's. */
  ghost predicate ReadRight(v: Volume, d: seq<byte>, c: nat, k: nat, offset: nat, bytes: seq<byte>) {
    IsSliceOf(bytes, Contents(LayoutOf(v), d, Fat(v, d), c, k), offset)
  }

  /**
   A read delivers the file's bytes, for every volume with such clusters, every disk, every file on
   it and whatever lay in memory, exactly under the condition.
   */
  lemma ReadDeliversFileIff(spc: ClusterSectors, offset: nat, total: nat)
    requires total > 0 && offset + total < 0x1_0000_0000
    ensures ReadsExactly(spc * SECTOR, offset, total) <==>
            forall v: Volume, d: seq<byte>, c: uint16, k: nat, bytes: seq<byte>
              | v.sectorsPerCluster == spc && |bytes| == total && Reads(v, d, c, k, offset, bytes) ::
              ReadRight(v, d, c, k, offset, bytes)
  {
    var size: nat := spc * SECTOR;
    if ReadsExactly(size, offset, total) {
      forall v: Volume, d: seq<byte>, c: uint16, k: nat, bytes: seq<byte>
        | v.sectorsPerCluster == spc && |bytes| == total && Reads(v, d, c, k, offset, bytes)
        ensures ReadRight(v, d, c, k, offset, bytes)
      {
        ExactReads(Fat(v, d), size, c, offset, total);
        ExpectedIsSlice(LayoutOf(v), d, Fat(v, d), c, k, offset, bytes);
      }
    } else {
      var len := 2 * (offset + total) + 3;
      QuotientAtMost(size, offset);
      MulMonotone(1, size, len + 1);
      var v, d, p, mark, bytes := WrongRead(spc, offset, total, len);
      assert Reads(v, d, RING, len + 1, offset, bytes) && !ReadRight(v, d, RING, len + 1, offset, bytes);
    }
  }

  /** Outside the condition, a volume, a disk and a file on it that is read wrong. */
  lemma WrongRead(spc: ClusterSectors, offset: nat, total: nat, len: nat)
      returns (v: Volume, d: seq<byte>, p: nat, mark: nat, bytes: seq<byte>)
    requires total > 0 && offset + total < 0x1_0000_0000 && !ReadsExactly(spc * SECTOR, offset, total)
    requires len >= 2 * (offset / (spc * SECTOR)) + 3 && offset + total <= (len + 1) * (spc * SECTOR)
    ensures v.sectorsPerCluster == spc && |bytes| == total && Reads(v, d, RING, len + 1, offset, bytes)
    ensures !ReadRight(v, d, RING, len + 1, offset, bytes)
    ensures 0 < p <= MAX_RING && mark >= FAT_BYTES && v == RingVolume(spc) && d == TrackDisk(p, len, mark)
    ensures offset / (spc * SECTOR) < MAX_RING ==> p == MAX_RING
  {
    var i, y, sources;
    v, d, p, mark, i, y, sources := WrongSource(spc, offset, total, len);
    bytes := DeliveredWrong(LayoutOf(v), d, Fat(v, d), len + 1, offset, sources, i, y);
    IsWrongRead(v, d, len + 1, offset, bytes, spc * SECTOR, sources);
  }

  lemma IsWrongRead(v: Volume, d: seq<byte>, k: nat, offset: nat, bytes: seq<byte>, size: nat, sources: seq<Source>)
    requires size == v.ClusterSize() && IsFile(LayoutOf(v), Fat(v, d), RING, k) && offset + |bytes| <= k * size
    requires sources == Visited(Fat(v, d), size, RING, offset, |bytes|) && Delivers(LayoutOf(v), d, bytes, sources)
    requires !IsSliceOf(bytes, Contents(LayoutOf(v), d, Fat(v, d), RING, k), offset)
    ensures Reads(v, d, RING, k, offset, bytes) && !ReadRight(v, d, RING, k, offset, bytes)
  {
  }

  lemma WrongSource(spc: ClusterSectors, offset: nat, total: nat, len: nat)
      returns (v: Volume, d: seq<byte>, p: nat, mark: nat, i: nat, y: Source, sources: seq<Source>)
    requires total > 0 && offset + total < 0x1_0000_0000 && !ReadsExactly(spc * SECTOR, offset, total)
    requires len >= 2 * (offset / (spc * SECTOR)) + 3
    ensures 0 < p <= MAX_RING && mark >= FAT_BYTES && v == RingVolume(spc) && d == TrackDisk(p, len, mark)
    ensures offset / (spc * SECTOR) < MAX_RING ==> p == MAX_RING
    ensures IsFile(LayoutOf(v), Fat(v, d), RING, len + 1)
    ensures i < total == |sources| && sources == Visited(Fat(v, d), spc * SECTOR, RING, offset, total)
    ensures y.In? && FileByte(Fat(v, d), spc * SECTOR, RING, offset + i) == y
    ensures FromSource(LayoutOf(v), d, sources[i]) != ByteOf(d, LayoutOf(v).at(y.cluster) + y.pos)
  {
    var size: nat := spc * SECTOR;
    var x;
    p, i, x, y := InexactRead(size, offset, total, len);
    v, d, mark := WrongDisk(spc, p, len, x, y);
    sources := ReadShows(Fat(v, d), size, offset, total, p, len, i, x, y);
  }

  lemma ReadShows(next: Lookup, size: nat, offset: nat, total: nat, p: nat, len: nat, i: nat, x: Source, y: Source)
      returns (sources: seq<Source>)
    requires size > 0 && WrongAt(size, offset, total, p, len, i, x, y) && IsTrack(next, p, len)
    ensures sources == Visited(next, size, RING, offset, total)
    ensures i < total == |sources| && sources[i] == x && FileByte(next, size, RING, offset + i) == y
  {
    sources := Visited(next, size, RING, offset, total);
    assert Expected(next, size, RING, offset, total)[i] == y;
  }

  /** Sources with a wrong one deliver bytes that are not the file's. */
  lemma DeliveredWrong(l: Layout, d: seq<byte>, next: Lookup, k: nat, offset: nat, sources: seq<Source>, i: nat, y: Source)
      returns (bytes: seq<byte>)
    requires IsFile(l, next, RING, k) && i < |sources| && y.In? && FileByte(next, l.size, RING, offset + i) == y
    requires FromSource(l, d, sources[i]) != ByteOf(d, l.at(y.cluster) + y.pos)
    ensures Delivers(l, d, bytes, sources) && |bytes| == |sources| && !IsSliceOf(bytes, Contents(l, d, next, RING, k), offset)
  {
    bytes := FromSources(l, d, sources);
    assert bytes[i] == FromSource(l, d, sources[i]);
    WrongByte(l, d, next, RING, k, offset, bytes, i, y);
  }

  /** The volume has enough clusters to show a failure up to byte n on a file of different ones. */
  predicate HasClustersFor(spc: ClusterSectors, n: nat) { 2 * (n / (spc * SECTOR)) + 3 < MAX_RING }

  /** The same with whole files of different clusters only, as far as there are enough of them. */
  lemma WholeFileReadIff(spc: ClusterSectors, offset: nat, total: nat)
    requires total > 0 && offset + total < 0x1_0000_0000 && HasClustersFor(spc, offset + total)
    ensures ReadsExactly(spc * SECTOR, offset, total) <==>
            forall v: Volume, d: seq<byte>, c: uint16, k: nat, bytes: seq<byte>
              | v.sectorsPerCluster == spc && IsWholeFile(Fat(v, d), c, k) && |bytes| == total && Reads(v, d, c, k, offset, bytes) ::
              ReadRight(v, d, c, k, offset, bytes)
  {
    ReadDeliversFileIff(spc, offset, total);
    if !ReadsExactly(spc * SECTOR, offset, total) {
      var len := TrackFor(spc, offset, offset + total);
      var v, d, p, mark, bytes := WrongRead(spc, offset, total, len);
      TrackIsWholeFile(spc, len, mark);
      assert IsWholeFile(Fat(v, d), RING, len + 1) && Reads(v, d, RING, len + 1, offset, bytes)
          && !ReadRight(v, d, RING, len + 1, offset, bytes);
    }
  }

  lemma TrackFor(spc: ClusterSectors, offset: nat, end: nat) returns (len: nat)
    requires offset <= end && HasClustersFor(spc, end)
    ensures 2 * (offset / (spc * SECTOR)) + 3 <= len && len == 2 * (end / (spc * SECTOR)) + 3 < MAX_RING
    ensures offset / (spc * SECTOR) < MAX_RING && end <= (len + 1) * (spc * SECTOR)
  {
    var size: nat := spc * SECTOR;
    len := 2 * (end / size) + 3;
    QuotientMonotone(size, offset, end);
    Split(size, end);
    MulMonotone(end / size + 1, len + 1, size);
    assert (end / size + 1) * size == end / size * size + size;
  }

  /** A byte that is not the one at its place in the file. */
  lemma WrongByte(l: Layout, d: seq<byte>, next: Lookup, c: nat, k: nat, offset: nat, bytes: seq<byte>, i: nat, y: Source)
    requires IsFile(l, next, c, k) && i < |bytes| && y.In? && FileByte(next, l.size, c, offset + i) == y
    requires bytes[i] != ByteOf(d, l.at(y.cluster) + y.pos)
    ensures !IsSliceOf(bytes, Contents(l, d, next, c, k), offset)
  {
    var file := Contents(l, d, next, c, k);
    if offset + i < |file| {
      ByteOfFile(l, d, next, c, k, offset + i);
      assert file[offset + i] != bytes[i];
    }
  }

  // ---- fat16_read ----

  /** The members of a read of the k-cluster file from c delivered the given bytes. */
  ghost predicate ReadsMembers(v: Volume, d: seq<byte>, c: nat, k: nat, pos: nat, s: nat, nmemb: nat, bytes: seq<byte>) {
    && IsFile(LayoutOf(v), Fat(v, d), c, k) && |bytes| == nmemb * s && pos + |bytes| <= k * v.ClusterSize()
    && Delivers(LayoutOf(v), d, bytes, MembersVisited(Fat(v, d), v.ClusterSize(), c, pos, s, nmemb))
  }

  /** The same for a read of nmemb members: right on every disk exactly when each member's read is exact. */
  lemma MembersDeliverFileIff(spc: ClusterSectors, pos: nat, s: nat, nmemb: nat)
    requires s > 0 && pos + nmemb * s < 0x1_0000_0000
    ensures MembersExact(spc * SECTOR, pos, s, nmemb) <==>
            forall v: Volume, d: seq<byte>, c: uint16, k: nat, bytes: seq<byte>
              | v.sectorsPerCluster == spc && ReadsMembers(v, d, c, k, pos, s, nmemb, bytes) ::
              ReadRight(v, d, c, k, pos, bytes)
  {
    var size: nat := spc * SECTOR;
    if MembersExact(size, pos, s, nmemb) {
      forall v: Volume, d: seq<byte>, c: uint16, k: nat, bytes: seq<byte>
        | v.sectorsPerCluster == spc && ReadsMembers(v, d, c, k, pos, s, nmemb, bytes)
        ensures ReadRight(v, d, c, k, pos, bytes)
      {
        ExactMembers(Fat(v, d), size, c, pos, s, nmemb);
        ExpectedIsSlice(LayoutOf(v), d, Fat(v, d), c, k, pos, bytes);
      }
    } else {
      var n := nmemb * s;
      var len := 2 * (pos + n) + 3;
      QuotientAtMost(size, pos + n);
      MulMonotone(1, size, len + 1);
      var v, d, p, mark, bytes := WrongMembers(spc, pos, s, nmemb, n, len);
      assert ReadsMembers(v, d, RING, len + 1, pos, s, nmemb, bytes) && !ReadRight(v, d, RING, len + 1, pos, bytes);
    }
  }

  lemma WrongMembers(spc: ClusterSectors, pos: nat, s: nat, nmemb: nat, n: nat, len: nat)
      returns (v: Volume, d: seq<byte>, p: nat, mark: nat, bytes: seq<byte>)
    requires s > 0 && n == nmemb * s && pos + n < 0x1_0000_0000 && !MembersExact(spc * SECTOR, pos, s, nmemb)
    requires len >= 2 * ((pos + n) / (spc * SECTOR)) + 3 && pos + n <= (len + 1) * (spc * SECTOR)
    ensures v.sectorsPerCluster == spc && ReadsMembers(v, d, RING, len + 1, pos, s, nmemb, bytes)
    ensures !ReadRight(v, d, RING, len + 1, pos, bytes)
    ensures 0 < p <= MAX_RING && mark >= FAT_BYTES && v == RingVolume(spc) && d == TrackDisk(p, len, mark)
    ensures (pos + n) / (spc * SECTOR) < MAX_RING ==> p == MAX_RING
  {
    var i, y, sources;
    v, d, p, mark, i, y, sources := WrongMemberSource(spc, pos, s, nmemb, n, len);
    bytes := DeliveredWrong(LayoutOf(v), d, Fat(v, d), len + 1, pos, sources, i, y);
    AreWrongMembers(v, d, len + 1, pos, s, nmemb, bytes, spc * SECTOR, sources);
  }

  lemma WrongMemberSource(spc: ClusterSectors, pos: nat, s: nat, nmemb: nat, n: nat, len: nat)
      returns (v: Volume, d: seq<byte>, p: nat, mark: nat, i: nat, y: Source, sources: seq<Source>)
    requires s > 0 && n == nmemb * s && pos + n < 0x1_0000_0000 && !MembersExact(spc * SECTOR, pos, s, nmemb)
    requires len >= 2 * ((pos + n) / (spc * SECTOR)) + 3
    ensures 0 < p <= MAX_RING && mark >= FAT_BYTES && v == RingVolume(spc) && d == TrackDisk(p, len, mark)
    ensures (pos + n) / (spc * SECTOR) < MAX_RING ==> p == MAX_RING
    ensures IsFile(LayoutOf(v), Fat(v, d), RING, len + 1)
    ensures i < n == |sources| && sources == MembersVisited(Fat(v, d), spc * SECTOR, RING, pos, s, nmemb)
    ensures y.In? && FileByte(Fat(v, d), spc * SECTOR, RING, pos + i) == y
    ensures FromSource(LayoutOf(v), d, sources[i]) != ByteOf(d, LayoutOf(v).at(y.cluster) + y.pos)
  {
    var size: nat := spc * SECTOR;
    var x;
    p, i, x, y := InexactMembers(size, pos, s, nmemb, n, len);
    v, d, mark := WrongDisk(spc, p, len, x, y);
    sources := MembersShow(Fat(v, d), size, pos, s, nmemb, n, p, len, i, x, y);
  }

  lemma AreWrongMembers(v: Volume, d: seq<byte>, k: nat, pos: nat, s: nat, nmemb: nat, bytes: seq<byte>, size: nat, sources: seq<Source>)
    requires size == v.ClusterSize() && IsFile(LayoutOf(v), Fat(v, d), RING, k) && |bytes| == nmemb * s && pos + |bytes| <= k * size
    requires sources == MembersVisited(Fat(v, d), size, RING, pos, s, nmemb) && Delivers(LayoutOf(v), d, bytes, sources)
    requires !IsSliceOf(bytes, Contents(LayoutOf(v), d, Fat(v, d), RING, k), pos)
    ensures ReadsMembers(v, d, RING, k, pos, s, nmemb, bytes) && !ReadRight(v, d, RING, k, pos, bytes)
  {
  }

  lemma MembersShow(next: Lookup, size: nat, pos: nat, s: nat, nmemb: nat, n: nat, p: nat, len: nat, i: nat, x: Source, y: Source)
      returns (sources: seq<Source>)
    requires size > 0 && MembersWrongAt(size, pos, s, nmemb, n, p, len, i, x, y) && IsTrack(next, p, len)
    ensures sources == MembersVisited(next, size, RING, pos, s, nmemb)
    ensures i < n == |sources| && sources[i] == x && FileByte(next, size, RING, pos + i) == y
  {
    sources := MembersVisited(next, size, RING, pos, s, nmemb);
    assert Expected(next, size, RING, pos, n)[i] == y;
  }

  /** And for members with whole files of different clusters only. */
  lemma WholeFileMembersIff(spc: ClusterSectors, pos: nat, s: nat, nmemb: nat)
    requires s > 0 && pos + nmemb * s < 0x1_0000_0000 && HasClustersFor(spc, pos + nmemb * s)
    ensures MembersExact(spc * SECTOR, pos, s, nmemb) <==>
            forall v: Volume, d: seq<byte>, c: uint16, k: nat, bytes: seq<byte>
              | v.sectorsPerCluster == spc && IsWholeFile(Fat(v, d), c, k) && ReadsMembers(v, d, c, k, pos, s, nmemb, bytes) ::
              ReadRight(v, d, c, k, pos, bytes)
  {
    MembersDeliverFileIff(spc, pos, s, nmemb);
    if !MembersExact(spc * SECTOR, pos, s, nmemb) {
      var n := nmemb * s;
      var len := TrackFor(spc, pos + n, pos + n);
      var v, d, p, mark, bytes := WrongMembers(spc, pos, s, nmemb, n, len);
      TrackIsWholeFile(spc, len, mark);
      assert IsWholeFile(Fat(v, d), RING, len + 1) && ReadsMembers(v, d, RING, len + 1, pos, s, nmemb, bytes)
          && !ReadRight(v, d, RING, len + 1, pos, bytes);
    }
  }

  // ---- data written and read back ----

  /** The bytes a read from cluster `first` delivers once data has been written to cluster c. */
  ghost predicate ReadsBack(v: Volume, d: seq<byte>, c: nat, first: nat, data: seq<byte>, bytes: seq<byte>) {
    var d' := WriteBytes(d, v.ClusterPos(c), data);
    |bytes| == |data| && Delivers(LayoutOf(v), d', bytes, Visited(Fat(v, d'), v.ClusterSize(), first, 0, |data|))
  }

  /** Up to a cluster comes back unchanged, on every disk, exactly when it is looked for where it was written. */
  lemma RoundTripIff(v: Volume, c: nat, first: nat, n: nat)
    requires v.Reaches(c) && 0 < n <= v.ClusterSize()
    ensures first == c <==>
            forall d: seq<byte>, data: seq<byte>, bytes: seq<byte>
              | |data| == n && v.ClusterPos(c) + n <= |d| && ReadsBack(v, d, c, first, data, bytes) :: bytes == data
  {
    if first == c {
      forall d: seq<byte>, data: seq<byte>, bytes: seq<byte>
        | |data| == n && v.ClusterPos(c) + n <= |d| && ReadsBack(v, d, c, first, data, bytes)
        ensures bytes == data
      {
        WriteReadRoundTrip(v, d, Fat(v, WriteBytes(d, v.ClusterPos(c), data)), c, data, bytes);
      }
    } else {
      var d := Constant(v.ClusterPos(c) + n, 0);
      var data := Constant(n, 1);
      var bytes := LostData(v, d, c, first, data);
      assert ReadsBack(v, d, c, first, data, bytes) && bytes[0] != data[0];
    }
  }

  lemma LostData(v: Volume, d: seq<byte>, c: nat, first: nat, data: seq<byte>) returns (bytes: seq<byte>)
    requires v.Reaches(c) && first != c && 0 < |data| <= v.ClusterSize() && forall i | 0 <= i < |d| :: d[i] == 0
    ensures ReadsBack(v, d, c, first, data, bytes) && bytes[0] == 0
  {
    var d' := WriteBytes(d, v.ClusterPos(c), data);
    FirstClusterSpan(Fat(v, d'), v.ClusterSize(), first, |data|);
    bytes := FromSources(LayoutOf(v), d', Span(first, 0, |data|));
    if v.Reaches(first) {
      if first < c { ClustersAreDisjoint(v, first, c); } else { ClustersAreDisjoint(v, c, first); }
    }
    assert bytes[0] == FromSource(LayoutOf(v), d', In(first, 0));
  }

  // ---- an example ----

  /**
   The smallest case: one-sector clusters, the chain 3, 4, 5, 6 and three clusters read from the
   file's start. The last of them comes from cluster 6.
   */
  lemma ThreeClustersAreReadWrong(v: Volume, d: seq<byte>, bytes: seq<byte>)
    requires v.sectorsPerCluster == 1 && (forall c | 3 <= c <= 6 :: v.Reaches(c)) && |bytes| == 3 * SECTOR
    requires FatEntry(v, d, 3) == 4 && FatEntry(v, d, 4) == 5 && FatEntry(v, d, 5) == 6
    requires Delivers(LayoutOf(v), d, bytes, Visited(Fat(v, d), SECTOR, 3, 0, 3 * SECTOR))
    ensures bytes[2 * SECTOR] == ByteOf(d, v.ClusterPos(6))
    ensures |Contents(LayoutOf(v), d, Fat(v, d), 3, 3)| == 3 * SECTOR
    ensures Contents(LayoutOf(v), d, Fat(v, d), 3, 3)[2 * SECTOR] == ByteOf(d, v.ClusterPos(5))
  {
    var next, l := Fat(v, d), LayoutOf(v);
    assert Advance(next, 5, 1) == 6 && Advance(next, 4, 2) == 6 && Advance(next, 3, 1) == 4 && Advance(next, 3, 2) == 5;
    ThirdPieceAt(next, SECTOR, 3, 3 * SECTOR);
    assert DeliversByte(l, d, bytes[2 * SECTOR], In(6, 0));
    ContentsLength(l, d, next, 3, 3);
    ContentsAt(l, d, next, 3, 3, 2, 0, 2 * SECTOR);
  }

  /** Such a disk, with a one at the start of cluster 5 only: the third cluster is delivered as zeros. */
  function ChainDisk(): seq<byte> {
    seq(8 * SECTOR, i => if i == 6 then 4 else if i == 8 then 5 else if i == 10 then 6 else if i == 6 * SECTOR then 1 else 0)
  }

  lemma SmallDiskIsReadWrong(v: Volume, d: seq<byte>)
    requires v == SMALL && d == ChainDisk()
    ensures IsFile(LayoutOf(v), Fat(v, d), 3, 3) && |Contents(LayoutOf(v), d, Fat(v, d), 3, 3)| == 3 * SECTOR
    ensures Contents(LayoutOf(v), d, Fat(v, d), 3, 3)[2 * SECTOR] == 1
    ensures forall bytes: seq<byte> | |bytes| == 3 * SECTOR && Reads(v, d, 3, 3, 0, bytes) :: bytes[2 * SECTOR] == 0
  {
    ChainDiskEntries(v, d);
    var next := Fat(v, d);
    assert Advance(next, 3, 0) == 3 && Advance(next, 3, 1) == 4 && Advance(next, 3, 2) == 5;
    assert ChainLong(next, 5, 0) && ChainLong(next, 4, 1);
    ThreeClustersAreReadWrong(v, d, FromSources(LayoutOf(v), d, Visited(next, SECTOR, 3, 0, 3 * SECTOR)));
    forall bytes: seq<byte> | |bytes| == 3 * SECTOR && Reads(v, d, 3, 3, 0, bytes) ensures bytes[2 * SECTOR] == 0 {
      ThreeClustersAreReadWrong(v, d, bytes);
    }
  }

  lemma ChainDiskEntries(v: Volume, d: seq<byte>)
    requires v == SMALL && d == ChainDisk()
    ensures FatEntry(v, d, 3) == 4 && FatEntry(v, d, 4) == 5 && FatEntry(v, d, 5) == 6
    ensures forall c | 3 <= c <= 6 :: v.Reaches(c) && v.ClusterPos(c) == (c + 1) * SECTOR
    ensures ByteOf(d, 6 * SECTOR) == 1 && ByteOf(d, 7 * SECTOR) == 0
  {
    LooksBehindReserved(v, 3);
    LooksBehindReserved(v, 4);
    LooksBehindReserved(v, 5);
    forall c | 3 <= c <= 6 ensures v.Reaches(c) && v.ClusterPos(c) == (c + 1) * SECTOR {
      ClusterPosInReach(v, c);
    }
  }
}
