/** The FAT16 file system over its three disk streams. */
module Fat16 {
  import opened Machine
  import opened Bits
  import opened DiskStreams
  import opened FatVolume
  import opened FatChain
  import opened FatFiles
  import opened FatDisks

  class Descriptor {
    var isFile: bool
    var item: Item
    var pos: uint32

    constructor (isFile: bool, item: Item)
      ensures this.isFile == isFile && this.item == item && pos == 0
    {
      this.isFile, this.item, pos := isFile, item, 0;
    }
  }

  datatype SeekMode = Set | Cur | End

  /** fat16_get_first_cluster */
  function FirstCluster(item: Item): nat { Or(HighCluster(item), LowCluster(item)) }

  /** Each bit of a file's first cluster is the or of two bits of its item: of bytes 20 and 26, and of bytes 21 and 27. */
  lemma FirstClusterBits(item: Item, k: nat)
    requires k < 8
    ensures Bit(FirstCluster(item), k) <==> Bit(item[20], k) || Bit(item[26], k)
    ensures Bit(FirstCluster(item), 8 + k) <==> Bit(item[21], k) || Bit(item[27], k)
  {
    PairBits(item[20], item[21], k);
    PairBits(item[26], item[27], k);
    OrBits(HighCluster(item), LowCluster(item), k);
    OrBits(HighCluster(item), LowCluster(item), 8 + k);
  }

  lemma PairBits(lo: byte, hi: byte, k: nat)
    requires k < 8
    ensures Bit(Pair(lo, hi), k) <==> Bit(lo, k)
    ensures Bit(Pair(lo, hi), 8 + k) <==> Bit(hi, k)
  {
    Pow2Values();
    LowBit(hi, lo, 8, k);
    HighBit(hi, lo, 8, k);
  }

  /** As long as the high half is not used, it is the number in bytes 26 and 27. */
  lemma FirstClusterOfLow(item: Item)
    requires item[20] == 0 && item[21] == 0
    ensures FirstCluster(item) == item[26] as int + 0x100 * item[27] as int
  {
    OrZero(LowCluster(item));
  }

  lemma PieceDelivers(l: Layout, d: seq<byte>, c: nat, r: nat, m: nat, stale: seq<byte>)
    requires l.Sound() && r < l.size && |stale| == m
    ensures Delivers(l, d, ReadBytes(d, U32(l.at(c) + r), m, stale), Piece(c, r, m))
  {
    assert l.SoundAt(c);
    AlignedPlus(l.at(c) / SECTOR, r);
    assert l.at(c) == l.at(c) / SECTOR * SECTOR;
    WrapKeepsInSector(l.at(c) + r);
    var start := U32(l.at(c) + r);
    var bytes := ReadBytes(d, start, m, stale);
    forall i | 0 <= i < m ensures DeliversByte(l, d, bytes[i], Piece(c, r, m)[i]) {
      assert bytes[i] == ReadByte(d, start, m, stale, i) && Piece(c, r, m)[i] == PieceByte(c, r, m, i);
    }
  }

  lemma DeliversBoth(l: Layout, d: seq<byte>, a: seq<byte>, s: seq<Source>, b: seq<byte>, t: seq<Source>)
    requires Delivers(l, d, a, s) && Delivers(l, d, b, t)
    ensures Delivers(l, d, a + b, s + t)
  {
    forall i | 0 <= i < |a + b| ensures DeliversByte(l, d, (a + b)[i], (s + t)[i]) {
      if i >= |a| { assert DeliversByte(l, d, b[i - |a|], t[i - |a|]); }
    }
  }

  lemma Joined(out: seq<byte>, piece: seq<byte>, at: nat, m: nat, total: nat)
    requires m == |piece| <= total && at + total <= |out| && forall k | at <= k < at + m :: out[k] == piece[k - at]
    ensures out[at..at + total] == piece + out[at + m..at + total]
  {
  }

  lemma Grown(out: seq<byte>, before: seq<byte>, more: nat)
    requires |before| + more <= |out| && forall k | 0 <= k < |before| :: out[k] == before[k]
    ensures out[..|before| + more] == before + out[|before|..|before| + more]
  {
  }

  lemma MemberFits(i: nat, nmemb: nat, size: nat)
    requires i < nmemb
    ensures i * size + size == (i + 1) * size <= nmemb * size
  {
    MulMonotone(i + 1, nmemb, size);
  }

  lemma VisitedSteps(next: Lookup, size: nat, c: nat, offset: nat, total: nat, m: nat)
    requires size > 0 && total > 0 && m == Min(total, size)
    ensures var c' := Advance(next, c, offset / size);
            Visited(next, size, c, offset, total) == Piece(c', offset % size, m) + Visited(next, size, c', offset + m, total - m)
  {
  }

  lemma DeliversPieces(l: Layout, d: seq<byte>, next: Lookup, c: nat, offset: nat, total: nat, m: nat, c': nat, r: nat,
                       a: seq<byte>, b: seq<byte>)
    requires total > 0 && l.size > 0 && m == Min(total, l.size)
    requires c' == Advance(next, c, offset / l.size) && r == offset % l.size
    requires Delivers(l, d, a, Piece(c', r, m)) && Delivers(l, d, b, Visited(next, l.size, c', offset + m, total - m))
    ensures Delivers(l, d, a + b, Visited(next, l.size, c, offset, total))
  {
    DeliversBoth(l, d, a, Piece(c', r, m), b, Visited(next, l.size, c', offset + m, total - m));
    VisitedSteps(next, l.size, c, offset, total, m);
  }

  lemma DeliversJoined(l: Layout, d: seq<byte>, next: Lookup, c: nat, offset: nat, total: nat, m: nat, c': nat,
                       piece: seq<byte>, out: seq<byte>, at: nat)
    requires total > 0 && l.size > 0 && m == |piece| == Min(total, l.size) && at + total <= |out|
    requires c' == Advance(next, c, offset / l.size) && Delivers(l, d, piece, Piece(c', offset % l.size, m))
    requires forall k | at <= k < at + m :: out[k] == piece[k - at]
    requires Delivers(l, d, out[at + m..at + total], Visited(next, l.size, c', offset + m, total - m))
    ensures Delivers(l, d, out[at..at + total], Visited(next, l.size, c, offset, total))
  {
    Joined(out, piece, at, m, total);
    DeliversPieces(l, d, next, c, offset, total, m, c', offset % l.size, piece, out[at + m..at + total]);
  }

  /** Members that are each exact deliver a slice of the file. */
  lemma MembersAreSlice(l: Layout, d: seq<byte>, next: Lookup, c: nat, k: nat, pos: nat, s: nat, nmemb: nat, bytes: seq<byte>)
    requires IsClusterSize(l.size) && MembersExact(l.size, pos, s, nmemb) && IsFile(l, next, c, k)
    requires |bytes| == nmemb * s && pos + |bytes| <= k * l.size
    requires Delivers(l, d, bytes, MembersVisited(next, l.size, c, pos, s, nmemb))
    ensures |Contents(l, d, next, c, k)| == k * l.size
    ensures bytes == Contents(l, d, next, c, k)[pos..pos + |bytes|]
  {
    ExactMembers(next, l.size, c, pos, s, nmemb);
    ExpectedIsSlice(l, d, next, c, k, pos, bytes);
  }

  /** On power-of-two clusters, members of a dividing size, read from a multiple of it, deliver that slice of the file. */
  lemma DividingMembersAreSlice(j: nat, l: Layout, d: seq<byte>, next: Lookup, c: nat, k: nat, pos: nat, s: nat, nmemb: nat,
                                bytes: seq<byte>)
    requires l.size == Pow2(9 + j) && IsClusterSize(l.size) && Divides(s, l.size) && Divides(s, pos)
    requires IsFile(l, next, c, k) && |bytes| == nmemb * s && pos + |bytes| <= k * l.size
    requires Delivers(l, d, bytes, MembersVisited(next, l.size, c, pos, s, nmemb))
    ensures |Contents(l, d, next, c, k)| == k * l.size
    ensures bytes == Contents(l, d, next, c, k)[pos..pos + |bytes|]
  {
    DividingMembersAreExact(j, l.size, pos, s, nmemb);
    MembersAreSlice(l, d, next, c, k, pos, s, nmemb, bytes);
  }

  /** The entry count of a directory: the number of the first slot whose first byte is zero. */
  ghost predicate IsEndMarker(d: seq<byte>, start: nat, k: nat) {
    Slot(d, start, k)[0] == 0 && forall j | 0 <= j < k :: Slot(d, start, j)[0] != 0
  }

  const DELETED: byte := 0xe5

  /** The slots of the first `count` that are not marked as deleted, which is what the code sets out to count. */
  function LiveSlots(d: seq<byte>, start: nat, count: nat): (n: nat)
    ensures n <= count
  {
    if count == 0 then 0 else LiveSlots(d, start, count - 1) + (if Slot(d, start, count - 1)[0] != 0xe5 then 1 else 0)
  }

  /** Every slot in front of the end marker is counted, which is right exactly when none of them is deleted. */
  lemma {:induction false} CountIsLiveIff(d: seq<byte>, start: nat, count: nat)
    ensures LiveSlots(d, start, count) == count <==> forall j | 0 <= j < count :: Slot(d, start, j)[0] != 0xe5
  {
    if count > 0 { CountIsLiveIff(d, start, count - 1); }
  }

  /** An append at the number of live slots would hit the end marker in the same case only: the dead test is what keeps it off other slots. */
  lemma AppendNeedsDeadTest(d: seq<byte>, start: nat, count: nat)
    requires IsEndMarker(d, start, count)
    ensures IsEndMarker(d, start, LiveSlots(d, start, count)) <==> forall j | 0 <= j < count :: Slot(d, start, j)[0] != 0xe5
    ensures LiveSlots(d, start, count) < count ==> Slot(d, start, LiveSlots(d, start, count))[0] != 0
  {
    CountIsLiveIff(d, start, count);
  }

  class FileSystem {
    const v: Volume
    // cluster size and positions as they follow from the header
    const layout: Layout
    const disk: Disk
    const fatStream: DiskStream
    const directoryStream: DiskStream
    const clusterStream: DiskStream
    // the root directory as cached at mount time
    var root: seq<byte>
    var rootTotal: nat

    ghost predicate Valid() {
      && IsLayoutOf(layout, v) && layout.Sound()
      && fatStream.disk == disk && directoryStream.disk == disk && clusterStream.disk == disk
      && fatStream != directoryStream && fatStream != clusterStream && directoryStream != clusterStream
    }

    constructor (v: Volume, disk: Disk)
      ensures Valid() && this.v == v && this.disk == disk
      ensures fresh(fatStream) && fresh(directoryStream) && fresh(clusterStream)
    {
      this.v, this.disk := v, disk;
      fatStream := new DiskStream(disk);
      directoryStream := new DiskStream(disk);
      clusterStream := new DiskStream(disk);
      layout := LayoutOf(v);
      root, rootTotal := [], 0;
      new;
      LayoutIsSound(v);
    }

    ghost function Bytes(): seq<byte>
      reads disk.bytes
    {
      disk.bytes[..]
    }

    /** fat16_get_fat_entry */
    method GetFatEntry(c: uint32) returns (entry: uint16)
      requires Valid()
      modifies fatStream
      ensures entry == FatEntry(v, Bytes(), c)
    {
      var status := fatStream.Seek(v.LookupPos(c));
      var buffer := new byte[2];
      ghost var stale: seq<byte>;
      LookupCovered(v, c);
      SectorsReach(2);
      status, stale := fatStream.Read(buffer, 0, 2);
      assert buffer[0..2][0] == ReadByte(Bytes(), v.LookupPos(c), 2, stale, 0);
      assert buffer[0..2][1] == ReadByte(Bytes(), v.LookupPos(c), 2, stale, 1);
      entry := Pair(buffer[0], buffer[1]);
    }

    /** fat16_get_cluster_for_offset: the error is an `int` that the caller takes for a cluster. */
    method GetClusterForOffset(c: uint32, ahead: nat, ghost d: seq<byte>, ghost next: Lookup) returns (r: int)
      requires Valid() && d == Bytes() && IsFat(next, v, d)
      modifies fatStream
      ensures U32(r) == Advance(next, c, ahead)
    {
      var cluster: uint32 := c;
      for i := 0 to ahead
        invariant Advance(next, c, ahead) == Advance(next, cluster, ahead - i)
      {
        var entry := GetFatEntry(cluster);
        assert entry == FatEntry(v, d, cluster);
        if IsInvalid(entry) {
          return SYSTEM_FAIL;
        }
        cluster := entry;
      }
      r := cluster;
    }

    /** fat16_read_internal_from_stream on the cluster stream, into out[at..at + total]. */
    method ReadInternal(out: array<byte>, at: nat, c: uint32, offset: nat, total: nat, ghost d: seq<byte>, ghost next: Lookup)
        returns (status: int)
      requires Valid() && at + total <= out.Length && out != disk.bytes && offset + total < 0x1_0000_0000
      requires d == Bytes() && IsFat(next, v, d)
      modifies fatStream, clusterStream, out
      ensures status == if total > 0 then OK else SYSTEM_FAIL
      ensures Delivers(layout, d, out[at..at + total], Visited(next, layout.size, c, offset, total))
      ensures forall k | 0 <= k < out.Length && !(at <= k < at + total) :: out[k] == old(out[k])
      decreases total, 0
    {
      var m := Min(total, layout.size);
      var cluster: uint32;
      status, cluster := FirstPiece(out, at, c, offset / layout.size, offset % layout.size, m, d, next);
      if status != OK {
        return SYSTEM_FAIL;
      }
      ghost var piece := out[at..at + m];
      status := ReadLeftovers(out, at + m, cluster, offset + m, total - m, d, next);
      DeliversJoined(layout, d, next, c, offset, total, m, cluster, piece, out[..], at);
    }

    /** The recursive call, when there is something left to read. */
    method ReadLeftovers(out: array<byte>, at: nat, c: uint32, offset: nat, left: nat, ghost d: seq<byte>, ghost next: Lookup)
        returns (status: int)
      requires Valid() && at + left <= out.Length && out != disk.bytes && offset + left < 0x1_0000_0000
      requires d == Bytes() && IsFat(next, v, d)
      modifies fatStream, clusterStream, out
      ensures status == OK
      ensures Delivers(layout, d, out[at..at + left], Visited(next, layout.size, c, offset, left))
      ensures forall k | 0 <= k < out.Length && !(at <= k < at + left) :: out[k] == old(out[k])
      decreases left, 1
    {
      status := OK;
      if left > 0 {
        status := ReadInternal(out, at, c, offset, left, d, next);
      }
    }

    /** What one activation of the recursion does itself: find the cluster, read one piece. */
    method FirstPiece(out: array<byte>, at: nat, c: uint32, ahead: nat, fromCluster: nat, m: nat, ghost d: seq<byte>, ghost next: Lookup)
        returns (status: int, cluster: uint32)
      requires Valid() && at + m <= out.Length && out != disk.bytes && m <= layout.size && fromCluster < layout.size
      requires d == Bytes() && IsFat(next, v, d)
      modifies fatStream, clusterStream, out
      ensures status == if m > 0 then OK else INVALID_ARGUMENT
      ensures cluster == Advance(next, c, ahead)
      ensures Delivers(layout, d, out[at..at + m], Piece(cluster, fromCluster, m))
      ensures forall k | 0 <= k < out.Length && !(at <= k < at + m) :: out[k] == old(out[k])
    {
      var r := GetClusterForOffset(c, ahead, d, next);
      // the caller's test for a negative cluster is made on an unsigned value and never fires
      cluster := U32(r);
      status := ReadPiece(out, at, cluster, fromCluster, m, d);
    }

    /** The seek and the stream read of one piece. */
    method ReadPiece(out: array<byte>, at: nat, cluster: uint32, fromCluster: nat, m: nat, ghost d: seq<byte>) returns (status: int)
      requires Valid() && d == Bytes() && at + m <= out.Length && out != disk.bytes && m <= layout.size && fromCluster < layout.size
      modifies clusterStream, out
      ensures status == if m > 0 then OK else INVALID_ARGUMENT
      ensures Delivers(layout, d, out[at..at + m], Piece(cluster, fromCluster, m))
      ensures forall k | 0 <= k < out.Length && !(at <= k < at + m) :: out[k] == old(out[k])
    {
      status := clusterStream.Seek(U32(layout.at(cluster) + fromCluster));
      ghost var stale: seq<byte>;
      if m > 0 { SectorsReach(m); }
      status, stale := clusterStream.Read(out, at, m);
      PieceDelivers(layout, d, cluster, fromCluster, m, stale);
      assert forall k | 0 <= k < at :: out[k] == out[..at][k];
      assert forall k | at + m <= k < out.Length :: out[k] == out[at + m..][k - (at + m)];
    }

    /** fat16_read: nmemb members of `size` bytes from the descriptor's position. */
    method Read(out: array<byte>, desc: Descriptor, size: uint32, nmemb: uint32, ghost d: seq<byte>, ghost next: Lookup)
        returns (status: int)
      requires Valid() && d == Bytes() && IsFat(next, v, d) && out != disk.bytes && 0 <= nmemb * size <= out.Length && desc.pos + nmemb * size < 0x1_0000_0000
      modifies fatStream, clusterStream, out
      ensures !desc.isFile ==> status == INVALID_ARGUMENT
      ensures desc.isFile ==> status == if nmemb > 0 && size == 0 then DISK_FAIL_TO_READ_STREAM else OK
      ensures status == OK ==>
                Delivers(layout, d, out[..nmemb * size],
                         MembersVisited(next, layout.size, FirstCluster(desc.item), desc.pos, size, nmemb))
    {
      if !desc.isFile {
        return INVALID_ARGUMENT;
      }
      FirstClusterFits(desc.item);
      status := ReadMembers(out, FirstCluster(desc.item), desc.pos, size, nmemb, d, next);
    }

    /** The loop of fat16_read. */
    method ReadMembers(out: array<byte>, cluster: uint32, pos: uint32, size: uint32, nmemb: uint32, ghost d: seq<byte>, ghost next: Lookup)
        returns (status: int)
      requires Valid() && d == Bytes() && IsFat(next, v, d) && out != disk.bytes && 0 <= nmemb * size <= out.Length && pos + nmemb * size < 0x1_0000_0000
      modifies fatStream, clusterStream, out
      ensures status == if nmemb > 0 && size == 0 then DISK_FAIL_TO_READ_STREAM else OK
      ensures status == OK ==> Delivers(layout, d, out[..nmemb * size], MembersVisited(next, layout.size, cluster, pos, size, nmemb))
    {
      var done := 0;
      for i := 0 to nmemb
        invariant done == i * size <= nmemb * size
        invariant size == 0 ==> i == 0
        invariant Bytes() == d
        invariant Delivers(layout, d, out[..done], MembersVisited(next, layout.size, cluster, pos, size, i))
      {
        MemberFits(i, nmemb, size);
        var read := ReadMember(out, done, cluster, pos, size, d, next, i);
        if read != OK {
          return DISK_FAIL_TO_READ_STREAM;
        }
        done := done + size;
      }
      status := OK;
    }

    /** One member, behind the i members read before. */
    method ReadMember(out: array<byte>, done: nat, cluster: uint32, pos: nat, size: uint32, ghost d: seq<byte>, ghost next: Lookup,
                      ghost i: nat) returns (status: int)
      requires Valid() && d == Bytes() && IsFat(next, v, d) && out != disk.bytes
      requires done == i * size && done + size <= out.Length && pos + done + size < 0x1_0000_0000
      requires Delivers(layout, d, out[..done], MembersVisited(next, layout.size, cluster, pos, size, i))
      modifies fatStream, clusterStream, out
      ensures status == if size > 0 then OK else SYSTEM_FAIL
      ensures Delivers(layout, d, out[..done + size], MembersVisited(next, layout.size, cluster, pos, size, i + 1))
    {
      ghost var before := out[..done];
      status := ReadInternal(out, done, cluster, pos + done, size, d, next);
      OneMoreMember(layout, d, next, cluster, pos, size, i, done, before, out[..]);
    }

    /** fat16_get_total_items_for_directory: `count` is the slot of the end marker. */
    method GetTotalItems(sector: nat, ghost count: nat) returns (items: nat)
      requires Valid() && sector * SECTOR + ITEM * (count + 1) < 0x1_0000_0000 && IsEndMarker(Bytes(), sector * SECTOR, count)
      modifies directoryStream
      ensures items == count
      ensures items == LiveSlots(Bytes(), sector * SECTOR, count) <==> forall j | 0 <= j < count :: Slot(Bytes(), sector * SECTOR, j)[0] != 0xe5
    {
      var start: uint32 := U32(sector * SECTOR);
      ghost var d := Bytes();
      CountIsLiveIff(d, sector * SECTOR, count);
      var status := directoryStream.Seek(start);
      var item := new byte[ITEM];
      items := 0;
      ghost var stale: seq<byte>;
      SectorsReach(ITEM);
      while true
        invariant items <= count && directoryStream.pos == start + ITEM * items && Bytes() == d
        decreases count - items
      {
        EntryCovered(sector, items);
        status, stale := directoryStream.Read(item, 0, ITEM);
        assert item[0] == item[0..ITEM][0] == ReadByte(d, start + ITEM * items, ITEM, stale, 0);
        assert item[0] == Slot(d, start, items)[0];
        if item[0] == 0 {
          break;
        }
        // compared as a signed char, no first byte equals the deleted-entry mark
        if Signed(item[0]) != DELETED {
          items := items + 1;
        }
      }
    }

    /** fat16_get_root_directory */
    method LoadRoot(ghost count: nat) returns (status: int, ghost stale: seq<byte>)
      requires Valid() && HasEnd(v, Bytes(), count)
      requires Root(v) + v.RootSize() < 0x1_0000_0000
      modifies directoryStream, `root, `rootTotal
      ensures status == if Moves(v.RootSize()) then OK else DISK_FAIL_TO_READ_STREAM
      ensures status == OK ==> rootTotal == count && |stale| == v.RootSize() && root == ReadBytes(Bytes(), Root(v), v.RootSize(), stale)
      ensures status == OK && v.RootSize() <= 255 * SECTOR ==> root == Slice(Bytes(), Root(v), v.RootSize())
    {
      var total := GetTotalItems(v.RootSector(), count);
      var size := v.RootSize();
      var dir := new byte[size];
      status := directoryStream.Seek(U32(v.RootSector() * SECTOR));
      status, stale := directoryStream.Read(dir, 0, size);
      if status != OK {
        return DISK_FAIL_TO_READ_STREAM, stale;
      }
      root, rootTotal := dir[..], total;
      assert dir[0..0 + size] == dir[..];
      if size <= 255 * SECTOR {
        RootIsCovered(v.RootSector(), size);
        CoveredRead(Bytes(), Root(v), size, stale);
      }
    }

    /** fat16_get_free_cluster, on a table that has a free cluster at or above 3. */
    method GetFreeCluster(total: uint32) returns (c: uint16)
      requires Valid() && LowestFree(v, Bytes(), 3) < 0x1_0000
      modifies fatStream
      ensures c == Allocated(v, Bytes())
    {
      var required := total / layout.size;
      c := SearchFree(required, EndCluster(v));
    }

    /** The loop of fat16_get_free_cluster. */
    method SearchFree(required: nat, endOfFat: uint16) returns (c: uint16)
      requires Valid() && LowestFree(v, Bytes(), 3) < 0x1_0000
      modifies fatStream
      ensures c == if LowestFree(v, Bytes(), 3) <= endOfFat then LowestFree(v, Bytes(), 3) else U16(SYSTEM_FAIL)
    {
      var start: uint16, end: uint16 := 1 + 2, 1 + 2;
      ghost var d := Bytes();
      while true
        invariant 3 <= start == end && LowestFree(v, d, start) == LowestFree(v, d, 3) && Bytes() == d
        decreases 0x1_0000 - start
      {
        var entry := GetFatEntry(start);
        if entry != 0 {
          start, end := NextCluster(end, d);
        } else if end > endOfFat {
          FreeHere(v, d, start);
          return U16(SYSTEM_FAIL);
        } else {
          // start + required >= end holds at the first free cluster, so the run never grows
          assert start + required >= end;
          FreeHere(v, d, start);
          break;
        }
      }
      c := start;
    }

    /** One step of the search past a taken cluster. */
    method NextCluster(end: uint16, ghost d: seq<byte>) returns (start: uint16, end': uint16)
      requires d == Bytes() && LowestFree(v, d, end) < 0x1_0000 && FatEntry(v, d, end) != 0
      ensures end' == start == end + 1 && LowestFree(v, d, start) == LowestFree(v, d, end)
    {
      NotLast(v, d, end);
      start := U16(end + 1);
      end' := start;
    }

    /** fat16_write: `count` is the slot of the root directory's end marker, for a file without a cluster. */
    method Write(input: array<byte>, desc: Descriptor, size: uint32, ghost count: nat) returns (status: int)
      requires Valid() && input != disk.bytes && size <= input.Length
      requires desc.isFile && LowCluster(desc.item) == 0 ==> CanAppend(v, Bytes(), count)
      modifies fatStream, directoryStream, clusterStream, desc`item, disk.bytes
      ensures !desc.isFile ==> status == INVALID_ARGUMENT && Bytes() == old(Bytes()) && desc.item == old(desc.item)
      ensures desc.isFile ==>
                var d, item := old(Bytes()), old(desc.item);
                && desc.item == ItemWritten(v, d, item)
                && status == (if Moves(size) then OK else DISK_FAIL_TO_WRITE_STREAM)
                && (item[26] as int + 0x100 * item[27] as int != 0 ==>
                      desc.item == item
                      && Bytes() == (if Moves(size) then WriteBytes(d, v.ClusterPos(item[26] as int + 0x100 * item[27] as int), input[..size]) else d))
                && Bytes() == (if Moves(size) then WriteBytes(EntryWritten(v, d, item, count), layout.at(LowCluster(desc.item)), input[..size])
                               else EntryWritten(v, d, item, count))
    {
      if !desc.isFile {
        return INVALID_ARGUMENT;
      }
      if LowCluster(desc.item) == 0 {
        Allocate(desc, size, count);
      }
      assert layout == LayoutOf(v);
      status := WriteCluster(input, LowCluster(desc.item), size);
    }

    /** First write: give the item a cluster and store it in the directory. */
    method Allocate(desc: Descriptor, size: uint32, ghost count: nat)
      requires Valid() && LowCluster(desc.item) == 0 && CanAppend(v, Bytes(), count)
      modifies fatStream, directoryStream, desc`item, disk.bytes
      ensures desc.item == ItemWritten(v, old(Bytes()), old(desc.item))
      ensures Bytes() == EntryWritten(v, old(Bytes()), old(desc.item), count)
    {
      WrittenItem(v, Bytes(), desc.item);
      WrittenEntry(v, Bytes(), desc.item, count, ItemWritten(v, Bytes(), desc.item));
      var c := GetFreeCluster(size);
      desc.item := WithLowCluster(desc.item, c);
      AppendEntry(desc.item, count);
    }

    /** The data, written to the cluster's place whatever its length. */
    method WriteCluster(input: array<byte>, c: uint16, size: uint32) returns (status: int)
      requires Valid() && input != disk.bytes && size <= input.Length
      modifies clusterStream, disk.bytes
      ensures status == if Moves(size) then OK else DISK_FAIL_TO_WRITE_STREAM
      ensures Bytes() == if Moves(size) then WriteBytes(old(Bytes()), layout.at(c), input[..size]) else old(Bytes())
    {
      assert layout.SoundAt(c);
      status := clusterStream.Seek(layout.at(c));
      status := clusterStream.Write(input, size);
      if status != OK {
        return DISK_FAIL_TO_WRITE_STREAM;
      }
    }

    /** The store of a new file's item at the directory's end marker. */
    method AppendEntry(item: Item, ghost count: nat)
      requires Valid() && HasEnd(v, Bytes(), count)
      modifies directoryStream, disk.bytes
      ensures Bytes() == WriteBytes(old(Bytes()), Root(v) + ITEM * count, item)
    {
      var items := GetTotalItems(v.RootSector(), count);
      var position := U32(U32(v.RootSector() * SECTOR) + ITEM * items);
      var status := directoryStream.Seek(position);
      var buffer := new byte[ITEM](i requires 0 <= i < ITEM => item[i]);
      SectorsReach(ITEM);
      status := directoryStream.Write(buffer, ITEM);
      assert buffer[..ITEM] == item;
    }

    /** fat16_seek: whatever the mode, a new position is a position inside the file. */
    method Seek(desc: Descriptor, offset: uint32, mode: SeekMode) returns (status: int)
      modifies desc`pos
      ensures status == OK <==> desc.isFile && offset < FileSize(desc.item)
                                && (mode == Set || (mode == Cur && U32(old(desc.pos) + offset) < FileSize(desc.item)))
      ensures status == OK ==> desc.pos < FileSize(desc.item) && desc.pos == if mode == Set then offset else U32(old(desc.pos) + offset)
      ensures status != OK ==> desc.pos == old(desc.pos)
    {
      if !desc.isFile {
        return INVALID_ARGUMENT;
      }
      if offset >= FileSize(desc.item) {
        return SYSTEM_FAIL;
      }
      match mode {
        case Set =>
          desc.pos := offset;
        case End =>
          return NOT_IMPLEMENTED;
        case Cur =>
          if U32(desc.pos + offset) >= FileSize(desc.item) {
            return SYSTEM_FAIL;
          }
          desc.pos := U32(desc.pos + offset);
      }
      status := OK;
    }
  }

  /** What fat16_get_free_cluster returns: an error code narrowed to a cluster number when the volume is full. */
  function Allocated(v: Volume, d: seq<byte>): uint16
    requires LowestFree(v, d, 3) < 0x1_0000
  {
    var c := LowestFree(v, d, 3);
    if c <= EndCluster(v) then c else U16(SYSTEM_FAIL)
  }

  /** The root directory has its end marker in slot `count`. */
  ghost predicate HasEnd(v: Volume, d: seq<byte>, count: nat) {
    Root(v) + ITEM * (count + 1) < 0x1_0000_0000 && IsEndMarker(d, Root(v), count)
  }

  /** The searches a first write makes come to an end. */
  ghost predicate CanAppend(v: Volume, d: seq<byte>, count: nat) { HasEnd(v, d, count) && LowestFree(v, d, 3) < 0x1_0000 }

  function ItemWritten(v: Volume, d: seq<byte>, item: Item): Item
    requires LowCluster(item) == 0 ==> LowestFree(v, d, 3) < 0x1_0000
  {
    if LowCluster(item) == 0 then WithLowCluster(item, Allocated(v, d)) else item
  }

  function EntryWritten(v: Volume, d: seq<byte>, item: Item, count: nat): seq<byte>
    requires LowCluster(item) == 0 ==> LowestFree(v, d, 3) < 0x1_0000
  {
    if LowCluster(item) == 0 then WriteBytes(d, Root(v) + ITEM * count, ItemWritten(v, d, item)) else d
  }

  lemma WrittenItem(v: Volume, d: seq<byte>, item: Item)
    requires LowCluster(item) == 0 && LowestFree(v, d, 3) < 0x1_0000
    ensures ItemWritten(v, d, item) == WithLowCluster(item, Allocated(v, d))
  {
  }

  lemma WrittenEntry(v: Volume, d: seq<byte>, item: Item, count: nat, entry: Item)
    requires LowCluster(item) == 0 && LowestFree(v, d, 3) < 0x1_0000 && entry == ItemWritten(v, d, item)
    ensures EntryWritten(v, d, item, count) == WriteBytes(d, Root(v) + ITEM * count, entry)
  {
  }

  /** On a directory with room, the write of a new file, refused or not, is the step that runs are made of. */
  lemma WriteIsFirstWrite(v: Volume, d: seq<byte>, item: Item, data: seq<byte>, count: nat)
    requires HasDirectory(v, d, count) && HasRoom(v, d, count) && LowCluster(item) == 0
    ensures CanAppend(v, d, count)
    ensures FirstWrite(v, d, count, NewFile(item, data)) ==
              if Moves(|data|) then WriteBytes(EntryWritten(v, d, item, count), LayoutOf(v).at(LowCluster(ItemWritten(v, d, item))), data)
              else EntryWritten(v, d, item, count)
  {
    assert Slot(d, Root(v), count)[0] == 0;
    if !Moves(|data|) { RefusedWrite(EntryWritten(v, d, item, count), v.ClusterPos(LowestFree(v, d, 3)), data); }
  }

  /** On a full volume the narrowed error code becomes the file's cluster. */
  lemma FullVolumeIff(v: Volume, d: seq<byte>, item: Item)
    requires LowCluster(item) == 0 && LowestFree(v, d, 3) < 0x1_0000
    ensures LowCluster(ItemWritten(v, d, item)) == 0xFFCF <==> LowestFree(v, d, 3) > EndCluster(v) || LowestFree(v, d, 3) == 0xFFCF
    ensures LowCluster(ItemWritten(v, d, item)) == LowestFree(v, d, 3) <==> LowestFree(v, d, 3) <= EndCluster(v) || LowestFree(v, d, 3) == 0xFFCF
  {
  }

  /** The entry goes into the root directory exactly when it has a slot left; otherwise into the data area, at this cluster. */
  lemma EntryStaysInRootIff(v: Volume, count: nat)
    requires v.RootSize() % SECTOR == 0
    ensures Root(v) + ITEM * count + ITEM <= Root(v) + v.RootSize() <==> count < v.rootEntries
    ensures count >= v.rootEntries ==>
              var e := v.ClusterAt(ITEM * (count - v.rootEntries));
              v.Reaches(e) ==> v.ClusterPos(e) <= Root(v) + ITEM * count
                               && Root(v) + ITEM * count + ITEM <= v.ClusterPos(e) + v.ClusterSize()
  {
    if count >= v.rootEntries {
      var e := v.ClusterAt(ITEM * (count - v.rootEntries));
      if v.Reaches(e) {
        ClusterPosInReach(v, e);
        SpilledEntry(v.EndingSector(), v.sectorsPerCluster, count - v.rootEntries, e - 2);
      }
    }
  }

  lemma SpilledEntry(ending: nat, spc: nat, k: nat, q: nat)
    requires spc > 0 && q == ITEM * k / (spc * SECTOR)
    ensures (ending + q * spc) * SECTOR <= ending * SECTOR + ITEM * k
    ensures ending * SECTOR + ITEM * k + ITEM <= (ending + q * spc) * SECTOR + spc * SECTOR
  {
    MultipleLeavesRoom(ITEM, k, spc * 16);
    Split(spc * SECTOR, ITEM * k);
    assert q * (spc * SECTOR) == q * spc * SECTOR;
  }

  /** In either case the item is what lies there afterwards. */
  lemma EntryIsOnDisk(v: Volume, d: seq<byte>, item: Item, count: nat)
    requires LowCluster(item) == 0 && LowestFree(v, d, 3) < 0x1_0000 && Root(v) + ITEM * count + ITEM <= |d|
    ensures Slot(EntryWritten(v, d, item, count), Root(v), count) == ItemWritten(v, d, item)
  {
    EntryCovered(v.RootSector(), count);
    WrittenIsThere(d, Root(v) + ITEM * count, ItemWritten(v, d, item));
    WrittenEntry(v, d, item, count, ItemWritten(v, d, item));
  }

  lemma WrittenIsThere(d: seq<byte>, pos: nat, data: seq<byte>)
    requires Covers(pos, |data|) && pos + |data| <= |d|
    ensures Slice(WriteBytes(d, pos, data), pos, |data|) == data
  {
    CoveredWrite(d, pos, data);
    SliceIs(WriteBytes(d, pos, data), pos, data);
  }

  /** What a file's item promises: data written to it comes back exactly when the high half of its cluster adds no bit. */
  lemma StoredReadsBackIff(v: Volume, item: Item, n: nat)
    requires v.Reaches(LowCluster(item)) && 0 < n <= v.ClusterSize()
    ensures FirstCluster(item) == LowCluster(item) <==>
            forall d: seq<byte>, data: seq<byte>, bytes: seq<byte>
              | |data| == n && v.ClusterPos(LowCluster(item)) + n <= |d|
                && ReadsBack(v, d, LowCluster(item), FirstCluster(item), data, bytes) :: bytes == data
  {
    RoundTripIff(v, LowCluster(item), FirstCluster(item), n);
  }

  lemma FreeHere(v: Volume, d: seq<byte>, from: nat)
    requires from < 0x1_0000 && FatEntry(v, d, from) == 0
    ensures LowestFree(v, d, from) == from
  {
  }

  lemma NotLast(v: Volume, d: seq<byte>, from: nat)
    requires LowestFree(v, d, from) < 0x1_0000 && from < 0x1_0000 && FatEntry(v, d, from) != 0
    ensures from + 1 < 0x1_0000 && LowestFree(v, d, from + 1) == LowestFree(v, d, from)
  {
  }

  lemma RootIsCovered(sector: nat, size: nat)
    requires size <= 255 * SECTOR
    ensures size > 0 ==> Covers(sector * SECTOR, size)
  {
    if size > 0 {
      AlignedPlus(sector, 0);
      SectorsAreCoveredIff(sector * SECTOR, size);
    }
  }

  lemma CoveredRead(d: seq<byte>, pos: nat, n: nat, stale: seq<byte>)
    requires |stale| == n && (n > 0 ==> Covers(pos, n))
    ensures ReadBytes(d, pos, n, stale) == Slice(d, pos, n)
  {
    forall i | 0 <= i < n ensures ReadByte(d, pos, n, stale, i) == ByteOf(d, pos + i) {
    }
  }

  lemma FirstClusterFits(item: Item)
    ensures FirstCluster(item) < 0x1_0000
  {
    assert Pow2(16) == 0x1_0000 by { assert Pow2(8) == 256; }
    OrBelow(0, HighCluster(item), LowCluster(item), 16);
  }

  lemma OneMoreMember(l: Layout, d: seq<byte>, next: Lookup, c: nat, pos: nat, s: nat, i: nat, done: nat,
                      before: seq<byte>, out: seq<byte>)
    requires l.size > 0 && done == i * s == |before| && done + s <= |out| && forall k | 0 <= k < done :: out[k] == before[k]
    requires Delivers(l, d, before, MembersVisited(next, l.size, c, pos, s, i))
    requires Delivers(l, d, out[done..done + s], Visited(next, l.size, c, pos + done, s))
    ensures Delivers(l, d, out[..done + s], MembersVisited(next, l.size, c, pos, s, i + 1))
  {
    DeliversNext(l, d, before, MembersVisited(next, l.size, c, pos, s, i), out, s, Visited(next, l.size, c, pos + done, s));
    MembersStep(next, l.size, c, pos, s, i, done);
  }

  lemma DeliversNext(l: Layout, d: seq<byte>, before: seq<byte>, sources: seq<Source>, out: seq<byte>, more: nat, next: seq<Source>)
    requires |before| + more <= |out| && forall k | 0 <= k < |before| :: out[k] == before[k]
    requires Delivers(l, d, before, sources) && Delivers(l, d, out[|before|..|before| + more], next)
    ensures Delivers(l, d, out[..|before| + more], sources + next)
  {
    Grown(out, before, more);
    DeliversBoth(l, d, before, sources, out[|before|..|before| + more], next);
  }

  lemma MembersStep(next: Lookup, size: nat, c: nat, pos: nat, s: nat, i: nat, done: nat)
    requires size > 0 && done == i * s
    ensures MembersVisited(next, size, c, pos, s, i + 1)
         == MembersVisited(next, size, c, pos, s, i) + Visited(next, size, c, pos + done, s)
  {
  }

  lemma OneMember(next: Lookup, size: nat, c: nat, s: nat)
    requires size > 0
    ensures MembersVisited(next, size, c, 0, s, 1) == Visited(next, size, c, 0, s)
  {
    assert MembersVisited(next, size, c, 0, s, 0) == [];
  }

  /** The file's data has a cluster to go to, its own or one that a first write will find, and reads look
      for it there: the high half of the cluster number adds no bit to the low one. */
  ghost predicate CanStore(v: Volume, d: seq<byte>, item: Item, n: nat, count: nat) {
    && (LowCluster(item) == 0 ==> HasDirectory(v, d, count) && HasRoom(v, d, count))
    && var c := LowCluster(ItemWritten(v, d, item));
       v.Reaches(c) && v.ClusterPos(c) + n <= |d| && FirstCluster(ItemWritten(v, d, item)) == c
  }

  /** Through one descriptor at position 0: up to a cluster written and read back is unchanged. */
  method WriteThenRead(fs: FileSystem, input: array<byte>, output: array<byte>, desc: Descriptor, size: uint32, ghost count: nat)
    requires fs.Valid()
    requires input != fs.disk.bytes && output != fs.disk.bytes && input != output && size <= input.Length && size <= output.Length
    requires desc.isFile && desc.pos == 0 && 0 < size <= fs.v.ClusterSize()
    requires CanStore(fs.v, fs.Bytes(), desc.item, size, count)
    modifies fs.fatStream, fs.directoryStream, fs.clusterStream, desc`item, fs.disk.bytes, output
    ensures output[..size] == input[..size]
  {
    ghost var d := fs.Bytes();
    ghost var d1 := EntryWritten(fs.v, d, desc.item, count);
    SectorsReach(size);
    if LowCluster(desc.item) == 0 {
      WriteIsFirstWrite(fs.v, d, desc.item, [], count);
    }
    var status := fs.Write(input, desc, size, count);
    ghost var d2, next := fs.Bytes(), Fat(fs.v, fs.Bytes());
    FatIsFat(fs.v, d2);
    status := fs.Read(output, desc, size, 1, d2, next);
    OneMember(next, fs.layout.size, LowCluster(desc.item), size);
    assert output[..1 * size] == output[..size];
    WriteReadRoundTrip(fs.v, d1, next, LowCluster(desc.item), input[..size], output[..size]);
  }
}
