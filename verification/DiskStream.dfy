/** Byte streams over the sector disk. */
module DiskStreams {
  import opened Machine
  import HeapTable

  const SECTOR := 512

  /** The disk's byte at position p; past the end of the disk there are only zeros. */
  function ByteOf(d: seq<byte>, p: nat): byte { if p < |d| then d[p] else 0 }

  /** n bytes of the flat disk from pos on. */
  function Slice(d: seq<byte>, pos: nat, n: nat): seq<byte> { seq<byte>(n, i requires 0 <= i < n => ByteOf(d, pos + i)) }

  /** The flat disk with data written at pos. */
  function Overlay(d: seq<byte>, pos: nat, data: seq<byte>): seq<byte> {
    seq(|d|, p requires 0 <= p < |d| => if pos <= p < pos + |data| then data[p - pos] else d[p])
  }

  /** disk_stream_get_affected_sectors: whole sectors for n bytes, whatever the position. */
  function SectorsFor(n: nat): nat { n / SECTOR + (if n % SECTOR != 0 then 1 else 0) }

  /** The sectors the disk is really asked for: the count is passed as 8 bits. */
  function SectorsMoved(n: nat): nat { SectorsFor(n) % 0x100 }

  /** The bytes of the stream's buffer that hold disk contents. */
  function Filled(n: nat): nat { SectorsMoved(n) * SECTOR }

  /** Where in its first sector a position lies. */
  function InSector(pos: nat): nat { pos % SECTOR }

  /** A transfer takes the sectors it rounds up to, but of their number only the low 8 bits. */
  lemma TransferCounts(n: nat)
    ensures SectorsFor(n) == (n + 511) / 512 && SectorsMoved(n) == (n + 511) / 512 % 256
    ensures Filled(n) == (n + 511) / 512 % 256 * 512
    ensures Moves(n) <==> (n + 511) / 512 % 256 != 0
  {
  }

  /** The transfer reaches the disk at all. */
  predicate Moves(n: nat) { n > 0 && SectorsMoved(n) != 0 }

  /** All of the transfer lies in the sectors moved. */
  predicate Covers(pos: nat, n: nat) { n > 0 && InSector(pos) + n <= Filled(n) }

  /** What a read delivers: disk bytes where the buffer was filled, stale memory behind it. */
  function ReadBytes(d: seq<byte>, pos: nat, n: nat, stale: seq<byte>): seq<byte>
    requires |stale| == n
  {
    seq(n, i requires 0 <= i < n => ReadByte(d, pos, n, stale, i))
  }

  function ReadByte(d: seq<byte>, pos: nat, n: nat, stale: seq<byte>, i: nat): byte
    requires i < n == |stale|
  {
    if InSector(pos) + i < Filled(n) then ByteOf(d, pos + i) else stale[i]
  }

  /** A write of n bytes at pos gets as far as position p. */
  predicate Lands(pos: nat, n: nat, p: nat) { pos <= p < pos + n && InSector(pos) + (p - pos) < Filled(n) }

  /** What a write leaves: the data as far as the moved sectors reach, every other byte unchanged. */
  function WriteBytes(d: seq<byte>, pos: nat, data: seq<byte>): seq<byte> {
    seq(|d|, p requires 0 <= p < |d| => if Lands(pos, |data|, p) then data[p - pos] else d[p])
  }

  /** A refused write is one that would not get anywhere. */
  lemma RefusedWrite(d: seq<byte>, pos: nat, data: seq<byte>)
    requires !Moves(|data|)
    ensures WriteBytes(d, pos, data) == d
  {
  }

  lemma Constant(n: nat, v: byte) returns (s: seq<byte>)
    ensures |s| == n && forall i | 0 <= i < n :: s[i] == v
  {
    s := seq(n, _ => v);
  }

  /** A read is exact, on every disk that holds its range and whatever lay in memory, exactly when the moved sectors cover it. */
  lemma ReadExactIff(pos: nat, n: nat)
    requires n > 0
    ensures Covers(pos, n) <==>
            forall d: seq<byte>, stale: seq<byte> | pos + n <= |d| && |stale| == n ::
              ReadBytes(d, pos, n, stale) == Slice(d, pos, n)
  {
    if Covers(pos, n) {
      forall d: seq<byte>, stale: seq<byte> | |stale| == n
        ensures ReadBytes(d, pos, n, stale) == Slice(d, pos, n)
      {
      }
    } else {
      var d := Constant(pos + n, 0);
      var stale := Constant(n, 1);
      assert ReadBytes(d, pos, n, stale)[n - 1] == ReadByte(d, pos, n, stale, n - 1) == 1;
      assert Slice(d, pos, n)[n - 1] == ByteOf(d, pos + n - 1) == 0;
    }
  }

  /** A write is exact, on every disk that holds its range and for all data, exactly when the moved sectors cover it. */
  lemma WriteExactIff(pos: nat, n: nat)
    requires n > 0
    ensures Covers(pos, n) <==>
            forall d: seq<byte>, data: seq<byte> | pos + n <= |d| && |data| == n ::
              WriteBytes(d, pos, data) == Overlay(d, pos, data)
  {
    if Covers(pos, n) {
      forall d: seq<byte>, data: seq<byte> | |data| == n
        ensures WriteBytes(d, pos, data) == Overlay(d, pos, data)
      {
      }
    } else {
      var d := Constant(pos + n, 0);
      var data := Constant(n, 1);
      assert WriteBytes(d, pos, data)[pos + n - 1] == 0 && Overlay(d, pos, data)[pos + n - 1] == 1;
    }
  }

  /** A covered write, a seek back and a read of the same length return the written bytes. */
  lemma WriteThenRead(d: seq<byte>, pos: nat, data: seq<byte>, stale: seq<byte>)
    requires Covers(pos, |data|) && pos + |data| <= |d| && |stale| == |data|
    ensures ReadBytes(WriteBytes(d, pos, data), pos, |data|, stale) == data
  {
    var d' := WriteBytes(d, pos, data);
    forall i | 0 <= i < |data| ensures ReadByte(d', pos, |data|, stale, i) == data[i] {
      assert d'[pos + i] == data[i];
    }
  }

  /** The stream's sector, its in-sector offset and its buffer size fit together. */
  lemma StreamBounds(pos: nat, n: nat)
    ensures pos == pos / SECTOR * SECTOR + InSector(pos) && InSector(pos) < SECTOR
    ensures InSector(pos) + n <= (SectorsFor(n) + 1) * SECTOR && SectorsMoved(n) <= SectorsFor(n) && SectorsMoved(n) < 0x100
  {
  }

  lemma SectorsReach(n: nat)
    requires 0 < n <= 255 * SECTOR
    ensures Moves(n) && n <= Filled(n) < n + SECTOR
  {
  }

  lemma AlignedPlus(k: nat, r: nat)
    ensures InSector(k * SECTOR + r) == InSector(r)
  {
  }

  /** A directory entry at a multiple of its size is covered. */
  lemma EntriesAreCovered(k: nat)
    ensures Covers(32 * k, 32)
  {
    AlignedPlus(k / 16, 32 * (k % 16));
    assert 32 * k == k / 16 * SECTOR + 32 * (k % 16);
  }

  /** A FAT entry at an even position is covered. */
  lemma PairsAreCovered(k: nat)
    ensures Covers(2 * k, 2)
  {
    AlignedPlus(k / 256, 2 * (k % 256));
    assert 2 * k == k / 256 * SECTOR + 2 * (k % 256);
  }

  /** A transfer from the start of a sector is covered exactly up to 255 sectors. */
  lemma SectorsAreCoveredIff(pos: nat, n: nat)
    requires InSector(pos) == 0 && n > 0
    ensures Covers(pos, n) <==> n <= 255 * SECTOR
  {
    if n <= 255 * SECTOR { SectorsReach(n); }
  }

  /** What a stream's buffer of whole sectors costs: the heap gets it back exactly when it fits one block. */
  lemma BufferIsReturnedIff(s: HeapTable.State, n: uint32, b: nat)
    requires HeapTable.Inv(s) && 0 < n <= 0xffff_f000
    requires HeapTable.FirstFit(s.table, HeapTable.AlignRequest(SECTOR * SectorsFor(n)) / HeapTable.BLOCK_SIZE, 0) == Some(b)
    requires HeapTable.StopsOnTable(s.table, b)
    ensures HeapTable.MallocStep(s, SECTOR * SectorsFor(n)).Some?
    ensures var s' := HeapTable.FreeStep(HeapTable.MallocStep(s, SECTOR * SectorsFor(n)).value, b);
            && s'.Some? && s'.value.live == s.live
            && (s'.value.table == s.table <==> n <= HeapTable.BLOCK_SIZE)
            && s'.value.leaked == s.leaked + if n <= HeapTable.BLOCK_SIZE then 0 else 1
  {
    BufferBlocks(n);
    HeapTable.FreeUndoesMallocIff(s, SECTOR * SectorsFor(n), b);
  }

  /**
   The copy into or out of a stream's buffer stays in the blocks allocated for it exactly when the
   in-sector offset fits behind the transfer in its last block.
   */
  lemma CopyStaysInBufferIff(pos: nat, n: uint32)
    requires 0 < n <= 0xffff_f000
    ensures InSector(pos) + n <= HeapTable.AlignRequest(SECTOR * SectorsFor(n)) <==>
            InSector(pos) == 0 || (n % HeapTable.BLOCK_SIZE != 0 && InSector(pos) + n % HeapTable.BLOCK_SIZE <= HeapTable.BLOCK_SIZE)
  {
    BufferBlocks(n);
  }

  /** Otherwise it runs into the block behind the buffer, whoever owns it. */
  lemma OverrunReachesNextBlock(pos: nat, n: uint32)
    requires 0 < n <= 0xffff_f000 && InSector(pos) + n > HeapTable.AlignRequest(SECTOR * SectorsFor(n))
    ensures (InSector(pos) + n - 1) / HeapTable.BLOCK_SIZE == HeapTable.AlignRequest(SECTOR * SectorsFor(n)) / HeapTable.BLOCK_SIZE
  {
    BufferBlocks(n);
  }

  /** The buffer of a transfer takes as many blocks as the transfer itself. */
  lemma BufferBlocks(n: uint32)
    requires 0 < n <= 0xffff_f000
    ensures SECTOR * SectorsFor(n) < 0x1_0000_0000 && HeapTable.AlignRequest(SECTOR * SectorsFor(n)) == HeapTable.AlignRequest(n)
    ensures HeapTable.AlignRequest(n) ==
              n - n % HeapTable.BLOCK_SIZE + (if n % HeapTable.BLOCK_SIZE == 0 then 0 else HeapTable.BLOCK_SIZE)
  {
    var q := (n - 1) / HeapTable.BLOCK_SIZE;
    InSectors(n, q);
    AlignedTo(n, q);
    AlignedTo(SECTOR * SectorsFor(n), q);
  }

  lemma InSectors(n: nat, q: nat)
    requires q * HeapTable.BLOCK_SIZE < n <= (q + 1) * HeapTable.BLOCK_SIZE
    ensures n <= SECTOR * SectorsFor(n) <= (q + 1) * HeapTable.BLOCK_SIZE
  {
  }

  lemma AlignedTo(n: uint32, q: nat)
    requires q * HeapTable.BLOCK_SIZE < n <= (q + 1) * HeapTable.BLOCK_SIZE < 0x1_0000_0000
    ensures HeapTable.AlignRequest(n) == (q + 1) * HeapTable.BLOCK_SIZE
    ensures n - n % HeapTable.BLOCK_SIZE + (if n % HeapTable.BLOCK_SIZE == 0 then 0 else HeapTable.BLOCK_SIZE) == (q + 1) * HeapTable.BLOCK_SIZE
  {
  }

  class Disk {
    const bytes: array<byte>

    constructor (bytes: array<byte>)
      ensures this.bytes == bytes
    {
      this.bytes := bytes;
    }

    /** disk_read_block, without the port handshake. */
    method ReadBlock(buffer: array<byte>, lba: nat, sectors: nat) returns (status: int)
      requires sectors < 0x100 && sectors * SECTOR <= buffer.Length && buffer != bytes
      modifies buffer
      ensures status == if sectors == 0 then INVALID_ARGUMENT else OK
      ensures buffer[..sectors * SECTOR] == Slice(bytes[..], lba * SECTOR, sectors * SECTOR)
      ensures buffer[sectors * SECTOR..] == old(buffer[sectors * SECTOR..])
    {
      if sectors == 0 {
        return INVALID_ARGUMENT;
      }
      for k := 0 to sectors * SECTOR
        invariant forall i | 0 <= i < buffer.Length ::
                    buffer[i] == if i < k then ByteOf(bytes[..], lba * SECTOR + i) else old(buffer[i])
      {
        buffer[k] := if lba * SECTOR + k < bytes.Length then bytes[lba * SECTOR + k] else 0;
      }
      return OK;
    }

    /** disk_write_block: what would land past the end of the disk is lost. */
    method WriteBlock(buffer: array<byte>, lba: nat, sectors: nat) returns (status: int)
      requires sectors < 0x100 && sectors * SECTOR <= buffer.Length && buffer != bytes
      modifies bytes
      ensures status == if sectors == 0 then INVALID_ARGUMENT else OK
      ensures bytes[..] == Overlay(old(bytes[..]), lba * SECTOR, buffer[..sectors * SECTOR])
    {
      if sectors == 0 {
        return INVALID_ARGUMENT;
      }
      for k := 0 to sectors * SECTOR
        invariant forall p | 0 <= p < bytes.Length ::
                    bytes[p] == if lba * SECTOR <= p < lba * SECTOR + k then buffer[p - lba * SECTOR] else old(bytes[p])
      {
        if lba * SECTOR + k < bytes.Length {
          bytes[lba * SECTOR + k] := buffer[k];
        }
      }
      return OK;
    }
  }

  /** The copy out of the buffer, seen from the flat disk. */
  lemma ReadAssembles(d: seq<byte>, pos: nat, n: nat, filled: seq<byte>)
    requires InSector(pos) + n <= |filled|
    requires Filled(n) <= |filled| && filled[..Filled(n)] == Slice(d, pos / SECTOR * SECTOR, Filled(n))
    ensures var got := filled[InSector(pos)..InSector(pos) + n]; got == ReadBytes(d, pos, n, got)
  {
    StreamBounds(pos, n);
    var got := filled[InSector(pos)..InSector(pos) + n];
    forall i | 0 <= i < n && InSector(pos) + i < Filled(n) ensures got[i] == ByteOf(d, pos + i) {
      assert got[i] == filled[..Filled(n)][InSector(pos) + i];
    }
  }

  /** A buffer with its middle replaced. */
  lemma Replaced(local: seq<byte>, filled: seq<byte>, offset: nat, data: seq<byte>)
    requires offset + |data| <= |local| == |filled|
    requires local[..offset] == filled[..offset] && local[offset..offset + |data|] == data
    requires local[offset + |data|..] == filled[offset + |data|..]
    ensures local == filled[..offset] + data + filled[offset + |data|..]
  {
    assert local == local[..offset] + local[offset..offset + |data|] + local[offset + |data|..];
  }

  /** Sectors read, overlaid and written back, seen from the flat disk. */
  lemma WriteAssembles(d: seq<byte>, d': seq<byte>, pos: nat, data: seq<byte>, filled: seq<byte>, local: seq<byte>)
    requires |filled| == |local| == (SectorsFor(|data|) + 1) * SECTOR
    requires Filled(|data|) <= |filled| && filled[..Filled(|data|)] == Slice(d, pos / SECTOR * SECTOR, Filled(|data|))
    requires InSector(pos) + |data| <= |local|
    requires local == filled[..InSector(pos)] + data + filled[InSector(pos) + |data|..]
    requires d' == Overlay(d, pos / SECTOR * SECTOR, local[..Filled(|data|)])
    ensures d' == WriteBytes(d, pos, data)
  {
    StreamBounds(pos, |data|);
    var first, n := pos / SECTOR * SECTOR, Filled(|data|);
    forall p | first <= p < first + n && p < |d| && !(pos <= p < pos + |data|) ensures local[p - first] == d[p] {
      assert filled[p - first] == filled[..n][p - first] == ByteOf(d, p);
    }
  }

  /** The byte loops of disk_stream_read and disk_stream_write. */
  method Copy(to: array<byte>, at: nat, from: array<byte>, offset: nat, n: nat)
    requires to != from && at + n <= to.Length && offset + n <= from.Length
    modifies to
    ensures to[..at] == old(to[..at]) && to[at..at + n] == from[offset..offset + n] && to[at + n..] == old(to[at + n..])
  {
    for i := 0 to n
      invariant forall k | 0 <= k < to.Length :: to[k] == if at <= k < at + i then from[offset + (k - at)] else old(to[k])
    {
      to[at + i] := from[offset + i];
    }
  }

  class DiskStream {
    const disk: Disk
    var pos: uint32

    constructor (disk: Disk)
      ensures this.disk == disk && pos == 0
    {
      this.disk, pos := disk, 0;
    }

    method Seek(pos: uint32) returns (status: int)
      modifies this
      ensures status == OK && this.pos == pos
    {
      this.pos := pos;
      return OK;
    }

    /** disk_stream_read into buffer[at..at + n]; `stale` is what the memory behind the filled buffer held. */
    method Read(buffer: array<byte>, at: nat, n: uint32) returns (status: int, ghost stale: seq<byte>)
      requires at + n <= buffer.Length && buffer != disk.bytes
      modifies this, buffer
      ensures status == if Moves(n) then OK else INVALID_ARGUMENT
      ensures |stale| == n
      ensures status == OK ==> pos == U32(old(pos) + n)
                               && buffer[at..at + n] == ReadBytes(disk.bytes[..], old(pos), n, stale)
      ensures status != OK ==> pos == old(pos) && buffer[..] == old(buffer[..])
      ensures buffer[..at] == old(buffer[..at]) && buffer[at + n..] == old(buffer[at + n..])
    {
      stale := seq(n, _ => 0);
      if n == 0 {
        return INVALID_ARGUMENT, stale;
      }
      StreamBounds(pos, n);
      var sectors := SectorsFor(n);
      var sector, offset := pos / SECTOR, InSector(pos);
      // the allocation, with the memory behind it that the copy below may run into
      var local := new byte[(sectors + 1) * SECTOR];
      status := disk.ReadBlock(local, sector, SectorsMoved(n));
      if status != OK {
        return INVALID_ARGUMENT, stale;
      }
      ghost var filled := local[..];
      stale := local[offset..offset + n];
      Copy(buffer, at, local, offset, n);
      ReadAssembles(disk.bytes[..], pos, n, filled);
      pos := U32(pos + n);
    }

    /** disk_stream_write of buffer[..n]: read the sectors, replace, write them back. */
    method Write(buffer: array<byte>, n: uint32) returns (status: int)
      requires n <= buffer.Length && buffer != disk.bytes
      modifies this, disk.bytes
      ensures status == if Moves(n) then OK else INVALID_ARGUMENT
      ensures status == OK ==> pos == U32(old(pos) + n) && disk.bytes[..] == WriteBytes(old(disk.bytes[..]), old(pos), buffer[..n])
      ensures status != OK ==> pos == old(pos) && disk.bytes[..] == old(disk.bytes[..])
    {
      if n == 0 {
        return INVALID_ARGUMENT;
      }
      StreamBounds(pos, n);
      var sectors := SectorsFor(n);
      var sector, offset := pos / SECTOR, InSector(pos);
      var local := new byte[(sectors + 1) * SECTOR];
      status := disk.ReadBlock(local, sector, SectorsMoved(n));
      if status != OK {
        return INVALID_ARGUMENT;
      }
      ghost var filled := local[..];
      Copy(local, offset, buffer, 0, n);
      status := disk.WriteBlock(local, sector, SectorsMoved(n));
      if status != OK {
        return DISK_FAIL_TO_WRITE_STREAM;
      }
      Replaced(local[..], filled, offset, buffer[..n]);
      WriteAssembles(old(disk.bytes[..]), disk.bytes[..], pos, buffer[..n], filled, local[..]);
      pos := U32(pos + n);
    }
  }
}
