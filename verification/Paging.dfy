/** paging_create_chunk and paging_set, over the kernel heap. */
module Paging {
  import opened Machine
  import opened Bits
  import opened HeapTable
  import opened KernelHeap
  import opened PageTables

  /** The heap's words as physical memory. */
  ghost function RamOf(heap: Heap): Ram
    reads heap, heap.mem
  {
    Ram(heap.start, heap.mem[..])
  }

  predicate Elsewhere(k: nat, block: nat) {
    !(block * WORDS_PER_BLOCK <= k < (block + 1) * WORDS_PER_BLOCK)
  }

  /** How many blocks the table shows as free. */
  ghost function FreeBlocks(s: State): int
    requires s.Blocks() >= 0
  {
    s.Blocks() - CountTaken(s.table, s.Blocks())
  }

  /** One-block mallocs have been made for the blocks in `got`, and nothing else has changed hands. */
  ghost predicate Extends(live: map<nat, nat>, live': map<nat, nat>, got: set<nat>) {
    && (forall b | b in live :: b in live' && live'[b] == live[b])
    && (forall b | b in got :: b !in live && b in live' && live'[b] == 1)
    && (forall b | b in live' :: b in live || b in got)
    && (forall c, b | c in got && b in live :: c < b || b + live[b] <= c)
  }

  /** A malloc of one block succeeds exactly when a block is free, and adds that block to the live ones. */
  lemma OneBlockMalloc(s: State)
    requires Inv(s)
    ensures MallocStep(s, BLOCK_SIZE).Some? <==> FreeBlocks(s) >= 1
    ensures MallocStep(s, BLOCK_SIZE).Some? ==>
              var b, s' := FirstFit(s.table, 1, 0), MallocStep(s, BLOCK_SIZE).value;
              b.Some? && b.value < s.Blocks() == s'.Blocks() && s'.leaked == s.leaked
              && Extends(s.live, s'.live, {b.value}) && FreeBlocks(s') == FreeBlocks(s) - 1
  {
    FindsFreeBlock(s.table);
    if MallocStep(s, BLOCK_SIZE).Some? {
      MallocStaysClear(s, BLOCK_SIZE);
      MarkTakesOne(s.table, FirstFit(s.table, 1, 0).value);
    }
  }

  lemma MarkTakesOne(t: seq<Entry>, b: nat)
    requires FreeRun(t, b, 1)
    ensures CountTaken(Mark(t, b, 1), |t| - 1) == CountTaken(t, |t| - 1) + 1
  {
    RunEntryFlags(0, 1);
    CountTakenChange(t, Mark(t, b, 1), b, b + 1, |t| - 1);
  }

  lemma FindsFreeBlock(t: seq<Entry>)
    requires |t| >= 1
    ensures FirstFit(t, 1, 0).Some? <==> |t| - 1 - CountTaken(t, |t| - 1) >= 1
  {
    CountFree(t, |t| - 1);
    if FirstFit(t, 1, 0).Some? {
      var b := FirstFit(t, 1, 0).value;
      assert FreeRun(t, b, 1) && IsFree(t[b]);
    }
    forall b: nat | b < |t| - 1 && IsFree(t[b]) ensures FreeRun(t, b, 1) {
    }
  }

  lemma ExtendsOneMore(live: map<nat, nat>, live1: map<nat, nat>, live2: map<nat, nat>, got: set<nat>, b: nat)
    requires Extends(live, live1, got) && Extends(live1, live2, {b})
    ensures b !in got && Extends(live, live2, got + {b})
  {
    assert b in {b};
  }

  /** The table and the bookkeeping after block b was handed out. */
  ghost predicate Took(s: State, s': State, b: nat) {
    && s.Blocks() == s'.Blocks() >= 0 && s'.leaked == s.leaked
    && Extends(s.live, s'.live, {b}) && FreeBlocks(s') == FreeBlocks(s) - 1
  }

  /** malloc of one block: succeeds exactly when a block is free, and leaves the memory alone. */
  method MallocBlock(heap: Heap) returns (address: Option<uint32>, ghost b: nat)
    requires heap.Valid()
    modifies heap.entries, heap`live
    ensures heap.Valid() && heap.mem[..] == old(heap.mem[..])
    ensures address.Some? <==> old(FreeBlocks(heap.View())) >= 1
    ensures address.Some? ==> b < heap.total && address.value == heap.start + b * BLOCK_SIZE
                              && Took(old(heap.View()), heap.View(), b)
  {
    OneBlockMalloc(heap.View());
    address := heap.Malloc(BLOCK_SIZE);
    b := if address.Some? then FirstFit(old(heap.entries[..]), 1, 0).value else 0;
  }

  /** The inner loop of paging_create_chunk: the 1024 entries of table number i, in block t. */
  method FillTable(mem: array<uint32>, t: nat, offset: uint32, flags: uint32, ghost i: nat)
    requires (t + 1) * WORDS_PER_BLOCK <= mem.Length && flags < 256 && i < PAGE_ENTRIES && offset == i * TABLE_SPAN
    modifies mem
    ensures forall k | 0 <= k < mem.Length && Elsewhere(k, t) :: mem[k] == old(mem[k])
    ensures TableFilled(mem[..], t, i, flags)
  {
    var j := 0;
    while j < PAGE_ENTRIES
      invariant 0 <= j <= PAGE_ENTRIES
      invariant forall k | 0 <= k < mem.Length && Elsewhere(k, t) :: mem[k] == old(mem[k])
      invariant forall l | 0 <= l < j :: mem[t * WORDS_PER_BLOCK + l] == TableEntry(i, l, flags)
    {
      TableEntryParts(i, j, flags);
      mem[t * WORDS_PER_BLOCK + j] := Or(U32(offset + j * PAGE_SIZE), flags);
      j := j + 1;
    }
  }

  ghost predicate SameElsewhere(m: seq<uint32>, m': seq<uint32>, live: map<nat, nat>) {
    |m| == |m'| && forall b | b in live && (b + live[b]) * WORDS_PER_BLOCK <= |m| ::
      Block(m', b, live[b]) == Block(m, b, live[b])
  }

  /** The directory's block and its tables' blocks: all in `got`, all different. */
  ghost predicate Apart(d: nat, tables: seq<nat>, got: set<nat>) {
    && d in got
    && (forall i | 0 <= i < |tables| :: tables[i] in got && tables[i] != d)
    && (forall i, j | 0 <= i < j < |tables| :: tables[i] != tables[j])
  }

  /** Where the directory's loop stands: directory in d, the given tables filled, older allocations untouched. */
  ghost predicate Building(s: State, s': State, start: uint32, d: nat, tables: seq<nat>, got: set<nat>, flags: uint32) {
    && Extends(s.live, s'.live, got) && |got| == 1 + |tables| && Apart(d, tables, got)
    && Filled(Ram(start, s'.mem), d, tables, flags)
    && SameElsewhere(s.mem, s'.mem, s.live)
  }

  lemma BuildingStarts(s: State, s': State, start: uint32, d: nat, flags: uint32)
    requires Extends(s.live, s'.live, {d}) && s'.mem == s.mem && Ram(start, s.mem).Valid() && d < Ram(start, s.mem).Blocks()
    ensures Building(s, s', start, d, [], {d}, flags)
  {
  }

  /** Memory m' is m with table number i written in block t and entered in the directory in block d. */
  ghost predicate TableWritten(m: seq<uint32>, m': seq<uint32>, start: uint32, d: nat, i: nat, t: nat, flags: uint32) {
    && |m'| == |m| && i < PAGE_ENTRIES && (t + 1) * WORDS_PER_BLOCK <= |m| && (d + 1) * WORDS_PER_BLOCK <= |m|
    && (forall k | 0 <= k < |m| && Elsewhere(k, t) && k != d * WORDS_PER_BLOCK + i :: m'[k] == m[k])
    && TableFilled(m', t, i, flags)
    && m'[d * WORDS_PER_BLOCK + i] == DirectoryEntry(start, t, flags)
  }

  /** One round of the loop: block t was just allocated, filled, and entered in the directory. */
  lemma BuildingOneMore(s: State, s1: State, s2: State, s3: State, start: uint32, d: nat, tables: seq<nat>, got: set<nat>,
                        t: nat, flags: uint32)
    requires Building(s, s1, start, d, tables, got, flags)
    requires Extends(s1.live, s2.live, {t}) && s3 == s2.(mem := s3.mem)
    requires TableWritten(s1.mem, s3.mem, start, d, |tables|, t, flags)
    ensures Building(s, s3, start, d, tables + [t], got + {t}, flags)
  {
    ExtendsOneMore(s.live, s1.live, s3.live, got, t);
    FilledOneMore(s1.mem, s3.mem, start, d, tables, got, t, flags);
    ElsewhereOneMore(s.mem, s1.mem, s3.mem, s.live, start, d, |tables|, t, flags);
  }

  lemma FilledOneMore(m: seq<uint32>, m': seq<uint32>, start: uint32, d: nat, tables: seq<nat>, got: set<nat>, t: nat, flags: uint32)
    requires Filled(Ram(start, m), d, tables, flags) && Apart(d, tables, got) && t !in got
    requires TableWritten(m, m', start, d, |tables|, t, flags)
    ensures Filled(Ram(start, m'), d, tables + [t], flags)
  {
    forall i | 0 <= i < |tables|
      ensures m'[d * WORDS_PER_BLOCK + i] == DirectoryEntry(start, tables[i], flags)
      ensures TableFilled(m', tables[i], i, flags)
    {
      assert TableFilled(m, tables[i], i, flags);
      TableStays(m, m', start, d, |tables|, t, tables[i], i, flags);
    }
  }

  lemma TableStays(m: seq<uint32>, m': seq<uint32>, start: uint32, d: nat, n: nat, t: nat, t0: nat, i: nat, flags: uint32)
    requires TableWritten(m, m', start, d, n, t, flags) && t0 != t && t0 != d
    requires (t0 + 1) * WORDS_PER_BLOCK <= |m| && TableFilled(m, t0, i, flags)
    ensures TableFilled(m', t0, i, flags)
  {
  }

  lemma ElsewhereOneMore(m0: seq<uint32>, m: seq<uint32>, m': seq<uint32>, live: map<nat, nat>,
                         start: uint32, d: nat, i: nat, t: nat, flags: uint32)
    requires SameElsewhere(m0, m, live) && TableWritten(m, m', start, d, i, t, flags)
    requires forall b | b in live :: (d < b || b + live[b] <= d) && (t < b || b + live[b] <= t)
    ensures SameElsewhere(m0, m', live)
  {
    forall b | b in live && (b + live[b]) * WORDS_PER_BLOCK <= |m|
      ensures Block(m', b, live[b]) == Block(m0, b, live[b])
    {
      assert Block(m, b, live[b]) == Block(m0, b, live[b]);
    }
  }

  /**
   A finished chunk: directory, tables and the chunk record are new, different blocks, the
   directory maps every address to itself, its entries carry the flags and the writable bit, and
   older allocations keep their contents.
   */
  ghost predicate IsChunk(s: State, s': State, start: uint32, c: nat, d: nat, tables: seq<nat>, got: set<nat>, flags: uint32) {
    && Extends(s.live, s'.live, got) && |got| == PAGE_ENTRIES + 2
    && c in got && Apart(d, tables, got - {c})
    && Filled(Ram(start, s'.mem), d, tables, flags) && HasTables(Ram(start, s'.mem), d, tables)
    && MapsIdentity(Ram(start, s'.mem), d, tables, flags)
    && EntriesKeepFlags(s'.mem, start, d, tables, flags)
    && (c + 1) * WORDS_PER_BLOCK <= |s'.mem| && s'.mem[c * WORDS_PER_BLOCK] == start + d * BLOCK_SIZE
    && SameElsewhere(s.mem, s'.mem, s.live)
  }

  /** Every directory entry is its table's address with the flags and the writable bit. */
  ghost predicate EntriesKeepFlags(mem: seq<uint32>, start: uint32, d: nat, tables: seq<nat>, flags: uint32) {
    && |tables| == 1024 && (d + 1) * WORDS_PER_BLOCK <= |mem|
    && forall i: nat | i < 1024 :: KeepsFlags(mem[d * WORDS_PER_BLOCK + i], start + tables[i] * 4096, flags)
  }

  lemma ChunkKeepsFlags(mem: seq<uint32>, start: uint32, d: nat, tables: seq<nat>, flags: uint32)
    requires Filled(Ram(start, mem), d, tables, flags) && |tables| == PAGE_ENTRIES && flags < 256
    ensures EntriesKeepFlags(mem, start, d, tables, flags)
  {
    forall i: nat | i < 1024 ensures KeepsFlags(mem[d * WORDS_PER_BLOCK + i], start + tables[i] * 4096, flags) {
      DirectoryEntryKeepsFlags(start, tables[i], flags);
    }
  }

  lemma FinishChunk(s: State, s1: State, s2: State, start: uint32, c: nat, d: nat, tables: seq<nat>, got: set<nat>, flags: uint32)
    requires Building(s, s1, start, d, tables, got, flags) && |tables| == PAGE_ENTRIES && flags < 256
    requires Extends(s1.live, s2.live, {c}) && (c + 1) * WORDS_PER_BLOCK <= |s2.mem| == |s1.mem|
    requires forall k | 0 <= k < |s1.mem| && Elsewhere(k, c) :: s2.mem[k] == s1.mem[k]
    requires s2.mem[c * WORDS_PER_BLOCK] == start + d * BLOCK_SIZE
    ensures IsChunk(s, s2, start, c, d, tables, got + {c}, flags)
  {
    ExtendsOneMore(s.live, s1.live, s2.live, got, c);
    assert got + {c} - {c} == got;
    FilledElsewhere(s1.mem, s2.mem, start, c, d, tables, flags);
    FilledHasTables(Ram(start, s2.mem), d, tables, flags);
    ChunkKeepsFlags(s2.mem, start, d, tables, flags);
    IdentityEverywhere(Ram(start, s2.mem), d, tables, flags);
    BlocksElsewhere(s.mem, s1.mem, s2.mem, s.live, c);
  }

  lemma FilledElsewhere(m: seq<uint32>, m': seq<uint32>, start: uint32, c: nat, d: nat, tables: seq<nat>, flags: uint32)
    requires Filled(Ram(start, m), d, tables, flags) && |m'| == |m|
    requires forall k | 0 <= k < |m| && Elsewhere(k, c) :: m'[k] == m[k]
    requires c != d && forall i | 0 <= i < |tables| :: tables[i] != c
    ensures Filled(Ram(start, m'), d, tables, flags)
  {
    forall i | 0 <= i < |tables|
      ensures m'[d * WORDS_PER_BLOCK + i] == m[d * WORDS_PER_BLOCK + i]
      ensures TableFilled(m', tables[i], i, flags)
    {
      assert TableFilled(m, tables[i], i, flags);
    }
  }

  lemma BlocksElsewhere(m0: seq<uint32>, m: seq<uint32>, m': seq<uint32>, live: map<nat, nat>, c: nat)
    requires SameElsewhere(m0, m, live) && |m'| == |m|
    requires forall b | b in live :: c < b || b + live[b] <= c
    requires forall k | 0 <= k < |m| && Elsewhere(k, c) :: m'[k] == m[k]
    ensures SameElsewhere(m0, m', live)
  {
    forall b | b in live && (b + live[b]) * WORDS_PER_BLOCK <= |m|
      ensures Block(m', b, live[b]) == Block(m0, b, live[b])
    {
      assert Block(m, b, live[b]) == Block(m0, b, live[b]);
    }
  }

  /** One round of paging_create_chunk's loop: allocate a table, fill it, enter it in the directory. */
  method AddTable(heap: Heap, directory: uint32, i: nat, offset: uint32, flags: uint32,
                  ghost s: State, ghost d: nat, ghost tables: seq<nat>, ghost got: set<nat>) returns (ok: bool, ghost t: nat)
    requires heap.Valid() && flags < 256 && i == |tables| < PAGE_ENTRIES && offset == i * TABLE_SPAN
    requires directory == heap.start + d * BLOCK_SIZE && Building(s, heap.View(), heap.start, d, tables, got, flags)
    modifies heap.entries, heap.mem, heap`live
    ensures heap.Valid()
    ensures ok <==> old(FreeBlocks(heap.View())) >= 1
    ensures ok ==> Building(s, heap.View(), heap.start, d, tables + [t], got + {t}, flags)
                   && FreeBlocks(heap.View()) == old(FreeBlocks(heap.View())) - 1
  {
    ghost var s1 := heap.View();
    var entry: Option<uint32>;
    entry, t := MallocBlock(heap);
    if entry.None? {
      return false, 0;
    }
    ghost var s2 := heap.View();
    ExtendsOneMore(s.live, s1.live, s2.live, got, t);
    WriteTable(heap, directory, entry.value, i, offset, flags, d, t);
    BuildingOneMore(s, s1, s2, heap.View(), heap.start, d, tables, got, t, flags);
    ok := true;
  }

  /** The stores of that round, in the new table and in the directory. */
  method WriteTable(heap: Heap, directory: uint32, entry: uint32, i: nat, offset: uint32, flags: uint32, ghost d: nat, ghost t: nat)
    requires heap.Valid() && flags < 256 && d < heap.total && t < heap.total && d != t
    requires i < PAGE_ENTRIES && offset == i * TABLE_SPAN
    requires directory == heap.start + d * BLOCK_SIZE && entry == heap.start + t * BLOCK_SIZE
    modifies heap.mem
    ensures heap.Valid() && heap.View() == old(heap.View()).(mem := heap.mem[..])
    ensures TableWritten(old(heap.mem[..]), heap.mem[..], heap.start, d, i, t, flags)
    ensures FreeBlocks(heap.View()) == old(FreeBlocks(heap.View()))
  {
    FillTable(heap.mem, (entry - heap.start) / BLOCK_SIZE, offset, flags, i);
    ghost var m := heap.mem[..];
    EnterTable(heap.mem, (directory - heap.start) / 4 + i, heap.start, entry, flags, t);
    TableSurvivesStore(m, heap.mem[..], d, i, t, flags);
  }

  method EnterTable(mem: array<uint32>, word: nat, start: uint32, entry: uint32, flags: uint32, ghost t: nat)
    requires start % BLOCK_SIZE == 0 && entry == start + t * BLOCK_SIZE && flags < 256 && word < mem.Length
    modifies mem
    ensures mem[word] == DirectoryEntry(start, t, flags)
    ensures forall k | 0 <= k < mem.Length && k != word :: mem[k] == old(mem[k])
  {
    DirectoryEntryParts(start, t, flags);
    mem[word] := Or(Or(entry, flags), IS_WRITABLE);
  }

  lemma TableSurvivesStore(m: seq<uint32>, m': seq<uint32>, d: nat, i: nat, t: nat, flags: uint32)
    requires (t + 1) * WORDS_PER_BLOCK <= |m| == |m'| && i < PAGE_ENTRIES && d != t && TableFilled(m, t, i, flags)
    requires forall k | 0 <= k < |m| && k != d * WORDS_PER_BLOCK + i :: m'[k] == m[k]
    ensures TableFilled(m', t, i, flags)
  {
  }

  /** The outer loop of paging_create_chunk: fails exactly when fewer than 1024 blocks are free. */
  method AddTables(heap: Heap, directory: uint32, flags: uint32, ghost s: State, ghost d: nat)
      returns (ok: bool, ghost tables: seq<nat>, ghost got: set<nat>)
    requires heap.Valid() && flags < 256
    requires directory == heap.start + d * BLOCK_SIZE && Building(s, heap.View(), heap.start, d, [], {d}, flags)
    modifies heap.entries, heap.mem, heap`live
    ensures heap.Valid()
    ensures ok <==> old(FreeBlocks(heap.View())) >= PAGE_ENTRIES
    ensures ok ==> |tables| == PAGE_ENTRIES && Building(s, heap.View(), heap.start, d, tables, got, flags)
                   && FreeBlocks(heap.View()) == old(FreeBlocks(heap.View())) - PAGE_ENTRIES
  {
    var offset: uint32 := 0;
    var i := 0;
    tables, got := [], {d};
    ghost var free := FreeBlocks(heap.View());
    while i < PAGE_ENTRIES
      invariant 0 <= i == |tables| <= PAGE_ENTRIES && (i < PAGE_ENTRIES ==> offset == i * TABLE_SPAN)
      invariant heap.Valid() && Building(s, heap.View(), heap.start, d, tables, got, flags)
      invariant FreeBlocks(heap.View()) == free - i
    {
      ghost var t: nat;
      ok, t := AddTable(heap, directory, i, offset, flags, s, d, tables, got);
      if !ok {
        return;
      }
      tables, got := tables + [t], got + {t};
      offset := NextOffset(offset, i);
      i := i + 1;
    }
    FreeBlocksNonNegative(heap.View());
    ok := true;
  }

  /** The running offset only wraps after the last table. */
  method NextOffset(offset: uint32, ghost i: nat) returns (next: uint32)
    requires offset == i * TABLE_SPAN && i < PAGE_ENTRIES
    ensures i + 1 < PAGE_ENTRIES ==> next == (i + 1) * TABLE_SPAN
  {
    next := U32(offset + PAGE_ENTRIES * PAGE_SIZE);
  }

  lemma FreeBlocksNonNegative(s: State)
    requires Inv(s)
    ensures FreeBlocks(s) >= 0
  {
    CountFree(s.table, s.Blocks());
  }

  /**
   paging_create_chunk; None is malloc's panic, which happens exactly when fewer than 1026 blocks
   are free.
   */
  method CreateChunk(heap: Heap, flags: uint32)
      returns (chunk: Option<uint32>, ghost c: nat, ghost d: nat, ghost tables: seq<nat>, ghost got: set<nat>)
    requires heap.Valid() && flags < 256
    modifies heap.entries, heap.mem, heap`live
    ensures heap.Valid()
    ensures chunk.Some? <==> old(FreeBlocks(heap.View())) >= PAGE_ENTRIES + 2
    ensures chunk.Some? ==> chunk.value == heap.start + c * BLOCK_SIZE
                            && IsChunk(old(heap.View()), heap.View(), heap.start, c, d, tables, got, flags)
  {
    ghost var s := heap.View();
    chunk, c, tables, got := None, 0, [], {};
    var directory: Option<uint32>;
    directory, d := MallocBlock(heap);
    if directory.None? {
      return;
    }
    BuildingStarts(s, heap.View(), heap.start, d, flags);
    var ok: bool;
    ok, tables, got := AddTables(heap, directory.value, flags, s, d);
    if !ok {
      return;
    }
    chunk, c := AddRecord(heap, directory.value, flags, s, d, tables, got);
    got := got + {c};
  }

  /** The end of paging_create_chunk: the chunk record, holding the directory's address. */
  method AddRecord(heap: Heap, directory: uint32, flags: uint32,
                   ghost s: State, ghost d: nat, ghost tables: seq<nat>, ghost got: set<nat>) returns (chunk: Option<uint32>, ghost c: nat)
    requires heap.Valid() && flags < 256 && |tables| == PAGE_ENTRIES
    requires directory == heap.start + d * BLOCK_SIZE && Building(s, heap.View(), heap.start, d, tables, got, flags)
    modifies heap.entries, heap.mem, heap`live
    ensures heap.Valid()
    ensures chunk.Some? <==> old(FreeBlocks(heap.View())) >= 1
    ensures chunk.Some? ==> chunk.value == heap.start + c * BLOCK_SIZE
                            && IsChunk(s, heap.View(), heap.start, c, d, tables, got + {c}, flags)
  {
    ghost var s1 := heap.View();
    chunk, c := ZallocBlock(heap, 4);
    if chunk.None? {
      return;
    }
    StoreWord(heap, (chunk.value - heap.start) / 4, directory);
    FinishChunk(s, s1, heap.View(), heap.start, c, d, tables, got, flags);
  }

  method StoreWord(heap: Heap, word: nat, value: uint32)
    requires heap.Valid() && word < heap.mem.Length
    modifies heap.mem
    ensures heap.Valid() && heap.View() == old(heap.View()).(mem := old(heap.mem[..])[word := value])
  {
    heap.mem[word] := value;
  }

  /** zalloc of at most a block. */
  method ZallocBlock(heap: Heap, amount: uint32) returns (address: Option<uint32>, ghost b: nat)
    requires heap.Valid() && 0 < amount <= BLOCK_SIZE
    modifies heap.entries, heap.mem, heap`live
    ensures heap.Valid()
    ensures address.Some? <==> old(FreeBlocks(heap.View())) >= 1
    ensures address.Some? ==> b < heap.total && address.value == heap.start + b * BLOCK_SIZE
                              && Took(old(heap.View()), heap.View(), b)
                              && heap.mem[..] == ZeroWords(old(heap.mem[..]), b * WORDS_PER_BLOCK, amount / 4)
  {
    OneBlockMalloc(heap.View());
    assert MallocStep(heap.View(), amount) == MallocStep(heap.View(), BLOCK_SIZE);
    address := heap.Zalloc(amount);
    b := if address.Some? then FirstFit(old(heap.entries[..]), 1, 0).value else 0;
  }

  lemma IdentityEverywhere(ram: Ram, d: nat, tables: seq<nat>, flags: nat)
    requires Filled(ram, d, tables, flags) && HasTables(ram, d, tables) && flags < 256
    ensures MapsIdentity(ram, d, tables, flags)
  {
    forall va: uint32 ensures WalksToItself(ram, d, tables, flags, va) {
      IdentityMap(ram, d, tables, flags, va);
    }
  }

  /** paging_set, for a directory whose tables lie in the heap. */
  method Set(heap: Heap, directory: uint32, va: uint32, flags: uint32, ghost d: nat, ghost tables: seq<nat>) returns (status: int)
    requires HasTables(RamOf(heap), d, tables) && directory == heap.start + d * BLOCK_SIZE
    modifies heap.mem
    ensures (status, RamOf(heap)) == PagingSet(old(RamOf(heap)), d, tables, Setting(va, flags))
  {
    if va % PAGE_SIZE != 0 {
      return PAGING_MEMORY_NOT_ALIGNED;
    }
    var info := GetIndexes(va);
    if info.errorCode != OK {
      return info.errorCode;
    }
    assert tables[info.directoryIndex] < RamOf(heap).Blocks();
    var entry := heap.mem[(directory - heap.start) / 4 + info.directoryIndex];
    var table := (Frame(entry) - heap.start) / 4;
    heap.mem[table + info.tableIndex] := flags;
    return OK;
  }
}
