/**
 Two-level page tables as they lie in memory, and the address walk the processor makes over them
 (32-bit paging without page-size extension, section 4.3 of the Intel SDM, volume 3A).
 */
module PageTables {
  import opened Machine
  import opened Bits
  import opened HeapTable

  const PAGE_ENTRIES := 1024
  const PAGE_SIZE := 4096
  const TABLE_SPAN := 0x40_0000  // bytes mapped by one table
  const PAGES := 0x10_0000
  const IS_WRITABLE: uint32 := 2
  const PAGE_MASK: uint32 := 0xffff_f000

  /** The heap's words, at their physical addresses. */
  datatype Ram = Ram(start: uint32, words: seq<uint32>) {
    ghost predicate Valid() {
      start % BLOCK_SIZE == 0 && |words| % WORDS_PER_BLOCK == 0 && start + 4 * |words| <= 0x1_0000_0000
    }

    function Blocks(): nat { |words| / WORDS_PER_BLOCK }

    function AddressOf(block: nat): nat { start + block * BLOCK_SIZE }

    function Read(address: nat): Option<uint32> {
      if start <= address && address % 4 == 0 && (address - start) / 4 < |words| then Some(words[(address - start) / 4])
      else None
    }
  }

  /** Fault: an entry is not present. Outside: an entry lies outside the modelled memory. */
  datatype Translation = Fault | Outside | Physical(address: nat, directoryEntry: nat, tableEntry: nat)

  predicate Present(entry: nat) { Odd(entry) }

  function Frame(entry: nat): nat { And(entry, PAGE_MASK) }

  /** The processor's walk from the directory at `directory`, for linear address va. */
  function Walk(ram: Ram, directory: nat, va: uint32): Translation {
    WalkIndexes(ram, directory, va / TABLE_SPAN, va / PAGE_SIZE % PAGE_ENTRIES, va % PAGE_SIZE)
  }

  function WalkIndexes(ram: Ram, directory: nat, i: nat, j: nat, low: nat): Translation {
    match ram.Read(directory + 4 * i)
    case None => Outside
    case Some(pde) =>
      if !Present(pde) then Fault
      else match ram.Read(Frame(pde) + 4 * j)
        case None => Outside
        case Some(pte) => Translate(pde, pte, low)
  }

  /** The outcome of a walk that read the given directory and table entries. */
  function Translate(pde: nat, pte: nat, low: nat): Translation {
    if Present(pde) && Present(pte) then Physical(Frame(pte) + low, pde, pte) else Fault
  }

  // ---- entries ----

  lemma PowersOfTwo()
    ensures Pow2(12) == 4096 && Pow2(20) == 0x10_0000
  {
    assert Pow2(4) == 16 && Pow2(8) == 256;
    assert Pow2(12) == 4096;
    assert Pow2(16) == 65536;
  }

  /** An entry is a page address with flags below it: or-ing flags in keeps the address, masking recovers it. */
  lemma EntryParts(page: nat, f: nat, g: nat)
    requires page % PAGE_SIZE == 0 && page < 0x1_0000_0000 && f < PAGE_SIZE && g < PAGE_SIZE
    ensures Or(page + f, g) == page + Or(f, g) && Or(f, g) < PAGE_SIZE
    ensures page + f < 0x1_0000_0000 && Frame(page + f) == page
    ensures Or(f, 0) == f == Or(0, f)
  {
    PowersOfTwo();
    var m := page / PAGE_SIZE;
    assert page == m * Pow2(12) && PAGE_MASK == (Pow2(20) - 1) * Pow2(12);
    OrBelow(m, f, g, 12);
    AndMask(m, f, 20, 12);
    OrZero(f);
  }

  /** The directory entry for the table in `block`, as paging_create_chunk computes it. */
  function DirectoryEntry(start: nat, block: nat, flags: nat): nat {
    Or(Or(start + block * BLOCK_SIZE, flags), IS_WRITABLE)
  }

  lemma DirectoryEntryParts(start: nat, block: nat, flags: nat)
    requires start % BLOCK_SIZE == 0 && start + block * BLOCK_SIZE < 0x1_0000_0000 && flags < 256
    ensures DirectoryEntry(start, block, flags) == start + block * BLOCK_SIZE + Or(flags, IS_WRITABLE) < 0x1_0000_0000
    ensures Frame(DirectoryEntry(start, block, flags)) == start + block * BLOCK_SIZE
    ensures Present(DirectoryEntry(start, block, flags)) <==> Odd(flags)
  {
    FlaggedPage(start + block * BLOCK_SIZE, flags);
  }

  /** Above its 12 low bits the entry is the table's address; these are the flags' bits, with bit 1 set. */
  ghost predicate KeepsFlags(entry: nat, page: nat, flags: nat) {
    && entry / 4096 * 4096 == page && entry / 2 % 2 == 1
    && forall k: nat | k < 12 :: Bit(entry, k) <==> Bit(flags, k) || k == 1
  }

  lemma DirectoryEntryKeepsFlags(start: nat, block: nat, flags: nat)
    requires start % BLOCK_SIZE == 0 && start + block * BLOCK_SIZE < 0x1_0000_0000 && flags < 256
    ensures KeepsFlags(DirectoryEntry(start, block, flags), start + block * BLOCK_SIZE, flags)
  {
    DirectoryEntryParts(start, block, flags);
    OrStaysLow(start + block * BLOCK_SIZE, flags);
    FlagBits(start + block * BLOCK_SIZE, flags, Or(flags, IS_WRITABLE), DirectoryEntry(start, block, flags));
  }

  lemma FlagBits(page: nat, flags: nat, low: nat, entry: nat)
    requires page % PAGE_SIZE == 0 && low == Or(flags, IS_WRITABLE) && low < PAGE_SIZE && entry == page + low
    ensures KeepsFlags(entry, page, flags)
  {
    LowPart(page, low, entry);
    forall k: nat | k < 12 ensures Bit(entry, k) <==> Bit(flags, k) || k == 1 {
      FlagBit(page, flags, low, k);
    }
    Bit0(entry / 2);
    HalfBit(entry, 1);
  }

  lemma FlagBit(page: nat, flags: nat, low: nat, k: nat)
    requires page % PAGE_SIZE == 0 && low == Or(flags, IS_WRITABLE) && k < 12
    ensures Bit(page + low, k) <==> Bit(flags, k) || k == 1
  {
    LowPartBit(page, low, k);
    OrBits(flags, IS_WRITABLE, k);
    BitOfTwo(k);
  }

  lemma OrStaysLow(page: nat, flags: nat)
    requires page % PAGE_SIZE == 0 && page < 0x1_0000_0000 && flags < 256
    ensures Or(flags, IS_WRITABLE) < PAGE_SIZE
  {
    EntryParts(page, flags, IS_WRITABLE);
  }

  lemma LowPart(page: nat, low: nat, entry: nat)
    requires page % PAGE_SIZE == 0 && low < PAGE_SIZE && entry == page + low
    ensures entry / 4096 * 4096 == page
  {
  }

  lemma LowPartBit(page: nat, low: nat, k: nat)
    requires page % PAGE_SIZE == 0 && k < 12
    ensures Bit(page + low, k) <==> Bit(low, k)
  {
    PowersOfTwo();
    LowBit(page / PAGE_SIZE, low, 12, k);
  }

  /** With the flags the kernel passes, both kinds of entries are the address plus 7. */
  lemma KernelFlags(start: nat, block: nat, i: nat, j: nat)
    requires start % BLOCK_SIZE == 0 && start + block * BLOCK_SIZE < 0x1_0000_0000 && i < 1024 && j < 1024
    ensures DirectoryEntry(start, block, 7) == start + block * 4096 + 7
    ensures TableEntry(i, j, 7) == (i * 1024 + j) * 4096 + 7
  {
    DirectoryEntryParts(start, block, 7);
    TableEntryParts(i, j, 7);
    assert Or(0, 0) == 0 && Or(1, 0) == 1 && Or(3, 1) == 3 && Or(7, 2) == 7;
  }

  lemma FlaggedPage(page: nat, flags: nat)
    requires page % PAGE_SIZE == 0 && page < 0x1_0000_0000 && flags < 256
    ensures Or(Or(page, flags), IS_WRITABLE) == page + Or(flags, IS_WRITABLE) < 0x1_0000_0000
    ensures Frame(page + Or(flags, IS_WRITABLE)) == page
    ensures Present(page + Or(flags, IS_WRITABLE)) <==> Odd(flags)
  {
    OrTwice(page, flags, Or(page, flags), Or(flags, IS_WRITABLE));
    WritablePresent(page, flags);
  }

  lemma OrTwice(page: nat, flags: nat, p: nat, f: nat)
    requires page % PAGE_SIZE == 0 && page < 0x1_0000_0000 && flags < 256 && p == Or(page, flags) && f == Or(flags, IS_WRITABLE)
    ensures Or(p, IS_WRITABLE) == page + f < 0x1_0000_0000 && Frame(page + f) == page
  {
    OrPage(page, flags);
    WritablePage(page, flags, f);
  }

  lemma OrPage(page: nat, flags: nat)
    requires page % PAGE_SIZE == 0 && page < 0x1_0000_0000 && flags < PAGE_SIZE
    ensures Or(page, flags) == page + flags
  {
    OrZero(flags);
    EntryParts(page, 0, flags);
  }

  lemma WritablePage(page: nat, flags: nat, f: nat)
    requires page % PAGE_SIZE == 0 && page < 0x1_0000_0000 && flags < 256 && f == Or(flags, IS_WRITABLE)
    ensures Or(page + flags, IS_WRITABLE) == page + f < 0x1_0000_0000 && Frame(page + f) == page
  {
    EntryParts(page, flags, IS_WRITABLE);
    EntryParts(page, f, 0);
  }

  lemma WritablePresent(page: nat, flags: nat)
    requires page % PAGE_SIZE == 0
    ensures Present(page + Or(flags, IS_WRITABLE)) <==> Odd(flags)
  {
    OrBit0(flags, IS_WRITABLE);
    SameParity(page, Or(flags, IS_WRITABLE));
  }

  lemma SameParity(page: nat, f: nat)
    requires page % PAGE_SIZE == 0
    ensures Odd(page + f) <==> Odd(f)
  {
    HalfAndOdd(f);
    HalfOf(page + f, page / PAGE_SIZE * 2048 + Half(f));
  }

  /** Entry j of table i: its page's address and the flags. */
  function TableEntry(i: nat, j: nat, flags: nat): nat {
    Or(i * TABLE_SPAN + j * PAGE_SIZE, flags)
  }

  lemma TableEntryParts(i: nat, j: nat, flags: nat)
    requires i < PAGE_ENTRIES && j < PAGE_ENTRIES && flags < 256
    ensures var page := i * TABLE_SPAN + j * PAGE_SIZE;
            TableEntry(i, j, flags) == page + flags < 0x1_0000_0000 && Frame(page + flags) == page
            && (Present(page + flags) <==> Odd(flags))
  {
    PageParts((i * PAGE_ENTRIES + j) * PAGE_SIZE, flags);
  }

  lemma PageParts(page: nat, flags: nat)
    requires page % PAGE_SIZE == 0 && page < 0x1_0000_0000 && flags < 256
    ensures page + flags < 0x1_0000_0000
    ensures Or(page, flags) == page + flags < 0x1_0000_0000 && Frame(page + flags) == page
    ensures Present(page + flags) <==> Odd(flags)
  {
    EntryParts(page, 0, flags);
    EntryParts(page, flags, 0);
    SameParity(page, flags);
  }

  lemma PageOfAddress(va: uint32)
    ensures va / PAGE_SIZE / PAGE_ENTRIES == va / TABLE_SPAN < PAGE_ENTRIES && va / PAGE_SIZE < PAGES
    ensures va / TABLE_SPAN * TABLE_SPAN + va / PAGE_SIZE % PAGE_ENTRIES * PAGE_SIZE == va - va % PAGE_SIZE
  {
  }

  // ---- the directory as a map of pages ----

  /** The directory in block d points at the 1024 tables in the given blocks, all different and different from d. */
  ghost predicate HasTables(ram: Ram, d: nat, tables: seq<nat>) {
    && ram.Valid() && d < ram.Blocks()
    && |tables| == PAGE_ENTRIES
    && (forall i | 0 <= i < |tables| :: tables[i] < ram.Blocks() && tables[i] != d)
    && (forall i, j | 0 <= i < j < |tables| :: tables[i] != tables[j])
    && forall i | 0 <= i < PAGE_ENTRIES :: Frame(ram.words[d * WORDS_PER_BLOCK + i]) == ram.AddressOf(tables[i])
  }

  /** The table entry of page p. */
  function PageEntry(ram: Ram, tables: seq<nat>, p: nat): uint32
    requires p < PAGES && |tables| == PAGE_ENTRIES && tables[p / PAGE_ENTRIES] < ram.Blocks()
  {
    ram.words[tables[p / PAGE_ENTRIES] * WORDS_PER_BLOCK + p % PAGE_ENTRIES]
  }

  /** What the walk reads: the directory entry of the address's table and the entry of its page. */
  lemma WalkReadsPageEntry(ram: Ram, d: nat, tables: seq<nat>, va: uint32)
    requires HasTables(ram, d, tables)
    ensures var pde := ram.words[d * WORDS_PER_BLOCK + va / TABLE_SPAN];
            var pte := PageEntry(ram, tables, va / PAGE_SIZE);
            Walk(ram, ram.AddressOf(d), va) == Translate(pde, pte, va % PAGE_SIZE)
  {
    PageOfAddress(va);
    WalkReadsEntries(ram, d, tables, va / TABLE_SPAN, va / PAGE_SIZE % PAGE_ENTRIES, va % PAGE_SIZE);
  }

  lemma WalkReadsEntries(ram: Ram, d: nat, tables: seq<nat>, i: nat, j: nat, low: nat)
    requires HasTables(ram, d, tables) && i < PAGE_ENTRIES && j < PAGE_ENTRIES
    ensures var pde := ram.words[d * WORDS_PER_BLOCK + i];
            var pte := ram.words[tables[i] * WORDS_PER_BLOCK + j];
            WalkIndexes(ram, ram.AddressOf(d), i, j, low) == Translate(pde, pte, low)
  {
    ReadsWord(ram, d, i);
    ReadsWord(ram, tables[i], j);
  }

  lemma WordAddress(start: nat, n: nat, b: nat, k: nat)
    requires start % BLOCK_SIZE == 0 && n % WORDS_PER_BLOCK == 0 && b < n / WORDS_PER_BLOCK && k < WORDS_PER_BLOCK
    ensures b * WORDS_PER_BLOCK + k < n
    ensures (start + b * BLOCK_SIZE + 4 * k) % 4 == 0 && (b * BLOCK_SIZE + 4 * k) / 4 == b * WORDS_PER_BLOCK + k
  {
  }

  lemma ReadsWord(ram: Ram, b: nat, k: nat)
    requires ram.Valid() && b < ram.Blocks() && k < WORDS_PER_BLOCK
    ensures b * WORDS_PER_BLOCK + k < |ram.words|
    ensures ram.Read(ram.AddressOf(b) + 4 * k) == Some(ram.words[b * WORDS_PER_BLOCK + k])
  {
    WordAddress(ram.start, |ram.words|, b, k);
  }

  /** What paging_create_chunk leaves in the directory and its tables. */
  ghost predicate Filled(ram: Ram, d: nat, tables: seq<nat>, flags: nat)
  {
    && ram.Valid() && d < ram.Blocks() && |tables| <= PAGE_ENTRIES
    && forall i | 0 <= i < |tables| ::
         tables[i] < ram.Blocks()
         && ram.words[d * WORDS_PER_BLOCK + i] == DirectoryEntry(ram.start, tables[i], flags)
         && TableFilled(ram.words, tables[i], i, flags)
  }

  ghost predicate TableFilled(words: seq<uint32>, t: nat, i: nat, flags: nat)
    requires (t + 1) * WORDS_PER_BLOCK <= |words|
  {
    forall j | 0 <= j < PAGE_ENTRIES :: words[t * WORDS_PER_BLOCK + j] == TableEntry(i, j, flags)
  }

  lemma FilledHasTables(ram: Ram, d: nat, tables: seq<nat>, flags: nat)
    requires Filled(ram, d, tables, flags) && |tables| == PAGE_ENTRIES && flags < 256
    requires forall i | 0 <= i < |tables| :: tables[i] != d
    requires forall i, j | 0 <= i < j < |tables| :: tables[i] != tables[j]
    ensures HasTables(ram, d, tables)
  {
    forall i | 0 <= i < PAGE_ENTRIES
      ensures Frame(ram.words[d * WORDS_PER_BLOCK + i]) == ram.AddressOf(tables[i])
    {
      DirectoryEntryParts(ram.start, tables[i], flags);
    }
  }

  /** Every 32-bit address is mapped to itself, with the given flags, when the flags include "present". */
  ghost predicate MapsIdentity(ram: Ram, d: nat, tables: seq<nat>, flags: nat) {
    |tables| == PAGE_ENTRIES && forall va: uint32 :: WalksToItself(ram, d, tables, flags, va)
  }

  ghost predicate WalksToItself(ram: Ram, d: nat, tables: seq<nat>, flags: nat, va: uint32)
    requires |tables| == PAGE_ENTRIES
  {
    Walk(ram, ram.AddressOf(d), va) ==
      if Odd(flags)
      then Physical(va, ram.AddressOf(tables[va / TABLE_SPAN]) + Or(flags, IS_WRITABLE), va - va % PAGE_SIZE + flags)
      else Fault
  }

  lemma IdentityMap(ram: Ram, d: nat, tables: seq<nat>, flags: nat, va: uint32)
    requires Filled(ram, d, tables, flags) && HasTables(ram, d, tables) && flags < 256
    ensures WalksToItself(ram, d, tables, flags, va)
  {
    PageOfAddress(va);
    IdentityEntries(ram, d, tables, flags, va / TABLE_SPAN, va / PAGE_SIZE % PAGE_ENTRIES, va % PAGE_SIZE);
  }

  lemma IdentityEntries(ram: Ram, d: nat, tables: seq<nat>, flags: nat, i: nat, j: nat, low: nat)
    requires Filled(ram, d, tables, flags) && HasTables(ram, d, tables) && flags < 256
    requires i < PAGE_ENTRIES && j < PAGE_ENTRIES
    ensures var page := i * TABLE_SPAN + j * PAGE_SIZE;
            WalkIndexes(ram, ram.AddressOf(d), i, j, low) ==
              if Odd(flags) then Physical(page + low, ram.AddressOf(tables[i]) + Or(flags, IS_WRITABLE), page + flags)
              else Fault
  {
    WalkReadsEntries(ram, d, tables, i, j, low);
    FilledEntries(ram, d, tables, flags, i, j);
  }

  lemma FilledEntries(ram: Ram, d: nat, tables: seq<nat>, flags: nat, i: nat, j: nat)
    requires Filled(ram, d, tables, flags) && |tables| == PAGE_ENTRIES && flags < 256
    requires i < PAGE_ENTRIES && j < PAGE_ENTRIES
    ensures var pde := ram.words[d * WORDS_PER_BLOCK + i];
            pde == ram.AddressOf(tables[i]) + Or(flags, IS_WRITABLE) && (Present(pde) <==> Odd(flags))
    ensures var pte := ram.words[tables[i] * WORDS_PER_BLOCK + j];
            pte == i * TABLE_SPAN + j * PAGE_SIZE + flags && Frame(pte) == i * TABLE_SPAN + j * PAGE_SIZE
            && (Present(pte) <==> Odd(flags))
  {
    FilledDirectoryEntry(ram, d, tables, flags, i);
    FilledTableEntry(ram, d, tables, flags, i, j);
  }

  lemma FilledDirectoryEntry(ram: Ram, d: nat, tables: seq<nat>, flags: nat, i: nat)
    requires Filled(ram, d, tables, flags) && i < |tables| == PAGE_ENTRIES && flags < 256
    ensures var pde := ram.words[d * WORDS_PER_BLOCK + i];
            pde == ram.AddressOf(tables[i]) + Or(flags, IS_WRITABLE) && (Present(pde) <==> Odd(flags))
  {
    DirectoryEntryParts(ram.start, tables[i], flags);
  }

  lemma FilledTableEntry(ram: Ram, d: nat, tables: seq<nat>, flags: nat, i: nat, j: nat)
    requires Filled(ram, d, tables, flags) && i < |tables| == PAGE_ENTRIES && flags < 256 && j < PAGE_ENTRIES
    ensures var pte := ram.words[tables[i] * WORDS_PER_BLOCK + j];
            pte == i * TABLE_SPAN + j * PAGE_SIZE + flags && Frame(pte) == i * TABLE_SPAN + j * PAGE_SIZE
            && (Present(pte) <==> Odd(flags))
  {
    EntryOfTable(ram.words, tables[i], i, flags, j);
  }

  lemma EntryOfTable(words: seq<uint32>, t: nat, i: nat, flags: nat, j: nat)
    requires (t + 1) * WORDS_PER_BLOCK <= |words| && TableFilled(words, t, i, flags) && i < PAGE_ENTRIES && j < PAGE_ENTRIES && flags < 256
    ensures var pte := words[t * WORDS_PER_BLOCK + j];
            pte == i * TABLE_SPAN + j * PAGE_SIZE + flags && Frame(pte) == i * TABLE_SPAN + j * PAGE_SIZE
            && (Present(pte) <==> Odd(flags))
  {
    TableEntryParts(i, j, flags);
  }

  // ---- paging_set ----

  datatype IndexInfo = IndexInfo(errorCode: int, tableIndex: nat, directoryIndex: nat)

  function GetIndexes(va: uint32): IndexInfo {
    if va % PAGE_SIZE != 0 then IndexInfo(PAGING_MEMORY_NOT_ALIGNED, 0, 0)
    else IndexInfo(OK, va % TABLE_SPAN / PAGE_SIZE, va / TABLE_SPAN)
  }

  /** Splitting an aligned address into indexes is a bijection onto the pairs below 1024. */
  lemma IndexesAreBijective(va: uint32, i: nat, j: nat)
    requires va % PAGE_SIZE == 0 && i < PAGE_ENTRIES && j < PAGE_ENTRIES
    ensures var info := GetIndexes(va);
            && info.errorCode == OK && info.tableIndex < PAGE_ENTRIES && info.directoryIndex < PAGE_ENTRIES
            && (info.directoryIndex == i && info.tableIndex == j <==> va == i * TABLE_SPAN + j * PAGE_SIZE)
            && info.directoryIndex * PAGE_ENTRIES + info.tableIndex == va / PAGE_SIZE
  {
  }

  datatype Setting = Setting(va: uint32, flags: uint32)

  /** paging_set on a directory with the given tables: the status and the memory it leaves. */
  function PagingSet(ram: Ram, d: nat, tables: seq<nat>, s: Setting): (int, Ram)
    requires HasTables(ram, d, tables)
  {
    var info := GetIndexes(s.va);
    if info.errorCode != OK then (info.errorCode, ram)
    else
      assert tables[info.directoryIndex] < ram.Blocks();
      var table := (Frame(ram.words[d * WORDS_PER_BLOCK + info.directoryIndex]) - ram.start) / 4;
      (OK, ram.(words := ram.words[table + info.tableIndex := s.flags]))
  }

  /** One paging_set overrides exactly its page, or nothing when the address is not aligned. */
  lemma SetOverridesOnePage(ram: Ram, d: nat, tables: seq<nat>, s: Setting)
    requires HasTables(ram, d, tables)
    ensures var (status, ram') := PagingSet(ram, d, tables, s);
            && HasTables(ram', d, tables) && ram'.start == ram.start && |ram'.words| == |ram.words|
            && SameDirectory(ram, ram', d)
            && (status == OK <==> s.va % PAGE_SIZE == 0)
            && (status != OK ==> status == PAGING_MEMORY_NOT_ALIGNED && ram' == ram)
            && forall p | 0 <= p < PAGES ::
                 PageEntry(ram', tables, p) == if status == OK && p == s.va / PAGE_SIZE then s.flags else PageEntry(ram, tables, p)
  {
    var (status, ram') := PagingSet(ram, d, tables, s);
    if status == OK {
      var i, j := s.va / TABLE_SPAN, s.va % TABLE_SPAN / PAGE_SIZE;
      IndexesAreBijective(s.va, i, j);
      assert Frame(ram.words[d * WORDS_PER_BLOCK + i]) == ram.AddressOf(tables[i]);
      assert ram'.words == ram.words[tables[i] * WORDS_PER_BLOCK + j := s.flags];
      forall p | 0 <= p < PAGES
        ensures PageEntry(ram', tables, p) == if p == s.va / PAGE_SIZE then s.flags else PageEntry(ram, tables, p)
      {
        StoreOverridesPage(ram, ram', d, tables, i, j, s.flags, p);
      }
    }
  }

  lemma StoreOverridesPage(ram: Ram, ram': Ram, d: nat, tables: seq<nat>, i: nat, j: nat, flags: uint32, p: nat)
    requires HasTables(ram, d, tables) && i < PAGE_ENTRIES && j < PAGE_ENTRIES && p < PAGES
    requires tables[i] * WORDS_PER_BLOCK + j < |ram.words| && ram' == ram.(words := ram.words[tables[i] * WORDS_PER_BLOCK + j := flags])
    ensures PageEntry(ram', tables, p) == if p == i * PAGE_ENTRIES + j then flags else PageEntry(ram, tables, p)
  {
    PageIsItsIndexes(p, i, j);
    SlotsDiffer(ram, d, tables, p / PAGE_ENTRIES, p % PAGE_ENTRIES, i, j);
  }

  lemma PageIsItsIndexes(p: nat, i: nat, j: nat)
    requires j < PAGE_ENTRIES
    ensures p / PAGE_ENTRIES == i && p % PAGE_ENTRIES == j <==> p == i * PAGE_ENTRIES + j
  {
  }

  /** Different pages have their entries at different words. */
  lemma SlotsDiffer(ram: Ram, d: nat, tables: seq<nat>, i: nat, j: nat, i': nat, j': nat)
    requires HasTables(ram, d, tables) && i < PAGE_ENTRIES && j < PAGE_ENTRIES && i' < PAGE_ENTRIES && j' < PAGE_ENTRIES
    ensures tables[i] * WORDS_PER_BLOCK + j == tables[i'] * WORDS_PER_BLOCK + j' <==> i == i' && j == j'
  {
  }

  ghost predicate SameDirectory(ram: Ram, ram': Ram, d: nat)
    requires d < ram.Blocks() && |ram.words| == |ram'.words|
  {
    forall k | d * WORDS_PER_BLOCK <= k < (d + 1) * WORDS_PER_BLOCK :: ram'.words[k] == ram.words[k]
  }

  function SetAll(ram: Ram, d: nat, tables: seq<nat>, sets: seq<Setting>): (r: Ram)
    requires HasTables(ram, d, tables)
    ensures HasTables(r, d, tables) && r.start == ram.start && |r.words| == |ram.words| && SameDirectory(ram, r, d)
    decreases |sets|
  {
    if sets == [] then ram
    else
      SetOverridesOnePage(SetAll(ram, d, tables, sets[..|sets| - 1]), d, tables, sets[|sets| - 1]);
      PagingSet(SetAll(ram, d, tables, sets[..|sets| - 1]), d, tables, sets[|sets| - 1]).1
  }

  /** The last aligned setting of page p, if there is one. */
  function LastSetting(sets: seq<Setting>, p: nat): Option<uint32>
    decreases |sets|
  {
    if sets == [] then None
    else
      var s := sets[|sets| - 1];
      if s.va % PAGE_SIZE == 0 && s.va / PAGE_SIZE == p then Some(s.flags)
      else LastSetting(sets[..|sets| - 1], p)
  }

  /** ram' is ram with the settings made: page p has its last aligned setting, or its old entry. */
  ghost predicate Settled(ram: Ram, ram': Ram, d: nat, tables: seq<nat>, sets: seq<Setting>) {
    && HasTables(ram, d, tables) && HasTables(ram', d, tables)
    && ram'.start == ram.start && |ram'.words| == |ram.words| && SameDirectory(ram, ram', d)
    && forall p | 0 <= p < PAGES :: PageEntry(ram', tables, p) == LastSetting(sets, p).GetOr(PageEntry(ram, tables, p))
  }

  /** Any sequence of paging_set calls refines a map from the 2^20 pages to entries. */
  lemma {:induction false} SetAllRefinesPageMap(ram: Ram, d: nat, tables: seq<nat>, sets: seq<Setting>)
    requires HasTables(ram, d, tables)
    ensures Settled(ram, SetAll(ram, d, tables, sets), d, tables, sets)
    decreases |sets|
  {
    if sets != [] {
      SetAllRefinesPageMap(ram, d, tables, sets[..|sets| - 1]);
      SetOverridesOnePage(SetAll(ram, d, tables, sets[..|sets| - 1]), d, tables, sets[|sets| - 1]);
    }
  }

  /**
   After the settings an address is translated by the last aligned one made for its page, under
   the old directory entry; without one it is translated as before.
   */
  lemma WalkAfterSettings(ram: Ram, ram': Ram, d: nat, tables: seq<nat>, sets: seq<Setting>, va: uint32)
    requires Settled(ram, ram', d, tables, sets)
    ensures va / TABLE_SPAN < PAGE_ENTRIES
    ensures Walk(ram', ram.AddressOf(d), va) ==
              match LastSetting(sets, va / PAGE_SIZE)
              case None => Walk(ram, ram.AddressOf(d), va)
              case Some(entry) => Translate(ram.words[d * WORDS_PER_BLOCK + va / TABLE_SPAN], entry, va % PAGE_SIZE)
  {
    PageOfAddress(va);
    WalkReadsPageEntry(ram, d, tables, va);
    WalkReadsPageEntry(ram', d, tables, va);
  }

  /** The address goes where the setting of its page says, or to itself without one. */
  predicate GoesTo(t: Translation, va: uint32, setting: Option<uint32>) {
    match setting
    case None => t.Physical? && t.address == va
    case Some(entry) => if Present(entry) then t.Physical? && t.address == Frame(entry) + va % PAGE_SIZE else t == Fault
  }

  /** Where addresses were mapped to themselves, those of pages never set still are, and the others go where the last setting says. */
  lemma IdentityAfterSettings(ram: Ram, ram': Ram, d: nat, tables: seq<nat>, flags: nat, sets: seq<Setting>, va: uint32)
    requires MapsIdentity(ram, d, tables, flags) && Odd(flags) && Settled(ram, ram', d, tables, sets)
    ensures GoesTo(Walk(ram', ram.AddressOf(d), va), va, LastSetting(sets, va / PAGE_SIZE))
  {
    assert WalksToItself(ram, d, tables, flags, va);
    WalkReadsPageEntry(ram, d, tables, va);
    WalkAfterSettings(ram, ram', d, tables, sets, va);
  }
}
