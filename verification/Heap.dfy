/** The kernel heap in memory: the block table and the blocks' words, changed in place. */
module KernelHeap {
  import opened Machine
  import opened HeapTable

  /** Word-wise memset: size / 4 words from the given word on, each set to c. */
  method Memset(mem: array<uint32>, word: nat, c: uint32, size: nat)
    requires word + size / 4 <= mem.Length
    modifies mem
    ensures forall k | 0 <= k < mem.Length :: mem[k] == if word <= k < word + size / 4 then c else old(mem[k])
  {
    for i := 0 to size / 4
      invariant forall k | 0 <= k < mem.Length :: mem[k] == if word <= k < word + i then c else old(mem[k])
    {
      mem[word + i] := c;
    }
  }

  /** The count blocks before i are free, and the one before them is not. */
  ghost predicate EndsFreeRun(t: seq<Entry>, i: nat, count: nat) {
    count <= i <= |t| && (forall k | i - count <= k < i :: IsFree(t[k])) && (count < i ==> IsTaken(t[i - count - 1]))
  }

  lemma NoLongerFreeRun(t: seq<Entry>, i: nat, count: nat, n: nat)
    requires EndsFreeRun(t, i, count) && count < n
    ensures forall b | 0 <= b && b + n == i :: !FreeRun(t, b, n)
  {
    if count < i { assert IsTaken(t[i - count - 1]); }
  }

  class Heap {
    const start: uint32
    const total: nat
    // total entries, and the word that lies behind them in memory
    const entries: array<Entry>
    const mem: array<uint32>
    // the allocations handed out and not yet freed, and the frees of two or more blocks so far
    ghost var live: map<nat, nat>
    ghost var leaked: nat

    ghost function View(): State
      reads this, entries, mem
    {
      State(entries[..], mem[..], live, leaked)
    }

    ghost predicate Valid()
      reads this, entries, mem
    {
      Shape() && Inv(View())
    }

    ghost predicate Shape() {
      entries.Length == total + 1 && start % BLOCK_SIZE == 0 && start + total * BLOCK_SIZE <= 0x1_0000_0000
    }

    constructor (start: uint32, total: nat, beyond: Entry)
      requires start % BLOCK_SIZE == 0 && total >= 1 && start + total * BLOCK_SIZE <= 0x1_0000_0000
      ensures fresh(entries) && fresh(mem) && this.start == start && this.total == total
      ensures Valid() && Created(View())
    {
      this.start, this.total := start, total;
      entries := new Entry[total + 1];
      mem := new uint32[total * WORDS_PER_BLOCK];
      live, leaked := map[], 0;
      new;
      entries[total] := beyond;
      for i := 0 to total
        invariant forall k | 0 <= k < i :: entries[k] == ENTRY_FREE
        invariant entries[total] == beyond && live == map[] && leaked == 0
      {
        entries[i] := ENTRY_FREE;
      }
      CreatedInv(View());
    }

    /** heap_create: a start that is not on a block boundary is refused. */
    static method Create(start: uint32, total: nat, beyond: Entry) returns (status: int, heap: Heap?)
      requires total >= 1 && start + total * BLOCK_SIZE <= 0x1_0000_0000
      ensures status == if start % BLOCK_SIZE == 0 then OK else HEAP_MEMORY_NOT_ALIGNED
      ensures heap != null <==> status == OK
      ensures heap != null ==> fresh(heap) && fresh(heap.entries) && fresh(heap.mem)
                               && heap.Valid() && Created(heap.View()) && heap.total == total
    {
      var end := start + total * BLOCK_SIZE;
      if start % BLOCK_SIZE != 0 || end % BLOCK_SIZE != 0 {
        return HEAP_MEMORY_NOT_ALIGNED, null;
      }
      heap := new Heap(start, total, beyond);
      status := OK;
    }

    /** heap_request_memory on a rounded, nonzero amount: the first fit, or None where it panics. */
    method RequestMemory(amount: uint32) returns (block: Option<nat>)
      requires Shape() && amount % BLOCK_SIZE == 0 && amount > 0
      ensures block == FirstFit(entries[..], amount / BLOCK_SIZE, 0)
    {
      var required := amount / BLOCK_SIZE;
      var current, count, i := 0, 0, 0;
      ghost var t := entries[..];
      while i < total
        invariant 0 <= i <= total && 0 <= count < required && count <= i
        invariant count > 0 ==> current == i - count
        invariant EndsFreeRun(t, i, count)
        invariant forall b | 0 <= b && b + required <= i :: !FreeRun(t, b, required)
      {
        if IsFree(entries[i]) {
          if count == 0 {
            current := i;
          }
          count := count + 1;
        } else {
          current, count := 0, 0;
        }
        if count == required {
          assert FreeRun(t, current, required);
          break;
        }
        NoLongerFreeRun(t, i + 1, count, required);
        i := i + 1;
      }
      if count != required {
        return None;
      }
      return Some(current);
    }

    /** The loop of heap_malloc that writes the entries of blocks first to last. */
    method MarkBlocks(first: nat, last: nat)
      requires Shape() && first <= last < total
      modifies entries
      ensures entries[..] == Mark(old(entries[..]), first, last + 1 - first)
    {
      var i := first;
      while i <= last
        invariant first <= i <= last + 1
        invariant forall k | 0 <= k <= total ::
                    entries[k] == if first <= k < i then RunEntry(k - first, last + 1 - first) else old(entries[k])
      {
        var entry: Entry := 0;
        entry := entry | ENTRY_TAKEN;
        if i == first {
          entry := entry | IS_FIRST;
        } else if i != last {
          entry := entry | HAS_NEXT;
        }
        entries[i] := entry;
        i := i + 1;
      }
    }

    /** The loop of heap_free: clears entries from first on while the next one has HAS_NEXT, zeroing block first each time. */
    method ClearBlocks(first: nat)
      requires Shape() && mem.Length == total * WORDS_PER_BLOCK
      requires first < total && first + 1 + RunTail(entries[..], first + 1) <= total
      modifies entries, mem
      ensures entries[..] == Clear(old(entries[..]), first, 1 + RunTail(old(entries[..]), first + 1))
      ensures mem[..] == ZeroWords(old(mem[..]), first * WORDS_PER_BLOCK, WORDS_PER_BLOCK)
    {
      ghost var t := entries[..];
      ghost var length := 1 + RunTail(t, first + 1);
      var current := first;
      var more := true;
      while more
        invariant first <= current <= first + length
        invariant more <==> current < first + length
        invariant current > first ==> current + RunTail(t, current) == first + length
        invariant forall k | 0 <= k <= total :: entries[k] == if first <= k < current then ENTRY_FREE else t[k]
        invariant current > first ==> mem[..] == ZeroWords(old(mem[..]), first * WORDS_PER_BLOCK, WORDS_PER_BLOCK)
        invariant current == first ==> mem[..] == old(mem[..])
        decreases first + length - current
      {
        entries[current] := ENTRY_FREE;
        Memset(mem, first * WORDS_PER_BLOCK, 0, BLOCK_SIZE);
        assert mem[..] == ZeroWords(old(mem[..]), first * WORDS_PER_BLOCK, WORDS_PER_BLOCK);
        current := current + 1;
        more := HasNext(entries[current]);
      }
    }

    /** heap_malloc; None is the panic. A request that rounds to zero marks block 0 and returns NULL. */
    method Malloc(amount: uint32) returns (address: Option<uint32>)
      requires Valid()
      modifies entries, this`live
      ensures Shape() && mem[..] == old(mem[..])
      ensures address.None? <==> MallocStep(old(View()), amount).None?
      ensures View() == MallocStep(old(View()), amount).GetOr(old(View()))
      ensures AlignRequest(amount) != 0 ==> Valid()
      ensures address.Some? && AlignRequest(amount) == 0 ==> address.value == 0
      ensures address.Some? && AlignRequest(amount) != 0 ==>
                var b := FirstFit(old(entries[..]), AlignRequest(amount) / BLOCK_SIZE, 0);
                b.Some? && address.value == start + b.value * BLOCK_SIZE
    {
      var rounded := AlignRequest(amount);
      AlignRequestCovers(amount);
      var first: nat, last: nat := 0, 0;
      address := Some(0);
      ghost var s := View();
      if rounded > 0 {
        var block := RequestMemory(rounded);
        if block.None? {
          return None;
        }
        first, last := block.value, block.value + rounded / BLOCK_SIZE - 1;
        address := Some(start + first * BLOCK_SIZE);
        MallocKeepsInv(s, amount);
        assert MallocStep(s, amount).value
            == s.(table := Mark(s.table, first, rounded / BLOCK_SIZE), live := s.live[first := rounded / BLOCK_SIZE]);
        live := live[first := rounded / BLOCK_SIZE];
      }
      MarkBlocks(first, last);
    }

    /** zalloc: malloc, then memset of the unrounded size; the rounding must not wrap. */
    method Zalloc(amount: uint32) returns (address: Option<uint32>)
      requires Valid() && amount <= 0xffff_f000
      modifies entries, mem, this`live
      ensures Shape() && (amount > 0 ==> Valid())
      ensures address.None? <==> MallocStep(old(View()), amount).None?
      ensures address.None? ==> View() == old(View())
      ensures amount == 0 ==> address == Some(0) && View() == MallocStep(old(View()), 0).value
      ensures address.Some? && amount > 0 ==>
                var b := FirstFit(old(entries[..]), AlignRequest(amount) / BLOCK_SIZE, 0);
                b.Some? && address.value == start + b.value * BLOCK_SIZE
                && View() == MallocStep(old(View()), amount).value.(
                     mem := ZeroWords(old(mem[..]), b.value * WORDS_PER_BLOCK, amount / 4))
                && forall w | 0 <= w < mem.Length ::
                     mem[w] == if 0 <= w - b.value * 1024 < amount / 4 then 0 else old(mem[w])
    {
      AlignRequestCovers(amount);
      ghost var s := View();
      address := Malloc(amount);
      // at the null pointer of an empty request there is nothing to zero
      if address.Some? && amount > 0 {
        FirstFitFits(s, amount);
        ZeroFrom((address.value - start) / BLOCK_SIZE, amount);
      }
    }

    /** The memset of zalloc, in the blocks from b on. */
    method ZeroFrom(b: nat, amount: uint32)
      requires Valid() && b * WORDS_PER_BLOCK + amount / 4 <= mem.Length
      modifies mem
      ensures Valid() && View() == old(View()).(mem := ZeroWords(old(mem[..]), b * WORDS_PER_BLOCK, amount / 4))
    {
      ghost var s := View();
      Memset(mem, b * WORDS_PER_BLOCK, 0, amount);
      assert mem[..] == ZeroWords(s.mem, b * WORDS_PER_BLOCK, amount / 4);
      InvIgnoresContents(s, mem[..]);
    }

    /** heap_free; false is the panic. Neither the address's entry nor the one after it may be misread behind the table. */
    method Free(address: uint32) returns (ok: bool)
      requires Valid() && address < start + total * BLOCK_SIZE
      requires start <= address ==> StopsOnTable(entries[..], (address - start) / BLOCK_SIZE)
      modifies entries, mem, this`live, this`leaked
      ensures Valid()
      ensures ok <==> start <= address && (address - start) / BLOCK_SIZE in old(live)
      ensures ok ==> FreeStep(old(View()), (address - start) / BLOCK_SIZE).Some?
      ensures View() == if ok then FreeStep(old(View()), (address - start) / BLOCK_SIZE).value else old(View())
    {
      if start > address {
        return false;
      }
      var first: nat := (address - start) / BLOCK_SIZE;
      ghost var s := View();
      FreeFacts(s, first);
      if !IsFirst(entries[first]) {
        return false;
      }
      ClearBlocks(first);
      leaked := if live[first] >= 2 then leaked + 1 else leaked;
      live := live - {first};
      assert View() == FreeStep(s, first).value;
      return true;
    }
  }
}
