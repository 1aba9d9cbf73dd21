/**
 The block table of the kernel heap as a value: what one malloc and one free do to it, and what
 every run of them keeps. `KernelHeap.Heap` is the class whose methods take these steps in place.
 */
module HeapTable {
  import opened Machine

  const BLOCK_SIZE := 4096
  const WORDS_PER_BLOCK := 1024

  type Entry = bv32
  const ENTRY_FREE: Entry := 0x00
  const ENTRY_TAKEN: Entry := 0x01
  const HAS_NEXT: Entry := 0x80
  const IS_FIRST: Entry := 0x40

  predicate IsTaken(e: Entry) { e & ENTRY_TAKEN == 1 }
  predicate IsFree(e: Entry) { !IsTaken(e) }
  predicate HasNext(e: Entry) { e & HAS_NEXT > 0 }
  predicate IsFirst(e: Entry) { e & IS_FIRST > 0 }

  /** What malloc writes into block i of a run of n blocks: only inner blocks get HAS_NEXT. */
  function RunEntry(i: nat, n: nat): Entry {
    if i == 0 then ENTRY_TAKEN | IS_FIRST
    else if i + 1 != n then ENTRY_TAKEN | HAS_NEXT
    else ENTRY_TAKEN
  }

  lemma RunEntryFlags(i: nat, n: nat)
    ensures RunEntry(i, n) == if i == 0 then 0x41 else if i + 1 < n || n <= i then 0x81 else 0x01
    ensures IsTaken(RunEntry(i, n))
    ensures IsFirst(RunEntry(i, n)) <==> i == 0
    ensures HasNext(RunEntry(i, n)) <==> 0 < i && i + 1 != n
    ensures IsFree(ENTRY_FREE) && !IsFirst(ENTRY_FREE) && !HasNext(ENTRY_FREE)
    ensures IsTaken(ENTRY_TAKEN) && !IsFirst(ENTRY_TAKEN) && !HasNext(ENTRY_TAKEN)
  {
  }

  /** The request rounded up to whole blocks, in 32-bit arithmetic. */
  function AlignRequest(amount: uint32): uint32 {
    if amount % BLOCK_SIZE == 0 then amount
    else U32(amount - amount % BLOCK_SIZE + BLOCK_SIZE)
  }

  /** Rounding covers the request with less than a block to spare, unless it wraps to zero. */
  lemma AlignRequestCovers(amount: uint32)
    ensures var r := AlignRequest(amount);
            r % BLOCK_SIZE == 0 && (r == 0 || amount <= r < amount + BLOCK_SIZE)
    ensures AlignRequest(amount) == 0 <==> amount == 0 || amount > 0xffff_f000
  {
  }

  /**
   The heap: one entry per block followed by the word that lies behind the table in memory, the
   blocks' contents, the live allocations (first block to length), and how many allocations of
   two or more blocks have been freed.
   */
  datatype State = State(table: seq<Entry>, mem: seq<uint32>, live: map<nat, nat>, leaked: nat) {
    function Blocks(): int { |table| - 1 }
  }

  predicate FreeRun(t: seq<Entry>, b: nat, n: nat) {
    b + n < |t| && forall k | b <= k < b + n :: IsFree(t[k])
  }

  /** First fit: the lowest start of n free blocks, at or above b. */
  function FirstFit(t: seq<Entry>, n: nat, b: nat): (r: Option<nat>)
    ensures r.Some? ==> b <= r.value && FreeRun(t, r.value, n)
                        && forall c | b <= c < r.value :: !FreeRun(t, c, n)
    ensures r.None? ==> forall c | b <= c :: !FreeRun(t, c, n)
    decreases |t| - b
  {
    if b + n >= |t| then None
    else if FreeRun(t, b, n) then Some(b)
    else FirstFit(t, n, b + 1)
  }

  function Mark(t: seq<Entry>, b: nat, n: nat): (r: seq<Entry>) {
    seq(|t|, k requires 0 <= k < |t| => if b <= k < b + n then RunEntry(k - b, n) else t[k])
  }

  /** How many entries from i on carry HAS_NEXT without a gap. */
  function RunTail(t: seq<Entry>, i: nat): nat
    decreases |t| - i
  {
    if i < |t| && HasNext(t[i]) then 1 + RunTail(t, i + 1) else 0
  }

  function Clear(t: seq<Entry>, b: nat, n: nat): seq<Entry> {
    seq(|t|, k requires 0 <= k < |t| => if b <= k < b + n then ENTRY_FREE else t[k])
  }

  function ZeroWords(m: seq<uint32>, from: nat, count: nat): seq<uint32> {
    seq(|m|, k requires 0 <= k < |m| => if from <= k < from + count then 0 else m[k])
  }

  function Block(m: seq<uint32>, b: nat, n: nat): seq<uint32>
    requires (b + n) * WORDS_PER_BLOCK <= |m|
  {
    m[b * WORDS_PER_BLOCK..(b + n) * WORDS_PER_BLOCK]
  }

  predicate AllZero(words: seq<uint32>) { forall i | 0 <= i < |words| :: words[i] == 0 }

  datatype Op = Malloc(amount: uint32) | Free(offset: nat) | Store(word: nat, value: uint32)

  /** One call, with free's argument as an offset from the heap's start; None is `panic`. */
  function Step(s: State, op: Op): Option<State>
    requires s.Blocks() >= 1
  {
    match op
    case Malloc(amount) => MallocStep(s, amount)
    case Free(offset) => FreeStep(s, offset / BLOCK_SIZE)
    case Store(word, value) => Some(if word < |s.mem| then s.(mem := s.mem[word := value]) else s)
  }

  function MallocStep(s: State, amount: uint32): Option<State>
    requires s.Blocks() >= 1
  {
    var n := AlignRequest(amount) / BLOCK_SIZE;
    if n == 0 then Some(s.(table := Mark(s.table, 0, 1)))
    else match FirstFit(s.table, n, 0)
      case None => None
      case Some(b) => Some(s.(table := Mark(s.table, b, n), live := s.live[b := n]))
  }

  function FreeStep(s: State, b: nat): Option<State> {
    if b >= s.Blocks() || !IsFirst(s.table[b]) then None
    else Some(s.(table := Clear(s.table, b, 1 + RunTail(s.table, b + 1)),
                 mem := ZeroWords(s.mem, b * WORDS_PER_BLOCK, WORDS_PER_BLOCK),
                 live := s.live - {b},
                 leaked := if b in s.live && s.live[b] >= 2 then s.leaked + 1 else s.leaked))
  }

  ghost predicate Covered(live: map<nat, nat>, k: nat) {
    exists b :: b in live && b <= k < b + live[b]
  }

  /** After block b, free looks at an entry of the table, or at a word behind it that does not read as HAS_NEXT. */
  predicate StopsOnTable(t: seq<Entry>, b: nat)
    requires t != []
  {
    b + 2 < |t| || !HasNext(t[|t| - 1])
  }

  predicate RunAt(t: seq<Entry>, b: nat, n: nat) {
    1 <= n && b + n < |t| && forall k | b <= k < b + n :: t[k] == RunEntry(k - b, n)
  }

  function CountTaken(t: seq<Entry>, k: nat): nat
    requires k <= |t|
  {
    if k == 0 then 0 else CountTaken(t, k - 1) + (if IsTaken(t[k - 1]) then 1 else 0)
  }

  /** The sizes of the live allocations that start below block k, added up. */
  function SumLive(live: map<nat, nat>, k: nat): nat {
    if k == 0 then 0 else SumLive(live, k - 1) + (if k - 1 in live then live[k - 1] else 0)
  }

  ghost predicate Disjoint(live: map<nat, nat>) {
    forall b, c | b in live && c in live && b < c :: b + live[b] <= c
  }

  ghost predicate LiveRuns(t: seq<Entry>, live: map<nat, nat>) {
    forall b {:trigger RunAt(t, b, live[b])} | b in live :: RunAt(t, b, live[b])
  }

  /** Outside the live runs there are only free blocks and orphans of earlier frees. */
  ghost predicate RestIsPlain(t: seq<Entry>, live: map<nat, nat>) {
    forall k {:trigger Covered(live, k)} | 0 <= k < |t| - 1 && !Covered(live, k) :: t[k] == ENTRY_FREE || t[k] == ENTRY_TAKEN
  }

  /**
   The table is live runs, free blocks and orphaned bare-TAKEN blocks; the orphans are exactly
   the blocks lost by past frees.
   */
  ghost predicate Inv(s: State) {
    && s.Blocks() >= 1
    && |s.mem| == s.Blocks() * WORDS_PER_BLOCK
    && LiveRuns(s.table, s.live)
    && Disjoint(s.live)
    && RestIsPlain(s.table, s.live)
    && CountTaken(s.table, s.Blocks()) == SumLive(s.live, s.Blocks()) + s.leaked
  }

  /** The heap after heap_create: every entry free; nothing is known of the word behind the table. */
  ghost predicate Created(s: State) {
    && s.Blocks() >= 1
    && |s.mem| == s.Blocks() * WORDS_PER_BLOCK
    && (forall k | 0 <= k < s.Blocks() :: s.table[k] == ENTRY_FREE)
    && s.live == map[] && s.leaked == 0
  }

  /** Calls a run may make: mallocs that round to a nonzero size, frees that look at the table only,
      and client stores into live allocations. */
  ghost predicate Allowed(s: State, op: Op) {
    match op
    case Malloc(amount) => AlignRequest(amount) != 0
    case Free(offset) => offset / BLOCK_SIZE < s.Blocks() && StopsOnTable(s.table, offset / BLOCK_SIZE)
    case Store(word, value) => Covered(s.live, word / WORDS_PER_BLOCK)
  }

  /** s' is reached from s by the calls in ops, none of which panics. */
  ghost predicate Runs(s: State, ops: seq<Op>, s': State)
    decreases |ops|
  {
    if ops == [] then s == s'
    else s.Blocks() >= 1 && Allowed(s, ops[0]) && Step(s, ops[0]).Some? && Runs(Step(s, ops[0]).value, ops[1..], s')
  }

  // ---- counting ----

  lemma {:induction false} CountTakenChange(t: seq<Entry>, t': seq<Entry>, a: nat, b: nat, k: nat)
    requires a <= b <= |t| == |t'| && k <= |t|
    requires forall i | 0 <= i < |t| && !(a <= i < b) :: t[i] == t'[i]
    requires forall i | a <= i < b :: IsFree(t[i]) && IsTaken(t'[i])
    ensures CountTaken(t', k) == CountTaken(t, k) + (if k <= a then 0 else Min(k, b) - a)
  {
    if k > 0 { CountTakenChange(t, t', a, b, k - 1); }
  }

  lemma {:induction false} SumLiveAdd(live: map<nat, nat>, b: nat, n: nat, k: nat)
    requires b !in live
    ensures SumLive(live[b := n], k) == SumLive(live, k) + (if b < k then n else 0)
  {
    if k > 0 { SumLiveAdd(live, b, n, k - 1); }
  }

  lemma {:induction false} CountFree(t: seq<Entry>, k: nat)
    requires k <= |t|
    ensures CountTaken(t, k) <= k
    ensures CountTaken(t, k) < k <==> exists b :: 0 <= b < k && IsFree(t[b])
  {
    if k > 0 { CountFree(t, k - 1); }
  }

  lemma {:induction false} CountNone(t: seq<Entry>, live: map<nat, nat>, k: nat)
    requires k <= |t| && forall i | 0 <= i < k :: IsFree(t[i])
    requires live == map[]
    ensures CountTaken(t, k) == 0 == SumLive(live, k)
  {
    if k > 0 { CountNone(t, live, k - 1); }
  }

  lemma CreatedInv(s: State)
    requires Created(s)
    ensures Inv(s)
  {
    RunEntryFlags(0, 1);
    CountNone(s.table, s.live, s.Blocks());
  }

  // ---- malloc ----

  lemma FreeRunIsDisjoint(s: State, b: nat, n: nat)
    requires Inv(s) && FreeRun(s.table, b, n) && n >= 1
    ensures b !in s.live && forall c | c in s.live :: c + s.live[c] <= b || b + n <= c
  {
    LiveIsTaken(s, b, b);
    forall c | c in s.live
      ensures c + s.live[c] <= b || b + n <= c
    {
      LiveIsTaken(s, c, c);
      LiveIsTaken(s, c, b);
    }
  }

  lemma LiveIsTaken(s: State, c: nat, k: nat)
    requires Inv(s)
    ensures c in s.live ==> s.live[c] >= 1
    ensures c in s.live && c <= k < c + s.live[c] ==> k < s.Blocks() && IsTaken(s.table[k])
  {
    if c in s.live {
      assert RunAt(s.table, c, s.live[c]);
      if c <= k < c + s.live[c] {
        assert s.table[k] == RunEntry(k - c, s.live[c]);
        RunEntryFlags(k - c, s.live[c]);
      }
    }
  }

  lemma MallocKeepsInv(s: State, amount: uint32)
    requires Inv(s) && AlignRequest(amount) != 0 && MallocStep(s, amount).Some?
    ensures Inv(MallocStep(s, amount).value)
  {
    AlignRequestCovers(amount);
    var n := AlignRequest(amount) / BLOCK_SIZE;
    var b := FirstFit(s.table, n, 0).value;
    var s' := MallocStep(s, amount).value;
    MarkKeepsInv(s, b, n, s');
  }

  lemma MarkKeepsInv(s: State, b: nat, n: nat, s': State)
    requires Inv(s) && n >= 1 && FreeRun(s.table, b, n)
    requires s' == s.(table := Mark(s.table, b, n), live := s.live[b := n])
    ensures b !in s.live && Inv(s')
  {
    FreeRunIsDisjoint(s, b, n);
    MarkLeavesRuns(s, b, n);
    MarkLeavesPlain(s, b, n);
    MarkCounts(s, b, n);
  }

  lemma MarkLeavesRuns(s: State, b: nat, n: nat)
    requires Inv(s) && n >= 1 && FreeRun(s.table, b, n)
    requires forall c | c in s.live :: c + s.live[c] <= b || b + n <= c
    ensures LiveRuns(Mark(s.table, b, n), s.live[b := n])
  {
    var t', live' := Mark(s.table, b, n), s.live[b := n];
    forall c | c in live' ensures RunAt(t', c, live'[c]) {
      if c != b { assert RunAt(s.table, c, s.live[c]); }
    }
  }

  lemma MarkLeavesPlain(s: State, b: nat, n: nat)
    requires Inv(s) && b !in s.live
    ensures RestIsPlain(Mark(s.table, b, n), s.live[b := n])
  {
    var live', t' := s.live[b := n], Mark(s.table, b, n);
    forall k | 0 <= k < s.Blocks()
      ensures Covered(live', k) || t'[k] == ENTRY_FREE || t'[k] == ENTRY_TAKEN
    {
      if b <= k < b + n {
        assert b in live' && live'[b] == n;
      } else if Covered(s.live, k) {
        var c :| c in s.live && c <= k < c + s.live[c];
        assert c in live' && live'[c] == s.live[c];
      }
    }
  }

  lemma MarkCounts(s: State, b: nat, n: nat)
    requires Inv(s) && FreeRun(s.table, b, n) && b !in s.live
    ensures CountTaken(Mark(s.table, b, n), s.Blocks()) == SumLive(s.live[b := n], s.Blocks()) + s.leaked
  {
    var t' := Mark(s.table, b, n);
    forall k | b <= k < b + n ensures IsTaken(t'[k]) {
      RunEntryFlags(k - b, n);
    }
    CountTakenChange(s.table, t', b, b + n, s.Blocks());
    SumLiveAdd(s.live, b, n, s.Blocks());
  }

  /** A request that rounds to zero keeps the heap sound only when block 0 already starts an allocation. */
  lemma ZeroMallocKeepsInvIff(s: State, amount: uint32)
    requires Inv(s) && AlignRequest(amount) == 0
    ensures MallocStep(s, amount).Some?
    ensures Inv(MallocStep(s, amount).value) <==> 0 in s.live
  {
    var s' := MallocStep(s, amount).value;
    RunEntryFlags(0, 1);
    assert s'.table[0] == RunEntry(0, 1);
    if 0 in s.live {
      assert RunAt(s.table, 0, s.live[0]);
      assert s.table[0] == RunEntry(0, s.live[0]);
      assert s'.table == s.table;
    } else {
      assert !Covered(s'.live, 0) && IsFirst(s'.table[0]);
    }
  }

  // ---- free ----

  lemma NoNextAfterRun(s: State, b: nat)
    requires Inv(s) && b in s.live && s.live[b] == 1 && StopsOnTable(s.table, b)
    ensures RunAt(s.table, b, s.live[b]) && !HasNext(s.table[b + s.live[b]])
  {
    var k := b + s.live[b];
    assert RunAt(s.table, b, s.live[b]);
    RunEntryFlags(0, 1);
    if k < s.Blocks() && Covered(s.live, k) {
      var c :| c in s.live && c <= k < c + s.live[c];
      assert RunAt(s.table, c, s.live[c]) && s.table[k] == RunEntry(k - c, s.live[c]);
      RunEntryFlags(k - c, s.live[c]);
    }
  }

  lemma {:induction false} RunTailOfRun(s: State, b: nat, i: nat)
    requires Inv(s) && b in s.live && StopsOnTable(s.table, b) && b < i <= b + s.live[b]
    requires i == b + s.live[b] ==> s.live[b] == 1
    ensures RunTail(s.table, i) == if i == b + s.live[b] then 0 else b + s.live[b] - 1 - i
    decreases b + s.live[b] - i
  {
    assert RunAt(s.table, b, s.live[b]);
    if i == b + s.live[b] {
      NoNextAfterRun(s, b);
    } else {
      assert s.table[i] == RunEntry(i - b, s.live[b]);
      RunEntryFlags(i - b, s.live[b]);
      if i < b + s.live[b] - 1 { RunTailOfRun(s, b, i + 1); }
    }
  }

  /** How many entries free clears: all of a one-block run, all but the last of a longer one. */
  function Freed(n: nat): nat { if n <= 1 then n else n - 1 }

  lemma FirstIffLive(s: State, b: nat)
    requires Inv(s) && b < s.Blocks()
    ensures IsFirst(s.table[b]) <==> b in s.live
  {
    RunEntryFlags(0, 1);
    if b in s.live {
      assert RunAt(s.table, b, s.live[b]);
      assert s.table[b] == RunEntry(0, s.live[b]);
    } else if Covered(s.live, b) {
      var c :| c in s.live && c <= b < c + s.live[c];
      assert RunAt(s.table, c, s.live[c]) && s.table[b] == RunEntry(b - c, s.live[c]);
      RunEntryFlags(b - c, s.live[c]);
    }
  }

  /** Free panics unless it is given a live allocation, and then releases all but the last of two or more blocks. */
  lemma FreeReleases(s: State, b: nat)
    requires Inv(s) && b < s.Blocks() && StopsOnTable(s.table, b)
    ensures FreeStep(s, b).Some? <==> b in s.live
    ensures b in s.live ==> 1 + RunTail(s.table, b + 1) == Freed(s.live[b])
  {
    FirstIffLive(s, b);
    if b in s.live { FreeLength(s, b); }
  }

  lemma FreeLength(s: State, b: nat)
    requires Inv(s) && b in s.live && StopsOnTable(s.table, b)
    ensures 1 + RunTail(s.table, b + 1) == Freed(s.live[b])
  {
    assert RunAt(s.table, b, s.live[b]);
    RunTailOfRun(s, b, b + 1);
  }

  lemma FreeKeepsInv(s: State, b: nat)
    requires Inv(s) && b in s.live && StopsOnTable(s.table, b)
    ensures FreeStep(s, b).Some? && Inv(FreeStep(s, b).value)
  {
    var n := s.live[b];
    assert RunAt(s.table, b, n);
    FreeReleases(s, b);
    var s' := FreeStep(s, b).value;
    assert s'.table == Clear(s.table, b, Freed(n));
    assert LiveRuns(s'.table, s'.live) by {
      forall c | c in s'.live ensures RunAt(s'.table, c, s'.live[c]) {
        assert RunAt(s.table, c, s.live[c]);
      }
    }
    FreeLeavesPlain(s, b);
    FreeCounts(s, b);
    RunEntryFlags(0, 1);
  }

  lemma FreeLeavesPlain(s: State, b: nat)
    requires Inv(s) && b in s.live
    ensures RestIsPlain(Clear(s.table, b, Freed(s.live[b])), s.live - {b})
  {
    var n, live', t' := s.live[b], s.live - {b}, Clear(s.table, b, Freed(s.live[b]));
    assert RunAt(s.table, b, n);
    forall k | 0 <= k < s.Blocks()
      ensures Covered(live', k) || t'[k] == ENTRY_FREE || t'[k] == ENTRY_TAKEN
    {
      if b <= k < b + n {
        assert s.table[k] == RunEntry(k - b, n);
      } else if Covered(s.live, k) {
        var c :| c in s.live && c <= k < c + s.live[c];
        assert c in live' && live'[c] == s.live[c];
      }
    }
  }

  lemma FreeCounts(s: State, b: nat)
    requires Inv(s) && b in s.live
    ensures CountTaken(Clear(s.table, b, Freed(s.live[b])), s.Blocks())
            == SumLive(s.live - {b}, s.Blocks()) + s.leaked + (if s.live[b] >= 2 then 1 else 0)
  {
    var n, live', t' := s.live[b], s.live - {b}, Clear(s.table, b, Freed(s.live[b]));
    assert RunAt(s.table, b, n);
    RunEntryFlags(0, 1);
    forall k | b <= k < b + n ensures IsTaken(s.table[k]) {
      RunEntryFlags(k - b, n);
    }
    CountTakenChange(t', s.table, b, b + Freed(n), s.Blocks());
    assert live'[b := n] == s.live;
    SumLiveAdd(live', b, n, s.Blocks());
  }

  lemma FreeFacts(s: State, b: nat)
    requires Inv(s) && b < s.Blocks() && StopsOnTable(s.table, b)
    ensures IsFirst(s.table[b]) <==> b in s.live
    ensures FreeStep(s, b).Some? <==> b in s.live
    ensures b in s.live ==> Inv(FreeStep(s, b).value) && b + 1 + RunTail(s.table, b + 1) <= s.Blocks()
  {
    FirstIffLive(s, b);
    FreeReleases(s, b);
    if b in s.live {
      FreeKeepsInv(s, b);
      assert RunAt(s.table, b, s.live[b]);
    }
  }

  // ---- runs ----

  lemma StepKeepsInv(s: State, op: Op)
    requires Inv(s) && Allowed(s, op) && Step(s, op).Some?
    ensures Inv(Step(s, op).value)
  {
    match op
    case Malloc(amount) => MallocKeepsInv(s, amount);
    case Free(offset) =>
      FreeReleases(s, offset / BLOCK_SIZE);
      FreeKeepsInv(s, offset / BLOCK_SIZE);
    case Store(word, value) =>
  }

  /** Every run keeps the table sound: live runs, free blocks and orphans. */
  lemma {:induction false} RunKeepsInv(s: State, ops: seq<Op>, s': State)
    requires Inv(s) && Runs(s, ops, s')
    ensures Inv(s') && s'.Blocks() == s.Blocks()
    decreases |ops|
  {
    if ops != [] {
      StepKeepsInv(s, ops[0]);
      RunKeepsInv(Step(s, ops[0]).value, ops[1..], s');
    }
  }

  /**
   From heap_create on, in every run: live allocations are runs of the table, in range and
   pairwise disjoint; a HAS_NEXT entry lies strictly inside one of them; and every taken block is
   either live or was lost by the free of an allocation of two or more blocks.
   */
  lemma RunFromCreate(s: State, ops: seq<Op>, s': State)
    requires Created(s) && Runs(s, ops, s')
    ensures s'.Blocks() >= 1 && (forall b | b in s'.live :: RunAt(s'.table, b, s'.live[b]))
    ensures Disjoint(s'.live) && RestIsPlain(s'.table, s'.live)
    ensures forall k | 0 <= k < s'.Blocks() :: HasNext(s'.table[k]) <==> StrictlyInside(s'.live, k)
    ensures CountTaken(s'.table, s'.Blocks()) == SumLive(s'.live, s'.Blocks()) + s'.leaked <= s'.Blocks()
  {
    CreatedInv(s);
    RunKeepsInv(s, ops, s');
    CountFree(s'.table, s'.Blocks());
    forall k | 0 <= k < s'.Blocks()
      ensures HasNext(s'.table[k]) <==> StrictlyInside(s'.live, k)
    {
      NextIffStrictlyInside(s', k);
    }
  }

  ghost predicate StrictlyInside(live: map<nat, nat>, k: nat) {
    exists b :: b in live && b < k < b + live[b] - 1
  }

  lemma NextIffStrictlyInside(s: State, k: nat)
    requires Inv(s) && k < s.Blocks()
    ensures HasNext(s.table[k]) <==> StrictlyInside(s.live, k)
    ensures forall b, c | b in s.live && c in s.live && b < k < b + s.live[b] && c < k < c + s.live[c] :: b == c
  {
    RunEntryFlags(0, 1);
    if Covered(s.live, k) {
      var b :| b in s.live && b <= k < b + s.live[b];
      assert RunAt(s.table, b, s.live[b]) && s.table[k] == RunEntry(k - b, s.live[b]);
      RunEntryFlags(k - b, s.live[b]);
      if StrictlyInside(s.live, k) {
        var c :| c in s.live && c < k < c + s.live[c] - 1;
        assert c == b;
      }
    }
  }

  /** Malloc panics exactly when no run of free blocks is long enough, and otherwise takes the lowest. */
  lemma MallocIsFirstFit(s: State, amount: uint32)
    requires Inv(s) && AlignRequest(amount) != 0
    ensures var n := AlignRequest(amount) / BLOCK_SIZE;
            match MallocStep(s, amount)
            case None => forall b :: !FreeRun(s.table, b, n)
            case Some(s') =>
              exists b: nat :: b !in s.live && FreeRun(s.table, b, n) && s'.live == s.live[b := n]
                          && (forall c | 0 <= c < b :: !FreeRun(s.table, c, n))
                          && (forall c | c in s.live :: c + s.live[c] <= b || b + n <= c)
  {
    AlignRequestCovers(amount);
    var n := AlignRequest(amount) / BLOCK_SIZE;
    if MallocStep(s, amount).Some? {
      var b := FirstFit(s.table, n, 0).value;
      FreeRunIsDisjoint(s, b, n);
    }
  }

  /** Malloc then free gives back the table it started from exactly when one block was asked for. */
  lemma FreeUndoesMallocIff(s: State, amount: uint32, b: nat)
    requires Inv(s) && AlignRequest(amount) != 0
    requires FirstFit(s.table, AlignRequest(amount) / BLOCK_SIZE, 0) == Some(b) && StopsOnTable(s.table, b)
    ensures MallocStep(s, amount).Some? && FreeStep(MallocStep(s, amount).value, b).Some?
    ensures var s'' := FreeStep(MallocStep(s, amount).value, b).value;
            s''.live == s.live && (s''.table == s.table <==> AlignRequest(amount) == BLOCK_SIZE)
  {
    AlignRequestCovers(amount);
    FreeUndoesMarkIff(s, b, AlignRequest(amount) / BLOCK_SIZE);
  }

  lemma FreeUndoesMarkIff(s: State, b: nat, n: nat)
    requires Inv(s) && n >= 1 && FreeRun(s.table, b, n) && StopsOnTable(s.table, b)
    ensures var s' := s.(table := Mark(s.table, b, n), live := s.live[b := n]);
            FreeStep(s', b).Some?
            && FreeStep(s', b).value.live == s.live
            && (FreeStep(s', b).value.table == s.table <==> n == 1)
  {
    var s' := s.(table := Mark(s.table, b, n), live := s.live[b := n]);
    MarkKeepsInv(s, b, n, s');
    FreeReleases(s', b);
    FreeRunIsClear(s, b, n);
    ClearUndoesMarkIff(s.table, b, n);
    assert s'.live - {b} == s.live;
  }

  lemma ClearUndoesMarkIff(t: seq<Entry>, b: nat, n: nat)
    requires n >= 1 && b + n < |t| && forall k | b <= k < b + n :: t[k] == ENTRY_FREE
    ensures Clear(Mark(t, b, n), b, Freed(n)) == t <==> n == 1
  {
    var t' := Clear(Mark(t, b, n), b, Freed(n));
    if n == 1 {
      assert t' == t;
    } else {
      assert t'[b + n - 1] == RunEntry(n - 1, n) && t[b + n - 1] == ENTRY_FREE;
      RunEntryFlags(n - 1, n);
    }
  }

  lemma FreeRunIsClear(s: State, b: nat, n: nat)
    requires Inv(s) && n >= 1 && FreeRun(s.table, b, n)
    ensures forall k | b <= k < b + n :: s.table[k] == ENTRY_FREE
  {
    FreeRunIsDisjoint(s, b, n);
    RunEntryFlags(0, 1);
    forall k | b <= k < b + n ensures s.table[k] == ENTRY_FREE {
      assert !Covered(s.live, k) && IsFree(s.table[k]);
    }
  }

  // ---- contents ----

  /** After a free the buffer reads as zero exactly when all but its first block did before. */
  lemma FreedIsZeroIff(s: State, b: nat)
    requires Inv(s) && b in s.live && StopsOnTable(s.table, b)
    ensures RunAt(s.table, b, s.live[b]) && FreeStep(s, b).Some?
    ensures AllZero(Block(FreeStep(s, b).value.mem, b, s.live[b]))
            <==> AllZero(Block(s.mem, b + 1, s.live[b] - 1))
  {
    var n := s.live[b];
    assert RunAt(s.table, b, n);
    FreeKeepsInv(s, b);
    var before, after := Block(s.mem, b + 1, n - 1), Block(FreeStep(s, b).value.mem, b, n);
    assert after == seq(WORDS_PER_BLOCK, _ => 0) + before;
    assert forall i | 0 <= i < |before| :: before[i] == after[WORDS_PER_BLOCK + i];
  }

  /** Whatever was in it, the first block of a freed buffer reads as zero. */
  lemma FreedBlockReadsZero(s: State, b: nat)
    requires Inv(s) && b in s.live && StopsOnTable(s.table, b)
    ensures RunAt(s.table, b, s.live[b]) && FreeStep(s, b).Some?
    ensures AllZero(Block(FreeStep(s, b).value.mem, b, 1))
  {
    assert RunAt(s.table, b, s.live[b]);
    FreeKeepsInv(s, b);
  }

  /** The call neither frees allocation b nor stores into its n blocks. */
  predicate Spares(op: Op, b: nat, n: nat) {
    match op
    case Malloc(_) => true
    case Free(offset) => offset / BLOCK_SIZE != b
    case Store(word, _) => !(b <= word / WORDS_PER_BLOCK < b + n)
  }

  /** Across any run, an allocation nobody frees or stores into stays live and keeps its contents. */
  lemma {:induction false} RunPreservesContents(s: State, ops: seq<Op>, s': State, b: nat)
    requires Inv(s) && Runs(s, ops, s') && b in s.live
    requires forall op | op in ops :: Spares(op, b, s.live[b])
    ensures b in s'.live && s'.live[b] == s.live[b]
    ensures RunAt(s.table, b, s.live[b]) && Inv(s') && RunAt(s'.table, b, s.live[b])
    ensures Block(s'.mem, b, s.live[b]) == Block(s.mem, b, s.live[b])
    decreases |ops|
  {
    assert RunAt(s.table, b, s.live[b]);
    if ops != [] {
      var s1 := Step(s, ops[0]).value;
      StepKeepsInv(s, ops[0]);
      assert Spares(ops[0], b, s.live[b]);
      StepPreservesContents(s, ops[0], b);
      RunPreservesContents(s1, ops[1..], s', b);
    }
  }

  lemma StepPreservesContents(s: State, op: Op, b: nat)
    requires Inv(s) && b in s.live && Allowed(s, op) && Step(s, op).Some? && Spares(op, b, s.live[b])
    ensures RunAt(s.table, b, s.live[b])
    ensures var s' := Step(s, op).value;
            b in s'.live && s'.live[b] == s.live[b] && |s'.mem| == |s.mem|
            && Block(s'.mem, b, s.live[b]) == Block(s.mem, b, s.live[b])
  {
    assert RunAt(s.table, b, s.live[b]);
    match op {
      case Malloc(amount) => MallocStaysClear(s, amount);
      case Free(offset) => FreePreservesContents(s, offset / BLOCK_SIZE, b);
      case Store(word, value) =>
    }
  }

  lemma FreePreservesContents(s: State, c: nat, b: nat)
    requires Inv(s) && b in s.live && c < s.Blocks() && StopsOnTable(s.table, c) && c != b && FreeStep(s, c).Some?
    ensures RunAt(s.table, b, s.live[b])
    ensures var s' := FreeStep(s, c).value;
            b in s'.live && s'.live[b] == s.live[b] && |s'.mem| == |s.mem|
            && Block(s'.mem, b, s.live[b]) == Block(s.mem, b, s.live[b])
  {
    assert RunAt(s.table, b, s.live[b]);
    FreeStaysInside(s, c);
    ZeroWordsElsewhere(s.mem, c, b, s.live[b]);
  }

  lemma ZeroWordsElsewhere(m: seq<uint32>, c: nat, b: nat, n: nat)
    requires (b + n) * WORDS_PER_BLOCK <= |m| && (c < b || b + n <= c)
    ensures Block(ZeroWords(m, c * WORDS_PER_BLOCK, WORDS_PER_BLOCK), b, n) == Block(m, b, n)
  {
  }

  /** What a malloc that succeeds touches: blocks that were free, so none of a live allocation. */
  lemma MallocStaysClear(s: State, amount: uint32)
    requires Inv(s) && AlignRequest(amount) != 0 && MallocStep(s, amount).Some?
    ensures var n := AlignRequest(amount) / BLOCK_SIZE;
            var b := FirstFit(s.table, n, 0).value;
            && MallocStep(s, amount).value == s.(table := Mark(s.table, b, n), live := s.live[b := n])
            && b !in s.live && n >= 1
            && (forall k | b <= k < b + n :: IsFree(s.table[k]))
            && (forall k | 0 <= k < |s.table| && !(b <= k < b + n) :: MallocStep(s, amount).value.table[k] == s.table[k])
            && (forall c | c in s.live :: c + s.live[c] <= b || b + n <= c)
  {
    AlignRequestCovers(amount);
    var n := AlignRequest(amount) / BLOCK_SIZE;
    var b := FirstFit(s.table, n, 0).value;
    FreeRunIsDisjoint(s, b, n);
  }

  lemma InvIgnoresContents(s: State, mem: seq<uint32>)
    requires Inv(s) && |mem| == |s.mem|
    ensures Inv(s.(mem := mem))
  {
  }

  /** The bytes asked for lie in the blocks found. */
  lemma FirstFitFits(s: State, amount: uint32)
    requires Inv(s) && AlignRequest(amount) != 0 && MallocStep(s, amount).Some?
    ensures var b := FirstFit(s.table, AlignRequest(amount) / BLOCK_SIZE, 0).value;
            b < s.Blocks() && b * WORDS_PER_BLOCK + amount / 4 <= |s.mem|
  {
    AlignRequestCovers(amount);
  }

  /** What a free that succeeds touches: entries and words of the allocation being freed. */
  lemma FreeStaysInside(s: State, b: nat)
    requires Inv(s) && b < s.Blocks() && StopsOnTable(s.table, b) && FreeStep(s, b).Some?
    ensures b in s.live && s.live[b] >= 1
    ensures var s' := FreeStep(s, b).value;
            && s'.live == s.live - {b}
            && s'.table == Clear(s.table, b, Freed(s.live[b]))
            && s'.mem == ZeroWords(s.mem, b * WORDS_PER_BLOCK, WORDS_PER_BLOCK)
            && |s'.table| == |s.table| && |s'.mem| == |s.mem|
            && (forall k | 0 <= k < |s.table| ::
                  s'.table[k] == if k == b || b < k < b + s.live[b] - 1 then 0 else s.table[k])
            && forall w | 0 <= w < |s.mem| :: s'.mem[w] == if w / 1024 == b then 0 else s.mem[w]
  {
    FreeReleases(s, b);
    assert RunAt(s.table, b, s.live[b]);
  }

  /** A block lost to a free of a longer allocation is never free again, in any run. */
  lemma {:induction false} OrphansAreForever(s: State, ops: seq<Op>, s': State, k: nat)
    requires Inv(s) && Runs(s, ops, s')
    requires k < s.Blocks() && !Covered(s.live, k) && s.table[k] == ENTRY_TAKEN
    ensures s'.Blocks() == s.Blocks() && !Covered(s'.live, k) && s'.table[k] == ENTRY_TAKEN
    decreases |ops|
  {
    if ops != [] {
      var s1 := Step(s, ops[0]).value;
      StepKeepsInv(s, ops[0]);
      StepKeepsOrphan(s, ops[0], k);
      OrphansAreForever(s1, ops[1..], s', k);
    }
  }

  lemma StepKeepsOrphan(s: State, op: Op, k: nat)
    requires Inv(s) && Allowed(s, op) && Step(s, op).Some?
    requires k < s.Blocks() && !Covered(s.live, k) && s.table[k] == ENTRY_TAKEN
    ensures var s' := Step(s, op).value;
            s'.Blocks() == s.Blocks() && !Covered(s'.live, k) && s'.table[k] == ENTRY_TAKEN
  {
    RunEntryFlags(0, 1);
    match op {
      case Malloc(amount) =>
        MallocStaysClear(s, amount);
        assert forall c | c in s.live :: !(c <= k < c + s.live[c]);
      case Free(offset) =>
        FreeStaysInside(s, offset / BLOCK_SIZE);
        assert forall c | c in s.live :: !(c <= k < c + s.live[c]);
      case Store(word, value) =>
    }
  }
}
