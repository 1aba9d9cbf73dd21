/**
 Cluster chains and the recursive cluster read: which bytes of which clusters the kernel delivers
 for an offset and a length, and exactly when they are the right ones.
 */
module FatChain {
  import opened Machine
  import opened Bits
  import opened DiskStreams
  import opened FatVolume

  // The FAT as a lookup from a cluster to its entry.
  type Lookup = nat -> nat

  /** fat16_get_cluster_for_offset, k clusters ahead, converted to the caller's unsigned cluster. */
  function Advance(next: Lookup, c: nat, k: nat): nat
    decreases k
  {
    if k == 0 then c
    else if IsInvalid(next(c)) then U32(SYSTEM_FAIL)
    else Advance(next, next(c), k - 1)
  }

  /** The chain from c goes on for k more clusters. */
  predicate ChainLong(next: Lookup, c: nat, k: nat)
    decreases k
  {
    k == 0 || (!IsInvalid(next(c)) && ChainLong(next, next(c), k - 1))
  }

  // ---- chains by the specification ----

  /** What ends a chain: a free entry, the bad-cluster mark, or an end mark (section "FAT Data Structure"). */
  predicate SpecEnds(entry: int) { entry == 0 || entry == 0xFFF7 || entry >= 0xFFF8 }

  predicate SpecChainLong(next: Lookup, c: nat, k: nat)
    decreases k
  {
    k == 0 || (!SpecEnds(next(c)) && SpecChainLong(next, next(c), k - 1))
  }

  /** Cluster number k of the chain from c. */
  function Iterate(next: Lookup, c: nat, k: nat): nat
    decreases k
  {
    if k == 0 then c else Iterate(next, next(c), k - 1)
  }

  /** The clusters the kernel takes for marks, those of a FAT with 12-bit entries. */
  predicate Misread(c: nat) { c in {0xFF0, 0xFF6, 0xFF7, 0xFF8, 0xFFF} }

  predicate MisreadAt(next: Lookup, c: nat, i: nat) { Misread(Iterate(next, c, i)) }

  /** The kernel follows a chain to its end exactly when none of its further clusters has such a number. */
  lemma {:induction false} SpecChainIsChainIff(next: Lookup, c: nat, k: nat)
    requires SpecChainLong(next, c, k)
    ensures ChainLong(next, c, k) <==> forall i: nat | 1 <= i <= k :: !MisreadAt(next, c, i)
    ensures ChainLong(next, c, k) ==> Advance(next, c, k) == Iterate(next, c, k)
    decreases k
  {
    if k > 0 {
      SpecChainIsChainIff(next, next(c), k - 1);
      assert MisreadAt(next, c, 1) == Misread(next(c));
      forall i: nat | 1 < i <= k ensures MisreadAt(next, c, i) == MisreadAt(next, next(c), i - 1) {
      }
      if i: nat :| 1 <= i <= k - 1 && MisreadAt(next, next(c), i) {
        assert MisreadAt(next, c, i + 1);
      }
    }
  }

  /** Along a chain the kernel follows, it gets to the chain's cluster; otherwise to the error code taken for one. */
  lemma {:induction false} AdvanceIs(next: Lookup, c: nat, k: nat)
    ensures Advance(next, c, k) == if ChainLong(next, c, k) then Iterate(next, c, k) else 0xFFFF_FFCF
    decreases k
  {
    if k > 0 { AdvanceIs(next, next(c), k - 1); }
  }

  /** Of a 16-bit FAT's ends the kernel knows the free entry only; any other is taken for one more cluster. */
  lemma {:induction false} EndMarkIsRead(next: Lookup, c: nat, k: nat)
    requires SpecChainLong(next, c, k) && ChainLong(next, c, k) && SpecEnds(next(Iterate(next, c, k)))
    ensures ChainLong(next, c, k + 1) <==> next(Iterate(next, c, k)) != 0
    ensures ChainLong(next, c, k + 1) ==> Advance(next, c, k + 1) == next(Iterate(next, c, k))
    decreases k
  {
    if k > 0 { EndMarkIsRead(next, next(c), k - 1); }
  }

  // ---- what a read delivers ----

  /** Where a delivered byte comes from: a position counted from a cluster's start (it may lie past
      the cluster's end), or memory the disk was not read into. */
  datatype Source = In(cluster: nat, pos: nat) | Stale

  /** One stream read of m bytes from position r of cluster c. */
  function Piece(c: nat, r: nat, m: nat): seq<Source> {
    seq(m, i requires 0 <= i < m => PieceByte(c, r, m, i))
  }

  function PieceByte(c: nat, r: nat, m: nat, i: nat): Source {
    if InSector(r) + i < Filled(m) then In(c, r + i) else Stale
  }

  /** fat16_read_internal_from_stream: the sources of the bytes it delivers, one by one. */
  function Visited(next: Lookup, size: nat, c: nat, offset: nat, total: nat): (s: seq<Source>)
    requires size > 0
    ensures |s| == total
    decreases total
  {
    if total == 0 then []
    else
      var c' := Advance(next, c, offset / size);
      var m := Min(total, size);
      Piece(c', offset % size, m) + Visited(next, size, c', offset + m, total - m)
  }

  /** The source of byte p of the file that starts at cluster c. */
  function FileByte(next: Lookup, size: nat, c: nat, p: nat): Source
    requires size > 0
  {
    In(Advance(next, c, p / size), p % size)
  }

  /** The bytes [offset, offset + total) of the file. */
  function Expected(next: Lookup, size: nat, c: nat, offset: nat, total: nat): seq<Source>
    requires size > 0
  {
    seq(total, i requires 0 <= i < total => FileByte(next, size, c, offset + i))
  }

  /** What a caller can check: one covered piece inside a cluster, or up to two clusters from the start. */
  predicate ReadsExactly(size: nat, offset: nat, total: nat)
    requires size > 0
  {
    || (offset % size + total <= size && Covers(offset % size, total))
    || (offset == 0 && 0 < total <= 2 * size)
  }

  /** Quotient and remainder are determined by the position they make up. */
  lemma DivMod(size: nat, q: nat, r: nat)
    requires r < size
    ensures (q * size + r) / size == q && (q * size + r) % size == r
  {
    var p := q * size + r;
    Split(size, p);
    UniqueQuotient(size, q, r, p / size, p % size);
  }

  lemma UniqueQuotient(size: nat, q: nat, r: nat, q': nat, r': nat)
    requires r < size && r' < size && q * size + r == q' * size + r'
    ensures q == q' && r == r'
  {
    MulMonotone(q + 1, q', size);
    MulMonotone(q' + 1, q, size);
  }

  lemma Split(size: nat, p: nat)
    requires size > 0
    ensures p == p / size * size + p % size && p % size < size
  {
  }

  /** Bytes that stay in offset's cluster. */
  lemma SameCluster(size: nat, offset: nat, i: nat)
    requires size > 0 && offset % size + i < size
    ensures (offset + i) / size == offset / size && (offset + i) % size == offset % size + i
  {
    Split(size, offset);
    DivMod(size, offset / size, offset % size + i);
  }

  predicate IsClusterSize(size: nat) { 0 < size <= 255 * SECTOR }

  lemma FromClusterStart(size: nat, m: nat)
    requires IsClusterSize(size) && 0 < m <= size
    ensures Covers(0, m)
  {
    SectorsAreCoveredIff(0, m);
  }

  lemma OnePiece(next: Lookup, size: nat, c: nat, offset: nat, total: nat)
    requires size > 0 && offset % size + total <= size && Covers(offset % size, total)
    ensures Visited(next, size, c, offset, total) == Expected(next, size, c, offset, total)
  {
    PieceIsSpan(Advance(next, c, offset / size), offset % size, total);
    OneSpan(next, size, c, offset, total);
  }

  lemma OneSpan(next: Lookup, size: nat, c: nat, offset: nat, total: nat)
    requires 0 < total <= size && offset % size + total <= size
    requires Piece(Advance(next, c, offset / size), offset % size, total) == Span(Advance(next, c, offset / size), offset % size, total)
    ensures Visited(next, size, c, offset, total) == Expected(next, size, c, offset, total)
  {
    OneStep(next, size, c, offset, total);
    ExpectedInCluster(next, size, c, offset, total);
  }

  lemma OneStep(next: Lookup, size: nat, c: nat, offset: nat, total: nat)
    requires 0 < total <= size
    ensures Visited(next, size, c, offset, total) == Piece(Advance(next, c, offset / size), offset % size, total)
  {
  }

  lemma PieceIsSpan(c: nat, r: nat, m: nat)
    requires Covers(r, m)
    ensures Piece(c, r, m) == Span(c, r, m)
  {
    forall i | 0 <= i < m ensures PieceByte(c, r, m, i) == In(c, r + i) {
    }
  }

  lemma TwoClusters(next: Lookup, size: nat, c: nat, total: nat)
    requires IsClusterSize(size) && size < total <= 2 * size
    ensures Visited(next, size, c, 0, total) == Expected(next, size, c, 0, total)
  {
    FromClusterStart(size, size);
    DivMod(size, 0, 0);
    OnePiece(next, size, c, 0, size);
    DivMod(size, 1, 0);
    FromClusterStart(size, total - size);
    OnePiece(next, size, c, size, total - size);
    assert Visited(next, size, c, 0, total) == Piece(c, 0, size) + Visited(next, size, c, size, total - size);
    assert Visited(next, size, c, 0, size) == Piece(c, 0, size) + [];
    ExpectedSplits(next, size, c, 0, size, total - size);
  }

  lemma ExpectedSplits(next: Lookup, size: nat, c: nat, offset: nat, a: nat, b: nat)
    requires size > 0
    ensures Expected(next, size, c, offset, a + b) == Expected(next, size, c, offset, a) + Expected(next, size, c, offset + a, b)
  {
  }

  /** Under the condition, every chain is read exactly. */
  lemma ExactReads(next: Lookup, size: nat, c: nat, offset: nat, total: nat)
    requires IsClusterSize(size) && ReadsExactly(size, offset, total)
    ensures Visited(next, size, c, offset, total) == Expected(next, size, c, offset, total)
  {
    if offset % size + total <= size && Covers(offset % size, total) {
      OnePiece(next, size, c, offset, total);
    } else if total <= size {
      DivMod(size, 0, 0);
      FromClusterStart(size, total);
      OnePiece(next, size, c, offset, total);
    } else {
      TwoClusters(next, size, c, total);
    }
  }

  // ---- the condition is necessary ----

  // p clusters, every second one from RING on, in a ring.
  const RING: nat := 0x1000
  const MAX_RING: nat := 0x3800

  function RingCluster(p: nat, k: nat): (c: nat)
    requires p > 0
    ensures RING <= c < RING + 2 * p
  {
    RING + 2 * (k % p)
  }

  predicate RingLink(next: Lookup, p: nat, k: nat)
    requires p > 0
  {
    next(RingCluster(p, k)) == RingCluster(p, k + 1)
  }

  /** The chain from RING takes len steps along the ring: past its end, or less than once around. */
  ghost predicate IsTrack(next: Lookup, p: nat, len: nat) {
    0 < p <= MAX_RING && forall k: nat | k < len :: RingLink(next, p, k)
  }

  lemma {:induction false} TrackChain(next: Lookup, p: nat, len: nat, k: nat, n: nat)
    requires IsTrack(next, p, len) && k + n <= len
    ensures ChainLong(next, RingCluster(p, k), n) && Advance(next, RingCluster(p, k), n) == RingCluster(p, k + n)
    ensures SpecChainLong(next, RingCluster(p, k), n) && Iterate(next, RingCluster(p, k), n) == RingCluster(p, k + n)
    decreases n
  {
    if n > 0 {
      assert RingLink(next, p, k);
      TrackChain(next, p, len, k + 1, n - 1);
    }
  }

  lemma FromRing(next: Lookup, p: nat, len: nat, n: nat)
    requires IsTrack(next, p, len) && n <= len
    ensures ChainLong(next, RING, n) && Advance(next, RING, n) == RingCluster(p, n)
    ensures SpecChainLong(next, RING, n) && Iterate(next, RING, n) == RingCluster(p, n)
  {
    assert RingCluster(p, 0) == RING;
    TrackChain(next, p, len, 0, n);
  }

  const END_MARK: nat := 0xFFFF

  /** The track as a lookup of its own: a ring, or less than once around a chain with an end mark behind len steps. */
  function TrackNext(p: nat, len: nat, c: nat): (e: nat)
    requires 0 < p <= MAX_RING
    ensures e < 0x1_0000
  {
    if !(RING <= c < RING + 2 * p && c % 2 == 0) then 0
    else if (c - RING) / 2 < len then RingCluster(p, (c - RING) / 2 + 1)
    else END_MARK
  }

  lemma TrackNextLinks(p: nat, len: nat, k: nat)
    requires 0 < p <= MAX_RING && k < len
    ensures TrackNext(p, len, RingCluster(p, k)) == RingCluster(p, k + 1)
  {
    Split(p, k);
    MulMonotone(0, k / p, p);
    NextInRing(p, k);
  }

  lemma NextInRing(p: nat, k: nat)
    requires p > 0
    ensures (k % p + 1) % p == (k + 1) % p
  {
    Split(p, k);
    Split(p, k % p + 1);
    var q := k / p + (k % p + 1) / p;
    assert q * p == k / p * p + (k % p + 1) / p * p;
    DivMod(p, q, (k % p + 1) % p);
  }

  /** Clusters of the ring differ unless they are a multiple of p steps apart. */
  lemma RingDiffers(p: nat, k: nat, n: nat)
    requires p > 0 && n % p != 0
    ensures RingCluster(p, k + n) != RingCluster(p, k)
  {
    SameRemainder(p, k, n);
  }

  lemma SameRemainder(p: nat, k: nat, n: nat)
    requires p > 0
    ensures (k + n) % p == k % p ==> n % p == 0
  {
    if (k + n) % p == k % p {
      Split(p, k);
      Split(p, k + n);
      QuotientMonotone(p, k, k + n);
      var q: nat := (k + n) / p - k / p;
      assert n == q * p by { assert (k + n) / p * p - k / p * p == q * p; }
      DivMod(p, q, 0);
    }
  }

  /** A wrong byte: byte i comes from x instead of y, on every such track. */
  ghost predicate WrongAt(size: nat, offset: nat, total: nat, p: nat, len: nat, i: nat, x: Source, y: Source)
    requires size > 0
  {
    && 0 < p <= MAX_RING && i < total && Confused(p, size, x, y)
    && forall next: Lookup | IsTrack(next, p, len) ::
         Visited(next, size, RING, offset, total)[i] == x && Expected(next, size, RING, offset, total)[i] == y
  }

  /** y is a byte of the ring's clusters, and x is another one, a byte just behind one of them, or stale. */
  ghost predicate Confused(p: nat, size: nat, x: Source, y: Source) {
    && p > 0 && x != y && y.In? && InRing(p, y.cluster) && y.pos < size
    && (x.In? ==> InRing(p, x.cluster) && x.pos < 2 * size)
  }

  ghost predicate InRing(p: nat, c: nat)
    requires p > 0
  {
    exists k: nat :: c == RingCluster(p, k)
  }

  /** Outside the condition, some byte read along a track is not the file's; any track that is long enough shows it. */
  lemma InexactRead(size: nat, offset: nat, total: nat, len: nat) returns (p: nat, i: nat, x: Source, y: Source)
    requires IsClusterSize(size) && size >= SECTOR && total > 0 && offset < 0x1_0000_0000 && !ReadsExactly(size, offset, total)
    requires len >= 2 * (offset / size) + 3
    ensures WrongAt(size, offset, total, p, len, i, x, y)
    ensures offset / size < MAX_RING ==> p == MAX_RING
  {
    var k, r := Parts(size, offset);
    DivMod(size, k, r);
    if total <= size || r > 0 {
      p := MAX_RING;
      i, x, y := FirstPieceWrong(p, size, offset, k, r, total, len);
    } else if k > 0 {
      p, i, x, y := SecondPieceWrong(size, offset, k, total, len);
    } else {
      p := MAX_RING;
      i, x, y := ThirdPieceWrong(p, size, total, len);
    }
  }

  lemma FirstPieceWrong(p: nat, size: nat, offset: nat, k: nat, r: nat, total: nat, len: nat) returns (i: nat, x: Source, y: Source)
    requires 0 < p <= MAX_RING && total > 0 && r < size && len >= k + 1 && offset == k * size + r
    requires var m := Min(total, size); r + m > size || !Covers(r, m)
    ensures WrongAt(size, offset, total, p, len, i, x, y)
  {
    i := Min(total, size) - 1;
    var k', r' := Parts(size, offset + i);
    NextPart(size, k, r + i, k', r');
    x, y := PieceByte(RingCluster(p, k), r, i + 1, i), In(RingCluster(p, k'), r');
    LastByteStrays(p, k, r, i + 1, size, k', r');
    forall next: Lookup | IsTrack(next, p, len)
      ensures Visited(next, size, RING, offset, total)[i] == x && Expected(next, size, RING, offset, total)[i] == y
    {
      FirstPieceAt(next, p, len, size, offset, k, r, total, i);
      ExpectedAt(next, p, len, size, offset, total, i, k', r');
    }
  }

  lemma Parts(size: nat, n: nat) returns (q: nat, r: nat)
    requires size > 0
    ensures q * size + r == n && r < size
  {
    Split(size, n);
    q, r := n / size, n % size;
  }

  /** Less than two clusters on from the start of cluster k. */
  lemma NextPart(size: nat, k: nat, r: nat, k': nat, r': nat)
    requires k * size + r == k' * size + r' && r < 2 * size
    ensures k' <= k + 1
  {
    assert (k + 2) * size == k * size + 2 * size;
    MulMonotone(k + 2, k', size);
  }

  /** The last byte of such a piece does not come from inside its cluster. */
  lemma LastByteStrays(p: nat, k: nat, r: nat, m: nat, size: nat, k': nat, r': nat)
    requires p > 0 && 0 < m <= size && r < size && r' < size && (r + m > size || !Covers(r, m))
    ensures Confused(p, size, PieceByte(RingCluster(p, k), r, m, m - 1), In(RingCluster(p, k'), r'))
  {
  }

  lemma FirstPieceAt(next: Lookup, p: nat, len: nat, size: nat, offset: nat, k: nat, r: nat, total: nat, i: nat)
    requires IsTrack(next, p, len) && k <= len && r < size && total > 0 && offset == k * size + r && i + 1 == Min(total, size)
    ensures Visited(next, size, RING, offset, total)[i] == PieceByte(RingCluster(p, k), r, i + 1, i)
  {
    DivMod(size, k, r);
    FromRing(next, p, len, k);
    LastOfFirstPiece(next, size, RING, offset, total, i + 1);
  }

  lemma ExpectedAt(next: Lookup, p: nat, len: nat, size: nat, offset: nat, total: nat, i: nat, k: nat, r: nat)
    requires IsTrack(next, p, len) && k <= len && i < total && r < size && k * size + r == offset + i
    ensures Expected(next, size, RING, offset, total)[i] == In(RingCluster(p, k), r)
  {
    DivMod(size, k, r);
    FromRing(next, p, len, k);
    assert Expected(next, size, RING, offset, total)[i] == FileByte(next, size, RING, k * size + r);
  }

  lemma LastOfFirstPiece(next: Lookup, size: nat, c: nat, offset: nat, total: nat, m: nat)
    requires size > 0 && total > 0 && m == Min(total, size)
    ensures Visited(next, size, c, offset, total)[m - 1] == PieceByte(Advance(next, c, offset / size), offset % size, m, m - 1)
  {
    var c', r := Advance(next, c, offset / size), offset % size;
    assert Visited(next, size, c, offset, total) == Piece(c', r, m) + Visited(next, size, c', offset + m, total - m);
  }

  /** Any piece that starts on a cluster starts in the cluster the code advances to. */
  lemma PieceStart(next: Lookup, size: nat, c: nat, k: nat, total: nat)
    requires IsClusterSize(size) && total > 0
    ensures Visited(next, size, c, k * size, total)[0] == In(Advance(next, c, k), 0)
  {
    var m := Min(total, size);
    DivMod(size, k, 0);
    FromClusterStart(size, m);
    var c' := Advance(next, c, k);
    assert Visited(next, size, c, k * size, total) == Piece(c', 0, m) + Visited(next, size, c', k * size + m, total - m);
    assert Piece(c', 0, m)[0] == PieceByte(c', 0, m, 0);
  }

  /** What follows a whole piece is read from the cluster that piece was in. */
  lemma BehindPiece(next: Lookup, size: nat, c: nat, k: nat, total: nat, i: nat)
    requires size > 0 && size + i < total
    ensures Visited(next, size, c, k * size, total)[size + i]
         == Visited(next, size, Advance(next, c, k), (k + 1) * size, total - size)[i]
  {
    DivMod(size, k, 0);
    assert k * size + size == (k + 1) * size;
    var c' := Advance(next, c, k);
    assert Visited(next, size, c, k * size, total) == Piece(c', 0, size) + Visited(next, size, c', (k + 1) * size, total - size);
  }

  /** The second piece of a read from cluster boundary q: clusters are counted again from the piece before it. */
  lemma SecondPieceAt(next: Lookup, size: nat, c: nat, q: nat, total: nat)
    requires IsClusterSize(size) && total > size
    ensures Visited(next, size, c, q * size, total)[size] == In(Advance(next, Advance(next, c, q), q + 1), 0)
  {
    BehindPiece(next, size, c, q, total, 0);
    PieceStart(next, size, Advance(next, c, q), q + 1, total - size);
  }

  /** The file's byte at a cluster boundary. */
  lemma ExpectedStart(next: Lookup, size: nat, c: nat, q: nat, total: nat, i: nat, k: nat)
    requires size > 0 && i < total && q * size + i == k * size
    ensures Expected(next, size, c, q * size, total)[i] == In(Advance(next, c, k), 0)
  {
    DivMod(size, k, 0);
    assert Expected(next, size, c, q * size, total)[i] == FileByte(next, size, c, k * size);
  }

  /** The third piece of a read from the file's start skips a cluster. */
  lemma ThirdPieceAt(next: Lookup, size: nat, c: nat, total: nat)
    requires IsClusterSize(size) && total > 2 * size
    ensures Visited(next, size, c, 0, total)[2 * size] == In(Advance(next, Advance(next, c, 1), 2), 0)
  {
    LaterPieceAt(next, size, c, 0, 0, total);
  }

  /** The third piece of a read from cluster boundary q, behind two whole ones. */
  lemma LaterPieceAt(next: Lookup, size: nat, c: nat, offset: nat, q: nat, total: nat)
    requires IsClusterSize(size) && total > 2 * size && offset == q * size
    ensures Visited(next, size, c, offset, total)[2 * size]
         == In(Advance(next, Advance(next, Advance(next, c, q), q + 1), q + 2), 0)
  {
    BehindPiece(next, size, c, q, total, size);
    SecondPieceAt(next, size, Advance(next, c, q), q + 1, total - size);
  }

  /** No offset below 2^32 makes the skipped clusters a multiple of both ring lengths. */
  lemma RingLength(q: nat) returns (p: nat)
    requires 0 < q < 0x80_0000
    ensures 0 < p <= MAX_RING && q % p != 0 && (q < MAX_RING ==> p == MAX_RING)
  {
    p := if q % MAX_RING != 0 then MAX_RING else MAX_RING - 1;
  }

  lemma SecondPieceWrong(size: nat, offset: nat, q: nat, total: nat, len: nat) returns (p: nat, i: nat, x: Source, y: Source)
    requires IsClusterSize(size) && size >= SECTOR && 0 < q && offset == q * size < 0x1_0000_0000 && total > size && len >= 2 * q + 1
    ensures WrongAt(size, offset, total, p, len, i, x, y)
    ensures q < MAX_RING ==> p == MAX_RING
  {
    MulMonotone(SECTOR, size, q);
    assert q * size + size == (q + 1) * size;
    p := RingLength(q);
    i, x, y := size, In(RingCluster(p, 2 * q + 1), 0), In(RingCluster(p, q + 1), 0);
    RingDiffers(p, q + 1, q);
    forall next: Lookup | IsTrack(next, p, len)
      ensures Visited(next, size, RING, offset, total)[i] == x && Expected(next, size, RING, offset, total)[i] == y
    {
      SecondPieceAt(next, size, RING, q, total);
      ExpectedStart(next, size, RING, q, total, size, q + 1);
      FromRing(next, p, len, q);
      TrackChain(next, p, len, q, q + 1);
      FromRing(next, p, len, q + 1);
    }
  }

  lemma ThirdPieceWrong(p: nat, size: nat, total: nat, len: nat) returns (i: nat, x: Source, y: Source)
    requires IsClusterSize(size) && p == MAX_RING && total > 2 * size && len >= 3
    ensures WrongAt(size, 0, total, p, len, i, x, y)
  {
    i, x, y := 2 * size, In(RingCluster(p, 3), 0), In(RingCluster(p, 2), 0);
    forall next: Lookup | IsTrack(next, p, len)
      ensures Visited(next, size, RING, 0, total)[i] == x && Expected(next, size, RING, 0, total)[i] == y
    {
      ThirdPieceAt(next, size, RING, total);
      ExpectedStart(next, size, RING, 0, total, 2 * size, 2);
      FromRing(next, p, len, 1);
      TrackChain(next, p, len, 1, 2);
      FromRing(next, p, len, 2);
    }
  }

  /** The chain from c has a cluster for every byte below end. */
  predicate ChainCovers(next: Lookup, size: nat, c: nat, end: nat)
    requires size > 0
  {
    end == 0 || ChainLong(next, c, (end - 1) / size)
  }

  /** The entries are those of a FAT16. */
  ghost predicate Is16Bit(next: Lookup) { forall c: nat :: next(c) < 0x1_0000 }

  lemma TrackIsLookup(p: nat, len: nat) returns (next: Lookup)
    requires 0 < p <= MAX_RING
    ensures IsTrack(next, p, len) && Is16Bit(next)
  {
    next := (c: nat) => TrackNext(p, len, c);
    forall k: nat | k < len ensures RingLink(next, p, k) {
      TrackNextLinks(p, len, k);
    }
  }

  lemma TrackCovers(next: Lookup, p: nat, len: nat, size: nat, end: nat)
    requires size > 0 && IsTrack(next, p, len) && end <= len
    ensures ChainCovers(next, size, RING, end)
  {
    if end > 0 {
      QuotientAtMost(size, end - 1);
      FromRing(next, p, len, (end - 1) / size);
    }
  }

  lemma QuotientAtMost(size: nat, n: nat)
    requires size > 0
    ensures 0 <= n / size <= n
  {
    Split(size, n);
    MulMonotone(1, size, n / size);
  }

  /** A read is right on every chain of 16-bit entries that is long enough exactly under the condition. */
  lemma ReadIsExactIff(size: nat, offset: nat, total: nat)
    requires IsClusterSize(size) && size >= SECTOR && total > 0 && offset + total < 0x1_0000_0000
    ensures ReadsExactly(size, offset, total) <==>
            forall next: Lookup, c: uint16 | Is16Bit(next) && ChainCovers(next, size, c, offset + total) ::
              Visited(next, size, c, offset, total) == Expected(next, size, c, offset, total)
  {
    if ReadsExactly(size, offset, total) {
      forall next: Lookup, c: uint16
        ensures Visited(next, size, c, offset, total) == Expected(next, size, c, offset, total)
      {
        ExactReads(next, size, c, offset, total);
      }
    } else {
      var next := InexactLookup(size, offset, total);
      assert Visited(next, size, RING, offset, total) != Expected(next, size, RING, offset, total);
    }
  }

  lemma InexactLookup(size: nat, offset: nat, total: nat) returns (next: Lookup)
    requires IsClusterSize(size) && size >= SECTOR && total > 0 && offset + total < 0x1_0000_0000 && !ReadsExactly(size, offset, total)
    ensures Is16Bit(next) && ChainCovers(next, size, RING, offset + total)
    ensures Visited(next, size, RING, offset, total) != Expected(next, size, RING, offset, total)
  {
    var len := 2 * (offset + total) + 3;
    QuotientAtMost(size, offset);
    var p, i, x, y := InexactRead(size, offset, total, len);
    next := TrackIsLookup(p, len);
    TrackCovers(next, p, len, size, offset + total);
    assert Visited(next, size, RING, offset, total)[i] == x;
  }

  // ---- fat16_read: members ----

  /** fat16_read: nmemb reads of s bytes each, from pos on. */
  function MembersVisited(next: Lookup, size: nat, c: nat, pos: nat, s: nat, nmemb: nat): seq<Source>
    requires size > 0
  {
    if nmemb == 0 then [] else MembersVisited(next, size, c, pos, s, nmemb - 1) + Visited(next, size, c, pos + (nmemb - 1) * s, s)
  }

  predicate MembersExact(size: nat, pos: nat, s: nat, nmemb: nat)
    requires size > 0
  {
    forall i: nat | i < nmemb :: ReadsExactly(size, pos + i * s, s)
  }

  lemma MemberLength(nmemb: nat, s: nat)
    requires nmemb > 0
    ensures nmemb * s == (nmemb - 1) * s + s
  {
  }

  lemma {:induction false} MembersLength(next: Lookup, size: nat, c: nat, pos: nat, s: nat, nmemb: nat)
    requires size > 0
    ensures |MembersVisited(next, size, c, pos, s, nmemb)| == nmemb * s
  {
    if nmemb > 0 {
      MembersLength(next, size, c, pos, s, nmemb - 1);
      MemberLength(nmemb, s);
    }
  }

  /** On one chain: all members together are the file's bytes exactly when each member is. */
  lemma {:induction false} MembersSplit(next: Lookup, size: nat, c: nat, pos: nat, s: nat, nmemb: nat)
    requires size > 0
    ensures MembersVisited(next, size, c, pos, s, nmemb) == Expected(next, size, c, pos, nmemb * s) <==>
            forall i: nat | i < nmemb :: MemberExact(next, size, c, pos, s, i)
  {
    if nmemb > 0 {
      MembersSplit(next, size, c, pos, s, nmemb - 1);
      LastMemberSplit(next, size, c, pos, s, nmemb);
    }
  }

  /** Member i is read right on this chain. */
  predicate MemberExact(next: Lookup, size: nat, c: nat, pos: nat, s: nat, i: nat)
    requires size > 0
  {
    Visited(next, size, c, pos + i * s, s) == Expected(next, size, c, pos + i * s, s)
  }

  lemma LastMemberSplit(next: Lookup, size: nat, c: nat, pos: nat, s: nat, nmemb: nat)
    requires size > 0 && nmemb > 0
    ensures MembersVisited(next, size, c, pos, s, nmemb) == Expected(next, size, c, pos, nmemb * s) <==>
            MembersVisited(next, size, c, pos, s, nmemb - 1) == Expected(next, size, c, pos, (nmemb - 1) * s)
            && MemberExact(next, size, c, pos, s, nmemb - 1)
  {
    MembersLength(next, size, c, pos, s, nmemb - 1);
    MemberLength(nmemb, s);
    var done := (nmemb - 1) * s;
    ExpectedSplits(next, size, c, pos, done, s);
    SplitEqual(MembersVisited(next, size, c, pos, s, nmemb - 1), Visited(next, size, c, pos + done, s),
               Expected(next, size, c, pos, done), Expected(next, size, c, pos + done, s));
  }

  lemma SplitEqual(a: seq<Source>, b: seq<Source>, a': seq<Source>, b': seq<Source>)
    requires |a| == |a'| && |b| == |b'|
    ensures a + b == a' + b' <==> a == a' && b == b'
  {
    if a + b == a' + b' {
      assert a == (a + b)[..|a|] && b == (a + b)[|a|..];
    }
  }

  /** Byte i of member j, which starts at `at`, among all members. */
  lemma {:induction false} MemberByte(next: Lookup, size: nat, c: nat, pos: nat, s: nat, nmemb: nat, j: nat, at: nat, i: nat, b: nat)
    requires size > 0 && j < nmemb && i < s && at == pos + j * s && b == j * s + i
    ensures b < |MembersVisited(next, size, c, pos, s, nmemb)|
    ensures MembersVisited(next, size, c, pos, s, nmemb)[b] == Visited(next, size, c, at, s)[i]
  {
    MembersLength(next, size, c, pos, s, nmemb - 1);
    ByteOfMember(s, nmemb, j, i);
    if j < nmemb - 1 {
      MemberByte(next, size, c, pos, s, nmemb - 1, j, at, i, b);
      EarlierMember(next, size, c, pos, s, nmemb, b);
    } else {
      LastMember(next, size, c, pos, s, nmemb, at, i);
    }
  }

  lemma EarlierMember(next: Lookup, size: nat, c: nat, pos: nat, s: nat, nmemb: nat, b: nat)
    requires size > 0 && nmemb > 0 && b < |MembersVisited(next, size, c, pos, s, nmemb - 1)|
    ensures b < |MembersVisited(next, size, c, pos, s, nmemb)|
    ensures MembersVisited(next, size, c, pos, s, nmemb)[b] == MembersVisited(next, size, c, pos, s, nmemb - 1)[b]
  {
  }

  lemma LastMember(next: Lookup, size: nat, c: nat, pos: nat, s: nat, nmemb: nat, at: nat, i: nat)
    requires size > 0 && nmemb > 0 && at == pos + (nmemb - 1) * s && i < s
    ensures var done := |MembersVisited(next, size, c, pos, s, nmemb - 1)|;
            done + i < |MembersVisited(next, size, c, pos, s, nmemb)|
            && MembersVisited(next, size, c, pos, s, nmemb)[done + i] == Visited(next, size, c, at, s)[i]
  {
  }

  lemma ByteOfMember(s: nat, nmemb: nat, j: nat, i: nat)
    requires j < nmemb && i < s
    ensures j * s + i < nmemb * s && j * s <= (nmemb - 1) * s
    ensures j < nmemb - 1 ==> j * s + i < (nmemb - 1) * s
  {
    MemberLength(j + 1, s);
    MulMonotone(j, nmemb - 1, s);
    MulMonotone(j + 1, nmemb, s);
    if j < nmemb - 1 { MulMonotone(j + 1, nmemb - 1, s); }
  }

  /** A wrong byte among the n bytes of all members. */
  ghost predicate MembersWrongAt(size: nat, pos: nat, s: nat, nmemb: nat, n: nat, p: nat, len: nat, i: nat, x: Source, y: Source)
    requires size > 0
  {
    && 0 < p <= MAX_RING && i < n && Confused(p, size, x, y)
    && forall next: Lookup | IsTrack(next, p, len) ::
         && |MembersVisited(next, size, RING, pos, s, nmemb)| == n
         && MembersVisited(next, size, RING, pos, s, nmemb)[i] == x && Expected(next, size, RING, pos, n)[i] == y
  }

  lemma InexactMembers(size: nat, pos: nat, s: nat, nmemb: nat, n: nat, len: nat) returns (p: nat, i: nat, x: Source, y: Source)
    requires IsClusterSize(size) && size >= SECTOR && s > 0 && n == nmemb * s && pos + n < 0x1_0000_0000
    requires !MembersExact(size, pos, s, nmemb) && len >= 2 * ((pos + n) / size) + 3
    ensures MembersWrongAt(size, pos, s, nmemb, n, p, len, i, x, y)
    ensures (pos + n) / size < MAX_RING ==> p == MAX_RING
  {
    var j := SomeInexact(size, pos, s, nmemb);
    p, i, x, y := InexactMember(size, pos, s, nmemb, n, len, j, j * s);
  }

  lemma SomeInexact(size: nat, pos: nat, s: nat, nmemb: nat) returns (j: nat)
    requires size > 0 && !MembersExact(size, pos, s, nmemb)
    ensures j < nmemb && !ReadsExactly(size, pos + j * s, s)
  {
    j :| j < nmemb && !ReadsExactly(size, pos + j * s, s);
  }

  lemma InexactMember(size: nat, pos: nat, s: nat, nmemb: nat, n: nat, len: nat, j: nat, done: nat)
      returns (p: nat, i: nat, x: Source, y: Source)
    requires IsClusterSize(size) && size >= SECTOR && s > 0 && n == nmemb * s && pos + n < 0x1_0000_0000
    requires j < nmemb && done == j * s && !ReadsExactly(size, pos + done, s) && len >= 2 * ((pos + n) / size) + 3
    ensures MembersWrongAt(size, pos, s, nmemb, n, p, len, i, x, y)
    ensures (pos + n) / size < MAX_RING ==> p == MAX_RING
  {
    var i';
    ByteOfMember(s, nmemb, j, s - 1);
    QuotientMonotone(size, pos + done, pos + n);
    p, i', x, y := InexactRead(size, pos + done, s, len);
    i := done + i';
    ByteOfMember(s, nmemb, j, i');
    WrongMember(size, pos, s, nmemb, n, j, pos + done, p, len, i', i, x, y);
  }

  lemma QuotientMonotone(size: nat, m: nat, n: nat)
    requires size > 0 && m <= n
    ensures 0 <= m / size <= n / size
  {
    Split(size, m);
    Split(size, n);
    assert (n / size + 1) * size == n / size * size + size;
    MulMonotone(n / size + 1, m / size, size);
  }

  lemma WrongMember(size: nat, pos: nat, s: nat, nmemb: nat, n: nat, j: nat, at: nat, p: nat, len: nat,
                    i: nat, b: nat, x: Source, y: Source)
    requires size > 0 && n == nmemb * s && j < nmemb && at == pos + j * s && b == j * s + i < n && WrongAt(size, at, s, p, len, i, x, y)
    ensures MembersWrongAt(size, pos, s, nmemb, n, p, len, b, x, y)
  {
    forall next: Lookup | IsTrack(next, p, len)
      ensures |MembersVisited(next, size, RING, pos, s, nmemb)| == n
      ensures MembersVisited(next, size, RING, pos, s, nmemb)[b] == x && Expected(next, size, RING, pos, n)[b] == y
    {
      MemberSources(next, size, RING, pos, s, nmemb, n, j, at, i, b);
    }
  }

  lemma MemberSources(next: Lookup, size: nat, c: nat, pos: nat, s: nat, nmemb: nat, n: nat, j: nat, at: nat, i: nat, b: nat)
    requires size > 0 && n == nmemb * s && j < nmemb && i < s && at == pos + j * s && b == j * s + i < n
    ensures |MembersVisited(next, size, c, pos, s, nmemb)| == n
    ensures MembersVisited(next, size, c, pos, s, nmemb)[b] == Visited(next, size, c, at, s)[i]
    ensures Expected(next, size, c, pos, n)[b] == Expected(next, size, c, at, s)[i]
  {
    MembersLength(next, size, c, pos, s, nmemb);
    MemberByte(next, size, c, pos, s, nmemb, j, at, i, b);
    SameExpected(next, size, c, pos, n, b, at, s, i);
  }

  lemma SameExpected(next: Lookup, size: nat, c: nat, pos: nat, n: nat, b: nat, pos': nat, n': nat, i: nat)
    requires size > 0 && b < n && i < n' && pos + b == pos' + i
    ensures Expected(next, size, c, pos, n)[b] == Expected(next, size, c, pos', n')[i]
  {
  }

  /** fat16_read is right on every long-enough chain of 16-bit entries exactly when each of its member reads is exact. */
  lemma MembersAreExactIff(size: nat, pos: nat, s: nat, nmemb: nat)
    requires IsClusterSize(size) && size >= SECTOR && s > 0 && pos + nmemb * s < 0x1_0000_0000
    ensures MembersExact(size, pos, s, nmemb) <==>
            forall next: Lookup, c: uint16 | Is16Bit(next) && ChainCovers(next, size, c, pos + nmemb * s) ::
              MembersVisited(next, size, c, pos, s, nmemb) == Expected(next, size, c, pos, nmemb * s)
  {
    if MembersExact(size, pos, s, nmemb) {
      forall next: Lookup, c: uint16
        ensures MembersVisited(next, size, c, pos, s, nmemb) == Expected(next, size, c, pos, nmemb * s)
      {
        ExactMembers(next, size, c, pos, s, nmemb);
      }
    } else {
      var next := InexactMembersLookup(size, pos, s, nmemb, nmemb * s);
      assert MembersVisited(next, size, RING, pos, s, nmemb) != Expected(next, size, RING, pos, nmemb * s);
    }
  }

  lemma InexactMembersLookup(size: nat, pos: nat, s: nat, nmemb: nat, n: nat) returns (next: Lookup)
    requires IsClusterSize(size) && size >= SECTOR && s > 0 && n == nmemb * s && pos + n < 0x1_0000_0000
    requires !MembersExact(size, pos, s, nmemb)
    ensures Is16Bit(next) && ChainCovers(next, size, RING, pos + n)
    ensures MembersVisited(next, size, RING, pos, s, nmemb) != Expected(next, size, RING, pos, n)
  {
    var len := 2 * (pos + n) + 3;
    QuotientAtMost(size, pos + n);
    var p, i, x, y := InexactMembers(size, pos, s, nmemb, n, len);
    next := TrackIsLookup(p, len);
    TrackCovers(next, p, len, size, pos + n);
    assert MembersVisited(next, size, RING, pos, s, nmemb)[i] == x;
  }

  lemma ExactMembers(next: Lookup, size: nat, c: nat, pos: nat, s: nat, nmemb: nat)
    requires IsClusterSize(size) && MembersExact(size, pos, s, nmemb)
    ensures MembersVisited(next, size, c, pos, s, nmemb) == Expected(next, size, c, pos, nmemb * s)
  {
    forall i: nat | i < nmemb ensures MemberExact(next, size, c, pos, s, i) {
      ExactReads(next, size, c, pos + i * s, s);
    }
    MembersSplit(next, size, c, pos, s, nmemb);
  }

  // ---- members that divide the cluster ----

  ghost predicate Divides(s: nat, n: nat) { s > 0 && exists k: nat :: k * s == n }

  lemma {:induction false} DivisorOfPowerOfTwo(s: nat, a: nat, k: nat) returns (i: nat)
    requires a * s == Pow2(k)
    ensures s == Pow2(i) && i <= k
    decreases s + k
  {
    if s % 2 == 0 {
      assert a * s == 2 * (a * (s / 2));
      assert k > 0;
      i := DivisorOfPowerOfTwo(s / 2, a, k - 1);
      i := i + 1;
    } else if k == 0 {
      FactorOfOne(a, s);
      i := 0;
    } else {
      OddFactor(a, s);
      assert a * s == 2 * ((a / 2) * s);
      i := DivisorOfPowerOfTwo(s, a / 2, k - 1);
    }
  }

  lemma FactorOfOne(a: nat, s: nat)
    requires a * s == 1
    ensures s == 1
  {
    MulMonotone(2, s, a);
  }

  lemma OddFactor(a: nat, s: nat)
    requires s % 2 == 1 && (a * s) % 2 == 0
    ensures a % 2 == 0 && a * s == 2 * ((a / 2) * s)
  {
    var x, y := a / 2, s / 2;
    OddProduct(x, y);
    EvenProductOf(x, s);
  }

  lemma EvenProductOf(x: nat, s: nat)
    ensures (2 * x) * s == 2 * (x * s)
  {
  }

  lemma OddProduct(x: nat, y: nat)
    ensures ((2 * x + 1) * (2 * y + 1)) % 2 == 1
  {
    assert (2 * x + 1) * (2 * y + 1) == 2 * (2 * (x * y) + x + y) + 1;
  }

  lemma {:induction false} Pow2Add(i: nat, j: nat)
    ensures Pow2(i + j) == Pow2(i) * Pow2(j)
  {
    if i > 0 {
      Pow2Add(i - 1, j);
      EvenProductOf(Pow2(i - 1), Pow2(j));
    }
  }

  /** The remainder of a multiple of s by a multiple of s leaves room for s more. */
  lemma MultipleLeavesRoom(s: nat, k: nat, a: nat)
    requires s > 0 && a > 0
    ensures (k * s) % (a * s) + s <= a * s && (k * s) % (a * s) == (k % a) * s && a * s > 0
  {
    Split(a, k);
    var q, j := k / a, k % a;
    Distribute(q, a, j, s);
    MulMonotone(j + 1, a, s);
    DivMod(a * s, q, j * s);
  }

  lemma Distribute(q: nat, a: nat, j: nat, s: nat)
    ensures (q * a + j) * s == q * (a * s) + j * s && (j + 1) * s == j * s + s
  {
  }

  /** Members of a size that divides a power-of-two cluster, read from a multiple of that size, are exact. */
  lemma DividingMembersAreExact(j: nat, size: nat, pos: nat, s: nat, nmemb: nat)
    requires size == Pow2(9 + j) && IsClusterSize(size) && Divides(s, size) && Divides(s, pos)
    ensures MembersExact(size, pos, s, nmemb)
  {
    var a: nat :| a * s == size;
    var b: nat :| b * s == pos;
    assert a > 0;
    var e := DivisorOfPowerOfTwo(s, a, 9 + j);
    forall i: nat | i < nmemb ensures ReadsExactly(size, pos + i * s, s) {
      SumOfMultiples(b, i, s);
      DividingMemberIsExact(e, a, b + i, s, size);
    }
  }

  lemma SumOfMultiples(b: nat, i: nat, s: nat)
    ensures b * s + i * s == (b + i) * s
  {
  }

  lemma DividingMemberIsExact(e: nat, a: nat, k: nat, s: nat, size: nat)
    requires s == Pow2(e) && a * s == size && a > 0 && IsClusterSize(size)
    ensures ReadsExactly(size, k * s, s)
  {
    MultipleLeavesRoom(s, k, a);
    MulMonotone(1, a, s);
    PowerSteps(e, k % a, s, size);
  }

  /** A piece of 2^e bytes at a multiple of its length is covered. */
  lemma PowerSteps(e: nat, k: nat, s: nat, size: nat)
    requires s == Pow2(e) && s <= size && IsClusterSize(size)
    ensures Covers(k * s, s)
  {
    assert Pow2(9) == 512 by { assert Pow2(4) == 16; }
    if e <= 9 {
      Pow2Add(9 - e, e);
      PartOfSector(s, k, Pow2(9 - e));
    } else {
      Pow2Add(e - 9, 9);
      WholeSectorsOnly(s, k, Pow2(e - 9));
    }
  }

  lemma PartOfSector(s: nat, k: nat, a: nat)
    requires s > 0 && a * s == SECTOR
    ensures Covers(k * s, s)
  {
    MultipleLeavesRoom(s, k, a);
    MulMonotone(1, a, s);
    SectorsReach(s);
  }

  lemma WholeSectorsOnly(s: nat, k: nat, a: nat)
    requires s == a * SECTOR && 0 < s <= 255 * SECTOR
    ensures Covers(k * s, s)
  {
    assert k * s == (k * a) * SECTOR;
    DivMod(SECTOR, k * a, 0);
    SectorsAreCoveredIff(k * s, s);
  }

  /** With a cluster of three sectors the members can straddle a sector, and the read is not exact. */
  lemma ThreeSectorClusterFails()
    ensures !MembersExact(3 * SECTOR, 510, 3, 1)
  {
    assert !ReadsExactly(3 * SECTOR, 510 + 0 * 3, 3);
  }

  // ---- the repaired read ----

  /** A stream read that counts sectors from the start of its first sector. */
  function RepairedByte(c: nat, r: nat, m: nat, i: nat): Source {
    if InSector(r) + i < Filled(InSector(r) + m) then In(c, r + i) else Stale
  }

  /** The recursion with the piece capped at the cluster's end and the file's first cluster passed on. */
  function RepairedVisited(next: Lookup, size: nat, first: nat, offset: nat, total: nat): (v: seq<Source>)
    requires size > 0
    ensures |v| == total
    decreases total
  {
    if total == 0 then []
    else
      var c, r := Advance(next, first, offset / size), offset % size;
      var m := Min(total, size - r);
      RepairedPiece(c, r, m) + RepairedVisited(next, size, first, offset + m, total - m)
  }

  function RepairedPiece(c: nat, r: nat, m: nat): seq<Source> { seq(m, i requires 0 <= i < m => RepairedByte(c, r, m, i)) }

  /** The repaired read is right for every offset and length. */
  lemma {:induction false} RepairedIsExact(next: Lookup, size: nat, first: nat, offset: nat, total: nat)
    requires IsClusterSize(size)
    ensures RepairedVisited(next, size, first, offset, total) == Expected(next, size, first, offset, total)
    decreases total
  {
    if total > 0 {
      var m, piece := FirstRepairedPiece(next, size, first, offset, total);
      RepairedIsExact(next, size, first, offset + m, total - m);
    } else {
      assert Expected(next, size, first, offset, 0) == [];
    }
  }

  /** What both begin with, and go on behind. */
  lemma FirstRepairedPiece(next: Lookup, size: nat, first: nat, offset: nat, total: nat) returns (m: nat, piece: seq<Source>)
    requires IsClusterSize(size) && total > 0
    ensures 0 < m <= total
    ensures RepairedVisited(next, size, first, offset, total) == piece + RepairedVisited(next, size, first, offset + m, total - m)
    ensures Expected(next, size, first, offset, total) == piece + Expected(next, size, first, offset + m, total - m)
  {
    Split(size, offset);
    var c, r := Advance(next, first, offset / size), offset % size;
    m := Min(total, size - r);
    piece := RepairedPiece(c, r, m);
    RepairedStep(next, size, first, offset, total, c, r, m);
    PieceThenRest(next, size, first, offset, total, c, r, m);
  }

  lemma RepairedStep(next: Lookup, size: nat, first: nat, offset: nat, total: nat, c: nat, r: nat, m: nat)
    requires total > 0 && r < size && c == Advance(next, first, offset / size) && r == offset % size && m == Min(total, size - r)
    ensures RepairedVisited(next, size, first, offset, total)
         == RepairedPiece(c, r, m) + RepairedVisited(next, size, first, offset + m, total - m)
  {
  }

  lemma PieceThenRest(next: Lookup, size: nat, first: nat, offset: nat, total: nat, c: nat, r: nat, m: nat)
    requires IsClusterSize(size) && r < size && c == Advance(next, first, offset / size) && r == offset % size && m == Min(total, size - r)
    ensures Expected(next, size, first, offset, total) == RepairedPiece(c, r, m) + Expected(next, size, first, offset + m, total - m)
  {
    RepairedPieceIsExact(c, r, m);
    ExpectedInCluster(next, size, first, offset, m);
    ExpectedSplits(next, size, first, offset, m, total - m);
  }

  function Span(c: nat, r: nat, m: nat): seq<Source> { seq(m, i requires 0 <= i < m => In(c, r + i)) }

  lemma RepairedPieceIsExact(c: nat, r: nat, m: nat)
    requires r + m <= 255 * SECTOR
    ensures RepairedPiece(c, r, m) == Span(c, r, m)
  {
    forall i | 0 <= i < m ensures RepairedByte(c, r, m, i) == In(c, r + i) {
      RepairedByteIsRead(c, r, m, i);
    }
  }

  lemma ExpectedInCluster(next: Lookup, size: nat, first: nat, offset: nat, m: nat)
    requires size > 0 && offset % size + m <= size
    ensures Expected(next, size, first, offset, m) == Span(Advance(next, first, offset / size), offset % size, m)
  {
    var e, span := Expected(next, size, first, offset, m), Span(Advance(next, first, offset / size), offset % size, m);
    forall i | 0 <= i < m ensures e[i] == span[i] {
      SameCluster(size, offset, i);
    }
  }

  lemma RepairedByteIsRead(c: nat, r: nat, m: nat, i: nat)
    requires i < m && r + m <= 255 * SECTOR
    ensures RepairedByte(c, r, m, i) == In(c, r + i)
  {
    StreamBounds(r, m);
    SectorsReach(InSector(r) + m);
  }
}
