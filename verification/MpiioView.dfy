/**
 The MPI-IO back-end with file views: the offset inside the view that belongs to
 an absolute offset, and the strided datatype that replaces the transfers of all
 segments by one call.

 File views are those of section 13.3 of MPI 3.1, subarray types those of
 section 4.1.3.
 */
module MpiioView {
  import opened Arithmetic
  import opened IorTrace

  type Byte = b: nat | b < 256

  /** The rank whose part of the file is accessed, and the number of ranks sharing the file. */
  function FileRank(t: Test, p: nat): nat { if t.filePerProc then 0 else p }
  function TasksPerFile(t: Test): nat { if t.filePerProc then 1 else t.numTasks }

  // ------------------------------------------------------------------ the view

  /**
   The filetype is a subarray: of every tile of `perBlock * tasks` elements it
   shows the `perBlock` ones from `perBlock * fileRank` on. This tells whether
   element `g` of the file is shown.
   */
  predicate Visible(perBlock: nat, tasks: nat, fileRank: nat, g: nat)
    requires perBlock > 0 && tasks > 0
  {
    fileRank * perBlock <= g % (perBlock * tasks) < (fileRank + 1) * perBlock
  }

  /** How many elements before `g` the view shows: the place of `g` in the view, if it is shown. */
  function VisibleBefore(perBlock: nat, tasks: nat, fileRank: nat, g: nat): nat
    requires perBlock > 0 && tasks > 0
  {
    if g == 0 then 0
    else VisibleBefore(perBlock, tasks, fileRank, g - 1)
         + if Visible(perBlock, tasks, fileRank, g - 1) then 1 else 0
  }

  /** Within a tile nothing is shown before the block, then one after the other, then nothing. */
  function ShownInTile(perBlock: nat, fileRank: nat, x: int): nat {
    if x <= fileRank * perBlock then 0
    else if x < (fileRank + 1) * perBlock then x - fileRank * perBlock
    else perBlock
  }

  lemma StepInTile(g: nat, tile: nat)
    requires tile > 0
    ensures g % tile + 1 < tile ==> (g + 1) / tile == g / tile && (g + 1) % tile == g % tile + 1
    ensures g % tile + 1 == tile ==> (g + 1) / tile == g / tile + 1 && (g + 1) % tile == 0
  {
    var q, r := g / tile, g % tile;
    if r + 1 < tile {
      DivModUnique(g + 1, tile, q, r + 1);
    } else {
      assert (q + 1) * tile == q * tile + tile;
      DivModUnique(g + 1, tile, q + 1, 0);
    }
  }

  lemma ShownStep(perBlock: nat, fileRank: nat, x: int)
    ensures ShownInTile(perBlock, fileRank, x + 1)
            == ShownInTile(perBlock, fileRank, x)
               + if fileRank * perBlock <= x < (fileRank + 1) * perBlock then 1 else 0
  {
    NextBlock(fileRank, perBlock);
  }

  lemma NextBlock(q: nat, k: nat)
    ensures (q + 1) * k == q * k + k && q * k >= 0
  {
  }

  /** At the end of a tile the whole block was shown, at its start nothing. */
  lemma ShownEnds(perBlock: nat, tasks: nat, fileRank: nat)
    requires fileRank < tasks
    ensures ShownInTile(perBlock, fileRank, 0) == 0
    ensures ShownInTile(perBlock, fileRank, perBlock * tasks) == perBlock
  {
    NextBlock(fileRank, perBlock);
    BlocksFit(fileRank, tasks, perBlock);
  }

  lemma BlocksFit(q: nat, n: nat, k: nat)
    requires q < n
    ensures q * k + k <= k * n
  {
    MulNonnegative(n - (q + 1), k);
    assert (n - (q + 1)) * k == k * n - q * k - k;
  }

  lemma VisibleBeforeStep(perBlock: nat, tasks: nat, fileRank: nat, g: nat, tile: nat)
    requires perBlock > 0 && tasks > 0 && tile == perBlock * tasks > 0
    ensures VisibleBefore(perBlock, tasks, fileRank, 0) == 0
    ensures VisibleBefore(perBlock, tasks, fileRank, g + 1) - VisibleBefore(perBlock, tasks, fileRank, g)
            == ShownInTile(perBlock, fileRank, g % tile + 1) - ShownInTile(perBlock, fileRank, g % tile)
  {
    hide ShownInTile;
    ShownStep(perBlock, fileRank, g % tile);
  }

  /** The elements shown in that many whole tiles. */
  function InTiles(q: int, perBlock: nat): int {
    q * perBlock
  }

  lemma OneTileMore(q: int, perBlock: nat)
    ensures InTiles(q + 1, perBlock) == InTiles(q, perBlock) + perBlock && InTiles(0, perBlock) == 0
  {
    assert (q + 1) * perBlock == q * perBlock + perBlock && 0 * perBlock == 0;
  }

  lemma {:induction false} VisibleBeforeTile(perBlock: nat, tasks: nat, fileRank: nat, g: nat, tile: nat)
    requires perBlock > 0 && tasks > 0 && fileRank < tasks && tile == perBlock * tasks > 0
    ensures VisibleBefore(perBlock, tasks, fileRank, g)
            == InTiles(g / tile, perBlock) + ShownInTile(perBlock, fileRank, g % tile)
  {
    hide *;
    ShownEnds(perBlock, tasks, fileRank);
    if g == 0 {
      DivModUnique(0, tile, 0, 0);
      VisibleBeforeStep(perBlock, tasks, fileRank, 0, tile);
      OneTileMore(0, perBlock);
    } else {
      VisibleBeforeTile(perBlock, tasks, fileRank, g - 1, tile);
      VisibleBeforeStep(perBlock, tasks, fileRank, g - 1, tile);
      StepInTile(g - 1, tile);
      OneTileMore((g - 1) / tile, perBlock);
    }
  }

  /** The shown elements before `g`, in closed form. */
  lemma VisibleBeforeClosed(perBlock: nat, tasks: nat, fileRank: nat, g: nat)
    requires perBlock > 0 && tasks > 0 && fileRank < tasks && perBlock * tasks > 0
    ensures VisibleBefore(perBlock, tasks, fileRank, g)
            == g / (perBlock * tasks) * perBlock + ShownInTile(perBlock, fileRank, g % (perBlock * tasks))
  {
    hide VisibleBefore, ShownInTile;
    VisibleBeforeTile(perBlock, tasks, fileRank, g, perBlock * tasks);
  }

  // ------------------------------------------------------------------ the seek

  /** The quotient as C computes it, rounded toward zero. */
  function TruncatedQuotient(a: int, m: nat): int
    requires m > 0
  {
    if a >= 0 then a / m else -((-a) / m)
  }

  /** The offset inside the view for an absolute offset. */
  function SeekOffset(t: Test, p: nat, offset: nat): int
    requires Checked(t)
  {
    if t.filePerProc then offset / t.transferSize
    else
      var segment := t.blockSize * TasksPerFile(t);
      assert segment > 0 by { MulAtLeast(t.numTasks, t.blockSize); }
      t.blockSize / t.transferSize * (offset / segment)
      + TruncatedQuotient(offset % segment - FileRank(t, p) * t.blockSize, t.transferSize)
  }

  /** Absolute offset of a transfer as the access loop computes it. */
  function AbsoluteOffset(t: Test, p: nat, i: nat, j: nat): nat
    requires Checked(t) && j < Offsets(t, Sequential)
  {
    OffsetOf(t, Sequential, p, i, j)
  }

  lemma SeekShared(t: Test, p: nat, i: nat, j: nat)
    requires Checked(t) && !t.filePerProc && p < t.numTasks && j < Offsets(t, Sequential)
    ensures SeekOffset(t, p, AbsoluteOffset(t, p, i, j)) == i * Offsets(t, Sequential) + j
  {
    var k, B, T, N := Offsets(t, Sequential), t.blockSize, t.transferSize, t.numTasks;
    TransfersPerBlock(t);
    SharedOffset(i, N, B, p, j, T, k);
    DivModUnique(j * T, T, j, 0);
    assert k == t.blockSize / t.transferSize;
  }

  /** The quotient and the remainder of an absolute offset by the size of a segment. */
  lemma SharedOffset(i: nat, N: nat, B: nat, p: nat, j: nat, T: nat, k: nat)
    requires p < N && j < k && B == k * T && T > 0
    ensures B * N > 0 && p * B >= 0 && j * T >= 0
    ensures var o := j * T + (i * N * B + p * B);
            0 <= o && o / (B * N) == i && o % (B * N) == p * B + j * T
    ensures k * i == i * k
  {
    DigitsBelow(j, k, 0, T);
    var r := j * T;
    DigitsBelow(p, N, r, B);
    InSegment(i, N, B, p * B + r);
  }

  lemma InSegment(i: nat, N: nat, B: nat, m: int)
    requires 0 <= m < N * B
    ensures B * N > 0 && 0 <= m + i * N * B && (m + i * N * B) / (B * N) == i && (m + i * N * B) % (B * N) == m
  {
    var segment := N * B;
    assert B * N == segment && i * N * B == i * segment;
    MulNonnegative(i, segment);
    DivModUnique(m + i * segment, segment, i, m);
  }

  /**
   Seeking and mapping back. The view offset of transfer `j` of segment `i` is
   `i * (blockSize / transferSize) + j`; the element of the file that the
   absolute offset names is shown, and exactly that many elements are shown
   before it, so that the view maps the seek back to the absolute offset.
   */
  lemma SeekFindsTheTransfer(t: Test, p: nat, i: nat, j: nat)
    requires Checked(t) && p < t.numTasks && j < Offsets(t, Sequential)
    ensures var k, offset := Offsets(t, Sequential), AbsoluteOffset(t, p, i, j);
            && SeekOffset(t, p, offset) == i * k + j
            && offset % t.transferSize == 0
            && k > 0 && TasksPerFile(t) > 0
            && Visible(k, TasksPerFile(t), FileRank(t, p), offset / t.transferSize)
            && VisibleBefore(k, TasksPerFile(t), FileRank(t, p), offset / t.transferSize) == i * k + j
  {
    var k, T, N, q := Offsets(t, Sequential), t.transferSize, TasksPerFile(t), FileRank(t, p);
    TransfersPerBlock(t);
    if t.filePerProc {
      OffsetCounts(T, k, 1, i, 0, j);
      assert i * 1 * (k * T) == i * t.blockSize;
    } else {
      SeekShared(t, p, i, j);
      OffsetCounts(T, k, N, i, p, j);
    }
    var g := (i * N + q) * k + j;
    DivModUnique(g * T, T, g, 0);
    PlaceInView(k, N, q, i, j);
  }

  /** An element of the shown block: its tile, its place in the tile, and how much of the tile is shown before it. */
  lemma TileOfPlace(k: nat, N: nat, q: nat, i: nat, j: nat)
    requires j < k && q < N
    ensures var g := (i * N + q) * k + j;
            && 0 <= g && 0 < k * N
            && g / (k * N) == i && g % (k * N) == q * k + j
            && ShownInTile(k, q, q * k + j) == j
            && (q + 1) * k == q * k + k
  {
    hide ShownInTile;
    PlaceInTile(k, N, q, i, j);
    ShownAt(k, q, j);
    NextBlock(q, k);
  }

  lemma PlaceInTile(k: nat, N: nat, q: nat, i: nat, j: nat)
    requires j < k && q < N
    ensures var g := (i * N + q) * k + j;
            0 <= g && 0 < k * N && g / (k * N) == i && g % (k * N) == q * k + j
  {
    var tile := k * N;
    assert (i * N + q) * k == i * tile + q * k;
    DigitsBelow(q, N, j, k);
    assert N * k == tile;
    MulNonnegative(i, tile);
    DivModUnique(i * tile + (q * k + j), tile, i, q * k + j);
  }

  lemma ShownAt(k: nat, q: nat, j: nat)
    requires j < k
    ensures ShownInTile(k, q, q * k + j) == j
  {
    NextBlock(q, k);
  }

  lemma PlaceInView(k: nat, N: nat, q: nat, i: nat, j: nat)
    requires j < k && q < N
    ensures 0 <= (i * N + q) * k + j
    ensures Visible(k, N, q, (i * N + q) * k + j)
    ensures VisibleBefore(k, N, q, (i * N + q) * k + j) == i * k + j
  {
    hide VisibleBefore, ShownInTile;
    TileOfPlace(k, N, q, i, j);
    VisibleBeforeClosed(k, N, q, (i * N + q) * k + j);
    MulNonnegative(q, k);
  }

  // -------------------------------------------------- the strided datatype

  datatype Access = WriteAccess | ReadAccess | WriteCheck | ReadCheck

  /** Whether one call may stand for the transfers of all segments. */
  predicate Coalesces(deadline: bool, maxTransferPairs: nat, access: Access, timestampPattern: bool) {
    && !deadline && maxTransferPairs == 0
    && !access.WriteCheck? && !access.ReadCheck?
    && (access.WriteAccess? ==> timestampPattern)
  }

  /**
   The offsets that one call accesses, `transferSize` bytes each: the filetype
   repeats with the extent of a segment, and the memory type has extent 0, so that
   every repetition uses the same buffer. Calls beyond the rank's first block are
   not performed at all when they were coalesced.
   */
  function Accessed(t: Test, p: nat, coalesce: bool, offset: nat): seq<nat>
    requires Checked(t)
  {
    if coalesce && offset >= (FileRank(t, p) + 1) * t.blockSize then []
    else
      seq(if coalesce then t.segmentCount else 1, (s: nat) => Repetition(offset, s, TasksPerFile(t) * t.blockSize))
  }

  /** Where repetition `s` of the filetype lies. */
  function Repetition(offset: nat, s: nat, extent: nat): nat {
    MulNonnegative(s, extent);
    offset + s * extent
  }

  /** The offsets of all calls, one call for each of the first `count` transfers. */
  function AllAccessed(t: Test, p: nat, coalesce: bool, count: nat): seq<nat>
    requires Checked(t) && Offsets(t, Sequential) > 0
  {
    if count == 0 then []
    else AllAccessed(t, p, coalesce, count - 1) + Accessed(t, p, coalesce, Nominal(t, Sequential, p, count - 1))
  }

  lemma NominalAt(t: Test, p: nat, i: nat, j: nat)
    requires Checked(t) && i < t.segmentCount && j < Offsets(t, Sequential)
    ensures 0 <= i * Offsets(t, Sequential) + j < TransfersPerRank(t)
    ensures Nominal(t, Sequential, p, i * Offsets(t, Sequential) + j) == AbsoluteOffset(t, p, i, j)
  {
    DigitsBelow(i, t.segmentCount, j, Offsets(t, Sequential));
    DivModUnique(i * Offsets(t, Sequential) + j, Offsets(t, Sequential), i, j);
    DivModUnique(i, t.segmentCount, 0, i);
  }

  /** Transfers of later segments are those of the first one, moved by whole segments of the file. */
  lemma SegmentsRepeat(t: Test, p: nat, i: nat, j: nat)
    requires Checked(t) && j < Offsets(t, Sequential)
    ensures AbsoluteOffset(t, p, i, j) == AbsoluteOffset(t, p, 0, j) + i * (TasksPerFile(t) * t.blockSize)
    ensures AbsoluteOffset(t, p, i, j) < (FileRank(t, p) + 1) * t.blockSize <==> i == 0
  {
    TransfersPerBlock(t);
    DigitsBelow(j, Offsets(t, Sequential), 0, t.transferSize);
    assert i * t.numTasks * t.blockSize == i * (t.numTasks * t.blockSize);
    assert (FileRank(t, p) + 1) * t.blockSize == FileRank(t, p) * t.blockSize + t.blockSize;
    MulAtLeast(TasksPerFile(t), t.blockSize);
    if i > 0 {
      MulAtLeast(i, TasksPerFile(t) * t.blockSize);
    }
  }

  /**
   A coalesced call for transfer `n` of the first segment performs transfer `n`
   of every segment; all other calls perform nothing.
   */
  lemma CoalescedCall(t: Test, p: nat, i: nat, j: nat)
    requires Checked(t) && i < t.segmentCount && j < Offsets(t, Sequential)
    ensures var k := Offsets(t, Sequential);
            var calls := Accessed(t, p, true, Nominal(t, Sequential, p, i * k + j));
            if i > 0 then calls == []
            else |calls| == t.segmentCount
                 && forall s :: 0 <= s < t.segmentCount ==> calls[s] == Nominal(t, Sequential, p, s * k + j)
  {
    NominalAt(t, p, i, j);
    SegmentsRepeat(t, p, i, j);
    hide Nominal;
    if i == 0 {
      forall s | 0 <= s < t.segmentCount
        ensures Nominal(t, Sequential, p, s * Offsets(t, Sequential) + j)
                == AbsoluteOffset(t, p, 0, j) + s * (TasksPerFile(t) * t.blockSize)
      {
        NominalAt(t, p, s, j);
        SegmentsRepeat(t, p, s, j);
      }
    }
  }

  /** Without coalescing every call performs exactly its own transfer. */
  lemma {:induction false} UncoalescedCalls(t: Test, p: nat, count: nat)
    requires Checked(t) && Offsets(t, Sequential) > 0
    ensures AllAccessed(t, p, false, count) == Prefix(t, Sequential, p, count)
  {
    hide Nominal;
    if count > 0 {
      UncoalescedCalls(t, p, count - 1);
      var n := Nominal(t, Sequential, p, count - 1);
      assert Accessed(t, p, false, n) == [n];
    }
  }

  /** A call adds its accesses: those of transfer `j` in all segments, or none. */
  lemma NextCoalescedCall(t: Test, p: nat, n: nat) returns (calls: seq<nat>)
    requires Checked(t) && Offsets(t, Sequential) > 0 && n < TransfersPerRank(t)
    ensures AllAccessed(t, p, true, n + 1) == AllAccessed(t, p, true, n) + calls
    ensures n >= Offsets(t, Sequential) ==> calls == []
    ensures n < Offsets(t, Sequential) ==>
              |calls| == t.segmentCount
              && forall s :: 0 <= s < t.segmentCount ==>
                   calls[s] == Nominal(t, Sequential, p, s * Offsets(t, Sequential) + n)
  {
    hide Nominal, Accessed;
    var k := Offsets(t, Sequential);
    Digits(n, t.segmentCount, k);
    CoalescedCall(t, p, n / k, n % k);
    calls := Accessed(t, p, true, Nominal(t, Sequential, p, n));
    assert n == n / k * k + n % k && (n / k == 0 ==> n == n % k);
    if n < k {
      DivModUnique(n, k, 0, n);
    }
  }

  lemma {:induction false} CoalescedSize(t: Test, p: nat, count: nat)
    requires Checked(t) && Offsets(t, Sequential) > 0 && count <= TransfersPerRank(t)
    ensures |AllAccessed(t, p, true, count)|
            == (if count < Offsets(t, Sequential) then count else Offsets(t, Sequential)) * t.segmentCount
  {
    hide Nominal, AllAccessed;
    if count == 0 {
      NothingAccessed(t, p);
    } else {
      CoalescedSize(t, p, count - 1);
      var calls := NextCoalescedCall(t, p, count - 1);
      assert (count - 1) * t.segmentCount + t.segmentCount == count * t.segmentCount;
    }
  }

  lemma NothingAccessed(t: Test, p: nat)
    requires Checked(t) && Offsets(t, Sequential) > 0
    ensures AllAccessed(t, p, true, 0) == []
  {
  }

  /** Every transfer whose place in its segment has been called is among the accesses. */
  lemma {:induction false} CoalescedReaches(t: Test, p: nat, count: nat, s: nat, j: nat)
    requires Checked(t) && Offsets(t, Sequential) > 0 && count <= TransfersPerRank(t)
    requires s < t.segmentCount && j < Offsets(t, Sequential) && j < count
    ensures Nominal(t, Sequential, p, s * Offsets(t, Sequential) + j) in AllAccessed(t, p, true, count)
  {
    hide Nominal, AllAccessed;
    var calls := NextCoalescedCall(t, p, count - 1);
    if j < count - 1 {
      CoalescedReaches(t, p, count - 1, s, j);
    } else {
      assert calls[s] in calls;
    }
  }

  /** Nothing else is accessed. */
  lemma {:induction false} CoalescedStays(t: Test, p: nat, count: nat, x: nat)
    requires Checked(t) && Offsets(t, Sequential) > 0 && count <= TransfersPerRank(t)
    requires x in AllAccessed(t, p, true, count)
    ensures x in Prefix(t, Sequential, p, TransfersPerRank(t))
  {
    hide Nominal, AllAccessed;
    NothingAccessed(t, p);
    var calls := NextCoalescedCall(t, p, count - 1);
    if x in AllAccessed(t, p, true, count - 1) {
      CoalescedStays(t, p, count - 1, x);
    } else {
      var s: nat :| s < |calls| && calls[s] == x;
      DigitsBelow(s, t.segmentCount, count - 1, Offsets(t, Sequential));
      assert x == Prefix(t, Sequential, p, TransfersPerRank(t))[s * Offsets(t, Sequential) + (count - 1)];
    }
  }

  /**
   Issuing only the calls of the first segment, each for all segments, accesses
   exactly the ranges that all transfers of the rank access, each of them once.
   */
  lemma CoalescingAccessesTheSame(t: Test, p: nat)
    requires Checked(t) && Offsets(t, Sequential) > 0
    ensures var all := TransfersPerRank(t);
            && |AllAccessed(t, p, true, all)| == |AllAccessed(t, p, false, all)| == all
            && forall x :: x in AllAccessed(t, p, true, all) <==> x in AllAccessed(t, p, false, all)
  {
    hide Nominal, AllAccessed;
    var all, k := TransfersPerRank(t), Offsets(t, Sequential);
    TransfersPerBlock(t);
    MulAtLeast(t.segmentCount, k);
    CoalescedSize(t, p, all);
    UncoalescedCalls(t, p, all);
    assert k * t.segmentCount == t.segmentCount * k;
    forall x | x in AllAccessed(t, p, true, all) ensures x in AllAccessed(t, p, false, all) {
      CoalescedStays(t, p, all, x);
    }
    forall x | x in Prefix(t, Sequential, p, all) ensures x in AllAccessed(t, p, true, all) {
      var n: nat :| n < all && Prefix(t, Sequential, p, all)[n] == x;
      Digits(n, t.segmentCount, k);
      CoalescedReaches(t, p, all, n / k, n % k);
    }
  }

  /** With any access and any options the strided datatype accesses the transfers of the nominal sequence. */
  lemma StridedAccessesNominal(
      t: Test, p: nat, deadline: bool, maxTransferPairs: nat, access: Access, timestampPattern: bool, count: nat)
    requires Checked(t) && Offsets(t, Sequential) > 0 && count <= TransfersPerRank(t)
    requires !deadline && maxTransferPairs == 0 ==> count == TransfersPerRank(t)
    ensures var accessed := AllAccessed(t, p, Coalesces(deadline, maxTransferPairs, access, timestampPattern), count);
            && |accessed| == count
            && forall x :: x in accessed <==> x in Prefix(t, Sequential, p, count)
  {
    UncoalescedCalls(t, p, count);
    CoalescingAccessesTheSame(t, p);
  }

  /** Coalesced calls that stop early access more or less than they should: a deadline must rule them out. */
  lemma CoalescedCountIff(t: Test, p: nat, count: nat)
    requires Checked(t) && Offsets(t, Sequential) > 0 && count <= TransfersPerRank(t)
    ensures |AllAccessed(t, p, true, count)| == count
            <==> count == 0 || count == TransfersPerRank(t) || t.segmentCount == 1
  {
    CoalescedSize(t, p, count);
    CappedTimes(count, Offsets(t, Sequential), t.segmentCount);
  }

  lemma CappedTimes(count: nat, k: nat, s: nat)
    requires k > 0 && s > 0 && count <= s * k
    ensures (if count < k then count else k) * s == count <==> count == 0 || count == s * k || s == 1
  {
    if s > 1 && 0 < count < k {
      MulAtLeast(s - 1, count);
      assert count * s == (s - 1) * count + count;
      MulAtLeast(s, k);
    }
    assert k * s == s * k;
  }

  // ------------------------------------------------------------ the file written

  type File = map<nat, Byte>

  /** The file after the buffer was written at an offset. */
  function Store(f: File, offset: nat, buf: seq<Byte>): (g: File)
    ensures forall b :: b in g <==> b in f || offset <= b < offset + |buf|
    ensures forall b :: b in g ==> g[b] == if offset <= b < offset + |buf| then buf[b - offset] else f[b]
    decreases |buf|
  {
    if buf == [] then f
    else Store(f, offset, buf[..|buf| - 1])[offset + |buf| - 1 := buf[|buf| - 1]]
  }

  /** The file after the buffer was written at one offset after the other. */
  function StoreAll(f: File, offsets: seq<nat>, buf: seq<Byte>): File {
    if offsets == [] then f
    else Store(StoreAll(f, offsets[..|offsets| - 1], buf), offsets[|offsets| - 1], buf)
  }

  lemma {:induction false} StoredAt(f: File, offsets: seq<nat>, buf: seq<Byte>, b: nat)
    requires |buf| > 0 && forall o :: o in offsets ==> o % |buf| == 0
    ensures var g, base := StoreAll(f, offsets, buf), b - b % |buf|;
            if base in offsets then b in g && g[b] == buf[b % |buf|]
            else (b in g <==> b in f) && (b in g ==> g[b] == f[b])
  {
    if offsets != [] {
      var init, last := offsets[..|offsets| - 1], offsets[|offsets| - 1];
      assert last in offsets && forall o :: o in init ==> o in offsets;
      StoredAt(f, init, buf, b);
      SlotOf(last, |buf|, b);
    }
  }

  /** A byte lies in the aligned slot at `o` exactly if rounding it down gives `o`. */
  lemma SlotOf(o: nat, size: nat, b: nat)
    requires size > 0 && o % size == 0
    ensures o <= b < o + size <==> b - b % size == o
    ensures o <= b < o + size ==> b - o == b % size
  {
    if o <= b < o + size {
      assert o == o / size * size;
      DivModUnique(b, size, o / size, b - o);
    }
  }

  /** With the same buffer for every transfer, as the timestamp pattern has it, the files are the same too. */
  lemma CoalescingWritesTheSame(t: Test, p: nat, f: File, buf: seq<Byte>)
    requires Checked(t) && Offsets(t, Sequential) > 0 && p < t.numTasks
    requires |buf| == t.transferSize
    ensures StoreAll(f, AllAccessed(t, p, true, TransfersPerRank(t)), buf)
            == StoreAll(f, AllAccessed(t, p, false, TransfersPerRank(t)), buf)
  {
    hide Nominal, AllAccessed;
    var all := TransfersPerRank(t);
    var a, c := AllAccessed(t, p, true, all), AllAccessed(t, p, false, all);
    CoalescingAccessesTheSame(t, p);
    UncoalescedCalls(t, p, all);
    forall x | x in c ensures x % |buf| == 0 {
      var n: nat :| n < all && Prefix(t, Sequential, p, all)[n] == x;
      NominalIsAligned(t, p, n);
    }
    forall b ensures b in StoreAll(f, a, buf) <==> b in StoreAll(f, c, buf)
      ensures b in StoreAll(f, a, buf) ==> StoreAll(f, a, buf)[b] == StoreAll(f, c, buf)[b]
    {
      StoredAt(f, a, buf, b);
      StoredAt(f, c, buf, b);
    }
  }

  lemma NominalIsAligned(t: Test, p: nat, n: nat)
    requires Checked(t) && Offsets(t, Sequential) > 0 && p < t.numTasks && n < TransfersPerRank(t)
    ensures Nominal(t, Sequential, p, n) % t.transferSize == 0
  {
    TransfersPerBlock(t);
    Digits(n, t.segmentCount, Offsets(t, Sequential));
    NominalAt(t, p, n / Offsets(t, Sequential), n % Offsets(t, Sequential));
    SeekFindsTheTransfer(t, p, n / Offsets(t, Sequential), n % Offsets(t, Sequential));
  }
}
