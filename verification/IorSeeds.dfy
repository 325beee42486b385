/**
 Writing, then reading back what was written: every rank acts as another rank, the
 number of transfers is bounded by what the write phase performed, and random
 offsets are drawn anew from a seed that has to be the writer's.

 `gen(seed)` is the stream of numbers after seeding, and `clocks(r)` the time at
 which rank `r` would seed; both can be anything.
 */
module IorSeeds {
  import opened Arithmetic
  import opened Sequences
  import opened IorTrace
  import opened IorRandomOffsets

  /** The options: random offsets or not, and the seed, -1 if none is given. */
  datatype Options = Options(random: bool, randomSeed: int)

  // ---------------------------------------------------------------- the seeds

  /** What seeding does: the seed it uses and the stored seed it leaves, -1 if none is set. */
  function InitRandomSeed(filePerProc: bool, randomSeed: int, pretendRank: nat, now: nat): (int, int) {
    if filePerProc then
      if randomSeed == -1 then (now, now) else (randomSeed + pretendRank, randomSeed)
    else
      if randomSeed == -1 then (now, now) else (randomSeed, randomSeed)
  }

  /** The time that a rank gets to see: a shared file is seeded by the clock of rank 0. */
  function Now(t: Test, clocks: nat -> nat, r: nat): nat {
    if t.filePerProc then clocks(r) else clocks(0)
  }

  /** The seed of rank `r` when it writes. */
  function WriteSeed(t: Test, o: Options, clocks: nat -> nat, r: nat): int {
    InitRandomSeed(t.filePerProc, o.randomSeed, r, Now(t, clocks, r)).0
  }

  /** The seed of rank `r` when it reads as rank `p`, with what it stored when it wrote. */
  function ReadSeed(t: Test, o: Options, clocks: nat -> nat, r: nat, p: nat): int {
    var stored := InitRandomSeed(t.filePerProc, o.randomSeed, r, Now(t, clocks, r)).1;
    InitRandomSeed(t.filePerProc, stored, p, Now(t, clocks, r)).0
  }

  /** The offsets that a rank uses when acting as `p` after seeding. */
  function ModeOf(t: Test, o: Options, rnd: nat -> nat, p: nat): Mode
    requires Checked(t)
  {
    if o.random then
      var plain := Unmixed(rnd, t, p);
      Random(Mixed(rnd, plain, if t.filePerProc then 0 else Transfers(t), |plain|))
    else Sequential
  }

  function WriteMode(t: Test, o: Options, gen: int -> nat -> nat, clocks: nat -> nat, r: nat): Mode
    requires Checked(t)
  {
    ModeOf(t, o, gen(WriteSeed(t, o, clocks, r)), r)
  }

  function ReadMode(t: Test, o: Options, gen: int -> nat -> nat, clocks: nat -> nat, r: nat, p: nat): Mode
    requires Checked(t)
  {
    ModeOf(t, o, gen(ReadSeed(t, o, clocks, r, p)), p)
  }

  /** The condition on the options under which the reader is sure to compute the writer's offsets. */
  predicate Reproducible(t: Test, o: Options) {
    !o.random || !t.filePerProc || o.randomSeed != -1 || t.numTasks == 1
  }

  lemma SameMode(t: Test, o: Options, gen: int -> nat -> nat, clocks: nat -> nat, r: nat, p: nat)
    requires Checked(t) && Reproducible(t, o) && r < t.numTasks && p < t.numTasks
    ensures ReadMode(t, o, gen, clocks, r, p) == WriteMode(t, o, gen, clocks, p)
  {
    hide Mixed, Unmixed;
  }

  /** Whatever the seed, with a file per process all ranks have the same number of offsets. */
  lemma OwnFileOffsets(t: Test, o: Options, rnd: nat -> nat, p: nat)
    requires Checked(t) && t.filePerProc
    ensures Offsets(t, ModeOf(t, o, rnd, p)) == t.blockSize / t.transferSize > 0
  {
    TransfersPerBlock(t);
  }

  lemma SameOffsetCount(t: Test, o: Options, gen: int -> nat -> nat, clocks: nat -> nat, r: nat, p: nat)
    requires Checked(t) && r < t.numTasks && p < t.numTasks
    ensures Offsets(t, ReadMode(t, o, gen, clocks, r, p)) == Offsets(t, WriteMode(t, o, gen, clocks, p))
  {
    hide ModeOf, WriteSeed, ReadSeed, Offsets;
    if t.filePerProc {
      OwnFileOffsets(t, o, gen(ReadSeed(t, o, clocks, r, p)), p);
      OwnFileOffsets(t, o, gen(WriteSeed(t, o, clocks, p)), p);
    } else {
      SameMode(t, o, gen, clocks, r, p);
    }
  }

  /** With a seed given, ranks with their own files write with different seeds; a shared file has one seed for all. */
  lemma WriteSeedsDiffer(t: Test, o: Options, clocks: nat -> nat, r: nat, q: nat)
    ensures t.filePerProc && o.randomSeed != -1 ==>
              (WriteSeed(t, o, clocks, r) == WriteSeed(t, o, clocks, q) <==> r == q)
    ensures !t.filePerProc ==> WriteSeed(t, o, clocks, r) == WriteSeed(t, o, clocks, q)
    ensures o.randomSeed != -1 ==> WriteSeed(t, o, clocks, 0) == o.randomSeed
  {
  }

  // -------------------------------------------------------------- the program

  /** The offsets of a rank for one phase. */
  method ComputeMode(t: Test, o: Options, rnd: nat -> nat, p: nat) returns (m: Mode)
    requires Checked(t)
    ensures m == ModeOf(t, o, rnd, p)
  {
    if o.random {
      var offsets := GetOffsetArrayRandom(rnd, t, p);
      m := Random(offsets[..]);
    } else {
      m := Sequential;
    }
  }

  /** The offsets of all ranks for the write. */
  method WriteModes(t: Test, o: Options, gen: int -> nat -> nat, clocks: nat -> nat) returns (modes: seq<Mode>)
    requires Checked(t)
    ensures |modes| == t.numTasks && forall r :: 0 <= r < t.numTasks ==> modes[r] == WriteMode(t, o, gen, clocks, r)
  {
    hide ModeOf, InitRandomSeed;
    modes := [];
    for r := 0 to t.numTasks
      invariant |modes| == r && forall q :: 0 <= q < r ==> modes[q] == WriteMode(t, o, gen, clocks, q)
    {
      var m := ComputeMode(t, o, gen(WriteSeed(t, o, clocks, r)), r);
      modes := modes + [m];
    }
  }

  /** The offsets of all ranks for the read; each has as many as the rank that it acts as has written with. */
  method ReadModes(t: Test, o: Options, gen: int -> nat -> nat, clocks: nat -> nat, pretend: seq<nat>)
    returns (modes: seq<Mode>)
    requires Checked(t) && Permutation(pretend, t.numTasks)
    ensures |modes| == t.numTasks
    ensures forall r :: 0 <= r < t.numTasks ==>
              && modes[r] == ReadMode(t, o, gen, clocks, r, pretend[r])
              && Offsets(t, modes[r]) == Offsets(t, WriteMode(t, o, gen, clocks, pretend[r]))
  {
    hide ModeOf, InitRandomSeed, Offsets;
    modes := [];
    for r := 0 to t.numTasks
      invariant |modes| == r
      invariant forall q :: 0 <= q < r ==>
                  && modes[q] == ReadMode(t, o, gen, clocks, q, pretend[q])
                  && Offsets(t, modes[q]) == Offsets(t, WriteMode(t, o, gen, clocks, pretend[q]))
    {
      var m := ComputeMode(t, o, gen(ReadSeed(t, o, clocks, r, pretend[r])), pretend[r]);
      SameOffsetCount(t, o, gen, clocks, r, pretend[r]);
      modes := modes + [m];
    }
  }

  /** Bounded by the common count of the write, the longest read is exactly as long. */
  lemma ReadReachesLimit(
      t: Test, written: seq<Mode>, read: seq<Mode>, pretend: seq<nat>,
      lateW: nat -> nat -> bool, lateR: nat -> nat -> bool, reachedW: seq<nat>, reachedR: seq<nat>)
    requires Checked(t) && |written| == |read| == |reachedW| == |reachedR| > 0
    requires Permutation(pretend, |written|)
    requires forall r :: 0 <= r < |read| ==> Offsets(t, read[r]) == Offsets(t, written[pretend[r]])
    requires forall r :: 0 <= r < |written| ==> LoopCount(t, written[r], true, lateW(r), 0, reachedW[r])
    requires forall r :: 0 <= r < |read| ==> reachedR[r] <= Max(reachedW)
    requires Max(reachedW) > 0
    requires forall r :: 0 <= r < |read| ==> LoopCount(t, read[r], false, lateR(r), Max(reachedW), reachedR[r])
    ensures Max(reachedR) == Max(reachedW)
  {
    MaxIsMax(reachedW);
    MaxIsMax(reachedR);
    var top :| 0 <= top < |written| && reachedW[top] == Max(reachedW);
    var reader := PlaceInPermutation(pretend, |written|, top);
    CountWithoutDeadline(t, read[reader], lateR(reader), Max(reachedW), reachedR[reader]);
    assert reachedR[reader] == Max(reachedW);
  }

  /**
   A stonewalled write with wear-out followed by a read or a check. The write
   stores the common number of transfers, the largest at which a rank was `stopped`.
   That bounds the read of every rank even if the read is stonewalled itself. Each
   phase computes its offsets from the seed it finds. With reproducible offsets each
   rank then reads, in order, only transfers that the rank it acts as has written;
   without a deadline it reads all of them, whatever number of transfers each rank
   has in a segment.
   */
  method WriteThenRead(
      t: Test, o: Options, gen: int -> nat -> nat, clocks: nat -> nat, pretend: seq<nat>,
      lateW: nat -> nat -> bool, readDeadline: bool, lateR: nat -> nat -> bool)
    returns (written: seq<seq<nat>>, read: seq<seq<nat>>, ghost stopped: seq<nat>)
    requires Checked(t) && Permutation(pretend, t.numTasks)
    requires forall r :: 0 <= r < t.numTasks ==> Offsets(t, WriteMode(t, o, gen, clocks, r)) > 0
    ensures |written| == |read| == t.numTasks
    ensures |stopped| == t.numTasks && |written[0]| == Max(stopped)
    ensures forall r :: 0 <= r < t.numTasks ==>
              LoopCount(t, WriteMode(t, o, gen, clocks, r), true, lateW(r), 0, stopped[r])
    ensures forall r :: 0 <= r < t.numTasks ==>
              && |written[r]| == |written[0]| >= 1
              && written[r] == Prefix(t, WriteMode(t, o, gen, clocks, r), r, |written[r]|)
    ensures forall r :: 0 <= r < t.numTasks ==>
              && 1 <= |read[r]| == |read[0]| <= |written[0]|
              && Offsets(t, ReadMode(t, o, gen, clocks, r, pretend[r])) > 0
              && read[r] == Prefix(t, ReadMode(t, o, gen, clocks, r, pretend[r]), pretend[r], |read[r]|)
    ensures !readDeadline ==> |read[0]| == |written[0]|
    ensures Reproducible(t, o) ==> forall r :: 0 <= r < t.numTasks ==> read[r] <= written[pretend[r]]
  {
    hide LoopCount, Offsets, Prefix, WriteMode, ReadMode, Reproducible;
    var modesW := WriteModes(t, o, gen, clocks);
    var movedW, reachedW, movedR, reachedR;
    written, movedW, reachedW := AccessPhase(t, Plan(Upto(t.numTasks), modesW), true, lateW, true, 0);
    stopped := reachedW;
    MaxIsMax(reachedW);
    var limit := |written[0]|;
    var modesR := ReadModes(t, o, gen, clocks, pretend);
    read, movedR, reachedR := AccessPhase(t, Plan(pretend, modesR), readDeadline, lateR, true, limit);
    MaxIsMax(reachedR);
    if !readDeadline {
      ReadReachesLimit(t, modesW, modesR, pretend, lateW, lateR, reachedW, reachedR);
    }
    if Reproducible(t, o) {
      forall r | 0 <= r < t.numTasks ensures read[r] <= written[pretend[r]] {
        SameMode(t, o, gen, clocks, r, pretend[r]);
        PrefixOfPrefix(t, modesR[r], pretend[r], Max(reachedR), limit);
      }
    }
  }

  lemma PrefixOfPrefix(t: Test, m: Mode, p: nat, a: nat, b: nat)
    requires Checked(t) && Offsets(t, m) > 0 && a <= b
    ensures Prefix(t, m, p, a) <= Prefix(t, m, p, b)
  {
  }

  // ------------------------------------------------------ the exact condition

  /** Every rank has a transfer, some rank can have been stopped after `m` of them, and `n` are read. */
  ghost predicate Possible(t: Test, o: Options, gen: int -> nat -> nat, clocks: nat -> nat, m: nat, n: nat)
    requires Checked(t)
  {
    && 1 <= n <= m
    && (forall r :: 0 <= r < t.numTasks ==> Offsets(t, WriteMode(t, o, gen, clocks, r)) > 0)
    && exists r :: 0 <= r < t.numTasks && m <= t.segmentCount * Offsets(t, WriteMode(t, o, gen, clocks, r))
  }

  /** The first `n` transfers that rank `r` reads as `p` are among the first `m` that `p` wrote. */
  ghost predicate ReadsWithin(
      t: Test, o: Options, gen: int -> nat -> nat, clocks: nat -> nat, r: nat, p: nat, m: nat, n: nat)
    requires Checked(t) && Offsets(t, WriteMode(t, o, gen, clocks, p)) > 0
    requires Offsets(t, ReadMode(t, o, gen, clocks, r, p)) > 0
  {
    forall x :: x in Prefix(t, ReadMode(t, o, gen, clocks, r, p), p, n) ==>
      x in Prefix(t, WriteMode(t, o, gen, clocks, p), p, m)
  }

  /** Whatever the generator, the clocks and the moment of the stonewall. */
  ghost predicate AlwaysWithin(t: Test, o: Options, pretend: seq<nat>)
    requires Checked(t) && Permutation(pretend, t.numTasks)
  {
    forall gen: int -> nat -> nat, clocks: nat -> nat, m: nat, n: nat, r: nat ::
      Possible(t, o, gen, clocks, m, n) && r < t.numTasks ==>
        && Offsets(t, ReadMode(t, o, gen, clocks, r, pretend[r])) > 0
        && ReadsWithin(t, o, gen, clocks, r, pretend[r], m, n)
  }

  function SameNumber(i: nat): nat {
    i
  }

  /** If every step exchanges an element with itself, nothing is exchanged. */
  lemma {:induction false} MixedInOrder(s: seq<nat>, n: nat)
    requires n <= |s|
    ensures Mixed(SameNumber, s, 0, n) == s
  {
    hide Swap, Pick;
    MixedStep(SameNumber, s, n);
    if n > 0 {
      MixedInOrder(s, n - 1);
      PickBelow(SameNumber, n - 1, |s|);
      SwapNothing(s, n - 1);
    }
  }

  function FirstIsOne(i: nat): nat {
    if i == 0 then 1 else i
  }

  /** If only the first step swaps anything, it is that swap that remains. */
  lemma {:induction false} MixedFirst(s: seq<nat>, n: nat)
    requires 1 <= n <= |s| && |s| >= 2
    ensures Mixed(FirstIsOne, s, 0, n) == Swap(s, 1, 0)
  {
    hide Swap, Pick;
    MixedStep(FirstIsOne, s, n);
    PickBelow(FirstIsOne, n - 1, |s|);
    if n > 1 {
      MixedFirst(s, n - 1);
      SwapNothing(Swap(s, 1, 0), n - 1);
    } else {
      MixedStep(FirstIsOne, s, 0);
    }
  }

  lemma MixedStep(rnd: nat -> nat, s: seq<nat>, n: nat)
    requires n <= |s|
    ensures n == 0 ==> Mixed(rnd, s, 0, n) == s
    ensures n > 0 ==> Mixed(rnd, s, 0, n) == Swap(Mixed(rnd, s, 0, n - 1), Pick(rnd, n - 1, |s|), n - 1)
  {
    hide Swap, Pick;
  }

  lemma PickBelow(rnd: nat -> nat, n: nat, size: nat)
    requires rnd(n) < size
    ensures Pick(rnd, n, size) == rnd(n)
  {
    DivModUnique(rnd(n), size, 0, rnd(n));
  }

  /** One generator that leaves the offsets in order for the seed 0, and exchanges the first two for all others. */
  function TwoOrders(seed: int): nat -> nat {
    if seed == 0 then SameNumber else FirstIsOne
  }

  function Midnight(r: nat): nat {
    0
  }

  /** With that generator and all clocks at 0, rank 1 writes in order, and its reader exchanges the first two. */
  lemma TwoModes(t: Test, o: Options, r: nat) returns (plain: seq<nat>)
    requires Checked(t) && !Reproducible(t, o) && t.blockSize > t.transferSize
    ensures |plain| >= 2 && plain[0] == 0 && plain[1] == t.transferSize
    ensures WriteMode(t, o, TwoOrders, Midnight, 1) == Random(plain)
    ensures ReadMode(t, o, TwoOrders, Midnight, r, 1) == Random(Swap(plain, 1, 0))
  {
    hide Mixed, Swap, Transfers;
    plain := Unmixed(TwoOrders(0), t, 1);
    InOrder(t, plain);
    assert plain == Unmixed(TwoOrders(1), t, 1);
    MixedInOrder(plain, |plain|);
    MixedFirst(plain, |plain|);
  }

  lemma InOrder(t: Test, plain: seq<nat>)
    requires Checked(t) && t.filePerProc && t.blockSize > t.transferSize
    requires plain == Unmixed(TwoOrders(0), t, 1)
    ensures |plain| >= 2 && plain[0] == 0 && plain[1] == t.transferSize
  {
    TransfersPerBlock(t);
    assert t.blockSize / t.transferSize != 1;
  }

  /** Then the reader's first transfer is not the one that was written. */
  lemma ReadsElsewhere(t: Test, o: Options, r: nat)
    requires Checked(t) && !Reproducible(t, o) && t.blockSize > t.transferSize && r < t.numTasks
    ensures Possible(t, o, TwoOrders, Midnight, 1, 1)
    ensures Offsets(t, ReadMode(t, o, TwoOrders, Midnight, r, 1)) > 0
    ensures !ReadsWithin(t, o, TwoOrders, Midnight, r, 1, 1, 1)
  {
    hide *;
    OnlyOwnFiles(t, o);
    AllHaveOffsets(t, o);
    var plain := TwoModes(t, o, r);
    FirstTransfer(t, plain);
    FirstTransfer(t, Swap(plain, 1, 0));
    SwapFirst(plain);
    NotWithin(t, o, TwoOrders, Midnight, r, 1, 1, 1, t.transferSize);
  }

  lemma OnlyOwnFiles(t: Test, o: Options)
    requires Checked(t) && !Reproducible(t, o)
    ensures t.filePerProc && t.transferSize > 0 && t.numTasks > 1
  {
  }

  lemma SwapFirst(s: seq<nat>)
    requires |s| >= 2
    ensures |Swap(s, 1, 0)| == |s| && Swap(s, 1, 0)[0] == s[1]
  {
  }

  lemma NotWithin(
      t: Test, o: Options, gen: int -> nat -> nat, clocks: nat -> nat, r: nat, p: nat, m: nat, n: nat, x: nat)
    requires Checked(t) && Offsets(t, WriteMode(t, o, gen, clocks, p)) > 0
    requires Offsets(t, ReadMode(t, o, gen, clocks, r, p)) > 0
    requires x in Prefix(t, ReadMode(t, o, gen, clocks, r, p), p, n)
    requires x !in Prefix(t, WriteMode(t, o, gen, clocks, p), p, m)
    ensures !ReadsWithin(t, o, gen, clocks, r, p, m, n)
  {
    hide ReadMode, WriteMode, Prefix, Offsets;
  }

  lemma AllHaveOffsets(t: Test, o: Options)
    requires Checked(t) && t.filePerProc
    ensures forall r :: 0 <= r < t.numTasks ==> Offsets(t, WriteMode(t, o, TwoOrders, Midnight, r)) > 0
    ensures Possible(t, o, TwoOrders, Midnight, 1, 1)
  {
    hide ModeOf, WriteSeed, Offsets;
    forall r: nat | r < t.numTasks ensures Offsets(t, WriteMode(t, o, TwoOrders, Midnight, r)) > 0 {
      OwnFileOffsets(t, o, TwoOrders(WriteSeed(t, o, Midnight, r)), r);
    }
    MulAtLeast(t.segmentCount, Offsets(t, WriteMode(t, o, TwoOrders, Midnight, 0)));
  }

  lemma FirstTransfer(t: Test, offsets: seq<nat>)
    requires Checked(t) && t.filePerProc && |offsets| > 0
    ensures Offsets(t, Random(offsets)) == |offsets|
    ensures Prefix(t, Random(offsets), 1, 1) == [offsets[0]]
  {
    assert 0 / |offsets| == 0 && 0 % |offsets| == 0;
    assert 0 % t.segmentCount == 0;
    assert Nominal(t, Random(offsets), 1, 0) == offsets[0];
  }

  /**
   The exact condition for reading only what was written, in terms of the options:
   the offsets are not random, the file is shared, a seed was given, or there is only
   one rank. Random offsets need a block of several transfers; the option check
   refuses others. In all other cases it fails for every assignment of readers to
   writers, also if each rank reads its own file.
   */
  lemma AlwaysWithinIff(t: Test, o: Options, pretend: seq<nat>)
    requires Checked(t) && Permutation(pretend, t.numTasks)
    requires o.random ==> t.blockSize > t.transferSize
    ensures AlwaysWithin(t, o, pretend)
            <==> !o.random || !t.filePerProc || o.randomSeed != -1 || t.numTasks == 1
  {
    hide ReadMode, WriteMode, Offsets, Prefix;
    if Reproducible(t, o) {
      forall gen: int -> nat -> nat, clocks: nat -> nat, m: nat, n: nat, r: nat
        | Possible(t, o, gen, clocks, m, n) && r < t.numTasks
        ensures Offsets(t, ReadMode(t, o, gen, clocks, r, pretend[r])) > 0
        ensures ReadsWithin(t, o, gen, clocks, r, pretend[r], m, n)
      {
        SameMode(t, o, gen, clocks, r, pretend[r]);
        PrefixOfPrefix(t, WriteMode(t, o, gen, clocks, pretend[r]), pretend[r], n, m);
      }
    } else {
      var r := PlaceInPermutation(pretend, t.numTasks, 1);
      ReadsElsewhere(t, o, r);
    }
  }
}
