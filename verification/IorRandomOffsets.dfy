/**
 The precomputed offsets of IOR's random access: for a shared file all ranks draw
 the same random numbers and deal the transfers of a segment out among them.

 `rnd(n)` is the n-th number drawn after seeding; any sequence is possible.
 */
module IorRandomOffsets {
  import opened Arithmetic
  import opened Sequences
  import opened IorTrace

  function OffsetAt(t: Test, u: nat): nat {
    u * t.transferSize
  }

  /** The offsets among the first `count` transfers of a segment that fall to rank `p`. */
  function Dealt(rnd: nat -> nat, t: Test, p: nat, count: nat): seq<nat>
    requires Checked(t)
  {
    if count == 0 then []
    else Dealt(rnd, t, p, count - 1)
         + if rnd(count - 1) % t.numTasks == p then [OffsetAt(t, count - 1)] else []
  }

  /** How many transfers a segment of the file has. */
  function Transfers(t: Test): nat
    requires Checked(t)
  {
    TransfersPerBlock(t);
    assert t.blockSize / t.transferSize * t.numTasks >= 0;
    if t.filePerProc then t.blockSize / t.transferSize else t.blockSize / t.transferSize * t.numTasks
  }

  /** The offsets of a rank in its first segment, before they are mixed. */
  function Unmixed(rnd: nat -> nat, t: Test, p: nat): seq<nat>
    requires Checked(t)
  {
    if t.filePerProc then seq(Transfers(t), i requires 0 <= i => i * t.transferSize)
    else Dealt(rnd, t, p, Transfers(t))
  }

  lemma LoopEnds(t: Test, n: nat, count: nat)
    requires Checked(t) && count * t.transferSize == n * t.transferSize
    ensures count == n
  {
    assert (count - n) * t.transferSize == 0;
    if count > n { MulAtLeast(count - n, t.transferSize); }
    if count < n {
      MulAtLeast(n - count, t.transferSize);
    }
  }

  lemma SegmentSize(t: Test)
    requires Checked(t) && !t.filePerProc
    ensures t.blockSize * t.numTasks == Transfers(t) * t.transferSize
  {
    TransfersPerBlock(t);
    var k := t.blockSize / t.transferSize;
    assert k * t.transferSize * t.numTasks == k * t.numTasks * t.transferSize;
  }

  lemma BelowLimit(n: nat, limit: nat, T: nat)
    requires T > 0
    ensures n * T < limit * T <==> n < limit
    ensures (n + 1) * T == n * T + T
  {
    if n < limit {
      MulAtLeast(limit - n, T);
      assert (limit - n) * T == limit * T - n * T;
    } else {
      MulNonnegative(n - limit, T);
      assert (n - limit) * T == n * T - limit * T;
    }
  }

  lemma {:induction false} DealtGrows(rnd: nat -> nat, t: Test, p: nat, a: nat, b: nat)
    requires Checked(t) && a <= b
    ensures |Dealt(rnd, t, p, a)| <= |Dealt(rnd, t, p, b)|
  {
    if a < b {
      DealtGrows(rnd, t, p, a, b - 1);
    }
  }

  /** First pass: count the transfers that fall to this rank. */
  method CountOffsets(rnd: nat -> nat, t: Test, p: nat) returns (offsets: nat)
    requires Checked(t) && !t.filePerProc
    ensures offsets == |Unmixed(rnd, t, p)|
  {
    offsets := 0;
    SegmentSize(t);
    var i, drawn := 0, 0;
    while i < t.blockSize * t.numTasks
      invariant i == drawn * t.transferSize && drawn <= Transfers(t)
      invariant offsets == |Dealt(rnd, t, p, drawn)|
      decreases Transfers(t) - drawn
    {
      BelowLimit(drawn, Transfers(t), t.transferSize);
      if rnd(drawn) % t.numTasks == p {
        offsets := offsets + 1;
      }
      drawn := drawn + 1;
      i := i + t.transferSize;
    }
    BelowLimit(drawn, Transfers(t), t.transferSize);
  }

  /** Second pass with the same numbers: it stores exactly as many offsets as were counted. */
  method FillOffsets(rnd: nat -> nat, t: Test, p: nat, a: array<nat>)
    requires Checked(t) && !t.filePerProc && a.Length == |Unmixed(rnd, t, p)|
    modifies a
    ensures a[..] == Unmixed(rnd, t, p)
  {
    SegmentSize(t);
    var i, drawn, offsetCnt := 0, 0, 0;
    while i < t.blockSize * t.numTasks
      invariant i == drawn * t.transferSize && drawn <= Transfers(t)
      invariant offsetCnt <= a.Length && a[..offsetCnt] == Dealt(rnd, t, p, drawn)
      decreases Transfers(t) - drawn
    {
      BelowLimit(drawn, Transfers(t), t.transferSize);
      DealtGrows(rnd, t, p, drawn + 1, Transfers(t));
      if rnd(drawn) % t.numTasks == p {
        a[offsetCnt] := i;
        offsetCnt := offsetCnt + 1;
      }
      drawn := drawn + 1;
      i := i + t.transferSize;
    }
    BelowLimit(drawn, Transfers(t), t.transferSize);
  }

  /** The `n`-th number, reduced to an index below `size`. */
  function Pick(rnd: nat -> nat, n: nat, size: nat): (i: nat)
    requires size > 0
    ensures i < size
  {
    rnd(n) % size
  }

  /** The array after the first `n` steps of mixing, the first of which uses number `drawn`. */
  function Mixed(rnd: nat -> nat, s: seq<nat>, drawn: nat, n: nat): (r: seq<nat>)
    requires n <= |s|
    ensures |r| == |s| && multiset(r) == multiset(s)
  {
    if n == 0 then s
    else
      hide Pick, Swap;
      Swap(Mixed(rnd, s, drawn, n - 1), Pick(rnd, drawn + (n - 1), |s|), n - 1)
  }

  function MixTarget(rnd: nat -> nat, size: nat, drawn: nat, i: nat): (j: nat)
    requires i < size
    ensures j < size
  {
    Pick(rnd, drawn + i, size)
  }

  function MixTargets(rnd: nat -> nat, size: nat, drawn: nat, n: nat): (targets: seq<nat>)
    requires n <= size
    ensures |targets| == n && forall i :: 0 <= i < n ==> targets[i] == MixTarget(rnd, size, drawn, i)
  {
    seq<nat>(n, (i: nat) requires i < n => MixTarget(rnd, size, drawn, i))
  }

  lemma {:induction false} MixedBySwaps(rnd: nat -> nat, s: seq<nat>, drawn: nat, n: nat)
    requires n <= |s|
    ensures Mixed(rnd, s, drawn, n) == Swaps(true, s, MixTargets(rnd, |s|, drawn, n))
  {
    hide Pick, Swap;
    if n > 0 {
      MixedBySwaps(rnd, s, drawn, n - 1);
      assert MixTargets(rnd, |s|, drawn, n)[..n - 1] == MixTargets(rnd, |s|, drawn, n - 1);
    }
  }

  /** Every order of the offsets can come out of the mixing. */
  lemma EveryOrderIsMixed(s: seq<nat>, p: seq<nat>, drawn: nat) returns (rnd: nat -> nat)
    requires NoDuplicates(p) && multiset(p) == multiset(s) && |p| == |s|
    ensures Mixed(rnd, s, drawn, |s|) == p
  {
    hide Swaps, Mixed;
    var targets := EveryOrderIsReached(true, s, p);
    rnd := (i: nat) => if drawn <= i < drawn + |targets| then targets[i - drawn] else 0;
    forall i | 0 <= i < |s| ensures MixTargets(rnd, |s|, drawn, |s|)[i] == targets[i] {
      DivModUnique(targets[i], |s|, 0, targets[i]);
    }
    assert MixTargets(rnd, |s|, drawn, |s|) == targets;
    MixedBySwaps(rnd, s, drawn, |s|);
  }

  /** Mixes the array in place; `drawn` numbers were used before. */
  method Mix(rnd: nat -> nat, a: array<nat>, drawn: nat)
    modifies a
    ensures a[..] == Mixed(rnd, old(a[..]), drawn, a.Length)
  {
    hide Pick, Swap;
    for i := 0 to a.Length
      invariant a[..] == Mixed(rnd, old(a[..]), drawn, i)
    {
      var value := Pick(rnd, drawn + i, a.Length);
      SwapAt(a, value, i);
    }
  }

  /** The offsets of rank `p` in the first segment, in random order. */
  method GetOffsetArrayRandom(rnd: nat -> nat, t: Test, p: nat) returns (a: array<nat>)
    requires Checked(t)
    ensures fresh(a)
    ensures a[..] == Mixed(rnd, Unmixed(rnd, t, p), if t.filePerProc then 0 else Transfers(t), |Unmixed(rnd, t, p)|)
    ensures multiset(a[..]) == multiset(Unmixed(rnd, t, p))
  {
    if t.filePerProc {
      a := new nat[Transfers(t)](i requires 0 <= i => i * t.transferSize);
      assert a[..] == Unmixed(rnd, t, p);
      Mix(rnd, a, 0);
    } else {
      var offsets := CountOffsets(rnd, t, p);
      a := new nat[offsets];
      FillOffsets(rnd, t, p, a);
      Mix(rnd, a, Transfers(t));
    }
  }

  // ---------------------------------------------------------------- coverage

  /** Transfer `u` is dealt to the one rank that the `u`-th number names, and to it once. */
  lemma {:induction false} DealtToOne(rnd: nat -> nat, t: Test, p: nat, count: nat, u: nat)
    requires Checked(t)
    ensures multiset(Dealt(rnd, t, p, count))[OffsetAt(t, u)]
            == if u < count && rnd(u) % t.numTasks == p then 1 else 0
  {
    hide *;
    DealtStep(rnd, t, p, count);
    if count > 0 {
      DealtToOne(rnd, t, p, count - 1, u);
      OffsetsDiffer(t, u, count - 1);
      var was := Dealt(rnd, t, p, count - 1);
      assert multiset(was + [OffsetAt(t, count - 1)]) == multiset(was) + multiset{OffsetAt(t, count - 1)};
    }
  }

  lemma DealtStep(rnd: nat -> nat, t: Test, p: nat, count: nat)
    requires Checked(t)
    ensures t.numTasks > 0
    ensures count == 0 ==> Dealt(rnd, t, p, count) == []
    ensures count > 0 && rnd(count - 1) % t.numTasks == p ==>
              Dealt(rnd, t, p, count) == Dealt(rnd, t, p, count - 1) + [OffsetAt(t, count - 1)]
    ensures count > 0 && rnd(count - 1) % t.numTasks != p ==> Dealt(rnd, t, p, count) == Dealt(rnd, t, p, count - 1)
  {
    hide OffsetAt;
  }

  lemma OffsetsDiffer(t: Test, u: nat, v: nat)
    requires Checked(t)
    ensures OffsetAt(t, u) == OffsetAt(t, v) <==> u == v
  {
    if OffsetAt(t, u) == OffsetAt(t, v) {
      LoopEnds(t, u, v);
    }
  }

  /** Nothing but transfer offsets is dealt. */
  lemma {:induction false} DealtAreTransfers(rnd: nat -> nat, t: Test, p: nat, count: nat, x: nat)
    requires Checked(t) && x in Dealt(rnd, t, p, count)
    ensures x % t.transferSize == 0 && x / t.transferSize < count && x == x / t.transferSize * t.transferSize
  {
    if x in Dealt(rnd, t, p, count - 1) {
      DealtAreTransfers(rnd, t, p, count - 1, x);
    } else {
      DivModUnique(x, t.transferSize, count - 1, 0);
    }
  }

  /** The mixed arrays of all ranks. */
  ghost predicate MixedArrays(rnd: nat -> nat, t: Test, arrays: seq<seq<nat>>)
    requires Checked(t)
  {
    |arrays| == t.numTasks
    && forall p :: 0 <= p < t.numTasks ==> multiset(arrays[p]) == multiset(Unmixed(rnd, t, p))
  }

  /**
   The arrays of all ranks partition the transfers of a segment: every transfer
   has exactly one place in exactly one array.
   */
  lemma ArraysPartitionSegment(rnd: nat -> nat, t: Test, arrays: seq<seq<nat>>, u: nat)
    requires Checked(t) && !t.filePerProc && MixedArrays(rnd, t, arrays) && u < Transfers(t)
    ensures exists p, j :: 0 <= p < t.numTasks && 0 <= j < |arrays[p]| && arrays[p][j] == u * t.transferSize
    ensures forall p, j, p', j' ::
              0 <= p < t.numTasks && 0 <= j < |arrays[p]| && arrays[p][j] == u * t.transferSize
              && 0 <= p' < t.numTasks && 0 <= j' < |arrays[p']| && arrays[p'][j'] == u * t.transferSize
              ==> p == p' && j == j'
  {
    var x, owner := u * t.transferSize, rnd(u) % t.numTasks;
    DealtToOne(rnd, t, owner, Transfers(t), u);
    assert x in multiset(arrays[owner]);
    var at :| 0 <= at < |arrays[owner]| && arrays[owner][at] == x;
    forall p, j | 0 <= p < t.numTasks && 0 <= j < |arrays[p]| && arrays[p][j] == x
      ensures p == owner && j == at
    {
      DealtToOne(rnd, t, p, Transfers(t), u);
      assert x in multiset(arrays[p]);
      if j < at { TwoPlaces(arrays[p], j, at); }
      if j > at { TwoPlaces(arrays[p], at, j); }
    }
  }

  lemma PlaceOf(rnd: nat -> nat, t: Test, arrays: seq<seq<nat>>, u: nat) returns (p: nat, j: nat)
    requires Checked(t) && !t.filePerProc && MixedArrays(rnd, t, arrays) && u < Transfers(t)
    ensures p < t.numTasks == |arrays| && j < |arrays[p]| && arrays[p][j] == u * t.transferSize
  {
    hide Transfers;
    ArraysPartitionSegment(rnd, t, arrays, u);
    p, j :| p < t.numTasks && j < |arrays[p]| && arrays[p][j] == u * t.transferSize;
  }

  lemma NominalOfRandom(t: Test, offsets: seq<nat>, p: nat, i: nat, j: nat)
    requires Checked(t) && !t.filePerProc && i < t.segmentCount && j < |offsets|
    ensures Offsets(t, Random(offsets)) == |offsets|
    ensures 0 <= i * |offsets| + j < t.segmentCount * |offsets|
    ensures Nominal(t, Random(offsets), p, i * |offsets| + j) == offsets[j] + i * (Transfers(t) * t.transferSize)
  {
    hide Transfers;
    DigitsBelow(i, t.segmentCount, j, |offsets|);
    DivModUnique(i * |offsets| + j, |offsets|, i, j);
    DivModUnique(i, t.segmentCount, 0, i);
    SegmentSize(t);
    assert i * t.numTasks * t.blockSize == i * (t.blockSize * t.numTasks);
  }

  lemma FileSize(t: Test)
    requires Checked(t) && !t.filePerProc
    ensures Transfers(t) > 0 && t.transferSize > 0
    ensures t.segmentCount * Transfers(t) * t.transferSize == t.blockSize * t.segmentCount * t.numTasks
  {
    TransfersPerBlock(t);
    SegmentSize(t);
    assert Transfers(t) > 0;
    hide Transfers;
    assert t.segmentCount * Transfers(t) * t.transferSize == t.segmentCount * (t.blockSize * t.numTasks);
    assert t.segmentCount * (t.blockSize * t.numTasks) == t.blockSize * t.segmentCount * t.numTasks;
  }

  lemma MixedHoldsTransfers(rnd: nat -> nat, t: Test, arrays: seq<seq<nat>>, p: nat, j: nat) returns (u: nat)
    requires Checked(t) && !t.filePerProc && MixedArrays(rnd, t, arrays) && p < t.numTasks && j < |arrays[p]|
    ensures u < Transfers(t) && arrays[p][j] == u * t.transferSize
  {
    var x := arrays[p][j];
    assert x in multiset(arrays[p]) && multiset(arrays[p]) == multiset(Unmixed(rnd, t, p));
    DealtAreTransfers(rnd, t, p, Transfers(t), x);
    u := x / t.transferSize;
  }

  /** Where transfer `n` of a rank with random offsets lies: its segment, and its transfer within the segment. */
  lemma RandomAddress(rnd: nat -> nat, t: Test, arrays: seq<seq<nat>>, p: nat, n: nat, b: nat) returns (i: nat, j: nat)
    requires Checked(t) && !t.filePerProc && MixedArrays(rnd, t, arrays)
    requires p < t.numTasks && |arrays[p]| > 0 && n < t.segmentCount * |arrays[p]|
    requires Covers(t, Random(arrays[p]), p, n, b)
    ensures Transfers(t) > 0 && j < |arrays[p]| && n == i * |arrays[p]| + j
    ensures b / t.transferSize / Transfers(t) == i
    ensures 0 <= b / t.transferSize % Transfers(t) < Transfers(t)
    ensures b / t.transferSize % Transfers(t) * t.transferSize == arrays[p][j]
    ensures b < t.blockSize * t.segmentCount * t.numTasks
  {
    Digits(n, t.segmentCount, |arrays[p]|);
    i, j := n / |arrays[p]|, n % |arrays[p]|;
    var u := MixedHoldsTransfers(rnd, t, arrays, p, j);
    NominalOfRandom(t, arrays[p], p, i, j);
    hide Nominal, Transfers, MixedArrays;
    var y := b - Nominal(t, Random(arrays[p]), p, n);
    FileSize(t);
    ThreeDigits(i, t.segmentCount, u, Transfers(t), y, t.transferSize);
  }

  /** Over all segments no byte of the shared file is transferred twice, by one rank or by two. */
  lemma RandomCoveredOnce(
    rnd: nat -> nat, t: Test, arrays: seq<seq<nat>>, p: nat, n: nat, p': nat, n': nat, b: nat)
    requires Checked(t) && !t.filePerProc && MixedArrays(rnd, t, arrays)
    requires p < t.numTasks && |arrays[p]| > 0 && n < t.segmentCount * |arrays[p]|
    requires p' < t.numTasks && |arrays[p']| > 0 && n' < t.segmentCount * |arrays[p']|
    requires Covers(t, Random(arrays[p]), p, n, b) && Covers(t, Random(arrays[p']), p', n', b)
    ensures p == p' && n == n'
    ensures b < t.blockSize * t.segmentCount * t.numTasks
  {
    hide Covers, Transfers;
    var i, j := RandomAddress(rnd, t, arrays, p, n, b);
    var i', j' := RandomAddress(rnd, t, arrays, p', n', b);
    ArraysPartitionSegment(rnd, t, arrays, b / t.transferSize % Transfers(t));
  }

  /** Over all segments every byte of the shared file is transferred by some rank. */
  lemma RandomCoversEverything(rnd: nat -> nat, t: Test, arrays: seq<seq<nat>>, b: nat) returns (p: nat, n: nat)
    requires Checked(t) && !t.filePerProc && MixedArrays(rnd, t, arrays)
    requires b < t.blockSize * t.segmentCount * t.numTasks
    ensures p < t.numTasks && |arrays[p]| > 0 && n < t.segmentCount * |arrays[p]|
    ensures Covers(t, Random(arrays[p]), p, n, b)
  {
    hide *;
    FileSize(t);
    ThreeDigitsOf(b, t.segmentCount, Transfers(t), t.transferSize);
    var i, u := b / t.transferSize / Transfers(t), b / t.transferSize % Transfers(t);
    var j: nat;
    p, j := PlaceOf(rnd, t, arrays, u);
    NominalOfRandom(t, arrays[p], p, i, j);
    n := i * |arrays[p]| + j;
    CoversAt(t, Random(arrays[p]), p, n, b, u * t.transferSize + i * (Transfers(t) * t.transferSize));
  }

  lemma CoversAt(t: Test, m: Mode, p: nat, n: nat, b: nat, start: int)
    requires Checked(t) && Offsets(t, m) > 0
    requires Nominal(t, m, p, n) == start && start <= b < start + t.transferSize
    ensures Covers(t, m, p, n, b)
  {
    hide Nominal, Offsets;
  }

  /** A rank ends up without any transfer if and only if no number names it. */
  lemma {:induction false} NothingDealtIff(rnd: nat -> nat, t: Test, p: nat, count: nat)
    requires Checked(t)
    ensures Dealt(rnd, t, p, count) == [] <==> forall u: nat :: u < count ==> rnd(u) % t.numTasks != p
  {
    if count > 0 {
      NothingDealtIff(rnd, t, p, count - 1);
    }
  }

  // ------------------------------------------------------- a file per process

  /** What a rank's array holds with a file per process: the transfers of one block, in any order. */
  ghost predicate OwnArray(rnd: nat -> nat, t: Test, p: nat, offsets: seq<nat>)
    requires Checked(t)
  {
    t.filePerProc && multiset(offsets) == multiset(Unmixed(rnd, t, p))
  }

  /** Every transfer of the block has one place in the array. */
  lemma OwnArrayIsBlock(rnd: nat -> nat, t: Test, p: nat, offsets: seq<nat>)
    requires Checked(t) && OwnArray(rnd, t, p, offsets)
    ensures t.filePerProc && |offsets| == t.blockSize / t.transferSize > 0 && NoDuplicates(offsets)
    ensures forall x :: x in offsets <==> exists u :: 0 <= u < |offsets| && x == OffsetAt(t, u)
  {
    hide OffsetAt;
    TransfersPerBlock(t);
    var plain := Unmixed(rnd, t, p);
    OwnUnmixed(rnd, t, p);
    assert |multiset(offsets)| == |multiset(plain)|;
    forall i, j | 0 <= i < j < |offsets| ensures offsets[i] != offsets[j] {
      if offsets[i] == offsets[j] {
        TwoPlaces(offsets, i, j);
        DistinctOnce(plain, offsets[i]);
      }
    }
    forall x ensures x in offsets <==> x in plain {
      assert x in multiset(offsets) <==> x in multiset(plain);
    }
  }

  lemma OwnUnmixed(rnd: nat -> nat, t: Test, p: nat)
    requires Checked(t) && t.filePerProc
    ensures |Unmixed(rnd, t, p)| == t.blockSize / t.transferSize && NoDuplicates(Unmixed(rnd, t, p))
    ensures forall u :: 0 <= u < |Unmixed(rnd, t, p)| ==> Unmixed(rnd, t, p)[u] == OffsetAt(t, u)
  {
    var plain := Unmixed(rnd, t, p);
    forall i, j | 0 <= i < j < |plain| ensures plain[i] != plain[j] {
      OffsetsDiffer(t, i, j);
    }
  }

  lemma NominalOfOwn(t: Test, offsets: seq<nat>, p: nat, n: nat)
    requires Checked(t) && t.filePerProc && |offsets| > 0 && n < t.segmentCount * |offsets|
    ensures 0 <= n / |offsets| < t.segmentCount && 0 <= n % |offsets| < |offsets|
    ensures Nominal(t, Random(offsets), p, n) == offsets[n % |offsets|] + n / |offsets| * t.blockSize
  {
    Digits(n, t.segmentCount, |offsets|);
    DivModUnique(n / |offsets|, t.segmentCount, 0, n / |offsets|);
  }

  /** Which transfer of which segment a byte of a rank's own file belongs to. */
  lemma OwnAddress(rnd: nat -> nat, t: Test, p: nat, offsets: seq<nat>, n: nat, b: nat)
    requires Checked(t) && OwnArray(rnd, t, p, offsets) && |offsets| > 0 && n < t.segmentCount * |offsets|
    requires Covers(t, Random(offsets), p, n, b)
    ensures var k := |offsets|;
            && b / t.transferSize / k == n / k
            && 0 <= n % k < k && offsets[n % k] == b / t.transferSize % k * t.transferSize
    ensures b < t.blockSize * t.segmentCount
  {
    OwnArrayIsBlock(rnd, t, p, offsets);
    NominalOfOwn(t, offsets, p, n);
    var k, i, T := |offsets|, n / |offsets|, t.transferSize;
    assert offsets[n % k] in offsets;
    var u :| 0 <= u < k && offsets[n % k] == OffsetAt(t, u);
    TransfersPerBlock(t);
    assert t.blockSize == k * T;
    OwnDigits(i, t.segmentCount, u, k, b - (u * T + i * t.blockSize), T);
    assert i * t.blockSize == i * (k * T);
  }

  lemma OwnDigits(i: int, n: int, u: int, k: int, x: int, T: int)
    requires 0 <= i < n && 0 <= u < k && 0 <= x < T
    ensures var b := i * (k * T) + u * T + x;
            b / T / k == i && b / T % k == u && 0 <= b < k * T * n
  {
    ThreeDigits(i, n, u, k, x, T);
    assert n * k * T == k * T * n;
  }

  /** With random offsets in a rank's own file, no byte is transferred twice, and none behind the last segment. */
  lemma OwnRandomCoveredOnce(rnd: nat -> nat, t: Test, p: nat, offsets: seq<nat>, n: nat, n': nat, b: nat)
    requires Checked(t) && OwnArray(rnd, t, p, offsets) && |offsets| > 0
    requires n < t.segmentCount * |offsets| && n' < t.segmentCount * |offsets|
    requires Covers(t, Random(offsets), p, n, b) && Covers(t, Random(offsets), p, n', b)
    ensures n == n' && b < t.blockSize * t.segmentCount
  {
    hide *;
    OwnAddress(rnd, t, p, offsets, n, b);
    OwnAddress(rnd, t, p, offsets, n', b);
    OwnArrayIsBlock(rnd, t, p, offsets);
    DistinctPlaces(offsets, n % |offsets|, n' % |offsets|);
    SameDigits(n, n', |offsets|);
  }

  lemma DistinctPlaces(s: seq<nat>, i: nat, j: nat)
    requires NoDuplicates(s) && i < |s| && j < |s| && s[i] == s[j]
    ensures i == j
  {
  }

  lemma SameDigits(n: nat, n': nat, k: nat)
    requires k > 0 && n / k == n' / k && n % k == n' % k
    ensures n == n'
  {
    assert n == n / k * k + n % k && n' == n' / k * k + n' % k;
  }

  /** And every byte of all segments is transferred. */
  lemma OwnRandomCoversEverything(rnd: nat -> nat, t: Test, p: nat, offsets: seq<nat>, b: nat) returns (n: nat)
    requires Checked(t) && OwnArray(rnd, t, p, offsets) && b < t.blockSize * t.segmentCount
    ensures |offsets| > 0 && n < t.segmentCount * |offsets| && Covers(t, Random(offsets), p, n, b)
  {
    hide *;
    OwnArrayIsBlock(rnd, t, p, offsets);
    var k, T := |offsets|, t.transferSize;
    BlockOfTransfers(t);
    OwnDigitsOf(b, t.segmentCount, k, T, t.blockSize);
    var i, u := b / T / k, b / T % k;
    assert OffsetAt(t, u) in offsets;
    var j :| 0 <= j < k && offsets[j] == OffsetAt(t, u);
    n := OwnPlace(i, j, k, t.segmentCount);
    NominalOfOwn(t, offsets, p, n);
    OwnOffsets(t, offsets, u);
    CoversAt(t, Random(offsets), p, n, b, offsets[j] + i * t.blockSize);
  }

  lemma OwnDigitsOf(b: int, n: int, k: int, T: int, size: int)
    requires k > 0 && T > 0 && size == k * T && 0 <= b < size * n
    ensures var i, u := b / T / k, b / T % k;
            0 <= i < n && 0 <= u < k && u * T + i * size <= b < u * T + i * size + T
  {
    assert size * n == n * k * T;
    ThreeDigitsOf(b, n, k, T);
  }

  lemma BlockOfTransfers(t: Test)
    requires Checked(t)
    ensures t.transferSize > 0 && t.blockSize == t.blockSize / t.transferSize * t.transferSize
  {
    TransfersPerBlock(t);
  }

  lemma OwnOffsets(t: Test, offsets: seq<nat>, u: nat)
    requires Checked(t)
    ensures Offsets(t, Random(offsets)) == |offsets| && OffsetAt(t, u) == u * t.transferSize
  {
  }

  lemma OwnPlace(i: nat, j: nat, k: nat, segments: nat) returns (n: nat)
    requires i < segments && j < k
    ensures n < segments * k && n / k == i && n % k == j
  {
    DigitsBelow(i, segments, j, k);
    n := i * k + j;
    DivModUnique(n, k, i, j);
  }
}
