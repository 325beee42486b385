/**
 The access loop of IOR: which offsets one rank transfers, in which order, when
 the loop can be stopped at any moment and is completed afterwards so that all
 ranks perform the same number of transfers.
 */
module IorTrace {
  import opened Arithmetic

  /** The parameters that decide about offsets. */
  datatype Test = Test(
    blockSize: nat, transferSize: nat, segmentCount: nat, numTasks: nat, filePerProc: bool)

  /** What the parameter check lets through. */
  predicate Checked(t: Test) {
    && 0 < t.transferSize <= t.blockSize
    && t.blockSize % t.transferSize == 0
    && 1 <= t.segmentCount
    && 1 <= t.numTasks
  }

  /** Offsets within the first segment: computed on the fly, or precomputed in random order. */
  datatype Mode = Sequential | Random(offsets: seq<nat>)

  function Offsets(t: Test, m: Mode): nat
    requires Checked(t)
  {
    if m.Random? then |m.offsets| else t.blockSize / t.transferSize
  }

  /** The offset of transfer `j` of segment `i` when acting as rank `p`. */
  function OffsetOf(t: Test, m: Mode, p: nat, i: nat, j: nat): nat
    requires Checked(t) && j < Offsets(t, m)
  {
    if m.Random? then
      if t.filePerProc then m.offsets[j] + i * t.blockSize
      else m.offsets[j] + i * t.numTasks * t.blockSize
    else if t.filePerProc then j * t.transferSize + i * t.blockSize
    else j * t.transferSize + (i * t.numTasks * t.blockSize + p * t.blockSize)
  }

  /** The nominal sequence of a rank: transfer after transfer, segment after segment, then from the start again. */
  function Nominal(t: Test, m: Mode, p: nat, n: nat): nat
    requires Checked(t) && Offsets(t, m) > 0
  {
    OffsetOf(t, m, p, n / Offsets(t, m) % t.segmentCount, n % Offsets(t, m))
  }

  /** The first `count` transfers of the nominal sequence. */
  function Prefix(t: Test, m: Mode, p: nat, count: nat): (trace: seq<nat>)
    requires Checked(t) && (Offsets(t, m) > 0 || count == 0)
    ensures |trace| == count
  {
    seq(count, n requires 0 <= n < count => Nominal(t, m, p, n))
  }

  lemma PrefixGrows(t: Test, m: Mode, p: nat, laps: nat, i: nat, j: nat, count: nat)
    requires Checked(t) && i < t.segmentCount && j < Offsets(t, m)
    requires count == (laps * t.segmentCount + i) * Offsets(t, m) + j
    ensures Prefix(t, m, p, count + 1) == Prefix(t, m, p, count) + [OffsetOf(t, m, p, i, j)]
  {
    DivModUnique(count, Offsets(t, m), laps * t.segmentCount + i, j);
    DivModUnique(laps * t.segmentCount + i, t.segmentCount, laps, i);
    assert Nominal(t, m, p, count) == OffsetOf(t, m, p, i, j);
  }

  /** Everything the access loop updates. */
  datatype Progress = Progress(trace: seq<nat>, pairCnt: nat, dataMoved: nat)

  /** The transfers made so far are the first ones of the nominal sequence, and are accounted for. */
  predicate OnTrack(t: Test, m: Mode, p: nat, s: Progress)
    requires Checked(t)
  {
    && (Offsets(t, m) > 0 || s.pairCnt == 0)
    && s.trace == Prefix(t, m, p, s.pairCnt)
    && s.dataMoved == s.pairCnt * t.transferSize
  }

  /** One transfer: always of `transferSize` bytes, anything else aborts the run. */
  method Transfer(t: Test, m: Mode, p: nat, s: Progress, ghost laps: nat, i: nat, j: nat) returns (s': Progress)
    requires Checked(t) && i < t.segmentCount && j < Offsets(t, m)
    requires OnTrack(t, m, p, s) && s.pairCnt == (laps * t.segmentCount + i) * Offsets(t, m) + j
    ensures s'.pairCnt == s.pairCnt + 1 && OnTrack(t, m, p, s')
  {
    PrefixGrows(t, m, p, laps, i, j, s.pairCnt);
    s' := Progress(s.trace + [OffsetOf(t, m, p, i, j)], s.pairCnt + 1, s.dataMoved + t.transferSize);
    assert (s.pairCnt + 1) * t.transferSize == s.pairCnt * t.transferSize + t.transferSize;
  }

  /** The loop counters where the access loop stops: just past transfer `j - 1` of segment `i - 1`. */
  predicate StoppedAt(t: Test, m: Mode, s: Progress, i: nat, j: nat)
    requires Checked(t)
  {
    && 1 <= i <= t.segmentCount
    && j <= Offsets(t, m)
    && (Offsets(t, m) > 0 ==> 1 <= j)
    && s.pairCnt == (i - 1) * Offsets(t, m) + j
  }

  /** Whether the loop stops after `n` transfers: the clock has passed the deadline, or the limit is reached. */
  predicate Stops(deadline: bool, late: nat -> bool, limit: nat, n: nat) {
    (deadline && late(n)) || (limit != 0 && n == limit)
  }

  /** How many transfers the access loop makes: it goes on to the first at which it stops, or to the end. */
  ghost predicate LoopCount(t: Test, m: Mode, deadline: bool, late: nat -> bool, limit: nat, count: nat)
    requires Checked(t)
  {
    var all := t.segmentCount * Offsets(t, m);
    && (if Offsets(t, m) > 0 then 1 <= count <= all else count == 0)
    && (forall n :: 1 <= n < count ==> !Stops(deadline, late, limit, n))
    && (count < all ==> Stops(deadline, late, limit, count))
  }

  /** Without a deadline the loop makes as many transfers as the limit says, or all. */
  lemma CountWithoutDeadline(t: Test, m: Mode, late: nat -> bool, limit: nat, count: nat)
    requires Checked(t) && LoopCount(t, m, false, late, limit, count)
    ensures var all := t.segmentCount * Offsets(t, m); count == if 0 < limit < all then limit else all
  {
    var all := t.segmentCount * Offsets(t, m);
    if 0 < limit < count {
      assert Stops(false, late, limit, limit);
      assert false;
    }
  }

  /**
   The timed access loop. `deadline` says whether a stonewall deadline applies, and
   `late(n)` whether the clock has passed it after `n` transfers. `wearOut` is the
   number of transfers after which to stop, 0 if unlimited.
   */
  method AccessLoop(t: Test, m: Mode, p: nat, deadline: bool, late: nat -> bool, wearOut: nat)
    returns (s: Progress, i: nat, j: nat)
    requires Checked(t)
    ensures OnTrack(t, m, p, s) && StoppedAt(t, m, s, i, j)
    ensures wearOut != 0 ==> s.pairCnt <= wearOut
    ensures LoopCount(t, m, deadline, late, wearOut, s.pairCnt)
  {
    hide *;
    s := Progress([], 0, 0);
    var hitStonewall := false;
    i, j := 0, 0;
    StartOnTrack(t, m, p, deadline, late, wearOut);
    while i < t.segmentCount && !hitStonewall
      invariant i <= t.segmentCount && OnTrack(t, m, p, s)
      invariant i == 0 ==> !hitStonewall
      invariant i > 0 ==> StoppedAt(t, m, s, i, j)
      invariant !hitStonewall ==> s.pairCnt == i * Offsets(t, m) && NotStopped(deadline, late, wearOut, s.pairCnt)
      invariant hitStonewall ==> StoppedFirst(deadline, late, wearOut, s.pairCnt)
      invariant wearOut != 0 ==> s.pairCnt <= wearOut
      decreases t.segmentCount - i
    {
      ghost var before := s;
      s, j, hitStonewall := SegmentLoop(t, m, p, deadline, late, wearOut, s, i);
      AfterSegment(t, m, before, s, i, j);
      i := i + 1;
    }
    CountIsLoopCount(t, m, deadline, late, wearOut, s, i, j, hitStonewall);
  }

  lemma StartOnTrack(t: Test, m: Mode, p: nat, deadline: bool, late: nat -> bool, limit: nat)
    requires Checked(t)
    ensures t.segmentCount > 0 && 0 * Offsets(t, m) == 0
    ensures OnTrack(t, m, p, Progress([], 0, 0)) && NotStopped(deadline, late, limit, 0)
  {
    assert 0 * t.transferSize == 0;
  }

  lemma AfterSegment(t: Test, m: Mode, s0: Progress, s: Progress, i: nat, j: nat)
    requires Checked(t) && i < t.segmentCount && j <= Offsets(t, m) && (Offsets(t, m) > 0 ==> j > 0)
    requires s0.pairCnt == i * Offsets(t, m) && s.pairCnt == s0.pairCnt + j
    ensures StoppedAt(t, m, s, i + 1, j)
    ensures j == Offsets(t, m) ==> s.pairCnt == (i + 1) * Offsets(t, m)
  {
    hide Offsets;
    SegmentEnd(i, Offsets(t, m));
  }

  /** The loop has not stopped after any number of transfers up to `count`. */
  ghost predicate NotStopped(deadline: bool, late: nat -> bool, limit: nat, count: nat) {
    && (forall n :: 1 <= n <= count ==> !Stops(deadline, late, limit, n))
    && (limit != 0 ==> count < limit)
  }

  /** `count` is the first number of transfers after which the loop stops. */
  ghost predicate StoppedFirst(deadline: bool, late: nat -> bool, limit: nat, count: nat) {
    && 1 <= count && Stops(deadline, late, limit, count)
    && forall n :: 1 <= n < count ==> !Stops(deadline, late, limit, n)
  }

  /** The transfers of one segment, as far as the loop gets. */
  method SegmentLoop(
      t: Test, m: Mode, p: nat, deadline: bool, late: nat -> bool, wearOut: nat, s0: Progress, i: nat)
    returns (s: Progress, j: nat, hitStonewall: bool)
    requires Checked(t) && i < t.segmentCount && OnTrack(t, m, p, s0) && s0.pairCnt == i * Offsets(t, m)
    requires NotStopped(deadline, late, wearOut, s0.pairCnt)
    ensures OnTrack(t, m, p, s) && s.pairCnt == s0.pairCnt + j && j <= Offsets(t, m)
    ensures Offsets(t, m) > 0 ==> j > 0
    ensures hitStonewall ==> j > 0 && StoppedFirst(deadline, late, wearOut, s.pairCnt)
    ensures !hitStonewall ==> j == Offsets(t, m) && NotStopped(deadline, late, wearOut, s.pairCnt)
    ensures wearOut != 0 ==> s.pairCnt <= wearOut
  {
    hide Prefix, OnTrack;
    s, j, hitStonewall := s0, 0, false;
    while j < Offsets(t, m) && !hitStonewall
      invariant j <= Offsets(t, m) && OnTrack(t, m, p, s)
      invariant s.pairCnt == s0.pairCnt + j
      invariant wearOut != 0 ==> s.pairCnt <= wearOut
      invariant !hitStonewall ==> NotStopped(deadline, late, wearOut, s.pairCnt)
      invariant hitStonewall ==> j > 0 && StoppedFirst(deadline, late, wearOut, s.pairCnt)
      decreases Offsets(t, m) - j
    {
      s := Transfer(t, m, p, s, 0, i, j);
      hitStonewall := (deadline && late(s.pairCnt)) || (wearOut != 0 && s.pairCnt == wearOut);
      j := j + 1;
    }
  }

  lemma CountIsLoopCount(
      t: Test, m: Mode, deadline: bool, late: nat -> bool, limit: nat, s: Progress, i: nat, j: nat, stopped: bool)
    requires Checked(t) && StoppedAt(t, m, s, i, j)
    requires stopped ==> StoppedFirst(deadline, late, limit, s.pairCnt)
    requires !stopped ==>
               i == t.segmentCount && s.pairCnt == i * Offsets(t, m) && NotStopped(deadline, late, limit, s.pairCnt)
    ensures LoopCount(t, m, deadline, late, limit, s.pairCnt)
  {
    hide Stops, Offsets;
    CountBounds(i, j, t.segmentCount, Offsets(t, m));
    MulNonnegative(i - 1, Offsets(t, m));
    if Offsets(t, m) == 0 {
      assert (i - 1) * 0 == 0;
    }
  }

  lemma SegmentEnd(i: nat, k: nat)
    ensures (i + 1) * k == i * k + k
  {
  }

  lemma CountBounds(i: nat, j: nat, segments: nat, k: nat)
    requires 1 <= i <= segments && j <= k
    ensures (i - 1) * k + j <= segments * k
  {
    assert (i - 1) * k + k == i * k;
    assert (segments - i) * k >= 0;
    assert (segments - i) * k == segments * k - i * k;
  }

  /** What one round of the completing loop does: the counters behind it, and the transfers made. */
  function CompletionRound(segments: nat, k: nat, goal: nat, i: nat, j: nat, pairCnt: nat): (r: (nat, nat, nat))
    requires pairCnt <= goal && j <= k
    ensures r.1 <= k && pairCnt <= r.2 <= goal
  {
    var first := if i == segments then 0 else i;
    var made := if k - j < goal - pairCnt then k - j else goal - pairCnt;
    (first + 1, 0, pairCnt + made)
  }

  /** The counters and the transfers made after that many rounds, or fewer if the goal is reached before. */
  function CompletionRounds(
      segments: nat, k: nat, goal: nat, i: nat, j: nat, pairCnt: nat, rounds: nat): (r: (nat, nat, nat))
    requires pairCnt <= goal && j <= k
    ensures r.1 <= k && r.2 <= goal
    decreases rounds
  {
    if rounds == 0 || pairCnt == goal then (i, j, pairCnt)
    else
      var (i', j', pairCnt') := CompletionRound(segments, k, goal, i, j, pairCnt);
      CompletionRounds(segments, k, goal, i', j', pairCnt', rounds - 1)
  }

  lemma {:induction false} OneMoreRound(
      segments: nat, k: nat, goal: nat, i: nat, j: nat, pairCnt: nat, rounds: nat)
    requires pairCnt <= goal && j <= k
    requires CompletionRounds(segments, k, goal, i, j, pairCnt, rounds).2 < goal
    ensures var (i', j', pairCnt') := CompletionRounds(segments, k, goal, i, j, pairCnt, rounds);
            CompletionRounds(segments, k, goal, i, j, pairCnt, rounds + 1)
            == CompletionRound(segments, k, goal, i', j', pairCnt')
    decreases rounds
  {
    if rounds > 0 {
      var (i', j', pairCnt') := CompletionRound(segments, k, goal, i, j, pairCnt);
      OneMoreRound(segments, k, goal, i', j', pairCnt', rounds - 1);
    }
  }

  /** Where the loop stands in the nominal sequence, the loop counters having wrapped over `laps` times. */
  predicate At(t: Test, m: Mode, s: Progress, laps: nat, i: nat, j: nat)
    requires Checked(t)
  {
    Offsets(t, m) > 0 ==> j < Offsets(t, m) && s.pairCnt == (laps * t.segmentCount + i) * Offsets(t, m) + j
  }

  /** One round of the completing loop, whether or not there are transfers in a segment. */
  method Round(t: Test, m: Mode, p: nat, s0: Progress, ghost laps0: nat, i0: nat, j0: nat, goal: nat)
    returns (s: Progress, ghost laps: nat, i: nat, j: nat)
    requires Checked(t) && OnTrack(t, m, p, s0) && s0.pairCnt < goal
    requires i0 <= t.segmentCount && j0 <= Offsets(t, m) && At(t, m, s0, laps0, i0, j0)
    ensures OnTrack(t, m, p, s) && i <= t.segmentCount
    ensures (i, j, s.pairCnt) == CompletionRound(t.segmentCount, Offsets(t, m), goal, i0, j0, s0.pairCnt)
    ensures s.pairCnt < goal ==> At(t, m, s, laps, i, j)
  {
    hide Prefix, OnTrack;
    var k := Offsets(t, m);
    s, laps, i, j := s0, laps0, i0, j0;
    if i == t.segmentCount {
      i := 0;
      assert laps * t.segmentCount + t.segmentCount == (laps + 1) * t.segmentCount + 0;
      laps := laps + 1;
    }
    while j < k && s.pairCnt < goal
      invariant OnTrack(t, m, p, s) && s.pairCnt <= goal && j0 <= j <= k
      invariant s.pairCnt == s0.pairCnt + (j - j0)
      invariant k > 0 ==> s.pairCnt == (laps * t.segmentCount + i) * k + j
      decreases k - j
    {
      s := Transfer(t, m, p, s, laps, i, j);
      j := j + 1;
    }
    SegmentEnd(laps * t.segmentCount + i, k);
    j := 0;
    i := i + 1;
  }

  /** The counters with which the completing loop starts: the stopped segment, unless it was finished. */
  function Resume(k: nat, i: nat, j: nat): (nat, nat)
    requires 1 <= i
  {
    if j == k then (i, 0) else (i - 1, j)
  }

  /**
   Completes the transfers up to `goal`, continuing where the loop stopped. This
   ends if and only if there is a transfer per segment at all, or nothing is
   missing: `rounds` counts the rounds made, and `CompletionEndsIffTransfers` says
   when any number of them gets there.
   */
  method Complete(t: Test, m: Mode, p: nat, s0: Progress, i0: nat, j0: nat, goal: nat)
    returns (s: Progress, ghost rounds: nat)
    requires Checked(t) && OnTrack(t, m, p, s0) && StoppedAt(t, m, s0, i0, j0)
    requires s0.pairCnt <= goal && (Offsets(t, m) > 0 || s0.pairCnt == goal)
    ensures OnTrack(t, m, p, s) && s.pairCnt == goal
    ensures var (i, j) := Resume(Offsets(t, m), i0, j0);
            j <= Offsets(t, m)
            && CompletionRounds(t.segmentCount, Offsets(t, m), goal, i, j, s0.pairCnt, rounds).2 == s.pairCnt
  {
    hide Prefix, OnTrack, CompletionRound, CompletionRounds;
    var k := Offsets(t, m);
    s, rounds := s0, 0;
    ghost var (i1, j1) := Resume(k, i0, j0);
    NoRounds(t.segmentCount, k, goal, i1, j1, s0.pairCnt);
    if s.pairCnt != goal {
      var i: nat, j: nat := i0 - 1, j0;
      if j == k {
        j := 0;
        i := i + 1;
        SegmentEnd(i0 - 1, k);
      }
      ghost var laps := 0;
      assert s.pairCnt == (0 * t.segmentCount + i) * k + j;
      while s.pairCnt < goal
        invariant OnTrack(t, m, p, s) && s.pairCnt <= goal
        invariant i <= t.segmentCount && j <= k
        invariant s.pairCnt < goal ==> At(t, m, s, laps, i, j)
        invariant CompletionRounds(t.segmentCount, k, goal, i1, j1, s0.pairCnt, rounds) == (i, j, s.pairCnt)
        decreases goal - s.pairCnt
      {
        OneMoreRound(t.segmentCount, k, goal, i1, j1, s0.pairCnt, rounds);
        RoundIsProgress(t.segmentCount, k, goal, i, j, s.pairCnt);
        s, laps, i, j := Round(t, m, p, s, laps, i, j, goal);
        rounds := rounds + 1;
      }
    }
  }

  lemma NoRounds(segments: nat, k: nat, goal: nat, i: nat, j: nat, pairCnt: nat)
    requires pairCnt <= goal && j <= k
    ensures CompletionRounds(segments, k, goal, i, j, pairCnt, 0) == (i, j, pairCnt)
  {
  }

  lemma RoundIsProgress(segments: nat, k: nat, goal: nat, i: nat, j: nat, pairCnt: nat)
    requires pairCnt < goal && j < k
    ensures CompletionRound(segments, k, goal, i, j, pairCnt).2 > pairCnt
  {
  }

  /**
   A rank that has no transfer in a segment, as can happen when the transfers of
   a shared file are dealt out at random, never completes: after any number of
   rounds it is where it was. With at least one transfer per segment as many
   rounds as transfers are missing suffice.
   */
  lemma {:induction false} CompletionEndsIffTransfers(
    segments: nat, k: nat, goal: nat, i: nat, j: nat, pairCnt: nat, rounds: nat)
    requires pairCnt < goal && j <= k && (j < k || k == 0)
    requires rounds >= goal - pairCnt
    ensures CompletionRounds(segments, k, goal, i, j, pairCnt, rounds).2 == if k == 0 then pairCnt else goal
    decreases rounds
  {
    var (i', j', pairCnt') := CompletionRound(segments, k, goal, i, j, pairCnt);
    if k == 0 {
      CompletionNeverEnds(segments, goal, i', pairCnt, rounds - 1);
    } else if pairCnt' < goal {
      CompletionEndsIffTransfers(segments, k, goal, i', j', pairCnt', rounds - 1);
    }
  }

  lemma {:induction false} CompletionNeverEnds(segments: nat, goal: nat, i: nat, pairCnt: nat, rounds: nat)
    requires pairCnt < goal
    ensures CompletionRounds(segments, 0, goal, i, 0, pairCnt, rounds).2 == pairCnt
    decreases rounds
  {
    if rounds > 0 {
      CompletionNeverEnds(segments, goal, CompletionRound(segments, 0, goal, i, 0, pairCnt).0, pairCnt, rounds - 1);
    }
  }

  // -------------------------------------------------------------- all ranks

  function Max(counts: seq<nat>): nat {
    if counts == [] then 0 else if counts[0] > Max(counts[1..]) then counts[0] else Max(counts[1..])
  }

  lemma {:induction false} MaxIsMax(counts: seq<nat>)
    ensures forall r :: 0 <= r < |counts| ==> counts[r] <= Max(counts)
    ensures counts != [] ==> Max(counts) in counts
  {
    if |counts| == 1 {
      assert counts[1..] == [] && counts[0] == Max(counts);
    } else if counts != [] {
      MaxIsMax(counts[1..]);
    }
  }

  /** The file accesses of all ranks: which rank each acts as, and how its offsets are chosen. */
  datatype Plan = Plan(pretend: seq<nat>, modes: seq<Mode>)

  /** To complete, every rank needs a transfer per segment; see `CompletionEndsIffTransfers`. */
  predicate PlanOk(t: Test, plan: Plan, wearOut: bool)
    requires Checked(t)
  {
    && |plan.pretend| == |plan.modes| == t.numTasks
    && (wearOut ==> forall r :: 0 <= r < t.numTasks ==> Offsets(t, plan.modes[r]) > 0)
  }

  lemma CountIsPositive(t: Test, m: Mode, s: Progress, i: nat, j: nat)
    requires Checked(t) && StoppedAt(t, m, s, i, j)
    ensures Offsets(t, m) > 0 <==> 1 <= s.pairCnt
    ensures Offsets(t, m) == 0 <==> s.pairCnt == 0
  {
    MulNonnegative(i - 1, Offsets(t, m));
  }

  /**
   A whole access phase of all ranks. With wear-out each rank is stopped wherever
   its clock says, the counts are reduced to their maximum, and every rank
   completes up to it.
   */
  method AccessPhase(t: Test, plan: Plan, deadline: bool, late: nat -> nat -> bool, wearOut: bool, limit: nat)
    returns (traces: seq<seq<nat>>, moved: seq<nat>, reached: seq<nat>)
    requires Checked(t) && PlanOk(t, plan, wearOut)
    ensures |traces| == |moved| == |reached| == t.numTasks
    ensures forall r :: 0 <= r < t.numTasks ==>
              && (Offsets(t, plan.modes[r]) == 0 ==> reached[r] == 0)
              && traces[r] == Prefix(t, plan.modes[r], plan.pretend[r], if wearOut then Max(reached) else reached[r])
              && moved[r] == |traces[r]| * t.transferSize
    ensures forall r :: 0 <= r < t.numTasks ==>
              && (Offsets(t, plan.modes[r]) > 0 <==> 1 <= reached[r])
              && (limit != 0 ==> reached[r] <= limit)
    ensures forall r :: 0 <= r < t.numTasks ==> LoopCount(t, plan.modes[r], deadline, late(r), limit, reached[r])
  {
    hide Offsets, StoppedAt, LoopCount, Prefix;
    var stopped: seq<Progress>, ends: seq<(nat, nat)> := [], [];
    reached := [];
    for r := 0 to t.numTasks
      invariant |stopped| == |ends| == |reached| == r
      invariant forall q :: 0 <= q < r ==>
                  && OnTrack(t, plan.modes[q], plan.pretend[q], stopped[q])
                  && StoppedAt(t, plan.modes[q], stopped[q], ends[q].0, ends[q].1)
                  && reached[q] == stopped[q].pairCnt
                  && (Offsets(t, plan.modes[q]) > 0 <==> 1 <= reached[q])
                  && (limit != 0 ==> reached[q] <= limit)
                  && LoopCount(t, plan.modes[q], deadline, late(q), limit, reached[q])
    {
      var s, i, j := AccessLoop(t, plan.modes[r], plan.pretend[r], deadline, late(r), limit);
      CountIsPositive(t, plan.modes[r], s, i, j);
      stopped, ends, reached := stopped + [s], ends + [(i, j)], reached + [s.pairCnt];
    }
    MaxIsMax(reached);
    traces, moved := [], [];
    for r := 0 to t.numTasks
      invariant |traces| == |moved| == r
      invariant forall q :: 0 <= q < r ==>
                  && (Offsets(t, plan.modes[q]) == 0 ==> reached[q] == 0)
                  && traces[q]
                     == Prefix(t, plan.modes[q], plan.pretend[q], if wearOut then Max(reached) else reached[q])
                  && moved[q] == |traces[q]| * t.transferSize
    {
      var s := stopped[r];
      if wearOut {
        ghost var rounds;
        s, rounds := Complete(t, plan.modes[r], plan.pretend[r], s, ends[r].0, ends[r].1, Max(reached));
      }
      traces, moved := traces + [s.trace], moved + [s.dataMoved];
    }
  }

  // ---------------------------------------------------------------- coverage

  /** Transfer `n` of the rank acting as `p` covers byte `b`. */
  predicate Covers(t: Test, m: Mode, p: nat, n: nat, b: nat)
    requires Checked(t) && Offsets(t, m) > 0
  {
    var o := Nominal(t, m, p, n);
    o <= b < o + t.transferSize
  }

  function TransfersPerRank(t: Test): nat
    requires Checked(t)
  {
    t.segmentCount * (t.blockSize / t.transferSize)
  }

  lemma TransfersPerBlock(t: Test)
    requires Checked(t)
    ensures t.blockSize / t.transferSize * t.transferSize == t.blockSize
    ensures Offsets(t, Sequential) == t.blockSize / t.transferSize >= 1
  {
    var k := t.blockSize / t.transferSize;
    assert t.blockSize == k * t.transferSize + t.blockSize % t.transferSize;
    assert k <= 0 ==> k * t.transferSize <= 0;
  }

  /** The offset of a transfer counts the transfers that lie before it in the file. */
  lemma OffsetCounts(T: nat, k: nat, N: nat, i: nat, p: nat, j: nat)
    ensures j * T + (i * N * (k * T) + p * (k * T)) == ((i * N + p) * k + j) * T
  {
    assert i * N * (k * T) == i * N * k * T;
    assert p * (k * T) == p * k * T;
    assert (i * N + p) * k == i * N * k + p * k;
    assert ((i * N + p) * k + j) * T == (i * N + p) * k * T + j * T;
    assert (i * N * k + p * k) * T == i * N * k * T + p * k * T;
  }

  /** The rank and the number of the transfer that covers a byte of the shared file. */
  function Owner(t: Test, b: nat): (int, int)
    requires Checked(t) && Offsets(t, Sequential) > 0
  {
    var k := t.blockSize / t.transferSize;
    var u := b / t.transferSize;
    (u / k % t.numTasks, u / k / t.numTasks * k + u % k)
  }

  /** How many transfers lie before transfer `j` of block `p` of segment `i` in the shared file. */
  function FileIndex(t: Test, i: nat, p: nat, j: nat): nat
    requires Checked(t)
  {
    var k := Offsets(t, Sequential);
    MulNonnegative(i, t.numTasks);
    MulNonnegative(i * t.numTasks + p, k);
    (i * t.numTasks + p) * k + j
  }

  /** Transfer, block and segment of a byte, when it is given by them. */
  lemma OwnerOfAddress(t: Test, i: nat, p: nat, j: nat, x: nat)
    requires Checked(t) && Offsets(t, Sequential) > 0
    requires p < t.numTasks && j < Offsets(t, Sequential) && x < t.transferSize
    ensures Owner(t, FileIndex(t, i, p, j) * t.transferSize + x) == (p, i * Offsets(t, Sequential) + j)
  {
    var k := t.blockSize / t.transferSize;
    TransfersPerBlock(t);
    var u := FileIndex(t, i, p, j);
    DivModUnique(u * t.transferSize + x, t.transferSize, u, x);
    DivModUnique(u, k, i * t.numTasks + p, j);
    DivModUnique(i * t.numTasks + p, t.numTasks, i, p);
  }

  lemma NominalOfSequential(t: Test, p: nat, i: nat, j: nat)
    requires Checked(t) && !t.filePerProc && Offsets(t, Sequential) > 0
    requires i < t.segmentCount && j < t.blockSize / t.transferSize
    ensures var k := t.blockSize / t.transferSize;
            && i * k + j < TransfersPerRank(t)
            && Nominal(t, Sequential, p, i * k + j) == FileIndex(t, i, p, j) * t.transferSize
  {
    var k := t.blockSize / t.transferSize;
    TransfersPerBlock(t);
    DivModUnique(i * k + j, k, i, j);
    DivModUnique(i, t.segmentCount, 0, i);
    DigitsBelow(i, t.segmentCount, j, k);
    OffsetCounts(t.transferSize, k, t.numTasks, i, p, j);
  }

  lemma ExpectedSize(t: Test)
    requires Checked(t)
    ensures var k := t.blockSize / t.transferSize;
            t.blockSize * t.segmentCount * t.numTasks == t.segmentCount * t.numTasks * k * t.transferSize
  {
    var k := t.blockSize / t.transferSize;
    TransfersPerBlock(t);
    var M := t.segmentCount * t.numTasks;
    assert t.blockSize * t.segmentCount * t.numTasks == t.blockSize * M;
    assert M * k * t.transferSize == M * (k * t.transferSize);
  }

  /** Whatever covers a byte is its owner: no byte of the shared file is transferred twice, and none beyond its end. */
  lemma CoveredOnce(t: Test, p: nat, n: nat, b: nat)
    requires Checked(t) && !t.filePerProc && Offsets(t, Sequential) > 0
    requires p < t.numTasks && n < TransfersPerRank(t) && Covers(t, Sequential, p, n, b)
    ensures (p, n) == Owner(t, b)
    ensures b < t.blockSize * t.segmentCount * t.numTasks
  {
    hide Nominal, Owner;
    var k := t.blockSize / t.transferSize;
    TransfersPerBlock(t);
    Digits(n, t.segmentCount, k);
    var i, j := n / k, n % k;
    NominalOfSequential(t, p, i, j);
    OwnerOfAddress(t, i, p, j, b - Nominal(t, Sequential, p, n));
    DigitsBelow(i, t.segmentCount, p, t.numTasks);
    DigitsBelow(i * t.numTasks + p, t.segmentCount * t.numTasks, j, k);
    DigitsBelow((i * t.numTasks + p) * k + j, t.segmentCount * t.numTasks * k,
                b - Nominal(t, Sequential, p, n), t.transferSize);
    ExpectedSize(t);
  }

  /** The segment, the block and the place in the block of a transfer of the file. */
  lemma FileIndexOf(t: Test, u: nat) returns (i: nat, p: nat, j: nat)
    requires Checked(t) && Offsets(t, Sequential) > 0
    requires u < t.segmentCount * t.numTasks * Offsets(t, Sequential)
    ensures i < t.segmentCount && p < t.numTasks && j < Offsets(t, Sequential)
    ensures FileIndex(t, i, p, j) == u
  {
    var k := Offsets(t, Sequential);
    Digits(u, t.segmentCount * t.numTasks, k);
    Digits(u / k, t.segmentCount, t.numTasks);
    i, p, j := u / k / t.numTasks, u / k % t.numTasks, u % k;
  }

  /** Every byte of the expected file is covered by its owner, within the owner's share of transfers. */
  lemma EveryByteCovered(t: Test, b: nat)
    requires Checked(t) && !t.filePerProc && Offsets(t, Sequential) > 0
    requires b < t.blockSize * t.segmentCount * t.numTasks
    ensures 0 <= Owner(t, b).0 < t.numTasks && 0 <= Owner(t, b).1 < TransfersPerRank(t)
    ensures Covers(t, Sequential, Owner(t, b).0, Owner(t, b).1, b)
  {
    hide *;
    ExpectedSize(t);
    TransfersPerBlock(t);
    PositiveSizes(t);
    var u, x := b / t.transferSize, b % t.transferSize;
    Digits(b, t.segmentCount * t.numTasks * Offsets(t, Sequential), t.transferSize);
    var i, p, j := FileIndexOf(t, u);
    OwnerOfAddress(t, i, p, j, x);
    NominalOfSequential(t, p, i, j);
    CoveredFrom(t, p, i * Offsets(t, Sequential) + j, b, u);
  }

  lemma PositiveSizes(t: Test)
    requires Checked(t)
    ensures t.transferSize > 0 && t.segmentCount > 0 && t.numTasks > 0
  {
  }

  lemma CoveredFrom(t: Test, p: nat, n: nat, b: nat, u: nat)
    requires Checked(t) && Offsets(t, Sequential) > 0 && u == b / t.transferSize
    requires Nominal(t, Sequential, p, n) == u * t.transferSize
    ensures Covers(t, Sequential, p, n, b)
  {
    hide Nominal, Offsets;
    assert b == u * t.transferSize + b % t.transferSize;
  }

  /** One file per rank: the transfers of a rank lie side by side and fill its file. */
  lemma OwnFileIsContiguous(t: Test, p: nat, n: nat)
    requires Checked(t) && t.filePerProc && Offsets(t, Sequential) > 0
    requires n < TransfersPerRank(t)
    ensures Nominal(t, Sequential, p, n) == n * t.transferSize
    ensures TransfersPerRank(t) * t.transferSize == t.segmentCount * t.blockSize
  {
    var k := t.blockSize / t.transferSize;
    TransfersPerBlock(t);
    Digits(n, t.segmentCount, k);
    DivModUnique(n / k, t.segmentCount, 0, n / k);
    assert n / k * (k * t.transferSize) == n / k * k * t.transferSize;
    assert n * t.transferSize == (n / k * k + n % k) * t.transferSize
           == n / k * k * t.transferSize + n % k * t.transferSize;
    assert t.segmentCount * k * t.transferSize == t.segmentCount * (k * t.transferSize);
  }
}
