/** Reading as another rank: the rank offsets, and why every rank is acted as exactly once. */
module IorReadBack {
  import opened Arithmetic
  import opened Sequences
  import opened IorRandomOffsets

  /** The rank that a rank acts as. */
  function PretendRank(rank: nat, rankOffset: int, numTasks: nat): int
    requires numTasks > 0
  {
    (rank + rankOffset) % numTasks
  }

  // ---------------------------------------------------------- constant shift

  /** The constant offset: nodes to move away, times the distance of a node's tasks. */
  function ConstantRankOffset(nodes: nat, shift: nat, numTasks: nat): (o: nat)
    requires numTasks > 0
    ensures o < numTasks
  {
    nodes * shift % numTasks
  }

  function Rotation(nodes: nat, shift: nat, numTasks: nat): (p: seq<nat>)
    requires numTasks > 0
    ensures |p| == numTasks
  {
    seq(numTasks, (r: nat) => PretendRank(r, ConstantRankOffset(nodes, shift, numTasks), numTasks))
  }

  lemma PretendRankBack(r: nat, o: nat, numTasks: nat)
    requires r < numTasks
    ensures 0 <= PretendRank(r, o, numTasks) < numTasks
    ensures (PretendRank(r, o, numTasks) - o) % numTasks == r
  {
    ModInverse(r, o, numTasks);
  }

  /** Under a constant offset every rank's data is read by exactly one rank. */
  lemma RotationIsPermutation(nodes: nat, shift: nat, numTasks: nat)
    requires numTasks > 0
    ensures Permutation(Rotation(nodes, shift, numTasks), numTasks)
  {
    hide ConstantRankOffset, PretendRank;
    var p, o := Rotation(nodes, shift, numTasks), ConstantRankOffset(nodes, shift, numTasks);
    forall r | 0 <= r < numTasks ensures p[r] < numTasks && (p[r] - o) % numTasks == r {
      PretendRankBack(r, o, numTasks);
    }
  }

  /** Whose data is read: that of the rank so many ranks on, which is one's own only for a multiple of all ranks. */
  lemma RotationReads(nodes: nat, shift: nat, numTasks: nat, r: nat)
    requires r < numTasks
    ensures Rotation(nodes, shift, numTasks)[r] == (r + nodes * shift) % numTasks
    ensures Rotation(nodes, shift, numTasks)[r] == r <==> nodes * shift % numTasks == 0
  {
    var d := nodes * shift;
    var q, m := d / numTasks, d % numTasks;
    assert r + d == r + m + q * numTasks;
    ModOfShift(r + m, numTasks, q);
    if r + m < numTasks {
      DivModUnique(r + m, numTasks, 0, r + m);
    } else {
      DivModUnique(r + m, numTasks, 1, r + m - numTasks);
    }
  }

  /** With the tasks of a node next to each other, the writer is the task with the same place, so many nodes on. */
  lemma RotationByBlocks(nodes: nat, perNode: nat, numNodes: nat, r: nat)
    requires r < numNodes * perNode && perNode > 0 && numNodes > 0
    ensures var p := Rotation(nodes, perNode, numNodes * perNode)[r];
            p / perNode == (r / perNode + nodes) % numNodes && p % perNode == r % perNode
  {
    hide Rotation;
    RotationReads(nodes, perNode, numNodes * perNode, r);
    UpperDigit(r, nodes, numNodes, perNode);
    var i, j := (r / perNode + nodes) % numNodes, r % perNode;
    DivModUnique(i * perNode + j, perNode, i, j);
  }

  /** With the tasks dealt out to the nodes in turn, the writer is so many nodes on. */
  lemma RotationInTurn(nodes: nat, perNode: nat, numNodes: nat, r: nat)
    requires r < perNode * numNodes && numNodes > 0 && perNode > 0
    ensures Rotation(nodes, 1, perNode * numNodes)[r] % numNodes == (r % numNodes + nodes) % numNodes
  {
    hide Rotation;
    RotationReads(nodes, 1, perNode * numNodes, r);
    assert nodes * 1 == nodes;
    ModOfMultiple(r + nodes, perNode, numNodes);
    ModOfShift(r % numNodes + nodes, numNodes, r / numNodes);
    assert r + nodes == r % numNodes + nodes + r / numNodes * numNodes;
  }

  // ----------------------------------------------------------------- shuffle

  /** The ranks after the first `n` steps of shuffling: step `i` picks among those from `i` on. */
  function Shuffled(rnd: nat -> nat, size: nat, n: nat): (p: seq<nat>)
    requires n <= size
    ensures |p| == size && multiset(p) == multiset(Upto(size))
  {
    if n == 0 then Upto(size)
    else
      hide Pick, Swap, Upto;
      Swap(Shuffled(rnd, size, n - 1), (n - 1) + Pick(rnd, n - 1, size - (n - 1)), n - 1)
  }

  method Shuffle(rnd: nat -> nat, numTasks: nat) returns (rankOffsets: array<nat>)
    ensures fresh(rankOffsets) && rankOffsets[..] == Shuffled(rnd, numTasks, numTasks)
  {
    hide Pick, Swap;
    rankOffsets := new nat[numTasks](i => i);
    assert rankOffsets[..] == Upto(numTasks);
    for i := 0 to numTasks
      invariant rankOffsets[..] == Shuffled(rnd, numTasks, i)
    {
      var tgt := i + Pick(rnd, i, numTasks - i);
      SwapAt(rankOffsets, tgt, i);
    }
  }

  /**
   Under the shuffle every rank's data is read by exactly one rank: the stored
   offset is relative to the rank, and adding the rank gives back the entry.
   */
  lemma ShuffleIsPermutation(rnd: nat -> nat, numTasks: nat)
    requires numTasks > 0
    ensures Permutation(Shuffled(rnd, numTasks, numTasks), numTasks)
    ensures forall r :: 0 <= r < numTasks ==>
              var p := Shuffled(rnd, numTasks, numTasks);
              PretendRank(r, p[r] - r, numTasks) == p[r]
  {
    var p := Shuffled(rnd, numTasks, numTasks);
    RearrangedIsPermutation(p, numTasks);
    forall r | 0 <= r < numTasks ensures PretendRank(r, p[r] - r, numTasks) == p[r] {
      assert r + (p[r] - r) == p[r];
      DivModUnique(p[r], numTasks, 0, p[r]);
    }
  }

  // ------------------------------------------------------ every order is drawn

  /** The place that step `i` picks. */
  function Target(rnd: nat -> nat, size: nat, i: nat): (j: nat)
    requires i < size
    ensures i <= j < size
  {
    i + Pick(rnd, i, size - i)
  }

  function Targets(rnd: nat -> nat, size: nat, n: nat): (targets: seq<nat>)
    requires n <= size
    ensures |targets| == n && forall i :: 0 <= i < n ==> targets[i] == Target(rnd, size, i)
  {
    seq<nat>(n, (i: nat) requires i < n => Target(rnd, size, i))
  }

  lemma {:induction false} ShuffledBySwaps(rnd: nat -> nat, size: nat, n: nat)
    requires n <= size
    ensures AllOpen(true, size, Targets(rnd, size, n)) && |Upto(size)| == size
    ensures Shuffled(rnd, size, n) == Swaps(true, Upto(size), Targets(rnd, size, n))
  {
    hide Pick, Swap;
    if n > 0 {
      ShuffledBySwaps(rnd, size, n - 1);
      assert Targets(rnd, size, n)[..n - 1] == Targets(rnd, size, n - 1);
    }
  }

  /**
   Every assignment of readers to writers can come out of the shuffle: there are
   numbers with which it ends in exactly the given order.
   */
  lemma EveryOrderIsShuffled(p: seq<nat>, n: nat) returns (rnd: nat -> nat)
    requires Permutation(p, n)
    ensures Shuffled(rnd, n, n) == p
  {
    hide Swaps, Shuffled;
    UptoIsDistinct(p, n);
    var targets := EveryOrderIsReached(true, Upto(n), p);
    rnd := (i: nat) => if i < |targets| && targets[i] >= i then targets[i] - i else 0;
    forall i | 0 <= i < n ensures Targets(rnd, n, n)[i] == targets[i] {
      DivModUnique(targets[i] - i, n - i, 0, targets[i] - i);
    }
    assert Targets(rnd, n, n) == targets;
    ShuffledBySwaps(rnd, n, n);
  }

  /** Two streams of numbers end in the same order if and only if they pick the same target in every step. */
  lemma SameShuffleIff(a: nat -> nat, b: nat -> nat, n: nat)
    ensures Shuffled(a, n, n) == Shuffled(b, n, n)
            <==> forall i :: 0 <= i < n ==> Target(a, n, i) == Target(b, n, i)
  {
    hide Swaps, Shuffled, Target, AllOpen;
    ShuffledBySwaps(a, n, n);
    ShuffledBySwaps(b, n, n);
    SameOrderIff(true, Upto(n), Targets(a, n, n), Targets(b, n, n));
    if forall i :: 0 <= i < n ==> Target(a, n, i) == Target(b, n, i) {
      assert Targets(a, n, n) == Targets(b, n, n);
    } else {
      var i :| 0 <= i < n && Target(a, n, i) != Target(b, n, i);
      assert Targets(a, n, n)[i] != Targets(b, n, n)[i];
    }
  }
}
