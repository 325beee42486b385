/**
 Multi-part upload of one object by many ranks: every write is given a part
 number, and at close rank 0 orders the entity tags that all ranks collected.
 The two index computations are independent of each other and must agree.
 */
module S3Multipart {
  import opened Arithmetic
  import opened IorTrace

  const ETAG_SIZE := 32

  type ETag = e: seq<char> | |e| == 32 witness seq(32, _ => '0')

  // ------------------------------------------------------------ part numbers

  /** One segment: all parts of a rank are consecutive. */
  predicate Segmented(t: Test) {
    t.segmentCount == 1
  }

  /** The parameter check of the back-end: with several segments a block must be one transfer. */
  predicate ParamsOk(t: Test) {
    t.filePerProc || t.segmentCount == 1 || t.blockSize == t.transferSize
  }

  /** The number of a rank's write `k`. */
  function PartNumber(t: Test, rank: nat, k: nat): nat
    requires Checked(t)
  {
    if t.filePerProc then k
    else if Segmented(t) then rank * Offsets(t, Sequential) + k
    else k * t.numTasks + rank
  }

  /** The state that a rank keeps between its writes. */
  class Upload {
    const t: Test
    const rank: nat
    var partNumber: nat
    var etags: seq<char>
    // specification only: the number and the tag of every write so far
    ghost var parts: seq<nat>
    ghost var tags: seq<ETag>

    ghost predicate Valid()
      reads this
    {
      && Checked(t)
      && |parts| == |tags| == partNumber
      && etags == Text(tags)
      && forall k :: 0 <= k < |parts| ==> parts[k] == PartNumber(t, rank, k)
    }

    constructor (t: Test, rank: nat)
      requires Checked(t)
      ensures Valid() && this.t == t && this.rank == rank && tags == []
    {
      this.t, this.rank := t, rank;
      partNumber, etags, parts, tags := 0, [], [], [];
    }

    /** Numbers the next write and counts it. */
    method NextPart() returns (part: nat)
      requires Checked(t)
      modifies `partNumber
      ensures part == PartNumber(t, rank, old(partNumber)) && partNumber == old(partNumber) + 1
    {
      if !t.filePerProc {
        if t.segmentCount == 1 {
          var partsPerRank := t.blockSize / t.transferSize;
          part := rank * partsPerRank + partNumber;
        } else {
          part := partNumber * t.numTasks + rank;
        }
      } else {
        part := partNumber;
      }
      partNumber := partNumber + 1;
    }

    /**
     A write: the part is put under its number, and the tag the server answers
     with is appended without its quotes. Any other answer ends the process.
     */
    method Put(answer: seq<char>) returns (ok: bool, part: nat)
      requires Valid()
      modifies this
      ensures ok == (|answer| == ETAG_SIZE + 2)
      ensures part == PartNumber(t, rank, old(partNumber))
      ensures ok ==> Valid() && tags == old(tags) + [answer[1..|answer| - 1]] && parts == old(parts) + [part]
    {
      hide PartNumber, Text, Checked;
      part := NextPart();
      if |answer| != ETAG_SIZE + 2 {
        return false, part;
      }
      ghost var tag: ETag := answer[1..|answer| - 1];
      TextAppend(tags, tag);
      etags := etags + answer[1..|answer| - 1];
      tags := tags + [tag];
      parts := parts + [part];
      ok := true;
    }
  }

  // ---------------------------------------------------------------- the text

  /** Tags one after the other, without separators. */
  function Text(tags: seq<ETag>): (s: seq<char>)
    ensures |s| == |tags| * ETAG_SIZE
  {
    if tags == [] then [] else Text(tags[..|tags| - 1]) + tags[|tags| - 1]
  }

  lemma TextAppend(tags: seq<ETag>, tag: ETag)
    ensures Text(tags + [tag]) == Text(tags) + tag
  {
    assert (tags + [tag])[..|tags|] == tags;
  }

  lemma {:induction false} TagInText(tags: seq<ETag>, k: nat)
    requires k < |tags|
    ensures k * ETAG_SIZE + ETAG_SIZE <= |Text(tags)|
    ensures Text(tags)[k * ETAG_SIZE..k * ETAG_SIZE + ETAG_SIZE] == tags[k]
  {
    if k < |tags| - 1 {
      TagInText(tags[..|tags| - 1], k);
    }
  }

  /** The texts of all ranks, in rank order, as rank 0 gathers them. */
  function Gathered(tags: seq<seq<ETag>>): seq<char> {
    if tags == [] then [] else Gathered(tags[..|tags| - 1]) + Text(tags[|tags| - 1])
  }

  /** All ranks have collected the same number of tags; the close aborts if not. */
  predicate SameCount(tags: seq<seq<ETag>>, perRank: nat) {
    forall r :: 0 <= r < |tags| ==> |tags[r]| == perRank
  }

  lemma {:induction false} GatheredSize(tags: seq<seq<ETag>>, perRank: nat)
    requires SameCount(tags, perRank)
    ensures |Gathered(tags)| == |tags| * (perRank * ETAG_SIZE)
  {
    if tags != [] {
      GatheredSize(tags[..|tags| - 1], perRank);
      assert (|tags| - 1) * (perRank * ETAG_SIZE) + perRank * ETAG_SIZE == |tags| * (perRank * ETAG_SIZE);
    }
  }

  /** Where tag `k` of rank `r` lies in the gathered text. */
  lemma {:induction false} TagInGathered(tags: seq<seq<ETag>>, perRank: nat, r: nat, k: nat)
    requires SameCount(tags, perRank) && r < |tags| && k < perRank
    ensures var at := r * (perRank * ETAG_SIZE) + k * ETAG_SIZE;
            && 0 <= at && at + ETAG_SIZE <= |Gathered(tags)|
            && Gathered(tags)[at..at + ETAG_SIZE] == tags[r][k]
  {
    var at := r * (perRank * ETAG_SIZE) + k * ETAG_SIZE;
    var init, last := tags[..|tags| - 1], tags[|tags| - 1];
    GatheredSize(init, perRank);
    if r == |tags| - 1 {
      TagInText(last, k);
      SliceBehind(Gathered(init), Text(last), k * ETAG_SIZE, ETAG_SIZE);
    } else {
      TagInGathered(init, perRank, r, k);
      SliceBefore(Gathered(init), Text(last), at, ETAG_SIZE);
    }
  }

  lemma SliceBefore(a: seq<char>, b: seq<char>, at: nat, n: nat)
    requires at + n <= |a|
    ensures (a + b)[at..at + n] == a[at..at + n]
  {
  }

  lemma SliceBehind(a: seq<char>, b: seq<char>, at: nat, n: nat)
    requires at + n <= |b|
    ensures (a + b)[|a| + at..|a| + at + n] == b[at..at + n]
  {
  }

  // -------------------------------------------------------------- the close

  /** The rank and the write whose tag is written as entry `q` of the completion list. */
  function Entry(t: Test, perRank: nat, q: nat): (int, int)
    requires t.numTasks > 0 && perRank > 0
  {
    if Segmented(t) then (q / perRank, q % perRank) else (q % t.numTasks, q / t.numTasks)
  }

  /** A tag that belongs at place `q` of the completion list. */
  predicate InOrder(t: Test, tags: seq<seq<ETag>>, perRank: nat, tag: ETag, q: nat)
    requires t.numTasks > 0
  {
    perRank > 0 && var (r, k) := Entry(t, perRank, q);
    0 <= r < |tags| && 0 <= k < |tags[r]| && tag == tags[r][k]
  }

  /** The two loops: how far the outer and the inner one go, and what they move the pointer by. */
  function OuterCount(t: Test, perRank: nat): nat { if Segmented(t) then t.numTasks else perRank }
  function InnerCount(t: Test, perRank: nat): nat { if Segmented(t) then perRank else t.numTasks }
  function OuterUnit(t: Test, perRank: nat): nat { if Segmented(t) then perRank * ETAG_SIZE else ETAG_SIZE }
  function InnerUnit(t: Test, perRank: nat): nat { if Segmented(t) then ETAG_SIZE else perRank * ETAG_SIZE }

  /** In round (i, j) the pointer is at a tag that lies inside the text, and the tag belongs at the next place. */
  lemma TagAtPointer(t: Test, tags: seq<seq<ETag>>, perRank: nat, i: nat, j: nat)
    requires Checked(t) && |tags| == t.numTasks && SameCount(tags, perRank)
    requires i < OuterCount(t, perRank) && j < InnerCount(t, perRank)
    ensures var ptr := i * OuterUnit(t, perRank) + j * InnerUnit(t, perRank);
            && 0 <= ptr && ptr + ETAG_SIZE <= |Gathered(tags)|
            && 0 <= i * InnerCount(t, perRank) + j
            && InOrder(t, tags, perRank, Gathered(tags)[ptr..ptr + ETAG_SIZE], i * InnerCount(t, perRank) + j)
  {
    hide Gathered, Checked;
    var r, k := if Segmented(t) then i else j, if Segmented(t) then j else i;
    TagInGathered(tags, perRank, r, k);
    MulNonnegative(i, InnerCount(t, perRank));
    DivModUnique(i * InnerCount(t, perRank) + j, InnerCount(t, perRank), i, j);
  }

  /**
   Orders the gathered tags: the pointer starts at a multiple of the one unit and
   moves by the other. Every tag it reads lies inside the gathered text.
   */
  method OrderTags(t: Test, tags: seq<seq<ETag>>, perRank: nat) returns (list: seq<ETag>)
    requires Checked(t) && |tags| == t.numTasks && SameCount(tags, perRank)
    ensures |list| == OuterCount(t, perRank) * InnerCount(t, perRank)
    ensures forall q :: 0 <= q < |list| ==> InOrder(t, tags, perRank, list[q], q)
  {
    assert t.numTasks > 0;
    hide Gathered, Text, InOrder, OuterCount, InnerCount, OuterUnit, InnerUnit, Checked;
    var vec := Gathered(tags);
    list := [];
    for i := 0 to OuterCount(t, perRank)
      invariant |list| == i * InnerCount(t, perRank)
      invariant forall q :: 0 <= q < |list| ==> InOrder(t, tags, perRank, list[q], q)
    {
      var ptr := i * OuterUnit(t, perRank);
      for j := 0 to InnerCount(t, perRank)
        invariant ptr == i * OuterUnit(t, perRank) + j * InnerUnit(t, perRank)
        invariant |list| == i * InnerCount(t, perRank) + j
        invariant forall q :: 0 <= q < |list| ==> InOrder(t, tags, perRank, list[q], q)
      {
        TagAtPointer(t, tags, perRank, i, j);
        list := list + [vec[ptr..ptr + ETAG_SIZE]];
        NextMultiple(j, InnerUnit(t, perRank));
        ptr := ptr + InnerUnit(t, perRank);
      }
      NextMultiple(i, InnerCount(t, perRank));
    }
  }

  /** The close at rank 0: it is aborted if the ranks do not all have the same number of tags. */
  method Close(t: Test, tags: seq<seq<ETag>>) returns (ok: bool, list: seq<ETag>)
    requires Checked(t) && |tags| == t.numTasks
    ensures ok == SameCount(tags, |tags[0]|)
    ensures ok ==> |list| == OuterCount(t, |tags[0]|) * InnerCount(t, |tags[0]|)
    ensures ok ==> forall q :: 0 <= q < |list| ==> InOrder(t, tags, |tags[0]|, list[q], q)
  {
    list := [];
    ok := true;
    for r := 0 to |tags|
      invariant ok == forall s :: 0 <= s < r ==> |tags[s]| == |tags[0]|
    {
      ok := ok && |tags[r]| == |tags[0]|;
    }
    if ok {
      list := OrderTags(t, tags, |tags[0]|);
    }
  }

  lemma NextMultiple(j: nat, unit: nat)
    ensures (j + 1) * unit == j * unit + unit
  {
  }

  // ---------------------------------------------------------------- agreement

  /** With several segments, entry `q` is always the tag of the write that was given number `q`. */
  lemma StridedPartsAgree(t: Test, perRank: nat, q: nat)
    requires Checked(t) && !t.filePerProc && !Segmented(t)
    requires perRank > 0 && q < t.numTasks * perRank
    ensures var (r, k) := Entry(t, perRank, q); 0 <= r < t.numTasks && 0 <= k < perRank && PartNumber(t, r, k) == q
  {
    assert q < perRank * t.numTasks;
    Digits(q, perRank, t.numTasks);
  }

  /**
   With one segment the entries agree with the part numbers if and only if every
   rank wrote its whole block, or there is only one rank. A stonewalled write
   leaves equally many, but fewer parts per rank, and then they do not agree.
   */
  lemma SegmentedPartsAgreeIff(t: Test, perRank: nat)
    requires Checked(t) && !t.filePerProc && Segmented(t)
    requires 0 < perRank <= Offsets(t, Sequential)
    ensures (forall q :: 0 <= q < t.numTasks * perRank ==> EntryAgrees(t, perRank, q))
            <==> perRank == Offsets(t, Sequential) || t.numTasks == 1
  {
    forall q | 0 <= q < t.numTasks * perRank
      ensures EntryAgrees(t, perRank, q) <==> q / perRank * Offsets(t, Sequential) == q / perRank * perRank
    {
      Digits(q, t.numTasks, perRank);
    }
    if t.numTasks == 1 {
      forall q | 0 <= q < t.numTasks * perRank ensures EntryAgrees(t, perRank, q) {
        Digits(q, 1, perRank);
      }
    } else if perRank != Offsets(t, Sequential) {
      DivModUnique(perRank, perRank, 1, 0);
      DigitsBelow(1, t.numTasks, 0, perRank);
      assert !EntryAgrees(t, perRank, perRank);
    }
  }

  predicate EntryAgrees(t: Test, perRank: nat, q: nat)
    requires Checked(t) && perRank > 0
  {
    var (r, k) := Entry(t, perRank, q);
    0 <= r && 0 <= k && PartNumber(t, r, k) == q
  }

  /** Part numbers are a bijection onto [0, numTasks * perRank): each number has one rank and one write. */
  lemma PartNumbersAreUnique(t: Test, r: nat, k: nat, perRank: nat)
    requires Checked(t) && !t.filePerProc && r < t.numTasks && k < perRank
    requires Segmented(t) ==> perRank == Offsets(t, Sequential)
    ensures 0 <= PartNumber(t, r, k) < t.numTasks * perRank
    ensures Entry(t, perRank, PartNumber(t, r, k)) == (r, k)
  {
    if Segmented(t) {
      DivModUnique(r * perRank + k, perRank, r, k);
      DigitsBelow(r, t.numTasks, k, perRank);
    } else {
      DivModUnique(k * t.numTasks + r, t.numTasks, k, r);
      DigitsBelow(k, perRank, r, t.numTasks);
    }
  }

  // ----------------------------------------------------- the object it makes

  type Byte = b: nat | b < 256

  /** The bytes of the parts, in the order of their numbers. */
  function Concatenated(parts: seq<seq<Byte>>): seq<Byte> {
    if parts == [] then [] else Concatenated(parts[..|parts| - 1]) + parts[|parts| - 1]
  }

  lemma {:induction false} ConcatenatedAt(parts: seq<seq<Byte>>, size: nat, q: nat, x: nat)
    requires forall i :: 0 <= i < |parts| ==> |parts[i]| == size
    ensures |Concatenated(parts)| == |parts| * size
    ensures q < |parts| && x < size ==>
              0 <= q * size + x < |Concatenated(parts)| && Concatenated(parts)[q * size + x] == parts[q][x]
  {
    if parts != [] {
      ConcatenatedAt(parts[..|parts| - 1], size, q, x);
      assert (|parts| - 1) * size + size == |parts| * size;
    }
  }

  /** A part number counts the transfers before the write's offset: that is what the parameter check is for. */
  lemma PartNumberIsPlace(t: Test, r: nat, k: nat)
    requires Checked(t) && !t.filePerProc && ParamsOk(t) && Offsets(t, Sequential) > 0
    requires r < t.numTasks && k < TransfersPerRank(t)
    ensures Nominal(t, Sequential, r, k) == PartNumber(t, r, k) * t.transferSize
  {
    var m := t.blockSize / t.transferSize;
    TransfersPerBlock(t);
    Digits(k, t.segmentCount, m);
    NominalOfSequential(t, r, k / m, k % m);
    if Segmented(t) {
      DivModUnique(k, m, 0, k);
    } else {
      DivModUnique(t.blockSize, t.transferSize, 1, 0);
    }
  }

  /** Without the check the places are wrong already for the first write of rank 1. */
  lemma UncheckedPartsAreMisplaced(t: Test)
    requires Checked(t) && !ParamsOk(t) && Offsets(t, Sequential) > 0 && t.numTasks > 1
    ensures Nominal(t, Sequential, 1, 0) != PartNumber(t, 1, 0) * t.transferSize
  {
    TransfersPerBlock(t);
    NominalOfSequential(t, 1, 0, 0);
  }

  /**
   The object that the parts make, in the order of the completion list, is byte
   for byte the file that writing every transfer at its offset gives.
   */
  lemma ObjectIsFile(t: Test, data: (nat, nat) -> seq<Byte>, parts: seq<seq<Byte>>, r: nat, k: nat, x: nat)
    requires Checked(t) && !t.filePerProc && ParamsOk(t) && Offsets(t, Sequential) > 0
    requires forall r, k :: 0 <= r < t.numTasks && 0 <= k < TransfersPerRank(t) ==> |data(r, k)| == t.transferSize
    requires |parts| == t.numTasks * TransfersPerRank(t)
    requires forall q :: 0 <= q < |parts| ==>
               var (r, k) := Entry(t, TransfersPerRank(t), q);
               0 <= r < t.numTasks && 0 <= k < TransfersPerRank(t) && parts[q] == data(r, k)
    requires r < t.numTasks && k < TransfersPerRank(t) && x < t.transferSize
    ensures |Concatenated(parts)| == t.blockSize * t.segmentCount * t.numTasks
    ensures var o := Nominal(t, Sequential, r, k) + x;
            0 <= o < |Concatenated(parts)| && Concatenated(parts)[o] == data(r, k)[x]
  {
    hide Nominal, PartNumber, Entry, Concatenated;
    if Segmented(t) {
      OneSegmentIsOneBlock(t);
    }
    PartNumbersAreUnique(t, r, k, TransfersPerRank(t));
    PartNumberIsPlace(t, r, k);
    ObjectSize(t);
    hide Checked, TransfersPerRank, Offsets, ParamsOk;
    ConcatenatedAt(parts, t.transferSize, PartNumber(t, r, k), x);
  }

  lemma OneSegmentIsOneBlock(t: Test)
    requires Checked(t) && Segmented(t)
    ensures TransfersPerRank(t) == Offsets(t, Sequential)
  {
  }

  lemma ObjectSize(t: Test)
    requires Checked(t)
    ensures t.numTasks * TransfersPerRank(t) * t.transferSize == t.blockSize * t.segmentCount * t.numTasks
  {
    ExpectedSize(t);
    var m := t.blockSize / t.transferSize;
    assert t.numTasks * (t.segmentCount * m) == t.segmentCount * t.numTasks * m;
  }
}
