/**
 Random blocks without repetition: an arbitrary block count is split by its set
 bits into sub-ranges, each walked by its own shift register, and every call
 picks one sub-range weighted by what it has left. When all blocks are used up
 the next call starts a new permutation.

 The 64-bit generator that seeds the registers and makes the choices is an
 arbitrary source of words: a `Choice` holds what one call draws from it.
 */
module LfsrRange {
  import opened Sequences
  import opened Lfsr
  import opened LfsrWidths

  /** One more than the largest 64-bit word. */
  const U64 := Pow2(MAX_BITS + 1)

  /** A sub-range: its register and the state of it, where it starts, how many blocks it still holds. */
  datatype Element = Element(reg: Register, state: nat, base: nat, remaining: nat) {
    function Size(): nat { Pow2(reg.bits) }
  }

  // ---------------------------------------------------------- one sub-range

  /** The register states that the element is going to return before the final zero. */
  ghost function Ahead(e: Element): seq<nat>
    requires WellFormed(e)
  {
    if e.remaining == 0 || e.reg.bits < 2 then []
    else Orbit(e.reg, e.state, e.remaining - 1)
  }

  ghost predicate Sound(e: Element) {
    && e.remaining <= e.Size()
    && (e.reg.bits < 2 ==> e.remaining <= 2 && (e.remaining == 2 ==> e.state == 1))
    && WellFormed(e)
    && (e.reg.bits >= 2 ==> 0 < e.state)
    && NoDuplicates(Ahead(e))
  }

  /** The offsets within the sub-range that the element has still to return. */
  ghost function Left(e: Element): set<nat>
    requires Sound(e)
  {
    if e.remaining == 0 then {}
    else if e.reg.bits < 2 then Range(0, e.remaining)
    else Members(Ahead(e)) + {0}
  }

  predicate WellFormed(e: Element) {
    e.reg.bits >= 2 ==> Usable(e.reg) && e.state < e.Size()
  }

  function Output(e: Element): nat {
    if e.remaining == 1 then e.base else e.base + e.state
  }

  /** The element after it has returned a block. */
  function Advance(e: Element): Element
    requires WellFormed(e)
    requires 0 < e.remaining
  {
    var spent := e.(remaining := e.remaining - 1);
    if e.remaining == 1 || e.reg.bits < 2 then spent else spent.(state := Step(e.reg, e.state))
  }

  lemma AheadBounds(e: Element)
    requires Sound(e) && e.reg.bits >= 2 && e.remaining > 0
    ensures Members(Ahead(e)) <= Range(1, e.Size())
    ensures |Members(Ahead(e))| == e.remaining - 1
  {
    hide Orbit, Usable, NoDuplicates, Members;
    OrbitInRange(e.reg, e.state, e.remaining - 1);
    SizeOfDistinct(Ahead(e));
  }

  lemma LeftBounds(e: Element)
    requires Sound(e)
    ensures WellFormed(e)
    ensures forall v :: v in Left(e) ==> v < e.Size()
    ensures |Left(e)| == e.remaining
  {
    hide Orbit, Ahead, Usable, NoDuplicates, Members;
    if e.reg.bits >= 2 && e.remaining > 0 {
      AheadBounds(e);
      assert 0 !in Members(Ahead(e));
    } else if e.remaining == 2 {
      assert e.reg.bits != 0;
    }
  }

  /** Stepping the register drops the first of the states ahead. */
  lemma AdvanceWide(e: Element)
    requires Sound(e)
    requires 1 < e.remaining && 2 <= e.reg.bits
    ensures Sound(Advance(e))
    ensures Ahead(e) == [e.state] + Ahead(Advance(e))
  {
    ZeroIsIsolated(e.reg, e.state);
    var s, o := Step(e.reg, e.state), Ahead(e);
    forall i | 0 <= i < e.remaining - 2 ensures Iter(e.reg, s, i) == o[i + 1] {
      IterPlus(e.reg, e.state, 1, i);
      assert Iter(e.reg, e.state, 1) == s;
    }
    assert Ahead(Advance(e)) == o[1..];
  }

  lemma MembersOfCons(x: nat, s: seq<nat>)
    requires NoDuplicates([x] + s)
    ensures Members([x] + s) - {x} == Members(s)
  {
    var t := [x] + s;
    assert t[0] == x && forall i :: 0 <= i < |s| ==> t[i + 1] == s[i];
    assert x !in s;
  }

  /** An element returns one of the offsets it has left, and keeps all the others. */
  lemma AdvanceRemoves(e: Element)
    requires Sound(e)
    requires 0 < e.remaining
    ensures Sound(Advance(e)) && Advance(e).base == e.base
    ensures Output(e) >= e.base && Output(e) - e.base in Left(e)
    ensures Left(Advance(e)) == Left(e) - {Output(e) - e.base}
  {
    if e.reg.bits < 2 {
    } else if e.remaining == 1 {
      assert Ahead(e) == [];
    } else {
      AdvanceWide(e);
      MembersOfCons(e.state, Ahead(Advance(e)));
      assert e.state in Ahead(e);
    }
  }

  // --------------------------------------------------------- all sub-ranges

  /** The sub-ranges lie next to each other, the first one starting at `lo`. */
  ghost predicate Tiled(elems: seq<Element>, lo: nat) {
    elems != [] ==> elems[0].base == lo && Tiled(elems[1..], lo + elems[0].Size())
  }

  function Span(elems: seq<Element>): nat {
    if elems == [] then 0 else elems[0].Size() + Span(elems[1..])
  }

  function TotalLeft(elems: seq<Element>): nat {
    if elems == [] then 0 else elems[0].remaining + TotalLeft(elems[1..])
  }

  ghost predicate AllSound(elems: seq<Element>) {
    forall i :: 0 <= i < |elems| ==> Sound(elems[i])
  }

  ghost function Shift(s: set<nat>, d: nat): (t: set<nat>)
    ensures forall x :: x in t <==> d <= x && x - d in s
  {
    set v | v in s :: d + v
  }

  lemma {:induction false} ShiftSize(s: set<nat>, d: nat)
    ensures |Shift(s, d)| == |s|
  {
    if s != {} {
      var v :| v in s;
      ShiftSize(s - {v}, d);
      assert Shift(s, d) == Shift(s - {v}, d) + {d + v};
    } else {
      assert Shift(s, d) == {};
    }
  }

  /** The blocks that have not been returned since the last start. */
  ghost function Pending(elems: seq<Element>): set<nat>
    requires AllSound(elems)
  {
    if elems == [] then {} else Shift(Left(elems[0]), elems[0].base) + Pending(elems[1..])
  }

  lemma {:induction false} PendingBounds(elems: seq<Element>, lo: nat)
    requires AllSound(elems) && Tiled(elems, lo)
    ensures forall x :: x in Pending(elems) ==> lo <= x < lo + Span(elems)
    ensures |Pending(elems)| == TotalLeft(elems)
  {
    hide Left, Sound, Ahead;
    if elems != [] {
      LeftBounds(elems[0]);
      ShiftSize(Left(elems[0]), lo);
      PendingBounds(elems[1..], lo + elems[0].Size());
      assert Shift(Left(elems[0]), lo) !! Pending(elems[1..]);
    }
  }

  /** The weighted choice: walk along the elements, using up `r` by what each has left. */
  function Select(elems: seq<Element>, r: nat): (x: nat)
    requires r < TotalLeft(elems)
    ensures x < |elems| && 0 < elems[x].remaining
  {
    if r < elems[0].remaining then 0 else 1 + Select(elems[1..], r - elems[0].remaining)
  }

  /** A sub-range is chosen for exactly as many draws as it has blocks left: those behind its predecessors'. */
  lemma {:induction false} SelectIsWeighted(elems: seq<Element>, r: nat, x: nat)
    requires r < TotalLeft(elems) && x < |elems|
    ensures Select(elems, r) == x
            <==> TotalLeft(elems[..x]) <= r < TotalLeft(elems[..x]) + elems[x].remaining
  {
    if x == 0 {
      assert TotalLeft(elems[..0]) == 0;
    } else {
      assert elems[..x][1..] == elems[1..][..x - 1];
      if r >= elems[0].remaining {
        SelectIsWeighted(elems[1..], r - elems[0].remaining, x - 1);
      }
    }
  }

  lemma {:induction false} AdvanceKeepsLayout(elems: seq<Element>, lo: nat, x: nat)
    requires AllSound(elems) && Tiled(elems, lo)
    requires x < |elems| && 0 < elems[x].remaining
    ensures WellFormed(elems[x])
    ensures var next := elems[x := Advance(elems[x])];
            && AllSound(next) && Tiled(next, lo)
            && Span(next) == Span(elems)
            && TotalLeft(next) == TotalLeft(elems) - 1
  {
    hide Sound, WellFormed;
    LeftBounds(elems[x]);
    AdvanceRemoves(elems[x]);
    var next := elems[x := Advance(elems[x])];
    if x == 0 {
      assert next[1..] == elems[1..];
    } else {
      AdvanceKeepsLayout(elems[1..], lo + elems[0].Size(), x - 1);
      assert next[1..] == elems[1..][x - 1 := Advance(elems[x])];
    }
  }

  lemma HeadAndTailDisjoint(elems: seq<Element>, lo: nat)
    requires AllSound(elems) && Tiled(elems, lo) && elems != []
    ensures Shift(Left(elems[0]), elems[0].base) !! Pending(elems[1..])
  {
    hide Left, Sound;
    LeftBounds(elems[0]);
    PendingBounds(elems[1..], lo + elems[0].Size());
  }

  /** Taking a block from any element that has one removes exactly that block from the pending set. */
  lemma {:induction false} AdvanceOneRemoves(elems: seq<Element>, lo: nat, x: nat)
    requires AllSound(elems) && Tiled(elems, lo)
    requires x < |elems| && 0 < elems[x].remaining
    requires WellFormed(elems[x]) && AllSound(elems[x := Advance(elems[x])])
    ensures Output(elems[x]) in Pending(elems)
    ensures Pending(elems[x := Advance(elems[x])]) == Pending(elems) - {Output(elems[x])}
  {
    hide Left, Sound, Output, WellFormed, Advance;
    var e, tail := elems[0], elems[1..];
    var next := elems[x := Advance(elems[x])];
    AdvanceRemoves(elems[x]);
    HeadAndTailDisjoint(elems, lo);
    if x == 0 {
      assert next[1..] == tail;
      assert Shift(Left(next[0]), e.base) == Shift(Left(e), e.base) - {Output(e)};
    } else {
      assert next[0] == e && next[1..] == tail[x - 1 := Advance(tail[x - 1])];
      assert AllSound(next[1..]);
      AdvanceOneRemoves(tail, lo + e.Size(), x - 1);
    }
  }

  // ------------------------------------------------------------- whole runs

  datatype State = State(elems: seq<Element>, blocks: nat, remaining: nat)

  /** What one call draws: the selection, and the sub-ranges of a restart if one is due. */
  datatype Choice = Choice(refill: seq<Element>, r: nat)

  /**
   The sub-ranges as they are set up: one for each set bit of `blocks`, from the
   lowest to the highest, side by side from 0, full, seeded with any odd word
   masked to the width.
   */
  ghost predicate Fresh(elems: seq<Element>, blocks: nat) {
    && Tiled(elems, 0)
    && Span(elems) == blocks
    && (forall i :: 0 <= i < |elems| ==> FreshElement(elems[i], blocks))
    && forall i, j :: 0 <= i < j < |elems| ==> elems[i].reg.bits < elems[j].reg.bits
  }

  ghost predicate FreshElement(e: Element, blocks: nat) {
    && e.reg.bits <= MAX_BITS
    && e.reg == RegisterOf(e.reg.bits)
    && Bit(blocks, e.reg.bits) == 1
    && e.remaining == e.Size()
    && e.state < e.Size()
    && (e.reg.bits > 0 ==> e.state % 2 == 1)
  }

  /** The hypothesis of the main theorem: the taps of the widths in use are maximal. */
  ghost predicate WidthsAreMaximal(blocks: nat) {
    forall bits :: 2 <= bits <= MAX_BITS && Bit(blocks, bits) == 1
      ==> Usable(RegisterOf(bits)) && Maximal(RegisterOf(bits))
  }

  lemma FreshIsSound(e: Element, blocks: nat)
    requires FreshElement(e, blocks) && WidthsAreMaximal(blocks)
    ensures Sound(e)
  {
    hide Taps, Maximal, Orbit, Usable;
    if e.reg.bits >= 2 {
      assert Usable(RegisterOf(e.reg.bits));
      MaximalFromAnySeed(e.reg, e.state);
    } else if e.reg.bits == 1 {
      assert Pow2(1) == 2;
    } else {
      assert Pow2(0) == 1;
    }
  }

  lemma {:induction false} FreshTotal(elems: seq<Element>)
    requires forall i :: 0 <= i < |elems| ==> elems[i].remaining == elems[i].Size()
    ensures TotalLeft(elems) == Span(elems)
  {
    if elems != [] {
      FreshTotal(elems[1..]);
    }
  }

  /** After a start every block of [0, blocks) is pending. */
  lemma FreshIsFull(elems: seq<Element>, blocks: nat)
    requires Fresh(elems, blocks) && WidthsAreMaximal(blocks)
    ensures AllSound(elems)
    ensures TotalLeft(elems) == blocks
    ensures Pending(elems) == Range(0, blocks)
  {
    hide Sound, WidthsAreMaximal;
    forall i | 0 <= i < |elems| ensures Sound(elems[i]) {
      FreshIsSound(elems[i], blocks);
    }
    FreshTotal(elems);
    PendingBounds(elems, 0);
    SubsetSize(Pending(elems), Range(0, blocks));
  }

  ghost predicate Valid(st: State) {
    && AllSound(st.elems)
    && Tiled(st.elems, 0)
    && Span(st.elems) == st.blocks
    && TotalLeft(st.elems) == st.remaining
  }

  /** The state in which the block is chosen: restarted if nothing was left. */
  function Restarted(st: State, c: Choice): State {
    if st.remaining == 0 then State(c.refill, st.blocks, st.blocks) else st
  }

  ghost predicate Admissible(st: State, c: Choice) {
    && (st.remaining == 0 ==> Fresh(c.refill, st.blocks))
    && TotalLeft(Restarted(st, c).elems) == Restarted(st, c).remaining
    && (forall i :: 0 <= i < |Restarted(st, c).elems| ==> WellFormed(Restarted(st, c).elems[i]))
    && c.r < Restarted(st, c).remaining
  }

  ghost function Next(st: State, c: Choice): (r: (State, nat))
    requires Admissible(st, c)
  {
    var s := Restarted(st, c);
    var x := Select(s.elems, c.r);
    (State(s.elems[x := Advance(s.elems[x])], s.blocks, s.remaining - 1), Output(s.elems[x]))
  }

  ghost predicate Run(st: State, cs: seq<Choice>)
    decreases |cs|
  {
    cs != [] ==> Admissible(st, cs[0]) && Run(Next(st, cs[0]).0, cs[1..])
  }

  /** The blocks returned by a run of calls. */
  ghost function Outputs(st: State, cs: seq<Choice>): (o: seq<nat>)
    requires Run(st, cs)
    ensures |o| == |cs|
    decreases |cs|
  {
    if cs == [] then [] else [Next(st, cs[0]).1] + Outputs(Next(st, cs[0]).0, cs[1..])
  }

  ghost function After(st: State, cs: seq<Choice>): State
    requires Run(st, cs)
    decreases |cs|
  {
    if cs == [] then st else After(Next(st, cs[0]).0, cs[1..])
  }

  /** A call that needs no restart returns a pending block and leaves all others pending. */
  lemma NextRemoves(st: State, c: Choice)
    requires Valid(st) && Admissible(st, c) && st.remaining > 0
    ensures var (next, v) := Next(st, c);
            && Valid(next)
            && next.blocks == st.blocks && next.remaining == st.remaining - 1
            && v in Pending(st.elems)
            && Pending(next.elems) == Pending(st.elems) - {v}
  {
    AdvanceKeepsLayout(st.elems, 0, Select(st.elems, c.r));
    AdvanceOneRemoves(st.elems, 0, Select(st.elems, c.r));
  }

  /** As many calls as blocks are left return each pending block exactly once. */
  lemma {:induction false} DrainReturnsPending(st: State, cs: seq<Choice>)
    requires Valid(st) && Run(st, cs)
    requires |cs| == st.remaining
    ensures NoDuplicates(Outputs(st, cs))
    ensures Members(Outputs(st, cs)) == Pending(st.elems)
    ensures After(st, cs).remaining == 0 && After(st, cs).blocks == st.blocks
    decreases |cs|
  {
    hide Admissible, Next, NoDuplicates, Sound, Span, TotalLeft;
    if cs == [] {
      PendingBounds(st.elems, 0);
      assert Outputs(st, cs) == [];
      assert NoDuplicates<nat>([]) by { DistinctNil(); }
    } else {
      var (next, v) := Next(st, cs[0]);
      NextRemoves(st, cs[0]);
      DrainReturnsPending(next, cs[1..]);
      DistinctCons(v, Outputs(next, cs[1..]));
    }
  }

  lemma DistinctNil()
    ensures NoDuplicates<nat>([])
  {
  }

  lemma DistinctCons(v: nat, s: seq<nat>)
    requires v !in Members(s) && NoDuplicates(s)
    ensures NoDuplicates([v] + s) && Members([v] + s) == {v} + Members(s)
  {
    assert forall i :: 0 <= i < |s| ==> s[i] in Members(s);
  }

  /** At an initialisation, or just before a restart. */
  ghost predicate AtStart(st: State) {
    st.remaining == 0 || (Fresh(st.elems, st.blocks) && st.remaining == st.blocks)
  }

  /** Replacing an empty state by what it restarts with does not change the run. */
  lemma RestartIsTransparent(st: State, cs: seq<Choice>)
    requires cs != [] && Run(st, cs)
    ensures Run(Restarted(st, cs[0]), cs)
    ensures Outputs(Restarted(st, cs[0]), cs) == Outputs(st, cs)
    ensures After(Restarted(st, cs[0]), cs) == After(st, cs)
  {
    hide Fresh, WellFormed, TotalLeft, Select, Output, Advance;
    assert Next(Restarted(st, cs[0]), cs[0]) == Next(st, cs[0]);
  }

  /** From a start, `blocks` calls return every block of [0, blocks) exactly once, and end at a start. */
  lemma GroupIsPermutation(st: State, cs: seq<Choice>)
    requires st.blocks > 0 && WidthsAreMaximal(st.blocks)
    requires AtStart(st) && Run(st, cs) && |cs| == st.blocks
    ensures Permutation(Outputs(st, cs), st.blocks)
    ensures AtStart(After(st, cs)) && After(st, cs).blocks == st.blocks
  {
    hide WidthsAreMaximal;
    var s := Restarted(st, cs[0]);
    FreshIsFull(s.elems, s.blocks);
    RestartIsTransparent(st, cs);
    DrainReturnsPending(s, cs);
    PermutationMembers(Outputs(st, cs), st.blocks);
  }

  ghost function Groups(st: State, groups: seq<seq<Choice>>): seq<seq<nat>>
    requires RunOfGroups(st, groups)
    decreases |groups|
  {
    if groups == [] then []
    else [Outputs(st, groups[0])] + Groups(After(st, groups[0]), groups[1..])
  }

  ghost predicate RunOfGroups(st: State, groups: seq<seq<Choice>>)
    decreases |groups|
  {
    groups != [] ==>
      && |groups[0]| == st.blocks
      && Run(st, groups[0])
      && RunOfGroups(After(st, groups[0]), groups[1..])
  }

  /**
   The main theorem. For every block count, every seeding and every sequence of
   weighted choices: however long the run, each group of `blocks` consecutive
   calls from a start on returns every block exactly once.
   */
  lemma {:induction false} EveryGroupIsPermutation(st: State, groups: seq<seq<Choice>>)
    requires st.blocks > 0 && WidthsAreMaximal(st.blocks)
    requires AtStart(st) && RunOfGroups(st, groups)
    ensures |Groups(st, groups)| == |groups|
    ensures forall g :: 0 <= g < |groups| ==> Permutation(Groups(st, groups)[g], st.blocks)
    decreases |groups|
  {
    hide WidthsAreMaximal, AtStart, Permutation;
    if groups != [] {
      GroupIsPermutation(st, groups[0]);
      EveryGroupIsPermutation(After(st, groups[0]), groups[1..]);
    }
  }

  lemma {:induction false} BitAbove(s: nat, k: nat, m: nat)
    requires s < Pow2(m) && m <= k
    ensures Bit(s, k) == 0
  {
    if k > 0 && m > 0 {
      BitAbove(s / 2, k - 1, m - 1);
    } else if k > 0 {
      BitAbove(s / 2, k - 1, 0);
    }
  }

  /** Below 256 blocks only widths up to 7 are used, and their taps are maximal: no hypothesis is left. */
  lemma SmallCountsNeedNoHypothesis(blocks: nat)
    requires blocks < 256
    ensures WidthsAreMaximal(blocks)
  {
    assert Pow2(8) == 256;
    forall bits | 2 <= bits <= MAX_BITS && Bit(blocks, bits) == 1
      ensures Usable(RegisterOf(bits)) && Maximal(RegisterOf(bits))
    {
      hide Usable, RegisterOf, Maximal, Bit;
      if bits >= 8 {
        BitAbove(blocks, bits, 8);
      } else {
        SmallWidthsAreMaximal(bits);
      }
    }
  }

  lemma SmallWidthsAreMaximal(bits: nat)
    requires 2 <= bits < 8
    ensures Usable(RegisterOf(bits)) && Maximal(RegisterOf(bits))
  {
    hide Usable, RegisterOf, Maximal;
    match bits
    case 2 => WidthTwoIsMaximal();
    case 3 => WidthThreeIsMaximal();
    case 4 => WidthFourIsMaximal();
    case 5 => WidthFiveIsMaximal();
    case 6 => WidthSixIsMaximal();
    case 7 => WidthSevenIsMaximal();
  }

  // ------------------------------------------------------------ the program

  lemma {:induction false} TiledAppend(elems: seq<Element>, lo: nat, e: Element)
    requires Tiled(elems, lo) && e.base == lo + Span(elems)
    ensures Tiled(elems + [e], lo)
    ensures Span(elems + [e]) == Span(elems) + e.Size()
  {
    if elems != [] {
      TiledAppend(elems[1..], lo + elems[0].Size(), e);
      assert (elems + [e])[1..] == elems[1..] + [e];
    } else {
      assert (elems + [e])[1..] == [];
    }
  }

  lemma {:induction false} LastBase(elems: seq<Element>, lo: nat)
    requires Tiled(elems, lo) && elems != []
    ensures elems[|elems| - 1].base + elems[|elems| - 1].Size() == lo + Span(elems)
  {
    if |elems| > 1 {
      LastBase(elems[1..], lo + elems[0].Size());
    } else {
      assert elems[1..] == [];
    }
  }

  /** What the bits of the block count from `bits` up are worth, when `b` is the count shifted down. */
  ghost predicate Remains(n: nat, b: nat, bits: nat, worth: int) {
    && bits <= MAX_BITS + 1
    && b < Pow2(MAX_BITS + 1 - bits)
    && b == ShiftRight(n, bits)
    && worth == b * Pow2(bits)
  }

  lemma RemainsAtStart(n: nat)
    requires n < U64
    ensures Remains(n, n, 0, n)
  {
    assert Pow2(0) == 1;
  }

  lemma RemainsStep(n: nat, b: nat, bits: nat, worth: int)
    requires Remains(n, b, bits, worth) && b != 0
    ensures bits <= MAX_BITS && Bit(n, bits) == b % 2
    ensures b % 2 == 1 ==> Pow2(bits) <= worth
    ensures Remains(n, b / 2, bits + 1, if b % 2 == 1 then worth - Pow2(bits) else worth)
  {
    hide ShiftRight, Bit;
    ShiftRightStep(n, bits);
    assert Pow2(0) == 1;
    HalfTimes(b, Pow2(bits));
    var rest := b / 2 * (2 * Pow2(bits));
    assert Pow2(bits + 1) == 2 * Pow2(bits);
  }

  lemma HalfTimes(b: nat, p: nat)
    ensures b * p == b / 2 * (2 * p) + if b % 2 == 1 then p else 0
    ensures b / 2 * (2 * p) >= 0
  {
    var h := b / 2;
    assert b == 2 * h + b % 2;
    assert (2 * h) * p == h * (2 * p);
    assert (2 * h + 1) * p == (2 * h) * p + p;
  }

  lemma RemainsNothing(n: nat, bits: nat, worth: int)
    requires Remains(n, 0, bits, worth)
    ensures worth == 0
  {
  }

  /** What a newly set-up element looks like, whatever odd word seeds it. */
  lemma SeededIsFresh(n: nat, bits: nat, seed: nat, base: nat)
    requires bits <= MAX_BITS && seed % 2 == 1 && Bit(n, bits) == 1
    ensures var e := Element(RegisterOf(bits), Mask(seed, bits), base, Pow2(bits));
            FreshElement(e, n) && WellFormed(e) && e.reg.bits == bits
  {
    hide Taps, Usable;
    if bits >= 2 {
      TableIsUsable(bits);
    }
  }

  /** The sub-ranges set up so far, for the bits of `n` below `bits`. */
  ghost predicate SetUpTo(elems: seq<Element>, n: nat, bits: nat) {
    && |elems| <= bits
    && Tiled(elems, 0)
    && (forall i :: 0 <= i < |elems| ==>
          FreshElement(elems[i], n) && WellFormed(elems[i]) && elems[i].reg.bits < bits)
    && forall i, j :: 0 <= i < j < |elems| ==> elems[i].reg.bits < elems[j].reg.bits
  }

  lemma SetUpAppend(elems: seq<Element>, n: nat, bits: nat, e: Element)
    requires SetUpTo(elems, n, bits)
    requires FreshElement(e, n) && WellFormed(e) && e.reg.bits == bits
    requires e.base == Span(elems)
    ensures SetUpTo(elems + [e], n, bits + 1)
    ensures Span(elems + [e]) == Span(elems) + e.Size()
  {
    hide FreshElement, WellFormed;
    TiledAppend(elems, 0, e);
  }

  lemma SetUpIsFresh(elems: seq<Element>, n: nat, bits: nat)
    requires SetUpTo(elems, n, bits) && Span(elems) == n
    ensures Fresh(elems, n) && TotalLeft(elems) == n
    ensures forall i :: 0 <= i < |elems| ==> WellFormed(elems[i]) && elems[i].reg.bits <= MAX_BITS
    ensures |elems| == 0 <==> n == 0
  {
    hide RegisterOf, WellFormed;
    FreshTotal(elems);
  }

  lemma {:induction false} TotalLeftUpdate(elems: seq<Element>, x: nat, e: Element)
    requires x < |elems|
    ensures TotalLeft(elems[x := e]) == TotalLeft(elems) - elems[x].remaining + e.remaining
  {
    if x == 0 {
      assert elems[x := e][1..] == elems[1..];
    } else {
      assert elems[x := e][1..] == elems[1..][x - 1 := e];
      TotalLeftUpdate(elems[1..], x - 1, e);
    }
  }

  /** The 64-bit generator: any word at all. */
  method SplitMix64() returns (z: nat)
    ensures z < U64
  {
    z :| 0 <= z < U64;
  }

  class RandomBlocks {
    const elem: array<Element>
    var rndsCount: nat
    var blocks: nat
    var remaining: nat

    ghost function Elems(): seq<Element>
      requires rndsCount <= elem.Length
      reads this, elem
    {
      elem[..rndsCount]
    }

    ghost function Abstract(): State
      requires rndsCount <= elem.Length
      reads this, elem
    {
      State(Elems(), blocks, remaining)
    }

    ghost predicate Valid()
      reads this, elem
    {
      && elem.Length == MAX_BITS + 1
      && rndsCount <= elem.Length
      && blocks < U64
      && (rndsCount == 0 <==> blocks == 0)
      && TotalLeft(Elems()) == remaining
      && forall i :: 0 <= i < rndsCount ==> WellFormed(elem[i]) && elem[i].reg.bits <= MAX_BITS
    }

    /** Sets up one sub-range for each set bit of the block count. */
    constructor (n: nat)
      requires n < U64
      ensures Valid() && fresh(elem)
      ensures blocks == n && remaining == n
      ensures Fresh(Elems(), n)
    {
      elem := new Element[MAX_BITS + 1](_ => Element(Register(0, [0]), 0, 0, 0));
      blocks, remaining, rndsCount := n, n, 0;
      new;
      AddAllSubRanges(n);
    }

    /** Builds the list of sub-ranges from the set bits of the block count. */
    method AddAllSubRanges(n: nat)
      requires n < U64 && elem.Length == MAX_BITS + 1 && rndsCount == 0
      modifies `rndsCount, elem
      ensures rndsCount <= elem.Length && (rndsCount == 0 <==> n == 0)
      ensures Fresh(elem[..rndsCount], n)
      ensures TotalLeft(elem[..rndsCount]) == n
      ensures forall i :: 0 <= i < rndsCount ==> WellFormed(elem[i]) && elem[i].reg.bits <= MAX_BITS
    {
      hide *;
      var b, bits := n, 0;
      ghost var worth := n;
      RemainsAtStart(n);
      SetUpNothing(n);
      assert elem[..0] == [];
      while b != 0
        invariant Remains(n, b, bits, worth)
        invariant rndsCount <= bits && rndsCount <= elem.Length
        invariant SetUpTo(elem[..rndsCount], n, bits)
        invariant Span(elem[..rndsCount]) + worth == n
        decreases b
      {
        RemainsStep(n, b, bits, worth);
        if b % 2 == 1 {
          AddSubRange(n, bits);
          worth := worth - Pow2(bits);
        } else {
          SetUpSkip(elem[..rndsCount], n, bits);
        }
        b := b / 2;
        bits := bits + 1;
      }
      RemainsNothing(n, bits, worth);
      SetUpIsFresh(elem[..rndsCount], n, bits);
    }

    /** Starts a new permutation: builds a new range and copies it over this one. */
    method Restart()
      requires Valid() && rndsCount > 0
      modifies this, elem
      ensures Valid()
      ensures blocks == old(blocks) && remaining == blocks && rndsCount > 0
      ensures Fresh(Elems(), blocks)
    {
      var next := new RandomBlocks(blocks);
      ghost var built := next.Elems();
      forall i | 0 <= i < elem.Length {
        elem[i] := next.elem[i];
      }
      rndsCount, blocks, remaining := next.rndsCount, next.blocks, next.remaining;
      assert Elems() == built;
      assert forall i :: 0 <= i < rndsCount ==> elem[i] == built[i];
    }

    /** The weighted choice of a sub-range; it stops before the end, on one that has a block left. */
    method Choose(draw: nat) returns (x: nat)
      requires Valid() && draw < remaining
      ensures x < rndsCount && x == Select(Elems(), draw)
    {
      hide WellFormed, Select, TotalLeft;
      ghost var elems := Elems();
      var r: nat := draw;
      x := 0;
      SelectSuffix(elems, r);
      while r >= elem[x].remaining
        invariant x < rndsCount <= elem.Length && elems == elem[..rndsCount]
        invariant r < TotalLeft(elems[x..])
        invariant Select(elems, draw) == x + Select(elems[x..], r)
        decreases rndsCount - x
      {
        assert elems[x..][0] == elem[x] && elems[x..][1..] == elems[x + 1..];
        SelectStep(elems[x..], r);
        r := r - elem[x].remaining;
        x := x + 1;
      }
      assert elems[x..][0] == elem[x];
      SelectHere(elems[x..], r);
    }

    /** Returns the next block, or the largest word if there are none at all. */
    method Step() returns (v: nat, ghost c: Choice)
      requires Valid()
      modifies this, elem
      ensures Valid()
      ensures old(rndsCount) == 0 ==> v == U64 - 1 && Abstract() == old(Abstract())
      ensures old(rndsCount) > 0 ==>
                Admissible(old(Abstract()), c) && (Abstract(), v) == Next(old(Abstract()), c)
    {
      hide Fresh, WellFormed, Select, TotalLeft;
      c := Choice([], 0);
      if rndsCount == 0 {
        return U64 - 1, c;
      }
      if remaining == 0 {
        Restart();
      }
      ghost var elems := Elems();
      var z := SplitMix64();
      c := Choice(elems, z % remaining);
      var x := Choose(z % remaining);
      OneOfTotal(elems, x);
      v := Take(x);
    }

    /** Takes one block from sub-range `x`. */
    method Take(x: nat) returns (v: nat)
      requires Valid() && x < rndsCount && 0 < elem[x].remaining <= remaining
      modifies `remaining, elem
      ensures Valid()
      ensures remaining == old(remaining) - 1
      ensures WellFormed(old(elem[x])) && v == Output(old(elem[x]))
      ensures Elems() == old(Elems())[x := Advance(old(elem[x]))]
    {
      hide WellFormed, TotalLeft;
      ghost var elems := Elems();
      TotalLeftUpdate(elems, x, Advance(elems[x]));
      AdvanceWellFormed(elems[x]);
      var state, base := elem[x].state, elem[x].base;
      remaining := remaining - 1;
      elem[x] := elem[x].(remaining := elem[x].remaining - 1);
      if elem[x].remaining == 0 {
        v := base;
      } else {
        if elem[x].reg.bits >= 2 {
          elem[x] := elem[x].(state := Lfsr.Step(elem[x].reg, elem[x].state));
        }
        v := base + state;
      }
      assert Elems() == elems[x := Advance(elems[x])];
      assert forall i :: 0 <= i < rndsCount ==> elem[i] == Elems()[i];
    }

    /** Appends the sub-range for bit `bits`, behind the ones that are there. */
    method AddSubRange(n: nat, bits: nat)
      requires elem.Length == MAX_BITS + 1
      requires rndsCount <= bits <= MAX_BITS
      requires SetUpTo(elem[..rndsCount], n, bits) && Bit(n, bits) == 1
      modifies `rndsCount, elem
      ensures rndsCount == old(rndsCount) + 1
      ensures SetUpTo(elem[..rndsCount], n, bits + 1)
      ensures Span(elem[..rndsCount]) == old(Span(elem[..rndsCount])) + Pow2(bits)
    {
      hide Taps, Usable, FreshElement, WellFormed, Mask, RegisterOf, Tiled;
      ghost var was := elem[..rndsCount];
      var z := SplitMix64();
      var seed := if z % 2 == 0 then z + 1 else z;
      var base := 0;
      if rndsCount != 0 {
        base := elem[rndsCount - 1].base + Pow2(elem[rndsCount - 1].reg.bits);
        LastBase(was, 0);
      }
      var e := Element(RegisterOf(bits), Mask(seed, bits), base, Pow2(bits));
      SeededIsFresh(n, bits, seed, base);
      SetUpAppend(was, n, bits, e);
      elem[rndsCount] := e;
      rndsCount := rndsCount + 1;
      assert elem[..rndsCount] == was + [e];
    }
  }

  lemma AdvanceWellFormed(e: Element)
    requires WellFormed(e) && 0 < e.remaining
    ensures WellFormed(Advance(e)) && Advance(e).reg == e.reg
  {
  }

  lemma {:induction false} OneOfTotal(elems: seq<Element>, x: nat)
    requires x < |elems|
    ensures elems[x].remaining <= TotalLeft(elems)
  {
    if x > 0 {
      OneOfTotal(elems[1..], x - 1);
    }
  }

  lemma SelectSuffix(elems: seq<Element>, r: nat)
    requires r < TotalLeft(elems)
    ensures |elems| > 0 && elems[0..] == elems
  {
  }

  lemma SelectStep(elems: seq<Element>, r: nat)
    requires r < TotalLeft(elems) && r >= elems[0].remaining
    ensures |elems| > 1 && r - elems[0].remaining < TotalLeft(elems[1..])
    ensures Select(elems, r) == 1 + Select(elems[1..], r - elems[0].remaining)
  {
  }

  lemma SelectHere(elems: seq<Element>, r: nat)
    requires r < TotalLeft(elems) && r < elems[0].remaining
    ensures Select(elems, r) == 0
  {
  }

  lemma SetUpNothing(n: nat)
    ensures SetUpTo([], n, 0) && Span([]) == 0
  {
  }

  lemma SetUpSkip(elems: seq<Element>, n: nat, bits: nat)
    requires SetUpTo(elems, n, bits)
    ensures SetUpTo(elems, n, bits + 1)
  {
    hide FreshElement, WellFormed;
  }

  // -------------------------------------------------------------- whole groups

  /** One more call at the end of a run. */
  lemma {:induction false} RunAppend(st: State, cs: seq<Choice>, c: Choice)
    requires Run(st, cs) && Admissible(After(st, cs), c)
    ensures Run(st, cs + [c])
    ensures After(st, cs + [c]) == Next(After(st, cs), c).0
    ensures Outputs(st, cs + [c]) == Outputs(st, cs) + [Next(After(st, cs), c).1]
    decreases |cs|
  {
    hide *;
    if cs == [] {
      assert (cs + [c])[1..] == [];
      NoCalls(st);
      NoCalls(Next(st, c).0);
      FirstCall(st, cs + [c]);
    } else {
      assert (cs + [c])[1..] == cs[1..] + [c];
      FirstCall(st, cs);
      RunAppend(Next(st, cs[0]).0, cs[1..], c);
      FirstCall(st, cs + [c]);
    }
  }

  /** A run is its first call and the run from there. */
  lemma FirstCall(st: State, cs: seq<Choice>)
    requires cs != []
    ensures Run(st, cs) <==> Admissible(st, cs[0]) && Run(Next(st, cs[0]).0, cs[1..])
    ensures Run(st, cs) ==>
              && After(st, cs) == After(Next(st, cs[0]).0, cs[1..])
              && Outputs(st, cs) == [Next(st, cs[0]).1] + Outputs(Next(st, cs[0]).0, cs[1..])
  {
    hide Admissible, Next;
  }

  /** As many calls as there are blocks, from a start on. */
  method DrawGroup(range: RandomBlocks) returns (blocks: seq<nat>)
    requires range.Valid() && range.blocks > 0 && WidthsAreMaximal(range.blocks) && AtStart(range.Abstract())
    modifies range, range.elem
    ensures range.Valid() && range.blocks == old(range.blocks) && AtStart(range.Abstract())
    ensures Permutation(blocks, range.blocks)
  {
    hide WidthsAreMaximal, Permutation, Run, Admissible, Next, Fresh, AtStart;
    ghost var st, cs := range.Abstract(), [];
    blocks := [];
    NoCalls(st);
    for i := 0 to range.blocks
      invariant range.Valid() && |cs| == |blocks| == i
      invariant Run(st, cs) && After(st, cs) == range.Abstract() && Outputs(st, cs) == blocks
      invariant range.blocks == st.blocks
    {
      NextKeepsBlocks(range.Abstract());
      ghost var c;
      var v;
      v, c := range.Step();
      RunAppend(st, cs, c);
      blocks, cs := blocks + [v], cs + [c];
    }
    GroupIsPermutation(st, cs);
  }

  lemma NoCalls(st: State)
    ensures Run(st, []) && After(st, []) == st && Outputs(st, []) == []
  {
  }

  lemma NextKeepsBlocks(st: State)
    ensures forall c :: Admissible(st, c) ==> Next(st, c).0.blocks == st.blocks
  {
    hide Admissible, Select, Advance, Output;
    forall c | Admissible(st, c) ensures Next(st, c).0.blocks == st.blocks {
    }
  }

  /** From the set-up on, group after group of calls returns every block exactly once. */
  method DrawGroups(n: nat, count: nat) returns (groups: seq<seq<nat>>)
    requires 0 < n < U64 && WidthsAreMaximal(n)
    ensures |groups| == count && forall g :: 0 <= g < count ==> Permutation(groups[g], n)
  {
    hide WidthsAreMaximal, Permutation, Fresh;
    var range := new RandomBlocks(n);
    groups := [];
    for g := 0 to count
      invariant fresh(range) && fresh(range.elem) && range.Valid() && range.blocks == n
      invariant AtStart(range.Abstract())
      invariant |groups| == g && forall h :: 0 <= h < g ==> Permutation(groups[h], n)
    {
      var blocks := DrawGroup(range);
      groups := groups + [blocks];
    }
  }
}
