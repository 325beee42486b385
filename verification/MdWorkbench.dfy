/**
 The working set of md-workbench: in every iteration each rank stats, reads and
 deletes an object of one neighbour and creates an object of another one. Ranks
 run unsynchronised inside a benchmark phase; barriers separate the phases.
 */
module MdWorkbench {
  import opened Arithmetic

  /** The parameters that all ranks share; `stonewall` is the stonewall timer with wear-out. */
  datatype Config = Config(
    size: nat, dsets: nat, precreate: nat, num: nat, offset: nat, readOnly: bool, stonewall: bool)

  /** The object with index `idx` in data set `d` of rank `owner`. */
  datatype Obj = Obj(owner: nat, d: nat, idx: nat)

  /** What an object holds: the pattern for an item as written for a rank. */
  datatype Pattern = Pattern(item: nat, rank: nat)

  type Store = map<Obj, Pattern>

  // ------------------------------------------------------------- neighbours

  /** The remainder as C computes it, with the sign of the dividend. */
  function TruncatedRemainder(a: int, m: nat): int
    requires m > 0
  {
    if a >= 0 then a % m else -((-a) % m)
  }

  function ReadRank(c: Config, rank: nat, d: nat): int
    requires c.size > 0
  {
    var r := TruncatedRemainder(rank - c.offset * (d + 1), c.size);
    if r < 0 then r + c.size else r
  }

  function WriteRank(c: Config, rank: nat, d: nat): int
    requires c.size > 0
  {
    TruncatedRemainder(rank + c.offset * (d + 1), c.size)
  }

  lemma ReadRankIsRemainder(c: Config, rank: nat, d: nat)
    requires c.size > 0
    ensures ReadRank(c, rank, d) == (rank - c.offset * (d + 1)) % c.size
    ensures WriteRank(c, rank, d) == (rank + c.offset * (d + 1)) % c.size
  {
    assert c.offset * (d + 1) >= 0;
    var a := rank - c.offset * (d + 1);
    if a < 0 {
      var q, r := (-a) / c.size, (-a) % c.size;
      if r == 0 {
        DivModUnique(a, c.size, -q, 0);
      } else {
        DivModUnique(a, c.size, -q - 1, c.size - r);
      }
    }
  }

  /**
   In every data set the two neighbour maps undo each other, so each rank's
   objects are read by exactly one rank and created by exactly one rank.
   */
  lemma NeighboursAreInverse(c: Config, rank: nat, d: nat)
    requires rank < c.size
    ensures 0 <= ReadRank(c, rank, d) < c.size && 0 <= WriteRank(c, rank, d) < c.size
    ensures WriteRank(c, ReadRank(c, rank, d), d) == rank
    ensures ReadRank(c, WriteRank(c, rank, d), d) == rank
  {
    ReadRankIsRemainder(c, rank, d);
    ReadRankIsRemainder(c, ReadRank(c, rank, d), d);
    ReadRankIsRemainder(c, WriteRank(c, rank, d), d);
    ModInverse(rank, c.offset * (d + 1), c.size);
  }

  /** Twice the offset leads back to the same rank: the reader of an object creates the next one, and one is there. */
  predicate SelfFed(c: Config) {
    c.size > 0 && 2 * c.offset % c.size == 0 && !c.readOnly && c.precreate >= 1
  }

  lemma DoubleOffset(c: Config, q: nat, d: nat)
    requires q < c.size
    ensures 2 * c.offset % c.size == 0 ==> ReadRank(c, q, d) == WriteRank(c, q, d)
    ensures ReadRank(c, q, 0) == WriteRank(c, q, 0) ==> 2 * c.offset % c.size == 0
  {
    ReadRankIsRemainder(c, q, d);
    ReadRankIsRemainder(c, q, 0);
    hide ReadRank, WriteRank;
    if 2 * c.offset % c.size == 0 {
      SumsAgree(q, c.offset, d + 1, c.size);
    }
    if (q - c.offset) % c.size == (q + c.offset) % c.size {
      DifferenceDivides(q - c.offset, q + c.offset, c.size);
    }
    assert c.offset * (0 + 1) == c.offset;
  }

  lemma SumsAgree(q: int, o: int, k: int, n: int)
    requires n > 0 && 2 * o % n == 0
    ensures (q - o * k) % n == (q + o * k) % n
  {
    var m := 2 * o / n;
    assert 2 * o == m * n;
    assert m * k * n == m * n * k;
    assert 2 * o * k == o * k + o * k;
    ModOfShift(q - o * k, n, m * k);
  }

  lemma DifferenceDivides(a: int, b: int, n: int)
    requires n > 0 && a % n == b % n
    ensures (b - a) % n == 0
  {
    var k := b / n - a / n;
    assert b - a == k * n;
    DivModUnique(b - a, n, k, 0);
  }

  // ------------------------------------------------------ one rank's program

  /**
   Where a rank is in its benchmark loop: before one of the four operations on a
   data set, at the stonewall check after the data sets, inside the all-reduce,
   or past the loop.
   */
  datatype Pc = Stat | Read | Delete | Create | Check | Reduce | Done

  datatype Rank = Rank(f: nat, d: nat, pc: Pc, total: nat, armed: bool, pos: nat, reduces: nat)

  datatype State = State(objs: Store, ranks: seq<Rank>, misses: nat, badReads: nat)

  /** The head of the iteration loop. */
  function Iterate(c: Config, r: Rank): Rank {
    if r.f < r.total then r.(d := 0, pc := if c.dsets > 0 then Stat else Check)
    else if r.armed then r.(pc := Reduce, pos := r.total)
    else r.(pc := Done)
  }

  function NextSet(c: Config, r: Rank): Rank {
    r.(d := r.d + 1, pc := if r.d + 1 < c.dsets then Stat else Check)
  }

  function Start(c: Config): Rank {
    Iterate(c, Rank(0, 0, Check, c.num, c.stonewall, 0, 0))
  }

  /** The object that a rank stats, reads and deletes next. */
  function Victim(c: Config, start: nat, q: nat, r: Rank): Obj
    requires q < c.size
  {
    NeighboursAreInverse(c, q, r.d);
    Obj(ReadRank(c, q, r.d), r.d, r.f + start)
  }

  /** The object that a rank creates next. */
  function Newcomer(c: Config, start: nat, q: nat, r: Rank): Obj
    requires q < c.size
  {
    NeighboursAreInverse(c, q, r.d);
    Obj(WriteRank(c, q, r.d), r.d, c.precreate + (r.f + start))
  }

  function PatternOf(c: Config, o: Obj): Pattern {
    Pattern(o.idx * c.dsets + o.d, o.owner)
  }

  /** Different objects of the data sets that there are hold different patterns. */
  lemma PatternsDiffer(c: Config, x: Obj, y: Obj)
    requires x.d < c.dsets && y.d < c.dsets
    ensures PatternOf(c, x) == PatternOf(c, y) <==> x == y
  {
    DivModUnique(PatternOf(c, x).item, c.dsets, x.idx, x.d);
    DivModUnique(PatternOf(c, y).item, c.dsets, y.idx, y.d);
  }

  /** Rank `q` moves on its own; `hit` says whether its clock has passed the stonewall. */
  function Step(c: Config, start: nat, s: State, q: nat, hit: bool): State
    requires q < |s.ranks| == c.size
  {
    var r := s.ranks[q];
    var victim, newcomer := Victim(c, start, q, r), Newcomer(c, start, q, r);
    match r.pc
    case Stat =>
      if victim in s.objs then s.(ranks := s.ranks[q := r.(pc := Read)])
      else s.(ranks := s.ranks[q := NextSet(c, r)], misses := s.misses + 1)
    case Read =>
      var next := if c.readOnly then NextSet(c, r) else r.(pc := Delete);
      if victim !in s.objs then s.(ranks := s.ranks[q := next], misses := s.misses + 1)
      else if s.objs[victim] != PatternOf(c, victim) then s.(ranks := s.ranks[q := next], badReads := s.badReads + 1)
      else s.(ranks := s.ranks[q := next])
    case Delete =>
      s.(objs := s.objs - {victim}, ranks := s.ranks[q := r.(pc := Create)])
    case Create =>
      s.(objs := s.objs[newcomer := PatternOf(c, newcomer)], ranks := s.ranks[q := NextSet(c, r)])
    case Check =>
      if r.armed && hit then s.(ranks := s.ranks[q := r.(pc := Reduce, armed := false, pos := r.f + 1)])
      else s.(ranks := s.ranks[q := Iterate(c, r.(f := r.f + 1))])
    case Reduce => s
    case Done => s
  }

  function MaxPos(ranks: seq<Rank>): nat {
    if ranks == [] then 0
    else if ranks[0].pos > MaxPos(ranks[1..]) then ranks[0].pos else MaxPos(ranks[1..])
  }

  /**
   A rank leaves the all-reduce. Inside the loop it goes on with the new total,
   unless it has just finished that iteration; past the loop it is done.
   */
  function Leave(c: Config, r: Rank, m: nat): Rank {
    var t := r.(total := m, reduces := r.reduces + 1);
    if r.armed || r.f == m then t.(armed := false, pc := Done)
    else Iterate(c, t.(f := r.f + 1))
  }

  /** All ranks are in the all-reduce; they leave with the maximum of their positions. */
  function AllReduce(c: Config, s: State): State {
    var m := MaxPos(s.ranks);
    s.(ranks := seq(|s.ranks|, q requires 0 <= q < |s.ranks| => Leave(c, s.ranks[q], m)))
  }

  datatype Action = Move(q: nat, hit: bool) | Collective

  predicate Enabled(c: Config, s: State, a: Action) {
    match a
    case Move(q, _) => q < |s.ranks| && !s.ranks[q].pc.Reduce? && !s.ranks[q].pc.Done?
    case Collective => |s.ranks| > 0 && forall q :: 0 <= q < |s.ranks| ==> s.ranks[q].pc.Reduce?
  }

  function Act(c: Config, start: nat, s: State, a: Action): State
    requires |s.ranks| == c.size && Enabled(c, s, a)
  {
    if a.Move? then Step(c, start, s, a.q, a.hit) else AllReduce(c, s)
  }

  // --------------------------------------------------------------- invariant

  /** How many of its objects in data set `d` a rank has deleted in this phase. */
  function Deleted(c: Config, r: Rank, d: nat): nat {
    if c.readOnly then 0
    else if r.pc.Done? || (r.pc.Reduce? && r.f == r.pos) then r.f
    else if r.pc.Check? || r.pc.Reduce? || d < r.d || (d == r.d && r.pc.Create?) then r.f + 1
    else r.f
  }

  /** How many objects in data set `d` a rank has created in this phase. */
  function Created(c: Config, r: Rank, d: nat): nat {
    if c.readOnly then 0
    else if r.pc.Done? || (r.pc.Reduce? && r.f == r.pos) then r.f
    else if r.pc.Check? || r.pc.Reduce? || d < r.d then r.f + 1
    else r.f
  }

  predicate Operating(pc: Pc) {
    pc.Stat? || pc.Read? || pc.Delete? || pc.Create?
  }

  ghost predicate RankInv(c: Config, r: Rank) {
    && r.f <= r.total <= c.num
    && (Operating(r.pc) ==> r.f < r.total && r.d < c.dsets)
    && (r.pc.Check? ==> r.f < r.total)
    && (r.pc.Delete? || r.pc.Create? ==> !c.readOnly)
    && (r.pc.Done? ==> r.f == r.total && !r.armed)
    && (r.pc.Reduce? ==> if r.armed then r.f == r.pos == r.total else r.f + 1 == r.pos <= r.total)
    && (if !c.stonewall then !r.armed && !r.pc.Reduce? && r.reduces == 0
        else r.reduces <= 1 && (r.reduces == 0 <==> r.armed || r.pc.Reduce?))
    && (r.reduces == 0 ==> r.total == c.num)
  }

  /** The indices that exist in data set `d` of rank `o`, given how far its reader and its writer are. */
  predicate InWindow(c: Config, start: nat, ranks: seq<Rank>, x: Obj)
    requires |ranks| == c.size
  {
    && x.owner < c.size && x.d < c.dsets
    && start + Deleted(c, ranks[Reader(c, x)], x.d) <= x.idx
    && x.idx < start + c.precreate + Created(c, ranks[Writer(c, x)], x.d)
  }

  /** The rank that reads and deletes the object. */
  function Reader(c: Config, x: Obj): nat
    requires x.owner < c.size
    ensures Reader(c, x) < c.size
  {
    NeighboursAreInverse(c, x.owner, x.d);
    WriteRank(c, x.owner, x.d)
  }

  /** The rank that creates the object. */
  function Writer(c: Config, x: Obj): nat
    requires x.owner < c.size
    ensures Writer(c, x) < c.size
  {
    NeighboursAreInverse(c, x.owner, x.d);
    ReadRank(c, x.owner, x.d)
  }

  ghost predicate StoreInv(c: Config, start: nat, s: State)
    requires |s.ranks| == c.size
  {
    && (forall x :: x in s.objs <==> InWindow(c, start, s.ranks, x))
    && (forall x :: x in s.objs ==> s.objs[x] == PatternOf(c, x))
  }

  /**
   All ranks have been through the all-reduce, or none has; afterwards they share
   one total, the maximum of the positions they contributed.
   */
  ghost predicate Together(ranks: seq<Rank>) {
    && (forall p, q :: 0 <= p < |ranks| && 0 <= q < |ranks| ==>
          ranks[p].reduces == ranks[q].reduces && ranks[p].total == ranks[q].total)
    && (forall q :: 0 <= q < |ranks| && ranks[q].reduces == 1 ==> ranks[q].total == MaxPos(ranks))
  }

  lemma {:induction false} MaxPosOfSame(a: seq<Rank>, b: seq<Rank>)
    requires |a| == |b|
    requires forall q :: 0 <= q < |a| ==> a[q].pos == b[q].pos
    ensures MaxPos(a) == MaxPos(b)
  {
    if a != [] {
      MaxPosOfSame(a[1..], b[1..]);
    }
  }

  ghost predicate Inv(c: Config, start: nat, s: State) {
    && |s.ranks| == c.size
    && (forall q :: 0 <= q < c.size ==> RankInv(c, s.ranks[q]))
    && Together(s.ranks)
    && StoreInv(c, start, s)
    && s.misses == 0 && s.badReads == 0
  }

  /** No rank has used up the objects that were there when the phase started, unless it creates its own. */
  ghost predicate InTime(c: Config, ranks: seq<Rank>) {
    SelfFed(c) || forall q :: 0 <= q < |ranks| ==>
      ranks[q].f <= c.precreate
      && (Operating(ranks[q].pc) || ranks[q].pc.Check? || (ranks[q].pc.Reduce? && ranks[q].f != ranks[q].pos)
          ==> ranks[q].f < c.precreate)
  }

  /** The condition on the parameters under which no rank ever misses an object. */
  predicate Safe(c: Config) {
    c.num <= c.precreate || SelfFed(c)
  }

  lemma AlwaysInTime(c: Config, start: nat, s: State)
    requires Safe(c) && Inv(c, start, s)
    ensures InTime(c, s.ranks)
  {
    hide StoreInv, MaxPos;
  }

  // ----------------------------------------------- one step keeps everything

  /** Reader and writer are unique: whoever reads or creates this object is the one. */
  lemma VictimHasOneReader(c: Config, start: nat, q: nat, r: Rank)
    requires q < c.size
    ensures var x := Victim(c, start, q, r); x.owner < c.size && Reader(c, x) == q
    ensures var x := Newcomer(c, start, q, r); x.owner < c.size && Writer(c, x) == q
  {
    NeighboursAreInverse(c, q, r.d);
  }

  /** An object that shares data set and reader with the victim has the victim's owner. */
  lemma SameReaderSameOwner(c: Config, x: Obj, y: Obj)
    requires x.owner < c.size && y.owner < c.size && x.d == y.d
    ensures Reader(c, x) == Reader(c, y) ==> x.owner == y.owner
    ensures Writer(c, x) == Writer(c, y) ==> x.owner == y.owner
  {
    NeighboursAreInverse(c, x.owner, x.d);
    NeighboursAreInverse(c, y.owner, y.d);
  }

  /** The object a rank turns to next exists, however far the others are. */
  lemma VictimExists(c: Config, start: nat, s: State, q: nat)
    requires InTime(c, s.ranks)
    requires Inv(c, start, s) && q < c.size
    requires s.ranks[q].pc.Stat? || s.ranks[q].pc.Read? || s.ranks[q].pc.Delete?
    ensures var x := Victim(c, start, q, s.ranks[q]); x in s.objs && s.objs[x] == PatternOf(c, x)
  {
    hide ReadRank, WriteRank;
    VictimHasOneReader(c, start, q, s.ranks[q]);
    DoubleOffset(c, Victim(c, start, q, s.ranks[q]).owner, s.ranks[q].d);
    assert InWindow(c, start, s.ranks, Victim(c, start, q, s.ranks[q]));
  }

  /** What a step does to the rank's own counters: only a delete or a create moves the window. */
  ghost predicate CountsStep(c: Config, r: Rank, t: Rank) {
    && RankInv(c, t)
    && t.reduces == r.reduces && t.total == r.total
    && (r.reduces == 1 ==> t.pos == r.pos)
    && (forall d :: 0 <= d < c.dsets ==>
          && Deleted(c, t, d) == Deleted(c, r, d) + (if r.pc.Delete? && d == r.d then 1 else 0)
          && Created(c, t, d) == Created(c, r, d) + (if r.pc.Create? && d == r.d then 1 else 0))
  }

  lemma CheckCounts(c: Config, r: Rank)
    requires RankInv(c, r) && r.pc.Check?
    ensures CountsStep(c, r, Iterate(c, r.(f := r.f + 1)))
    ensures r.armed ==> CountsStep(c, r, r.(pc := Reduce, armed := false, pos := r.f + 1))
  {
  }

  lemma OperationCounts(c: Config, r: Rank)
    requires RankInv(c, r) && Operating(r.pc)
    ensures r.pc.Create? || (r.pc.Read? && c.readOnly) ==> CountsStep(c, r, NextSet(c, r))
    ensures r.pc.Stat? ==> CountsStep(c, r, r.(pc := Read))
    ensures r.pc.Read? && !c.readOnly ==> CountsStep(c, r, r.(pc := Delete))
    ensures r.pc.Delete? ==> CountsStep(c, r, r.(pc := Create))
  {
  }

  lemma StepOfRank(c: Config, start: nat, s: State, q: nat, hit: bool)
    requires InTime(c, s.ranks)
    requires Inv(c, start, s) && Enabled(c, s, Move(q, hit))
    ensures var t := Step(c, start, s, q, hit);
            && |t.ranks| == c.size && t.ranks == s.ranks[q := t.ranks[q]]
            && CountsStep(c, s.ranks[q], t.ranks[q])
            && t.misses == 0 && t.badReads == 0
  {
    hide ReadRank, WriteRank, StoreInv, Together, PatternOf, CountsStep, Iterate, NextSet;
    var r := s.ranks[q];
    assert RankInv(c, r);
    if r.pc.Check? {
      CheckCounts(c, r);
    } else {
      OperationCounts(c, r);
    }
    if r.pc.Stat? || r.pc.Read? || r.pc.Delete? {
      VictimExists(c, start, s, q);
    }
  }

  /** Whether an object is in the window, once rank `q` alone has moved. */
  lemma WindowAfter(c: Config, start: nat, ranks: seq<Rank>, next: seq<Rank>, q: nat, x: Obj)
    requires |ranks| == |next| == c.size && q < c.size
    requires x.owner < c.size && x.d < c.dsets
    requires next == ranks[q := next[q]]
    ensures Reader(c, x) != q ==> Deleted(c, next[Reader(c, x)], x.d) == Deleted(c, ranks[Reader(c, x)], x.d)
    ensures Writer(c, x) != q ==> Created(c, next[Writer(c, x)], x.d) == Created(c, ranks[Writer(c, x)], x.d)
  {
  }

  lemma DeleteKeepsStore(c: Config, start: nat, s: State, q: nat, x: Obj)
    requires InTime(c, s.ranks)
    requires Inv(c, start, s) && q < c.size && s.ranks[q].pc.Delete?
    ensures |Step(c, start, s, q, false).ranks| == c.size
    ensures x in Step(c, start, s, q, false).objs <==> InWindow(c, start, Step(c, start, s, q, false).ranks, x)
  {
    var r, t := s.ranks[q], Step(c, start, s, q, false);
    var v := Victim(c, start, q, r);
    StepOfRank(c, start, s, q, false);
    VictimHasOneReader(c, start, q, r);
    hide ReadRank, WriteRank, Step, Victim;
    if x.owner < c.size && x.d < c.dsets {
      WindowAfter(c, start, s.ranks, t.ranks, q, x);
      if x.d == v.d && Reader(c, x) == q {
        SameReaderSameOwner(c, x, v);
      }
    }
  }

  lemma CreateKeepsStore(c: Config, start: nat, s: State, q: nat, x: Obj)
    requires InTime(c, s.ranks)
    requires Inv(c, start, s) && q < c.size && s.ranks[q].pc.Create?
    ensures |Step(c, start, s, q, false).ranks| == c.size
    ensures x in Step(c, start, s, q, false).objs <==> InWindow(c, start, Step(c, start, s, q, false).ranks, x)
  {
    var r, t := s.ranks[q], Step(c, start, s, q, false);
    var v := Newcomer(c, start, q, r);
    StepOfRank(c, start, s, q, false);
    VictimHasOneReader(c, start, q, r);
    NewcomerIsAhead(c, start, s, q);
    hide ReadRank, WriteRank, Step, Newcomer;
    if x.owner < c.size && x.d < c.dsets {
      WindowAfter(c, start, s.ranks, t.ranks, q, x);
      if x.d == v.d && Writer(c, x) == q {
        SameReaderSameOwner(c, x, v);
      }
    }
  }

  /** The reader of the object being created has not come that far. */
  lemma NewcomerIsAhead(c: Config, start: nat, s: State, q: nat)
    requires InTime(c, s.ranks)
    requires Inv(c, start, s) && q < c.size && s.ranks[q].pc.Create?
    ensures var x := Newcomer(c, start, q, s.ranks[q]);
            x.owner < c.size && start + Deleted(c, s.ranks[Reader(c, x)], x.d) <= x.idx
  {
    hide ReadRank, WriteRank;
    VictimHasOneReader(c, start, q, s.ranks[q]);
    DoubleOffset(c, Newcomer(c, start, q, s.ranks[q]).owner, s.ranks[q].d);
    assert RankInv(c, s.ranks[Reader(c, Newcomer(c, start, q, s.ranks[q]))]);
  }

  lemma OtherStepKeepsStore(c: Config, start: nat, s: State, q: nat, hit: bool, x: Obj)
    requires InTime(c, s.ranks)
    requires Inv(c, start, s) && Enabled(c, s, Move(q, hit))
    requires !s.ranks[q].pc.Delete? && !s.ranks[q].pc.Create?
    ensures |Step(c, start, s, q, hit).ranks| == c.size && Step(c, start, s, q, hit).objs == s.objs
    ensures x in s.objs <==> InWindow(c, start, Step(c, start, s, q, hit).ranks, x)
  {
    StepOfRank(c, start, s, q, hit);
    hide ReadRank, WriteRank, Deleted, Created;
    if x.owner < c.size && x.d < c.dsets {
      WindowAfter(c, start, s.ranks, Step(c, start, s, q, hit).ranks, q, x);
    }
  }

  lemma StepKeepsStore(c: Config, start: nat, s: State, q: nat, hit: bool)
    requires InTime(c, s.ranks)
    requires Inv(c, start, s) && Enabled(c, s, Move(q, hit))
    ensures |Step(c, start, s, q, hit).ranks| == c.size
    ensures StoreInv(c, start, Step(c, start, s, q, hit))
  {
    hide InWindow, Victim, Newcomer, PatternOf, RankInv, Together;
    var t := Step(c, start, s, q, hit);
    if s.ranks[q].pc.Delete? || s.ranks[q].pc.Create? {
      assert t == Step(c, start, s, q, false);
    }
    forall x ensures |t.ranks| == c.size && (x in t.objs <==> InWindow(c, start, t.ranks, x)) {
      if s.ranks[q].pc.Delete? {
        DeleteKeepsStore(c, start, s, q, x);
      } else if s.ranks[q].pc.Create? {
        CreateKeepsStore(c, start, s, q, x);
      } else {
        OtherStepKeepsStore(c, start, s, q, hit, x);
      }
    }
  }

  lemma StepKeepsInv(c: Config, start: nat, s: State, q: nat, hit: bool)
    requires InTime(c, s.ranks)
    requires Inv(c, start, s) && Enabled(c, s, Move(q, hit))
    ensures Inv(c, start, Step(c, start, s, q, hit))
  {
    hide StoreInv, RankInv, Step;
    StepOfRank(c, start, s, q, hit);
    StepKeepsStore(c, start, s, q, hit);
    if s.ranks[q].reduces == 1 {
      MaxPosOfSame(s.ranks, Step(c, start, s, q, hit).ranks);
    }
  }

  // -------------------------------------------------------- the all-reduce

  lemma {:induction false} MaxPosIsMax(ranks: seq<Rank>)
    ensures forall q :: 0 <= q < |ranks| ==> ranks[q].pos <= MaxPos(ranks)
    ensures ranks != [] ==> exists q :: 0 <= q < |ranks| && ranks[q].pos == MaxPos(ranks)
  {
    if |ranks| == 1 {
      assert ranks[1..] == [] && ranks[0].pos == MaxPos(ranks);
    } else if ranks != [] {
      MaxPosIsMax(ranks[1..]);
      var q :| 0 <= q < |ranks[1..]| && ranks[1..][q].pos == MaxPos(ranks[1..]);
      assert ranks[q + 1].pos == MaxPos(ranks[1..]);
      assert MaxPos(ranks) == ranks[0].pos || MaxPos(ranks) == ranks[q + 1].pos;
    }
  }

  /** Leaving the all-reduce keeps the rank's own invariant and does not move the window. */
  lemma LeaveKeepsRank(c: Config, r: Rank, m: nat)
    requires RankInv(c, r) && r.pc.Reduce? && c.stonewall
    requires r.pos <= m <= c.num
    ensures var t := Leave(c, r, m);
            && RankInv(c, t) && t.reduces == 1 && t.total == m && !t.pc.Reduce?
            && forall d :: 0 <= d < c.dsets ==>
                 Deleted(c, t, d) == Deleted(c, r, d) && Created(c, t, d) == Created(c, r, d)
  {
  }

  lemma AllReduceKeepsInv(c: Config, start: nat, s: State)
    requires Inv(c, start, s) && Enabled(c, s, Collective)
    ensures Inv(c, start, AllReduce(c, s))
  {
    hide RankInv, Leave, Deleted, Created;
    var m, t := MaxPos(s.ranks), AllReduce(c, s);
    MaxPosIsMax(s.ranks);
    var top :| 0 <= top < |s.ranks| && s.ranks[top].pos == m;
    forall q | 0 <= q < c.size
      ensures c.stonewall && s.ranks[q].pos <= m <= c.num
    {
      ReduceFacts(c, s.ranks[q]);
      ReduceFacts(c, s.ranks[top]);
    }
    forall q | 0 <= q < c.size
      ensures t.ranks[q] == Leave(c, s.ranks[q], m) && RankInv(c, t.ranks[q])
      ensures t.ranks[q].reduces == 1 && t.ranks[q].total == m && !t.ranks[q].pc.Reduce?
      ensures forall d :: 0 <= d < c.dsets ==>
                Deleted(c, t.ranks[q], d) == Deleted(c, s.ranks[q], d)
                && Created(c, t.ranks[q], d) == Created(c, s.ranks[q], d)
    {
      LeaveKeepsRank(c, s.ranks[q], m);
    }
    LeaveKeepsPos(c, s.ranks, t.ranks, m);
  }

  lemma LeaveKeepsPos(c: Config, ranks: seq<Rank>, next: seq<Rank>, m: nat)
    requires |ranks| == |next|
    requires forall q :: 0 <= q < |ranks| ==> next[q] == Leave(c, ranks[q], m) && !next[q].pc.Reduce?
    ensures MaxPos(next) == MaxPos(ranks)
  {
    MaxPosOfSame(ranks, next);
  }

  lemma ReduceFacts(c: Config, r: Rank)
    requires RankInv(c, r) && r.pc.Reduce?
    ensures c.stonewall && r.reduces == 0 && r.pos <= c.num
  {
  }

  // -------------------------------------------------- all runs of one phase

  ghost predicate Run(c: Config, start: nat, s: State, acts: seq<Action>)
    requires |s.ranks| == c.size
    decreases |acts|
  {
    acts != [] ==> Enabled(c, s, acts[0]) && Run(c, start, Next(c, start, s, acts[0]), acts[1..])
  }

  /** `Act`, with the number of ranks in its result. */
  function Next(c: Config, start: nat, s: State, a: Action): (t: State)
    requires |s.ranks| == c.size && Enabled(c, s, a)
    ensures |t.ranks| == c.size
  {
    hide Victim, Newcomer, PatternOf, MaxPos, Leave, Iterate, NextSet;
    Act(c, start, s, a)
  }

  function After(c: Config, start: nat, s: State, acts: seq<Action>): (t: State)
    requires |s.ranks| == c.size && Run(c, start, s, acts)
    ensures |t.ranks| == c.size
    decreases |acts|
  {
    if acts == [] then s else After(c, start, Next(c, start, s, acts[0]), acts[1..])
  }

  lemma ActKeepsInv(c: Config, start: nat, s: State, a: Action)
    requires Safe(c)
    requires Inv(c, start, s) && Enabled(c, s, a)
    ensures Inv(c, start, Next(c, start, s, a))
  {
    hide StoreInv, RankInv, Step, AllReduce, Together;
    AlwaysInTime(c, start, s);
    if a.Move? {
      StepKeepsInv(c, start, s, a.q, a.hit);
    } else {
      AllReduceKeepsInv(c, start, s);
    }
  }

  /**
   Safety of the whole phase: with safe parameters, whatever the interleaving
   of the ranks and whenever their clocks hit the stonewall, no stat and no read
   misses its object and every object read carries the expected pattern.
   */
  lemma {:induction false} EveryInterleavingIsSafe(c: Config, start: nat, s: State, acts: seq<Action>)
    requires Safe(c)
    requires Inv(c, start, s) && Run(c, start, s, acts)
    ensures Inv(c, start, After(c, start, s, acts))
    decreases |acts|
  {
    hide Inv, Enabled;
    if acts != [] {
      InvHasRanks(c, start, s);
      ActKeepsInv(c, start, s, acts[0]);
      EveryInterleavingIsSafe(c, start, Next(c, start, s, acts[0]), acts[1..]);
    }
  }

  lemma InvHasRanks(c: Config, start: nat, s: State)
    requires Inv(c, start, s)
    ensures |s.ranks| == c.size
  {
  }

  /** Every directory holds exactly the indices from `start` on, `precreate` of them, with their patterns. */
  ghost predicate FullWindow(c: Config, start: nat, objs: Store) {
    && (forall x :: x in objs <==> x.owner < c.size && x.d < c.dsets && start <= x.idx < start + c.precreate)
    && (forall x :: x in objs ==> objs[x] == PatternOf(c, x))
  }

  function PhaseStart(c: Config, objs: Store): (s: State)
    ensures |s.ranks| == c.size
  {
    State(objs, seq(c.size, _ => Start(c)), 0, 0)
  }

  lemma PhaseStartInv(c: Config, start: nat, objs: Store)
    requires FullWindow(c, start, objs)
    ensures Inv(c, start, PhaseStart(c, objs))
  {
    hide ReadRank, WriteRank, PatternOf;
    var s := PhaseStart(c, objs);
    assert forall q :: 0 <= q < c.size ==> s.ranks[q] == Start(c);
  }

  ghost predicate AllDone(s: State) {
    forall q :: 0 <= q < |s.ranks| ==> s.ranks[q].pc.Done?
  }

  /** By how much a rank advances its index at the end of the phase. */
  function Advance(c: Config, r: Rank): nat {
    if c.readOnly then 0 else r.f
  }

  /**
   The end of a phase: all ranks advance by the same amount, at most `num`; with
   a stonewall every rank was in exactly one all-reduce, and the common iteration
   count is the maximum of the contributed positions. Every directory again holds
   exactly `precreate` objects, from the new index on.
   */
  lemma PhaseEnd(c: Config, start: nat, s: State)
    requires Inv(c, start, s) && AllDone(s) && c.size > 0
    ensures forall q :: 0 <= q < c.size ==>
              && s.ranks[q].f == s.ranks[0].f <= c.num
              && s.ranks[q].reduces == (if c.stonewall then 1 else 0)
              && (c.stonewall ==> s.ranks[q].f == MaxPos(s.ranks))
              && (!c.stonewall ==> s.ranks[q].f == c.num)
    ensures FullWindow(c, start + Advance(c, s.ranks[0]), s.objs)
  {
    hide ReadRank, WriteRank, PatternOf, MaxPos;
    forall q | 0 <= q < c.size
      ensures s.ranks[q].f == s.ranks[0].f <= c.num
      ensures s.ranks[q].reduces == (if c.stonewall then 1 else 0)
    {
      assert RankInv(c, s.ranks[q]) && RankInv(c, s.ranks[0]);
    }
    forall x ensures x in s.objs <==>
      x.owner < c.size && x.d < c.dsets
      && start + Advance(c, s.ranks[0]) <= x.idx < start + Advance(c, s.ranks[0]) + c.precreate
    {
      if x.owner < c.size && x.d < c.dsets {
        assert Deleted(c, s.ranks[Reader(c, x)], x.d) == Advance(c, s.ranks[0]);
        assert Created(c, s.ranks[Writer(c, x)], x.d) == Advance(c, s.ranks[0]);
      }
    }
  }

  /** The objects and the index after any number of benchmark phases. */
  ghost predicate Phases(c: Config, start: nat, objs: Store, runs: seq<seq<Action>>)
    requires c.size > 0
    decreases |runs|
  {
    runs != [] ==>
      && Run(c, start, PhaseStart(c, objs), runs[0])
      && AllDone(PhaseResult(c, start, objs, runs[0]))
      && Phases(c, NextStart(c, start, objs, runs[0]), PhaseResult(c, start, objs, runs[0]).objs, runs[1..])
  }

  function PhaseResult(c: Config, start: nat, objs: Store, acts: seq<Action>): (t: State)
    requires Run(c, start, PhaseStart(c, objs), acts)
    ensures |t.ranks| == c.size
  {
    After(c, start, PhaseStart(c, objs), acts)
  }

  function NextStart(c: Config, start: nat, objs: Store, acts: seq<Action>): nat
    requires c.size > 0 && Run(c, start, PhaseStart(c, objs), acts)
  {
    start + Advance(c, PhaseResult(c, start, objs, acts).ranks[0])
  }

  /** The index and the objects when all phases are over. */
  ghost function Final(c: Config, start: nat, objs: Store, runs: seq<seq<Action>>): (nat, Store)
    requires c.size > 0 && Phases(c, start, objs, runs)
    decreases |runs|
  {
    if runs == [] then (start, objs)
    else Final(c, NextStart(c, start, objs, runs[0]), PhaseResult(c, start, objs, runs[0]).objs, runs[1..])
  }

  /** In none of the phases an object is missing or holds the wrong pattern. */
  ghost predicate NothingMissed(c: Config, start: nat, objs: Store, runs: seq<seq<Action>>)
    requires c.size > 0 && Phases(c, start, objs, runs)
    decreases |runs|
  {
    runs != [] ==>
      var t := PhaseResult(c, start, objs, runs[0]);
      && t.misses == 0 && t.badReads == 0
      && NothingMissed(c, NextStart(c, start, objs, runs[0]), t.objs, runs[1..])
  }

  /** One phase misses nothing and leaves a full window. */
  lemma PhaseIsClean(c: Config, start: nat, objs: Store, runs: seq<seq<Action>>)
    requires c.size > 0 && Safe(c) && runs != []
    requires FullWindow(c, start, objs) && Phases(c, start, objs, runs)
    ensures var t := PhaseResult(c, start, objs, runs[0]);
            && t.misses == 0 && t.badReads == 0
            && FullWindow(c, NextStart(c, start, objs, runs[0]), t.objs)
            && Phases(c, NextStart(c, start, objs, runs[0]), t.objs, runs[1..])
  {
    hide FullWindow, Run, After, AllDone;
    PhaseStartInv(c, start, objs);
    EveryInterleavingIsSafe(c, start, PhaseStart(c, objs), runs[0]);
    PhaseEnd(c, start, PhaseResult(c, start, objs, runs[0]));
  }

  /** No phase misses an object, and after any number of phases the window is full again. */
  lemma {:induction false} EveryPhaseKeepsTheWindow(c: Config, start: nat, objs: Store, runs: seq<seq<Action>>)
    requires c.size > 0 && Safe(c)
    requires FullWindow(c, start, objs) && Phases(c, start, objs, runs)
    ensures FullWindow(c, Final(c, start, objs, runs).0, Final(c, start, objs, runs).1)
    ensures NothingMissed(c, start, objs, runs)
    decreases |runs|
  {
    hide FullWindow, Run, After, AllDone;
    if runs != [] {
      PhaseIsClean(c, start, objs, runs);
      var t := PhaseResult(c, start, objs, runs[0]);
      EveryPhaseKeepsTheWindow(c, NextStart(c, start, objs, runs[0]), t.objs, runs[1..]);
    }
  }

  // ----------------------------------------------------- every phase finishes

  /** An upper bound on the steps of the iterations from `f` on. */
  function Rest(c: Config, f: nat): nat
    requires f <= c.num
  {
    MulNonnegative(c.num - f, 4 * c.dsets + 4);
    (c.num - f) * (4 * c.dsets + 4)
  }

  /** An upper bound on the steps that a rank has still to make. */
  function Work(c: Config, r: Rank): nat
    requires r.f <= c.num
  {
    var rest := Rest(c, r.f);
    var sets := if r.d < c.dsets then c.dsets - r.d else 0;
    match r.pc
    case Stat => rest + 4 * sets + 3
    case Read => rest + 4 * sets + 2
    case Delete => rest + 4 * sets + 1
    case Create => rest + 4 * sets
    case Check => rest + 3
    case Reduce => rest + 2
    case Done => 0
  }

  function TotalWork(c: Config, ranks: seq<Rank>): nat
    requires forall q :: 0 <= q < |ranks| ==> ranks[q].f <= c.num
  {
    if ranks == [] then 0 else Work(c, ranks[0]) + TotalWork(c, ranks[1..])
  }

  lemma NextIterationIsLess(c: Config, f: nat)
    requires f < c.num
    ensures Rest(c, f + 1) + (4 * c.dsets + 4) == Rest(c, f)
  {
    var k := 4 * c.dsets + 4;
    assert (c.num - f) * k == (c.num - (f + 1)) * k + k;
  }

  lemma StepWorks(c: Config, start: nat, s: State, q: nat, hit: bool)
    requires InTime(c, s.ranks)
    requires Inv(c, start, s) && Enabled(c, s, Move(q, hit))
    ensures |Step(c, start, s, q, hit).ranks| == c.size
    ensures Step(c, start, s, q, hit).ranks[q].f <= c.num
    ensures Work(c, Step(c, start, s, q, hit).ranks[q]) < Work(c, s.ranks[q])
  {
    hide ReadRank, WriteRank, InWindow, StoreInv, Together, MaxPos, Reader, Writer, PatternOf, Rest;
    StepOfRank(c, start, s, q, hit);
    var r := s.ranks[q];
    if r.pc.Stat? || r.pc.Read? || r.pc.Delete? {
      VictimExists(c, start, s, q);
    } else if r.pc.Check? {
      NextIterationIsLess(c, r.f);
    }
  }

  lemma LeaveWorks(c: Config, r: Rank, m: nat)
    requires RankInv(c, r) && r.pc.Reduce? && c.stonewall
    requires r.pos <= m <= c.num
    ensures Leave(c, r, m).f <= c.num && Work(c, Leave(c, r, m)) < Work(c, r)
  {
    hide Rest;
    if !r.armed && r.f != m {
      NextIterationIsLess(c, r.f);
    }
  }

  lemma {:induction false} WorkOfOne(c: Config, ranks: seq<Rank>, next: seq<Rank>, q: nat)
    requires q < |ranks| && |next| == |ranks| && next == ranks[q := next[q]]
    requires forall p :: 0 <= p < |ranks| ==> ranks[p].f <= c.num && next[p].f <= c.num
    requires Work(c, next[q]) < Work(c, ranks[q])
    ensures TotalWork(c, next) < TotalWork(c, ranks)
  {
    hide Work;
    if q == 0 {
      assert next[1..] == ranks[1..];
    } else {
      assert next[1..] == ranks[1..][q - 1 := next[q]];
      WorkOfOne(c, ranks[1..], next[1..], q - 1);
    }
  }

  lemma {:induction false} WorkOfAll(c: Config, ranks: seq<Rank>, next: seq<Rank>)
    requires |next| == |ranks| > 0
    requires forall p :: 0 <= p < |ranks| ==>
               ranks[p].f <= c.num && next[p].f <= c.num && Work(c, next[p]) < Work(c, ranks[p])
    ensures TotalWork(c, next) < TotalWork(c, ranks)
  {
    hide Work;
    if |ranks| > 1 {
      WorkOfAll(c, ranks[1..], next[1..]);
    }
  }

  /** Every step and every all-reduce uses up work. */
  lemma ActWorks(c: Config, start: nat, s: State, a: Action)
    requires Safe(c)
    requires Inv(c, start, s) && Enabled(c, s, a)
    ensures forall q :: 0 <= q < c.size ==> s.ranks[q].f <= c.num
    ensures forall q :: 0 <= q < c.size ==> Next(c, start, s, a).ranks[q].f <= c.num
    ensures TotalWork(c, Next(c, start, s, a).ranks) < TotalWork(c, s.ranks)
  {
    hide Work, StoreInv, Step, Leave, MaxPos, TotalWork;
    var t := Next(c, start, s, a);
    AlwaysInTime(c, start, s);
    if a.Move? {
      StepOfRank(c, start, s, a.q, a.hit);
      StepWorks(c, start, s, a.q, a.hit);
      WorkOfOne(c, s.ranks, t.ranks, a.q);
    } else {
      var m := MaxPos(s.ranks);
      MaxPosIsMax(s.ranks);
      var top :| 0 <= top < |s.ranks| && s.ranks[top].pos == m;
      assert RankInv(c, s.ranks[top]);
      forall q | 0 <= q < c.size
        ensures t.ranks[q].f <= c.num && Work(c, t.ranks[q]) < Work(c, s.ranks[q])
      {
        LeaveWorks(c, s.ranks[q], m);
      }
      WorkOfAll(c, s.ranks, t.ranks);
    }
  }

  /** A phase cannot go on for ever. */
  lemma {:induction false} RunsAreBounded(c: Config, start: nat, s: State, acts: seq<Action>)
    requires Safe(c)
    requires Inv(c, start, s) && Run(c, start, s, acts)
    ensures forall q :: 0 <= q < c.size ==> s.ranks[q].f <= c.num
    ensures |acts| <= TotalWork(c, s.ranks)
    decreases |acts|
  {
    hide Inv, TotalWork, Enabled;
    InvBounds(c, start, s);
    InvHasRanks(c, start, s);
    if acts != [] {
      ActWorks(c, start, s, acts[0]);
      ActKeepsInv(c, start, s, acts[0]);
      RunsAreBounded(c, start, Next(c, start, s, acts[0]), acts[1..]);
    }
  }

  lemma InvBounds(c: Config, start: nat, s: State)
    requires Inv(c, start, s)
    ensures forall q :: 0 <= q < c.size ==> s.ranks[q].f <= c.num
  {
  }

  /** As long as some rank is not done, some rank can move or the all-reduce can complete: no deadlock. */
  lemma SomethingIsEnabled(c: Config, start: nat, s: State) returns (a: Action)
    requires Inv(c, start, s) && !AllDone(s)
    ensures Enabled(c, s, a)
  {
    hide StoreInv, MaxPos;
    if q :| 0 <= q < |s.ranks| && !s.ranks[q].pc.Reduce? && !s.ranks[q].pc.Done? {
      return Move(q, false);
    }
    var p :| 0 <= p < |s.ranks| && !s.ranks[p].pc.Done?;
    forall q | 0 <= q < |s.ranks| ensures s.ranks[q].pc.Reduce? {
      assert RankInv(c, s.ranks[p]) && RankInv(c, s.ranks[q]);
    }
    a := Collective;
  }

  // ------------------------------------------------- precreation and cleanup

  /** The objects of data sets before `d`, and of data set `d` before index `f`, counted from `start`. */
  predicate Before(c: Config, x: Obj, rank: nat, start: nat, d: nat, f: nat) {
    x.owner == rank && start <= x.idx < start + c.precreate && (x.d < d || (x.d == d && x.idx < start + f))
  }

  /** The directories and objects that the backend holds. */
  class WorkingSet {
    const c: Config
    var dirs: set<(nat, nat)>
    var objs: Store

    constructor (c: Config)
      ensures this.c == c && dirs == {} && objs == map[]
    {
      this.c, dirs, objs := c, {}, map[];
    }

    /** Fails if the directory is there already. */
    method Mkdir(rank: nat, d: nat) returns (ok: bool)
      modifies `dirs
      ensures ok == ((rank, d) !in old(dirs))
      ensures dirs == old(dirs) + {(rank, d)}
    {
      ok := (rank, d) !in dirs;
      dirs := dirs + {(rank, d)};
    }

    /** Fails if the directory is not there or not empty. */
    method Rmdir(rank: nat, d: nat) returns (ok: bool)
      modifies `dirs
      ensures ok == ((rank, d) in old(dirs) && forall x :: x in objs ==> !(x.owner == rank && x.d == d))
      ensures dirs == if ok then old(dirs) - {(rank, d)} else old(dirs)
    {
      ok := (rank, d) in dirs && forall x :: x in objs ==> !(x.owner == rank && x.d == d);
      if ok {
        dirs := dirs - {(rank, d)};
      }
    }

    /** One rank's precreation, with the number of directories that could not be made. */
    method RunPrecreate(rank: nat) returns (errors: nat)
      modifies this
      ensures dirs == old(dirs) + set d | 0 <= d < c.dsets :: (rank, d)
      ensures (forall d :: 0 <= d < c.dsets ==> (rank, d) !in old(dirs)) ==> errors == 0
      ensures forall x :: x in objs <==> x in old(objs) || (x.d < c.dsets && Before(c, x, rank, 0, c.dsets, 0))
      ensures forall x :: x in objs ==>
                objs[x] == if x.d < c.dsets && Before(c, x, rank, 0, c.dsets, 0) then PatternOf(c, x) else old(objs)[x]
    {
      hide PatternOf;
      errors := 0;
      for i := 0 to c.dsets
        invariant dirs == old(dirs) + set d | 0 <= d < i :: (rank, d)
        invariant (forall d :: 0 <= d < c.dsets ==> (rank, d) !in old(dirs)) ==> errors == 0
        invariant objs == old(objs)
      {
        var ok := Mkdir(rank, i);
        errors := if ok then errors else errors + 1;
      }
      for f := 0 to c.precreate
        invariant dirs == old(dirs) + set d | 0 <= d < c.dsets :: (rank, d)
        invariant forall x :: x in objs <==>
                    x in old(objs) || (x.owner == rank && x.d < c.dsets && x.idx < f)
        invariant forall x :: x in objs ==>
                    objs[x] == if x.owner == rank && x.d < c.dsets && x.idx < f then PatternOf(c, x) else old(objs)[x]
      {
        for d := 0 to c.dsets
          invariant dirs == old(dirs) + set d | 0 <= d < c.dsets :: (rank, d)
          invariant forall x :: x in objs <==>
                      x in old(objs) || (x.owner == rank && x.d < c.dsets && (x.idx < f || (x.idx == f && x.d < d)))
          invariant forall x :: x in objs ==>
                      objs[x] == if x.owner == rank && x.d < c.dsets && (x.idx < f || (x.idx == f && x.d < d))
                                 then PatternOf(c, x) else old(objs)[x]
        {
          var x := Obj(rank, d, f);
          objs := objs[x := PatternOf(c, x)];
        }
      }
    }

    /** One rank's cleanup from `start` on, with the number of directories that could not be removed. */
    method RunCleanup(rank: nat, start: nat) returns (errors: nat)
      modifies this
      ensures forall x :: x in objs <==> x in old(objs) && !(x.d < c.dsets && Before(c, x, rank, start, c.dsets, 0))
      ensures (forall d :: 0 <= d < c.dsets ==> (rank, d) in old(dirs))
              && (forall x :: x in old(objs) && x.owner == rank ==> start <= x.idx < start + c.precreate)
              ==> errors == 0 && dirs == old(dirs) - set d | 0 <= d < c.dsets :: (rank, d)
    {
      errors := 0;
      ghost var clean := (forall d :: 0 <= d < c.dsets ==> (rank, d) in old(dirs))
                         && (forall x :: x in old(objs) && x.owner == rank ==> start <= x.idx < start + c.precreate);
      for d := 0 to c.dsets
        invariant forall x :: x in objs <==> x in old(objs) && !Before(c, x, rank, start, d, 0)
        invariant clean ==> errors == 0 && dirs == old(dirs) - set i | 0 <= i < d :: (rank, i)
      {
        for f := 0 to c.precreate
          invariant forall x :: x in objs <==> x in old(objs) && !Before(c, x, rank, start, d, f)
          invariant clean ==> errors == 0 && dirs == old(dirs) - set i | 0 <= i < d :: (rank, i)
        {
          objs := objs - {Obj(rank, d, f + start)};
        }
        var ok := Rmdir(rank, d);
        errors := if ok then errors else errors + 1;
      }
    }

    /** The precreate phase of all ranks: every directory is made, and the first window is full. */
    method PrecreateAll() returns (errors: nat)
      requires dirs == {} && objs == map[]
      modifies this
      ensures errors == 0
      ensures dirs == AllDirs(c, c.size)
      ensures FullWindow(c, 0, objs)
    {
      hide PatternOf;
      errors := 0;
      for rank := 0 to c.size
        invariant errors == 0 && dirs == AllDirs(c, rank)
        invariant forall x :: x in objs <==> x.owner < rank && x.d < c.dsets && x.idx < c.precreate
        invariant forall x :: x in objs ==> objs[x] == PatternOf(c, x)
      {
        var e := RunPrecreate(rank);
        errors := errors + e;
      }
    }

    /** The cleanup phase of all ranks: from a full window every directory is emptied and removed. */
    method CleanupAll(start: nat) returns (errors: nat)
      requires dirs == AllDirs(c, c.size) && FullWindow(c, start, objs)
      modifies this
      ensures errors == 0
      ensures dirs == {} && objs == map[]
    {
      errors := 0;
      for rank := 0 to c.size
        invariant errors == 0 && dirs == AllDirs(c, c.size) - AllDirs(c, rank)
        invariant forall x :: x in objs <==>
                    rank <= x.owner < c.size && x.d < c.dsets && start <= x.idx < start + c.precreate
      {
        var e := RunCleanup(rank, start);
        errors := errors + e;
      }
      assert forall x :: x !in objs;
    }

    /**
     A whole run: precreation, one benchmark phase for each of the given
     interleavings, and cleanup from the index that they have advanced to. There is
     no error and no miss, and nothing is left.
     */
    method WholeRun(runs: seq<seq<Action>>) returns (errors: nat, missed: nat)
      requires Safe(c) && c.size > 0 && dirs == {} && objs == map[]
      requires forall full :: FullWindow(c, 0, full) ==> Phases(c, 0, full, runs)
      modifies this
      ensures errors == 0 && missed == 0
      ensures dirs == {} && objs == map[]
    {
      hide FullWindow, Run, After, AllDone, AllDirs;
      errors := PrecreateAll();
      var currentIndex: nat := 0;
      missed := 0;
      assert runs[0..] == runs;
      for i := 0 to |runs|
        invariant FullWindow(c, currentIndex, objs) && Phases(c, currentIndex, objs, runs[i..])
        invariant dirs == AllDirs(c, c.size) && missed == 0
      {
        PhaseIsClean(c, currentIndex, objs, runs[i..]);
        assert runs[i..][0] == runs[i] && runs[i..][1..] == runs[i + 1..];
        var t := PhaseResult(c, currentIndex, objs, runs[i]);
        currentIndex := NextStart(c, currentIndex, objs, runs[i]);
        objs, missed := t.objs, missed + t.misses + t.badReads;
      }
      var e := CleanupAll(currentIndex);
      errors := errors + e;
    }
  }

  function AllDirs(c: Config, ranks: nat): set<(nat, nat)> {
    set r, d | 0 <= r < ranks && 0 <= d < c.dsets :: (r, d)
  }

  // ------------------------------------------------- when an object is missed

  /** Every rank but `q` has not started. */
  ghost predicate OthersAtStart(c: Config, ranks: seq<Rank>, q: nat) {
    forall p :: 0 <= p < |ranks| && p != q ==> ranks[p] == Start(c)
  }

  /** Rank `q` alone can use up all objects that were there at the start. */
  lemma UseUp(c: Config, start: nat, s: State, q: nat) returns (acts: seq<Action>)
    requires c.num > c.precreate && c.dsets > 0
    requires Inv(c, start, s) && q < c.size && OthersAtStart(c, s.ranks, q)
    requires s.ranks[q].f < c.precreate && (Operating(s.ranks[q].pc) || s.ranks[q].pc.Check?)
    requires s.ranks[q].total == c.num
    ensures Run(c, start, s, acts)
    ensures var t := After(c, start, s, acts);
            && Inv(c, start, t) && OthersAtStart(c, t.ranks, q)
            && t.ranks[q].f == c.precreate && t.ranks[q].d == 0 && t.ranks[q].pc.Stat?
    decreases Work(c, s.ranks[q])
  {
    hide StoreInv, MaxPos, Victim, Newcomer;
    assert Enabled(c, s, Move(q, false));
    StepKeepsInv(c, start, s, q, false);
    StepOfRank(c, start, s, q, false);
    StepWorks(c, start, s, q, false);
    var t := Next(c, start, s, Move(q, false));
    if t.ranks[q].f == c.precreate {
      acts := [Move(q, false)];
      assert Run(c, start, t, []);
    } else {
      var rest := UseUp(c, start, t, q);
      acts := [Move(q, false)] + rest;
      assert acts[1..] == rest;
    }
  }

  /** With other parameters there is an interleaving in which a stat misses its object. */
  lemma MissIsPossible(c: Config, start: nat, objs: Store) returns (acts: seq<Action>)
    requires !Safe(c) && c.size > 0 && c.dsets > 0
    requires FullWindow(c, start, objs)
    ensures Run(c, start, PhaseStart(c, objs), acts)
    ensures After(c, start, PhaseStart(c, objs), acts).misses > 0
  {
    hide StoreInv, MaxPos;
    var s := PhaseStart(c, objs);
    PhaseStartInv(c, start, objs);
    var ahead := [];
    if c.precreate > 0 {
      ahead := UseUp(c, start, s, 0);
    }
    var t := After(c, start, s, ahead);
    MissAtLimit(c, start, t, 0);
    acts := ahead + [Move(0, false)];
    RunAppend(c, start, s, ahead, Move(0, false));
  }

  /**
   A rank that has used up what was there misses the next object: nobody creates
   any, or another rank does and has not started, or there was none from the start.
   */
  lemma MissAtLimit(c: Config, start: nat, s: State, q: nat)
    requires !Safe(c) && c.dsets > 0
    requires Inv(c, start, s) && q < c.size && OthersAtStart(c, s.ranks, q)
    requires s.ranks[q].f == c.precreate && s.ranks[q].d == 0 && s.ranks[q].pc.Stat?
    ensures Enabled(c, s, Move(q, false))
    ensures Next(c, start, s, Move(q, false)).misses > 0
  {
    hide MaxPos, Together, ReadRank, WriteRank;
    var x := Victim(c, start, q, s.ranks[q]);
    VictimHasOneReader(c, start, q, s.ranks[q]);
    DoubleOffset(c, x.owner, 0);
    assert Created(c, s.ranks[Writer(c, x)], 0) == 0;
    assert !InWindow(c, start, s.ranks, x);
  }

  ghost predicate NeverMisses(c: Config, start: nat, objs: Store) {
    forall acts :: Run(c, start, PhaseStart(c, objs), acts) ==>
      var t := After(c, start, PhaseStart(c, objs), acts); t.misses == 0 && t.badReads == 0
  }

  /**
   The exact condition for a phase without misses, in terms of its parameters: as
   many objects were created in advance as there are iterations, or the phase
   creates objects, at least one is there in advance, and twice the offset is a
   multiple of the number of ranks.
   */
  lemma NeverMissesIff(c: Config, start: nat, objs: Store)
    requires c.size > 0 && c.dsets > 0 && FullWindow(c, start, objs)
    ensures NeverMisses(c, start, objs)
            <==> c.num <= c.precreate || (!c.readOnly && c.precreate >= 1 && 2 * c.offset % c.size == 0)
  {
    hide FullWindow, Run, After;
    if Safe(c) {
      PhaseStartInv(c, start, objs);
      forall acts | Run(c, start, PhaseStart(c, objs), acts)
        ensures var t := After(c, start, PhaseStart(c, objs), acts); t.misses == 0 && t.badReads == 0
      {
        EveryInterleavingIsSafe(c, start, PhaseStart(c, objs), acts);
      }
    } else {
      var acts := MissIsPossible(c, start, objs);
    }
  }

  /** An object that holds another pattern than its own is noticed by the rank that reads it. */
  lemma WrongPatternIsFound(c: Config, start: nat, objs: Store, q: nat) returns (acts: seq<Action>)
    requires c.num > 0 && c.dsets > 0 && q < c.size
    requires var x := Victim(c, start, q, Start(c)); x in objs && objs[x] != PatternOf(c, x)
    ensures Run(c, start, PhaseStart(c, objs), acts)
    ensures After(c, start, PhaseStart(c, objs), acts).badReads > 0
  {
    hide PatternOf, ReadRank, WriteRank;
    var s := PhaseStart(c, objs);
    assert s.ranks[q] == Start(c);
    var t := Next(c, start, s, Move(q, false));
    RunAppend(c, start, s, [], Move(q, false));
    RunAppend(c, start, s, [Move(q, false)], Move(q, false));
    acts := [Move(q, false)] + [Move(q, false)];
  }

  lemma {:induction false} RunAppend(c: Config, start: nat, s: State, acts: seq<Action>, a: Action)
    requires |s.ranks| == c.size && Run(c, start, s, acts)
    requires Enabled(c, After(c, start, s, acts), a)
    ensures Run(c, start, s, acts + [a])
    ensures After(c, start, s, acts + [a]) == Next(c, start, After(c, start, s, acts), a)
    decreases |acts|
  {
    hide Enabled, Next;
    if acts == [] {
      assert (acts + [a])[1..] == [];
    } else {
      assert (acts + [a])[1..] == acts[1..] + [a];
      RunAppend(c, start, Next(c, start, s, acts[0]), acts[1..], a);
    }
  }
}
