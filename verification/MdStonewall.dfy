/**
 What the stonewall of md-workbench does: each rank contributes the iteration
 behind which its clock first passes the stonewall, and all ranks stop after the
 largest contribution. This holds for any parameters, with or without misses.
 */
module MdStonewall {
  import opened MdWorkbench

  /**
   The number of iterations that rank `q` contributes in a run: it has passed the
   stonewall behind iteration `f`, counted from 0, or never.
   */
  ghost function Contribution(c: Config, start: nat, s: State, acts: seq<Action>, q: nat): nat
    requires |s.ranks| == c.size && q < c.size && Run(c, start, s, acts)
    decreases |acts|
  {
    if acts == [] then c.num
    else if acts[0] == Move(q, true) && s.ranks[q].pc.Check? then s.ranks[q].f + 1
    else Contribution(c, start, Next(c, start, s, acts[0]), acts[1..], q)
  }

  /** The invariant of the ranks alone. */
  ghost predicate RanksInv(c: Config, s: State) {
    && |s.ranks| == c.size
    && (forall q :: 0 <= q < c.size ==> RankInv(c, s.ranks[q]))
    && Together(s.ranks)
  }

  /** What a rank's own step does to what it knows of the all-reduce, whatever it finds. */
  lemma OwnStep(c: Config, start: nat, s: State, q: nat, hit: bool)
    requires |s.ranks| == c.size && Enabled(c, s, Move(q, hit)) && RankInv(c, s.ranks[q])
    ensures var t := Next(c, start, s, Move(q, hit));
            var r, u := s.ranks[q], t.ranks[q];
            && t.ranks == s.ranks[q := u] && RankInv(c, u)
            && u.reduces == r.reduces && u.total == r.total
            && (r.reduces == 1 ==> u.pos == r.pos)
            && (r.pc.Check? && hit && r.armed ==> u.pc.Reduce? && u.pos == r.f + 1)
            && (!(r.pc.Check? && hit && r.armed) ==> u.armed == r.armed && (u.pc.Reduce? ==> u.pos == u.total))
  {
    hide Victim, Newcomer, PatternOf;
  }

  lemma MoveKeepsRanks(c: Config, start: nat, s: State, q: nat, hit: bool)
    requires RanksInv(c, s) && Enabled(c, s, Move(q, hit))
    ensures RanksInv(c, Next(c, start, s, Move(q, hit)))
  {
    hide RankInv, Next, MaxPos;
    var t := Next(c, start, s, Move(q, hit));
    OwnStep(c, start, s, q, hit);
    if s.ranks[q].reduces == 1 {
      MaxPosOfSame(s.ranks, t.ranks);
    }
  }

  /** In the all-reduce every rank keeps what it contributed, and adopts the maximum. */
  lemma CollectiveKeepsRanks(c: Config, start: nat, s: State)
    requires RanksInv(c, s) && Enabled(c, s, Collective)
    ensures var t := Next(c, start, s, Collective);
            && RanksInv(c, t)
            && forall q :: 0 <= q < c.size ==>
                 t.ranks[q] == Leave(c, s.ranks[q], MaxPos(s.ranks)) && t.ranks[q].pos == s.ranks[q].pos
                 && t.ranks[q].reduces == 1 && !t.ranks[q].pc.Reduce?
  {
    hide MaxPos;
    var t, m := Next(c, start, s, Collective), MaxPos(s.ranks);
    MaxPosIsMax(s.ranks);
    var top :| 0 <= top < |s.ranks| && s.ranks[top].pos == m;
    ReduceFacts(c, s.ranks[top]);
    forall q | 0 <= q < c.size
      ensures RankInv(c, t.ranks[q]) && t.ranks[q].reduces == 1 && t.ranks[q].total == m
      ensures t.ranks[q].pos == s.ranks[q].pos && !t.ranks[q].pc.Reduce?
    {
      ReduceFacts(c, s.ranks[q]);
      LeaveKeepsRank(c, s.ranks[q], m);
    }
    MaxPosOfSame(s.ranks, t.ranks);
  }

  /** Past all iterations a rank does not pass the stonewall any more. */
  ghost predicate Past(c: Config, r: Rank) {
    (r.pc.Reduce? && r.armed) || r.pc.Done?
  }

  lemma {:induction false} NoMoreChecks(c: Config, start: nat, s: State, acts: seq<Action>, q: nat)
    requires RanksInv(c, s) && q < c.size && Run(c, start, s, acts) && Past(c, s.ranks[q])
    ensures Contribution(c, start, s, acts, q) == c.num
    decreases |acts|
  {
    hide Next, MaxPos, Together;
    if acts != [] {
      var t := Next(c, start, s, acts[0]);
      StepKeepsRanks(c, start, s, acts[0]);
      OthersStay(c, start, s, acts[0], q);
      NoMoreChecks(c, start, t, acts[1..], q);
    }
  }

  lemma StepKeepsRanks(c: Config, start: nat, s: State, a: Action)
    requires RanksInv(c, s) && Enabled(c, s, a)
    ensures RanksInv(c, Next(c, start, s, a))
  {
    hide RanksInv, Enabled, Next;
    match a
    case Move(q, hit) => MoveKeepsRanks(c, start, s, q, hit);
    case Collective => CollectiveKeepsRanks(c, start, s);
  }

  /** A rank that is past all iterations stays so, and no other rank's move changes it. */
  lemma OthersStay(c: Config, start: nat, s: State, a: Action, q: nat)
    requires RanksInv(c, s) && Enabled(c, s, a) && q < c.size
    ensures a.Move? && a.q != q ==> Next(c, start, s, a).ranks[q] == s.ranks[q]
    ensures Past(c, s.ranks[q]) ==> Past(c, Next(c, start, s, a).ranks[q])
  {
    hide Next, MaxPos, Together, RankInv, Leave;
    match a
    case Move(p, hit) => OwnStep(c, start, s, p, hit);
    case Collective =>
      CollectiveKeepsRanks(c, start, s);
      ArmedIsDone(c, s.ranks[q], MaxPos(s.ranks));
  }

  lemma ArmedIsDone(c: Config, r: Rank, m: nat)
    ensures r.armed ==> Leave(c, r, m).pc.Done?
  {
  }

  /** What a rank contributes, or has contributed already. */
  ghost function Given(c: Config, start: nat, s: State, acts: seq<Action>, q: nat): nat
    requires |s.ranks| == c.size && q < c.size && Run(c, start, s, acts)
  {
    var r := s.ranks[q];
    if r.reduces == 1 || r.pc.Reduce? then r.pos else Contribution(c, start, s, acts, q)
  }

  /** No step changes what a rank is going to have contributed. */
  lemma StepKeepsGiven(c: Config, start: nat, s: State, acts: seq<Action>, q: nat)
    requires c.stonewall && RanksInv(c, s) && q < c.size && Run(c, start, s, acts) && acts != []
    ensures Given(c, start, Next(c, start, s, acts[0]), acts[1..], q) == Given(c, start, s, acts, q)
  {
    hide Next, MaxPos, Together, Leave;
    var t := Next(c, start, s, acts[0]);
    StepKeepsRanks(c, start, s, acts[0]);
    match acts[0] {
      case Collective => CollectiveKeepsRanks(c, start, s);
      case Move(p, hit) =>
        OwnStep(c, start, s, p, hit);
        assert RankInv(c, s.ranks[q]) && RankInv(c, t.ranks[q]);
        if p == q && s.ranks[q].reduces == 0 && t.ranks[q].pc.Reduce? && t.ranks[q].armed {
          NoMoreChecks(c, start, t, acts[1..], q);
        }
    }
  }

  lemma {:induction false} GivenInTheEnd(c: Config, start: nat, s: State, acts: seq<Action>, q: nat)
    requires c.stonewall && RanksInv(c, s) && q < c.size && Run(c, start, s, acts)
    requires AllDone(After(c, start, s, acts))
    ensures RanksInv(c, After(c, start, s, acts))
    ensures After(c, start, s, acts).ranks[q].pos == Given(c, start, s, acts, q)
    decreases |acts|
  {
    hide Next, MaxPos, Together, Enabled, Contribution;
    if acts == [] {
      assert RankInv(c, s.ranks[q]) && s.ranks[q].pc.Done?;
    } else {
      StepKeepsRanks(c, start, s, acts[0]);
      StepKeepsGiven(c, start, s, acts, q);
      GivenInTheEnd(c, start, Next(c, start, s, acts[0]), acts[1..], q);
    }
  }

  lemma StartRanks(c: Config, objs: Store)
    ensures RanksInv(c, PhaseStart(c, objs))
  {
    var s := PhaseStart(c, objs);
    assert forall q :: 0 <= q < c.size ==> s.ranks[q] == Start(c);
  }

  /** At the start nothing is contributed, unless there are no iterations at all. */
  lemma GivenAtStart(c: Config, start: nat, objs: Store, acts: seq<Action>, q: nat)
    requires c.stonewall && q < c.size && Run(c, start, PhaseStart(c, objs), acts)
    ensures Given(c, start, PhaseStart(c, objs), acts, q) == Contribution(c, start, PhaseStart(c, objs), acts, q)
  {
    hide Run;
    StartRanks(c, objs);
    assert PhaseStart(c, objs).ranks[q] == Start(c);
    if c.num == 0 {
      NoMoreChecks(c, start, PhaseStart(c, objs), acts, q);
    }
  }

  /**
   Where the stonewall ends a phase: in every complete run of a phase with a
   stonewall, all ranks make as many iterations as the rank that contributes most.
   */
  lemma StonewallEndsPhase(c: Config, start: nat, objs: Store, acts: seq<Action>)
    requires c.stonewall && c.size > 0 && Run(c, start, PhaseStart(c, objs), acts)
    requires AllDone(After(c, start, PhaseStart(c, objs), acts))
    ensures var t := After(c, start, PhaseStart(c, objs), acts);
            var f := t.ranks[0].f;
            && (forall q :: 0 <= q < c.size ==> t.ranks[q].f == f)
            && (forall q :: 0 <= q < c.size ==> Contribution(c, start, PhaseStart(c, objs), acts, q) <= f)
            && exists q :: 0 <= q < c.size && Contribution(c, start, PhaseStart(c, objs), acts, q) == f
  {
    hide Run, After, Contribution, MaxPos;
    var s := PhaseStart(c, objs);
    var t := After(c, start, s, acts);
    StartRanks(c, objs);
    forall q | 0 <= q < c.size
      ensures t.ranks[q].pos == Contribution(c, start, s, acts, q) && RanksInv(c, t)
    {
      GivenAtStart(c, start, objs, acts, q);
      GivenInTheEnd(c, start, s, acts, q);
    }
    MaxPosIsMax(t.ranks);
    assert t.ranks[0].pos == Contribution(c, start, s, acts, 0);
    forall q | 0 <= q < c.size ensures t.ranks[q].f == MaxPos(t.ranks) {
      assert RankInv(c, t.ranks[q]) && t.ranks[q].pc.Done?;
    }
  }

  /** If every rank passes the stonewall no later than behind iteration `k`, no rank makes more than `k + 1`. */
  lemma NoneGoesOn(c: Config, start: nat, objs: Store, acts: seq<Action>, k: nat)
    requires c.stonewall && c.size > 0 && Run(c, start, PhaseStart(c, objs), acts)
    requires AllDone(After(c, start, PhaseStart(c, objs), acts))
    requires forall q :: 0 <= q < c.size ==> Contribution(c, start, PhaseStart(c, objs), acts, q) <= k + 1
    ensures forall q :: 0 <= q < c.size ==> After(c, start, PhaseStart(c, objs), acts).ranks[q].f <= k + 1
  {
    hide Run, After, Contribution;
    StonewallEndsPhase(c, start, objs, acts);
  }
}
