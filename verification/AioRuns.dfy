/**
 All runs of the asynchronous backend in which the kernel carries out everything
 in full: exactly when they leave the files that immediate writes would leave.
 */
module AioRuns {
  import opened Sequences
  import opened Aio

  /** A write is requested, the submit array handed over, an operation carried out, or an event reaped. */
  datatype Action = Request(op: WriteOp) | Send | Carry(i: nat, at: nat) | Collect

  predicate Enabled(s: State, a: Action) {
    match a
    case Request(op) => CanEnqueue(s, op.data)
    case Send => true
    case Carry(i, at) => i < |s.waiting| && CanCarryOut(s, i, s.waiting[i].len, BufferOf(s, i), at)
    case Collect => s.finished != []
  }

  /** What the buffer of a waiting operation holds. */
  function BufferOf(s: State, i: nat): seq<Byte> {
    if i < |s.waiting| && s.waiting[i].idx < |s.pool| then s.pool[s.waiting[i].idx] else []
  }

  ghost function Next(s: State, a: Action): State
    requires Enabled(s, a)
  {
    match a
    case Request(op) => Enqueue(s, Write, op.fd, op.offset, op.data)
    case Send => Submit(s)
    case Carry(i, at) => CarryOut(s, i, s.waiting[i].len, BufferOf(s, i), at)
    case Collect => Reap(s)
  }

  ghost predicate Run(s: State, acts: seq<Action>)
    decreases |acts|
  {
    acts != [] ==> Enabled(s, acts[0]) && Run(Next(s, acts[0]), acts[1..])
  }

  ghost function After(s: State, acts: seq<Action>): State
    requires Run(s, acts)
    decreases |acts|
  {
    if acts == [] then s else After(Next(s, acts[0]), acts[1..])
  }

  /** The writes that a run requests, in order. */
  function Requested(acts: seq<Action>): seq<WriteOp> {
    if acts == [] then []
    else (if acts[0].Request? then [acts[0].op] else []) + Requested(acts[1..])
  }

  /** A run that requests these writes and ends with nothing outstanding. */
  ghost predicate Drains(s: State, acts: seq<Action>, ops: seq<WriteOp>) {
    Run(s, acts) && Requested(acts) == ops && Outstanding(After(s, acts)) == []
  }

  lemma {:induction false} RunAppend(s: State, a: seq<Action>, b: seq<Action>)
    requires Run(s, a) && Run(After(s, a), b)
    ensures Run(s, a + b) && After(s, a + b) == After(After(s, a), b)
    ensures Requested(a + b) == Requested(a) + Requested(b)
    decreases |a|
  {
    hide *;
    if a == [] {
      assert a + b == b;
      NoActions(s);
    } else {
      assert (a + b)[0] == a[0] && (a + b)[1..] == a[1..] + b;
      FirstAction(s, a);
      FirstAction(s, a + b);
      RunAppend(Next(s, a[0]), a[1..], b);
    }
  }

  lemma NoActions(s: State)
    ensures Run(s, []) && After(s, []) == s && Requested([]) == []
  {
  }

  /** A run is its first action and the run from there. */
  lemma FirstAction(s: State, acts: seq<Action>)
    requires acts != []
    ensures Run(s, acts) <==> Enabled(s, acts[0]) && Run(Next(s, acts[0]), acts[1..])
    ensures Run(s, acts) ==> After(s, acts) == After(Next(s, acts[0]), acts[1..])
    ensures Requested(acts) == (if acts[0].Request? then [acts[0].op] else []) + Requested(acts[1..])
  {
    hide Enabled, Next;
  }

  // ------------------------------------------------- what is not carried out yet

  function Unfinished(s: State): seq<Iocb> {
    s.pending + s.waiting
  }

  /** The byte that a write is going to store there. */
  function Coming(s: State, c: Iocb, l: Loc): Byte {
    if c.idx < |s.pool| && c.offset <= l.pos < c.offset + |s.pool[c.idx]| then s.pool[c.idx][l.pos - c.offset] else 0
  }

  /** Every write that is not carried out yet is going to store what the synchronous program has there. */
  ghost predicate UnfinishedHold(s: State) {
    forall c, l :: c in Unfinished(s) && Covers(c, l) ==> l in s.sync && s.sync[l] == Coming(s, c, l)
  }

  /** Everywhere else the files are those of the synchronous program already. */
  ghost predicate RestSame(s: State) {
    forall l :: Untouched(s, l) ==> SameAt(s.files, s.sync, l)
  }

  ghost predicate Untouched(s: State, l: Loc) {
    forall c :: c in Unfinished(s) ==> !Covers(c, l)
  }

  // ------------------------------------------------------------ schedules exist

  lemma CarryEnabled(s: State, i: nat, at: nat)
    requires Inv(s) && i < |s.waiting| && at <= |s.finished|
    ensures Enabled(s, Carry(i, at))
  {
    WaitingIsSafe(s, i);
  }

  /** A step keeps the invariant and the full results. */
  lemma StepKeepsInv(s: State, a: Action)
    requires Inv(s) && Enabled(s, a)
    ensures Inv(Next(s, a)) && (s.full ==> Next(s, a).full)
  {
    hide Inv, Outstanding, Bytes, Repeats, Store, AllFull;
    match a
    case Request(op) => EnqueueKeepsInv(s, Write, op.fd, op.offset, op.data);
    case Send => SubmitKeepsInv(s);
    case Carry(i, at) => CarryOutKeepsInv(s, i, s.waiting[i].len, BufferOf(s, i), at);
    case Collect => ReapKeepsInv(s);
  }

  /** Carrying out one more operation. */
  lemma CarryFacts(s: State, i: nat)
    requires Inv(s) && s.full && i < |s.waiting|
    ensures Enabled(s, Carry(i, 0))
    ensures var t, c := Next(s, Carry(i, 0)), s.waiting[i];
            && Inv(t) && t.full && t.pending == s.pending && t.waiting == Without(s.waiting, i)
            && |t.finished| == |s.finished| + 1 && t.sync == s.sync && t.pool == s.pool
            && (forall l :: !Covers(c, l) ==> SameAt(t.files, s.files, l))
            && (forall l :: Covers(c, l) ==> l in t.files && t.files[l] == Coming(s, c, l))
  {
    hide Inv, Next, Without;
    CarryEnabled(s, i, 0);
    StepKeepsInv(s, Carry(i, 0));
    CarryStores(s, i, 0);
  }

  lemma CarryStores(s: State, i: nat, at: nat)
    requires i < |s.waiting| && Enabled(s, Carry(i, at))
    ensures var t, c := Next(s, Carry(i, at)), s.waiting[i];
            && t.pending == s.pending && t.waiting == Without(s.waiting, i)
            && |t.finished| == |s.finished| + 1 && t.sync == s.sync && t.pool == s.pool
            && (forall l :: !Covers(c, l) ==> SameAt(t.files, s.files, l))
            && (forall l :: Covers(c, l) ==> l in t.files && t.files[l] == Coming(s, c, l))
  {
    hide Store, Without;
  }

  /** Drains the queue; where nothing was going to be stored the files stay. */
  lemma DrainAll(s: State, l: Loc) returns (acts: seq<Action>)
    requires Inv(s) && s.full && s.pending == []
    ensures Drains(s, acts, []) && After(s, acts).sync == s.sync
    ensures Untouched(s, l) ==> SameAt(After(s, acts).files, s.files, l)
    decreases |s.waiting|, |s.finished|
  {
    hide Inv, Outstanding, Covers, Store;
    if s.waiting != [] {
      CarryFacts(s, 0);
      var t := Next(s, Carry(0, 0));
      assert s.waiting[0] in Unfinished(s) && forall c :: c in Unfinished(t) ==> c in Unfinished(s);
      acts := DrainAll(t, l);
      ThenDrain(s, Carry(0, 0), acts);
      acts := [Carry(0, 0)] + acts;
    } else if s.finished != [] {
      StepKeepsInv(s, Collect);
      acts := DrainAll(Next(s, Collect), l);
      ThenDrain(s, Collect, acts);
      acts := [Collect] + acts;
    } else {
      acts := [];
      OutstandingSize(s);
    }
  }

  lemma ThenDrain(s: State, a: Action, acts: seq<Action>)
    requires Enabled(s, a) && !a.Request? && Drains(Next(s, a), acts, [])
    ensures Drains(s, [a] + acts, []) && After(s, [a] + acts) == After(Next(s, a), acts)
  {
    hide Enabled, Next, Outstanding;
    assert ([a] + acts)[1..] == acts;
  }

  /** Drains the queue so that a chosen write is carried out last: its bytes are what is left. */
  lemma DrainLast(s: State, c: Iocb, l: Loc) returns (acts: seq<Action>)
    requires Inv(s) && s.full && s.pending == [] && c in s.waiting && Covers(c, l)
    ensures Drains(s, acts, []) && After(s, acts).sync == s.sync
    ensures l in After(s, acts).files && After(s, acts).files[l] == Coming(s, c, l)
    decreases |s.waiting|
  {
    hide Inv, Outstanding, Covers, Store;
    var i: nat := if s.waiting[0] == c && |s.waiting| > 1 then 1 else 0;
    CarryFacts(s, i);
    var t := Next(s, Carry(i, 0));
    if |s.waiting| > 1 {
      OthersDiffer(s, i, c);
      acts := DrainLast(t, c, l);
    } else {
      acts := DrainAll(t, l);
    }
    ThenDrain(s, Carry(i, 0), acts);
    acts := [Carry(i, 0)] + acts;
  }

  lemma OthersDiffer(s: State, i: nat, c: Iocb)
    requires Inv(s) && i < |s.waiting| && |s.waiting| > 1 && c in s.waiting
    requires i == if s.waiting[0] == c then 1 else 0
    ensures c in Without(s.waiting, i)
  {
    BufferHasOneOwner(s);
    if s.waiting[0] == c {
      assert Without(s.waiting, i)[0] == c;
    } else {
      var k :| 0 <= k < |s.waiting| && s.waiting[k] == c;
      assert Without(s.waiting, i)[k - 1] == c;
    }
  }

  // ------------------------------------------------------- from any one state

  /** Without further requests, what is going to be stored and what is there keep adding up. */
  lemma StepKeepsHold(s: State, a: Action)
    requires Inv(s) && s.full && Enabled(s, a) && !a.Request?
    requires UnfinishedHold(s) && RestSame(s)
    ensures UnfinishedHold(Next(s, a)) && RestSame(Next(s, a)) && Next(s, a).sync == s.sync
  {
    if a.Carry? {
      CarryKeepsHold(s, a.i, a.at);
    } else {
      QuietStep(s, a);
      hide Inv, Covers, Next, Unfinished;
      var t := Next(s, a);
      assert forall l :: Untouched(t, l) ==> Untouched(s, l);
    }
  }

  /** Handing over and reaping change neither files nor buffers, nor what is unfinished. */
  lemma QuietStep(s: State, a: Action)
    requires Enabled(s, a) && (a.Send? || a.Collect?)
    ensures var t := Next(s, a);
            && t.files == s.files && t.pool == s.pool && t.sync == s.sync
            && forall c :: c in Unfinished(t) <==> c in Unfinished(s)
  {
  }

  lemma CarryKeepsHold(s: State, i: nat, at: nat)
    requires Inv(s) && s.full && Enabled(s, Carry(i, at))
    requires UnfinishedHold(s) && RestSame(s)
    ensures var t := Next(s, Carry(i, at)); UnfinishedHold(t) && RestSame(t) && t.sync == s.sync
  {
    hide Inv, Covers, Store, Next;
    var t, c := Next(s, Carry(i, at)), s.waiting[i];
    CarryStores(s, i, at);
    assert c in Unfinished(s) && forall d :: d in Unfinished(s) <==> d == c || d in Unfinished(t);
    forall l | Untouched(t, l) ensures SameAt(t.files, t.sync, l) {
      if !Covers(c, l) {
        assert Untouched(s, l);
      }
    }
  }

  lemma {:induction false} DrainsRight(s: State, acts: seq<Action>)
    requires Inv(s) && s.full && UnfinishedHold(s) && RestSame(s) && Drains(s, acts, [])
    ensures After(s, acts).files == s.sync
    decreases |acts|
  {
    hide Inv, UnfinishedHold, Covers, Enabled, Next, Outstanding;
    if acts == [] {
      OutstandingSize(s);
      forall l ensures SameAt(s.files, s.sync, l) {
        assert Untouched(s, l);
      }
      SameEverywhere(s.files, s.sync);
    } else {
      NoRequest(acts);
      StepKeepsInv(s, acts[0]);
      StepKeepsHold(s, acts[0]);
      DrainsRight(Next(s, acts[0]), acts[1..]);
    }
  }

  lemma NoRequest(acts: seq<Action>)
    requires acts != [] && Requested(acts) == []
    ensures !acts[0].Request? && Requested(acts[1..]) == []
  {
  }

  ghost predicate AlwaysRight(s: State) {
    forall acts :: Drains(s, acts, []) ==> After(s, acts).files == s.sync
  }

  /**
   Whatever state the backend is in, with full results so far: every order in which
   the kernel can carry out the rest, in full, ends with the files of the synchronous
   program if and only if every write that is not carried out yet is going to store
   what that program has there, and everywhere else the files are right already.
   */
  lemma AlwaysRightIff(s: State)
    requires Inv(s) && s.full
    ensures AlwaysRight(s) <==> UnfinishedHold(s) && RestSame(s)
  {
    hide Inv, Covers, Outstanding;
    if UnfinishedHold(s) && RestSame(s) {
      forall acts | Drains(s, acts, []) ensures After(s, acts).files == s.sync {
        DrainsRight(s, acts);
      }
    } else {
      var t := Submit(s);
      StepKeepsInv(s, Send);
      var acts: seq<Action>;
      if !UnfinishedHold(s) {
        var c, l :| c in Unfinished(s) && Covers(c, l) && !(l in s.sync && s.sync[l] == Coming(s, c, l));
        acts := DrainLast(t, c, l);
      } else {
        var l :| Untouched(s, l) && !SameAt(s.files, s.sync, l);
        assert Untouched(t, l);
        acts := DrainAll(t, l);
      }
      ThenDrain(s, Send, acts);
      assert After(s, [Send] + acts).files != s.sync;
    }
  }

  // ------------------------------------------------------- any list of writes

  ghost predicate Fits(s: State, ops: seq<WriteOp>) {
    |ops| <= |s.free| && forall op :: op in ops ==> |op.data| <= s.bufferSize
  }

  /** Nothing is outstanding, and the files are those of the synchronous program. */
  ghost predicate Settled(s: State) {
    Inv(s) && s.full && s.agree && Outstanding(s) == [] && s.files == s.sync
  }

  /** A run with full results, `n` writes of which were requested before. */
  lemma {:induction false} AgreeingRun(s: State, acts: seq<Action>, f: Files, ops: seq<WriteOp>, n: nat)
    requires PairwiseAgree(ops) && n <= |ops|
    requires Inv(s) && s.full && s.agree && s.sync == StoreAll(f, ops[..n]) && Among(Outstanding(s), ops[..n])
    requires Drains(s, acts, ops[n..])
    ensures After(s, acts).files == StoreAll(f, ops)
    decreases |acts|
  {
    hide Inv, Enabled, Next, Outstanding, PairwiseAgree, StoreAll, Among;
    if acts == [] {
      assert ops[..n] == ops;
      DrainedInFull(s);
    } else {
      StepKeepsInv(s, acts[0]);
      var t := Next(s, acts[0]);
      if acts[0].Request? {
        assert ops[n..] == [ops[n]] + ops[n + 1..] == [acts[0].op] + Requested(acts[1..]);
        RequestAgrees(s, f, ops, n);
        AgreeingRun(t, acts[1..], f, ops, n + 1);
      } else {
        assert Requested(acts) == [] + Requested(acts[1..]) == Requested(acts[1..]);
        StepRequestsNothing(s, acts[0], ops[..n]);
        AgreeingRun(t, acts[1..], f, ops, n);
      }
    }
  }

  lemma DrainedInFull(s: State)
    requires Inv(s) && s.full && s.agree && Outstanding(s) == []
    ensures s.files == s.sync
  {
    NothingLost(s);
    DrainedFilesAreSynchronous(s);
  }

  lemma RequestAgrees(s: State, f: Files, ops: seq<WriteOp>, n: nat)
    requires PairwiseAgree(ops) && n < |ops| && Enabled(s, Request(ops[n])) && s.agree
    requires s.sync == StoreAll(f, ops[..n]) && Among(Outstanding(s), ops[..n])
    ensures var t := Next(s, Request(ops[n]));
            && t.agree && t.full == s.full && t.sync == StoreAll(f, ops[..n + 1]) && Among(Outstanding(t), ops[..n + 1])
  {
    hide Outstanding, PairwiseAgree, Store, Inv;
    var op := ops[n];
    NextRepeats(f, s, ops, n);
    RepeatsAnywhere(s, op);
    EnqueueAdds(s, Write, op.fd, op.offset, op.data);
    hide Repeats;
    var t := Next(s, Request(op));
    var soFar := ops[..n + 1];
    assert soFar == ops[..n] + [op] && soFar[..n] == ops[..n];
    forall d | d in Outstanding(t) ensures exists j :: 0 <= j < n + 1 && SameExtent(d, soFar[j]) {
      if d in Outstanding(s) {
        var j :| 0 <= j < n && SameExtent(d, ops[..n][j]);
        assert SameExtent(d, soFar[j]);
      } else {
        assert SameExtent(d, soFar[n]);
      }
    }
  }

  lemma RepeatsAnywhere(s: State, op: WriteOp)
    requires Repeats(s, Iocb(Write, op.fd, 0, |op.data|, op.offset), op.data)
    ensures forall i :: Repeats(s, Iocb(Write, op.fd, i, |op.data|, op.offset), op.data)
  {
    RepeatsLater(s, s, Write, op.fd, op.offset, op.data);
  }

  lemma StepRequestsNothing(s: State, a: Action, ops: seq<WriteOp>)
    requires Inv(s) && Enabled(s, a) && !a.Request? && Among(Outstanding(s), ops)
    ensures var t := Next(s, a); t.sync == s.sync && t.agree == s.agree && Among(Outstanding(t), ops)
  {
    hide Inv, Outstanding, Store, SameExtent;
    match a
    case Send => SubmitReorders(s);
    case Carry(i, at) => CarryOutReorders(s, i, s.waiting[i].len, BufferOf(s, i), at);
    case Collect => ReapRemoves(s);
  }

  /** A write waits to be handed over, and its buffer holds its data. */
  ghost predicate Queued(s: State, op: WriteOp) {
    exists c :: c in s.pending && SameExtent(c, op) && c.idx < |s.pool| && op.data <= s.pool[c.idx]
  }

  /** As many writes as buffers are free can all be requested before anything is carried out. */
  lemma {:induction false} QueueAll(s: State, ops: seq<WriteOp>) returns (acts: seq<Action>)
    requires Inv(s) && s.full && Fits(s, ops)
    ensures Run(s, acts) && Requested(acts) == ops
    ensures var t := After(s, acts);
            && Inv(t) && t.full && |t.free| == |s.free| - |ops| && t.bufferSize == s.bufferSize
            && t.sync == StoreAll(s.sync, ops)
            && forall op :: op in ops ==> Queued(t, op)
    decreases |ops|
  {
    hide Inv, Enabled, Next, Queued, Store;
    if ops == [] {
      acts := [];
    } else {
      var init, op := ops[..|ops| - 1], ops[|ops| - 1];
      assert ops == init + [op];
      acts := QueueAll(s, init);
      var t := After(s, acts);
      QueueOne(t, op);
      assert Run(t, [Request(op)]);
      RunAppend(s, acts, [Request(op)]);
      forall o | o in init ensures Queued(Next(t, Request(op)), o) {
        StaysQueued(t, op, o);
      }
      acts := acts + [Request(op)];
    }
  }

  lemma QueueOne(s: State, op: WriteOp)
    requires Inv(s) && s.full && s.free != [] && |op.data| <= s.bufferSize
    ensures Enabled(s, Request(op))
    ensures var t := Next(s, Request(op));
            && Inv(t) && t.full && |t.free| == |s.free| - 1 && t.bufferSize == s.bufferSize
            && t.sync == Store(s.sync, op.fd, op.offset, op.data) && Queued(t, op)
  {
    FreeIsUsable(s);
    StepKeepsInv(s, Request(op));
    hide Inv, Store, Repeats, Outstanding;
    var t, c := Next(s, Request(op)), TopIocb(s, Write, op.fd, op.offset, |op.data|);
    assert c in t.pending && SameExtent(c, op);
  }

  lemma StaysQueued(s: State, op: WriteOp, o: WriteOp)
    requires Inv(s) && Enabled(s, Request(op)) && Queued(s, o)
    ensures Queued(Next(s, Request(op)), o)
  {
    var c :| c in s.pending && SameExtent(c, o) && c.idx < |s.pool| && o.data <= s.pool[c.idx];
    assert c in Outstanding(s);
    EnqueueLeavesBuffer(s, Write, op.fd, op.offset, op.data, c);
    hide Inv, Store, Repeats, Outstanding;
    var t := Next(s, Request(op));
    assert c in t.pending && |t.pool| == |s.pool| && t.pool[c.idx] == s.pool[c.idx];
  }

  /** All writes are queued, then one of them is carried out last. */
  lemma RunWithLast(s: State, ops: seq<WriteOp>, v: nat, l: Loc) returns (acts: seq<Action>)
    requires Inv(s) && s.full && Fits(s, ops) && v < |ops| && Within(l, ops[v])
    ensures Drains(s, acts, ops)
    ensures l in After(s, acts).files && After(s, acts).files[l] == ByteAt(ops[v], l)
  {
    hide Inv, Outstanding, Enabled, After, Run, Requested;
    var queue := QueueAll(s, ops);
    var t := After(s, queue);
    assert ops[v] in ops;
    var c :| c in t.pending && SameExtent(c, ops[v]) && c.idx < |t.pool| && ops[v].data <= t.pool[c.idx];
    StepKeepsInv(t, Send) by { SendIsEnabled(t); }
    SendIsEnabled(t);
    var u := Next(t, Send);
    var drain := DrainLast(u, c, l);
    ThenDrain(t, Send, drain);
    RunAppend(s, queue, [Send] + drain);
    acts := queue + ([Send] + drain);
    assert ops + [] == ops;
  }

  lemma SendIsEnabled(s: State)
    ensures Enabled(s, Send)
  {
  }

  ghost predicate RightInEveryRun(s: State, ops: seq<WriteOp>) {
    forall acts :: Drains(s, acts, ops) ==> After(s, acts).files == StoreAll(s.files, ops)
  }

  /**
   The exact condition for a list of writes. From any settled state with that many
   free buffers: every run with full results that requests these writes and drains
   leaves what performing them one after the other would leave, if and only if the
   writes agree wherever two of them meet. For the first half no buffer has to be
   free in advance.
   */
  lemma RightInEveryRunIff(s: State, ops: seq<WriteOp>)
    requires Settled(s)
    ensures PairwiseAgree(ops) ==> RightInEveryRun(s, ops)
    ensures Fits(s, ops) ==> (RightInEveryRun(s, ops) <==> PairwiseAgree(ops))
  {
    hide Inv, StoreAll, PairwiseAgree, Outstanding;
    if PairwiseAgree(ops) {
      forall acts | Drains(s, acts, ops) ensures After(s, acts).files == StoreAll(s.files, ops) {
        assert ops[..0] == [] && ops[0..] == ops;
        StoreNothing(s.files);
        AgreeingRun(s, acts, s.files, ops, 0);
      }
    } else if Fits(s, ops) {
      var acts := BadRun(s, ops);
    }
  }

  lemma StoreNothing(f: Files)
    ensures StoreAll(f, []) == f
  {
  }

  lemma BadRun(s: State, ops: seq<WriteOp>) returns (acts: seq<Action>)
    requires Settled(s) && Fits(s, ops) && !PairwiseAgree(ops)
    ensures Drains(s, acts, ops) && After(s, acts).files != StoreAll(s.files, ops)
  {
    hide Inv, StoreAll, Drains;
    var i, j, l :| 0 <= i < j < |ops| && Within(l, ops[i]) && Within(l, ops[j])
                   && ByteAt(ops[i], l) != ByteAt(ops[j], l);
    var f := StoreAll(s.files, ops);
    acts := RunWithLast(s, ops, if l in f && f[l] == ByteAt(ops[i], l) then j else i, l);
  }

  /** As many one-byte buffers as the smallest pool that the parameter check accepts. */
  const EIGHT_BUFFERS := State(
    8, 8, [], [], [], Upto(8), seq(8, _ => [0]), 1, 0, 0, map[], map[], true, true)

  lemma EightBuffersAreSettled()
    ensures Settled(EIGHT_BUFFERS) && |EIGHT_BUFFERS.free| == 8 && EIGHT_BUFFERS.bufferSize == 1
  {
    var s := EIGHT_BUFFERS;
    assert Outstanding(s) == [] && Indices(Outstanding(s)) == [] && Bytes(Outstanding(s)) == 0;
    assert Owned(s);
  }

  /** Two writes of different bytes to one place, queued together, can be carried out the other way round. */
  lemma OverlappingWritesCanSwap(a: Byte, b: Byte) returns (acts: seq<Action>)
    requires a != b
    ensures var ops := [WriteOp(0, 0, [a]), WriteOp(0, 0, [b])];
            Drains(EIGHT_BUFFERS, acts, ops) && After(EIGHT_BUFFERS, acts).files != StoreAll(map[], ops)
  {
    hide Drains, StoreAll;
    var ops := [WriteOp(0, 0, [a]), WriteOp(0, 0, [b])];
    EightBuffersAreSettled();
    assert Within(Loc(0, 0), ops[0]) && Within(Loc(0, 0), ops[1]);
    assert ByteAt(ops[0], Loc(0, 0)) == a && ByteAt(ops[1], Loc(0, 0)) == b;
    acts := BadRun(EIGHT_BUFFERS, ops);
  }
}
