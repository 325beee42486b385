/**
 The asynchronous-I/O backend: a bounded queue of operations over a pool of
 buffers. Operations wait in a submit array, move to the kernel in batches, are
 carried out there at any time and in any order, and are reaped later.

 The kernel is part of the state: `waiting` are operations it has accepted and
 not carried out, `finished` those it has carried out and not yet handed back.
 The events array that the kernel fills is the front of `finished`.
 */
module Aio {
  import opened Arithmetic
  import opened Sequences

  type Byte = b: nat | b < 256

  datatype Loc = Loc(fd: nat, pos: nat)

  type Files = map<Loc, Byte>

  datatype Kind = Write | Read

  /** A control block: what to do, and which pool buffer it uses. */
  datatype Iocb = Iocb(kind: Kind, fd: nat, idx: nat, len: nat, offset: nat)

  /** A carried-out operation with its result: a byte count, or a negative error. */
  datatype Event = Event(iocb: Iocb, res: int)

  datatype State = State(
    maxPending: nat, granularity: nat,
    pending: seq<Iocb>, waiting: seq<Iocb>, finished: seq<Event>,
    free: seq<nat>, pool: seq<seq<Byte>>, bufferSize: nat,
    inFlight: int, pendingBytes: int,
    files: Files,
    // what the synchronous program would have stored, whether writes that were
    // outstanding together always agreed where they met, and whether the kernel
    // carried out everything in full
    sync: Files, agree: bool, full: bool)

  // -------------------------------------------------------------- the files

  predicate InExtent(l: Loc, fd: nat, offset: nat, len: nat) {
    l.fd == fd && offset <= l.pos < offset + len
  }

  function Extent(fd: nat, offset: nat, len: nat): (e: set<Loc>)
    ensures forall l :: l in e <==> InExtent(l, fd, offset, len)
  {
    if len == 0 then {} else Extent(fd, offset, len - 1) + {Loc(fd, offset + len - 1)}
  }

  /** The files after `data` is written at `offset`. */
  function Store(f: Files, fd: nat, offset: nat, data: seq<Byte>): (g: Files)
    ensures forall l :: l in g <==> l in f || InExtent(l, fd, offset, |data|)
    ensures forall l :: l in g ==> g[l] == if InExtent(l, fd, offset, |data|) then data[l.pos - offset] else f[l]
  {
    map l | l in f.Keys + Extent(fd, offset, |data|) ::
      if InExtent(l, fd, offset, |data|) then data[l.pos - offset] else f[l]
  }

  predicate SameAt(f: Files, g: Files, l: Loc) {
    (l in f <==> l in g) && (l in f ==> f[l] == g[l])
  }

  lemma SameEverywhere(f: Files, g: Files)
    requires forall l :: SameAt(f, g, l)
    ensures f == g
  {
    assert forall l :: l in f ==> SameAt(f, g, l);
    assert forall l :: l in g ==> SameAt(f, g, l);
  }

  predicate Covers(c: Iocb, l: Loc) {
    c.kind.Write? && InExtent(l, c.fd, c.offset, c.len)
  }

  // ------------------------------------------------- outstanding operations

  function Iocbs(events: seq<Event>): (cs: seq<Iocb>)
    ensures |cs| == |events|
  {
    seq(|events|, i requires 0 <= i < |events| => events[i].iocb)
  }

  /** Everything that was requested and not reaped. */
  function Outstanding(s: State): seq<Iocb> {
    s.pending + s.waiting + Iocbs(s.finished)
  }

  function Indices(cs: seq<Iocb>): (ix: seq<nat>)
    ensures |ix| == |cs|
  {
    seq(|cs|, i requires 0 <= i < |cs| => cs[i].idx)
  }

  function Bytes(cs: seq<Iocb>): nat {
    if cs == [] then 0 else Bytes(cs[..|cs| - 1]) + cs[|cs| - 1].len
  }

  // ------------------------------------------------------------- transitions

  /** Hand the submit array to the kernel. */
  function Submit(s: State): State {
    s.(waiting := s.waiting + s.pending, pending := [])
  }

  function Without<T>(s: seq<T>, i: nat): seq<T>
    requires i < |s|
  {
    s[..i] + s[i + 1..]
  }

  predicate CanCarryOut(s: State, i: nat, res: int, data: seq<Byte>, at: nat) {
    && i < |s.waiting| && at <= |s.finished|
    && s.waiting[i].idx < |s.pool|
    && res <= s.waiting[i].len <= |s.pool[s.waiting[i].idx]|
    && |data| == |s.pool[s.waiting[i].idx]|
  }

  /**
   The kernel carries out a waiting operation: a write stores the first `res`
   bytes of its pool buffer, a read puts some `data` into its pool buffer.
   */
  function CarryOut(s: State, i: nat, res: int, data: seq<Byte>, at: nat): State
    requires CanCarryOut(s, i, res, data, at)
  {
    var c := s.waiting[i];
    var t := s.(waiting := Without(s.waiting, i),
                finished := s.finished[..at] + [Event(c, res)] + s.finished[at..],
                full := s.full && res == c.len);
    if c.kind.Read? then t.(pool := s.pool[c.idx := data])
    else if res > 0 then t.(files := Store(s.files, c.fd, c.offset, s.pool[c.idx][..res]))
    else t
  }

  /** Reap the first event: account for its bytes and give its buffer back. */
  function Reap(s: State): State
    requires s.finished != []
  {
    var e := s.finished[0];
    s.(finished := s.finished[1..], pendingBytes := s.pendingBytes - e.res, free := s.free + [e.iocb.idx])
  }

  /** Wherever it meets an outstanding write, the operation writes what is going to be there already. */
  ghost predicate Repeats(s: State, c: Iocb, data: seq<Byte>)
    requires |data| == c.len
  {
    forall d, l :: d in Outstanding(s) && Covers(d, l) && Covers(c, l) ==>
      l in s.sync && s.sync[l] == data[l.pos - c.offset]
  }

  /** The operation for the buffer on top of the free stack. */
  function TopIocb(s: State, kind: Kind, fd: nat, offset: nat, len: nat): Iocb
    requires s.free != []
  {
    Iocb(kind, fd, s.free[|s.free| - 1], len, offset)
  }

  /** Take the buffer on top of the free stack; a write copies its data there. */
  ghost function TakeBuffer(s: State, kind: Kind, fd: nat, offset: nat, data: seq<Byte>): State
    requires CanEnqueue(s, data)
  {
    var c := TopIocb(s, kind, fd, offset, |data|);
    var t := s.(free := s.free[..|s.free| - 1], agree := s.agree && Repeats(s, c, data));
    if kind.Read? then t
    else t.(pool := s.pool[c.idx := data + s.pool[c.idx][|data|..]], sync := Store(s.sync, fd, offset, data))
  }

  /** Put an operation into the submit array and count it. */
  function Append(s: State, c: Iocb): State {
    s.(pending := s.pending + [c], inFlight := s.inFlight + 1, pendingBytes := s.pendingBytes + c.len)
  }

  predicate CanEnqueue(s: State, data: seq<Byte>) {
    && s.free != [] && s.free[|s.free| - 1] < |s.pool| && |data| <= s.bufferSize
    && |s.pool[s.free[|s.free| - 1]]| == s.bufferSize
  }

  /** Queue an operation. */
  ghost function Enqueue(s: State, kind: Kind, fd: nat, offset: nat, data: seq<Byte>): State
    requires CanEnqueue(s, data)
  {
    Append(TakeBuffer(s, kind, fd, offset, data), TopIocb(s, kind, fd, offset, |data|))
  }

  /** Queue an operation, and hand the submit array over once it holds `granularity` operations. */
  ghost function Queued(s: State, kind: Kind, fd: nat, offset: nat, data: seq<Byte>): State
    requires CanEnqueue(s, data)
  {
    var t := Enqueue(s, kind, fd, offset, data);
    if |t.pending| == t.granularity then Submit(t) else t
  }

  /** A new pool of larger buffers; only done when nothing is outstanding. */
  function NewPool(s: State, size: nat, buffers: seq<seq<Byte>>): State {
    s.(pool := buffers, bufferSize := size, free := Upto(s.maxPending))
  }

  // --------------------------------------------------------------- invariant

  ghost predicate Owned(s: State) {
    multiset(s.free) + multiset(Indices(Outstanding(s))) == multiset(Upto(|s.pool|))
  }

  /** Every pool index is in exactly one place, and all counters agree with that. */
  ghost predicate Accounted(s: State) {
    && 1 <= s.granularity <= s.maxPending
    && (|s.pool| == s.maxPending || (s.pool == [] && s.free == []))
    && Owned(s)
    && (forall i :: 0 <= i < |s.pool| ==> |s.pool[i]| == s.bufferSize)
    && (forall c :: c in Outstanding(s) ==> c.idx < |s.pool| && c.len <= s.bufferSize)
    && (forall e :: e in s.finished ==> e.res <= e.iocb.len)
    && Bytes(Outstanding(s)) <= s.pendingBytes
  }

  /** No byte was lost so far: every reaped result was full. */
  ghost predicate AllFull(s: State) {
    s.pendingBytes == Bytes(Outstanding(s))
  }

  /** The buffer of an outstanding write still holds what the synchronous program stored there. */
  ghost predicate BuffersHold(s: State)
    requires Accounted(s)
  {
    forall c, l :: c in Outstanding(s) && Covers(c, l) ==>
      l in s.sync && s.sync[l] == s.pool[c.idx][l.pos - c.offset]
  }

  /** A fully carried-out write is in the files. */
  ghost predicate FinishedStored(s: State)
    requires Accounted(s)
  {
    forall e, l :: e in s.finished && e.res == e.iocb.len && Covers(e.iocb, l) ==>
      l in s.files && l in s.sync && s.files[l] == s.sync[l]
  }

  /** Where no write is outstanding, the files are what the synchronous program stored. */
  ghost predicate ElsewhereSame(s: State) {
    forall l :: (forall c :: c in Outstanding(s) ==> !Covers(c, l)) ==> SameAt(s.files, s.sync, l)
  }

  /** Full results leave the byte account even. */
  ghost predicate FullSoFar(s: State) {
    s.full ==> AllFull(s) && forall e :: e in s.finished ==> e.res == e.iocb.len
  }

  ghost predicate Agrees(s: State)
    requires Accounted(s)
  {
    s.agree ==> BuffersHold(s) && FinishedStored(s) && (AllFull(s) ==> ElsewhereSame(s))
  }

  ghost predicate Inv(s: State) {
    Accounted(s) && FullSoFar(s) && Agrees(s)
  }

  // ------------------------------------------------------ basic facts on seqs

  lemma {:induction false} BytesPlus(a: seq<Iocb>, b: seq<Iocb>)
    ensures Bytes(a + b) == Bytes(a) + Bytes(b)
  {
    if b == [] {
      assert a + b == a;
    } else {
      BytesPlus(a, b[..|b| - 1]);
      assert (a + b)[..|a + b| - 1] == a + b[..|b| - 1];
    }
  }

  lemma IndicesPlus(a: seq<Iocb>, b: seq<Iocb>)
    ensures Indices(a + b) == Indices(a) + Indices(b)
  {
  }

  /** Moving one operation from the middle to another place changes neither bytes nor indices. */
  lemma Moved(a: seq<Iocb>, x: Iocb, b: seq<Iocb>, c: seq<Iocb>, d: seq<Iocb>)
    ensures Bytes(a + [x] + b + c + d) == Bytes(a + b + c + [x] + d)
    ensures multiset(Indices(a + [x] + b + c + d)) == multiset(Indices(a + b + c + [x] + d))
    ensures forall y :: y in a + [x] + b + c + d <==> y in a + b + c + [x] + d
  {
    BytesPlus(a, [x]); BytesPlus(a + [x], b); BytesPlus(a + [x] + b, c); BytesPlus(a + [x] + b + c, d);
    BytesPlus(a, b); BytesPlus(a + b, c); BytesPlus(a + b + c, [x]); BytesPlus(a + b + c + [x], d);
    IndicesPlus(a, [x]); IndicesPlus(a + [x], b); IndicesPlus(a + [x] + b, c); IndicesPlus(a + [x] + b + c, d);
    IndicesPlus(a, b); IndicesPlus(a + b, c); IndicesPlus(a + b + c, [x]); IndicesPlus(a + b + c + [x], d);
  }

  /** A buffer belongs to at most one outstanding operation, and to none while it is free. */
  lemma BufferHasOneOwner(s: State)
    requires Owned(s)
    ensures forall i, j :: 0 <= i < j < |Outstanding(s)| ==> Outstanding(s)[i].idx != Outstanding(s)[j].idx
    ensures forall c :: c in Outstanding(s) ==> c.idx !in s.free
    ensures forall i :: i in s.free ==> i < |s.pool|
    ensures |s.free| + |Outstanding(s)| == |s.pool|
  {
    var out := Outstanding(s);
    var all := s.free + Indices(out);
    assert multiset(all) == multiset(Upto(|s.pool|));
    assert |multiset(all)| == |s.pool|;
    forall i, j | 0 <= i < j < |out| ensures out[i].idx != out[j].idx {
      if out[i].idx == out[j].idx {
        TwoPlaces(all, |s.free| + i, |s.free| + j);
        UptoOnce(|s.pool|, out[i].idx);
      }
    }
    forall c | c in out ensures c.idx !in s.free {
      if c.idx in s.free {
        var i :| 0 <= i < |s.free| && s.free[i] == c.idx;
        var j :| 0 <= j < |out| && out[j] == c;
        TwoPlaces(all, i, |s.free| + j);
        UptoOnce(|s.pool|, c.idx);
      }
    }
    forall i | i in s.free ensures i < |s.pool| {
      UptoOnce(|s.pool|, i);
      assert i in multiset(all);
    }
  }

  lemma OneOwnerByIndex(s: State)
    requires Owned(s)
    ensures forall c, d :: c in Outstanding(s) && d in Outstanding(s) && c.idx == d.idx ==> c == d
    ensures forall c, e :: c in s.waiting && e in s.finished ==> c.idx != e.iocb.idx
  {
    BufferHasOneOwner(s);
    var out, n := Outstanding(s), |s.pending| + |s.waiting|;
    forall c, d | c in out && d in out && c.idx == d.idx ensures c == d {
      var i :| 0 <= i < |out| && out[i] == c;
      var j :| 0 <= j < |out| && out[j] == d;
    }
    forall c, e | c in s.waiting && e in s.finished ensures c.idx != e.iocb.idx {
      var i :| 0 <= i < |s.waiting| && s.waiting[i] == c;
      var j :| 0 <= j < |s.finished| && s.finished[j] == e;
      assert out[|s.pending| + i] == c && out[n + j] == e.iocb;
    }
  }

  // -------------------------------------------- every transition keeps Inv

  lemma SameOutstanding(s: State, t: State)
    requires Accounted(s)
    requires multiset(Indices(Outstanding(t))) == multiset(Indices(Outstanding(s)))
    requires Bytes(Outstanding(t)) == Bytes(Outstanding(s))
    requires forall c :: c in Outstanding(t) <==> c in Outstanding(s)
    requires t.free == s.free && t.granularity == s.granularity && t.maxPending == s.maxPending
    requires |t.pool| == |s.pool| && t.bufferSize == s.bufferSize && t.pendingBytes == s.pendingBytes
    requires forall i :: 0 <= i < |t.pool| ==> |t.pool[i]| == s.bufferSize
    requires forall e :: e in t.finished ==> e.res <= e.iocb.len
    ensures Accounted(t)
  {
  }

  lemma SubmitReorders(s: State)
    ensures multiset(Indices(Outstanding(Submit(s)))) == multiset(Indices(Outstanding(s)))
    ensures Bytes(Outstanding(Submit(s))) == Bytes(Outstanding(s))
    ensures forall c :: c in Outstanding(Submit(s)) <==> c in Outstanding(s)
  {
    hide Bytes, Indices, Iocbs;
    var p, w, f := s.pending, s.waiting, Iocbs(s.finished);
    assert Outstanding(Submit(s)) == w + p + f;
    BytesPlus(p, w); BytesPlus(p + w, f); BytesPlus(w, p); BytesPlus(w + p, f);
    IndicesPlus(p, w); IndicesPlus(p + w, f); IndicesPlus(w, p); IndicesPlus(w + p, f);
  }

  lemma SubmitKeepsInv(s: State)
    requires Inv(s)
    ensures Inv(Submit(s))
    ensures AllFull(s) == AllFull(Submit(s))
  {
    hide Outstanding;
    SubmitReorders(s);
    SameOutstanding(s, Submit(s));
  }

  lemma CarryOutReorders(s: State, i: nat, res: int, data: seq<Byte>, at: nat)
    requires CanCarryOut(s, i, res, data, at)
    ensures var t := CarryOut(s, i, res, data, at);
            && multiset(Indices(Outstanding(t))) == multiset(Indices(Outstanding(s)))
            && Bytes(Outstanding(t)) == Bytes(Outstanding(s))
            && forall c :: c in Outstanding(t) <==> c in Outstanding(s)
  {
    hide Bytes, Indices, Store, Outstanding;
    var w, f := s.waiting, Iocbs(s.finished);
    CarryOutLists(s, i, res, data, at);
    Moved(s.pending + w[..i], w[i], w[i + 1..], f[..at], f[at..]);
  }

  lemma CarryOutLists(s: State, i: nat, res: int, data: seq<Byte>, at: nat)
    requires CanCarryOut(s, i, res, data, at)
    ensures var w, f := s.waiting, Iocbs(s.finished);
            && Outstanding(s) == (s.pending + w[..i]) + [w[i]] + w[i + 1..] + f[..at] + f[at..]
            && Outstanding(CarryOut(s, i, res, data, at))
               == (s.pending + w[..i]) + w[i + 1..] + f[..at] + [w[i]] + f[at..]
  {
    hide Bytes, Indices, Store, Iocbs;
    InsertedEvent(s.finished, at, Event(s.waiting[i], res));
    SplitLists(s.pending, s.waiting, i, Iocbs(s.finished), at);
  }

  lemma SplitLists(p: seq<Iocb>, w: seq<Iocb>, i: nat, f: seq<Iocb>, at: nat)
    requires i < |w| && at <= |f|
    ensures p + w + f == (p + w[..i]) + [w[i]] + w[i + 1..] + f[..at] + f[at..]
    ensures p + Without(w, i) + (f[..at] + [w[i]] + f[at..]) == (p + w[..i]) + w[i + 1..] + f[..at] + [w[i]] + f[at..]
  {
  }

  lemma InsertedEvent(events: seq<Event>, at: nat, e: Event)
    requires at <= |events|
    ensures Iocbs(events[..at] + [e] + events[at..]) == Iocbs(events)[..at] + [e.iocb] + Iocbs(events)[at..]
  {
  }

  lemma CarryOutKeepsAccounted(s: State, i: nat, res: int, data: seq<Byte>, at: nat)
    requires Accounted(s) && CanCarryOut(s, i, res, data, at)
    ensures Accounted(CarryOut(s, i, res, data, at))
    ensures forall c :: c in Outstanding(CarryOut(s, i, res, data, at)) <==> c in Outstanding(s)
    ensures AllFull(s) == AllFull(CarryOut(s, i, res, data, at))
  {
    hide Outstanding, Owned, Store;
    CarryOutReorders(s, i, res, data, at);
    SameOutstanding(s, CarryOut(s, i, res, data, at));
  }

  lemma CarryOutKeepsBuffers(s: State, i: nat, res: int, data: seq<Byte>, at: nat)
    requires Inv(s) && s.agree && CanCarryOut(s, i, res, data, at)
    requires Accounted(CarryOut(s, i, res, data, at))
    ensures BuffersHold(CarryOut(s, i, res, data, at))
  {
    CarryOutReorders(s, i, res, data, at);
    OneOwnerByIndex(s);
    assert s.waiting[i] in Outstanding(s);
    hide Outstanding, Store, Bytes, Indices, Without;
  }

  lemma CarryOutStores(s: State, i: nat, res: int, data: seq<Byte>, at: nat)
    requires Inv(s) && s.agree && CanCarryOut(s, i, res, data, at)
    requires Accounted(CarryOut(s, i, res, data, at))
    ensures FinishedStored(CarryOut(s, i, res, data, at))
  {
    hide Outstanding, Owned, Store, BuffersHold, ElsewhereSame, Covers, Indices, Bytes;
    var t := CarryOut(s, i, res, data, at);
    assert forall e :: e in t.finished ==> e in s.finished || e == Event(s.waiting[i], res);
    forall e, l | e in t.finished && e.res == e.iocb.len && Covers(e.iocb, l)
      ensures l in t.files && l in t.sync && t.files[l] == t.sync[l]
    {
      if e in s.finished {
        OldEventStays(s, i, res, data, at, e, l);
      } else {
        NewEventIsStored(s, i, data, at, l);
      }
    }
  }

  lemma NewEventIsStored(s: State, i: nat, data: seq<Byte>, at: nat, l: Loc)
    requires Inv(s) && s.agree && i < |s.waiting| && CanCarryOut(s, i, s.waiting[i].len, data, at)
    requires Covers(s.waiting[i], l)
    ensures var t := CarryOut(s, i, s.waiting[i].len, data, at);
            l in t.files && l in t.sync && t.files[l] == t.sync[l]
  {
    var c := s.waiting[i];
    assert c in Outstanding(s);
    hide Outstanding, Owned, Bytes, FinishedStored, ElsewhereSame, Without;
    assert l in s.sync && s.sync[l] == s.pool[c.idx][l.pos - c.offset];
  }

  lemma OldEventStays(s: State, i: nat, res: int, data: seq<Byte>, at: nat, e: Event, l: Loc)
    requires Inv(s) && s.agree && CanCarryOut(s, i, res, data, at)
    requires e in s.finished && e.res == e.iocb.len && Covers(e.iocb, l)
    ensures var t := CarryOut(s, i, res, data, at);
            l in t.files && l in t.sync && t.files[l] == t.sync[l]
  {
    var c := s.waiting[i];
    OneOwnerByIndex(s);
    FinishedIsOutstanding(s, e);
    assert c in Outstanding(s) && c in s.waiting;
    assert Covers(c, l) ==> l in s.sync && s.sync[l] == s.pool[c.idx][l.pos - c.offset];
    hide Outstanding, Owned, Bytes, BuffersHold, ElsewhereSame, Without;
  }

  lemma FinishedIsOutstanding(s: State, e: Event)
    requires e in s.finished
    ensures e.iocb in Outstanding(s)
  {
    var j :| 0 <= j < |s.finished| && s.finished[j] == e;
    assert Iocbs(s.finished)[j] == e.iocb;
  }

  lemma CarryOutElsewhere(s: State, i: nat, res: int, data: seq<Byte>, at: nat)
    requires CanCarryOut(s, i, res, data, at) && ElsewhereSame(s)
    ensures ElsewhereSame(CarryOut(s, i, res, data, at))
  {
    var t := CarryOut(s, i, res, data, at);
    CarryOutReorders(s, i, res, data, at);
    assert s.waiting[i] in Outstanding(s);
    hide Outstanding, Without;
    forall l | forall c :: c in Outstanding(t) ==> !Covers(c, l) ensures SameAt(t.files, t.sync, l) {
      assert SameAt(s.files, s.sync, l);
    }
  }

  /** Whatever the kernel carries out, in whatever order and with whatever result, the invariant holds. */
  lemma CarryOutKeepsInv(s: State, i: nat, res: int, data: seq<Byte>, at: nat)
    requires Inv(s) && CanCarryOut(s, i, res, data, at)
    ensures Inv(CarryOut(s, i, res, data, at))
    ensures AllFull(s) == AllFull(CarryOut(s, i, res, data, at))
  {
    hide Outstanding, Bytes, Accounted, FullSoFar, BuffersHold, FinishedStored, ElsewhereSame, AllFull, CarryOut;
    CarryOutKeepsAccounted(s, i, res, data, at);
    CarryOutKeepsFull(s, i, res, data, at);
    CarryOutCopies(s, i, res, data, at);
    if s.agree {
      CarryOutKeepsBuffers(s, i, res, data, at);
      CarryOutStores(s, i, res, data, at);
      if AllFull(s) {
        CarryOutElsewhere(s, i, res, data, at);
      }
    }
  }

  lemma CarryOutCopies(s: State, i: nat, res: int, data: seq<Byte>, at: nat)
    requires CanCarryOut(s, i, res, data, at)
    ensures CarryOut(s, i, res, data, at).agree == s.agree && CarryOut(s, i, res, data, at).sync == s.sync
  {
    hide Store;
  }

  lemma CarryOutKeepsFull(s: State, i: nat, res: int, data: seq<Byte>, at: nat)
    requires FullSoFar(s) && CanCarryOut(s, i, res, data, at)
    requires AllFull(s) == AllFull(CarryOut(s, i, res, data, at))
    ensures FullSoFar(CarryOut(s, i, res, data, at))
  {
    hide AllFull, Store, Without;
  }

  lemma ReapRemoves(s: State)
    requires s.finished != []
    ensures var c := s.finished[0].iocb;
            && Bytes(Outstanding(s)) == Bytes(Outstanding(Reap(s))) + c.len
            && multiset(Indices(Outstanding(s))) == multiset(Indices(Outstanding(Reap(s)))) + multiset{c.idx}
            && (forall d :: d in Outstanding(s) <==> d == c || d in Outstanding(Reap(s)))
  {
    var c, a, f := s.finished[0].iocb, s.pending + s.waiting, Iocbs(s.finished[1..]);
    hide Bytes, Indices;
    assert Iocbs(s.finished) == [c] + f;
    assert Outstanding(s) == a + [c] + f && Outstanding(Reap(s)) == a + f;
    Inserted(a, c, f);
  }

  lemma ReapKeepsAccounted(s: State)
    requires Accounted(s) && s.finished != []
    ensures Accounted(Reap(s))
    ensures AllFull(Reap(s)) <==> AllFull(s) && s.finished[0].res == s.finished[0].iocb.len
  {
    hide Outstanding, Bytes, Indices, Upto;
    ReapRemoves(s);
    var e := s.finished[0];
    assert e in s.finished && s.pool != [];
    assert Owned(Reap(s));
  }

  lemma ReapKeepsElsewhere(s: State)
    requires Inv(s) && s.finished != [] && s.agree
    requires AllFull(s) && s.finished[0].res == s.finished[0].iocb.len
    ensures ElsewhereSame(Reap(s))
  {
    ReapRemoves(s);
    var e := s.finished[0];
    assert e in s.finished;
    hide Outstanding, Bytes, Indices, Owned, BuffersHold;
    forall l | forall c :: c in Outstanding(Reap(s)) ==> !Covers(c, l)
      ensures SameAt(s.files, s.sync, l)
    {
      if !Covers(e.iocb, l) {
        assert forall c :: c in Outstanding(s) ==> !Covers(c, l);
      }
    }
  }

  /** The clauses about outstanding operations survive when there are fewer of them. */
  lemma FewerOutstanding(s: State, t: State)
    requires Accounted(s) && Accounted(t)
    requires BuffersHold(s) && FinishedStored(s)
    requires forall c :: c in Outstanding(t) ==> c in Outstanding(s)
    requires forall e :: e in t.finished ==> e in s.finished
    requires t.pool == s.pool && t.files == s.files && t.sync == s.sync
    ensures BuffersHold(t) && FinishedStored(t)
  {
    hide Outstanding, Covers, Owned, Bytes;
  }

  /** Reaping keeps the invariant; a short result shows up in the byte account for good. */
  lemma ReapKeepsInv(s: State)
    requires Inv(s) && s.finished != []
    ensures Inv(Reap(s))
    ensures AllFull(Reap(s)) <==> AllFull(s) && s.finished[0].res == s.finished[0].iocb.len
  {
    hide Outstanding, Bytes, Indices, Owned, ElsewhereSame, AllFull, Covers, BuffersHold, FinishedStored, Accounted;
    ReapKeepsAccounted(s);
    if s.agree {
      ReapRemoves(s);
      FewerOutstanding(s, Reap(s));
      if AllFull(Reap(s)) {
        ReapKeepsElsewhere(s);
      }
    }
  }

  lemma EnqueueAdds(s: State, kind: Kind, fd: nat, offset: nat, data: seq<Byte>)
    requires CanEnqueue(s, data)
    ensures var c := Iocb(kind, fd, s.free[|s.free| - 1], |data|, offset);
            var t := Enqueue(s, kind, fd, offset, data);
            && Bytes(Outstanding(t)) == Bytes(Outstanding(s)) + |data|
            && multiset(Indices(Outstanding(t))) == multiset(Indices(Outstanding(s))) + multiset{c.idx}
            && multiset(s.free) == multiset(t.free) + multiset{c.idx}
            && (forall d :: d in Outstanding(t) <==> d == c || d in Outstanding(s))
  {
    var c := Iocb(kind, fd, s.free[|s.free| - 1], |data|, offset);
    var t := Enqueue(s, kind, fd, offset, data);
    hide Store, Repeats, Bytes, Indices;
    var b := s.waiting + Iocbs(s.finished);
    assert s.free == t.free + [c.idx];
    assert s.pending + s.waiting + Iocbs(s.finished) == s.pending + b;
    assert t.pending == s.pending + [c] && t.waiting == s.waiting && t.finished == s.finished;
    assert t.pending + t.waiting + Iocbs(t.finished) == s.pending + [c] + b;
    Inserted(s.pending, c, b);
  }

  lemma Inserted(a: seq<Iocb>, c: Iocb, b: seq<Iocb>)
    ensures Bytes(a + [c] + b) == Bytes(a + b) + c.len
    ensures multiset(Indices(a + [c] + b)) == multiset(Indices(a + b)) + multiset{c.idx}
    ensures forall d :: d in a + [c] + b <==> d == c || d in a + b
  {
    BytesPlus(a, [c]); BytesPlus(a + [c], b); BytesPlus(a, b);
    IndicesPlus(a, [c]); IndicesPlus(a + [c], b); IndicesPlus(a, b);
  }

  lemma EnqueueKeepsAccounted(s: State, kind: Kind, fd: nat, offset: nat, data: seq<Byte>)
    requires Accounted(s) && CanEnqueue(s, data)
    ensures Accounted(Enqueue(s, kind, fd, offset, data))
    ensures AllFull(Enqueue(s, kind, fd, offset, data)) == AllFull(s)
  {
    hide Outstanding, Bytes, Indices, Store, Repeats, Upto;
    EnqueueAdds(s, kind, fd, offset, data);
    assert Owned(Enqueue(s, kind, fd, offset, data));
  }

  /** Storing the new data changes nothing where another outstanding write is. */
  lemma EnqueueLeavesOthers(s: State, kind: Kind, fd: nat, offset: nat, data: seq<Byte>, d: Iocb, l: Loc)
    requires CanEnqueue(s, data) && Enqueue(s, kind, fd, offset, data).agree
    requires d in Outstanding(s) && Covers(d, l) && l in s.sync
    ensures var t := Enqueue(s, kind, fd, offset, data); l in t.sync && t.sync[l] == s.sync[l]
  {
    hide Outstanding;
    assert Repeats(s, TopIocb(s, kind, fd, offset, |data|), data);
  }

  lemma EnqueueLeavesBuffer(s: State, kind: Kind, fd: nat, offset: nat, data: seq<Byte>, d: Iocb)
    requires Accounted(s) && CanEnqueue(s, data) && d in Outstanding(s)
    ensures d.idx < |s.pool| && Enqueue(s, kind, fd, offset, data).pool[d.idx] == s.pool[d.idx]
  {
    BufferHasOneOwner(s);
    assert s.free[|s.free| - 1] in s.free;
    hide Outstanding, Bytes, Indices, Owned, Repeats, Store;
  }

  lemma EnqueueKeepsBuffers(s: State, kind: Kind, fd: nat, offset: nat, data: seq<Byte>)
    requires Inv(s) && CanEnqueue(s, data) && Accounted(Enqueue(s, kind, fd, offset, data))
    requires Enqueue(s, kind, fd, offset, data).agree
    ensures BuffersHold(Enqueue(s, kind, fd, offset, data))
  {
    hide Outstanding, Bytes, Indices, Owned, ElsewhereSame, AllFull, Repeats, FinishedStored, Upto, Store;
    var t, c := Enqueue(s, kind, fd, offset, data), Iocb(kind, fd, s.free[|s.free| - 1], |data|, offset);
    EnqueueAdds(s, kind, fd, offset, data);
    forall d, l | d in Outstanding(t) && Covers(d, l)
      ensures l in t.sync && t.sync[l] == t.pool[d.idx][l.pos - d.offset]
    {
      if d in Outstanding(s) {
        EnqueueLeavesOthers(s, kind, fd, offset, data, d, l);
        EnqueueLeavesBuffer(s, kind, fd, offset, data, d);
      } else {
        assert t.pool[c.idx][..|data|] == data;
      }
    }
  }

  lemma EnqueueKeepsStored(s: State, kind: Kind, fd: nat, offset: nat, data: seq<Byte>)
    requires Inv(s) && CanEnqueue(s, data) && Accounted(Enqueue(s, kind, fd, offset, data))
    requires Enqueue(s, kind, fd, offset, data).agree
    ensures FinishedStored(Enqueue(s, kind, fd, offset, data))
  {
    hide Outstanding, Bytes, Indices, Owned, ElsewhereSame, AllFull, Repeats, BuffersHold, Accounted, Covers;
    var t := Enqueue(s, kind, fd, offset, data);
    forall e, l | e in s.finished && e.res == e.iocb.len && Covers(e.iocb, l)
      ensures l in t.files && l in t.sync && t.files[l] == t.sync[l]
    {
      FinishedIsOutstanding(s, e);
      EnqueueLeavesOthers(s, kind, fd, offset, data, e.iocb, l);
    }
  }

  lemma EnqueueKeepsElsewhere(s: State, kind: Kind, fd: nat, offset: nat, data: seq<Byte>)
    requires ElsewhereSame(s) && CanEnqueue(s, data)
    ensures ElsewhereSame(Enqueue(s, kind, fd, offset, data))
  {
    var t, c := Enqueue(s, kind, fd, offset, data), Iocb(kind, fd, s.free[|s.free| - 1], |data|, offset);
    EnqueueAdds(s, kind, fd, offset, data);
    hide Outstanding, Bytes, Indices, Repeats;
    assert c in Outstanding(t);
    forall l | forall d :: d in Outstanding(t) ==> !Covers(d, l) ensures SameAt(t.files, t.sync, l) {
      assert SameAt(s.files, s.sync, l);
    }
  }

  lemma EnqueueKeepsInv(s: State, kind: Kind, fd: nat, offset: nat, data: seq<Byte>)
    requires Inv(s) && CanEnqueue(s, data)
    ensures Inv(Enqueue(s, kind, fd, offset, data))
    ensures AllFull(Enqueue(s, kind, fd, offset, data)) == AllFull(s)
  {
    EnqueueKeepsAccounted(s, kind, fd, offset, data);
    var t := Enqueue(s, kind, fd, offset, data);
    if t.agree {
      EnqueueKeepsBuffers(s, kind, fd, offset, data);
      EnqueueKeepsStored(s, kind, fd, offset, data);
      if AllFull(s) {
        EnqueueKeepsElsewhere(s, kind, fd, offset, data);
      }
    }
    hide Outstanding, Bytes, Indices, Accounted, BuffersHold, FinishedStored, ElsewhereSame, AllFull;
  }

  lemma NewPoolKeepsInv(s: State, size: nat, buffers: seq<seq<Byte>>)
    requires Inv(s) && Outstanding(s) == []
    requires |buffers| == s.maxPending
    requires forall i :: 0 <= i < |buffers| ==> |buffers[i]| == size
    ensures Inv(NewPool(s, size, buffers))
    ensures AllFull(NewPool(s, size, buffers)) == AllFull(s)
  {
    assert Outstanding(NewPool(s, size, buffers)) == [];
    assert s.finished == [] by { assert |Outstanding(s)| >= |s.finished|; }
  }

  /**
   Refinement of synchronous I/O. Once nothing is outstanding and the byte
   account is even, the files are what performing the writes immediately, in
   call order, would have left; the byte account is even only if every result
   so far was full.
   */
  lemma DrainedFilesAreSynchronous(s: State)
    requires Inv(s) && Outstanding(s) == [] && s.pendingBytes == 0 && s.agree
    ensures s.files == s.sync
    ensures |s.free| == |s.pool|
  {
    BufferHasOneOwner(s);
    assert AllFull(s);
    forall l ensures SameAt(s.files, s.sync, l) {
    }
    SameEverywhere(s.files, s.sync);
  }

  // ------------------------------------------------------------- the program

  /** From `s` to `t` nothing new was requested, and no short result or lost byte was forgotten. */
  ghost predicate Progress(s: State, t: State) {
    && t.maxPending == s.maxPending && t.granularity == s.granularity
    && t.sync == s.sync && t.agree == s.agree
    && (forall c :: c in Outstanding(t) ==> c in Outstanding(s))
    && (AllFull(t) ==> AllFull(s)) && (t.full ==> s.full)
  }

  lemma WaitingIsSafe(s: State, i: nat)
    requires Inv(s) && i < |s.waiting|
    ensures s.waiting[i].idx < |s.pool| && s.waiting[i].len <= |s.pool[s.waiting[i].idx]|
  {
    assert s.waiting[i] in Outstanding(s);
  }

  lemma CarryOutIsProgress(s: State, i: nat, res: int, data: seq<Byte>, at: nat)
    requires Inv(s) && CanCarryOut(s, i, res, data, at)
    ensures var t := CarryOut(s, i, res, data, at);
            Inv(t) && Progress(s, t) && |Outstanding(t)| == |Outstanding(s)|
  {
    hide Inv, Store, Bytes, Indices;
    CarryOutKeepsInv(s, i, res, data, at);
    CarryOutReorders(s, i, res, data, at);
  }

  lemma CarryOutMoves(s: State, i: nat, res: int, data: seq<Byte>, at: nat)
    requires CanCarryOut(s, i, res, data, at)
    ensures var t := CarryOut(s, i, res, data, at);
            && |t.waiting| == |s.waiting| - 1 && |t.finished| == |s.finished| + 1
            && t.inFlight == s.inFlight
  {
    hide Store;
  }

  lemma SubmitIsProgress(s: State)
    requires Inv(s)
    ensures var t := Submit(s); Inv(t) && Progress(s, t) && |Outstanding(t)| == |Outstanding(s)|
  {
    SubmitKeepsInv(s);
    SubmitReorders(s);
  }

  lemma ReapIsProgress(s: State)
    requires Inv(s) && s.finished != []
    ensures var t := Reap(s); Inv(t) && Progress(s, t) && |Outstanding(t)| == |Outstanding(s)| - 1
    ensures |s.free| < |s.pool|
  {
    ReapKeepsInv(s);
    ReapRemoves(s);
    BufferHasOneOwner(s);
  }

  lemma FullResultsAreNonnegative(s: State)
    requires Inv(s)
    ensures s.full ==> forall e :: e in s.finished ==> e.res >= 0
  {
  }

  lemma ShortResult(s: State)
    requires Inv(s)
    ensures Inv(s.(full := false)) && Outstanding(s.(full := false)) == Outstanding(s)
  {
  }

  lemma NothingLost(s: State)
    requires Inv(s) && Outstanding(s) == []
    ensures s.full ==> s.pendingBytes == 0
  {
  }

  lemma DrainedInv(s: State)
    requires Inv(s) && Outstanding(s) == [] && s.pendingBytes == 0
    ensures |s.free| == |s.pool| && s.granularity >= 1
    ensures s.agree ==> s.files == s.sync
  {
    BufferHasOneOwner(s);
    if s.agree {
      DrainedFilesAreSynchronous(s);
    }
  }

  /** The in-flight counter does not take part in the invariant. */
  lemma InFlightIsFree(s: State, n: int)
    requires Inv(s)
    ensures Inv(s.(inFlight := n)) && Progress(s, s.(inFlight := n))
    ensures Outstanding(s.(inFlight := n)) == Outstanding(s)
  {
  }

  /** Between calls each pool buffer is either free or in flight. */
  lemma InFlightComplementsFree(s: State)
    requires Inv(s)
    ensures |s.free| + |Outstanding(s)| == |s.pool|
    ensures |s.pool| == s.maxPending || s.pool == []
    ensures 1 <= s.granularity <= s.maxPending
  {
    BufferHasOneOwner(s);
  }

  lemma NewPoolIsProgress(s: State, size: nat, buffers: seq<seq<Byte>>)
    requires Inv(s) && Outstanding(s) == []
    requires |buffers| == s.maxPending
    requires forall i :: 0 <= i < |buffers| ==> |buffers[i]| == size
    ensures Inv(NewPool(s, size, buffers)) && Outstanding(NewPool(s, size, buffers)) == []
    ensures Progress(s, NewPool(s, size, buffers))
  {
    NewPoolKeepsInv(s, size, buffers);
    assert Outstanding(NewPool(s, size, buffers)) == [];
  }

  lemma OutstandingSize(s: State)
    ensures |Outstanding(s)| == |s.pending| + |s.waiting| + |s.finished|
  {
  }

  lemma FreeIsUsable(s: State)
    requires Inv(s)
    ensures s.free != [] ==> s.free[|s.free| - 1] < |s.pool| && |s.pool[s.free[|s.free| - 1]]| == s.bufferSize
  {
    BufferHasOneOwner(s);
    if s.free != [] {
      assert s.free[|s.free| - 1] in s.free;
    }
  }

  lemma EnqueueIsProgress(s: State, kind: Kind, fd: nat, offset: nat, data: seq<Byte>)
    requires Inv(s) && CanEnqueue(s, data)
    ensures var t := Enqueue(s, kind, fd, offset, data);
            && Inv(t) && |Outstanding(t)| == |Outstanding(s)| + 1
            && forall c :: c in Outstanding(t) <==>
                 c in Outstanding(s) || c == Iocb(kind, fd, s.free[|s.free| - 1], |data|, offset)
  {
    EnqueueKeepsInv(s, kind, fd, offset, data);
    EnqueueAdds(s, kind, fd, offset, data);
  }

  /** What is known about a newly queued operation, whether or not the array was handed over at once. */
  lemma EnqueuedFacts(s: State, kind: Kind, fd: nat, offset: nat, data: seq<Byte>)
    requires Inv(s) && CanEnqueue(s, data)
    ensures var c, t := TopIocb(s, kind, fd, offset, |data|), Enqueue(s, kind, fd, offset, data);
            && Submit(t).sync == t.sync == (if kind.Write? then Store(s.sync, fd, offset, data) else s.sync)
            && Submit(t).full == t.full == s.full
            && Submit(t).agree == t.agree == (s.agree && Repeats(s, c, data))
            && Submit(t).pool == t.pool && c.idx < |t.pool| && (kind.Write? ==> data <= t.pool[c.idx])
            && (forall d :: d in Outstanding(t) <==> d in Outstanding(s) || d == c)
            && (forall d :: d in Outstanding(Submit(t)) <==> d in Outstanding(t))
  {
    hide Inv, Outstanding, Store, Repeats;
    EnqueueIsProgress(s, kind, fd, offset, data);
    SubmitReorders(Enqueue(s, kind, fd, offset, data));
  }

  lemma ProgressKeeps(s: State, t: State)
    requires Progress(s, t)
    ensures t.sync == s.sync && t.agree == s.agree && (t.full ==> s.full)
    ensures forall c :: c in Outstanding(t) ==> c in Outstanding(s)
  {
  }

  /** With less outstanding there is less to agree with. */
  lemma RepeatsLater(s: State, t: State, kind: Kind, fd: nat, offset: nat, data: seq<Byte>)
    requires Progress(s, t)
    ensures Repeats(s, Iocb(kind, fd, 0, |data|, offset), data) ==>
              forall i :: Repeats(t, Iocb(kind, fd, i, |data|, offset), data)
  {
    hide Outstanding;
    assert forall i, l :: Covers(Iocb(kind, fd, i, |data|, offset), l) ==> Covers(Iocb(kind, fd, 0, |data|, offset), l);
  }

  lemma ProgressIsReflexive(s: State)
    ensures Progress(s, s)
  {
  }

  lemma ProgressIsTransitive(s: State, t: State, u: State)
    requires Progress(s, t) && Progress(t, u)
    ensures Progress(s, u)
  {
  }

  function Min(a: int, b: int): int {
    if a < b then a else b
  }

  class Backend {
    const maxPending: nat
    const granularity: nat
    const iocbs: array<Iocb>
    var iocbsPos: nat
    var inFlight: int
    var pendingBytes: int
    var pool: seq<seq<Byte>>         // empty as long as there is no pool
    var freeIndices: array<nat>
    var freePos: nat
    var poolBufferSize: nat
    // the kernel
    var waiting: seq<Iocb>
    var finished: seq<Event>
    var files: Files
    // specification only
    ghost var sync: Files
    ghost var agree: bool
    ghost var full: bool

    ghost predicate Shape()
      reads this
    {
      && iocbs.Length == granularity
      && iocbsPos <= iocbs.Length
      && freePos <= freeIndices.Length == |pool|
    }

    ghost function Abstract(): State
      requires Shape()
      reads this, iocbs, freeIndices
    {
      State(maxPending, granularity, iocbs[..iocbsPos], waiting, finished,
            freeIndices[..freePos], pool, poolBufferSize, inFlight, pendingBytes,
            files, sync, agree, full)
    }

    /** The invariant while a method runs, with `reaped` events taken that are still counted as in flight. */
    ghost predicate Consistent(reaped: int)
      reads this, iocbs, freeIndices
    {
      && Shape()
      && Inv(Abstract())
      && inFlight == |Outstanding(Abstract())| + reaped
    }

    /** The invariant between calls: the submit array has room. */
    ghost predicate Valid()
      reads this, iocbs, freeIndices
    {
      Consistent(0) && iocbsPos < granularity
    }

    constructor (maxPending: nat, granularity: nat, files: Files)
      requires 1 <= granularity <= maxPending
      ensures Valid() && Outstanding(Abstract()) == []
      ensures pendingBytes == 0 && agree && full
      ensures this.files == files && sync == files
      ensures fresh(iocbs) && fresh(freeIndices)
    {
      this.maxPending, this.granularity := maxPending, granularity;
      iocbs := new Iocb[granularity];
      iocbsPos, inFlight, pendingBytes := 0, 0, 0;
      freeIndices := new nat[0];
      pool, freePos, poolBufferSize := [], 0, 0;
      waiting, finished, this.files, sync, agree, full := [], [], files, files, true, true;
      new;
      assert Outstanding(Abstract()) == [];
    }

    /** The kernel makes any amount of progress, but at least until `atLeast` results are there. */
    method KernelRuns(atLeast: nat, ghost reaped: int)
      requires Consistent(reaped) && atLeast <= |waiting| + |finished|
      modifies `waiting, `finished, `files, `pool, `full
      ensures Consistent(reaped) && Progress(old(Abstract()), Abstract())
      ensures |waiting| + |finished| == old(|waiting| + |finished|)
      ensures |finished| >= atLeast
    {
      var more: bool := *;
      while waiting != [] && (more || |finished| < atLeast)
        invariant Consistent(reaped) && Progress(old(Abstract()), Abstract())
        invariant |waiting| + |finished| == old(|waiting| + |finished|)
        decreases |waiting|
      {
        CarryOutAny(reaped);
        more := *;
      }
    }

    method CarryOutAny(ghost reaped: int)
      requires Consistent(reaped) && waiting != []
      modifies `waiting, `finished, `files, `pool, `full
      ensures Consistent(reaped) && Progress(old(Abstract()), Abstract())
      ensures |waiting| == old(|waiting|) - 1 && |finished| == old(|finished|) + 1
    {
      hide Inv, Outstanding, Store, Progress, CarryOut;
      ghost var s := Abstract();
      var i :| 0 <= i < |waiting|;
      var at :| 0 <= at <= |finished|;
      var c := waiting[i];
      WaitingIsSafe(s, i);
      var res :| res <= c.len;
      var data: seq<Byte> :| data == pool[c.idx] || |data| == |pool[c.idx]|;
      CarryOutIsProgress(s, i, res, data, at);
      CarryOutOne(i, res, data, at);
      CarryOutMoves(s, i, res, data, at);
    }

    /** The kernel carries out one operation, with a result and, for a read, with data of its own. */
    method CarryOutOne(i: nat, res: int, data: seq<Byte>, at: nat)
      requires Shape() && CanCarryOut(Abstract(), i, res, data, at)
      modifies `waiting, `finished, `files, `pool, `full
      ensures Shape() && Abstract() == CarryOut(old(Abstract()), i, res, data, at)
    {
      hide Store;
      ghost var t := CarryOut(Abstract(), i, res, data, at);
      var c := waiting[i];
      waiting := waiting[..i] + waiting[i + 1..];
      finished := finished[..at] + [Event(c, res)] + finished[at..];
      full := full && res == c.len;
      if c.kind.Read? {
        pool := pool[c.idx := data];
      } else if res > 0 {
        files := Store(files, c.fd, c.offset, pool[c.idx][..res]);
      }
      assert Abstract() == t;
    }

    /** Waits for at least `least` events, which the kernel must hold, and returns at most `most`. */
    method GetEvents(least: nat, most: nat) returns (n: nat)
      requires Consistent(0) && least <= most && least <= |waiting| + |finished|
      modifies `waiting, `finished, `files, `pool, `full
      ensures Consistent(0) && Progress(old(Abstract()), Abstract())
      ensures |waiting| + |finished| == old(|waiting| + |finished|)
      ensures least <= n <= most && n <= |finished|
    {
      KernelRuns(least, 0);
      n :| least <= n <= most && n <= |finished|;
    }

    method SubmitPending()
      requires Consistent(0)
      modifies `iocbsPos, `waiting
      ensures Consistent(0) && Progress(old(Abstract()), Abstract())
      ensures Abstract() == Submit(old(Abstract()))
      ensures |Outstanding(Abstract())| == |Outstanding(old(Abstract()))|
    {
      hide Inv, Outstanding, Progress;
      SubmitIsProgress(Abstract());
      if iocbsPos == 0 {
        assert waiting + iocbs[..0] == waiting;
        return;
      }
      waiting := waiting + iocbs[..iocbsPos];
      iocbsPos := 0;
    }

    /** Takes one event; fails where the source aborts the process. */
    method ReapOne(ghost reaped: int) returns (ok: bool)
      requires Consistent(reaped) && finished != []
      modifies `finished, `pendingBytes, `freePos, freeIndices
      ensures ok == (old(finished)[0].res >= 0) && (!ok ==> !full)
      ensures ok ==> Consistent(reaped + 1) && Progress(old(Abstract()), Abstract())
      ensures ok ==> finished == old(finished)[1..] && Abstract() == Reap(old(Abstract()))
    {
      hide Inv, Outstanding, Progress;
      ghost var s := Abstract();
      ReapIsProgress(s);
      FullResultsAreNonnegative(s);
      var event := finished[0];
      finished := finished[1..];
      if event.res < 0 {
        return false;
      }
      pendingBytes := pendingBytes - event.res;
      freeIndices[freePos] := event.iocb.idx;
      freePos := freePos + 1;
      assert freeIndices[..freePos] == s.free + [event.iocb.idx];
      return true;
    }

    /** Takes the `n` events that were returned. */
    method ReapAll(n: nat) returns (ok: bool)
      requires Consistent(0) && n <= |finished|
      modifies `finished, `pendingBytes, `freePos, `inFlight, freeIndices
      ensures ok || !full
      ensures ok ==> Consistent(0) && Progress(old(Abstract()), Abstract())
      ensures ok ==> inFlight == old(inFlight) - n
    {
      hide Inv, Outstanding, Progress;
      ProgressIsReflexive(Abstract());
      for i := 0 to n
        invariant Consistent(i) && Progress(old(Abstract()), Abstract())
        invariant |finished| == old(|finished|) - i && inFlight == old(inFlight)
      {
        ghost var t := Abstract();
        ok := ReapOne(i);
        if !ok {
          return;
        }
        ProgressIsTransitive(old(Abstract()), t, Abstract());
      }
      ok := true;
      InFlightIsFree(Abstract(), inFlight - n);
      ghost var t := Abstract();
      inFlight := inFlight - n;
      ProgressIsTransitive(old(Abstract()), t, Abstract());
    }

    /** Drains the queue; fails where the source aborts, which takes a result that was not full. */
    method CompleteAll() returns (ok: bool)
      requires Consistent(0)
      modifies this, freeIndices
      ensures ok || !full
      ensures ok ==> Valid() && Outstanding(Abstract()) == [] && pendingBytes == 0
      ensures ok ==> freePos == |pool|
      ensures ok ==> sync == old(sync) && agree == old(agree)
      ensures ok ==> Progress(old(Abstract()), Abstract())
      ensures ok ==> freeIndices == old(freeIndices)
      ensures ok && agree ==> files == sync
    {
      hide Inv, Progress;
      ProgressIsReflexive(Abstract());
      SubmitPending();
      while inFlight > 0
        invariant Consistent(0) && Progress(old(Abstract()), Abstract()) && iocbsPos == 0
        invariant freeIndices == old(freeIndices)
        invariant inFlight >= 0
        decreases inFlight
      {
        var toReap := if inFlight > 512 then 512 else inFlight;
        ghost var t := Abstract();
        var n := GetEvents(1, toReap);
        ghost var u := Abstract();
        ok := ReapAll(n);
        if !ok {
          return;
        }
        ProgressIsTransitive(old(Abstract()), t, u);
        ProgressIsTransitive(old(Abstract()), u, Abstract());
      }
      NothingLost(Abstract());
      if pendingBytes != 0 {
        return false;
      }
      DrainedInv(Abstract());
      ProgressKeeps(old(Abstract()), Abstract());
      return true;
    }

    /** Makes some room; it only ever waits for events of operations the kernel holds. */
    method ProcessSome() returns (ok: bool)
      requires Valid()
      modifies `iocbsPos, `waiting, `finished, `files, `pendingBytes, `freePos, `inFlight, `pool, `full, freeIndices
      ensures ok || !full
      ensures ok ==> Valid() && Progress(old(Abstract()), Abstract())
      ensures ok ==> |pool| - freePos <= old(|pool| - freePos)
      ensures ok && old(inFlight) > 0 ==> 0 < freePos && inFlight < old(inFlight) && iocbsPos == 0
      ensures ok ==> inFlight == old(inFlight) - Min(Min(old(inFlight), granularity), 512)
    {
      hide Inv, Progress, Outstanding;
      ProgressIsReflexive(Abstract());
      InFlightComplementsFree(Abstract());
      if inFlight == 0 {
        return true;
      }
      SubmitPending();
      ghost var t := Abstract();
      OutstandingSize(t);
      var toReap := Min(Min(inFlight, granularity), 512);
      var n := GetEvents(toReap, toReap);
      ghost var u := Abstract();
      ok := ReapAll(n);
      if ok {
        ProgressIsTransitive(old(Abstract()), t, u);
        ProgressIsTransitive(old(Abstract()), u, Abstract());
        InFlightComplementsFree(Abstract());
      }
    }

    /** Makes sure that there is a pool of buffers of at least this size. */
    method SetupPool(size: nat) returns (ok: bool)
      requires Valid()
      modifies this, freeIndices
      ensures ok || !full
      ensures ok ==> Valid() && Progress(old(Abstract()), Abstract())
      ensures ok ==> |pool| == maxPending && poolBufferSize >= size
      ensures |old(pool)| != 0 && size <= old(poolBufferSize) ==> ok && Abstract() == old(Abstract())
      ensures ok ==> freeIndices == old(freeIndices) || fresh(freeIndices)
    {
      hide Inv, Progress, Outstanding;
      ProgressIsReflexive(Abstract());
      InFlightComplementsFree(Abstract());
      if |pool| != 0 && poolBufferSize >= size {
        return true;
      }
      ok := CompleteAll();
      if !ok {
        return;
      }
      ghost var s := Abstract();
      ReplacePool(size);
      NewPoolIsProgress(s, size, pool);
      ProgressIsTransitive(old(Abstract()), s, Abstract());
      return true;
    }

    /** Frees the pool and allocates a new one, all of it free. */
    method ReplacePool(size: nat)
      requires Shape()
      modifies `pool, `freeIndices, `freePos, `poolBufferSize
      ensures Shape() && fresh(freeIndices)
      ensures |pool| == maxPending && forall i :: 0 <= i < |pool| ==> |pool[i]| == size
      ensures Abstract() == NewPool(old(Abstract()), size, pool)
    {
      pool := seq(maxPending, _ => seq(size, _ => 0));
      freeIndices := new nat[maxPending](i => i);
      freePos := maxPending;
      poolBufferSize := size;
      assert freeIndices[..freePos] == Upto(maxPending);
    }

    /** Makes sure that a buffer of at least `size` bytes is free. */
    method MakeRoom(size: nat) returns (ok: bool)
      requires Valid()
      modifies this, freeIndices
      ensures ok || !full
      ensures ok ==> Valid() && Progress(old(Abstract()), Abstract())
      ensures ok ==> 0 < freePos && size <= poolBufferSize
      ensures 0 < old(freePos) && size <= old(poolBufferSize) ==> ok && Abstract() == old(Abstract())
      ensures ok ==> freeIndices == old(freeIndices) || fresh(freeIndices)
    {
      hide Inv, Progress, Outstanding;
      ghost var s := Abstract();
      ProgressIsReflexive(s);
      InFlightComplementsFree(s);
      if inFlight >= maxPending {
        ok := ProcessSome();
        if !ok {
          return;
        }
      }
      ghost var t := Abstract();
      ok := SetupPool(size);
      if !ok {
        return;
      }
      ProgressIsTransitive(s, t, Abstract());
      InFlightComplementsFree(Abstract());
      while freePos == 0
        invariant Valid() && Progress(s, Abstract())
        invariant 0 < old(freePos) && size <= old(poolBufferSize) ==> Abstract() == s
        invariant |pool| == maxPending && poolBufferSize >= size
        invariant freePos + inFlight == maxPending
        invariant freeIndices == old(freeIndices) || fresh(freeIndices)
        decreases inFlight
      {
        t := Abstract();
        ok := ProcessSome();
        if !ok {
          return;
        }
        ProgressIsTransitive(s, t, Abstract());
        InFlightComplementsFree(Abstract());
      }
    }

    /** Queues a write or a read, as operation `c`; fails where the source aborts. */
    method Xfer(kind: Kind, fd: nat, data: seq<Byte>, offset: nat) returns (ok: bool, ghost c: Iocb)
      requires Valid()
      modifies this, iocbs, freeIndices
      ensures ok || !full
      ensures 0 < old(freePos) && |data| <= old(poolBufferSize) ==> ok
      ensures ok ==> Valid() && (full ==> old(full))
      ensures ok ==> sync == if kind.Write? then Store(old(sync), fd, offset, data) else old(sync)
      ensures ok && agree ==> old(agree)
      ensures ok && old(agree && Repeats(Abstract(), Iocb(kind, fd, 0, |data|, offset), data)) ==> agree
      ensures ok ==> c == Iocb(kind, fd, c.idx, |data|, offset) && c in Outstanding(Abstract())
      ensures ok && kind.Write? ==> c.idx < |pool| && data <= pool[c.idx]
      ensures ok ==> forall d :: d in Outstanding(Abstract()) ==> d == c || d in old(Outstanding(Abstract()))
      ensures old(CanEnqueue(Abstract(), data)) ==> ok && Abstract() == Queued(old(Abstract()), kind, fd, offset, data)
      ensures ok ==> freeIndices == old(freeIndices) || fresh(freeIndices)
    {
      hide Inv, Progress, Outstanding, Store, Repeats, Enqueue, Submit;
      FreeIsUsable(Abstract());
      ok := MakeRoom(|data|);
      if !ok {
        c := Iocb(kind, fd, 0, 0, 0);
        return;
      }
      ghost var t := Abstract();
      ProgressKeeps(old(Abstract()), t);
      FreeIsUsable(t);
      RepeatsLater(old(Abstract()), t, kind, fd, offset, data);
      EnqueuedFacts(t, kind, fd, offset, data);
      c := Queue(kind, fd, data, offset);
    }

    /** Fills a buffer and queues the operation, and hands the submit array over when it is full. */
    method Queue(kind: Kind, fd: nat, data: seq<Byte>, offset: nat) returns (c: Iocb)
      requires Valid() && CanEnqueue(Abstract(), data)
      modifies `freePos, `pool, `sync, `agree, `iocbsPos, `inFlight, `pendingBytes, `waiting, iocbs
      ensures Valid() && c == TopIocb(old(Abstract()), kind, fd, offset, |data|)
      ensures Abstract() == Queued(old(Abstract()), kind, fd, offset, data)
    {
      hide Inv, Progress, Outstanding, Store, Repeats;
      EnqueueIsProgress(Abstract(), kind, fd, offset, data);
      c := FillBuffer(kind, fd, data, offset);
      AddIocb(c);
      if iocbsPos == granularity {
        SubmitPending();
      }
    }

    /** Takes a buffer and, for a write, copies the data there. */
    method FillBuffer(kind: Kind, fd: nat, data: seq<Byte>, offset: nat) returns (c: Iocb)
      requires Shape() && CanEnqueue(Abstract(), data)
      modifies `freePos, `pool, `sync, `agree
      ensures Shape() && c == TopIocb(old(Abstract()), kind, fd, offset, |data|)
      ensures Abstract() == TakeBuffer(old(Abstract()), kind, fd, offset, data)
    {
      hide Outstanding, Store, Repeats;
      ghost var s := Abstract();
      freePos := freePos - 1;
      var idx := freeIndices[freePos];
      c := Iocb(kind, fd, idx, |data|, offset);
      if kind.Write? {
        pool := pool[idx := data + pool[idx][|data|..]];
        sync := Store(sync, fd, offset, data);
      }
      agree := agree && Repeats(s, c, data);
      assert freeIndices[..freePos] == s.free[..|s.free| - 1];
    }

    /** Appends the operation to the submit array. */
    method AddIocb(c: Iocb)
      requires Shape() && iocbsPos < granularity
      modifies `iocbsPos, `inFlight, `pendingBytes, iocbs
      ensures Shape() && Abstract() == Append(old(Abstract()), c)
    {
      pendingBytes := pendingBytes + c.len;
      iocbs[iocbsPos] := c;
      iocbsPos := iocbsPos + 1;
      inFlight := inFlight + 1;
    }

    /** A verifying read: drains the queue first, then reads synchronously into the caller's buffer. */
    method ReadBack(fd: nat, len: nat, offset: nat) returns (ok: bool, data: seq<Byte>)
      requires Valid()
      modifies this, freeIndices
      ensures ok || !full
      ensures ok ==> Valid() && |data| <= len && (full ==> |data| == len && old(full))
      ensures ok ==> Outstanding(Abstract()) == [] && sync == old(sync) && agree == old(agree)
      ensures ok && agree ==> files == sync
      ensures ok && agree ==> forall k :: 0 <= k < |data| && Loc(fd, offset + k) in sync ==>
                data[k] == sync[Loc(fd, offset + k)]
    {
      hide Inv, Progress, Outstanding;
      data := [];
      ok := CompleteAll();
      if !ok {
        return;
      }
      ProgressKeeps(old(Abstract()), Abstract());
      ShortResult(Abstract());
      var res :| res <= len;
      full := full && res == len;
      if res < 0 {
        return false, [];
      }
      var f := files;
      data := seq(res, k requires 0 <= k => if Loc(fd, offset + k) in f then f[Loc(fd, offset + k)] else 0);
    }

    /**
     What a caller can rely on: writes that agree wherever two of them meet, however
     many, followed by a drain leave the files exactly as immediate writes would.
     Only a result that is not full can make this fail.
     */
    method WriteAllAndSync(ops: seq<WriteOp>) returns (ok: bool)
      requires Valid() && Outstanding(Abstract()) == [] && agree && files == sync
      requires PairwiseAgree(ops)
      modifies this, iocbs, freeIndices
      ensures ok || !full
      ensures ok ==> Valid() && Outstanding(Abstract()) == [] && agree
      ensures ok ==> files == sync == StoreAll(old(files), ops)
    {
      hide Inv, Outstanding, Store, Progress;
      assert ops[..|ops|] == ops;
      for i := 0 to |ops|
        invariant Valid() && agree
        invariant freeIndices == old(freeIndices) || fresh(freeIndices)
        invariant sync == StoreAll(old(files), ops[..i])
        invariant Among(Outstanding(Abstract()), ops[..i])
      {
        var op := ops[i];
        NextRepeats(old(files), Abstract(), ops, i);
        ghost var c;
        ok, c := Xfer(Write, op.fd, op.data, op.offset);
        if !ok {
          return;
        }
        assert ops[..i + 1] == ops[..i] + [op];
        assert SameExtent(c, ops[..i + 1][i]);
        assert forall j :: 0 <= j < i ==> ops[..i + 1][j] == ops[..i][j];
      }
      ok := CompleteAll();
    }
  }

  /** A write as the caller requests it. */
  datatype WriteOp = WriteOp(fd: nat, offset: nat, data: seq<Byte>)

  predicate SameExtent(c: Iocb, op: WriteOp) {
    c.kind.Write? && c.fd == op.fd && c.offset == op.offset && c.len == |op.data|
  }

  /** Every operation is one of the requested writes. */
  ghost predicate Among(cs: seq<Iocb>, ops: seq<WriteOp>) {
    forall c :: c in cs ==> exists j :: 0 <= j < |ops| && SameExtent(c, ops[j])
  }

  predicate Within(l: Loc, op: WriteOp) {
    InExtent(l, op.fd, op.offset, |op.data|)
  }

  function ByteAt(op: WriteOp, l: Loc): Byte
    requires Within(l, op)
  {
    op.data[l.pos - op.offset]
  }

  /** Wherever two of the writes meet they write the same. */
  ghost predicate PairwiseAgree(ops: seq<WriteOp>) {
    forall i, j, l :: 0 <= i < j < |ops| && Within(l, ops[i]) && Within(l, ops[j]) ==>
      ByteAt(ops[i], l) == ByteAt(ops[j], l)
  }

  /** The synchronous program: perform the writes one after the other. */
  function StoreAll(f: Files, ops: seq<WriteOp>): Files {
    if ops == [] then f
    else
      var op := ops[|ops| - 1];
      Store(StoreAll(f, ops[..|ops| - 1]), op.fd, op.offset, op.data)
  }

  /** Where writes agree, each of them says what is there in the end. */
  lemma {:induction false} AgreedByte(f: Files, ops: seq<WriteOp>, j: nat, l: Loc)
    requires PairwiseAgree(ops) && j < |ops| && Within(l, ops[j])
    ensures l in StoreAll(f, ops) && StoreAll(f, ops)[l] == ByteAt(ops[j], l)
    decreases |ops|
  {
    hide Store;
    var n := |ops| - 1;
    if Within(l, ops[n]) {
      assert ByteAt(ops[n], l) == ByteAt(ops[j], l);
    } else {
      PrefixAgrees(ops, n);
      hide PairwiseAgree;
      AgreedByte(f, ops[..n], j, l);
    }
  }

  lemma PrefixAgrees(ops: seq<WriteOp>, n: nat)
    requires PairwiseAgree(ops) && n <= |ops|
    ensures PairwiseAgree(ops[..n])
  {
  }

  lemma NextRepeats(f: Files, s: State, ops: seq<WriteOp>, i: nat)
    requires PairwiseAgree(ops) && i < |ops|
    requires s.sync == StoreAll(f, ops[..i]) && Among(Outstanding(s), ops[..i])
    ensures Repeats(s, Iocb(Write, ops[i].fd, 0, |ops[i].data|, ops[i].offset), ops[i].data)
  {
    hide Outstanding, StoreAll;
    var c := Iocb(Write, ops[i].fd, 0, |ops[i].data|, ops[i].offset);
    forall d, l | d in Outstanding(s) && Covers(d, l) && Covers(c, l)
      ensures l in s.sync && s.sync[l] == ops[i].data[l.pos - c.offset]
    {
      var j :| 0 <= j < i && SameExtent(d, ops[..i][j]);
      AgreedByte(f, ops[..i], j, l);
      assert Within(l, ops[j]) && Within(l, ops[i]);
      assert ByteAt(ops[j], l) == ByteAt(ops[i], l);
    }
  }

  // -------------------------------------------------------- when the kernel is told

  /** Requests that all find a free buffer, one after the other. */
  ghost predicate CanQueueAll(s: State, ops: seq<WriteOp>)
    decreases |ops|
  {
    ops != [] ==>
      && CanEnqueue(s, ops[0].data)
      && CanQueueAll(Queued(s, Write, ops[0].fd, ops[0].offset, ops[0].data), ops[1..])
  }

  ghost function QueuedAll(s: State, ops: seq<WriteOp>): State
    requires CanQueueAll(s, ops)
    decreases |ops|
  {
    if ops == [] then s
    else QueuedAll(Queued(s, Write, ops[0].fd, ops[0].offset, ops[0].data), ops[1..])
  }

  /**
   Without a drain the kernel is told in batches: it has received as many requests
   as the largest multiple of the granularity says, and the rest are pending.
   */
  lemma {:induction false} ToldInBatches(s: State, ops: seq<WriteOp>)
    requires CanQueueAll(s, ops) && |s.pending| < s.granularity
    ensures var t, all := QueuedAll(s, ops), |s.pending| + |ops|;
            && |t.pending| == all % s.granularity
            && |t.waiting| == |s.waiting| + all / s.granularity * s.granularity
    decreases |ops|
  {
    hide Queued, CanEnqueue;
    var all := |s.pending| + |ops|;
    if ops == [] {
      DivModUnique(all, s.granularity, 0, all);
    } else {
      QueuedSizes(s, ops[0]);
      ToldInBatches(Queued(s, Write, ops[0].fd, ops[0].offset, ops[0].data), ops[1..]);
      if |s.pending| + 1 == s.granularity {
        OneBatchMore(all, s.granularity);
      }
    }
  }

  lemma QueuedSizes(s: State, op: WriteOp)
    requires CanEnqueue(s, op.data)
    ensures var t := Queued(s, Write, op.fd, op.offset, op.data);
            && t.granularity == s.granularity
            && |t.pending| == (if |s.pending| + 1 == s.granularity then 0 else |s.pending| + 1)
            && |t.waiting| == |s.waiting| + if |s.pending| + 1 == s.granularity then s.granularity else 0
  {
    hide Outstanding, Store, Repeats;
  }

  lemma OneBatchMore(all: nat, g: nat)
    requires g > 0 && all >= g
    ensures all % g == (all - g) % g && all / g * g == (all - g) / g * g + g
  {
    var rest := all - g;
    DivModUnique(all, g, rest / g + 1, rest % g);
    assert (rest / g + 1) * g == rest / g * g + g;
  }
}
