/**
 What coalesced calls write, and when one call may stand for the transfers of all
 segments. A call has one buffer, and every repetition of its filetype takes the
 data from there: `data(o)` is the buffer when the transfer at offset `o` is due.
 */
module MpiioContents {
  import opened Arithmetic
  import opened IorTrace
  import opened MpiioView

  // ------------------------------------------------------- writes of a file

  datatype Write = Write(offset: nat, buf: seq<Byte>)

  function StoreWrites(f: File, ws: seq<Write>): File {
    if ws == [] then f
    else Store(StoreWrites(f, ws[..|ws| - 1]), ws[|ws| - 1].offset, ws[|ws| - 1].buf)
  }

  /** All writes have the same size and are aligned to it, and no two differ at one offset. */
  ghost predicate Regular(ws: seq<Write>, size: nat)
    requires size > 0
  {
    && (forall w :: w in ws ==> |w.buf| == size && w.offset % size == 0)
    && (forall v, w :: v in ws && w in ws && v.offset == w.offset ==> v == w)
  }

  lemma {:induction false} StoredByte(f: File, ws: seq<Write>, size: nat, b: nat)
    requires size > 0 && Regular(ws, size)
    ensures var g, base := StoreWrites(f, ws), b - b % size;
            && (forall w :: w in ws && w.offset == base ==> b in g && g[b] == w.buf[b % size])
            && ((forall w :: w in ws ==> w.offset != base) ==> (b in g <==> b in f) && (b in g ==> g[b] == f[b]))
    decreases |ws|
  {
    if ws != [] {
      var init, last := ws[..|ws| - 1], ws[|ws| - 1];
      assert last in ws && (forall w :: w in init ==> w in ws) && forall w :: w in ws ==> w == last || w in init;
      StoredByte(f, init, size, b);
      SlotOf(last.offset, size, b);
    }
  }

  /** Two lists of writes leave the same file, whatever was there, if and only if they have the same writes. */
  lemma SameFileIff(a: seq<Write>, b: seq<Write>, size: nat)
    requires size > 0 && Regular(a, size) && Regular(b, size)
    ensures (forall f :: StoreWrites(f, a) == StoreWrites(f, b)) <==> (forall w :: w in a <==> w in b)
  {
    hide StoreWrites;
    if forall w :: w in a <==> w in b {
      forall f ensures StoreWrites(f, a) == StoreWrites(f, b) {
        forall x: nat
          ensures x in StoreWrites(f, a) <==> x in StoreWrites(f, b)
          ensures x in StoreWrites(f, a) ==> StoreWrites(f, a)[x] == StoreWrites(f, b)[x]
        {
          StoredByte(f, a, size, x);
          StoredByte(f, b, size, x);
        }
      }
    }
    if w :| w in a && w !in b {
      NotTheSame(a, b, size, w);
    }
    if w :| w in b && w !in a {
      NotTheSame(b, a, size, w);
    }
  }

  lemma NotTheSame(a: seq<Write>, b: seq<Write>, size: nat, w: Write)
    requires size > 0 && Regular(a, size) && Regular(b, size) && w in a && w !in b
    ensures StoreWrites(map[], a) != StoreWrites(map[], b)
  {
    hide StoreWrites;
    var i: nat := 0;
    if v :| v in b && v.offset == w.offset {
      i := DifferentByte(v, w);
    }
    Within(w.offset, size, i);
    StoredByte(map[], a, size, w.offset + i);
    StoredByte(map[], b, size, w.offset + i);
  }

  lemma DifferentByte(v: Write, w: Write) returns (i: nat)
    requires v != w && v.offset == w.offset && |v.buf| == |w.buf|
    ensures i < |v.buf| && v.buf[i] != w.buf[i]
  {
    assert !(v.buf == w.buf);
    i :| i < |v.buf| && v.buf[i] != w.buf[i];
  }

  lemma Within(o: nat, size: nat, i: nat)
    requires size > 0 && o % size == 0 && i < size
    ensures (o + i) % size == i && o + i - (o + i) % size == o
  {
    assert o == o / size * size;
    DivModUnique(o + i, size, o / size, i);
  }

  // ---------------------------------------------------- what the calls write

  type Data = nat -> seq<Byte>

  function CallWrites(t: Test, p: nat, coalesce: bool, count: nat, data: Data): seq<Write>
    requires Checked(t) && Offsets(t, Sequential) > 0
  {
    if count == 0 then []
    else
      var offset := Nominal(t, Sequential, p, count - 1);
      CallWrites(t, p, coalesce, count - 1, data) + OneCall(Accessed(t, p, coalesce, offset), data(offset))
  }

  function OneCall(offsets: seq<nat>, buf: seq<Byte>): (ws: seq<Write>)
    ensures |ws| == |offsets| && forall w :: w in ws <==> w.offset in offsets && w.buf == buf
  {
    var ws := seq(|offsets|, i requires 0 <= i < |offsets| => Write(offsets[i], buf));
    AllInOneCall(offsets, buf, ws);
    ws
  }

  lemma AllInOneCall(offsets: seq<nat>, buf: seq<Byte>, ws: seq<Write>)
    requires |ws| == |offsets| && forall i :: 0 <= i < |ws| ==> ws[i] == Write(offsets[i], buf)
    ensures forall w: Write :: w in ws <==> w.offset in offsets && w.buf == buf
  {
    forall w: Write | w.offset in offsets && w.buf == buf ensures w in ws {
      var i :| 0 <= i < |offsets| && offsets[i] == w.offset;
      assert ws[i] == w;
    }
  }

  /** A write that belongs to transfer `n`, made from the buffer of transfer `j`. */
  function From(t: Test, p: nat, data: Data, n: nat, j: nat): Write
    requires Checked(t) && Offsets(t, Sequential) > 0
  {
    Write(Nominal(t, Sequential, p, n), data(Nominal(t, Sequential, p, j)))
  }

  /** One call per transfer: each transfer from its own buffer. */
  lemma {:induction false} SingleWrites(t: Test, p: nat, count: nat, data: Data, w: Write)
    requires Checked(t) && Offsets(t, Sequential) > 0
    ensures w in CallWrites(t, p, false, count, data) <==> exists n :: 0 <= n < count && w == From(t, p, data, n, n)
  {
    hide Nominal;
    if count > 0 {
      SingleWrites(t, p, count - 1, data, w);
      var offset := Nominal(t, Sequential, p, count - 1);
      assert Accessed(t, p, false, offset) == [offset];
      assert w in OneCall([offset], data(offset)) <==> w == From(t, p, data, count - 1, count - 1);
    }
  }

  /** Coalesced calls: each transfer from the buffer of the same transfer of the first segment. */
  lemma {:induction false} CoalescedWrites(t: Test, p: nat, count: nat, data: Data, w: Write)
    requires Checked(t) && Offsets(t, Sequential) > 0 && count <= TransfersPerRank(t)
    ensures w in CallWrites(t, p, true, count, data)
            <==> exists n :: 0 <= n < TransfersPerRank(t) && n % Offsets(t, Sequential) < count
                             && w == From(t, p, data, n, n % Offsets(t, Sequential))
  {
    hide Nominal, Accessed, TransfersPerRank, Offsets;
    var k, all := Offsets(t, Sequential), TransfersPerRank(t);
    if count > 0 {
      var m := count - 1;
      CoalescedWrites(t, p, m, data, w);
      CallOf(t, p, m);
      var calls, buf := Accessed(t, p, true, Nominal(t, Sequential, p, m)), data(Nominal(t, Sequential, p, m));
      if n :| 0 <= n < all && n % k < count && w == From(t, p, data, n, n % k) {
        assert n % k == m ==> w in OneCall(calls, buf);
      }
      if w in OneCall(calls, buf) {
        assert m < k;
        var n :| 0 <= n < all && n % k == m && w.offset == Nominal(t, Sequential, p, n);
        assert w == From(t, p, data, n, n % k);
      }
    }
  }

  /** The offsets of one coalesced call: those of the transfers with the same place in all segments, or none. */
  lemma CallOf(t: Test, p: nat, m: nat)
    requires Checked(t) && Offsets(t, Sequential) > 0 && m < TransfersPerRank(t)
    ensures var k := Offsets(t, Sequential);
            var calls := Accessed(t, p, true, Nominal(t, Sequential, p, m));
            && (m >= k ==> calls == [])
            && (m < k ==> forall x :: x in calls <==>
                  exists n :: 0 <= n < TransfersPerRank(t) && n % k == m && x == Nominal(t, Sequential, p, n))
  {
    hide Nominal, Accessed;
    TransfersPerBlock(t);
    var k, all := Offsets(t, Sequential), TransfersPerRank(t);
    Digits(m, t.segmentCount, k);
    CoalescedCall(t, p, m / k, m % k);
    var calls := Accessed(t, p, true, Nominal(t, Sequential, p, m));
    if m < k {
      SmallQuotient(m, k);
      forall x ensures x in calls <==> exists n :: 0 <= n < all && n % k == m && x == Nominal(t, Sequential, p, n) {
        if x in calls {
          var s :| 0 <= s < t.segmentCount && calls[s] == x;
          PlaceOf(s, t.segmentCount, m, k);
          assert x == Nominal(t, Sequential, p, s * k + m);
        }
        if n :| 0 <= n < all && n % k == m && x == Nominal(t, Sequential, p, n) {
          Digits(n, t.segmentCount, k);
          assert calls[n / k] == x;
        }
      }
    } else {
      QuotientPositive(m, k);
    }
  }

  lemma SmallQuotient(m: nat, k: nat)
    requires m < k
    ensures m / k == 0 && m % k == m
  {
    DivModUnique(m, k, 0, m);
  }

  lemma QuotientPositive(m: nat, k: nat)
    requires m >= k > 0
    ensures m / k > 0
  {
    assert m == m / k * k + m % k;
  }

  lemma PlaceOf(s: nat, n: nat, m: nat, k: nat)
    requires s < n && m < k
    ensures 0 <= s * k + m < n * k && (s * k + m) % k == m
  {
    DigitsBelow(s, n, m, k);
    DivModUnique(s * k + m, k, s, m);
  }

  // ------------------------------------------------------ regular, and when equal

  /** Buffers of the transfer size; with the timestamp pattern the buffer does not change. */
  ghost predicate Fits(t: Test, timestampPattern: bool, data: Data) {
    && (forall o :: |data(o)| == t.transferSize)
    && (timestampPattern ==> forall o :: data(o) == data(0))
  }

  /** Different transfers of a rank lie at different offsets. */
  lemma NominalIsInjective(t: Test, p: nat, n: nat, m: nat)
    requires Checked(t) && Offsets(t, Sequential) > 0 && p < t.numTasks
    requires n < TransfersPerRank(t) && m < TransfersPerRank(t)
    ensures Nominal(t, Sequential, p, n) == Nominal(t, Sequential, p, m) <==> n == m
  {
    hide Nominal, TransfersPerRank, Offsets;
    if Nominal(t, Sequential, p, n) == Nominal(t, Sequential, p, m) {
      if t.filePerProc {
        OwnFileIsContiguous(t, p, n);
        OwnFileIsContiguous(t, p, m);
        DivModUnique(n * t.transferSize, t.transferSize, n, 0);
        DivModUnique(m * t.transferSize, t.transferSize, m, 0);
      } else {
        CoveredOnce(t, p, n, Nominal(t, Sequential, p, n));
        CoveredOnce(t, p, m, Nominal(t, Sequential, p, n));
      }
    }
  }

  lemma WritesAreRegular(t: Test, p: nat, coalesce: bool, count: nat, data: Data)
    requires Checked(t) && Offsets(t, Sequential) > 0 && p < t.numTasks && count <= TransfersPerRank(t)
    requires Fits(t, false, data)
    ensures Regular(CallWrites(t, p, coalesce, count, data), t.transferSize)
  {
    hide Nominal, CallWrites, Offsets, TransfersPerRank;
    var ws := CallWrites(t, p, coalesce, count, data);
    forall w | w in ws ensures |w.buf| == t.transferSize && w.offset % t.transferSize == 0 {
      var n, j := WriteIs(t, p, coalesce, count, data, w);
      NominalIsAligned(t, p, n);
    }
    forall v, w | v in ws && w in ws && v.offset == w.offset ensures v == w {
      var n, i := WriteIs(t, p, coalesce, count, data, v);
      var m, j := WriteIs(t, p, coalesce, count, data, w);
      NominalIsInjective(t, p, n, m);
    }
  }

  /** Which transfer a write belongs to, and which one its buffer is from. */
  lemma WriteIs(t: Test, p: nat, coalesce: bool, count: nat, data: Data, w: Write) returns (n: nat, j: nat)
    requires Checked(t) && Offsets(t, Sequential) > 0 && count <= TransfersPerRank(t)
    requires w in CallWrites(t, p, coalesce, count, data)
    ensures n < TransfersPerRank(t) && w == From(t, p, data, n, j)
    ensures j == if coalesce then n % Offsets(t, Sequential) else n
  {
    hide Nominal, CallWrites, Offsets, TransfersPerRank;
    if coalesce {
      CoalescedWrites(t, p, count, data, w);
      var m: nat :| m < TransfersPerRank(t) && m % Offsets(t, Sequential) < count
                    && w == From(t, p, data, m, m % Offsets(t, Sequential));
      n, j := m, m % Offsets(t, Sequential);
    } else {
      SingleWrites(t, p, count, data, w);
      var m: nat :| m < count && w == From(t, p, data, m, m);
      n, j := m, m;
    }
  }

  /** The buffers of all transfers are those of the same transfers of the first segment. */
  ghost predicate SegmentsAgree(t: Test, p: nat, data: Data)
    requires Checked(t) && Offsets(t, Sequential) > 0
  {
    forall n :: 0 <= n < TransfersPerRank(t) ==>
      From(t, p, data, n, n) == From(t, p, data, n, n % Offsets(t, Sequential))
  }

  ghost predicate SameFile(t: Test, p: nat, coalesce: bool, count: nat, data: Data)
    requires Checked(t) && Offsets(t, Sequential) > 0
  {
    forall f :: StoreWrites(f, CallWrites(t, p, coalesce, count, data))
                == StoreWrites(f, CallWrites(t, p, false, count, data))
  }

  /**
   On contents: a whole run of coalesced calls writes the file that one call per
   transfer writes, whatever was there before, if and only if equal transfers of all
   segments have the same data.
   */
  lemma CoalescingWritesSameIff(t: Test, p: nat, data: Data)
    requires Checked(t) && Offsets(t, Sequential) > 0 && p < t.numTasks && Fits(t, false, data)
    ensures SameFile(t, p, true, TransfersPerRank(t), data) <==> SegmentsAgree(t, p, data)
  {
    hide Nominal, CallWrites, StoreWrites, Offsets, TransfersPerRank, Regular;
    var k, all := Offsets(t, Sequential), TransfersPerRank(t);
    RemaindersFit(t);
    var a, b := CallWrites(t, p, true, all, data), CallWrites(t, p, false, all, data);
    WritesAreRegular(t, p, true, all, data);
    WritesAreRegular(t, p, false, all, data);
    SameFileIff(a, b, t.transferSize);
    if SegmentsAgree(t, p, data) {
      forall w ensures w in a <==> w in b {
        CoalescedWrites(t, p, all, data, w);
        SingleWrites(t, p, all, data, w);
        if n :| 0 <= n < all && w == From(t, p, data, n, n) {
          assert n % k < all && w == From(t, p, data, n, n % k);
        }
        if n :| 0 <= n < all && n % k < all && w == From(t, p, data, n, n % k) {
          assert w == From(t, p, data, n, n);
        }
      }
      assert forall w :: w in a <==> w in b;
      assert forall f :: StoreWrites(f, a) == StoreWrites(f, b);
      assert SameFile(t, p, true, all, data);
    } else {
      var n :| 0 <= n < all && From(t, p, data, n, n) != From(t, p, data, n, n % k);
      var w := From(t, p, data, n, n);
      SingleWrites(t, p, all, data, w);
      if w in a {
        var m, j := WriteIs(t, p, true, all, data, w);
        NominalIsInjective(t, p, n, m);
      }
      assert w in b && w !in a;
    }
  }

  lemma RemaindersFit(t: Test)
    requires Checked(t) && Offsets(t, Sequential) > 0
    ensures t.transferSize > 0 && t.segmentCount > 0
    ensures TransfersPerRank(t) == t.segmentCount * Offsets(t, Sequential) >= Offsets(t, Sequential)
    ensures forall n :: 0 <= n % Offsets(t, Sequential) < TransfersPerRank(t)
  {
    MulAtLeast(t.segmentCount, Offsets(t, Sequential));
  }

  // ------------------------------------------------ when one call may stand for all

  /** After how many transfers the loop can end: at the limit or the end, or anywhere before with a deadline. */
  predicate CanStop(t: Test, deadline: bool, limit: nat, count: nat)
    requires Checked(t)
  {
    var all := TransfersPerRank(t);
    var most := if 0 < limit < all then limit else all;
    if deadline then 1 <= count <= most else count == most
  }

  /**
   What the calls have to achieve: a write leaves the file of one call per transfer,
   a read accesses the transfers due, each once, and a check accesses in each call
   just the transfer whose data it compares.
   */
  ghost predicate Right(t: Test, p: nat, coalesce: bool, access: Access, count: nat, data: Data)
    requires Checked(t) && Offsets(t, Sequential) > 0
  {
    match access
    case WriteAccess => SameFile(t, p, coalesce, count, data)
    case ReadAccess =>
      && |AllAccessed(t, p, coalesce, count)| == count
      && forall x :: x in AllAccessed(t, p, coalesce, count) <==> x in Prefix(t, Sequential, p, count)
    case WriteCheck => ChecksOwn(t, p, coalesce, count)
    case ReadCheck => ChecksOwn(t, p, coalesce, count)
  }

  ghost predicate ChecksOwn(t: Test, p: nat, coalesce: bool, count: nat)
    requires Checked(t) && Offsets(t, Sequential) > 0
  {
    forall n :: 0 <= n < count ==>
      Accessed(t, p, coalesce, Nominal(t, Sequential, p, n)) == [Nominal(t, Sequential, p, n)]
  }

  ghost predicate AlwaysRight(
      t: Test, p: nat, coalesce: bool, deadline: bool, limit: nat, access: Access, timestampPattern: bool)
    requires Checked(t) && Offsets(t, Sequential) > 0
  {
    forall count, data :: CanStop(t, deadline, limit, count) && Fits(t, timestampPattern, data) ==>
      Right(t, p, coalesce, access, count, data)
  }

  /** One call per transfer is always right. */
  lemma SingleCallsAreRight(t: Test, p: nat, access: Access, count: nat, data: Data)
    requires Checked(t) && Offsets(t, Sequential) > 0 && count <= TransfersPerRank(t)
    ensures Right(t, p, false, access, count, data)
  {
    hide Nominal, CallWrites, StoreWrites;
    UncoalescedCalls(t, p, count);
    forall n | 0 <= n < count
      ensures Accessed(t, p, false, Nominal(t, Sequential, p, n)) == [Nominal(t, Sequential, p, n)]
    {
    }
  }

  /** With a buffer that does not change, all segments agree. */
  lemma ConstantDataAgrees(t: Test, p: nat, data: Data)
    requires Checked(t) && Offsets(t, Sequential) > 0 && Fits(t, true, data)
    ensures SegmentsAgree(t, p, data)
  {
    hide Nominal;
    forall n | 0 <= n < TransfersPerRank(t)
      ensures From(t, p, data, n, n) == From(t, p, data, n, n % Offsets(t, Sequential))
    {
      assert data(Nominal(t, Sequential, p, n)) == data(0);
      assert data(Nominal(t, Sequential, p, n % Offsets(t, Sequential))) == data(0);
    }
  }

  /**
   Whatever the access, the deadline, the limit and the pattern: the calls as the
   options coalesce them write the same file, read the same transfers and check each
   transfer at its own offset.
   */
  lemma StridedCallsAreRight(
      t: Test, p: nat, deadline: bool, limit: nat, access: Access, timestampPattern: bool)
    requires Checked(t) && Offsets(t, Sequential) > 0 && p < t.numTasks
    ensures AlwaysRight(
              t, p, Coalesces(deadline, limit, access, timestampPattern), deadline, limit, access, timestampPattern)
  {
    hide Nominal, CallWrites, StoreWrites, AllAccessed, Accessed, Offsets, TransfersPerRank, SegmentsAgree;
    var coalesce := Coalesces(deadline, limit, access, timestampPattern);
    forall count, data | CanStop(t, deadline, limit, count) && Fits(t, timestampPattern, data)
      ensures Right(t, p, coalesce, access, count, data)
    {
      SingleCallsAreRight(t, p, access, count, data);
      if coalesce && access.WriteAccess? {
        ConstantDataAgrees(t, p, data);
        CoalescingWritesSameIff(t, p, data);
      } else if coalesce {
        StridedAccessesNominal(t, p, deadline, limit, access, timestampPattern, count);
      }
    }
  }

  // ------------------------------------------------------------- and only then

  function Zeros(n: nat): (buf: seq<Byte>)
    ensures |buf| == n
  {
    seq<Byte>(n, _ => 0)
  }

  function Ones(n: nat): (buf: seq<Byte>)
    ensures |buf| == n
  {
    seq<Byte>(n, _ => 1)
  }

  function AllZero(size: nat): Data {
    (o: nat) => Zeros(size)
  }

  /** All buffers are zero, except the one at an offset. */
  function OneAt(size: nat, at: nat): Data {
    (o: nat) => if o == at then Ones(size) else Zeros(size)
  }

  /** A coalesced run that ends early has written a transfer that was not due. */
  lemma EarlyEndWritesMore(t: Test, p: nat, count: nat)
    requires Checked(t) && Offsets(t, Sequential) > 0 && p < t.numTasks
    requires t.segmentCount > 1 && 0 < count < TransfersPerRank(t)
    ensures Fits(t, true, AllZero(t.transferSize))
    ensures !SameFile(t, p, true, count, AllZero(t.transferSize))
  {
    hide Nominal, CallWrites, StoreWrites, Offsets, TransfersPerRank, Regular;
    var k, all, data := Offsets(t, Sequential), TransfersPerRank(t), AllZero(t.transferSize);
    RemaindersFit(t);
    var n := NotDue(t.segmentCount, k, count);
    var w := From(t, p, data, n, n % k);
    CoalescedWrites(t, p, count, data, w);
    if w in CallWrites(t, p, false, count, data) {
      var m, j := WriteIs(t, p, false, count, data, w);
      SingleWrites(t, p, count, data, w);
      var i: nat :| i < count && w == From(t, p, data, i, i);
      NominalIsInjective(t, p, n, i);
    }
    WritesAreRegular(t, p, true, count, data);
    WritesAreRegular(t, p, false, count, data);
    SameFileIff(CallWrites(t, p, true, count, data), CallWrites(t, p, false, count, data), t.transferSize);
  }

  /** A transfer that is not among the first `count`, but is written by their coalesced calls. */
  lemma NotDue(segments: nat, k: nat, count: nat) returns (n: nat)
    requires segments > 1 && k > 0 && 0 < count < segments * k
    ensures count <= n < segments * k && 0 <= n % k < count
  {
    if count <= k {
      MulAtLeast(segments - 1, k);
      assert (segments - 1) * k == segments * k - k;
      DivModUnique(k, k, 1, 0);
      n := k;
    } else {
      n := count;
    }
  }

  /** Without the timestamp pattern a whole coalesced run can write wrong data into the second segment. */
  lemma ChangingDataIsLost(t: Test, p: nat) returns (data: Data)
    requires Checked(t) && Offsets(t, Sequential) > 0 && p < t.numTasks && t.segmentCount > 1
    ensures Fits(t, false, data) && !SegmentsAgree(t, p, data)
  {
    hide Nominal, Offsets, TransfersPerRank;
    var k, all := Offsets(t, Sequential), TransfersPerRank(t);
    RemaindersFit(t);
    MulAtLeast(t.segmentCount - 1, k);
    assert (t.segmentCount - 1) * k == all - k;
    DivModUnique(k, k, 1, 0);
    data := OneAt(t.transferSize, Nominal(t, Sequential, p, k));
    NominalIsInjective(t, p, k, 0);
    assert Ones(t.transferSize)[0] != Zeros(t.transferSize)[0];
    assert From(t, p, data, k, k) != From(t, p, data, k, k % k);
  }

  /** A coalesced check of the first transfer accesses that of every other segment as well. */
  lemma CoalescedCheckIsWrong(t: Test, p: nat)
    requires Checked(t) && Offsets(t, Sequential) > 0 && t.segmentCount > 1
    ensures !ChecksOwn(t, p, true, 1)
    ensures forall count :: 0 < count ==> !ChecksOwn(t, p, true, count)
  {
    hide Nominal, Accessed;
    CoalescedCall(t, p, 0, 0);
    assert 0 * Offsets(t, Sequential) + 0 == 0;
    assert |Accessed(t, p, true, Nominal(t, Sequential, p, 0))| == t.segmentCount;
  }

  /**
   The options coalesce exactly when that is right. With more than one segment,
   coalescing is right in every case the options allow, whatever the data, if and
   only if they ask for it; a limit that no rank reaches does not matter, though the
   code takes it for a reason not to coalesce.
   */
  lemma CoalescingIsRightIff(t: Test, p: nat, deadline: bool, limit: nat, access: Access, timestampPattern: bool)
    requires Checked(t) && Offsets(t, Sequential) > 0 && p < t.numTasks && t.segmentCount > 1
    ensures AlwaysRight(t, p, true, deadline, limit, access, timestampPattern)
            <==> Coalesces(deadline, if limit < TransfersPerRank(t) then limit else 0, access, timestampPattern)
  {
    hide Nominal, CallWrites, StoreWrites, AllAccessed, Accessed, Offsets, TransfersPerRank, SegmentsAgree;
    hide SameFile, ChecksOwn, AlwaysRight, Right;
    RemaindersFit(t);
    var all := TransfersPerRank(t);
    var reached := if limit < all then limit else 0;
    SameStops(t, deadline, limit);
    if Coalesces(deadline, reached, access, timestampPattern) {
      StridedCallsAreRight(t, p, deadline, reached, access, timestampPattern);
      SameAlways(t, p, deadline, limit, reached, access, timestampPattern);
    } else {
      CoalescingCanBeWrong(t, p, deadline, limit, reached, access, timestampPattern);
    }
  }

  lemma SameStops(t: Test, deadline: bool, limit: nat)
    requires Checked(t)
    ensures var reached := if limit < TransfersPerRank(t) then limit else 0;
            forall count :: CanStop(t, deadline, limit, count) <==> CanStop(t, deadline, reached, count)
  {
    hide TransfersPerRank;
  }

  lemma SameAlways(
      t: Test, p: nat, deadline: bool, limit: nat, reached: nat, access: Access, timestampPattern: bool)
    requires Checked(t) && Offsets(t, Sequential) > 0
    requires forall count :: CanStop(t, deadline, limit, count) <==> CanStop(t, deadline, reached, count)
    ensures AlwaysRight(t, p, true, deadline, reached, access, timestampPattern)
            <==> AlwaysRight(t, p, true, deadline, limit, access, timestampPattern)
  {
    hide CanStop, Fits, Right, Offsets;
  }

  lemma CoalescingCanBeWrong(
      t: Test, p: nat, deadline: bool, limit: nat, reached: nat, access: Access, timestampPattern: bool)
    requires Checked(t) && Offsets(t, Sequential) > 0 && p < t.numTasks && t.segmentCount > 1
    requires reached == if limit < TransfersPerRank(t) then limit else 0
    requires !Coalesces(deadline, reached, access, timestampPattern)
    ensures !AlwaysRight(t, p, true, deadline, limit, access, timestampPattern)
  {
    hide Nominal, CallWrites, StoreWrites, AllAccessed, Accessed, Offsets, TransfersPerRank, SegmentsAgree;
    hide SameFile, ChecksOwn;
    RemaindersFit(t);
    var all, zero := TransfersPerRank(t), AllZero(t.transferSize);
    MoreThanOne(t);
    var count := if deadline then 1 else if reached > 0 then reached else all;
    assert CanStop(t, deadline, limit, count) && Fits(t, true, zero);
    if access.WriteCheck? || access.ReadCheck? {
      CoalescedCheckIsWrong(t, p);
      assert !Right(t, p, true, access, count, zero);
    } else if count < all {
      if access.WriteAccess? {
        EarlyEndWritesMore(t, p, count);
      } else {
        CoalescedCountIff(t, p, count);
      }
      assert !Right(t, p, true, access, count, zero);
    } else {
      var data := ChangingDataIsLost(t, p);
      CoalescingWritesSameIff(t, p, data);
      assert !Right(t, p, true, access, count, data);
    }
  }

  lemma MoreThanOne(t: Test)
    requires Checked(t) && Offsets(t, Sequential) > 0 && t.segmentCount > 1
    ensures TransfersPerRank(t) > 1
  {
    MulAtLeast(t.segmentCount - 1, Offsets(t, Sequential));
    assert (t.segmentCount - 1) * Offsets(t, Sequential) == TransfersPerRank(t) - Offsets(t, Sequential);
  }
}
