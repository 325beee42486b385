/**
 A whole multi-part upload by many ranks against a server that keeps parts under
 their numbers and, to complete the upload, wants for each number the tag that it
 answered with. The object it then makes is the file that writing at offsets gives.
 */
module S3Object {
  import opened Arithmetic
  import opened IorTrace
  import opened S3Multipart

  /** What the server keeps under a part number. */
  datatype Part = Part(tag: ETag, data: seq<Byte>)

  type Server = map<nat, Part>

  /** What the ranks write: write `k` of rank `r`, and the tag that the server answers with. */
  datatype Writes = Writes(data: (nat, nat) -> seq<Byte>, tag: (nat, nat) -> ETag)

  predicate Stored(t: Test, w: Writes, server: Server, r: nat, k: nat)
    requires Checked(t)
  {
    && PartNumber(t, r, k) in server
    && server[PartNumber(t, r, k)] == Part(w.tag(r, k), w.data(r, k))
  }

  /** The tags that a rank has collected. */
  function TagsOf(t: Test, w: Writes, r: nat): (s: seq<ETag>)
    requires Checked(t)
    ensures |s| == TransfersPerRank(t)
  {
    seq<ETag>(TransfersPerRank(t), (k: nat) => w.tag(r, k))
  }

  /** An upload that the parameter check accepts, of a shared file. */
  predicate Accepted(t: Test) {
    Checked(t) && !t.filePerProc && ParamsOk(t)
  }

  lemma EntryOfPart(t: Test, r: nat, k: nat)
    requires Accepted(t) && r < t.numTasks && k < TransfersPerRank(t)
    ensures 0 <= PartNumber(t, r, k) < t.numTasks * TransfersPerRank(t)
    ensures Entry(t, TransfersPerRank(t), PartNumber(t, r, k)) == (r, k)
  {
    TransfersPerBlock(t);
    if Segmented(t) {
      OneSegmentIsOneBlock(t);
    }
    PartNumbersAreUnique(t, r, k, TransfersPerRank(t));
  }

  lemma PartOfEntry(t: Test, q: nat)
    requires Accepted(t) && TransfersPerRank(t) > 0 && q < t.numTasks * TransfersPerRank(t)
    ensures var (r, k) := Entry(t, TransfersPerRank(t), q);
            0 <= r < t.numTasks && 0 <= k < TransfersPerRank(t) && PartNumber(t, r, k) == q
  {
    var n := TransfersPerRank(t);
    if Segmented(t) {
      OneSegmentIsOneBlock(t);
      hide TransfersPerRank, Offsets;
      Digits(q, t.numTasks, n);
    } else {
      StridedPartsAgree(t, n, q);
    }
  }

  /** Byte `x` of write `k` of rank `r` is where writing that transfer at its offset would put it. */
  ghost predicate ByteAtPlace(t: Test, w: Writes, obj: seq<Byte>, r: nat, k: nat, x: nat)
    requires Checked(t)
  {
    && Offsets(t, Sequential) > 0 && x < |w.data(r, k)|
    && var o := Nominal(t, Sequential, r, k) + x;
       0 <= o < |obj| && obj[o] == w.data(r, k)[x]
  }

  // ---------------------------------------------------------------- the upload

  /** One rank puts all its parts; those of other ranks stay. */
  method WriteParts(t: Test, w: Writes, rank: nat, before: Server) returns (server: Server)
    requires Accepted(t) && rank < t.numTasks
    requires forall r, k :: 0 <= r < rank && 0 <= k < TransfersPerRank(t) ==> Stored(t, w, before, r, k)
    ensures forall r, k :: 0 <= r <= rank && 0 <= k < TransfersPerRank(t) ==> Stored(t, w, server, r, k)
  {
    hide TransfersPerRank, PartNumber;
    server := before;
    var upload := new Upload(t, rank);
    for i := 0 to TransfersPerRank(t)
      invariant fresh(upload) && upload.Valid() && upload.t == t && upload.rank == rank && upload.partNumber == i
      invariant forall r, k :: 0 <= r < rank && 0 <= k < TransfersPerRank(t) ==> Stored(t, w, server, r, k)
      invariant forall k :: 0 <= k < i ==> Stored(t, w, server, rank, k)
    {
      var ok, part := upload.Put(['"'] + w.tag(rank, i) + ['"']);
      assert ok && part == PartNumber(t, rank, i);
      OthersStay(t, w, server, rank, i);
      server := server[part := Part(w.tag(rank, i), w.data(rank, i))];
    }
  }

  /** No other write has the number of this one. */
  lemma OthersStay(t: Test, w: Writes, server: Server, rank: nat, i: nat)
    requires Accepted(t) && rank < t.numTasks && i < TransfersPerRank(t)
    ensures var after := server[PartNumber(t, rank, i) := Part(w.tag(rank, i), w.data(rank, i))];
            forall r, k :: 0 <= r < t.numTasks && 0 <= k < TransfersPerRank(t) && Stored(t, w, server, r, k) ==>
              Stored(t, w, after, r, k)
  {
    hide TransfersPerRank, PartNumber, Entry;
    EntryOfPart(t, rank, i);
    forall r: nat, k: nat | r < t.numTasks && k < TransfersPerRank(t)
      ensures PartNumber(t, r, k) == PartNumber(t, rank, i) ==> r == rank && k == i
    {
      EntryOfPart(t, r, k);
    }
  }

  /** The server completes an upload only if each part is there and has the tag that the list says. */
  method Complete(server: Server, list: seq<ETag>) returns (ok: bool, ghost parts: seq<seq<Byte>>, obj: seq<Byte>)
    ensures ok <==> forall q :: 0 <= q < |list| ==> q in server && server[q].tag == list[q]
    ensures ok ==> |parts| == |list| && forall q :: 0 <= q < |list| ==> parts[q] == server[q].data
    ensures ok ==> obj == Concatenated(parts)
  {
    parts, obj := [], [];
    for q := 0 to |list|
      invariant |parts| == q && obj == Concatenated(parts)
      invariant forall p :: 0 <= p < q ==> p in server && server[p].tag == list[p] && parts[p] == server[p].data
    {
      if q !in server || server[q].tag != list[q] {
        return false, parts, obj;
      }
      obj := obj + server[q].data;
      parts := parts + [server[q].data];
    }
    ok := true;
  }

  /**
   The whole upload: every rank puts its parts, rank 0 orders the tags, and the
   server completes. It never refuses the list, and every byte of the object is the
   byte that writing each transfer at its offset would put there.
   */
  method WholeUpload(t: Test, w: Writes) returns (ok: bool, obj: seq<Byte>)
    requires Accepted(t)
    requires forall r, k :: 0 <= r < t.numTasks && 0 <= k < TransfersPerRank(t) ==> |w.data(r, k)| == t.transferSize
    ensures ok && |obj| == t.blockSize * t.segmentCount * t.numTasks
    ensures Offsets(t, Sequential) > 0
    ensures forall r, k, x :: 0 <= r < t.numTasks && 0 <= k < TransfersPerRank(t) && 0 <= x < t.transferSize ==>
              ByteAtPlace(t, w, obj, r, k, x)
  {
    hide TransfersPerRank, ByteAtPlace, Offsets, Concatenated, InPlace;
    ghost var server, parts;
    ok, server, parts, obj := PutAndComplete(t, w);
    ObjectIsRight(t, w, server, parts);
  }

  /** All ranks put their parts, and rank 0 completes: every part is at its place. */
  method PutAndComplete(t: Test, w: Writes)
    returns (ok: bool, ghost kept: Server, ghost parts: seq<seq<Byte>>, obj: seq<Byte>)
    requires Accepted(t)
    ensures ok && |parts| == t.numTasks * TransfersPerRank(t) && obj == Concatenated(parts)
    ensures forall q :: 0 <= q < |parts| ==> InPlace(t, w, kept, q) && parts[q] == kept[q].data
  {
    hide TransfersPerRank, PartNumber, InOrder, Concatenated;
    AcceptedFacts(t);
    var server: Server := map[];
    for r := 0 to t.numTasks
      invariant forall p, k :: 0 <= p < r && 0 <= k < TransfersPerRank(t) ==> Stored(t, w, server, p, k)
    {
      server := WriteParts(t, w, r, server);
    }
    var tags := seq(t.numTasks, (r: nat) => TagsOf(t, w, r));
    var list;
    ok, list := Close(t, tags);
    assert ok;
    ListSize(t);
    forall q | 0 <= q < |list| ensures q in server && server[q].tag == list[q] && InPlace(t, w, server, q) {
      AtItsPlace(t, w, server, tags, list[q], q);
    }
    ok, parts, obj := Complete(server, list);
    kept := server;
  }

  /** Part `q` of the server is the write that belongs at place `q`. */
  predicate InPlace(t: Test, w: Writes, server: Server, q: nat)
    requires Checked(t)
  {
    && q in server && TransfersPerRank(t) > 0
    && var (r, k) := Entry(t, TransfersPerRank(t), q);
       0 <= r < t.numTasks && 0 <= k < TransfersPerRank(t) && server[q].data == w.data(r, k)
  }

  lemma AcceptedFacts(t: Test)
    requires Accepted(t)
    ensures t.numTasks > 0 && Offsets(t, Sequential) > 0 && TransfersPerRank(t) > 0
  {
    TransfersPerBlock(t);
    MulAtLeast(t.segmentCount, t.blockSize / t.transferSize);
  }

  lemma ListSize(t: Test)
    requires Accepted(t)
    ensures OuterCount(t, TransfersPerRank(t)) * InnerCount(t, TransfersPerRank(t)) == t.numTasks * TransfersPerRank(t)
  {
  }

  lemma AtItsPlace(t: Test, w: Writes, server: Server, tags: seq<seq<ETag>>, tag: ETag, q: nat)
    requires Accepted(t) && TransfersPerRank(t) > 0 && q < t.numTasks * TransfersPerRank(t)
    requires |tags| == t.numTasks && forall r :: 0 <= r < t.numTasks ==> tags[r] == TagsOf(t, w, r)
    requires forall r, k :: 0 <= r < t.numTasks && 0 <= k < TransfersPerRank(t) ==> Stored(t, w, server, r, k)
    requires InOrder(t, tags, TransfersPerRank(t), tag, q)
    ensures q in server && server[q].tag == tag && InPlace(t, w, server, q)
  {
    hide TransfersPerRank, PartNumber, Entry;
    PartOfEntry(t, q);
    var (r, k) := Entry(t, TransfersPerRank(t), q);
    assert Stored(t, w, server, r, k);
  }

  lemma ObjectIsRight(t: Test, w: Writes, server: Server, parts: seq<seq<Byte>>)
    requires Accepted(t) && |parts| == t.numTasks * TransfersPerRank(t)
    requires forall r, k :: 0 <= r < t.numTasks && 0 <= k < TransfersPerRank(t) ==> |w.data(r, k)| == t.transferSize
    requires forall q :: 0 <= q < |parts| ==> InPlace(t, w, server, q) && parts[q] == server[q].data
    ensures Offsets(t, Sequential) > 0 && |Concatenated(parts)| == t.blockSize * t.segmentCount * t.numTasks
    ensures forall r, k, x :: 0 <= r < t.numTasks && 0 <= k < TransfersPerRank(t) && 0 <= x < t.transferSize ==>
              ByteAtPlace(t, w, Concatenated(parts), r, k, x)
  {
    hide TransfersPerRank, Entry, Concatenated, Nominal, Offsets;
    AcceptedFacts(t);
    forall q | 0 <= q < |parts|
      ensures var (r, k) := Entry(t, TransfersPerRank(t), q);
              0 <= r < t.numTasks && 0 <= k < TransfersPerRank(t) && parts[q] == w.data(r, k)
    {
      assert InPlace(t, w, server, q) && parts[q] == server[q].data;
    }
    forall r: nat, k: nat, x: nat | r < t.numTasks && k < TransfersPerRank(t) && x < t.transferSize
      ensures ByteAtPlace(t, w, Concatenated(parts), r, k, x)
    {
      ObjectIsFile(t, w.data, parts, r, k, x);
    }
    ObjectIsFile(t, w.data, parts, 0, 0, 0);
  }

  // ---------------------------------------------------- an object of one's own

  /** The close of a rank's own object: the tags are taken from the front of its text, one after the other. */
  method CloseOwn(etags: seq<char>, ghost tags: seq<ETag>) returns (list: seq<ETag>)
    requires etags == Text(tags)
    ensures list == tags
  {
    hide Text;
    var perRank := |etags| / ETAG_SIZE;
    TextOfNone();
    DivModUnique(|etags|, ETAG_SIZE, |tags|, 0);
    list := [];
    for i := 0 to perRank
      invariant list == tags[..i]
    {
      TagInText(tags, i);
      list := list + [etags[i * ETAG_SIZE..i * ETAG_SIZE + ETAG_SIZE]];
    }
  }

  lemma TextOfNone()
    ensures Text([]) == [] && ETAG_SIZE > 0
  {
  }

  /** The parts of a rank's own object lie in the order of its file. */
  lemma OwnObjectAt(t: Test, w: Writes, rank: nat, parts: seq<seq<Byte>>, k: nat, x: nat)
    requires Checked(t) && t.filePerProc && Offsets(t, Sequential) > 0
    requires |parts| == TransfersPerRank(t) && forall i :: 0 <= i < |parts| ==> parts[i] == w.data(rank, i)
    requires forall i :: 0 <= i < |parts| ==> |parts[i]| == t.transferSize
    ensures |Concatenated(parts)| == t.segmentCount * t.blockSize
    ensures k < |parts| && x < t.transferSize ==>
              ByteAtPlace(t, w, Concatenated(parts), rank, k, x)
  {
    hide Nominal, Concatenated, Offsets, TransfersPerRank;
    ConcatenatedAt(parts, t.transferSize, k, x);
    OwnSize(t);
    if k < |parts| {
      OwnFileIsContiguous(t, rank, k);
    }
  }

  lemma OwnSize(t: Test)
    requires Checked(t)
    ensures TransfersPerRank(t) * t.transferSize == t.segmentCount * t.blockSize
  {
    TransfersPerBlock(t);
    var k := t.blockSize / t.transferSize;
    assert t.segmentCount * k * t.transferSize == t.segmentCount * (k * t.transferSize);
  }

  /**
   The whole upload with an object per rank: the parts are numbered from 0 on, the
   server accepts the list, and the object is the file of the rank, byte for byte.
   */
  method WholeOwnUpload(t: Test, w: Writes, rank: nat) returns (ok: bool, obj: seq<Byte>)
    requires Checked(t) && t.filePerProc
    requires forall k :: 0 <= k < TransfersPerRank(t) ==> |w.data(rank, k)| == t.transferSize
    ensures ok && |obj| == t.segmentCount * t.blockSize
    ensures Offsets(t, Sequential) > 0
    ensures forall k, x :: 0 <= k < TransfersPerRank(t) && 0 <= x < t.transferSize ==>
              ByteAtPlace(t, w, obj, rank, k, x)
  {
    hide TransfersPerRank, ByteAtPlace, Offsets, Concatenated;
    TransfersPerBlock(t);
    ghost var parts;
    ok, parts, obj := PutOwnAndComplete(t, w, rank);
    OwnObjectAt(t, w, rank, parts, 0, 0);
    forall k: nat, x: nat | k < TransfersPerRank(t) && x < t.transferSize ensures ByteAtPlace(t, w, obj, rank, k, x) {
      OwnObjectAt(t, w, rank, parts, k, x);
    }
  }

  /** A rank puts its parts, numbered from 0 on, and completes its own upload. */
  method PutOwnAndComplete(t: Test, w: Writes, rank: nat)
    returns (ok: bool, ghost parts: seq<seq<Byte>>, obj: seq<Byte>)
    requires Checked(t) && t.filePerProc
    ensures ok && |parts| == TransfersPerRank(t) && obj == Concatenated(parts)
    ensures forall k :: 0 <= k < |parts| ==> parts[k] == w.data(rank, k)
  {
    hide TransfersPerRank, Offsets, Concatenated, Text;
    var server: Server := map[];
    var upload := new Upload(t, rank);
    for i := 0 to TransfersPerRank(t)
      invariant fresh(upload) && upload.Valid() && upload.t == t && upload.rank == rank && upload.partNumber == i
      invariant upload.tags == TagsOf(t, w, rank)[..i]
      invariant forall k :: 0 <= k < i ==> k in server && server[k] == Part(w.tag(rank, k), w.data(rank, k))
    {
      var put, part := upload.Put(['"'] + w.tag(rank, i) + ['"']);
      assert put && part == i;
      server := server[part := Part(w.tag(rank, i), w.data(rank, i))];
    }
    var list := CloseOwn(upload.etags, upload.tags);
    assert list == TagsOf(t, w, rank);
    ok, parts, obj := Complete(server, list);
  }
}
