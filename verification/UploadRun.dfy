/** Whole runs of the streaming sender, against the batch sender. */
module UploadRun {
  import opened ByteStrings
  import opened Cryptography
  import opened Merkle
  import opened Segment
  import opened WireLayouts
  import opened LayoutTotality
  import opened Sender
  import opened UploadSession

  datatype UploadOp = FeedChunk(chunk: Bytes) | TakeReady

  /** All file bytes fed by a run. */
  function FedBytes(ops: seq<UploadOp>): Bytes {
    if ops == [] then []
    else
      var front, op := FedBytes(ops[..|ops| - 1]), ops[|ops| - 1];
      if op.FeedChunk? then front + op.chunk else front
  }

  ghost predicate HasFeed(ops: seq<UploadOp>) {
    exists i :: 0 <= i < |ops| && ops[i].FeedChunk?
  }

  lemma {:induction false} FedPrefix(ops: seq<UploadOp>, n: nat)
    requires n <= |ops|
    ensures FedBytes(ops[..n]) <= FedBytes(ops)
    decreases |ops|
  {
    if n < |ops| {
      assert ops[..|ops| - 1][..n] == ops[..n];
      FedPrefix(ops[..|ops| - 1], n);
    } else {
      assert ops[..n] == ops;
    }
  }

  /**
   Exactly which runs the streaming sender completes, given a layout: the padded file must not
   be an empty whole file, and padding needs a feed (of any chunk, even an empty one).
   */
  ghost predicate Streamable(request: UploadRequest, layout: WireLayout, file: Bytes, ops: seq<UploadOp>)
    requires IsSupported(request.segmentCode)
  {
    && (IsWholeFile(request.segmentCode) ==> 0 < layout.plaintextPadding + |file|)
    && (layout.plaintextPadding == 0 || HasFeed(ops))
  }

  /** An empty whole file is not, though the batch sender accepts it under every cap from 401 bytes. */
  lemma EmptyWholeFileNeverStreams(c: Crypto, tape: Tape, request: UploadRequest, ops: seq<UploadOp>)
    requires Ideal(c) && |request.credential| == CREDENTIAL_LENGTH && IsWholeFile(request.segmentCode)
    requires ValidCap(request.maxWireBlockBytes) && SM_ENC_BYTES + GCM_ENVELOPE_BYTES <= request.maxWireBlockBytes
    ensures Encode(c, tape, request, []).Some?
    ensures var layout := WireLayoutFor(0, request.segmentCode, request.maxWireBlockBytes).value;
            !Streamable(request, layout, [], ops)
  {
    hide Encode;
    hide Search;
    OneTokenFits(SM_ENC_BYTES + GCM_ENVELOPE_BYTES, request.maxWireBlockBytes);
    SearchHits(0, request.segmentCode, request.maxWireBlockBytes, 0);
    EncodeExists(c, tape, request, []);
  }

  /** Nor is a run without a feed where padding is due: under a cap of 373 an empty file has 345 bytes of it. */
  lemma PaddingNeedsFeed(c: Crypto, tape: Tape, request: UploadRequest, ops: seq<UploadOp>)
    requires Ideal(c) && |request.credential| == CREDENTIAL_LENGTH && IsWholeFile(request.segmentCode)
    requires request.maxWireBlockBytes == SM_ENC_BYTES && FedBytes(ops) == []
    ensures Encode(c, tape, request, []).Some?
    ensures var layout := WireLayoutFor(0, request.segmentCode, request.maxWireBlockBytes).value;
            && 0 < layout.plaintextPadding
            && (Streamable(request, layout, [], ops) <==> HasFeed(ops))
  {
    hide Encode;
    hide Search;
    hide HasFeed;
    EmptyLastBlockOccurs(0);
    SearchIsExact(0, request.segmentCode, SM_ENC_BYTES, 0);
    EncodeExists(c, tape, request, []);
  }

  // Every run with a non-empty file is of this kind.
  lemma NonEmptyFileStreams(request: UploadRequest, layout: WireLayout, ops: seq<UploadOp>)
    requires IsSupported(request.segmentCode) && FedBytes(ops) != []
    ensures Streamable(request, layout, FedBytes(ops), ops)
  {
    SomeFeed(ops);
  }

  lemma {:induction false} SomeFeed(ops: seq<UploadOp>)
    requires FedBytes(ops) != []
    ensures HasFeed(ops)
  {
    if !ops[|ops| - 1].FeedChunk? {
      SomeFeed(ops[..|ops| - 1]);
      var i :| 0 <= i < |ops| - 1 && ops[..|ops| - 1][i].FeedChunk?;
      assert ops[i].FeedChunk?;
    }
  }

  method OpenUpload(c: Crypto, tape: Tape, request: UploadRequest, fileSize: nat)
    returns (session: UploadPrepareSession?)
    requires Ideal(c)
    ensures session == null <==>
              || SplitCredential(request.credential).None?
              || !IsSupported(request.segmentCode)
              || WireLayoutFor(fileSize, request.segmentCode, request.maxWireBlockBytes).None?
    ensures session != null ==>
              && fresh(session) && session.Valid() && !session.finalized
              && session.crypto == c && session.tape == tape && session.request == request
              && session.fileSize == fileSize && session.fed == [] && session.emitted == [] && session.taken == 0
              && session.paddingRemaining == session.layout.plaintextPadding
              && SplitCredential(request.credential) == Some(session.parts)
              && WireLayoutFor(fileSize, request.segmentCode, request.maxWireBlockBytes) == Some(session.layout)
              && session.segmentLimit
                 == SegmentLimit(request.segmentCode, session.layout.plaintextPadding + fileSize)
  {
    hide Search;
    if SplitCredential(request.credential).None? || !IsSupported(request.segmentCode) {
      return null;
    }
    var layout := ComputeWireLayout(fileSize, request.segmentCode, request.maxWireBlockBytes);
    if layout.None? {
      return null;
    }
    session := new UploadPrepareSession(c, tape, request, fileSize, layout.value);
  }

  /**
   Any feeding of chunks to a session opened for `fileSize` bytes, with blocks taken at any time: it
   succeeds only if exactly `fileSize` bytes are fed. What has been taken is then what the batch
   sender puts under tokens 1, 2, ..., and the last block is its token 0.
   */
  method RunUpload(c: Crypto, tape: Tape, request: UploadRequest, fileSize: nat, ops: seq<UploadOp>)
    returns (r: Option<UploadWireBlock>, blocks: seq<UploadWireBlock>)
    requires Ideal(c)
    ensures r.Some? <==>
              && |FedBytes(ops)| == fileSize
              && Encode(c, tape, request, FedBytes(ops)).Some?
              && Streamable(request, WireLayoutFor(|FedBytes(ops)|, request.segmentCode,
                                                   request.maxWireBlockBytes).value, FedBytes(ops), ops)
    ensures r.Some? ==>
              var wires := Encode(c, tape, request, FedBytes(ops)).value;
              var searchCode := SplitCredential(request.credential).value.searchCode;
              wires != [] && blocks + [r.value] == Streamed(c, searchCode, wires)
  {
    hide Ideal;
    hide Encode;
    hide WireLayoutFor;
    hide Labelled;
    hide FedBytes;
    hide HasFeed;
    hide UploadPrepareSession.Valid;
    blocks := [];
    ghost var file := FedBytes(ops);
    EncodeExists(c, tape, request, file);
    NoOps();
    var session := OpenUpload(c, tape, request, fileSize);
    if session == null {
      return None, [];
    }
    assert ops[..0] == [];
    NothingLabelled(c, session.parts.searchCode);
    for i := 0 to |ops|
      invariant session.Valid() && !session.finalized && fresh(session)
      invariant session.fed == FedBytes(ops[..i])
      invariant session.paddingRemaining == if HasFeed(ops[..i]) then 0 else session.layout.plaintextPadding
      invariant session.taken <= |session.emitted|
      invariant blocks == Labelled(c, session.parts.searchCode, session.emitted[..session.taken], 0)
    {
      FedSnoc(ops, i);
      FedPrefix(ops, i + 1);
      HasFeedSnoc(ops, i);
      ghost var before, count := session.emitted, session.taken;
      if ops[i].FeedChunk? {
        var ok := session.Feed(ops[i].chunk);
        if !ok {
          return None, blocks;
        }
        assert session.emitted[..count] == before[..count];
      } else {
        var ready := session.TakeReadyBlocks();
        LabelledAppend(c, session.parts.searchCode, session.emitted, count);
        blocks := blocks + ready;
        assert session.emitted[..session.taken] == session.emitted;
      }
    }
    assert ops[..|ops|] == ops;
    r := session.Finalize();
    ghost var count := session.taken;
    var ready := session.TakeReadyBlocks();
    LabelledAppend(c, session.parts.searchCode, session.emitted, count);
    blocks := blocks + ready;
  }

  lemma NoOps()
    ensures FedBytes([]) == [] && !HasFeed([])
  {
  }

  lemma FedSnoc(ops: seq<UploadOp>, i: nat)
    requires i < |ops|
    ensures FedBytes(ops[..i + 1])
         == if ops[i].FeedChunk? then FedBytes(ops[..i]) + ops[i].chunk else FedBytes(ops[..i])
  {
    assert ops[..i + 1][..i] == ops[..i];
  }

  lemma HasFeedSnoc(ops: seq<UploadOp>, i: nat)
    requires i < |ops|
    ensures HasFeed(ops[..i + 1]) <==> HasFeed(ops[..i]) || ops[i].FeedChunk?
  {
    if HasFeed(ops[..i]) {
      var j :| 0 <= j < i && ops[..i][j].FeedChunk?;
      assert ops[..i + 1][j].FeedChunk?;
    }
    if ops[i].FeedChunk? {
      assert ops[..i + 1][i].FeedChunk?;
    }
    if HasFeed(ops[..i + 1]) && !ops[i].FeedChunk? {
      var j :| 0 <= j < i + 1 && ops[..i + 1][j].FeedChunk?;
      assert ops[..i][j].FeedChunk?;
    }
  }

  lemma NothingLabelled(c: Crypto, searchCode: Bytes)
    ensures Labelled(c, searchCode, [], 0) == []
  {
  }

  lemma EncodeExists(c: Crypto, tape: Tape, request: UploadRequest, file: Bytes)
    requires Ideal(c)
    ensures Encode(c, tape, request, file).Some? <==>
              && SplitCredential(request.credential).Some?
              && IsSupported(request.segmentCode)
              && WireLayoutFor(|file|, request.segmentCode, request.maxWireBlockBytes).Some?
  {
    hide Search;
    hide Levels;
    hide LogicalBlocks;
    hide Segments;
    if SplitCredential(request.credential).Some? && IsSupported(request.segmentCode)
       && WireLayoutFor(|file|, request.segmentCode, request.maxWireBlockBytes).Some? {
      var layout := WireLayoutFor(|file|, request.segmentCode, request.maxWireBlockBytes).value;
      var blocks := LogicalBlocks(c, tape, request, layout, file);
      RootLength(c, HashBlocks(c, blocks));
      MetadataWellSized(c, tape, SplitCredential(request.credential).value, request, layout, |file|,
                        TreeOf(c, HashBlocks(c, blocks)), RecordCount(request, layout, file));
    }
  }

  // ---------- The upload map ----------

  // The assumptions of the round-trip theorems can be met for every request that has a layout.
  lemma AssumptionsAreMet(tape: Tape, request: UploadRequest, file: Bytes) returns (c: Crypto)
    requires |request.credential| == CREDENTIAL_LENGTH && IsSupported(request.segmentCode)
    requires WireLayoutFor(|file|, request.segmentCode, request.maxWireBlockBytes).Some?
    ensures c == Transparent() && Ideal(c) && Encode(c, tape, request, file).Some?
    ensures TokensDistinct(c, SplitCredential(request.credential).value.searchCode,
                           |Encode(c, tape, request, file).value|)
  {
    hide Encode;
    hide Search;
    hide Ideal;
    hide Transparent;
    c := Transparent();
    TransparentIsIdeal();
    EncodeExists(c, tape, request, file);
  }

  /** The map a caller builds by entering each block under its token. */
  function Collect(blocks: seq<UploadWireBlock>): UploadMap {
    if blocks == [] then map[]
    else Collect(blocks[..|blocks| - 1])[blocks[|blocks| - 1].token := blocks[|blocks| - 1].data]
  }

  lemma {:induction false} CollectDistinct(blocks: seq<UploadWireBlock>)
    requires forall i, j | 0 <= i < j < |blocks| :: blocks[i].token != blocks[j].token
    ensures var m := Collect(blocks);
            && (forall i | 0 <= i < |blocks| :: blocks[i].token in m && m[blocks[i].token] == blocks[i].data)
            && (forall t | t in m :: exists i :: 0 <= i < |blocks| && t == blocks[i].token)
  {
    if blocks != [] {
      CollectDistinct(blocks[..|blocks| - 1]);
    }
  }

  // The token number of the `k`-th block to come out.
  function WireIndex(k: nat, n: nat): (r: nat)
    requires k < n
    ensures r < n
  {
    if k + 1 == n then 0 else k + 1
  }

  /** All blocks of a completed run in the order they came out: tokens 1, 2, ... and then token 0. */
  function Streamed(c: Crypto, searchCode: Bytes, wires: seq<Bytes>): (r: seq<UploadWireBlock>)
    requires wires != []
    ensures |r| == |wires|
    ensures forall k | 0 <= k < |r| ::
              r[k] == UploadWireBlock(c.uploadToken(searchCode, WireIndex(k, |wires|)), wires[WireIndex(k, |wires|)])
  {
    Labelled(c, searchCode, wires[1..], 0) + [UploadWireBlock(c.uploadToken(searchCode, 0), wires[0])]
  }

  lemma StreamedTokensDistinct(c: Crypto, searchCode: Bytes, wires: seq<Bytes>, i: nat, j: nat)
    requires TokensDistinct(c, searchCode, |wires|) && i < j < |wires|
    ensures Streamed(c, searchCode, wires)[i].token != Streamed(c, searchCode, wires)[j].token
  {
    hide Streamed;
    var a, b := WireIndex(i, |wires|), WireIndex(j, |wires|);
    assert c.uploadToken(searchCode, Min(a, b)) != c.uploadToken(searchCode, Max(a, b));
  }

  // Each blob is found under its token, in either map.
  lemma StreamedLookup(c: Crypto, searchCode: Bytes, wires: seq<Bytes>, i: nat)
    requires TokensDistinct(c, searchCode, |wires|) && i < |wires|
    ensures var a, t := Collect(Streamed(c, searchCode, wires)), c.uploadToken(searchCode, i);
            t in a && a[t] == wires[i]
  {
    hide TokensDistinct;
    hide Streamed;
    hide Collect;
    var blocks := Streamed(c, searchCode, wires);
    StreamedDistinct(c, searchCode, wires);
    CollectDistinct(blocks);
    var k := if i == 0 then |wires| - 1 else i - 1;
    assert WireIndex(k, |wires|) == i;
    assert blocks[k].token in Collect(blocks);
  }

  lemma StreamedDistinct(c: Crypto, searchCode: Bytes, wires: seq<Bytes>)
    requires wires != [] && TokensDistinct(c, searchCode, |wires|)
    ensures var blocks := Streamed(c, searchCode, wires);
            forall i, j | 0 <= i < j < |blocks| :: blocks[i].token != blocks[j].token
  {
    hide TokensDistinct;
    hide Streamed;
    var blocks := Streamed(c, searchCode, wires);
    forall i, j | 0 <= i < j < |blocks|
      ensures blocks[i].token != blocks[j].token
    {
      StreamedTokensDistinct(c, searchCode, wires, i, j);
    }
  }

  /** With distinct tokens, the streamed blocks fill exactly the map of the batch sender. */
  lemma StreamedMap(c: Crypto, searchCode: Bytes, wires: seq<Bytes>)
    requires wires != [] && TokensDistinct(c, searchCode, |wires|)
    ensures Collect(Streamed(c, searchCode, wires)) == MapOf(c, searchCode, wires)
  {
    hide TokensDistinct;
    hide MapOf;
    hide Collect;
    hide Streamed;
    var blocks := Streamed(c, searchCode, wires);
    StreamedDistinct(c, searchCode, wires);
    CollectDistinct(blocks);
    MapOfDistinct(c, searchCode, wires);
    var a, b := Collect(blocks), MapOf(c, searchCode, wires);
    forall t | t in b
      ensures t in a && a[t] == b[t]
    {
      var i :| 0 <= i < |wires| && t == c.uploadToken(searchCode, i);
      StreamedLookup(c, searchCode, wires, i);
    }
    forall t | t in a
      ensures t in b
    {
      var k :| 0 <= k < |blocks| && t == blocks[k].token;
      assert c.uploadToken(searchCode, WireIndex(k, |wires|)) in b;
    }
  }
}
