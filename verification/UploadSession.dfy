/** The streaming sender: file chunks go in, finished wire blocks come out on the way. */
module UploadSession {
  import opened ByteStrings
  import opened Cryptography
  import opened Merkle
  import opened Segment
  import opened WireLayouts
  import opened Smb
  import opened Sender

  datatype UploadWireBlock = UploadWireBlock(token: Bytes, data: Bytes)

  const PAD_BATCH: nat := 65536

  /** Blocks `from..` of the leading blocks with their tokens; block `i` is token `i + 1`. */
  function Labelled(c: Crypto, searchCode: Bytes, blocks: seq<Bytes>, from: nat): seq<UploadWireBlock>
    requires from <= |blocks|
  {
    seq(|blocks| - from, i requires 0 <= i < |blocks| - from =>
      UploadWireBlock(c.uploadToken(searchCode, from + i + 1), blocks[from + i]))
  }

  lemma LabelledSnoc(c: Crypto, searchCode: Bytes, blocks: seq<Bytes>, from: nat, x: Bytes)
    requires from <= |blocks|
    ensures Labelled(c, searchCode, blocks + [x], from)
         == Labelled(c, searchCode, blocks, from)
            + [UploadWireBlock(c.uploadToken(searchCode, |blocks| + 1), x)]
  {
  }

  lemma LabelledAppend(c: Crypto, searchCode: Bytes, blocks: seq<Bytes>, from: nat)
    requires from <= |blocks|
    ensures Labelled(c, searchCode, blocks[..from], 0) + Labelled(c, searchCode, blocks, from)
         == Labelled(c, searchCode, blocks, 0)
  {
  }

  lemma NothingYet(c: Crypto, searchCode: Bytes)
    ensures Labelled(c, searchCode, [], 0) == [] && HashBlocks(c, []) == []
  {
  }

  /** Where the segment buffer is cut: a whole file is one segment. */
  function SegmentLimit(code: nat, paddedLength: nat): nat
    requires IsSupported(code)
  {
    if IsWholeFile(code) then paddedLength else SegmentPlaintextBytes(code)
  }

  lemma LimitIsPositive(code: nat, paddedLength: nat)
    requires IsSupported(code) && 0 < paddedLength
    ensures 0 < SegmentLimit(code, paddedLength)
  {
  }

  // Cutting at the limit gives the segments of the batch sender, unless a whole file is empty.
  lemma LimitSegments(padded: Bytes, code: nat)
    requires IsSupported(code) && 0 < SegmentLimit(code, |padded|)
    ensures Segments(padded, code) == Chunk(padded, SegmentLimit(code, |padded|))
  {
    if IsWholeFile(code) {
      assert padded[..|padded|] == padded && padded[|padded|..] == [];
    }
  }

  class UploadPrepareSession {
    const crypto: Crypto
    const tape: Tape
    const request: UploadRequest
    const parts: CredentialParts
    const layout: WireLayout
    const fileSize: nat
    const segmentLimit: nat
    const kSmb: Bytes
    const kKek: Bytes
    const kFek: Bytes
    const saltRand: Bytes

    var tapePos: nat
    var fileBytesFed: nat
    var paddingRemaining: nat
    var segmentBuffer: Bytes
    var wirePending: Bytes
    var leafHashes: seq<Bytes>
    var readyBlocks: seq<UploadWireBlock>
    var emittedLeadingCount: nat
    var finalized: bool

    ghost var fed: Bytes             // all file bytes fed so far
    ghost var input: Bytes           // padding and file bytes appended so far
    ghost var segments: seq<Bytes>   // the plaintexts sealed so far
    ghost var emitted: seq<Bytes>    // all leading blocks cut so far
    ghost var taken: nat             // how many of them have been handed out

    ghost predicate Setup() {
      && Ideal(crypto)
      && SplitCredential(request.credential) == Some(parts)
      && IsSupported(request.segmentCode)
      && WireLayoutFor(fileSize, request.segmentCode, request.maxWireBlockBytes) == Some(layout)
      && Partitions(layout, request.maxWireBlockBytes)
      && segmentLimit == SegmentLimit(request.segmentCode, layout.plaintextPadding + fileSize)
      && kFek == Fek(tape) && saltRand == SaltRand(tape)
      && kSmb == SmbKey(crypto, parts) && kKek == crypto.slowKdf(parts.keyCode, saltRand)
    }

    // The blocks cut so far and what remains make up the ciphertext produced so far.
    ghost predicate Cut()
      reads `segments, `emitted, `wirePending, `emittedLeadingCount, `leafHashes
    {
      && |kFek| == KEY_BYTES
      && Flatten(SealSegments(crypto, kFek, tape, SEGMENT_POS, segments)) == Flatten(emitted) + wirePending
      && Full(emitted, layout.wireBlockSize)
      && |emitted| <= layout.numTokens - 1
      && emittedLeadingCount == |emitted|
      && leafHashes == HashBlocks(crypto, emitted)
    }

    ghost predicate Handed()
      reads `taken, `emitted, `readyBlocks
    {
      taken <= |emitted| && readyBlocks == Labelled(crypto, parts.searchCode, emitted, taken)
    }

    ghost predicate Drained()
      reads `emitted, `wirePending
    {
      |emitted| == layout.numTokens - 1 || |wirePending| < layout.wireBlockSize
    }

    ghost predicate Sealed()
      reads this
    {
      && Cut() && Handed() && Drained()
      && tapePos == WrapPos(|segments|)
      && input == Flatten(segments) + segmentBuffer
      && Chunked(segments, segmentLimit)
    }

    // More plaintext may follow: only full segments have been sealed.
    ghost predicate Open()
      reads `segments, `segmentBuffer
    {
      Full(segments, segmentLimit) && |segmentBuffer| < segmentLimit
    }

    predicate IsFeedComplete()
      reads this
    {
      fileBytesFed >= fileSize
    }

    ghost predicate Live()
      reads this
    {
      && Sealed()
      && fileBytesFed == |fed| <= fileSize
      && paddingRemaining <= layout.plaintextPadding
      && (0 < paddingRemaining ==> fed == [])
      && input == Zeros(layout.plaintextPadding - paddingRemaining) + fed
      && (if IsFeedComplete() && paddingRemaining == 0 then segmentBuffer == [] else Open())
    }

    ghost predicate Valid()
      reads this
    {
      Setup() && Handed() && (finalized || Live())
    }

    constructor (c: Crypto, tape: Tape, request: UploadRequest, fileSize: nat, layout: WireLayout)
      requires Ideal(c) && SplitCredential(request.credential).Some? && IsSupported(request.segmentCode)
      requires WireLayoutFor(fileSize, request.segmentCode, request.maxWireBlockBytes) == Some(layout)
      ensures Valid() && !finalized && fed == [] && emitted == [] && taken == 0
      ensures paddingRemaining == layout.plaintextPadding
      ensures crypto == c && this.tape == tape && this.request == request
      ensures this.fileSize == fileSize && this.layout == layout
    {
      hide Search;
      hide Fek;
      hide Flatten;
      hide Ideal;
      hide Partitions;
      hide SplitCredential;
      hide SaltRand;
      hide SealSegments;
      hide Chunked;
      hide Full;
      hide SegmentLimit;
      hide SmbKey;
      hide Live;
      hide Handed;
      this.crypto, this.tape, this.request, this.fileSize, this.layout := c, tape, request, fileSize, layout;
      var split := SplitCredential(request.credential).value;
      parts := split;
      segmentLimit := SegmentLimit(request.segmentCode, layout.plaintextPadding + fileSize);
      saltRand := SaltRand(tape);
      kFek := Fek(tape);
      kSmb := SmbKey(c, split);
      kKek := c.slowKdf(split.keyCode, SaltRand(tape));
      tapePos, fileBytesFed, paddingRemaining := SEGMENT_POS, 0, layout.plaintextPadding;
      segmentBuffer, wirePending, leafHashes, readyBlocks := [], [], [], [];
      emittedLeadingCount, finalized := 0, false;
      fed, input, segments, emitted, taken := [], [], [], [], 0;
      new;
      SearchIsExact(fileSize, request.segmentCode, request.maxWireBlockBytes, 0);
      InitiallyLive();
    }

    // Before the first feed.
    lemma InitiallyLive()
      requires Setup() && !finalized && tapePos == SEGMENT_POS && fileBytesFed == 0
      requires paddingRemaining == layout.plaintextPadding && emittedLeadingCount == 0
      requires segmentBuffer == [] && wirePending == [] && leafHashes == [] && readyBlocks == []
      requires fed == [] && input == [] && segments == [] && emitted == [] && taken == 0
      ensures Handed() && Live()
    {
      hide Search;
      hide Flatten;
      hide Ideal;
      hide SealSegments;
      hide Chunked;
      hide Full;
      hide SegmentLimit;
      if 0 < layout.plaintextPadding + fileSize {
        LimitIsPositive(request.segmentCode, layout.plaintextPadding + fileSize);
      }
      NothingYet(crypto, parts.searchCode);
      NothingSealed(crypto, kFek, tape, SEGMENT_POS, segmentLimit);
      NothingSealed(crypto, kFek, tape, SEGMENT_POS, layout.wireBlockSize);
    }

    method TryEmitLeadingBlocks()
      requires Setup() && Cut() && Handed()
      modifies `wirePending, `leafHashes, `readyBlocks, `emittedLeadingCount, `emitted
      ensures Cut() && Handed() && Drained() && old(emitted) <= emitted
    {
      hide Ideal;
      hide Flatten;
      hide SealSegments;
      hide Search;
      hide Full;
      var leadingTarget, wire := layout.numTokens - 1, layout.wireBlockSize;
      while emittedLeadingCount < leadingTarget && |wirePending| >= wire
        invariant Cut() && Handed() && old(emitted) <= emitted
        decreases |wirePending|
      {
        var block := wirePending[..wire];
        FlattenSnoc(emitted, block);
        FullSnoc(emitted, block, wire);
        LabelledSnoc(crypto, parts.searchCode, emitted, taken, block);
        assert wirePending == block + wirePending[wire..];
        assert Flatten(emitted) + wirePending == Flatten(emitted) + block + wirePending[wire..];
        assert HashBlocks(crypto, emitted + [block]) == leafHashes + [crypto.sha256(block)];
        wirePending := wirePending[wire..];
        leafHashes := leafHashes + [crypto.sha256(block)];
        readyBlocks := readyBlocks
          + [UploadWireBlock(crypto.uploadToken(parts.searchCode, emittedLeadingCount + 1), block)];
        emittedLeadingCount := emittedLeadingCount + 1;
        emitted := emitted + [block];
      }
    }

    // Seals the buffered segment when it is full, or whatever is buffered when forced.
    method FlushSegmentBufferIfReady(force: bool)
      requires Setup() && Sealed() && |segmentBuffer| <= segmentLimit
      requires segmentBuffer != [] ==> Full(segments, segmentLimit)
      modifies `segmentBuffer, `wirePending, `leafHashes, `readyBlocks, `emittedLeadingCount, `tapePos,
               `segments, `emitted
      ensures Sealed() && old(emitted) <= emitted
      ensures var flushed := old(segmentBuffer) != [] && (force || |old(segmentBuffer)| == segmentLimit);
              && segments == (if flushed then old(segments) + [old(segmentBuffer)] else old(segments))
              && segmentBuffer == (if flushed then [] else old(segmentBuffer))
      ensures !force && old(segmentBuffer) != [] ==> Full(segments, segmentLimit)
    {
      hide Ideal;
      hide Flatten;
      hide SealSegments;
      hide Search;
      hide Full;
      hide Chunked;
      hide Labelled;
      hide HashBlocks;
      if segmentBuffer != [] {
        if !force && |segmentBuffer| < segmentLimit {
          return;
        }
        var take := if force then |segmentBuffer| else segmentLimit;
        var segment := segmentBuffer[..take];
        assert segment == segmentBuffer;
        var pack := Encrypt(crypto, kFek, Draw(tape, tapePos, GCM_NONCE_BYTES), segment);
        SealSnoc(crypto, kFek, tape, SEGMENT_POS, segments, segment);
        FlattenSnoc(segments, segment);
        ChunkedSnoc(segments, segment, segmentLimit);
        assert Flatten(emitted) + (wirePending + pack) == Flatten(emitted) + wirePending + pack;
        assert Flatten(segments) + segment == Flatten(segments) + segment + [];
        segmentBuffer := segmentBuffer[take..];
        tapePos := tapePos + GCM_NONCE_BYTES;
        segments := segments + [segment];
        wirePending := wirePending + pack;
        TryEmitLeadingBlocks();
      }
    }

    method AppendPlaintextBytes(data: Bytes)
      requires Setup() && Sealed() && (data != [] ==> Open())
      modifies `segmentBuffer, `wirePending, `leafHashes, `readyBlocks, `emittedLeadingCount, `tapePos,
               `segments, `emitted, `input
      ensures Sealed() && input == old(input) + data && old(emitted) <= emitted
      ensures data != [] ==> Open()
      ensures data == [] ==> segments == old(segments) && segmentBuffer == old(segmentBuffer)
    {
      hide Setup;
      hide Cut;
      hide Handed;
      hide Drained;
      hide Flatten;
      hide Full;
      assert old(input) + data[..0] == old(input);
      var offset := 0;
      while offset < |data|
        invariant 0 <= offset <= |data| && Setup() && Sealed() && old(emitted) <= emitted
        invariant input == old(input) + data[..offset]
        invariant data != [] ==> Open()
        invariant data == [] ==> segments == old(segments) && segmentBuffer == old(segmentBuffer)
      {
        var space := segmentLimit - |segmentBuffer|;
        var take := Min(|data| - offset, space);
        var piece := data[offset..offset + take];
        assert data[..offset] + piece == data[..offset + take];
        assert Flatten(segments) + segmentBuffer + piece == Flatten(segments) + (segmentBuffer + piece);
        assert old(input) + data[..offset] + piece == old(input) + data[..offset + take];
        segmentBuffer := segmentBuffer + piece;
        input := input + piece;
        offset := offset + take;
        if |segmentBuffer| >= segmentLimit {
          FlushSegmentBufferIfReady(false);
        }
      }
      assert data[..offset] == data;
    }

    method AppendPaddingZeros(count: nat)
      requires Setup() && Sealed() && Open()
      modifies `segmentBuffer, `wirePending, `leafHashes, `readyBlocks, `emittedLeadingCount, `tapePos,
               `segments, `emitted, `input
      ensures Sealed() && Open() && input == old(input) + Zeros(count) && old(emitted) <= emitted
    {
      hide Setup;
      hide Cut;
      hide Handed;
      hide Drained;
      hide Flatten;
      hide Full;
      assert old(input) + Zeros(0) == old(input);
      var remaining := count;
      while remaining > 0
        invariant 0 <= remaining <= count && Setup() && Sealed() && Open() && old(emitted) <= emitted
        invariant input == old(input) + Zeros(count - remaining)
      {
        var take := Min(remaining, segmentLimit - |segmentBuffer|);
        assert Zeros(count - remaining) + Zeros(take) == Zeros(count - remaining + take);
        assert Flatten(segments) + segmentBuffer + Zeros(take) == Flatten(segments) + (segmentBuffer + Zeros(take));
        assert old(input) + Zeros(count - remaining) + Zeros(take) == old(input) + Zeros(count - remaining + take);
        segmentBuffer := segmentBuffer + Zeros(take);
        input := input + Zeros(take);
        remaining := remaining - take;
        if |segmentBuffer| >= segmentLimit {
          FlushSegmentBufferIfReady(false);
        }
      }
    }

    // Zero padding comes first in the ciphertext stream, appended by the first feed.
    method AppendPadding()
      requires Setup() && Handed() && Live()
      modifies `segmentBuffer, `wirePending, `leafHashes, `readyBlocks, `emittedLeadingCount, `tapePos,
               `segments, `emitted, `input, `paddingRemaining
      ensures Sealed() && old(emitted) <= emitted && paddingRemaining == 0
      ensures input == Zeros(layout.plaintextPadding) + fed
      ensures if IsFeedComplete() && old(paddingRemaining) == 0 then segmentBuffer == [] else Open()
    {
      hide Setup;
      hide Cut;
      hide Drained;
      hide Handed;
      hide Chunked;
      hide Flatten;
      hide Full;
      while paddingRemaining > 0
        invariant Sealed() && old(emitted) <= emitted && paddingRemaining <= old(paddingRemaining)
        invariant input == Zeros(layout.plaintextPadding - paddingRemaining) + fed
        invariant if IsFeedComplete() && old(paddingRemaining) == 0 then segmentBuffer == [] else Open()
      {
        var padBatch := Min(paddingRemaining, PAD_BATCH);
        ghost var done := layout.plaintextPadding - paddingRemaining;
        AppendPaddingZeros(padBatch);
        assert Zeros(done) + [] + Zeros(padBatch) == Zeros(done + padBatch) + [];
        paddingRemaining := paddingRemaining - padBatch;
      }
    }

    // Padding, if still missing, and then the chunk.
    method AppendChunk(chunk: Bytes)
      requires Setup() && Handed() && Live() && fileBytesFed + |chunk| <= fileSize
      modifies `segmentBuffer, `wirePending, `leafHashes, `readyBlocks, `emittedLeadingCount, `tapePos,
               `segments, `emitted, `input, `paddingRemaining
      ensures Sealed() && old(emitted) <= emitted && paddingRemaining == 0
      ensures input == Zeros(layout.plaintextPadding) + (fed + chunk)
      ensures if IsFeedComplete() && old(paddingRemaining) == 0 then segmentBuffer == [] else Open()
    {
      hide Setup;
      hide Cut;
      hide Drained;
      hide Handed;
      hide Chunked;
      hide Flatten;
      hide Full;
      AppendPadding();
      assert input + chunk == Zeros(layout.plaintextPadding) + (fed + chunk);
      assert fed + [] == fed;
      if chunk != [] {
        AppendPlaintextBytes(chunk);
      }
    }

    /** Accepts a chunk unless the session is finalized or the file would grow beyond its size. */
    method Feed(chunk: Bytes) returns (ok: bool)
      requires Valid()
      modifies this
      ensures Valid() && finalized == old(finalized) && taken == old(taken) && old(emitted) <= emitted
      ensures ok <==> !old(finalized) && |old(fed)| + |chunk| <= fileSize
      ensures !ok ==> unchanged(this)
      ensures ok ==> fed == old(fed) + chunk && paddingRemaining == 0
    {
      hide Setup;
      hide Cut;
      hide Drained;
      hide Handed;
      hide Chunked;
      hide Flatten;
      hide Full;
      if finalized || fileBytesFed + |chunk| > fileSize {
        return false;
      }
      AppendChunk(chunk);
      fileBytesFed := fileBytesFed + |chunk|;
      fed := fed + chunk;
      if IsFeedComplete() {
        FlushSegmentBufferIfReady(true);
      }
      ok := true;
    }

    method TakeReadyBlocks() returns (blocks: seq<UploadWireBlock>)
      requires Valid()
      modifies `readyBlocks, `taken
      ensures Valid() && taken == |emitted|
      ensures blocks == Labelled(crypto, parts.searchCode, emitted, old(taken))
    {
      hide Setup;
      hide Cut;
      hide Drained;
      hide Flatten;
      blocks := readyBlocks;
      readyBlocks := [];
      taken := |emitted|;
    }

    /**
     Token 0. The checks of the source fire only for an incomplete feed, for padding that no
     feed has appended yet, and for an empty whole file without padding.
     */
    method Finalize() returns (r: Option<UploadWireBlock>)
      requires Valid()
      modifies this
      ensures Valid() && fed == old(fed) && emitted == old(emitted) && taken == old(taken)
      ensures r.Some? <==> !old(finalized) && |fed| == fileSize && old(paddingRemaining) == 0 && 0 < segmentLimit
      ensures r.None? ==> unchanged(this)
      ensures r.Some? ==>
                && finalized
                && r.value.token == crypto.uploadToken(parts.searchCode, 0)
                && Encode(crypto, tape, request, fed) == Some([r.value.data] + emitted)
    {
      hide Full;
      hide Chunked;
      hide Flatten;
      hide Search;
      hide SealSegments;
      hide Ideal;
      hide Levels;
      hide SplitWire;
      hide LogicalBlocks;
      hide Token0;
      hide EncryptPayload;
      if finalized || !IsFeedComplete() || paddingRemaining != 0 {
        return None;
      }
      ghost var file := fed;
      StreamedBlocks(crypto, tape, request, file, layout, segments, emitted, wirePending);
      if segmentBuffer != [] || emittedLeadingCount != layout.numTokens - 1
         || |wirePending| != layout.lastBlockLength {
        return None;
      }
      assert HashBlocks(crypto, emitted + [wirePending]) == leafHashes + [crypto.sha256(wirePending)];
      var tree := BuildMerkleTreeFromLeafHashes(crypto, leafHashes + [crypto.sha256(wirePending)]);
      var token0 := BuildToken0(tree);
      if token0.None? {
        return None;
      }
      assert (emitted + [wirePending])[..|emitted|] == emitted;
      wirePending := [];
      finalized := true;
      r := Some(UploadWireBlock(crypto.uploadToken(parts.searchCode, 0), token0.value));
    }

    method BuildToken0(tree: MerkleTree) returns (token0: Option<Bytes>)
      requires Setup() && tapePos == WrapPos(|segments|) && |tree.rootHash| == HASH_BYTES
      requires |wirePending| == layout.lastBlockLength
      ensures token0 == Token0(crypto, tape, parts, request, layout, fileSize, tree, wirePending, |segments|)
      ensures token0.Some?
    {
      hide Search;
      hide Print;
      hide NormalizeForCode;
      Token0Length(crypto, tape, parts, request, layout, fileSize, tree, wirePending, |segments|);
      var encryptedFek := Encrypt(crypto, kKek, Draw(tape, tapePos, GCM_NONCE_BYTES), kFek);
      var fekBlob := Unpack(encryptedFek);
      var name := NormalizeFileNameForSegmentCode(request.fileName, request.segmentCode);
      var metadata := SmbMetadata(
        tree.rootHash, fekBlob.value, saltRand, tree, layout.numTokens, layout.wireBlockSize,
        layout.ciphertextLength, fileSize, name, request.segmentCode);
      var smBytes := SerializeSmb(crypto, metadata);
      var sEnc := Encrypt(crypto, kSmb, Draw(tape, tapePos + GCM_NONCE_BYTES, GCM_NONCE_BYTES), smBytes);
      var result := sEnc + wirePending;
      var sized :=
        && |smBytes| == SM_PLAIN_BYTES
        && |sEnc| == SM_ENC_BYTES
        && |result| == layout.wireBlockSize;
      token0 := if sized then Some(result) else None;
    }
  }

  /** At the end of the feed, the streamed blocks are the logical blocks of the batch sender. */
  lemma StreamedBlocks(c: Crypto, tape: Tape, request: UploadRequest, file: Bytes, layout: WireLayout,
                       segments: seq<Bytes>, emitted: seq<Bytes>, pending: Bytes)
    requires Ideal(c) && IsSupported(request.segmentCode)
    requires WireLayoutFor(|file|, request.segmentCode, request.maxWireBlockBytes) == Some(layout)
    requires Chunked(segments, SegmentLimit(request.segmentCode, layout.plaintextPadding + |file|))
    requires Flatten(segments) == PaddedPlaintext(layout, file)
    requires Flatten(SealSegments(c, Fek(tape), tape, SEGMENT_POS, segments)) == Flatten(emitted) + pending
    requires Full(emitted, layout.wireBlockSize) && |emitted| <= layout.numTokens - 1
    requires |emitted| == layout.numTokens - 1 || |pending| < layout.wireBlockSize
    ensures 0 < SegmentLimit(request.segmentCode, layout.plaintextPadding + |file|) <==>
              |emitted| == layout.numTokens - 1 && |pending| == layout.lastBlockLength
    ensures 0 < SegmentLimit(request.segmentCode, layout.plaintextPadding + |file|) ==>
              && |segments| == RecordCount(request, layout, file)
              && emitted + [pending] == LogicalBlocks(c, tape, request, layout, file)
    ensures |RootOf(c, HashBlocks(c, emitted + [pending]))| == HASH_BYTES
  {
    hide Search;
    hide Full;
    hide Chunked;
    hide Flatten;
    hide SealSegments;
    hide SplitWire;
    hide Segments;
    hide CiphertextLength;
    hide Partitions;
    hide RootOf;
    var padded, wire := PaddedPlaintext(layout, file), layout.wireBlockSize;
    var limit := SegmentLimit(request.segmentCode, |padded|);
    RootLength(c, HashBlocks(c, emitted + [pending]));
    BlocksFit(c, tape, request, file);
    if 0 < limit {
      LimitSegments(padded, request.segmentCode);
      ChunkUnique(segments, limit);
      FlattenFullLength(emitted, wire);
      AllBlocksCut(layout, request.maxWireBlockBytes, |emitted|, |pending|);
      SplitUnique(emitted, pending, wire);
    } else {
      EmptyStream(c, tape, segments, emitted, pending);
      EmptyWholeFile(layout, request.maxWireBlockBytes);
    }
  }

  lemma AllBlocksCut(layout: WireLayout, cap: nat, count: nat, rest: nat)
    requires Partitions(layout, cap) && count <= layout.numTokens - 1
    requires count == layout.numTokens - 1 || rest < layout.wireBlockSize
    requires layout.ciphertextLength == count * layout.wireBlockSize + rest
    ensures count == layout.numTokens - 1 && rest == layout.lastBlockLength
  {
    var wire, leading := layout.wireBlockSize, layout.numTokens - 1;
    if count < leading {
      MulMonotone(count + 1, leading, wire);
      OneMore(count, wire);
    }
  }

  lemma OneMore(count: int, wire: int)
    ensures (count + 1) * wire == count * wire + wire
  {
  }

  lemma ChunkSize(chunks: seq<Bytes>, size: nat, i: nat)
    requires Chunked(chunks, size) && i < |chunks|
    ensures 0 < |chunks[i]| <= size
  {
  }

  // An empty whole file is never sealed, so its 28 bytes of ciphertext are missing.
  lemma EmptyStream(c: Crypto, tape: Tape, segments: seq<Bytes>, emitted: seq<Bytes>, pending: Bytes)
    requires Chunked(segments, 0)
    requires Flatten(SealSegments(c, Fek(tape), tape, SEGMENT_POS, segments)) == Flatten(emitted) + pending
    ensures pending == []
  {
    hide Chunked;
    if segments != [] {
      ChunkSize(segments, 0, 0);
      assert false;
    }
  }

  lemma EmptyWholeFile(layout: WireLayout, cap: nat)
    requires Partitions(layout, cap) && layout.ciphertextLength == CiphertextLength(0, V2_SEGMENT_CODE_WHOLE_FILE)
    ensures layout.lastBlockLength != 0
  {
    if layout.numTokens > 1 {
      MulMonotone(1, layout.numTokens - 1, layout.wireBlockSize);
    }
  }
}
