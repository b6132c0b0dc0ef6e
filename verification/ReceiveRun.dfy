/** Whole runs of the streaming receiver, against the batch receiver. */
module ReceiveRun {
  import opened ByteStrings
  import opened Cryptography
  import opened Merkle
  import opened Segment
  import opened WireLayouts
  import opened Smb
  import opened Sender
  import opened Receiver
  import opened LayoutTotality
  import opened FileNames
  import opened SmbRoundTrip
  import opened RoundTrip
  import opened UploadRun
  import opened ReceiveSession

  /** When the streaming session accepts token 0. */
  predicate SessionOpens(c: Crypto, credential: Bytes, token0: Bytes) {
    && SplitCredential(credential).Some?
    && match ParseSmbEncrypted(c, credential, token0) {
         case None => false
         case Some(m) =>
           && 1 <= m.numTokens && Token0Consistent(m, token0)
           && PaddedLength(m.ciphertextLength, m.segmentCode).Some?
           && m.originalFileLength <= PaddedLength(m.ciphertextLength, m.segmentCode).value
       }
  }

  /** The checks of the session's constructor. */
  method OpenReceive(c: Crypto, credential: Bytes, token0: Bytes) returns (session: ReceiveDecryptSession?)
    ensures session != null <==> SessionOpens(c, credential, token0)
    ensures session != null ==>
              && fresh(session) && session.Valid() && !session.finalized
              && session.crypto == c
              && Some(session.parts) == SplitCredential(credential)
              && Some(session.metadata) == ParseSmbEncrypted(c, credential, token0)
              && session.blocks == [] && session.exported == [] && session.token0Wire == token0
  {
    hide SearchPaddedLength;
    hide Decrypt;
    hide Parse;
    hide ReceiveDecryptSession.Valid;
    var parts := SplitCredential(credential);
    var metadata := ParseSmb(c, credential, token0);
    if parts.None? || metadata.None? {
      return null;
    }
    var m := metadata.value;
    if m.numTokens == 0 || !Token0Consistent(m, token0) {
      return null;
    }
    var padded := PaddedPlaintextLengthFromCiphertext(m.ciphertextLength, m.segmentCode);
    if padded.None? || padded.value < m.originalFileLength {
      return null;
    }
    session := new ReceiveDecryptSession(c, parts.value, m, token0, padded.value);
  }

  /** What a streaming run over a stored map comes to: the batch receiver, but for an empty last leaf. */
  function ReceiveStreamed(c: Crypto, credential: Bytes, uploads: UploadMap): Option<Bytes> {
    var parts :- SplitCredential(credential);
    var token := c.uploadToken(parts.searchCode, 0);
    if token !in uploads || !SessionOpens(c, credential, uploads[token]) then None
    else
      var m := ParseSmbEncrypted(c, credential, uploads[token]).value;
      var leading :- Fetch(c, uploads, parts.searchCode, m.wireBlockSize, m.numTokens - 1);
      var last := LastBlock(m, uploads[token]);
      if RootOf(c, HashBlocks(c, leading) + [LeafOfLast(c, last)]) != m.rootHash then None
      else DecryptCiphertext(c, parts, m, Flatten(leading) + last)
  }

  // ---------- Following a stored map ----------

  // The session was opened on the map's token 0 and has taken its next blobs in order.
  ghost predicate Following(session: ReceiveDecryptSession, c: Crypto, credential: Bytes, uploads: UploadMap)
    reads session
  {
    && session.Valid() && !session.finalized
    && session.crypto == c
    && SplitCredential(credential) == Some(session.parts)
    && var token := c.uploadToken(session.parts.searchCode, 0);
    && token in uploads && session.token0Wire == uploads[token]
    && SessionOpens(c, credential, uploads[token])
    && ParseSmbEncrypted(c, credential, uploads[token]) == Some(session.metadata)
    && Fetch(c, uploads, session.parts.searchCode, session.metadata.wireBlockSize, |session.blocks|)
       == Some(session.blocks)
  }

  lemma SessionState(session: ReceiveDecryptSession)
    requires session.Valid() && !session.finalized
    ensures session.nextTokenIndex == |session.blocks| + 1 <= session.metadata.numTokens
    ensures session.fed == Flatten(session.blocks) && session.wireBlockSize == session.metadata.wireBlockSize
    ensures session.lastBlockLength == LastBlockLength(session.metadata)
    ensures |session.token0Wire| == session.wireBlockSize == SM_ENC_BYTES + session.lastBlockLength
    ensures IsSegmented(session.metadata.segmentCode) ==>
              && session.segmentSize == SegmentPlaintextBytes(session.metadata.segmentCode)
              && PaddedLength(session.metadata.ciphertextLength, session.metadata.segmentCode)
                 == Some(session.paddedLength)
  {
    hide Flatten;
    hide SearchPaddedLength;
    hide ReceiveDecryptSession.Queue;
    hide ReceiveDecryptSession.Decoded;
    hide ReceiveDecryptSession.KeyKnown;
  }

  /** One step of the run: the next stored blob, if it is there. */
  method FeedNext(session: ReceiveDecryptSession, c: Crypto, credential: Bytes, uploads: UploadMap)
    returns (ok: bool)
    requires Following(session, c, credential, uploads) && |session.blocks| + 1 < session.metadata.numTokens
    modifies session
    ensures ok ==> Following(session, c, credential, uploads) && |session.blocks| == |old(session.blocks)| + 1
                   && session.exported == old(session.exported)
    ensures !ok ==> ReceiveStreamed(c, credential, uploads).None?
  {
    hide SessionOpens;
    hide Fetch;
    hide Flatten;
    hide ParseSmbEncrypted;
    hide ReceiveStreamed;
    hide PaddedLength;
    hide ReceiveDecryptSession.Valid;
    SessionState(session);
    var index := session.nextTokenIndex;
    var token := c.uploadToken(session.parts.searchCode, index);
    if token !in uploads {
      NextMissing(session, c, credential, uploads);
      return false;
    }
    ok := FeedBlob(session, c, credential, uploads, index, uploads[token]);
  }

  // The next blob is missing or has the wrong size.
  lemma NextMissing(session: ReceiveDecryptSession, c: Crypto, credential: Bytes, uploads: UploadMap)
    requires Following(session, c, credential, uploads) && |session.blocks| + 1 < session.metadata.numTokens
    requires var token := c.uploadToken(session.parts.searchCode, |session.blocks| + 1);
             token !in uploads || |uploads[token]| != session.metadata.wireBlockSize
    ensures ReceiveStreamed(c, credential, uploads).None?
  {
    hide SessionOpens;
    hide Fetch;
    hide ReceiveStreamed;
    hide ReceiveDecryptSession.Valid;
    var m, index := session.metadata, |session.blocks| + 1;
    FetchNext(c, uploads, session.parts.searchCode, m.wireBlockSize, index);
    NotFetched(c, credential, uploads, session.parts, m, index);
  }

  /** Feeds the blob stored under the next token. */
  method FeedBlob(session: ReceiveDecryptSession, ghost c: Crypto, ghost credential: Bytes,
                  ghost uploads: UploadMap, index: nat, data: Bytes)
    returns (ok: bool)
    requires Following(session, c, credential, uploads) && |session.blocks| + 1 < session.metadata.numTokens
    requires index == |session.blocks| + 1
    requires var token := c.uploadToken(session.parts.searchCode, index);
             token in uploads && uploads[token] == data
    modifies session
    ensures ok ==> Following(session, c, credential, uploads) && |session.blocks| == |old(session.blocks)| + 1
                   && session.exported == old(session.exported)
    ensures !ok ==> ReceiveStreamed(c, credential, uploads).None?
  {
    hide SessionOpens;
    hide Fetch;
    hide Flatten;
    hide Undecodable;
    hide ParseSmbEncrypted;
    hide ReceiveStreamed;
    hide PaddedLength;
    hide ReceiveDecryptSession.Valid;
    SessionState(session);
    ghost var m, leading := session.metadata, session.blocks;
    FetchNext(c, uploads, session.parts.searchCode, m.wireBlockSize, index);
    if |data| != session.metadata.wireBlockSize {
      NextMissing(session, c, credential, uploads);
    }
    ok := session.AddWireToken(index, data);
    if !ok && |data| == session.metadata.wireBlockSize {
      Spoiled(c, credential, uploads, session.parts, m, leading, data, session.segmentSize, session.paddedLength);
    }
  }

  lemma FetchNext(c: Crypto, uploads: UploadMap, searchCode: Bytes, wire: nat, index: nat)
    requires 1 <= index && Fetch(c, uploads, searchCode, wire, index - 1).Some?
    ensures var token := c.uploadToken(searchCode, index);
            Fetch(c, uploads, searchCode, wire, index)
            == if token !in uploads || |uploads[token]| != wire then None
               else Some(Fetch(c, uploads, searchCode, wire, index - 1).value + [uploads[token]])
  {
  }

  lemma NotFetched(c: Crypto, credential: Bytes, uploads: UploadMap, parts: CredentialParts, m: SmbMetadata,
                   index: nat)
    requires SplitCredential(credential) == Some(parts)
    requires var token := c.uploadToken(parts.searchCode, 0);
             token in uploads ==> ParseSmbEncrypted(c, credential, uploads[token]) == Some(m)
    requires index < m.numTokens && Fetch(c, uploads, parts.searchCode, m.wireBlockSize, index).None?
    ensures ReceiveStreamed(c, credential, uploads).None?
  {
    hide ParseSmbEncrypted;
    hide Fetch;
    hide RootOf;
    hide DecryptCiphertext;
    hide PaddedLength;
    FetchStops(c, uploads, parts.searchCode, m.wireBlockSize, index, m.numTokens - 1);
  }

  lemma {:induction false} FetchPrefix(c: Crypto, uploads: UploadMap, searchCode: Bytes, wire: nat, n: nat, count: nat)
    requires n <= count && Fetch(c, uploads, searchCode, wire, count).Some?
    ensures Fetch(c, uploads, searchCode, wire, n).Some?
    ensures Fetch(c, uploads, searchCode, wire, n).value <= Fetch(c, uploads, searchCode, wire, count).value
    decreases count
  {
    if n < count {
      FetchPrefix(c, uploads, searchCode, wire, n, count - 1);
    }
  }

  // Blobs behind which nothing decodes: the whole ciphertext does not decode either.
  lemma Spoiled(c: Crypto, credential: Bytes, uploads: UploadMap, parts: CredentialParts, m: SmbMetadata,
                leading: seq<Bytes>, data: Bytes, size: nat, padded: nat)
    requires SplitCredential(credential) == Some(parts)
    requires var token := c.uploadToken(parts.searchCode, 0);
             token in uploads ==> ParseSmbEncrypted(c, credential, uploads[token]) == Some(m)
    requires |leading| + 1 < m.numTokens && IsSegmented(m.segmentCode)
    requires Fetch(c, uploads, parts.searchCode, m.wireBlockSize, |leading| + 1) == Some(leading + [data])
    requires size == SegmentPlaintextBytes(m.segmentCode)
    requires PaddedLength(m.ciphertextLength, m.segmentCode) == Some(padded)
    requires Undecodable(c, parts, m, Flatten(leading) + data, size, padded)
    ensures ReceiveStreamed(c, credential, uploads).None?
  {
    hide ParseSmbEncrypted;
    hide Fetch;
    hide RootOf;
    hide Flatten;
    hide DecryptCiphertext;
    hide Undecodable;
    hide PaddedLength;
    var all := Fetch(c, uploads, parts.searchCode, m.wireBlockSize, m.numTokens - 1);
    var token := c.uploadToken(parts.searchCode, 0);
    if all.Some? && token in uploads && SessionOpens(c, credential, uploads[token]) {
      FetchPrefix(c, uploads, parts.searchCode, m.wireBlockSize, |leading| + 1, m.numTokens - 1);
      var begun, rest := leading + [data], all.value[|leading| + 1..];
      assert all.value == begun + rest;
      FlattenSnoc(leading, data);
      FlattenConcat(begun, rest);
      var last := LastBlock(m, uploads[token]);
      AppendAssoc(Flatten(begun), Flatten(rest), last);
      SpoiledFile(c, parts, m, Flatten(begun), Flatten(rest) + last, size, padded);
    }
  }

  lemma SpoiledFile(c: Crypto, parts: CredentialParts, m: SmbMetadata, stream: Bytes, rest: Bytes,
                    size: nat, padded: nat)
    requires IsSegmented(m.segmentCode) && size == SegmentPlaintextBytes(m.segmentCode)
    requires PaddedLength(m.ciphertextLength, m.segmentCode) == Some(padded)
    requires Undecodable(c, parts, m, stream, size, padded)
    ensures DecryptCiphertext(c, parts, m, stream + rest).None?
  {
    hide OpenSegments;
    hide PaddedLength;
    assert DecodeStream(c, parts, m, stream + rest, size, padded).None?;
  }

  lemma AllFetched(session: ReceiveDecryptSession, c: Crypto, credential: Bytes, uploads: UploadMap)
    requires Following(session, c, credential, uploads)
    requires |session.blocks| + 1 == session.metadata.numTokens
    requires SM_ENC_BYTES + session.lastBlockLength <= |session.token0Wire|
    ensures var last := session.LastLogicalBlock();
            ReceiveStreamed(c, credential, uploads)
            == if RootOf(c, HashBlocks(c, session.blocks) + [LeafOfLast(c, last)]) == session.metadata.rootHash
               then DecryptCiphertext(c, session.parts, session.metadata, session.fed + last) else None
  {
    hide SessionOpens;
    hide Fetch;
    hide RootOf;
    hide Flatten;
    hide ParseSmbEncrypted;
    hide DecryptCiphertext;
    hide PaddedLength;
    hide ReceiveDecryptSession.Valid;
    SessionState(session);
  }

  // ---------- Runs ----------

  /** Tokens 1, 2, ... fed in order from a stored map, and then finalize. */
  method RunReceive(c: Crypto, credential: Bytes, uploads: UploadMap) returns (r: Option<Bytes>)
    ensures r == ReceiveStreamed(c, credential, uploads)
  {
    hide SessionOpens;
    hide RootOf;
    hide DecryptCiphertext;
    hide Flatten;
    hide ParseSmbEncrypted;
    hide PaddedLength;
    hide ReceiveDecryptSession.Valid;
    var parts := SplitCredential(credential);
    if parts.None? || c.uploadToken(parts.value.searchCode, 0) !in uploads {
      return None;
    }
    var session := OpenReceive(c, credential, uploads[c.uploadToken(parts.value.searchCode, 0)]);
    if session == null {
      return None;
    }
    SessionState(session);
    while session.nextTokenIndex < session.metadata.numTokens
      invariant fresh(session) && Following(session, c, credential, uploads) && session.exported == []
      invariant session.nextTokenIndex == |session.blocks| + 1 <= session.metadata.numTokens
      decreases session.metadata.numTokens - session.nextTokenIndex
    {
      var fed := FeedNext(session, c, credential, uploads);
      if !fed {
        return None;
      }
      SessionState(session);
    }
    SessionState(session);
    AllFetched(session, c, credential, uploads);
    r := session.Finalize();
  }

  datatype ReceiveOp = NextToken | Take(limit: nat)

  /**
   Any interleaving of tokens and partial exports, then the remaining tokens, `CompleteFinalize`
   and the rest of the file. It succeeds exactly when the uninterrupted run does, and the bytes
   taken on the way followed by the rest are then the same file.
   */
  method RunDrain(c: Crypto, credential: Bytes, uploads: UploadMap, ops: seq<ReceiveOp>)
    returns (taken: Bytes, rest: Option<Bytes>)
    ensures rest.Some? <==> ReceiveStreamed(c, credential, uploads).Some?
    ensures rest.Some? ==> Some(taken + rest.value) == ReceiveStreamed(c, credential, uploads)
  {
    hide SessionOpens;
    hide RootOf;
    hide DecryptCiphertext;
    hide Flatten;
    hide Fetch;
    hide ParseSmbEncrypted;
    hide PaddedLength;
    hide ReceiveStreamed;
    hide LeafOfLast;
    hide Following;
    taken, rest := [], None;
    var session := OpenRun(c, credential, uploads);
    if session == null {
      return;
    }
    var step := 0;
    while step < |ops| || session.nextTokenIndex < session.metadata.numTokens
      invariant fresh(session) && Following(session, c, credential, uploads)
      invariant session.nextTokenIndex == |session.blocks| + 1 <= session.metadata.numTokens
      invariant 0 <= step <= |ops| && taken == Taken(session)
      decreases |ops| - step, session.metadata.numTokens - session.nextTokenIndex
    {
      var op := if step < |ops| then ops[step] else NextToken;
      step := if step < |ops| then step + 1 else step;
      if op.Take? {
        var chunk := ExportSome(session, c, credential, uploads, op.limit);
        taken := taken + chunk;
      } else if session.nextTokenIndex < session.metadata.numTokens {
        var fed := FeedNext(session, c, credential, uploads);
        if !fed {
          return;
        }
        SessionFollows(session, c, credential, uploads);
      }
    }
    rest := Complete(session, c, credential, uploads);
  }

  // What has left the queue: nothing in whole-file mode, which exports only after finalizing.
  ghost function Taken(session: ReceiveDecryptSession): Bytes
    reads session`exported
  {
    if IsSegmented(session.metadata.segmentCode) then session.exported else []
  }

  lemma SessionFollows(session: ReceiveDecryptSession, c: Crypto, credential: Bytes, uploads: UploadMap)
    requires Following(session, c, credential, uploads)
    ensures session.Valid() && !session.finalized && session.crypto == c
    ensures session.nextTokenIndex == |session.blocks| + 1 <= session.metadata.numTokens
    ensures |session.token0Wire| == SM_ENC_BYTES + session.lastBlockLength
  {
    hide ReceiveDecryptSession.Valid;
    hide SessionOpens;
    hide Fetch;
    SessionState(session);
  }

  method OpenRun(c: Crypto, credential: Bytes, uploads: UploadMap) returns (session: ReceiveDecryptSession?)
    ensures session == null ==> ReceiveStreamed(c, credential, uploads).None?
    ensures session != null ==>
              && fresh(session) && Following(session, c, credential, uploads)
              && session.blocks == [] && session.exported == []
              && session.nextTokenIndex == |session.blocks| + 1 <= session.metadata.numTokens
  {
    hide SessionOpens;
    hide RootOf;
    hide DecryptCiphertext;
    hide Flatten;
    hide ParseSmbEncrypted;
    hide PaddedLength;
    hide ReceiveDecryptSession.Valid;
    var parts := SplitCredential(credential);
    if parts.None? || c.uploadToken(parts.value.searchCode, 0) !in uploads {
      return null;
    }
    session := OpenReceive(c, credential, uploads[c.uploadToken(parts.value.searchCode, 0)]);
    if session != null {
      SessionState(session);
    }
  }

  // One export between two tokens; in whole-file mode the source refuses it.
  method ExportSome(session: ReceiveDecryptSession, ghost c: Crypto, ghost credential: Bytes,
                    ghost uploads: UploadMap, limit: nat)
    returns (chunk: Bytes)
    requires Following(session, c, credential, uploads)
    modifies session
    ensures Following(session, c, credential, uploads) && session.blocks == old(session.blocks)
    ensures session.nextTokenIndex == |session.blocks| + 1
    ensures Taken(session) == old(Taken(session)) + chunk && |chunk| <= limit
  {
    hide SessionOpens;
    hide Fetch;
    hide ParseSmbEncrypted;
    hide ReceiveDecryptSession.Valid;
    hide ReceiveDecryptSession.Remaining;
    var r := session.TakePlaintextChunk(limit);
    chunk := if r.Some? then r.value else [];
    SessionState(session);
    assert old(Taken(session)) + [] == old(Taken(session));
  }

  method Complete(session: ReceiveDecryptSession, ghost c: Crypto, ghost credential: Bytes,
                  ghost uploads: UploadMap)
    returns (rest: Option<Bytes>)
    requires Following(session, c, credential, uploads)
    requires session.nextTokenIndex == session.metadata.numTokens
    modifies session
    ensures rest.Some? <==> ReceiveStreamed(c, credential, uploads).Some?
    ensures rest.Some? ==>
              Some(old(Taken(session)) + rest.value) == ReceiveStreamed(c, credential, uploads)
  {
    hide RootOf;
    hide DecryptCiphertext;
    hide Flatten;
    hide ReceiveStreamed;
    hide LeafOfLast;
    hide Following;
    hide ReceiveDecryptSession.Valid;
    hide ReceiveDecryptSession.Remaining;
    SessionFollows(session, c, credential, uploads);
    AllFetched(session, c, credential, uploads);
    var ok := session.CompleteFinalize();
    if !ok {
      return None;
    }
    ghost var file := session.Remaining();
    var n := session.RemainingLength();
    rest := session.TakePlaintextChunk(n);
    assert file[..n] == file;
  }

  // ---------- Against the batch receiver ----------

  /** The map's metadata announces an empty last block (batch and streaming then hash it differently). */
  predicate LastBlockEmpty(c: Crypto, credential: Bytes, uploads: UploadMap) {
    && SplitCredential(credential).Some?
    && var token := c.uploadToken(SplitCredential(credential).value.searchCode, 0);
    && token in uploads
    && ParseSmbEncrypted(c, credential, uploads[token]).Some?
    && LastBlockLength(ParseSmbEncrypted(c, credential, uploads[token]).value) == 0
  }

  datatype Stored = Stored(parts: CredentialParts, metadata: SmbMetadata, blocks: seq<Bytes>)

  /** What both receivers read from a map before they check the root: metadata and logical blocks. */
  function StoredUpload(c: Crypto, credential: Bytes, uploads: UploadMap): (r: Option<Stored>)
    ensures r.Some? ==> r.value.blocks != [] && IsSupported(r.value.metadata.segmentCode)
  {
    var parts :- SplitCredential(credential);
    var token := c.uploadToken(parts.searchCode, 0);
    if token !in uploads then None
    else
      var m :- ParseSmbEncrypted(c, credential, uploads[token]);
      if m.numTokens == 0 || !Token0Consistent(m, uploads[token]) then None
      else
        var leading :- Fetch(c, uploads, parts.searchCode, m.wireBlockSize, m.numTokens - 1);
        Some(Stored(parts, m, leading + [LastBlock(m, uploads[token])]))
  }

  // The leaves the streaming receiver computes the root of.
  function StreamedLeaves(c: Crypto, blocks: seq<Bytes>): seq<Bytes>
    requires blocks != []
  {
    HashBlocks(c, blocks[..|blocks| - 1]) + [LeafOfLast(c, blocks[|blocks| - 1])]
  }

  /** On every map the receivers decrypt the same blocks, each after its own root check. */
  lemma BothReceivers(c: Crypto, credential: Bytes, uploads: UploadMap)
    ensures StoredUpload(c, credential, uploads).None? ==>
              ReceiveStreamed(c, credential, uploads).None? && Receive(c, credential, uploads).None?
    ensures StoredUpload(c, credential, uploads).Some? ==>
              var s := StoredUpload(c, credential, uploads).value;
              var file := DecryptCiphertext(c, s.parts, s.metadata, Flatten(s.blocks));
              && ReceiveStreamed(c, credential, uploads)
                 == (if RootOf(c, StreamedLeaves(c, s.blocks)) == s.metadata.rootHash then file else None)
              && Receive(c, credential, uploads)
                 == (if RootOf(c, HashBlocks(c, s.blocks)) == s.metadata.rootHash then file else None)
  {
    hide ParseSmbEncrypted;
    hide Fetch;
    hide RootOf;
    hide Flatten;
    hide DecryptPayload;
    hide PaddedLength;
    hide HashBlocks;
    var parts := SplitCredential(credential);
    if parts.Some? && c.uploadToken(parts.value.searchCode, 0) in uploads {
      var token0 := uploads[c.uploadToken(parts.value.searchCode, 0)];
      var metadata := ParseSmbEncrypted(c, credential, token0);
      if metadata.Some? {
        var m := metadata.value;
        if m.numTokens == 0 {
          NoBlocks(c, parts.value, m);
        } else {
          var leading := Fetch(c, uploads, parts.value.searchCode, m.wireBlockSize, m.numTokens - 1);
          if Token0Consistent(m, token0) && leading.Some? {
            var last := LastBlock(m, token0);
            FlattenSnoc(leading.value, last);
            assert (leading.value + [last])[..|leading.value|] == leading.value;
          }
        }
      }
    }
  }

  lemma NoBlocks(c: Crypto, parts: CredentialParts, m: SmbMetadata)
    requires IsSupported(m.segmentCode)
    ensures DecryptCiphertext(c, parts, m, Flatten([])).None?
  {
    hide DecryptPayload;
  }

  /** Streaming receive is batch receive on every map whose last block is not announced empty. */
  lemma StreamedIsBatch(c: Crypto, credential: Bytes, uploads: UploadMap)
    requires !LastBlockEmpty(c, credential, uploads)
    ensures ReceiveStreamed(c, credential, uploads) == Receive(c, credential, uploads)
  {
    hide ReceiveStreamed;
    hide Receive;
    hide ParseSmbEncrypted;
    hide Fetch;
    hide RootOf;
    hide Flatten;
    hide DecryptCiphertext;
    BothReceivers(c, credential, uploads);
    var s := StoredUpload(c, credential, uploads);
    if s.Some? {
      LastLeaf(c, s.value.blocks);
      assert s.value.blocks[|s.value.blocks| - 1] != [];
    }
  }

  lemma LastLeaf(c: Crypto, blocks: seq<Bytes>)
    requires blocks != []
    ensures var n := |blocks| - 1;
            && HashBlocks(c, blocks) == HashBlocks(c, blocks[..n]) + [c.sha256(blocks[n])]
            && (blocks[n] != [] ==> StreamedLeaves(c, blocks) == HashBlocks(c, blocks))
            && (blocks[n] == [] ==> StreamedLeaves(c, blocks) == HashBlocks(c, blocks[..n]) + [[]])
  {
  }

  /** With an announced empty last block they agree exactly where both fail or the two roots coincide. */
  lemma EmptyLastAgreement(c: Crypto, credential: Bytes, uploads: UploadMap)
    requires LastBlockEmpty(c, credential, uploads)
    ensures ReceiveStreamed(c, credential, uploads) == Receive(c, credential, uploads)
       <==> || (ReceiveStreamed(c, credential, uploads).None? && Receive(c, credential, uploads).None?)
            || (&& StoredUpload(c, credential, uploads).Some?
                && var blocks := StoredUpload(c, credential, uploads).value.blocks;
                   RootOf(c, StreamedLeaves(c, blocks)) == RootOf(c, HashBlocks(c, blocks)))
  {
    hide ReceiveStreamed;
    hide Receive;
    hide StoredUpload;
    hide RootOf;
    hide HashBlocks;
    hide StreamedLeaves;
    hide DecryptCiphertext;
    BothReceivers(c, credential, uploads);
  }

  /**
   A collision that can be read off the map: `x` is hashed by the root check of the streaming
   receiver on it, `y` by that of the batch receiver.
   */
  ghost predicate ReadOff(c: Crypto, credential: Bytes, uploads: UploadMap, x: Bytes, y: Bytes) {
    && Collision(c, x, y)
    && StoredUpload(c, credential, uploads).Some?
    && var blocks := StoredUpload(c, credential, uploads).value.blocks;
    && HashedAbove(c, StreamedLeaves(c, blocks), x)
    && HashedAbove(c, HashBlocks(c, blocks), y)
  }

  /** With an announced empty last block not both receivers succeed, unless a collision can be read off the map. */
  lemma EmptyLastBlock(c: Crypto, credential: Bytes, uploads: UploadMap) returns (x: Bytes, y: Bytes)
    requires Ideal(c) && LastBlockEmpty(c, credential, uploads)
    ensures || ReadOff(c, credential, uploads, x, y)
            || ReceiveStreamed(c, credential, uploads).None?
            || Receive(c, credential, uploads).None?
  {
    hide ReceiveStreamed;
    hide Receive;
    hide Fetch;
    hide ParseSmbEncrypted;
    hide RootOf;
    hide HashedAbove;
    hide Collision;
    hide DecryptCiphertext;
    x, y := [], [];
    BothReceivers(c, credential, uploads);
    if ReceiveStreamed(c, credential, uploads).Some? && Receive(c, credential, uploads).Some? {
      var blocks := StoredUpload(c, credential, uploads).value.blocks;
      var n := |blocks| - 1;
      assert blocks[n] == [];
      LastLeaf(c, blocks);
      x, y := EmptyLeafBinding(c, HashBlocks(c, blocks[..n]), c.sha256([]));
    }
  }

  /**
   The streaming round trip: of a batch upload the streaming receiver gives back exactly the file
   whenever the batch receiver does and the layout's last block is not empty. An empty last block
   makes it fail, unless a hash collision can be read off the map.
   */
  lemma StreamPrepared(c: Crypto, tape: Tape, request: UploadRequest, file: Bytes) returns (x: Bytes, y: Bytes)
    requires Ideal(c) && Encode(c, tape, request, file).Some? && Receivable(request, file)
    requires FitsIntegers(WireLayoutFor(|file|, request.segmentCode, request.maxWireBlockBytes).value, |file|)
    requires TokensDistinct(c, SplitCredential(request.credential).value.searchCode,
                            |Encode(c, tape, request, file).value|)
    ensures var layout := WireLayoutFor(|file|, request.segmentCode, request.maxWireBlockBytes).value;
            var searchCode := SplitCredential(request.credential).value.searchCode;
            var uploads := MapOf(c, searchCode, Encode(c, tape, request, file).value);
            && (layout.lastBlockLength > 0 ==>
                  ReceiveStreamed(c, request.credential, uploads) == Some(file))
            && (layout.lastBlockLength == 0 ==>
                  || ReceiveStreamed(c, request.credential, uploads).None?
                  || ReadOff(c, request.credential, uploads, x, y))
  {
    hide Search;
    hide Encode;
    hide MapOf;
    hide LogicalBlocks;
    hide Levels;
    hide Print;
    hide ParseSmbEncrypted;
    hide Receive;
    hide ReceiveStreamed;
    hide Normalize;
    hide TokensDistinct;
    hide ReadOff;
    x, y := [], [];
    var h := PreparedMetadata(c, tape, request, file);
    var uploads := MapOf(c, h.parts.searchCode, Encode(c, tape, request, file).value);
    ReceivePrepared(c, tape, request, file);
    if h.layout.lastBlockLength > 0 {
      StreamedIsBatch(c, request.credential, uploads);
    } else {
      x, y := EmptyLastBlock(c, request.credential, uploads);
    }
  }

  /**
   Where the receivers part: of an upload in blocks of 373 bytes the batch receiver gives the file
   back, and the streaming receiver fails unless a hash collision can be read off the map.
   */
  lemma ReceiversPart(c: Crypto, tape: Tape, request: UploadRequest, file: Bytes) returns (x: Bytes, y: Bytes)
    requires Ideal(c) && Encode(c, tape, request, file).Some? && Receivable(request, file)
    requires FitsIntegers(WireLayoutFor(|file|, request.segmentCode, request.maxWireBlockBytes).value, |file|)
    requires TokensDistinct(c, SplitCredential(request.credential).value.searchCode,
                            |Encode(c, tape, request, file).value|)
    requires WireLayoutFor(|file|, request.segmentCode, request.maxWireBlockBytes).value.wireBlockSize
             == SM_ENC_BYTES
    ensures var searchCode := SplitCredential(request.credential).value.searchCode;
            var uploads := MapOf(c, searchCode, Encode(c, tape, request, file).value);
            && Receive(c, request.credential, uploads) == Some(file)
            && (|| ReceiveStreamed(c, request.credential, uploads).None?
                || ReadOff(c, request.credential, uploads, x, y))
  {
    hide Search;
    hide Encode;
    hide MapOf;
    hide Receive;
    hide ReceiveStreamed;
    hide Receivable;
    hide TokensDistinct;
    hide ReadOff;
    EncodeHasLayout(c, tape, request, file);
    LastBlockEmptyExactly(|file|, request.segmentCode, request.maxWireBlockBytes);
    ReceivePrepared(c, tape, request, file);
    x, y := StreamPrepared(c, tape, request, file);
  }

  lemma EncodeHasLayout(c: Crypto, tape: Tape, request: UploadRequest, file: Bytes)
    requires Encode(c, tape, request, file).Some?
    ensures SplitCredential(request.credential).Some? && IsSupported(request.segmentCode)
    ensures WireLayoutFor(|file|, request.segmentCode, request.maxWireBlockBytes).Some?
  {
    hide Search;
    hide LogicalBlocks;
    hide TreeOf;
    hide SealSmb;
  }

  /**
   And they do part: under the hash that tells an empty leaf from a digest, on every receivable
   upload in blocks of 373 bytes.
   */
  lemma ReceiversDoPart(tape: Tape, request: UploadRequest, file: Bytes)
    requires |request.credential| == CREDENTIAL_LENGTH && IsSupported(request.segmentCode)
    requires WireLayoutFor(|file|, request.segmentCode, request.maxWireBlockBytes).Some?
    requires FitsIntegers(WireLayoutFor(|file|, request.segmentCode, request.maxWireBlockBytes).value, |file|)
    requires Receivable(request, file)
    requires WireLayoutFor(|file|, request.segmentCode, request.maxWireBlockBytes).value.wireBlockSize
             == SM_ENC_BYTES
    ensures Ideal(Transparent()) && Encode(Transparent(), tape, request, file).Some?
    ensures var uploads := MapOf(Transparent(), SplitCredential(request.credential).value.searchCode,
                                 Encode(Transparent(), tape, request, file).value);
            && Receive(Transparent(), request.credential, uploads) == Some(file)
            && ReceiveStreamed(Transparent(), request.credential, uploads).None?
  {
    hide Search;
    hide Encode;
    hide MapOf;
    hide Receive;
    hide ReceiveStreamed;
    hide Receivable;
    hide TokensDistinct;
    hide Ideal;
    hide Transparent;
    hide LastBlockEmpty;
    hide StoredUpload;
    hide RootOf;
    var c := AssumptionsAreMet(tape, request, file);
    var uploads := MapOf(c, SplitCredential(request.credential).value.searchCode,
                         Encode(c, tape, request, file).value);
    LastBlockEmptyExactly(|file|, request.segmentCode, request.maxWireBlockBytes);
    ReceivePrepared(c, tape, request, file);
    PreparedIsEmpty(c, tape, request, file);
    BothReceivers(c, request.credential, uploads);
    RootsDiffer(request.credential, uploads);
  }

  lemma PreparedIsEmpty(c: Crypto, tape: Tape, request: UploadRequest, file: Bytes)
    requires Ideal(c) && Encode(c, tape, request, file).Some? && Receivable(request, file)
    requires FitsIntegers(WireLayoutFor(|file|, request.segmentCode, request.maxWireBlockBytes).value, |file|)
    requires TokensDistinct(c, SplitCredential(request.credential).value.searchCode,
                            |Encode(c, tape, request, file).value|)
    requires WireLayoutFor(|file|, request.segmentCode, request.maxWireBlockBytes).value.lastBlockLength == 0
    ensures LastBlockEmpty(c, request.credential,
                           MapOf(c, SplitCredential(request.credential).value.searchCode,
                                 Encode(c, tape, request, file).value))
  {
    hide Search;
    hide Encode;
    hide MapOf;
    hide ParseSmbEncrypted;
    hide Normalize;
    hide TokensDistinct;
    var h := PreparedMetadata(c, tape, request, file);
  }

  lemma RootsDiffer(credential: Bytes, uploads: UploadMap)
    requires LastBlockEmpty(Transparent(), credential, uploads)
    requires StoredUpload(Transparent(), credential, uploads).Some?
    ensures var blocks := StoredUpload(Transparent(), credential, uploads).value.blocks;
            RootOf(Transparent(), StreamedLeaves(Transparent(), blocks))
            != RootOf(Transparent(), HashBlocks(Transparent(), blocks))
  {
    hide Transparent;
    hide Fetch;
    hide ParseSmbEncrypted;
    hide RootOf;
    var c := Transparent();
    var blocks := StoredUpload(c, credential, uploads).value.blocks;
    var n := |blocks| - 1;
    assert blocks[n] == [];
    LastLeaf(c, blocks);
    TransparentHash([]);
    LeavesAreDigests(blocks[..n]);
    EmptyLeafShows(HashBlocks(c, blocks[..n]), c.sha256([]));
  }

  lemma LeavesAreDigests(blocks: seq<Bytes>)
    ensures Digests(HashBlocks(Transparent(), blocks))
  {
    hide Transparent;
    forall i | 0 <= i < |blocks|
      ensures |HashBlocks(Transparent(), blocks)[i]| == HASH_BYTES
    {
      TransparentHash(blocks[i]);
    }
  }

  /** Every whole file sent under the smallest cap, 373 bytes, is such an upload. */
  lemma ReceiversPartSomewhere(tape: Tape, request: UploadRequest, file: Bytes) returns (c: Crypto)
    requires |request.credential| == CREDENTIAL_LENGTH && IsWholeFile(request.segmentCode)
    requires |Normalize(request.fileName)| <= V21_SEGMENT_CODE_FIELD_OFFSET
    requires request.maxWireBlockBytes == SM_ENC_BYTES && |file| <= 0x100_0000_0000
    ensures Ideal(c) && Encode(c, tape, request, file).Some?
    ensures var uploads := MapOf(c, SplitCredential(request.credential).value.searchCode,
                                 Encode(c, tape, request, file).value);
            && Receive(c, request.credential, uploads) == Some(file)
            && ReceiveStreamed(c, request.credential, uploads).None?
  {
    hide Search;
    hide Encode;
    hide MapOf;
    hide Receive;
    hide ReceiveStreamed;
    hide Normalize;
    hide Ideal;
    hide Transparent;
    EmptyLastBlockOccurs(|file|);
    LastBlockEmptyExactly(|file|, V2_SEGMENT_CODE_WHOLE_FILE, SM_ENC_BYTES);
    UpToOneTebibyte(request, file);
    ReceiversDoPart(tape, request, file);
    c := Transparent();
  }

  // What the receiver of a batch upload reads from token 0.
  lemma PreparedMetadata(c: Crypto, tape: Tape, request: UploadRequest, file: Bytes) returns (h: Honest)
    requires Ideal(c) && Encode(c, tape, request, file).Some? && Receivable(request, file)
    requires FitsIntegers(WireLayoutFor(|file|, request.segmentCode, request.maxWireBlockBytes).value, |file|)
    requires TokensDistinct(c, SplitCredential(request.credential).value.searchCode,
                            |Encode(c, tape, request, file).value|)
    ensures SplitCredential(request.credential) == Some(h.parts)
    ensures WireLayoutFor(|file|, request.segmentCode, request.maxWireBlockBytes) == Some(h.layout)
    ensures LastBlockLength(WithoutLevels(h.metadata)) == h.layout.lastBlockLength >= 0
    ensures h.metadata.wireBlockSize == h.layout.wireBlockSize <= request.maxWireBlockBytes
    ensures h.metadata.originalFileLength == |file| && h.metadata.segmentCode == request.segmentCode
    ensures h.metadata.numTokens == h.layout.numTokens
    ensures var uploads := MapOf(c, h.parts.searchCode, Encode(c, tape, request, file).value);
            var token := c.uploadToken(h.parts.searchCode, 0);
            && token in uploads && |uploads[token]| == h.metadata.wireBlockSize
            && ParseSmbEncrypted(c, request.credential, uploads[token]) == Some(WithoutLevels(h.metadata))
  {
    hide Search;
    hide Encode;
    hide MapOf;
    hide LogicalBlocks;
    hide Levels;
    hide Print;
    hide ParseSmbEncrypted;
    hide Normalize;
    hide TokensDistinct;
    HonestEncodes(c, tape, request, file);
    h := HonestUpload(c, tape, request, file).value;
    HonestFacts(c, tape, request, file, h);
    HonestParse(c, tape, request, file, h);
    Token0IsStored(c, h.parts.searchCode, Encode(c, tape, request, file).value);
  }
}
