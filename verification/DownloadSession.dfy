/** The adaptive download: a sliding window of tokens, fed into the streaming receiver. */
module DownloadSession {
  import opened ByteStrings
  import opened Cryptography
  import opened Segment
  import opened Smb
  import opened FileNames
  import opened Merkle
  import opened SmbRoundTrip
  import opened WireLayouts
  import opened LayoutTotality
  import opened RoundTrip
  import opened Sender
  import opened Receiver
  import opened ReceiveSession
  import opened ReceiveRun
  import opened ReceivePlan

  const EXPORT_CHUNK_BYTES: nat := 4 * 1024 * 1024
  const V21_WHOLE_FILE_THRESHOLD_BYTES: nat := 16 * 1024 * 1024

  // ---------- The plaintext sink ----------

  class ReceivePlaintextAccumulator {
    const buffer: array<Byte>
    const expectedLength: nat
    var offset: nat

    ghost predicate Valid()
      reads this
    {
      offset <= buffer.Length
    }

    ghost function Written(): Bytes
      requires Valid()
      reads this, buffer
    {
      buffer[..offset]
    }

    constructor (expectedLength: nat)
      ensures Valid() && fresh(buffer) && Written() == []
      ensures buffer.Length == this.expectedLength == expectedLength
    {
      this.expectedLength := expectedLength;
      buffer := new Byte[expectedLength](_ => 0);
      offset := 0;
    }

    method Append(chunk: Bytes)
      requires Valid() && offset + |chunk| <= buffer.Length
      modifies `offset, buffer
      ensures Valid() && Written() == old(Written()) + chunk
    {
      forall k | 0 <= k < |chunk| {
        buffer[offset + k] := chunk[k];
      }
      offset := offset + |chunk|;
      assert buffer[..old(offset)] == old(buffer[..offset]);
      assert buffer[old(offset)..offset] == chunk;
    }

    // One chunk from the session into the buffer.
    method DrainChunk(session: ReceiveDecryptSession) returns (chunk: Option<Bytes>)
      requires Valid() && session.Valid()
      modifies `offset, buffer, session
      ensures Valid() && session.Valid() && session.finalized == old(session.finalized)
      ensures session.blocks == old(session.blocks) && session.token0Wire == old(session.token0Wire)
      ensures chunk.None? ==>
                || !(IsSegmented(session.metadata.segmentCode) || session.finalized)
                || |old(Written())| + |old(session.Remaining())| > buffer.Length
      ensures chunk.Some? ==>
                && (IsSegmented(session.metadata.segmentCode) || session.finalized)
                && old(session.Remaining()) == chunk.value + session.Remaining()
                && Written() == old(Written()) + chunk.value && |Written()| <= buffer.Length
                && (chunk.value == [] ==> session.Remaining() == [])
                && session.exported == old(session.exported)
                   + (if IsSegmented(session.metadata.segmentCode) then chunk.value else [])
    {
      hide ReceiveDecryptSession.Valid;
      hide ReceiveDecryptSession.Remaining;
      SegmentedOrWhole(session);
      ghost var before := session.Remaining();
      chunk := session.TakePlaintextChunk(EXPORT_CHUNK_BYTES);
      if chunk.None? {
        return;
      }
      assert before == chunk.value + session.Remaining();
      if offset + |chunk.value| > buffer.Length {
        return None;
      }
      Append(chunk.value);
    }

    /** Moves all bytes the session has ready into the buffer; fails if they do not fit. */
    method DrainSession(session: ReceiveDecryptSession) returns (ok: bool)
      requires Valid() && session.Valid()
      modifies `offset, buffer, session
      ensures Valid() && session.Valid() && session.finalized == old(session.finalized)
      ensures session.blocks == old(session.blocks) && session.token0Wire == old(session.token0Wire)
      ensures ok <==> (IsSegmented(session.metadata.segmentCode) || session.finalized)
                      && |old(Written())| + |old(session.Remaining())| <= buffer.Length
      ensures ok ==>
                && Written() == old(Written()) + old(session.Remaining()) && session.Remaining() == []
                && session.exported == old(session.exported)
                   + (if IsSegmented(session.metadata.segmentCode) then old(session.Remaining()) else [])
    {
      hide ReceiveDecryptSession.Valid;
      hide ReceiveDecryptSession.Remaining;
      hide Valid;
      hide Written;
      ghost var start, before, whole, moved := Written(), session.exported, session.Remaining(), [];
      ghost var segmented := IsSegmented(session.metadata.segmentCode);
      assert start + [] == start && [] + whole == whole && before + [] == before;
      while true
        invariant Valid() && session.Valid() && session.finalized == old(session.finalized)
        invariant session.blocks == old(session.blocks) && session.token0Wire == old(session.token0Wire)
        invariant Written() == start + moved && moved + session.Remaining() == whole
        invariant session.exported == before + (if segmented then moved else [])
        decreases |session.Remaining()|
      {
        ghost var rest := session.Remaining();
        var chunk := DrainChunk(session);
        if chunk.None? {
          return false;
        }
        AppendAssoc(start, moved, chunk.value);
        AppendAssoc(moved, chunk.value, session.Remaining());
        AppendAssoc(before, moved, chunk.value);
        moved := moved + chunk.value;
        if chunk.value == [] {
          break;
        }
      }
      assert moved + [] == moved;
      ok := true;
    }

    /** The buffer, if it has been filled. */
    method ToBlob() returns (r: Option<Bytes>)
      requires Valid() && buffer.Length == expectedLength
      ensures r == if |Written()| == expectedLength then Some(Written()) else None
    {
      if offset != expectedLength {
        return None;
      }
      assert buffer[..] == buffer[..offset];
      r := Some(buffer[..]);
    }
  }

  lemma SegmentedOrWhole(session: ReceiveDecryptSession)
    requires session.Valid()
    ensures IsWholeFile(session.metadata.segmentCode) <==> !IsSegmented(session.metadata.segmentCode)
  {
    hide ReceiveDecryptSession.Queue;
    hide ReceiveDecryptSession.KeyKnown;
    hide ReceiveDecryptSession.Decoded;
    hide ReceiveDecryptSession.Received;
    session.WholeOrSegmented();
  }

  // ---------- The transport ----------

  /**
   Asks relays for blobs by token. `delivered` holds what the relays get through in the end: a token
   that is not stored, or whose retries run out, is not in it. A cancelled token is never delivered.
   */
  class ReceiveTransport {
    const delivered: UploadMap
    var pending: set<Bytes>      // issued and not yet consumed
    var cancelled: set<Bytes>
    ghost var peak: nat          // most tokens pending at once since the last reset
    ghost var consumed: seq<Bytes>

    constructor (delivered: UploadMap)
      ensures this.delivered == delivered && pending == {} && cancelled == {} && peak == 0 && consumed == []
    {
      this.delivered := delivered;
      pending, cancelled, peak, consumed := {}, {}, 0, [];
    }

    method StartConcurrentGet(tokens: seq<Bytes>)
      modifies `pending, `peak
      ensures pending == old(pending) + ((set t | t in tokens) - cancelled)
      ensures peak == Max(old(peak), |pending|)
    {
      pending := pending + set t | t in tokens && t !in cancelled;
      peak := Max(peak, |pending|);
    }

    method CancelPending(tokens: seq<Bytes>)
      modifies `pending, `cancelled
      ensures pending == old(pending) - (set t | t in tokens)
      ensures cancelled == old(cancelled) + (set t | t in tokens)
    {
      cancelled := cancelled + set t | t in tokens;
      pending := pending - set t | t in tokens;
    }

    // Waits for the blob through all retries.
    method Get(token: Bytes) returns (r: Option<Bytes>)
      modifies `pending, `peak, `consumed
      ensures r == if token in cancelled || token !in delivered then None else Some(delivered[token])
      ensures r.Some? ==> pending == old(pending) - {token} && consumed == old(consumed) + [token]
      ensures peak <= Max(old(peak), |old(pending) + {token}|)
    {
      if token in cancelled {
        return None;
      }
      StartConcurrentGet([token]);
      assert pending == old(pending) + {token};
      if token !in delivered {
        return None;
      }
      pending := pending - {token};
      consumed := consumed + [token];
      r := Some(delivered[token]);
    }

    ghost method ResetPeak()
      modifies `peak
      ensures peak == |pending|
    {
      peak := |pending|;
    }
  }

  // ---------- The large-file download ----------

  // The sink holds what the session has exported and has room for the rest of the file.
  ghost predicate Collecting(session: ReceiveDecryptSession, sink: ReceivePlaintextAccumulator)
    reads session, sink, sink.buffer
  {
    && sink.Valid() && sink.buffer.Length == sink.expectedLength == session.originalLength
    && sink.Written() == Taken(session)
  }

  lemma ExportFits(session: ReceiveDecryptSession)
    requires session.Valid() && !session.finalized && IsSegmented(session.metadata.segmentCode)
    ensures |session.exported| + |session.Remaining()| <= session.originalLength
  {
    hide Flatten;
    hide SearchPaddedLength;
    hide ReceiveDecryptSession.KeyKnown;
    hide ReceiveDecryptSession.Received;
    hide ReceiveDecryptSession.Shape;
    hide Opened;
    session.ExportedIsPrefix();
  }

  /** Drains between tokens; the source refuses to in whole-file mode. */
  method DrainBetween(session: ReceiveDecryptSession, sink: ReceivePlaintextAccumulator, ghost c: Crypto,
                      ghost credential: Bytes, ghost uploads: UploadMap)
    returns (ok: bool)
    requires Following(session, c, credential, uploads) && Collecting(session, sink)
    modifies session, sink`offset, sink.buffer
    ensures ok <==> IsSegmented(session.metadata.segmentCode)
    ensures ok ==> Following(session, c, credential, uploads) && Collecting(session, sink)
                   && session.blocks == old(session.blocks)
  {
    hide SessionOpens;
    hide Fetch;
    hide ParseSmbEncrypted;
    hide ReceiveDecryptSession.Valid;
    hide ReceiveDecryptSession.Remaining;
    hide ReceivePlaintextAccumulator.Written;
    if IsSegmented(session.metadata.segmentCode) {
      ExportFits(session);
    }
    ok := sink.DrainSession(session);
  }

  /** Feeds one blob and drains what it makes ready. */
  method FeedAndDrain(session: ReceiveDecryptSession, sink: ReceivePlaintextAccumulator, ghost c: Crypto,
                      ghost credential: Bytes, ghost uploads: UploadMap, index: nat, data: Bytes)
    returns (ok: bool)
    requires Following(session, c, credential, uploads) && Collecting(session, sink)
    requires index == |session.blocks| + 1 < session.metadata.numTokens
    requires var token := c.uploadToken(session.parts.searchCode, index);
             token in uploads && uploads[token] == data
    modifies session, sink`offset, sink.buffer
    ensures ok ==> Following(session, c, credential, uploads) && Collecting(session, sink)
                   && |session.blocks| == index && IsSegmented(session.metadata.segmentCode)
    ensures !ok ==> ReceiveStreamed(c, credential, uploads).None? || !IsSegmented(session.metadata.segmentCode)
  {
    hide Following;
    hide ReceiveStreamed;
    hide ReceivePlaintextAccumulator.Written;
    var added := FeedBlob(session, c, credential, uploads, index, data);
    if !added {
      return false;
    }
    ok := DrainBetween(session, sink, c, credential, uploads);
  }

  method NewSink(session: ReceiveDecryptSession) returns (sink: ReceivePlaintextAccumulator)
    requires session.exported == []
    ensures fresh(sink) && fresh(sink.buffer) && Collecting(session, sink)
  {
    sink := new ReceivePlaintextAccumulator(session.originalLength);
  }

  /** Finishes the session and drains the rest: the blob is what the uninterrupted run returns. */
  method FinalizeReceiveDecryptToBlob(session: ReceiveDecryptSession, sink: ReceivePlaintextAccumulator,
                                      ghost c: Crypto, ghost credential: Bytes, ghost uploads: UploadMap)
    returns (r: Option<Bytes>)
    requires Following(session, c, credential, uploads) && Collecting(session, sink)
    requires session.nextTokenIndex == session.metadata.numTokens
    modifies session, sink`offset, sink.buffer
    ensures r == ReceiveStreamed(c, credential, uploads)
  {
    hide ParseSmbEncrypted;
    hide RootOf;
    hide DecryptCiphertext;
    hide Flatten;
    hide ReceiveStreamed;
    hide LeafOfLast;
    hide Following;
    hide ReceiveDecryptSession.Valid;
    hide ReceiveDecryptSession.Remaining;
    hide ReceivePlaintextAccumulator.Written;
    SessionFollows(session, c, credential, uploads);
    AllFetched(session, c, credential, uploads);
    FileLength(session, session.fed + session.LastLogicalBlock());
    var done := session.CompleteFinalize();
    if !done {
      return None;
    }
    var drained := sink.DrainSession(session);
    if !drained {
      return None;
    }
    r := sink.ToBlob();
  }

  lemma FileLength(session: ReceiveDecryptSession, stream: Bytes)
    requires session.Valid()
    ensures DecryptCiphertext(session.crypto, session.parts, session.metadata, stream).Some? ==>
              |DecryptCiphertext(session.crypto, session.parts, session.metadata, stream).value|
              == session.originalLength
  {
    hide DecryptCiphertext;
    hide ReceiveDecryptSession.Queue;
    hide ReceiveDecryptSession.KeyKnown;
    hide ReceiveDecryptSession.Decoded;
    hide ReceiveDecryptSession.Received;
    session.LengthOfFile(stream);
  }

  /** What a large download comes to: two or more tokens in whole-file mode cannot be drained. */
  function LargeFileDownloaded(c: Crypto, credential: Bytes, uploads: UploadMap, m: SmbMetadata): Option<Bytes> {
    if IsWholeFile(m.segmentCode) && 2 <= m.numTokens then None else ReceiveStreamed(c, credential, uploads)
  }

  ghost predicate NoneCancelled(c: Crypto, searchCode: Bytes, cancelled: set<Bytes>, lo: nat, hi: nat) {
    forall i | lo <= i < hi :: c.uploadToken(searchCode, i) !in cancelled
  }

  lemma FollowedMetadata(session: ReceiveDecryptSession, c: Crypto, credential: Bytes, uploads: UploadMap)
    requires Following(session, c, credential, uploads)
    ensures SplitCredential(credential) == Some(session.parts)
    ensures var token0 := c.uploadToken(session.parts.searchCode, 0);
            token0 in uploads && ParseSmbEncrypted(c, credential, uploads[token0]) == Some(session.metadata)
    ensures IsWholeFile(session.metadata.segmentCode) <==> !IsSegmented(session.metadata.segmentCode)
  {
    hide ParseSmbEncrypted;
    hide SessionOpens;
    hide Fetch;
    hide ReceiveDecryptSession.Valid;
    SegmentedOrWhole(session);
  }

  method PrefetchIndexRange(c: Crypto, searchCode: Bytes, transport: ReceiveTransport, lo: nat, hi: nat)
    modifies transport`pending, transport`peak
    ensures transport.pending == old(transport.pending) + (TokenRange(c, searchCode, lo, hi) - transport.cancelled)
    ensures transport.peak == Max(old(transport.peak), |transport.pending|) || (hi <= lo && unchanged(transport))
  {
    if lo >= hi {
      assert TokenRange(c, searchCode, lo, hi) == {};
      return;
    }
    RangeOfTokens(c, searchCode, lo, hi);
    var tokens := DeriveIndexTokens(c, searchCode, lo, hi);
    transport.StartConcurrentGet(tokens.value);
  }

  /** One turn of the window: ask for the tokens that come into it, then wait for the oldest. */
  method FetchInWindow(c: Crypto, searchCode: Bytes, transport: ReceiveTransport, index: nat, totalTokens: nat,
                       concurrentM: nat)
    returns (r: Option<Bytes>)
    requires 1 <= concurrentM && 1 <= index < totalTokens
    requires transport.pending <= TokenRange(c, searchCode, index, Min(totalTokens, index - 1 + concurrentM))
    modifies transport
    ensures transport.cancelled == old(transport.cancelled)
    ensures transport.peak <= Max(old(transport.peak), concurrentM)
    ensures var token := c.uploadToken(searchCode, index);
            && r == (if token in transport.cancelled || token !in transport.delivered then None
                     else Some(transport.delivered[token]))
            && (r.Some? ==>
                  && transport.pending <= TokenRange(c, searchCode, index + 1, Min(totalTokens, index + concurrentM))
                  && transport.consumed == old(transport.consumed) + [token])
  {
    hide TokenRange;
    var windowEnd := Min(totalTokens, index + concurrentM);
    var token := c.uploadToken(searchCode, index);
    ghost var window := TokenRange(c, searchCode, index, windowEnd);
    RangeSize(c, searchCode, index, windowEnd);
    WindowMoves(c, searchCode, index, Min(totalTokens, index - 1 + concurrentM), windowEnd);
    PrefetchIndexRange(c, searchCode, transport, index + 1, windowEnd);
    SubsetSize(transport.pending, window);
    SubsetSize(transport.pending + {token}, window);
    r := transport.Get(token);
  }

  lemma WindowMoves(c: Crypto, searchCode: Bytes, index: nat, before: nat, after: nat)
    requires index < after && before <= after
    ensures var window := TokenRange(c, searchCode, index, after);
            && TokenRange(c, searchCode, index, before) <= window
            && TokenRange(c, searchCode, index + 1, after) <= window
            && c.uploadToken(searchCode, index) in window
            && window - {c.uploadToken(searchCode, index)} <= TokenRange(c, searchCode, index + 1, after)
  {
  }

  lemma NextIndex(c: Crypto, searchCode: Bytes, cancelled: set<Bytes>, consumed: seq<Bytes>, index: nat)
    requires 1 <= index
    ensures NoneCancelled(c, searchCode, cancelled, 1, 1) && IndexTokens(c, searchCode, 1, 1) == []
    ensures NoneCancelled(c, searchCode, cancelled, 1, index + 1)
       <==> NoneCancelled(c, searchCode, cancelled, 1, index) && c.uploadToken(searchCode, index) !in cancelled
    ensures consumed + IndexTokens(c, searchCode, 1, index + 1)
         == consumed + IndexTokens(c, searchCode, 1, index) + [c.uploadToken(searchCode, index)]
  {
  }

  lemma CancelledAt(c: Crypto, searchCode: Bytes, cancelled: set<Bytes>, index: nat, hi: nat)
    requires 1 <= index < hi && c.uploadToken(searchCode, index) in cancelled
    ensures !NoneCancelled(c, searchCode, cancelled, 1, hi)
  {
  }

  /** Tokens 1, 2, ... through a window of `concurrentM` tokens, decrypting on the way. */
  method DecryptDownloadedLargeFile(c: Crypto, credential: Bytes, parts: CredentialParts, token0Wire: Bytes,
                                    m: SmbMetadata, transport: ReceiveTransport, concurrentM: nat)
    returns (r: Option<Bytes>)
    requires SplitCredential(credential) == Some(parts) && 1 <= concurrentM
    requires var token0 := c.uploadToken(parts.searchCode, 0);
             token0 in transport.delivered && transport.delivered[token0] == token0Wire
    requires ParseSmbEncrypted(c, credential, token0Wire) == Some(m)
    requires transport.pending <= TokenRange(c, parts.searchCode, 1, Min(m.numTokens, concurrentM))
    modifies transport
    ensures transport.peak <= Max(old(transport.peak), concurrentM)
    ensures transport.cancelled == old(transport.cancelled)
    ensures NoneCancelled(c, parts.searchCode, transport.cancelled, 1, m.numTokens) ==>
              r == LargeFileDownloaded(c, credential, transport.delivered, m)
    ensures r.Some? ==>
              && NoneCancelled(c, parts.searchCode, transport.cancelled, 1, m.numTokens)
              && 1 <= m.numTokens
              && transport.consumed
                 == old(transport.consumed) + IndexTokens(c, parts.searchCode, 1, m.numTokens)
  {
    hide SessionOpens;
    hide ParseSmbEncrypted;
    hide ReceiveStreamed;
    hide Following;
    hide TokenRange;
    hide NoneCancelled;
    hide IndexTokens;
    hide Collecting;
    hide ReceiveDecryptSession.Valid;
    var session := OpenRun(c, credential, transport.delivered);
    if session == null {
      return None;
    }
    var sink := NewSink(session);
    ghost var uploads, searchCode := transport.delivered, parts.searchCode;
    assert transport.consumed + [] == transport.consumed;
    FollowedMetadata(session, c, credential, uploads);
    NextIndex(c, searchCode, transport.cancelled, [], 1);
    var index := 1;
    while index < m.numTokens
      invariant 1 <= index <= m.numTokens && fresh(session) && fresh(sink) && fresh(sink.buffer)
      invariant Following(session, c, credential, uploads) && Collecting(session, sink)
      invariant |session.blocks| + 1 == index && session.metadata == m && session.parts == parts
      invariant transport.cancelled == old(transport.cancelled)
      invariant transport.peak <= Max(old(transport.peak), concurrentM)
      invariant transport.pending <= TokenRange(c, searchCode, index, Min(m.numTokens, index - 1 + concurrentM))
      invariant NoneCancelled(c, searchCode, transport.cancelled, 1, index)
      invariant transport.consumed == old(transport.consumed) + IndexTokens(c, searchCode, 1, index)
      invariant IsWholeFile(m.segmentCode) ==> index == 1
    {
      NextIndex(c, searchCode, transport.cancelled, old(transport.consumed), index);
      var fetched := FetchInWindow(c, parts.searchCode, transport, index, m.numTokens, concurrentM);
      if fetched.None? || |fetched.value| != m.wireBlockSize {
        if c.uploadToken(searchCode, index) in transport.cancelled {
          CancelledAt(c, searchCode, transport.cancelled, index, m.numTokens);
        } else {
          NextMissing(session, c, credential, uploads);
        }
        return None;
      }
      var drained := FeedAndDrain(session, sink, c, credential, uploads, index, fetched.value);
      if !drained {
        return None;
      }
      index := index + 1;
    }
    SessionFollows(session, c, credential, uploads);
    r := FinalizeReceiveDecryptToBlob(session, sink, c, credential, uploads);
  }

  // ---------- The small-file download ----------

  // The map holds the first `count` blobs of `uploads`.
  ghost predicate Copied(c: Crypto, searchCode: Bytes, copy: UploadMap, uploads: UploadMap, count: nat) {
    forall i | 0 <= i < count ::
      var token := c.uploadToken(searchCode, i);
      token in copy && token in uploads && copy[token] == uploads[token]
  }

  lemma {:induction false} CopyFetches(c: Crypto, searchCode: Bytes, copy: UploadMap, uploads: UploadMap, wire: nat,
                                       count: nat)
    requires Copied(c, searchCode, copy, uploads, count + 1)
    ensures Fetch(c, copy, searchCode, wire, count) == Fetch(c, uploads, searchCode, wire, count)
  {
    if count > 0 {
      CopyFetches(c, searchCode, copy, uploads, wire, count - 1);
    }
  }

  lemma CopyReceives(c: Crypto, credential: Bytes, parts: CredentialParts, copy: UploadMap, uploads: UploadMap,
                     m: SmbMetadata)
    requires SplitCredential(credential) == Some(parts)
    requires Copied(c, parts.searchCode, copy, uploads, Max(1, m.numTokens))
    requires ParseSmbEncrypted(c, credential, uploads[c.uploadToken(parts.searchCode, 0)]) == Some(m)
    ensures Receive(c, credential, copy) == Receive(c, credential, uploads)
  {
    hide ParseSmbEncrypted;
    hide Fetch;
    hide RootOf;
    hide DecryptCiphertext;
    if 0 < m.numTokens {
      CopyFetches(c, parts.searchCode, copy, uploads, m.wireBlockSize, m.numTokens - 1);
    }
  }

  lemma ReceiveNeedsBlob(c: Crypto, credential: Bytes, parts: CredentialParts, uploads: UploadMap, m: SmbMetadata,
                         index: nat)
    requires SplitCredential(credential) == Some(parts) && 1 <= index < m.numTokens
    requires c.uploadToken(parts.searchCode, 0) in uploads
    requires ParseSmbEncrypted(c, credential, uploads[c.uploadToken(parts.searchCode, 0)]) == Some(m)
    requires Fetch(c, uploads, parts.searchCode, m.wireBlockSize, index - 1).Some?
    requires var token := c.uploadToken(parts.searchCode, index);
             token !in uploads || |uploads[token]| != m.wireBlockSize
    ensures Receive(c, credential, uploads).None?
  {
    hide ParseSmbEncrypted;
    hide Fetch;
    hide RootOf;
    hide DecryptCiphertext;
    FetchNext(c, uploads, parts.searchCode, m.wireBlockSize, index);
    FetchStops(c, uploads, parts.searchCode, m.wireBlockSize, index, m.numTokens - 1);
  }

  lemma TokenInRange(c: Crypto, searchCode: Bytes, lo: nat, hi: nat, i: nat)
    requires lo <= i < hi
    ensures c.uploadToken(searchCode, i) in TokenRange(c, searchCode, lo, hi)
  {
  }

  /** All tokens first, then the batch receiver on the collected map. */
  method DownloadSmallFile(c: Crypto, credential: Bytes, parts: CredentialParts, token0Wire: Bytes, m: SmbMetadata,
                           transport: ReceiveTransport)
    returns (r: Option<Bytes>)
    requires SplitCredential(credential) == Some(parts)
    requires var token0 := c.uploadToken(parts.searchCode, 0);
             token0 in transport.delivered && transport.delivered[token0] == token0Wire
    requires ParseSmbEncrypted(c, credential, token0Wire) == Some(m)
    requires transport.pending <= TokenRange(c, parts.searchCode, 1, m.numTokens)
    modifies transport
    ensures transport.peak <= Max(old(transport.peak), m.numTokens)
    ensures transport.cancelled == old(transport.cancelled)
    ensures NoneCancelled(c, parts.searchCode, transport.cancelled, 1, m.numTokens) ==>
              r == Receive(c, credential, transport.delivered)
    ensures r.Some? ==>
              && NoneCancelled(c, parts.searchCode, transport.cancelled, 1, m.numTokens)
              && transport.consumed
                 == old(transport.consumed) + IndexTokens(c, parts.searchCode, 1, Max(1, m.numTokens))
  {
    hide ParseSmbEncrypted;
    hide Receive;
    hide Fetch;
    hide TokenRange;
    var searchCode, token0 := parts.searchCode, c.uploadToken(parts.searchCode, 0);
    ghost var window := TokenRange(c, searchCode, 1, m.numTokens);
    RangeSize(c, searchCode, 1, m.numTokens);
    var uploads: UploadMap := map[token0 := token0Wire];
    FetchesNothing(c, transport.delivered, searchCode, m.wireBlockSize);
    assert transport.consumed + [] == transport.consumed;
    var index := 1;
    while index < m.numTokens
      invariant 1 <= index <= Max(1, m.numTokens)
      invariant transport.cancelled == old(transport.cancelled)
      invariant Copied(c, searchCode, uploads, transport.delivered, index)
      invariant Fetch(c, transport.delivered, searchCode, m.wireBlockSize, index - 1).Some?
      invariant NoneCancelled(c, searchCode, transport.cancelled, 1, index)
      invariant transport.consumed == old(transport.consumed) + IndexTokens(c, searchCode, 1, index)
      invariant transport.pending <= window && transport.peak <= Max(old(transport.peak), m.numTokens)
    {
      var token := c.uploadToken(searchCode, index);
      TokenInRange(c, searchCode, 1, m.numTokens, index);
      SubsetSize(transport.pending + {token}, window);
      var data := transport.Get(token);
      FetchNext(c, transport.delivered, searchCode, m.wireBlockSize, index);
      if data.None? || |data.value| != m.wireBlockSize {
        if token !in transport.cancelled {
          ReceiveNeedsBlob(c, credential, parts, transport.delivered, m, index);
        }
        return None;
      }
      uploads := uploads[token := data.value];
      index := index + 1;
    }
    CopyReceives(c, credential, parts, uploads, transport.delivered, m);
    r := ReceiveFromUploadMap(c, credential, uploads);
  }

  lemma FetchesNothing(c: Crypto, uploads: UploadMap, searchCode: Bytes, wire: nat)
    ensures Fetch(c, uploads, searchCode, wire, 0) == Some([])
  {
  }

  // ---------- The whole download ----------

  /** The relays' body ceiling was below the wire size, and the narrower window cancelled needed tokens. */
  predicate LosesTokens(m: SmbMetadata, options: DownloadOptions) {
    var window := ReceivePrefetchCount(m.wireBlockSize, options);
    window < ReceivePrefetchCount(0, options) && window < m.numTokens
  }

  function Downloaded(c: Crypto, credential: Bytes, uploads: UploadMap, options: DownloadOptions): Option<Bytes> {
    var parts :- SplitCredential(credential);
    var token0 := c.uploadToken(parts.searchCode, 0);
    if ReceivePrefetchCount(0, options) <= 0 || token0 !in uploads then None
    else
      var m :- ParseSmbEncrypted(c, credential, uploads[token0]);
      if |uploads[token0]| != m.wireBlockSize || LosesTokens(m, options) then None
      else if m.originalFileLength > V21_WHOLE_FILE_THRESHOLD_BYTES then LargeFileDownloaded(c, credential, uploads, m)
      else Receive(c, credential, uploads)
  }

  // The indices a download derives tokens for.
  function IndexBound(c: Crypto, credential: Bytes, uploads: UploadMap, options: DownloadOptions): nat {
    var initial := Max(1, ReceivePrefetchCount(0, options));
    match SplitCredential(credential)
    case None => initial
    case Some(parts) =>
      var token0 := c.uploadToken(parts.searchCode, 0);
      if token0 !in uploads then initial
      else
        match ParseSmbEncrypted(c, credential, uploads[token0])
        case None => initial
        case Some(m) => Max(initial, Max(ReceivePrefetchCount(m.wireBlockSize, options), m.numTokens))
  }

  /** What pending wire bytes are bounded by: the budget or two blocks, and for small files the whole upload. */
  function PendingBound(m: SmbMetadata, options: DownloadOptions): nat {
    var small := m.originalFileLength <= 0x100_0000;
    Max(Max(options.memoryBudgetBytes, 2 * m.wireBlockSize), if small then m.numTokens * m.wireBlockSize else 0)
  }

  // The download gets to know the metadata.
  predicate MetadataRead(c: Crypto, credential: Bytes, uploads: UploadMap, options: DownloadOptions, m: SmbMetadata) {
    && 1 <= ReceivePrefetchCount(0, options)
    && SplitCredential(credential).Some?
    && var token0 := c.uploadToken(SplitCredential(credential).value.searchCode, 0);
    && token0 in uploads && |uploads[token0]| == m.wireBlockSize
    && ParseSmbEncrypted(c, credential, uploads[token0]) == Some(m)
  }

  lemma WindowIsPositive(wireBlockBytes: nat, options: DownloadOptions)
    requires 1 <= ReceivePrefetchCount(0, options)
    ensures 1 <= ReceivePrefetchCount(wireBlockBytes, options)
  {
  }

  lemma FirstConsumed(c: Crypto, searchCode: Bytes, hi: nat)
    ensures TokenRange(c, searchCode, 0, hi) - {c.uploadToken(searchCode, 0)} <= TokenRange(c, searchCode, 1, hi)
  {
  }

  lemma PeakWithinBudget(peak: nat, wireBlockBytes: nat, options: DownloadOptions)
    requires 0 < wireBlockBytes && peak <= ReceivePrefetchCount(wireBlockBytes, options)
    ensures options.browser && options.initialTokens.None? ==>
              peak * wireBlockBytes <= Max(options.memoryBudgetBytes, 2 * wireBlockBytes)
  {
    hide ReceivePrefetchCount;
    if options.browser && options.initialTokens.None? {
      WindowFitsBudget(wireBlockBytes, options);
      MulMonotone(peak, ReceivePrefetchCount(wireBlockBytes, options), wireBlockBytes);
    }
  }

  lemma StreamedLength(c: Crypto, credential: Bytes, uploads: UploadMap, m: SmbMetadata)
    requires SplitCredential(credential).Some?
    requires var token0 := c.uploadToken(SplitCredential(credential).value.searchCode, 0);
             token0 in uploads && ParseSmbEncrypted(c, credential, uploads[token0]) == Some(m)
    ensures LargeFileDownloaded(c, credential, uploads, m).Some? ==>
              |LargeFileDownloaded(c, credential, uploads, m).value| == m.originalFileLength
  {
    hide ParseSmbEncrypted;
    hide SessionOpens;
    hide Fetch;
    hide RootOf;
    hide PaddedLength;
    hide DecryptPayload;
  }

  /** Once the metadata is known: cancel what lies beyond the new window or beyond the last token. */
  method CancelSurplus(c: Crypto, searchCode: Bytes, transport: ReceiveTransport, estimatedM: nat, concurrentM: nat,
                       plan: ReceiveDownloadPlan)
    requires 1 <= concurrentM
    requires plan.cancelAfterSmb == IndexTokens(c, searchCode, Min(concurrentM, plan.numTokens), concurrentM)
    requires transport.cancelled == {} && transport.pending <= TokenRange(c, searchCode, 1, estimatedM)
    modifies transport
    ensures transport.pending <= TokenRange(c, searchCode, 1, Min(plan.numTokens, concurrentM))
    ensures transport.cancelled == TokenRange(c, searchCode, concurrentM, estimatedM)
                                   + TokenRange(c, searchCode, Min(concurrentM, plan.numTokens), concurrentM)
    ensures transport.consumed == old(transport.consumed)
  {
    if estimatedM > concurrentM {
      RangeOfTokens(c, searchCode, concurrentM, estimatedM);
      var tokens := DeriveIndexTokens(c, searchCode, concurrentM, estimatedM);
      transport.CancelPending(tokens.value);
    }
    RangeOfTokens(c, searchCode, Min(concurrentM, plan.numTokens), concurrentM);
    if plan.cancelAfterSmb != [] {
      transport.CancelPending(plan.cancelAfterSmb);
    }
  }

  lemma CancelsNeeded(c: Crypto, searchCode: Bytes, m: SmbMetadata, options: DownloadOptions, count: nat)
    requires TokensDistinct(c, searchCode, count) && 1 <= ReceivePrefetchCount(m.wireBlockSize, options) <= count
    requires 1 <= ReceivePrefetchCount(0, options) <= count && m.numTokens <= count
    ensures var estimatedM, concurrentM := ReceivePrefetchCount(0, options),
                                           ReceivePrefetchCount(m.wireBlockSize, options);
            var cancelled := TokenRange(c, searchCode, concurrentM, estimatedM)
                             + TokenRange(c, searchCode, Min(concurrentM, m.numTokens), concurrentM);
            NoneCancelled(c, searchCode, cancelled, 1, m.numTokens) <==> !LosesTokens(m, options)
  {
    hide ReceivePrefetchCount;
    hide TokenRange;
    hide TokensDistinct;
    var estimatedM, concurrentM := ReceivePrefetchCount(0, options),
                                   ReceivePrefetchCount(m.wireBlockSize, options);
    forall i | 1 <= i < m.numTokens
      ensures c.uploadToken(searchCode, i) in TokenRange(c, searchCode, concurrentM, estimatedM)
         <==> concurrentM <= i < estimatedM
      ensures c.uploadToken(searchCode, i)
              !in TokenRange(c, searchCode, Min(concurrentM, m.numTokens), concurrentM)
    {
      InRange(c, searchCode, concurrentM, estimatedM, count, i);
      InRange(c, searchCode, Min(concurrentM, m.numTokens), concurrentM, count, i);
    }
    if LosesTokens(m, options) {
      assert c.uploadToken(searchCode, concurrentM) in TokenRange(c, searchCode, concurrentM, estimatedM);
    }
  }

  /** The download once the metadata is known. */
  method DownloadRest(c: Crypto, credential: Bytes, parts: CredentialParts, token0Wire: Bytes, m: SmbMetadata,
                      transport: ReceiveTransport, options: DownloadOptions)
    returns (r: Option<Bytes>)
    requires SplitCredential(credential) == Some(parts) && 1 <= ReceivePrefetchCount(0, options)
    requires var token0 := c.uploadToken(parts.searchCode, 0);
             token0 in transport.delivered && transport.delivered[token0] == token0Wire
    requires ParseSmbEncrypted(c, credential, token0Wire) == Some(m)
    requires TokensDistinct(c, parts.searchCode, IndexBound(c, credential, transport.delivered, options))
    requires transport.cancelled == {}
    requires transport.pending <= TokenRange(c, parts.searchCode, 1, ReceivePrefetchCount(0, options))
    modifies transport
    ensures r == if LosesTokens(m, options) then None
                 else if m.originalFileLength > V21_WHOLE_FILE_THRESHOLD_BYTES
                 then LargeFileDownloaded(c, credential, transport.delivered, m)
                 else Receive(c, credential, transport.delivered)
    ensures options.browser && options.initialTokens.None? && 0 < m.wireBlockSize ==>
              transport.peak * m.wireBlockSize <= PendingBound(m, options)
  {
    hide ParseSmbEncrypted;
    hide Receive;
    hide ReceivePrefetchCount;
    hide TokenRange;
    hide TokensDistinct;
    hide LargeFileDownloaded;
    hide NoneCancelled;
    hide LosesTokens;
    var searchCode := parts.searchCode;
    var estimatedM := ReceivePrefetchCount(0, options);
    var concurrentM := ReceivePrefetchCount(m.wireBlockSize, options);
    WindowIsPositive(m.wireBlockSize, options);
    var plan := ComputeReceiveDownloadPlan(c, searchCode, concurrentM, m.numTokens);
    CancelSurplus(c, searchCode, transport, estimatedM, concurrentM, plan.value);
    CancelsNeeded(c, searchCode, m, options, IndexBound(c, credential, transport.delivered, options));
    transport.ResetPeak();
    RangeSize(c, searchCode, 1, Min(m.numTokens, concurrentM));
    SubsetSize(transport.pending, TokenRange(c, searchCode, 1, Min(m.numTokens, concurrentM)));
    if m.originalFileLength > V21_WHOLE_FILE_THRESHOLD_BYTES {
      r := DecryptDownloadedLargeFile(c, credential, parts, token0Wire, m, transport, concurrentM);
      if 0 < m.wireBlockSize {
        PeakWithinBudget(transport.peak, m.wireBlockSize, options);
      }
      StreamedLength(c, credential, transport.delivered, m);
      r := if r.Some? && |r.value| != m.originalFileLength then None else r;
      return;
    }
    StartRemaining(c, searchCode, transport, plan.value, concurrentM);
    r := DownloadSmallFile(c, credential, parts, token0Wire, m, transport);
    MulMonotone(transport.peak, m.numTokens, m.wireBlockSize);
  }

  // Small files: all tokens behind the window at once.
  method StartRemaining(c: Crypto, searchCode: Bytes, transport: ReceiveTransport, plan: ReceiveDownloadPlan,
                        concurrentM: nat)
    requires 1 <= concurrentM
    requires plan.fetchAfterSmb == IndexTokens(c, searchCode, Min(concurrentM, plan.numTokens), plan.numTokens)
    requires transport.pending <= TokenRange(c, searchCode, 1, Min(plan.numTokens, concurrentM))
    requires transport.peak <= plan.numTokens
    modifies transport
    ensures transport.pending <= TokenRange(c, searchCode, 1, plan.numTokens)
    ensures transport.peak <= plan.numTokens
    ensures transport.cancelled == old(transport.cancelled)
  {
    RangeOfTokens(c, searchCode, Min(concurrentM, plan.numTokens), plan.numTokens);
    RangeSize(c, searchCode, 1, plan.numTokens);
    if plan.fetchAfterSmb != [] {
      transport.StartConcurrentGet(plan.fetchAfterSmb);
      SubsetSize(transport.pending, TokenRange(c, searchCode, 1, plan.numTokens));
    }
  }

  /**
   The adaptive download returns exactly what the receivers make of the stored map, unless
   learning the wire size cancels a needed token; once the metadata is known a download in a browser
   never has more wire bytes pending than `PendingBound` allows.
   */
  method DownloadAdaptive(c: Crypto, credential: Bytes, transport: ReceiveTransport, options: DownloadOptions)
    returns (r: Option<Bytes>)
    requires transport.pending == {} && transport.cancelled == {}
    requires SplitCredential(credential).Some? ==>
               TokensDistinct(c, SplitCredential(credential).value.searchCode,
                              IndexBound(c, credential, transport.delivered, options))
    modifies transport
    ensures r == Downloaded(c, credential, transport.delivered, options)
    ensures forall m | MetadataRead(c, credential, transport.delivered, options, m) && options.browser
                       && options.initialTokens.None? ::
              transport.peak * m.wireBlockSize <= PendingBound(m, options)
  {
    hide ParseSmbEncrypted;
    hide Receive;
    hide ReceiveStreamed;
    hide ReceivePrefetchCount;
    hide TokenRange;
    hide TokensDistinct;
    hide LargeFileDownloaded;
    hide NoneCancelled;
    hide LosesTokens;
    var estimatedM := ReceivePrefetchCount(0, options);
    if estimatedM <= 0 {
      return None;
    }
    var parts := SplitCredential(credential);
    if parts.None? {
      return None;
    }
    var searchCode := parts.value.searchCode;
    var token0 := c.uploadToken(searchCode, 0);
    PrefetchIndexRange(c, searchCode, transport, 0, estimatedM);
    var token0Wire := transport.Get(token0);
    if token0Wire.None? {
      return None;
    }
    var metadata := ParseSmb(c, credential, token0Wire.value);
    if metadata.None? || |token0Wire.value| != metadata.value.wireBlockSize {
      return None;
    }
    FirstConsumed(c, searchCode, estimatedM);
    r := DownloadRest(c, credential, parts.value, token0Wire.value, metadata.value, transport, options);
  }

  // ---------- What a download gives ----------

  /** A wire size within the relay's announced body ceiling never cancels a needed token. */
  lemma WithinCeilingLosesNothing(m: SmbMetadata, options: DownloadOptions)
    requires m.wireBlockSize <= options.relayMaxBodyBytes
    ensures !LosesTokens(m, options)
  {
    WindowOnlyWidens(m.wireBlockSize, options);
  }

  /** Above it they can be, with every upload of at least three tokens: a window of 64 shrinks to 2. */
  lemma NeededTokensCanBeLost(c: Crypto, tape: Tape, request: UploadRequest, file: Bytes)
    returns (options: DownloadOptions)
    requires Ideal(c) && Encode(c, tape, request, file).Some? && Receivable(request, file)
    requires FitsIntegers(WireLayoutFor(|file|, request.segmentCode, request.maxWireBlockBytes).value, |file|)
    requires TokensDistinct(c, SplitCredential(request.credential).value.searchCode,
                            |Encode(c, tape, request, file).value|)
    requires 3 <= WireLayoutFor(|file|, request.segmentCode, request.maxWireBlockBytes).value.numTokens
    ensures options.browser
    ensures var searchCode := SplitCredential(request.credential).value.searchCode;
            var uploads := MapOf(c, searchCode, Encode(c, tape, request, file).value);
            && Receive(c, request.credential, uploads) == Some(file)
            && Downloaded(c, request.credential, uploads, options).None?
  {
    hide Search;
    hide Encode;
    hide MapOf;
    hide Levels;
    hide Print;
    hide ParseSmbEncrypted;
    hide Receive;
    hide ReceiveStreamed;
    hide Normalize;
    hide TokensDistinct;
    hide LosesTokens;
    hide Ideal;
    var h := PreparedMetadata(c, tape, request, file);
    ReceivePrepared(c, tape, request, file);
    SearchIsExact(|file|, request.segmentCode, request.maxWireBlockBytes, 0);
    options := DownloadOptions(None, 1, h.metadata.wireBlockSize, true);
    NarrowWindowLoses(WithoutLevels(h.metadata), options);
  }

  lemma NarrowWindowLoses(m: SmbMetadata, options: DownloadOptions)
    requires SM_ENC_BYTES <= m.wireBlockSize && 3 <= m.numTokens
    requires options == DownloadOptions(None, 1, m.wireBlockSize, true)
    ensures LosesTokens(m, options)
  {
    DivUnique(m.wireBlockSize, m.wireBlockSize, 1);
  }

  /** No whole file of more than 16 MiB can be downloaded, though the batch receiver gives it back. */
  lemma LargeWholeFileFails(c: Crypto, tape: Tape, request: UploadRequest, file: Bytes, options: DownloadOptions)
    requires Ideal(c) && Encode(c, tape, request, file).Some? && Receivable(request, file)
    requires FitsIntegers(WireLayoutFor(|file|, request.segmentCode, request.maxWireBlockBytes).value, |file|)
    requires TokensDistinct(c, SplitCredential(request.credential).value.searchCode,
                            |Encode(c, tape, request, file).value|)
    requires IsWholeFile(request.segmentCode) && |file| > 0x100_0000
    ensures var searchCode := SplitCredential(request.credential).value.searchCode;
            var uploads := MapOf(c, searchCode, Encode(c, tape, request, file).value);
            && Receive(c, request.credential, uploads) == Some(file)
            && Downloaded(c, request.credential, uploads, options).None?
  {
    hide Search;
    hide Encode;
    hide MapOf;
    hide Levels;
    hide Print;
    hide ParseSmbEncrypted;
    hide Receive;
    hide ReceiveStreamed;
    hide ReceivePrefetchCount;
    hide Normalize;
    hide TokensDistinct;
    hide LosesTokens;
    var h := PreparedMetadata(c, tape, request, file);
    ReceivePrepared(c, tape, request, file);
    LargeFilesHaveSeveralTokens(|file|, request.segmentCode, request.maxWireBlockBytes);
  }

  /**
   Of an upload made under the relay's body ceiling the download returns the file if and only if it
   has at most 16 MiB or is segmented (large files: with a non-empty last block).
   */
  lemma DownloadExact(c: Crypto, tape: Tape, request: UploadRequest, file: Bytes, options: DownloadOptions)
    requires Ideal(c) && Encode(c, tape, request, file).Some? && Receivable(request, file)
    requires FitsIntegers(WireLayoutFor(|file|, request.segmentCode, request.maxWireBlockBytes).value, |file|)
    requires TokensDistinct(c, SplitCredential(request.credential).value.searchCode,
                            |Encode(c, tape, request, file).value|)
    requires 1 <= ReceivePrefetchCount(0, options) && request.maxWireBlockBytes <= options.relayMaxBodyBytes
    requires |file| > 0x100_0000 ==>
               WireLayoutFor(|file|, request.segmentCode, request.maxWireBlockBytes).value.lastBlockLength > 0
    ensures var searchCode := SplitCredential(request.credential).value.searchCode;
            var uploads := MapOf(c, searchCode, Encode(c, tape, request, file).value);
            Downloaded(c, request.credential, uploads, options) == Some(file)
            <==> |file| <= 0x100_0000 || IsSegmented(request.segmentCode)
  {
    hide Encode;
    hide MapOf;
    hide Search;
    hide Downloaded;
    hide Receive;
    hide Receivable;
    hide TokensDistinct;
    hide ReceivePrefetchCount;
    hide Ideal;
    EncodeHasLayout(c, tape, request, file);
    if |file| <= 0x100_0000 || IsSegmented(request.segmentCode) {
      DownloadPrepared(c, tape, request, file, options);
    } else {
      LargeWholeFileFails(c, tape, request, file, options);
    }
  }

  /**
   The uploads a client makes, whole files up to 16 MiB and segmented ones above, never have more
   than the budget or two blocks pending, for every budget from 32 MiB.
   */
  lemma ClientUploadsStayInBudget(c: Crypto, tape: Tape, request: UploadRequest, file: Bytes,
                                  options: DownloadOptions)
    requires Ideal(c) && Encode(c, tape, request, file).Some? && Receivable(request, file)
    requires FitsIntegers(WireLayoutFor(|file|, request.segmentCode, request.maxWireBlockBytes).value, |file|)
    requires TokensDistinct(c, SplitCredential(request.credential).value.searchCode,
                            |Encode(c, tape, request, file).value|)
    requires IsWholeFile(request.segmentCode) <==> |file| <= 0x100_0000
    requires 32 * 1024 * 1024 <= options.memoryBudgetBytes
    ensures var uploads := MapOf(c, SplitCredential(request.credential).value.searchCode,
                                 Encode(c, tape, request, file).value);
            forall m | MetadataRead(c, request.credential, uploads, options, m) ::
              PendingBound(m, options) == Max(options.memoryBudgetBytes, 2 * m.wireBlockSize)
  {
    hide Search;
    hide Encode;
    hide MapOf;
    hide Levels;
    hide Print;
    hide ParseSmbEncrypted;
    hide ReceivePrefetchCount;
    hide Normalize;
    hide TokensDistinct;
    hide Ideal;
    var h := PreparedMetadata(c, tape, request, file);
    if IsWholeFile(request.segmentCode) {
      SearchIsExact(|file|, request.segmentCode, request.maxWireBlockBytes, 0);
      SmallWholeFilesStaySmall(|file|, request.maxWireBlockBytes);
    }
  }

  /** Of an upload made under the relay's body ceiling the download returns exactly the file. */
  lemma DownloadPrepared(c: Crypto, tape: Tape, request: UploadRequest, file: Bytes, options: DownloadOptions)
    requires Ideal(c) && Encode(c, tape, request, file).Some? && Receivable(request, file)
    requires FitsIntegers(WireLayoutFor(|file|, request.segmentCode, request.maxWireBlockBytes).value, |file|)
    requires TokensDistinct(c, SplitCredential(request.credential).value.searchCode,
                            |Encode(c, tape, request, file).value|)
    requires 1 <= ReceivePrefetchCount(0, options) && request.maxWireBlockBytes <= options.relayMaxBodyBytes
    requires |file| > 0x100_0000 ==>
               && IsSegmented(request.segmentCode)
               && WireLayoutFor(|file|, request.segmentCode, request.maxWireBlockBytes).value.lastBlockLength > 0
    ensures var searchCode := SplitCredential(request.credential).value.searchCode;
            var uploads := MapOf(c, searchCode, Encode(c, tape, request, file).value);
            Downloaded(c, request.credential, uploads, options) == Some(file)
  {
    hide Search;
    hide Encode;
    hide MapOf;
    hide Levels;
    hide Print;
    hide ParseSmbEncrypted;
    hide Receive;
    hide ReceiveStreamed;
    hide ReceivePrefetchCount;
    hide Normalize;
    hide TokensDistinct;
    hide LosesTokens;
    var h := PreparedMetadata(c, tape, request, file);
    WithinCeilingLosesNothing(WithoutLevels(h.metadata), options);
    if |file| > 0x100_0000 {
      var _, _ := StreamPrepared(c, tape, request, file);
    } else {
      ReceivePrepared(c, tape, request, file);
    }
  }

  /** Of `stored`, some blobs get through. */
  ghost predicate PartOf(delivered: UploadMap, stored: UploadMap) {
    forall t | t in delivered :: t in stored && delivered[t] == stored[t]
  }

  lemma {:induction false} PartFetches(c: Crypto, searchCode: Bytes, delivered: UploadMap, stored: UploadMap,
                                       wire: nat, count: nat)
    requires PartOf(delivered, stored)
    ensures Fetch(c, delivered, searchCode, wire, count).Some? ==>
              Fetch(c, stored, searchCode, wire, count) == Fetch(c, delivered, searchCode, wire, count)
  {
    if count > 0 {
      PartFetches(c, searchCode, delivered, stored, wire, count - 1);
    }
  }

  lemma PartReceives(c: Crypto, credential: Bytes, delivered: UploadMap, stored: UploadMap)
    requires PartOf(delivered, stored)
    ensures var r := Receive(c, credential, delivered); r.None? || r == Receive(c, credential, stored)
    ensures var r := ReceiveStreamed(c, credential, delivered);
            r.None? || r == ReceiveStreamed(c, credential, stored)
  {
    hide ParseSmbEncrypted;
    hide SessionOpens;
    hide Fetch;
    hide RootOf;
    hide DecryptCiphertext;
    var parts := SplitCredential(credential);
    if parts.Some? && c.uploadToken(parts.value.searchCode, 0) in delivered {
      var token0 := delivered[c.uploadToken(parts.value.searchCode, 0)];
      var m := ParseSmbEncrypted(c, credential, token0);
      if m.Some? && 1 <= m.value.numTokens {
        PartFetches(c, parts.value.searchCode, delivered, stored, m.value.wireBlockSize, m.value.numTokens - 1);
      }
      OpensWithTokens(c, credential, token0);
    }
  }

  lemma OpensWithTokens(c: Crypto, credential: Bytes, token0: Bytes)
    ensures SessionOpens(c, credential, token0) ==>
              ParseSmbEncrypted(c, credential, token0).Some?
              && 1 <= ParseSmbEncrypted(c, credential, token0).value.numTokens
  {
    hide ParseSmbEncrypted;
  }

  /** Relays that lose blobs make a download fail; they never make it return anything else. */
  lemma LostBlobsOnlyFail(c: Crypto, credential: Bytes, delivered: UploadMap, stored: UploadMap,
                          options: DownloadOptions)
    requires PartOf(delivered, stored)
    ensures var r := Downloaded(c, credential, delivered, options);
            r.None? || r == Downloaded(c, credential, stored, options)
  {
    hide ParseSmbEncrypted;
    hide ReceivePrefetchCount;
    hide LosesTokens;
    hide Receive;
    hide ReceiveStreamed;
    PartReceives(c, credential, delivered, stored);
  }
}
