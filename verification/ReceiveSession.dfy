/** The streaming receiver: wire tokens go in one by one, file bytes come out on the way. */
module ReceiveSession {
  import opened ByteStrings
  import opened Cryptography
  import opened Merkle
  import opened Segment
  import opened WireLayouts
  import opened Smb
  import opened Sender
  import opened Receiver

  /** What the batch receiver decodes from a whole ciphertext stream in segmented mode. */
  function DecodeStream(c: Crypto, parts: CredentialParts, m: SmbMetadata, stream: Bytes, size: nat, padded: nat)
    : Option<Bytes>
    requires 0 < size
  {
    var fek :- UnwrapFek(c, parts, m);
    OpenSegments(c, fek, stream, size, padded)
  }

  // The leaf of the last block: an empty one keeps the empty entry it started with.
  function LeafOfLast(c: Crypto, last: Bytes): Bytes {
    if last == [] then [] else c.sha256(last)
  }

  // No continuation of the stream decodes.
  ghost predicate Undecodable(c: Crypto, parts: CredentialParts, m: SmbMetadata, stream: Bytes,
                              size: nat, padded: nat)
    requires 0 < size
  {
    forall rest: Bytes :: DecodeStream(c, parts, m, stream + rest, size, padded).None?
  }

  // The bytes of `ready` behind the padding still to be skipped.
  function BehindPadding(ready: Bytes, skip: nat): Bytes {
    if |ready| <= skip then [] else ready[skip..]
  }

  lemma BehindPaddingDrop(ready: Bytes, skip: nat, n: nat)
    requires n <= skip && n <= |ready|
    ensures BehindPadding(ready[n..], skip - n) == BehindPadding(ready, skip)
  {
    if skip < |ready| {
      assert ready[n..][skip - n..] == ready[skip..];
    }
  }

  lemma BehindPaddingPrefix(a: Bytes, b: Bytes, skip: nat)
    requires a <= b && skip <= |b|
    ensures BehindPadding(a, skip) <= b[skip..]
  {
    if skip < |a| {
      assert b[..|a|] == a;
    }
  }

  // Of `plain`, `consumed` bytes are gone: skipped padding and then the exported file bytes.
  ghost predicate Accounted(plain: Bytes, padding: nat, skip: nat, exported: Bytes, consumed: nat) {
    && skip <= padding
    && consumed == padding - skip + |exported| <= |plain|
    && (if skip > 0 then exported == [] else exported == plain[padding..consumed])
  }

  // Draining `output` in front of `rest` keeps the account.
  lemma DrainAccounted(plain: Bytes, padding: nat, skip: nat, exported: Bytes, consumed: nat,
                       output: Bytes, rest: Bytes, skip': nat)
    requires Accounted(plain, padding, skip, exported, consumed) && skip' <= skip
    requires output + rest == BehindPadding(plain[consumed..], skip)
    requires output != [] ==> skip' == 0
    requires consumed + (skip - skip') + |output| <= |plain|
    ensures Accounted(plain, padding, skip', exported + output, consumed + (skip - skip') + |output|)
  {
    var mid := consumed + skip;
    if output != [] {
      assert output == (output + rest)[..|output|];
      assert plain[consumed..][skip..] == plain[mid..];
      assert output == plain[mid..mid + |output|];
      assert mid == padding + |exported| && exported == plain[padding..mid];
      JoinSlices(plain, padding, mid, mid + |output|);
    } else {
      assert exported + output == exported;
    }
  }

  lemma JoinSlices(s: Bytes, from: nat, mid: nat, to: nat)
    requires from <= mid <= to <= |s|
    ensures s[from..mid] + s[mid..to] == s[from..to]
  {
  }

  lemma FrontPiece(ready: Bytes, front: Bytes, offset: nat, take: nat)
    requires offset + take <= |front| && |front| - offset <= |ready|
    requires ready[..|front| - offset] == front[offset..]
    ensures front[offset..offset + take] == ready[..take]
    ensures front[offset..offset + take] + BehindPadding(ready[take..], 0) == BehindPadding(ready, 0)
  {
    assert front[offset..offset + take] == front[offset..][..take] == ready[..|front| - offset][..take];
    assert ready[..take] + ready[take..] == ready;
  }

  lemma TakenPrefix(output: Bytes, rest: Bytes, whole: Bytes, limit: nat)
    requires output + rest == whole && |output| <= limit
    requires |output| < limit ==> rest == []
    ensures output == whole[..Min(limit, |whole|)] && rest == whole[|output|..]
  {
    assert whole[..|output|] == output;
  }

  lemma DropDrop(s: Bytes, a: nat, b: nat)
    requires a + b <= |s|
    ensures s[a..][b..] == s[a + b..]
  {
  }

  lemma AppendAssoc(a: Bytes, b: Bytes, c: Bytes)
    ensures a + (b + c) == (a + b) + c
  {
  }

  // A complete record that does not open spoils every continuation.
  lemma BadRecord(c: Crypto, parts: CredentialParts, m: SmbMetadata, key: Bytes, packs: seq<Bytes>,
                  plains: seq<Bytes>, size: nat, padded: nat, x: Bytes, tail: Bytes)
    requires 0 < size && Opened(c, key, packs, plains, size, padded) && |Flatten(plains)| < padded
    requires UnwrapFek(c, parts, m) == None || UnwrapFek(c, parts, m) == Some(key)
    requires |x| == Min(size, padded - |Flatten(plains)|) + GCM_ENVELOPE_BYTES
    requires UnwrapFek(c, parts, m) == None || Decrypt(c, key, x).None?
             || |Decrypt(c, key, x).value| != Min(size, padded - |Flatten(plains)|)
    ensures DecodeStream(c, parts, m, Flatten(packs) + (x + tail), size, padded).None?
  {
    hide Flatten;
    hide Opened;
    hide Decrypt;
    if UnwrapFek(c, parts, m).Some? {
      OpenAfter(c, key, packs, plains, size, padded, x + tail);
      assert (x + tail)[..|x|] == x;
    }
  }

  class ReceiveDecryptSession {
    const crypto: Crypto
    const parts: CredentialParts
    const metadata: SmbMetadata
    const wireBlockSize: nat
    const lastBlockLength: nat
    const paddedLength: nat
    const originalLength: nat
    const segmentSize: nat
    const prefixPadding: nat  // bytes the queue skips; 0 in whole-file mode

    var token0Wire: Bytes
    var leafHashes: seq<Bytes>
    var nextTokenIndex: nat
    var kFek: Bytes
    var kFekReady: bool
    var packBuffer: Bytes
    var remainingPlaintext: nat
    var readyParts: seq<Bytes>
    var readyOffset: nat
    var producedBytes: nat
    var consumedPaddedBytes: nat
    var exportedFileBytes: nat
    var prefixSkipRemaining: nat
    var plaintextPadded: Bytes
    var finalized: bool

    ghost var blocks: seq<Bytes>  // the wire blocks added so far
    ghost var fed: Bytes          // the ciphertext fed so far
    ghost var packs: seq<Bytes>   // its complete records
    ghost var plains: seq<Bytes>  // and their plaintexts
    ghost var exported: Bytes     // file bytes taken from the queue so far

    ghost predicate Setup() {
      && IsSupported(metadata.segmentCode)
      && 1 <= metadata.numTokens
      && wireBlockSize == metadata.wireBlockSize == SM_ENC_BYTES + lastBlockLength
      && lastBlockLength == LastBlockLength(metadata)
      && PaddedLength(metadata.ciphertextLength, metadata.segmentCode) == Some(paddedLength)
      && originalLength == metadata.originalFileLength <= paddedLength
      && (if IsSegmented(metadata.segmentCode)
          then segmentSize == SegmentPlaintextBytes(metadata.segmentCode)
               && prefixPadding == paddedLength - originalLength
          else segmentSize == 1 && prefixPadding == 0)
    }

    ghost function Key(): Bytes {
      if UnwrapFek(crypto, parts, metadata).Some? then UnwrapFek(crypto, parts, metadata).value else []
    }

    ghost predicate KeyKnown()
      reads `kFek, `kFekReady
    {
      kFekReady ==> UnwrapFek(crypto, parts, metadata) == Some(kFek)
    }

    // Everything fed is decoded, except for the record that is still incomplete.
    ghost predicate Decoded()
      reads `fed, `packs, `plains, `packBuffer, `remainingPlaintext, `producedBytes
    {
      && |fed| <= metadata.ciphertextLength
      && producedBytes == |Flatten(plains)|
      && (if IsSegmented(metadata.segmentCode)
          then && fed == Flatten(packs) + packBuffer
               && Opened(crypto, Key(), packs, plains, segmentSize, paddedLength)
               && producedBytes + remainingPlaintext == paddedLength
               && |packBuffer| < Min(segmentSize, remainingPlaintext) + GCM_ENVELOPE_BYTES
          else packBuffer == fed && plains == [] && remainingPlaintext == 0)
    }

    ghost predicate Received()
      reads `blocks, `fed, `leafHashes, `nextTokenIndex, `token0Wire
    {
      && |token0Wire| == wireBlockSize
      && nextTokenIndex == |blocks| + 1 <= metadata.numTokens
      && Full(blocks, wireBlockSize)
      && fed == Flatten(blocks)
      && leafHashes == HashBlocks(crypto, blocks) + seq(metadata.numTokens - |blocks|, _ => [])
    }

    ghost predicate Shape()
      reads `readyParts, `readyOffset
    {
      && readyOffset <= |Flatten(readyParts)|
      && (readyParts == [] ==> readyOffset == 0)
      && (readyParts != [] ==> readyOffset < |readyParts[0]|)
      && (forall i | 0 <= i < |readyParts| :: readyParts[i] != [])
    }

    ghost function Ready(): Bytes
      reads `readyParts, `readyOffset
    {
      if readyOffset <= |Flatten(readyParts)| then Flatten(readyParts)[readyOffset..] else []
    }

    // The queue holds the produced plaintext behind what was skipped or exported.
    ghost predicate Queue()
      reads `plains, `readyParts, `readyOffset, `consumedPaddedBytes, `exportedFileBytes,
            `prefixSkipRemaining, `exported
    {
      var plain := Flatten(plains);
      && Shape()
      && consumedPaddedBytes <= |plain|
      && exportedFileBytes == |exported|
      && Accounted(plain, prefixPadding, prefixSkipRemaining, exported, consumedPaddedBytes)
      && Ready() == plain[consumedPaddedBytes..]
    }

    // File bytes that can be taken now.
    ghost function ReadyFile(): Bytes
      reads `readyParts, `readyOffset, `prefixSkipRemaining
    {
      BehindPadding(Ready(), prefixSkipRemaining)
    }

    ghost predicate Valid()
      reads this
    {
      Setup() && Queue() && KeyKnown() && (!finalized ==> Decoded() && Received())
    }

    /** Exported and ready bytes together are the produced plaintext without its padding. */
    lemma ExportedIsPrefix()
      requires Queue()
      ensures exported + ReadyFile() == BehindPadding(Flatten(plains), prefixPadding)
    {
      hide Flatten;
      var plain := Flatten(plains);
      if prefixSkipRemaining > 0 {
        BehindPaddingDrop(plain, prefixPadding, consumedPaddedBytes);
        assert [] + ReadyFile() == ReadyFile();
      } else if prefixPadding < |plain| {
        assert plain[prefixPadding..consumedPaddedBytes] + plain[consumedPaddedBytes..] == plain[prefixPadding..];
      } else {
        assert exported == [] && Ready() == [];
      }
    }

    /** Of a stream the batch receiver accepts, only bytes of its file are ever exported. */
    lemma ExportedOfAccepted(rest: Bytes, file: Bytes)
      requires Setup() && IsSegmented(metadata.segmentCode) && Queue() && Decoded()
      requires DecryptCiphertext(crypto, parts, metadata, fed + rest) == Some(file)
      ensures exported <= file
    {
      hide Flatten;
      hide Opened;
      hide Shape;
      hide OpenSegments;
      hide Decrypt;
      var plain, tail := Flatten(plains), packBuffer + rest;
      OpenAfter(crypto, Key(), packs, plains, segmentSize, paddedLength, tail);
      assert fed + rest == Flatten(packs) + tail;
      ExportedIsPrefix();
      var whole := OpenSegments(crypto, Key(), fed + rest, segmentSize, paddedLength).value;
      BehindPaddingPrefix(plain, whole, prefixPadding);
      assert exported <= BehindPadding(plain, prefixPadding);
      assert file == whole[prefixPadding..];
    }

    // ---------- The queue ----------

    method EnqueuePlaintext(chunk: Bytes)
      requires Queue() && chunk != [] && producedBytes == |Flatten(plains)|
      modifies `producedBytes, `readyParts, `plains
      ensures Queue() && plains == old(plains) + [chunk] && producedBytes == |Flatten(plains)|
    {
      hide Flatten;
      FlattenSnoc(plains, chunk);
      FlattenSnoc(readyParts, chunk);
      NothingFlattened();
      producedBytes := producedBytes + |chunk|;
      readyParts := readyParts + [chunk];
      plains := plains + [chunk];
    }

    method ReadyPlaintextAvailable() returns (total: nat)
      requires Shape()
      ensures total == |Ready()|
    {
      hide Flatten;
      NothingFlattened();
      total := 0;
      for index := 0 to |readyParts|
        invariant index == 0 ==> total == 0
        invariant index > 0 ==> total + readyOffset == |Flatten(readyParts[..index])|
      {
        assert readyParts[..index + 1] == readyParts[..index] + [readyParts[index]];
        FlattenSnoc(readyParts[..index], readyParts[index]);
        if index == 0 {
          assert readyParts[..0] == [];
          if |readyParts[index]| > readyOffset {
            total := total + |readyParts[index]| - readyOffset;
          }
        } else {
          total := total + |readyParts[index]|;
        }
      }
      assert readyParts[..|readyParts|] == readyParts;
    }

    method ReadyFileBytesAvailable() returns (n: nat)
      requires Shape()
      ensures n == |ReadyFile()|
    {
      var padded := ReadyPlaintextAvailable();
      n := if padded <= prefixSkipRemaining then 0 else padded - prefixSkipRemaining;
    }

    method AdvanceReadyFront(count: nat)
      requires Shape() && count <= |Ready()|
      modifies `consumedPaddedBytes, `readyOffset, `readyParts
      ensures Shape() && Ready() == old(Ready())[count..]
      ensures consumedPaddedBytes == old(consumedPaddedBytes) + count
    {
      hide Flatten;
      if count == 0 {
        return;
      }
      NothingFlattened();
      consumedPaddedBytes := consumedPaddedBytes + count;
      readyOffset := readyOffset + count;
      assert Flatten(readyParts)[readyOffset..] == old(Ready())[count..];
      while readyParts != [] && readyOffset >= |readyParts[0]|
        invariant readyOffset <= |Flatten(readyParts)|
        invariant forall i | 0 <= i < |readyParts| :: readyParts[i] != []
        invariant Flatten(readyParts)[readyOffset..] == old(Ready())[count..]
        invariant consumedPaddedBytes == old(consumedPaddedBytes) + count
        decreases |readyParts|
      {
        FlattenCons(readyParts[0], readyParts[1..]);
        assert readyParts == [readyParts[0]] + readyParts[1..];
        assert (readyParts[0] + Flatten(readyParts[1..]))[readyOffset..]
            == Flatten(readyParts[1..])[readyOffset - |readyParts[0]|..];
        readyOffset := readyOffset - |readyParts[0]|;
        readyParts := readyParts[1..];
      }
    }

    // Skips padding from the front part.
    method SkipFront()
      requires Shape() && readyParts != [] && 0 < prefixSkipRemaining
      modifies `consumedPaddedBytes, `readyOffset, `readyParts, `prefixSkipRemaining
      ensures Shape() && ReadyFile() == old(ReadyFile())
      ensures prefixSkipRemaining < old(prefixSkipRemaining)
      ensures var n := old(prefixSkipRemaining) - prefixSkipRemaining;
              && n <= |old(Ready())|
              && Ready() == old(Ready())[n..]
              && consumedPaddedBytes == old(consumedPaddedBytes) + n
    {
      hide Shape;
      hide Ready;
      hide BehindPadding;
      ReadyFront();
      var frontAvailable := |readyParts[0]| - readyOffset;
      var skip := Min(frontAvailable, prefixSkipRemaining);
      BehindPaddingDrop(Ready(), prefixSkipRemaining, skip);
      AdvanceReadyFront(skip);
      prefixSkipRemaining := prefixSkipRemaining - skip;
    }

    // Takes file bytes from the front part.
    method TakeFront(room: nat) returns (piece: Bytes)
      requires Shape() && readyParts != [] && prefixSkipRemaining == 0 && 0 < room
      modifies `consumedPaddedBytes, `readyOffset, `readyParts
      ensures Shape() && 0 < |piece| <= room && |piece| <= |old(Ready())|
      ensures piece + ReadyFile() == old(ReadyFile()) && Ready() == old(Ready())[|piece|..]
      ensures consumedPaddedBytes == old(consumedPaddedBytes) + |piece|
    {
      hide Shape;
      hide Ready;
      hide BehindPadding;
      ReadyFront();
      var frontAvailable := |readyParts[0]| - readyOffset;
      var take := Min(frontAvailable, room);
      piece := readyParts[0][readyOffset..readyOffset + take];
      FrontPiece(Ready(), readyParts[0], readyOffset, take);
      AdvanceReadyFront(take);
    }

    // One round of draining. The source also drops an exhausted front part; the queue never holds one.
    method DrainFront(room: nat) returns (piece: Bytes)
      requires Shape() && readyParts != [] && 0 < room
      modifies `consumedPaddedBytes, `readyOffset, `readyParts, `prefixSkipRemaining
      ensures Shape() && |piece| <= room && prefixSkipRemaining <= old(prefixSkipRemaining)
      ensures piece + ReadyFile() == old(ReadyFile())
      ensures piece != [] ==> old(prefixSkipRemaining) == 0
      ensures var n := old(prefixSkipRemaining) - prefixSkipRemaining + |piece|;
              && 0 < n <= |old(Ready())|
              && Ready() == old(Ready())[n..]
              && consumedPaddedBytes == old(consumedPaddedBytes) + n
    {
      hide Shape;
      hide Ready;
      hide ReadyFile;
      if prefixSkipRemaining > 0 {
        SkipFront();
        piece := [];
        assert [] + ReadyFile() == ReadyFile();
      } else {
        piece := TakeFront(room);
      }
    }

    // Drains until `limit` bytes are out or the queue is empty.
    method DrainLoop(limit: nat) returns (output: Bytes)
      requires Shape() && 0 < limit
      modifies `consumedPaddedBytes, `readyOffset, `readyParts, `prefixSkipRemaining
      ensures Shape() && |output| <= limit && prefixSkipRemaining <= old(prefixSkipRemaining)
      ensures output + ReadyFile() == old(ReadyFile())
      ensures |output| < limit ==> ReadyFile() == []
      ensures output != [] ==> prefixSkipRemaining == 0
      ensures var n := old(prefixSkipRemaining) - prefixSkipRemaining + |output|;
              && n <= |old(Ready())|
              && Ready() == old(Ready())[n..]
              && consumedPaddedBytes == old(consumedPaddedBytes) + n
    {
      hide Flatten;
      hide BehindPadding;
      hide Shape;
      output := [];
      ghost var n := 0;
      assert [] + ReadyFile() == ReadyFile();
      ghost var start, target := Ready(), ReadyFile();
      while |output| < limit && readyParts != []
        invariant Shape() && |output| <= limit
        invariant output + ReadyFile() == target
        invariant output != [] ==> prefixSkipRemaining == 0
        invariant prefixSkipRemaining <= old(prefixSkipRemaining)
        invariant n == old(prefixSkipRemaining) - prefixSkipRemaining + |output| <= |start|
        invariant consumedPaddedBytes == old(consumedPaddedBytes) + n
        invariant Ready() == start[n..]
        decreases |start| - n
      {
        ghost var more := consumedPaddedBytes;
        var piece := DrainFront(limit - |output|);
        more := consumedPaddedBytes - more;
        DropDrop(start, n, more);
        AppendAssoc(output, piece, ReadyFile());
        n := n + more;
        output := output + piece;
      }
      if readyParts == [] {
        EmptyQueue();
      }
    }

    /** Takes up to `limit` file bytes, skipping what is left of the padding first. */
    method DrainReadyQueue(limit: nat) returns (output: Bytes)
      requires Queue()
      modifies `consumedPaddedBytes, `readyOffset, `readyParts, `prefixSkipRemaining, `exportedFileBytes,
               `exported
      ensures Queue()
      ensures output == old(ReadyFile())[..Min(limit, |old(ReadyFile())|)]
      ensures ReadyFile() == old(ReadyFile())[|output|..]
      ensures exported == old(exported) + output
    {
      hide Flatten;
      hide Queue;
      hide Shape;
      hide Ready;
      hide ReadyFile;
      if limit == 0 {
        assert exported + [] == exported;
        TakenPrefix([], ReadyFile(), ReadyFile(), 0);
        return [];
      }
      QueueFacts();
      ghost var before, skip, taken := consumedPaddedBytes, prefixSkipRemaining, exported;
      ghost var whole := ReadyFile();
      output := DrainLoop(limit);
      TakenPrefix(output, ReadyFile(), whole, limit);
      exportedFileBytes := exportedFileBytes + |output|;
      exported := exported + output;
      QueueDrained(before, skip, taken, output);
    }

    // What the queue invariant says, in terms of what is ready.
    lemma QueueFacts()
      requires Queue()
      ensures Shape() && exportedFileBytes == |exported| && consumedPaddedBytes <= |Flatten(plains)|
      ensures Ready() == Flatten(plains)[consumedPaddedBytes..]
      ensures ReadyFile() == BehindPadding(Flatten(plains)[consumedPaddedBytes..], prefixSkipRemaining)
      ensures Accounted(Flatten(plains), prefixPadding, prefixSkipRemaining, exported, consumedPaddedBytes)
    {
      hide Flatten;
    }

    // After draining `output` the invariant holds again.
    lemma QueueDrained(before: nat, skip: nat, taken: Bytes, output: Bytes)
      requires Shape() && before <= |Flatten(plains)| && prefixSkipRemaining <= skip
      requires Accounted(Flatten(plains), prefixPadding, skip, taken, before)
      requires output + ReadyFile() == BehindPadding(Flatten(plains)[before..], skip)
      requires output != [] ==> prefixSkipRemaining == 0
      requires exported == taken + output && exportedFileBytes == |exported|
      requires var n := skip - prefixSkipRemaining + |output|;
               && consumedPaddedBytes == before + n <= |Flatten(plains)|
               && Ready() == Flatten(plains)[before..][n..]
      ensures Queue()
    {
      hide Flatten;
      hide Shape;
      hide Ready;
      hide ReadyFile;
      hide BehindPadding;
      hide Accounted;
      DropDrop(Flatten(plains), before, consumedPaddedBytes - before);
      DrainAccounted(Flatten(plains), prefixPadding, skip, taken, before, output, ReadyFile(), prefixSkipRemaining);
    }

    lemma EmptyQueue()
      requires Shape() && readyParts == []
      ensures Ready() == [] && ReadyFile() == []
    {
    }

    lemma ReadyFront()
      requires Shape() && readyParts != []
      ensures 0 < |readyParts[0]| - readyOffset <= |Ready()|
      ensures Ready()[..|readyParts[0]| - readyOffset] == readyParts[0][readyOffset..]
    {
      FlattenCons(readyParts[0], readyParts[1..]);
      assert readyParts == [readyParts[0]] + readyParts[1..];
    }

    // ---------- Construction ----------

    constructor (c: Crypto, parts: CredentialParts, m: SmbMetadata, token0: Bytes, padded: nat)
      requires IsSupported(m.segmentCode) && 1 <= m.numTokens && Token0Consistent(m, token0)
      requires SM_ENC_BYTES <= |token0|
      requires PaddedLength(m.ciphertextLength, m.segmentCode) == Some(padded)
      requires m.originalFileLength <= padded
      ensures Valid() && !finalized && blocks == [] && exported == [] && token0Wire == token0
      ensures crypto == c && this.parts == parts && metadata == m
    {
      hide Flatten;
      hide PaddedLength;
      crypto, this.parts, metadata := c, parts, m;
      wireBlockSize, lastBlockLength := m.wireBlockSize, LastBlockLength(m);
      paddedLength, originalLength := padded, m.originalFileLength;
      segmentSize := if IsSegmented(m.segmentCode) then SegmentPlaintextBytes(m.segmentCode) else 1;
      prefixPadding := if IsSegmented(m.segmentCode) then padded - m.originalFileLength else 0;
      prefixSkipRemaining := if IsSegmented(m.segmentCode) then padded - m.originalFileLength else 0;
      remainingPlaintext := if IsSegmented(m.segmentCode) then padded else 0;
      token0Wire := token0;
      leafHashes := seq(m.numTokens, _ => []);
      nextTokenIndex, kFek, kFekReady, packBuffer := 1, [], false, [];
      readyParts, readyOffset, producedBytes, consumedPaddedBytes, exportedFileBytes := [], 0, 0, 0, 0;
      plaintextPadded, finalized := [], false;
      blocks, fed, packs, plains, exported := [], [], [], [], [];
      new;
      NothingFlattened();
      assert leafHashes == HashBlocks(crypto, []) + leafHashes;
    }

    // ---------- Decryption ----------

    // Decrypts the complete record in the buffer and queues its plaintext.
    method DecryptRecord() returns (ok: bool)
      requires Setup() && IsSegmented(metadata.segmentCode) && Queue() && KeyKnown()
      requires producedBytes == |Flatten(plains)| && producedBytes + remainingPlaintext == paddedLength
      requires Opened(crypto, Key(), packs, plains, segmentSize, paddedLength)
      requires 0 < remainingPlaintext
      requires |packBuffer| == Min(segmentSize, remainingPlaintext) + GCM_ENVELOPE_BYTES
      modifies `packBuffer, `remainingPlaintext, `kFek, `kFekReady, `readyParts, `producedBytes, `plains, `packs
      ensures ok ==>
                && Queue() && KeyKnown()
                && producedBytes == |Flatten(plains)| && producedBytes + remainingPlaintext == paddedLength
                && Opened(crypto, Key(), packs, plains, segmentSize, paddedLength)
                && packs == old(packs) + [old(packBuffer)] && packBuffer == []
      ensures !ok ==> forall tail: Bytes ::
                DecodeStream(crypto, parts, metadata, Flatten(old(packs)) + (old(packBuffer) + tail),
                             segmentSize, paddedLength).None?
    {
      hide Flatten;
      hide Opened;
      hide Queue;
      hide DecodeStream;
      ghost var key := Key();
      var n := Min(segmentSize, remainingPlaintext);
      if !kFekReady {
        var fek := UnwrapFek(crypto, parts, metadata);
        if fek.None? {
          SpoiledBy(key);
          return false;
        }
        kFek := fek.value;
        kFekReady := true;
      }
      var segment := Decrypt(crypto, kFek, packBuffer);
      if segment.None? || |segment.value| != n {
        SpoiledBy(key);
        return false;
      }
      OpenedSnoc(crypto, key, packs, plains, segmentSize, paddedLength, packBuffer, segment.value);
      EnqueuePlaintext(segment.value);
      FlattenSnoc(old(plains), segment.value);
      packs := packs + [packBuffer];
      packBuffer := [];
      remainingPlaintext := remainingPlaintext - n;
      ok := true;
    }

    lemma SpoiledBy(key: Bytes)
      requires Setup() && IsSegmented(metadata.segmentCode) && key == Key()
      requires |Flatten(plains)| + remainingPlaintext == paddedLength && 0 < remainingPlaintext
      requires Opened(crypto, key, packs, plains, segmentSize, paddedLength)
      requires |packBuffer| == Min(segmentSize, remainingPlaintext) + GCM_ENVELOPE_BYTES
      requires || UnwrapFek(crypto, parts, metadata).None?
               || Decrypt(crypto, key, packBuffer).None?
               || |Decrypt(crypto, key, packBuffer).value| != Min(segmentSize, remainingPlaintext)
      ensures forall tail: Bytes ::
                DecodeStream(crypto, parts, metadata, Flatten(packs) + (packBuffer + tail),
                             segmentSize, paddedLength).None?
    {
      hide Flatten;
      hide Opened;
      hide DecodeStream;
      hide Decrypt;
      hide PaddedLength;
      forall tail: Bytes
        ensures DecodeStream(crypto, parts, metadata, Flatten(packs) + (packBuffer + tail),
                             segmentSize, paddedLength).None?
      {
        BadRecord(crypto, parts, metadata, key, packs, plains, segmentSize, paddedLength, packBuffer, tail);
      }
    }

    // Once all plaintext is out, the records make up the whole announced ciphertext.
    lemma RecordsExhaust()
      requires Setup() && IsSegmented(metadata.segmentCode)
      requires |Flatten(plains)| <= paddedLength
      requires Opened(crypto, Key(), packs, plains, segmentSize, paddedLength)
      ensures |Flatten(packs)| + CeilDiv(paddedLength - |Flatten(plains)|, segmentSize) * GCM_ENVELOPE_BYTES
              + (paddedLength - |Flatten(plains)|)
           == metadata.ciphertextLength
    {
      hide Flatten;
      hide Opened;
      hide PaddedLength;
      hide CeilDiv;
      OpenedLength(crypto, Key(), packs, plains, segmentSize, paddedLength);
      LengthInverseExact(metadata.ciphertextLength, metadata.segmentCode, paddedLength);
    }

    lemma NothingLeft()
      requires Setup() && IsSegmented(metadata.segmentCode)
      requires Opened(crypto, Key(), packs, plains, segmentSize, paddedLength)
      requires |Flatten(plains)| == paddedLength
      ensures |Flatten(packs)| == metadata.ciphertextLength
    {
      hide Flatten;
      hide Opened;
      hide PaddedLength;
      RecordsExhaust();
      CeilDivUnique(0, segmentSize, 0);
    }

    method FeedSegments(data: Bytes) returns (ok: bool)
      requires Setup() && IsSegmented(metadata.segmentCode) && Queue() && KeyKnown() && Decoded()
      requires |fed| + |data| <= metadata.ciphertextLength
      modifies `packBuffer, `remainingPlaintext, `kFek, `kFekReady, `readyParts, `producedBytes, `plains,
               `packs, `fed
      ensures ok ==> Queue() && KeyKnown() && Decoded() && fed == old(fed) + data
      ensures !ok ==> Undecodable(crypto, parts, metadata, old(fed) + data, segmentSize, paddedLength)
    {
      hide Setup;
      hide Flatten;
      hide Opened;
      hide Queue;
      hide KeyKnown;
      hide DecodeStream;
      var offset := 0;
      assert old(fed) + data[..0] == old(fed);
      while offset < |data|
        invariant 0 <= offset <= |data| && Queue() && KeyKnown() && fed == old(fed)
        invariant old(fed) + data[..offset] == Flatten(packs) + packBuffer
        invariant producedBytes == |Flatten(plains)| && producedBytes + remainingPlaintext == paddedLength
        invariant Opened(crypto, Key(), packs, plains, segmentSize, paddedLength)
        invariant |packBuffer| < Min(segmentSize, remainingPlaintext) + GCM_ENVELOPE_BYTES
      {
        var packLength := Min(segmentSize, remainingPlaintext) + GCM_ENVELOPE_BYTES;
        while |packBuffer| < packLength && offset < |data|
          invariant 0 <= offset <= |data| && |packBuffer| <= packLength && fed == old(fed)
          invariant old(fed) + data[..offset] == Flatten(packs) + packBuffer
          modifies `packBuffer
          decreases |data| - offset
        {
          PushByte(old(fed), data, offset, Flatten(packs), packBuffer);
          packBuffer := packBuffer + [data[offset]];
          offset := offset + 1;
        }
        if |packBuffer| < packLength {
          break;
        }
        if remainingPlaintext == 0 {
          NothingLeft();
        }
        ghost var records, record := packs, packBuffer;
        var decrypted := DecryptRecord();
        if !decrypted {
          SpoiledStream(old(fed), data, offset, Flatten(records), record);
          return false;
        }
        FlattenSnoc(records, record);
        assert Flatten(packs) + [] == Flatten(packs);
      }
      assert data[..offset] == data;
      fed := fed + data;
      ok := true;
    }

    lemma SpoiledStream(before: Bytes, data: Bytes, offset: nat, records: Bytes, record: Bytes)
      requires Setup() && offset <= |data| && before + data[..offset] == records + record
      requires forall tail: Bytes ::
                 DecodeStream(crypto, parts, metadata, records + (record + tail), segmentSize, paddedLength).None?
      ensures Undecodable(crypto, parts, metadata, before + data, segmentSize, paddedLength)
    {
      hide DecodeStream;
      hide PaddedLength;
      forall rest: Bytes
        ensures DecodeStream(crypto, parts, metadata, before + data + rest, segmentSize, paddedLength).None?
      {
        var tail := data[offset..] + rest;
        assert before + data + rest == before + data[..offset] + tail;
        assert records + record + tail == records + (record + tail);
      }
    }

    method FeedCiphertext(data: Bytes) returns (ok: bool)
      requires Setup() && Queue() && KeyKnown() && Decoded()
      requires |fed| + |data| <= metadata.ciphertextLength
      modifies `packBuffer, `remainingPlaintext, `kFek, `kFekReady, `readyParts, `producedBytes, `plains,
               `packs, `fed
      ensures ok ==> Queue() && KeyKnown() && Decoded() && fed == old(fed) + data
      ensures !ok ==> IsSegmented(metadata.segmentCode)
                      && Undecodable(crypto, parts, metadata, old(fed) + data, segmentSize, paddedLength)
    {
      hide Flatten;
      hide Opened;
      hide Queue;
      hide Undecodable;
      if !IsSegmented(metadata.segmentCode) {
        packBuffer := packBuffer + data;
        fed := fed + data;
        return true;
      }
      ok := FeedSegments(data);
    }

    // ---------- Tokens ----------

    lemma RoomForBlocks(count: nat)
      requires Setup() && Full(blocks, wireBlockSize) && fed == Flatten(blocks)
      requires |blocks| + count <= metadata.numTokens - 1
      ensures |fed| + count * wireBlockSize <= metadata.ciphertextLength - lastBlockLength
      ensures |blocks| == metadata.numTokens - 1 ==> |fed| + lastBlockLength == metadata.ciphertextLength
    {
      hide PaddedLength;
      FlattenFullLength(blocks, wireBlockSize);
      MulMonotone(|blocks| + count, metadata.numTokens - 1, wireBlockSize);
    }

    lemma LeafHashed(data: Bytes)
      requires Received() && |blocks| < metadata.numTokens
      ensures leafHashes[|blocks| := crypto.sha256(data)]
           == HashBlocks(crypto, blocks + [data]) + seq(metadata.numTokens - |blocks| - 1, _ => [])
    {
      hide Flatten;
      assert HashBlocks(crypto, blocks + [data]) == HashBlocks(crypto, blocks) + [crypto.sha256(data)];
    }

    /** Takes the next wire token; anything out of order or of the wrong size is refused unchanged. */
    method AddWireToken(index: nat, data: Bytes) returns (ok: bool)
      requires Valid()
      modifies this
      ensures var refused := || old(finalized) || index != old(nextTokenIndex)
                             || index == 0 || index >= metadata.numTokens || |data| != wireBlockSize;
              && (refused ==> !ok && unchanged(this))
              && (!refused && !ok ==>
                    && IsSegmented(metadata.segmentCode)
                    && Undecodable(crypto, parts, metadata, old(fed) + data, segmentSize, paddedLength))
      ensures ok ==>
                && Valid() && !finalized && blocks == old(blocks) + [data] && exported == old(exported)
                && token0Wire == old(token0Wire)
    {
      hide Setup;
      hide Queue;
      hide KeyKnown;
      hide Decoded;
      hide Flatten;
      hide Full;
      hide Undecodable;
      if finalized || index != nextTokenIndex || index == 0 || index >= metadata.numTokens {
        return false;
      }
      if |data| != wireBlockSize {
        return false;
      }
      RoomForBlocks(1);
      LeafHashed(data);
      leafHashes := leafHashes[index - 1 := crypto.sha256(data)];
      var accepted := FeedCiphertext(data);
      if !accepted {
        return false;
      }
      FlattenSnoc(blocks, data);
      FullSnoc(blocks, data, wireBlockSize);
      nextTokenIndex := nextTokenIndex + 1;
      blocks := blocks + [data];
      ok := true;
    }

    // The logical block at the end of token 0.
    function LastLogicalBlock(): Bytes
      reads `token0Wire
      requires SM_ENC_BYTES + lastBlockLength <= |token0Wire|
    {
      token0Wire[SM_ENC_BYTES..SM_ENC_BYTES + lastBlockLength]
    }

    method FeedLastLogicalBlock() returns (ok: bool)
      requires Setup() && Queue() && KeyKnown() && Decoded() && Received()
      requires |blocks| == metadata.numTokens - 1
      modifies `leafHashes, `token0Wire, `packBuffer, `remainingPlaintext, `kFek, `kFekReady, `readyParts,
               `producedBytes, `plains, `packs, `fed
      ensures leafHashes == HashBlocks(crypto, blocks) + [LeafOfLast(crypto, old(LastLogicalBlock()))]
      ensures ok ==> Queue() && KeyKnown() && Decoded() && fed == old(fed + LastLogicalBlock())
                     && |fed| == metadata.ciphertextLength
      ensures !ok ==> IsSegmented(metadata.segmentCode)
                      && Undecodable(crypto, parts, metadata, old(fed + LastLogicalBlock()),
                                     segmentSize, paddedLength)
    {
      hide Queue;
      hide KeyKnown;
      hide Decoded;
      hide Flatten;
      hide Full;
      hide Undecodable;
      hide PaddedLength;
      RoomForBlocks(0);
      if lastBlockLength == 0 {
        assert fed + LastLogicalBlock() == fed;
        return true;
      }
      var last := LastLogicalBlock();
      LeafHashed(last);
      assert HashBlocks(crypto, blocks + [last]) == HashBlocks(crypto, blocks) + [crypto.sha256(last)];
      leafHashes := leafHashes[metadata.numTokens - 1 := crypto.sha256(last)];
      ok := FeedCiphertext(last);
      token0Wire := [];
    }

    // A fully fed segmented stream without a decryption error has been decoded to its end.
    lemma StreamComplete()
      requires Setup() && IsSegmented(metadata.segmentCode) && Decoded()
      requires |fed| == metadata.ciphertextLength
      ensures packBuffer == [] && remainingPlaintext == 0 && producedBytes == paddedLength
      ensures DecodeStream(crypto, parts, metadata, fed, segmentSize, paddedLength) == Some(Flatten(plains))
    {
      hide Flatten;
      hide PaddedLength;
      hide OpenSegments;
      RecordsExhaust();
      CeilDivBounds(remainingPlaintext, segmentSize);
      if 0 < remainingPlaintext {
        MulMonotone(1, CeilDiv(remainingPlaintext, segmentSize), GCM_ENVELOPE_BYTES);
        assert false;
      }
      SomeRecord();
      OpenAfter(crypto, Key(), packs, plains, segmentSize, paddedLength, []);
      assert Flatten(packs) + [] == Flatten(packs);
      NothingToOpen(crypto, Key(), segmentSize);
      PrependSome(Flatten(plains), []);
      assert Flatten(plains) + [] == Flatten(plains);
    }

    lemma SomeRecord()
      requires Setup() && IsSegmented(metadata.segmentCode)
      requires Opened(crypto, Key(), packs, plains, segmentSize, paddedLength)
      requires |Flatten(plains)| == paddedLength
      ensures UnwrapFek(crypto, parts, metadata) == Some(Key())
    {
      LengthInverseExact(metadata.ciphertextLength, metadata.segmentCode, paddedLength);
      NothingFlattened();
      assert plains != [];
      assert Decrypt(crypto, Key(), packs[0]).Some?;
    }

    // ---------- Finalizing ----------

    // The file bytes a finished session still holds.
    ghost function Remaining(): Bytes
      reads `readyParts, `readyOffset, `prefixSkipRemaining, `plaintextPadded
    {
      if IsSegmented(metadata.segmentCode) then ReadyFile() else plaintextPadded
    }

    // The checks on the segmented stream once everything has been fed.
    method CheckSegmented() returns (ok: bool)
      requires Setup() && IsSegmented(metadata.segmentCode) && Queue() && Decoded()
      requires |fed| == metadata.ciphertextLength
      ensures ok
      ensures DecryptCiphertext(crypto, parts, metadata, fed) == Some(exported + ReadyFile())
    {
      hide Flatten;
      hide OpenSegments;
      hide PaddedLength;
      hide Opened;
      hide Shape;
      StreamComplete();
      ExportedIsPrefix();
      var available := ReadyPlaintextAvailable();
      var fileAvailable := ReadyFileBytesAvailable();
      // None of the four accounting checks of the source can fail.
      ok :=
        && packBuffer == [] && remainingPlaintext == 0
        && producedBytes == paddedLength
        && consumedPaddedBytes + available == producedBytes
        && exportedFileBytes + fileAvailable == originalLength;
    }

    method DecryptWholeFile() returns (plain: Option<Bytes>)
      requires Setup() && IsWholeFile(metadata.segmentCode) && KeyKnown()
      requires |packBuffer| == metadata.ciphertextLength
      modifies `kFek, `kFekReady
      ensures KeyKnown() && plain == DecryptCiphertext(crypto, parts, metadata, packBuffer)
    {
      hide OpenSegments;
      if !kFekReady {
        var fek := UnwrapFek(crypto, parts, metadata);
        if fek.None? {
          return None;
        }
        kFek := fek.value;
        kFekReady := true;
      }
      plain := Decrypt(crypto, kFek, packBuffer);
      if plain.None? || |plain.value| != paddedLength {
        return None;
      }
      plain := Some(plain.value[paddedLength - originalLength..]);
    }

    method FinishPlaintext() returns (ok: bool)
      requires Setup() && Queue() && KeyKnown() && Decoded() && |fed| == metadata.ciphertextLength
      modifies `kFek, `kFekReady, `plaintextPadded, `packBuffer
      ensures KeyKnown()
      ensures ok <==> DecryptCiphertext(crypto, parts, metadata, fed).Some?
      ensures ok ==>
                DecryptCiphertext(crypto, parts, metadata, fed)
                == Some((if IsSegmented(metadata.segmentCode) then exported else []) + Remaining())
    {
      hide Flatten;
      hide KeyKnown;
      hide Queue;
      hide Opened;
      hide PaddedLength;
      hide DecryptCiphertext;
      if IsWholeFile(metadata.segmentCode) {
        var plain := DecryptWholeFile();
        if plain.None? {
          return false;
        }
        plaintextPadded := plain.value;
        assert [] + plaintextPadded == plaintextPadded;
        ok := true;
      } else {
        ok := CheckSegmented();
      }
      packBuffer := [];
    }

    /**
     Succeeds exactly when all tokens are in, the leaf hashes give the announced root and the
     batch receiver could decrypt the ciphertext; the session then holds the rest of that file.
     */
    method CompleteFinalize() returns (ok: bool)
      requires Valid()
      modifies this
      ensures old(finalized || nextTokenIndex != metadata.numTokens) ==> !ok && unchanged(this)
      ensures old(!finalized && nextTokenIndex == metadata.numTokens) ==>
                var last := old(LastLogicalBlock());
                var file := DecryptCiphertext(crypto, parts, metadata, old(fed) + last);
                && (ok <==>
                      && RootOf(crypto, HashBlocks(crypto, old(blocks)) + [LeafOfLast(crypto, last)])
                         == metadata.rootHash
                      && file.Some?)
                && (ok ==> && Valid() && finalized && exported == old(exported)
                           && file == Some((if IsSegmented(metadata.segmentCode) then exported else [])
                                           + Remaining()))
    {
      hide Queue;
      hide KeyKnown;
      hide Flatten;
      hide Full;
      hide RootOf;
      hide DecryptCiphertext;
      hide PaddedLength;
      hide Opened;
      hide Undecodable;
      hide ReadyFile;
      hide HashBlocks;
      hide LeafOfLast;
      hide Decoded;
      hide Setup;
      hide Received;
      if finalized || nextTokenIndex != metadata.numTokens {
        return false;
      }
      AllTokensIn();
      ghost var whole := fed + LastLogicalBlock();
      var fedAll := FeedLastLogicalBlock();
      if !fedAll {
        UndecodableFile(whole);
        return false;
      }
      var verified := VerifyMerkleRootFromLeafHashes(crypto, leafHashes, metadata.rootHash);
      if !verified {
        return false;
      }
      leafHashes := [];
      ok := FinishPlaintext();
      finalized := ok;
    }

    lemma AllTokensIn()
      requires Setup() && Received() && nextTokenIndex == metadata.numTokens
      ensures |blocks| == metadata.numTokens - 1 && SM_ENC_BYTES + lastBlockLength <= |token0Wire|
      ensures 0 < segmentSize && IsSupported(metadata.segmentCode)
    {
    }

    lemma UndecodableFile(stream: Bytes)
      requires Setup() && IsSegmented(metadata.segmentCode)
      requires Undecodable(crypto, parts, metadata, stream, segmentSize, paddedLength)
      ensures DecryptCiphertext(crypto, parts, metadata, stream).None?
    {
      hide OpenSegments;
      hide PaddedLength;
      assert stream + [] == stream;
    }

    /** Up to `limit` of the file bytes that are available; whole files only when finalized. */
    method TakePlaintextChunk(limit: nat) returns (chunk: Option<Bytes>)
      requires Valid()
      modifies this
      ensures Valid() && finalized == old(finalized) && blocks == old(blocks)
      ensures token0Wire == old(token0Wire) && fed == old(fed)
      ensures chunk.None? <==> IsWholeFile(metadata.segmentCode) && !finalized
      ensures chunk.None? ==> unchanged(this)
      ensures chunk.Some? ==>
                && chunk.value == old(Remaining())[..Min(limit, |old(Remaining())|)]
                && Remaining() == old(Remaining())[|chunk.value|..]
                && exported == old(exported) + (if IsSegmented(metadata.segmentCode) then chunk.value else [])
    {
      hide Setup;
      hide Queue;
      hide KeyKnown;
      hide Flatten;
      hide Full;
      hide ReadyFile;
      if IsSegmented(metadata.segmentCode) {
        var output := DrainReadyQueue(limit);
        return Some(output);
      }
      assert exported + [] == exported;
      if !finalized {
        WholeOrSegmented();
        return None;
      }
      WholeOrSegmented();
      var n := Min(limit, |plaintextPadded|);
      var output := plaintextPadded[..n];
      plaintextPadded := plaintextPadded[n..];
      chunk := Some(output);
    }

    lemma WholeOrSegmented()
      requires Setup()
      ensures IsWholeFile(metadata.segmentCode) <==> !IsSegmented(metadata.segmentCode)
    {
    }

    // A whole file is only exported after finalizing.
    lemma WholeFileExportsNothing()
      requires Valid() && !finalized && !IsSegmented(metadata.segmentCode)
      ensures exported == []
    {
      hide Setup;
      hide KeyKnown;
      hide Received;
      hide Shape;
      NothingFlattened();
    }

    /**
     Returns the batch decoding of what was fed, under the root check. Fails when finalized before,
     when tokens are missing, and when bytes have been exported on the way: the file is then short.
     */
    method Finalize() returns (r: Option<Bytes>)
      requires Valid()
      modifies this
      ensures old(finalized || nextTokenIndex != metadata.numTokens || exported != []) ==> r.None?
      ensures old(!finalized && nextTokenIndex == metadata.numTokens && exported == []) ==>
                var last := old(LastLogicalBlock());
                r == if RootOf(crypto, HashBlocks(crypto, old(blocks)) + [LeafOfLast(crypto, last)])
                        == metadata.rootHash
                     then DecryptCiphertext(crypto, parts, metadata, old(fed) + last) else None
    {
      hide PaddedLength;
      hide Queue;
      hide KeyKnown;
      hide Flatten;
      hide Full;
      hide RootOf;
      hide DecryptCiphertext;
      hide ReadyFile;
      hide Decoded;
      if !finalized && nextTokenIndex == metadata.numTokens {
        LengthOfFile(fed + LastLogicalBlock());
        if !IsSegmented(metadata.segmentCode) {
          WholeFileExportsNothing();
        }
      }
      var ok := CompleteFinalize();
      if !ok {
        return None;
      }
      var output: Bytes := [];
      ghost var file := output + Remaining();
      while true
        invariant Valid() && finalized && output + Remaining() == file
        decreases |Remaining()|
      {
        var remaining := RemainingLength();
        if remaining == 0 {
          break;
        }
        ghost var before := Remaining();
        var chunk := TakePlaintextChunk(Max(remaining, 1));
        if chunk.None? || chunk.value == [] {
          break;
        }
        assert before == chunk.value + Remaining();
        AppendAssoc(output, chunk.value, Remaining());
        output := output + chunk.value;
      }
      assert output + [] == output;
      r := if |output| != originalLength then None else Some(output);
    }

    method RemainingLength() returns (n: nat)
      requires Valid()
      ensures n == |Remaining()|
    {
      if IsSegmented(metadata.segmentCode) {
        n := ReadyFileBytesAvailable();
      } else {
        n := |plaintextPadded|;
      }
    }

    lemma LengthOfFile(stream: Bytes)
      requires Setup()
      ensures DecryptCiphertext(crypto, parts, metadata, stream).Some? ==>
                |DecryptCiphertext(crypto, parts, metadata, stream).value| == originalLength
    {
      hide PaddedLength;
      hide DecryptPayload;
    }
  }

  lemma NothingToOpen(c: Crypto, key: Bytes, size: nat)
    requires 0 < size
    ensures OpenSegments(c, key, [], size, 0) == Some([])
  {
  }

  lemma PushByte(before: Bytes, data: Bytes, offset: nat, records: Bytes, buffer: Bytes)
    requires offset < |data| && before + data[..offset] == records + buffer
    ensures before + data[..offset + 1] == records + (buffer + [data[offset]])
  {
    assert data[..offset + 1] == data[..offset] + [data[offset]];
    assert before + data[..offset + 1] == (before + data[..offset]) + [data[offset]];
  }
}
