/** The batch receiver: from the map of tokens and wire blobs back to file bytes. */
module Receiver {
  import opened ByteStrings
  import opened Cryptography
  import opened Merkle
  import opened Segment
  import opened WireLayouts
  import opened Smb
  import opened Sender

  /** Decrypt and read the metadata block at the head of token 0. */
  function ParseSmbEncrypted(c: Crypto, credential: Bytes, token0: Bytes): (r: Option<SmbMetadata>)
    ensures r.Some? ==> IsSupported(r.value.segmentCode) && SM_ENC_BYTES <= |token0|
  {
    var parts :- SplitCredential(credential);
    if |token0| < SM_ENC_BYTES then None
    else
      var plain :- Decrypt(c, SmbKey(c, parts), token0[..SM_ENC_BYTES]);
      Parse(c, plain)
  }

  function LastBlockLength(m: SmbMetadata): int {
    m.ciphertextLength - (m.numTokens - 1) * m.wireBlockSize
  }

  predicate Token0Consistent(m: SmbMetadata, token0: Bytes) {
    && |token0| == m.wireBlockSize
    && SM_ENC_BYTES + LastBlockLength(m) == m.wireBlockSize
  }

  const WORD: nat := 0x1_0000_0000_0000_0000

  // The source computes the last block length modulo 2^64; its check accepts the same metadata.
  lemma WrapAroundAgrees(m: SmbMetadata)
    requires 1 <= m.numTokens < 0x1_0000_0000 && SM_ENC_BYTES <= m.wireBlockSize < 0x1_0000_0000
    requires m.ciphertextLength < WORD
    ensures (SM_ENC_BYTES + LastBlockLength(m) % WORD) % WORD == m.wireBlockSize
       <==> SM_ENC_BYTES + LastBlockLength(m) == m.wireBlockSize
  {
    var leading := (m.numTokens - 1) * m.wireBlockSize;
    MulMonotone(0, m.numTokens - 1, m.wireBlockSize);
    MulMonotone(m.numTokens - 1, 0x1_0000_0000 - 2, m.wireBlockSize);
    assert 0 <= leading <= 0xFFFF_FFFE * 0xFFFF_FFFF;
    assert LastBlockLength(m) + WORD > 0 && LastBlockLength(m) < WORD;
  }

  /** Blobs 1 .. count, each of `wire` bytes. */
  function Fetch(c: Crypto, uploads: UploadMap, searchCode: Bytes, wire: nat, count: nat): Option<seq<Bytes>> {
    if count == 0 then Some([])
    else
      var front :- Fetch(c, uploads, searchCode, wire, count - 1);
      var token := c.uploadToken(searchCode, count);
      if token !in uploads || |uploads[token]| != wire then None else Some(front + [uploads[token]])
  }

  function LastBlock(m: SmbMetadata, token0: Bytes): Bytes
    requires Token0Consistent(m, token0) && SM_ENC_BYTES <= |token0|
  {
    token0[SM_ENC_BYTES..SM_ENC_BYTES + LastBlockLength(m)]
  }

  function CollectBlocks(c: Crypto, uploads: UploadMap, searchCode: Bytes, m: SmbMetadata): Option<seq<Bytes>> {
    if m.numTokens == 0 then Some([])
    else if c.uploadToken(searchCode, 0) !in uploads then None
    else
      var token0 := uploads[c.uploadToken(searchCode, 0)];
      if |token0| < SM_ENC_BYTES || !Token0Consistent(m, token0) then None
      else
        var leading :- Fetch(c, uploads, searchCode, m.wireBlockSize, m.numTokens - 1);
        var blocks := leading + [LastBlock(m, token0)];
        if RootOf(c, HashBlocks(c, blocks)) != m.rootHash then None else Some(blocks)
  }

  function UnwrapFek(c: Crypto, parts: CredentialParts, m: SmbMetadata): Option<Bytes> {
    Decrypt(c, c.slowKdf(parts.keyCode, m.saltRand), Pack(m.encryptedFek))
  }

  /** Decrypt a ciphertext of the announced length and strip the padding in front. */
  function DecryptCiphertext(c: Crypto, parts: CredentialParts, m: SmbMetadata, ciphertext: Bytes): Option<Bytes>
    requires IsSupported(m.segmentCode)
  {
    if |ciphertext| != m.ciphertextLength then None
    else
      var fek :- UnwrapFek(c, parts, m);
      var padded :- PaddedLength(m.ciphertextLength, m.segmentCode);
      var plain :- DecryptPayload(c, fek, ciphertext, m.segmentCode, padded);
      if padded < m.originalFileLength || |plain| != padded then None
      else Some(plain[padded - m.originalFileLength..])
  }

  function Receive(c: Crypto, credential: Bytes, uploads: UploadMap): Option<Bytes> {
    var parts :- SplitCredential(credential);
    var token := c.uploadToken(parts.searchCode, 0);
    if token !in uploads then None
    else
      var m :- ParseSmbEncrypted(c, credential, uploads[token]);
      var blocks :- CollectBlocks(c, uploads, parts.searchCode, m);
      DecryptCiphertext(c, parts, m, Flatten(blocks))
  }

  // Blob `index` is stored and is this one wire block.
  ghost predicate BlobIs(c: Crypto, uploads: UploadMap, searchCode: Bytes, wire: nat, index: nat, block: Bytes) {
    && c.uploadToken(searchCode, index) in uploads
    && uploads[c.uploadToken(searchCode, index)] == block
    && |block| == wire
  }

  // The first `count` blocks are blobs 1 .. count.
  ghost predicate Fetched(c: Crypto, uploads: UploadMap, searchCode: Bytes, wire: nat, count: nat, blocks: seq<Bytes>)
    requires count <= |blocks|
  {
    forall i | 0 <= i < count :: BlobIs(c, uploads, searchCode, wire, i + 1, blocks[i])
  }

  lemma FetchedPrefix(c: Crypto, uploads: UploadMap, searchCode: Bytes, wire: nat, blocks: seq<Bytes>, x: Bytes)
    ensures Fetched(c, uploads, searchCode, wire, |blocks|, blocks + [x])
       <==> Fetched(c, uploads, searchCode, wire, |blocks|, blocks)
  {
    hide BlobIs;
    var longer := blocks + [x];
    forall i | 0 <= i < |blocks|
      ensures BlobIs(c, uploads, searchCode, wire, i + 1, longer[i])
         <==> BlobIs(c, uploads, searchCode, wire, i + 1, blocks[i])
    {
    }
  }

  lemma {:induction false} FetchExactly(c: Crypto, uploads: UploadMap, searchCode: Bytes, wire: nat, count: nat,
                                        blocks: seq<Bytes>)
    ensures Fetch(c, uploads, searchCode, wire, count) == Some(blocks) <==>
              |blocks| == count && Fetched(c, uploads, searchCode, wire, count, blocks)
  {
    if count > 0 {
      hide Fetched;
      if |blocks| == count {
        var front, x := blocks[..count - 1], blocks[count - 1];
        assert blocks == front + [x];
        FetchExactly(c, uploads, searchCode, wire, count - 1, front);
        FetchedSnoc(c, uploads, searchCode, wire, front, x);
      }
      if Fetch(c, uploads, searchCode, wire, count) == Some(blocks) {
        var front := Fetch(c, uploads, searchCode, wire, count - 1).value;
        FetchExactly(c, uploads, searchCode, wire, count - 1, front);
      }
    }
  }

  lemma FetchedSnoc(c: Crypto, uploads: UploadMap, searchCode: Bytes, wire: nat, blocks: seq<Bytes>, x: Bytes)
    ensures Fetched(c, uploads, searchCode, wire, |blocks| + 1, blocks + [x])
       <==> Fetched(c, uploads, searchCode, wire, |blocks|, blocks)
            && BlobIs(c, uploads, searchCode, wire, |blocks| + 1, x)
  {
    FetchedPrefix(c, uploads, searchCode, wire, blocks, x);
    hide BlobIs;
    assert (blocks + [x])[|blocks|] == x;
  }

  lemma LastBlockIs(m: SmbMetadata, token0: Bytes, last: Bytes)
    requires 1 <= m.numTokens
    ensures SM_ENC_BYTES <= |token0| && Token0Consistent(m, token0) && last == LastBlock(m, token0) <==>
              && 373 <= |token0| == m.wireBlockSize && last == token0[373..]
              && m.ciphertextLength == (m.numTokens - 1) * m.wireBlockSize + |last|
  {
  }

  // What the collected blocks are, once all checks have passed.
  lemma CollectedFrom(c: Crypto, uploads: UploadMap, searchCode: Bytes, m: SmbMetadata)
    returns (leading: seq<Bytes>, last: Bytes)
    requires 1 <= m.numTokens && CollectBlocks(c, uploads, searchCode, m).Some?
    ensures var token := c.uploadToken(searchCode, 0);
            && token in uploads && SM_ENC_BYTES <= |uploads[token]| && Token0Consistent(m, uploads[token])
            && last == LastBlock(m, uploads[token])
            && Fetch(c, uploads, searchCode, m.wireBlockSize, m.numTokens - 1) == Some(leading)
            && CollectBlocks(c, uploads, searchCode, m) == Some(leading + [last])
            && RootOf(c, HashBlocks(c, leading + [last])) == m.rootHash
  {
    hide Fetch;
    hide RootOf;
    hide HashBlocks;
    leading := Fetch(c, uploads, searchCode, m.wireBlockSize, m.numTokens - 1).value;
    last := LastBlock(m, uploads[c.uploadToken(searchCode, 0)]);
  }

  lemma CollectsThese(c: Crypto, uploads: UploadMap, searchCode: Bytes, m: SmbMetadata, leading: seq<Bytes>,
                      last: Bytes)
    requires 1 <= m.numTokens && Fetch(c, uploads, searchCode, m.wireBlockSize, m.numTokens - 1) == Some(leading)
    requires var token := c.uploadToken(searchCode, 0);
             && token in uploads && SM_ENC_BYTES <= |uploads[token]| && Token0Consistent(m, uploads[token])
             && last == LastBlock(m, uploads[token])
    requires RootOf(c, HashBlocks(c, leading + [last])) == m.rootHash
    ensures CollectBlocks(c, uploads, searchCode, m) == Some(leading + [last])
  {
    hide Fetch;
    hide RootOf;
    hide HashBlocks;
  }

  /**
   The collected blocks are blobs 1, 2, ... of one wire block each and the end of token 0 behind its
   metadata, in that order; they make up the announced ciphertext length and have the announced root.
   */
  ghost predicate Collected(c: Crypto, uploads: UploadMap, searchCode: Bytes, m: SmbMetadata, blocks: seq<Bytes>) {
    var n, wire, token := m.numTokens, m.wireBlockSize, c.uploadToken(searchCode, 0);
    && 1 <= |blocks| == n
    && token in uploads && |uploads[token]| == wire && 373 <= wire
    && blocks[n - 1] == uploads[token][373..]
    && Fetched(c, uploads, searchCode, wire, n - 1, blocks)
    && m.ciphertextLength == (n - 1) * wire + |blocks[n - 1]|
    && RootOf(c, HashBlocks(c, blocks)) == m.rootHash
  }

  lemma CollectedParts(c: Crypto, uploads: UploadMap, searchCode: Bytes, m: SmbMetadata, leading: seq<Bytes>,
                       last: Bytes)
    requires 1 <= m.numTokens
    ensures Collected(c, uploads, searchCode, m, leading + [last]) <==>
              var token := c.uploadToken(searchCode, 0);
              && token in uploads && SM_ENC_BYTES <= |uploads[token]| && Token0Consistent(m, uploads[token])
              && last == LastBlock(m, uploads[token])
              && Fetch(c, uploads, searchCode, m.wireBlockSize, m.numTokens - 1) == Some(leading)
              && RootOf(c, HashBlocks(c, leading + [last])) == m.rootHash
  {
    hide Fetch;
    hide RootOf;
    hide HashBlocks;
    hide Token0Consistent;
    hide LastBlock;
    hide LastBlockLength;
    hide Fetched;
    var n, token, blocks := m.numTokens, c.uploadToken(searchCode, 0), leading + [last];
    FetchExactly(c, uploads, searchCode, m.wireBlockSize, n - 1, leading);
    FetchedPrefix(c, uploads, searchCode, m.wireBlockSize, leading, last);
    if token in uploads {
      LastBlockIs(m, uploads[token], last);
    }
    assert blocks[|leading|] == last;
  }

  /** Blocks are returned exactly when they are these. */
  lemma CollectedExactly(c: Crypto, uploads: UploadMap, searchCode: Bytes, m: SmbMetadata, blocks: seq<Bytes>)
    requires 1 <= m.numTokens
    ensures CollectBlocks(c, uploads, searchCode, m) == Some(blocks) <==> Collected(c, uploads, searchCode, m, blocks)
  {
    hide Fetch;
    hide RootOf;
    hide HashBlocks;
    hide Token0Consistent;
    hide LastBlock;
    hide CollectBlocks;
    hide Collected;
    if CollectBlocks(c, uploads, searchCode, m) == Some(blocks) {
      var leading, last := CollectedFrom(c, uploads, searchCode, m);
      CollectedParts(c, uploads, searchCode, m, leading, last);
    }
    if Collected(c, uploads, searchCode, m, blocks) {
      CollectedIsNotEmpty(c, uploads, searchCode, m, blocks);
      var leading, last := blocks[..|blocks| - 1], blocks[|blocks| - 1];
      assert leading + [last] == blocks;
      CollectedParts(c, uploads, searchCode, m, leading, last);
      CollectsThese(c, uploads, searchCode, m, leading, last);
    }
  }

  lemma CollectedIsNotEmpty(c: Crypto, uploads: UploadMap, searchCode: Bytes, m: SmbMetadata, blocks: seq<Bytes>)
    requires Collected(c, uploads, searchCode, m, blocks)
    ensures blocks != []
  {
  }

  // ---------- The receiver's methods ----------

  method ParseSmb(c: Crypto, credential: Bytes, token0: Bytes) returns (r: Option<SmbMetadata>)
    ensures r == ParseSmbEncrypted(c, credential, token0)
  {
    hide Parse;
    var parts := SplitCredential(credential);
    if parts.None? || |token0| < SM_ENC_BYTES {
      return None;
    }
    var plain := Decrypt(c, SmbKey(c, parts.value), token0[..SM_ENC_BYTES]);
    if plain.None? {
      return None;
    }
    r := DeserializeSmb(c, plain.value);
  }

  method CollectBlocksFromUploads(c: Crypto, uploads: UploadMap, searchCode: Bytes, m: SmbMetadata)
    returns (r: Option<seq<Bytes>>)
    requires c.uploadToken(searchCode, 0) in uploads
    requires SM_ENC_BYTES <= |uploads[c.uploadToken(searchCode, 0)]|
    ensures r == CollectBlocks(c, uploads, searchCode, m)
  {
    hide RootOf;
    if m.numTokens == 0 {
      return Some([]);
    }
    var token0 := uploads[c.uploadToken(searchCode, 0)];
    if !Token0Consistent(m, token0) {
      return None;
    }
    var blocks: seq<Bytes> := [];
    var index := 1;
    while index < m.numTokens
      invariant 1 <= index <= m.numTokens
      invariant Fetch(c, uploads, searchCode, m.wireBlockSize, index - 1) == Some(blocks)
    {
      var token := c.uploadToken(searchCode, index);
      if token !in uploads || |uploads[token]| != m.wireBlockSize {
        FetchStops(c, uploads, searchCode, m.wireBlockSize, index, m.numTokens - 1);
        return None;
      }
      blocks := blocks + [uploads[token]];
      index := index + 1;
    }
    blocks := blocks + [LastBlock(m, token0)];
    var ok := VerifyMerkleRoot(c, blocks, m.rootHash);
    r := if ok then Some(blocks) else None;
  }

  lemma {:induction false} FetchStops(c: Crypto, uploads: UploadMap, searchCode: Bytes, wire: nat, at: nat, count: nat)
    requires at <= count && Fetch(c, uploads, searchCode, wire, at).None?
    ensures Fetch(c, uploads, searchCode, wire, count).None?
    decreases count - at
  {
    if at < count {
      FetchStops(c, uploads, searchCode, wire, at, count - 1);
    }
  }

  method ConcatenateBlocks(blocks: seq<Bytes>) returns (ciphertext: Bytes)
    ensures ciphertext == Flatten(blocks)
  {
    ciphertext := [];
    for i := 0 to |blocks|
      invariant ciphertext == Flatten(blocks[..i])
    {
      assert blocks[..i + 1][..i] == blocks[..i];
      ciphertext := ciphertext + blocks[i];
    }
    assert blocks[..|blocks|] == blocks;
  }

  method DecryptFile(c: Crypto, parts: CredentialParts, m: SmbMetadata, blocks: seq<Bytes>)
    returns (r: Option<Bytes>)
    requires IsSupported(m.segmentCode)
    ensures r == DecryptCiphertext(c, parts, m, Flatten(blocks))
  {
    hide Flatten;
    hide OpenSegments;
    hide SearchPaddedLength;
    hide Decrypt;
    var ciphertext := ConcatenateBlocks(blocks);
    if |ciphertext| != m.ciphertextLength {
      return None;
    }
    var fek := UnwrapFek(c, parts, m);
    if fek.None? {
      return None;
    }
    var padded := PaddedPlaintextLengthFromCiphertext(m.ciphertextLength, m.segmentCode);
    if padded.None? {
      return None;
    }
    var plain: Option<Bytes>;
    if IsWholeFile(m.segmentCode) {
      plain := Decrypt(c, fek.value, ciphertext);
      plain := if plain.None? || |plain.value| != padded.value then None else plain;
    } else {
      plain := DecryptPayloadV21Segmented(c, fek.value, ciphertext, m.segmentCode, padded.value);
    }
    if plain.None? || padded.value < m.originalFileLength || |plain.value| != padded.value {
      return None;
    }
    r := Some(plain.value[padded.value - m.originalFileLength..]);
  }

  method ReceiveFromUploadMap(c: Crypto, credential: Bytes, uploads: UploadMap) returns (r: Option<Bytes>)
    ensures r == Receive(c, credential, uploads)
  {
    hide Parse;
    hide Fetch;
    hide RootOf;
    hide DecryptCiphertext;
    var parts := SplitCredential(credential);
    if parts.None? {
      return None;
    }
    var token := c.uploadToken(parts.value.searchCode, 0);
    if token !in uploads {
      return None;
    }
    var metadata := ParseSmb(c, credential, uploads[token]);
    if metadata.None? {
      return None;
    }
    var blocks := CollectBlocksFromUploads(c, uploads, parts.value.searchCode, metadata.value);
    if blocks.None? {
      return None;
    }
    r := DecryptFile(c, parts.value, metadata.value, blocks.value);
  }
}
