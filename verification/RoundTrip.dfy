/** End to end: receiving what the batch sender prepared. */
module RoundTrip {
  import opened ByteStrings
  import opened Cryptography
  import opened FileNames
  import opened Merkle
  import opened Segment
  import opened WireLayouts
  import opened LayoutTotality
  import opened Smb
  import opened SmbRoundTrip
  import opened Sender
  import opened Receiver

  /** The pieces of one successful upload. */
  datatype Honest = Honest(
    parts: CredentialParts,
    layout: WireLayout,
    blocks: seq<Bytes>,
    metadata: SmbMetadata,
    count: nat,
    token0: Bytes)

  function HonestUpload(c: Crypto, tape: Tape, request: UploadRequest, file: Bytes): Option<Honest> {
    var parts :- SplitCredential(request.credential);
    if !IsSupported(request.segmentCode) then None
    else
      var layout :- WireLayoutFor(|file|, request.segmentCode, request.maxWireBlockBytes);
      var blocks := LogicalBlocks(c, tape, request, layout, file);
      var count := RecordCount(request, layout, file);
      var metadata :- MetadataOf(c, tape, parts, request, layout, |file|, TreeOf(c, HashBlocks(c, blocks)), count);
      Some(Honest(parts, layout, blocks, metadata, count,
                  SealSmb(c, tape, parts, metadata, count) + blocks[|blocks| - 1]))
  }

  /** The integers of the metadata block hold the layout (it does for files up to 1 TiB). */
  predicate FitsIntegers(layout: WireLayout, fileLength: nat) {
    layout.numTokens < 0x1_0000_0000 && layout.ciphertextLength < WORD && fileLength < WORD
  }

  ghost predicate Uploaded(c: Crypto, tape: Tape, request: UploadRequest, file: Bytes, h: Honest) {
    && Ideal(c)
    && HonestUpload(c, tape, request, file) == Some(h)
    && FitsIntegers(h.layout, |file|)
  }

  lemma HonestEncodes(c: Crypto, tape: Tape, request: UploadRequest, file: Bytes)
    ensures Encode(c, tape, request, file).Some? <==> HonestUpload(c, tape, request, file).Some?
    ensures Encode(c, tape, request, file).Some? ==>
              var h := HonestUpload(c, tape, request, file).value;
              Encode(c, tape, request, file).value == [h.token0] + h.blocks[..|h.blocks| - 1]
  {
    hide Search;
    hide LogicalBlocks;
    hide TreeOf;
    hide SealSmb;
  }

  // The sizes and the metadata of an honest upload.
  lemma HonestFacts(c: Crypto, tape: Tape, request: UploadRequest, file: Bytes, h: Honest)
    requires Uploaded(c, tape, request, file, h)
    ensures Partitions(h.layout, request.maxWireBlockBytes) && |h.blocks| == h.layout.numTokens
    ensures Full(h.blocks[..|h.blocks| - 1], h.layout.wireBlockSize)
    ensures |h.blocks[|h.blocks| - 1]| == h.layout.lastBlockLength
    ensures Encodable(h.metadata)
    ensures |SealSmb(c, tape, h.parts, h.metadata, h.count)| == SM_ENC_BYTES
    ensures |h.token0| == h.layout.wireBlockSize
    ensures h.token0 == SealSmb(c, tape, h.parts, h.metadata, h.count) + h.blocks[|h.blocks| - 1]
    ensures h.metadata.rootHash == RootOf(c, HashBlocks(c, h.blocks))
    ensures h.metadata.numTokens == h.layout.numTokens && h.metadata.wireBlockSize == h.layout.wireBlockSize
    ensures h.metadata.ciphertextLength == h.layout.ciphertextLength
    ensures 1 <= |h.blocks|
  {
    hide Search;
    hide LogicalBlocks;
    hide Levels;
    hide Print;
    hide EncryptPayload;
    hide CiphertextLength;
    hide Truncate;
    hide RemoveNuls;
    hide LastComponent;
    BlocksFit(c, tape, request, file);
    var tree := TreeOf(c, HashBlocks(c, h.blocks));
    RootLength(c, HashBlocks(c, h.blocks));
    MetadataWellSized(c, tape, h.parts, request, h.layout, |file|, tree, h.count);
    Token0Length(c, tape, h.parts, request, h.layout, |file|, tree, h.blocks[|h.blocks| - 1], h.count);
    NormalizedNameIsFixed(request.fileName, request.segmentCode);
  }

  lemma NormalizedNameIsFixed(name: Bytes, code: nat)
    ensures Normalize(NormalizeForCode(name, code)) == NormalizeForCode(name, code)
  {
    hide Normalize;
    NormalizeCleans(name);
    NormalizeFixedPoint(NormalizeForCode(name, code));
  }

  /** The receiver reads the sender's metadata exactly when the name stays clear of the code. */
  lemma HonestParse(c: Crypto, tape: Tape, request: UploadRequest, file: Bytes, h: Honest)
    requires Uploaded(c, tape, request, file, h)
    ensures NameSurvives(h.metadata.originalFileName, request.segmentCode) ==>
              ParseSmbEncrypted(c, request.credential, h.token0) == Some(WithoutLevels(h.metadata))
    ensures !NameSurvives(h.metadata.originalFileName, request.segmentCode) ==>
              ParseSmbEncrypted(c, request.credential, h.token0)
              == if NameMisread(h.metadata.originalFileName) then Some(Misread(h.metadata)) else None
  {
    hide Search;
    hide LogicalBlocks;
    hide TreeOf;
    hide Print;
    hide Parse;
    hide Encodable;
    hide Partitions;
    hide Full;
    HonestFacts(c, tape, request, file, h);
    ParsePrint(c, h.metadata);
    var sEnc := SealSmb(c, tape, h.parts, h.metadata, h.count);
    assert h.token0[..SM_ENC_BYTES] == sEnc;
  }

  lemma {:induction false} FetchHonest(c: Crypto, searchCode: Bytes, wires: seq<Bytes>, leading: seq<Bytes>,
                                       wire: nat, n: nat)
    requires TokensDistinct(c, searchCode, |wires|) && wires != [] && leading == wires[1..]
    requires Full(leading, wire) && n <= |leading|
    ensures Fetch(c, MapOf(c, searchCode, wires), searchCode, wire, n) == Some(leading[..n])
  {
    hide MapOf;
    hide TokensDistinct;
    if n > 0 {
      FetchHonest(c, searchCode, wires, leading, wire, n - 1);
      MapOfDistinct(c, searchCode, wires);
      assert c.uploadToken(searchCode, n) in MapOf(c, searchCode, wires);
      assert leading[..n] == leading[..n - 1] + [leading[n - 1]];
    }
  }

  lemma CollectFrom(c: Crypto, uploads: UploadMap, searchCode: Bytes, m: SmbMetadata, token0: Bytes,
                    leading: seq<Bytes>, last: Bytes)
    requires c.uploadToken(searchCode, 0) in uploads && uploads[c.uploadToken(searchCode, 0)] == token0
    requires SM_ENC_BYTES <= |token0| && Token0Consistent(m, token0) && LastBlock(m, token0) == last
    requires 1 <= m.numTokens
    requires Fetch(c, uploads, searchCode, m.wireBlockSize, m.numTokens - 1) == Some(leading)
    requires RootOf(c, HashBlocks(c, leading + [last])) == m.rootHash
    ensures CollectBlocks(c, uploads, searchCode, m) == Some(leading + [last])
  {
  }

  lemma HonestLastBlock(c: Crypto, tape: Tape, request: UploadRequest, file: Bytes, h: Honest)
    requires Uploaded(c, tape, request, file, h)
    ensures var m := WithoutLevels(h.metadata);
            && SM_ENC_BYTES <= |h.token0| && Token0Consistent(m, h.token0)
            && LastBlock(m, h.token0) == h.blocks[|h.blocks| - 1]
  {
    hide Uploaded;
    hide Full;
    hide Encodable;
    hide RootOf;
    HonestFacts(c, tape, request, file, h);
  }

  lemma HonestCollect(c: Crypto, tape: Tape, request: UploadRequest, file: Bytes, h: Honest, uploads: UploadMap)
    requires Uploaded(c, tape, request, file, h)
    requires TokensDistinct(c, h.parts.searchCode, |h.blocks|)
    requires uploads == MapOf(c, h.parts.searchCode, [h.token0] + h.blocks[..|h.blocks| - 1])
    ensures CollectBlocks(c, uploads, h.parts.searchCode, WithoutLevels(h.metadata)) == Some(h.blocks)
  {
    hide Uploaded;
    hide CollectBlocks;
    hide Fetch;
    hide Partitions;
    hide Token0Consistent;
    hide LastBlock;
    hide TokensDistinct;
    hide MapOf;
    hide Full;
    hide Encodable;
    hide RootOf;
    HonestFacts(c, tape, request, file, h);
    var m := WithoutLevels(h.metadata);
    var n := |h.blocks|;
    var leading, last := h.blocks[..n - 1], h.blocks[n - 1];
    var wires := [h.token0] + leading;
    WireSlices(h.blocks, h.token0);
    FetchHonest(c, h.parts.searchCode, wires, leading, h.layout.wireBlockSize, n - 1);
    Token0IsStored(c, h.parts.searchCode, wires);
    HonestLastBlock(c, tape, request, file, h);
    CollectFrom(c, uploads, h.parts.searchCode, m, h.token0, leading, last);
  }

  lemma WireSlices(blocks: seq<Bytes>, token0: Bytes)
    requires blocks != []
    ensures var n := |blocks|;
            var leading := blocks[..n - 1];
            && |[token0] + leading| == n && ([token0] + leading)[0] == token0 && ([token0] + leading)[1..] == leading
            && leading[..n - 1] == leading && leading + [blocks[n - 1]] == blocks
  {
  }

  lemma HonestFek(c: Crypto, tape: Tape, request: UploadRequest, file: Bytes, h: Honest)
    requires Uploaded(c, tape, request, file, h)
    ensures UnwrapFek(c, h.parts, WithoutLevels(h.metadata)) == Some(Fek(tape))
  {
    hide Search;
    hide LogicalBlocks;
    hide Levels;
    hide Print;
    RootLength(c, HashBlocks(c, h.blocks));
    MetadataWellSized(c, tape, h.parts, request, h.layout, |file|, TreeOf(c, HashBlocks(c, h.blocks)), h.count);
    UnwrapsFek(c, tape, h.parts, h.metadata, h.count);
  }

  lemma HonestStream(c: Crypto, tape: Tape, request: UploadRequest, file: Bytes, h: Honest)
    requires Uploaded(c, tape, request, file, h)
    ensures IsSupported(request.segmentCode) && h.metadata.segmentCode == request.segmentCode
    ensures var padded := PaddedPlaintext(h.layout, file);
            && Flatten(h.blocks) == EncryptPayload(c, Fek(tape), tape, SEGMENT_POS, padded, request.segmentCode)
            && |Flatten(h.blocks)| == h.metadata.ciphertextLength == CiphertextLength(|padded|, request.segmentCode)
    ensures h.metadata.originalFileLength == |file|
  {
    hide Search;
    hide Levels;
    hide Print;
    hide EncryptPayload;
    hide CiphertextLength;
    hide SplitWire;
    hide Flatten;
    hide Full;
    BlocksFit(c, tape, request, file);
  }

  lemma PaddingBehind(layout: WireLayout, file: Bytes)
    ensures var padded := PaddedPlaintext(layout, file);
            |padded| == layout.plaintextPadding + |file| && padded[layout.plaintextPadding..] == file
  {
  }

  lemma HonestDecrypt(c: Crypto, tape: Tape, request: UploadRequest, file: Bytes, h: Honest)
    requires Uploaded(c, tape, request, file, h)
    ensures IsSegmented(request.segmentCode) && h.layout.plaintextPadding + |file| == 0 ==>
              DecryptCiphertext(c, h.parts, WithoutLevels(h.metadata), Flatten(h.blocks)).None?
    ensures IsWholeFile(request.segmentCode) || 0 < h.layout.plaintextPadding + |file| ==>
              DecryptCiphertext(c, h.parts, WithoutLevels(h.metadata), Flatten(h.blocks)) == Some(file)
  {
    hide HonestUpload;
    hide Flatten;
    hide EncryptPayload;
    hide DecryptPayload;
    hide CiphertextLength;
    hide PaddedLength;
    hide Ideal;
    hide UnwrapFek;
    hide PaddedPlaintext;
    HonestStream(c, tape, request, file, h);
    HonestFek(c, tape, request, file, h);
    var padded := PaddedPlaintext(h.layout, file);
    PaddingBehind(h.layout, file);
    PayloadRoundTrip(c, Fek(tape), tape, SEGMENT_POS, padded, request.segmentCode);
    LengthInverseExact(h.metadata.ciphertextLength, request.segmentCode, |padded|);
    if IsSegmented(request.segmentCode) && |padded| == 0 {
      EmptyCiphertext(request.segmentCode);
    }
  }

  lemma UnwrapsFek(c: Crypto, tape: Tape, parts: CredentialParts, m: SmbMetadata, count: nat)
    requires Ideal(c) && Pack(m.encryptedFek) == WrapFek(c, tape, parts, count) && m.saltRand == SaltRand(tape)
    ensures UnwrapFek(c, parts, WithoutLevels(m)) == Some(Fek(tape))
  {
  }

  lemma EmptyCiphertext(code: nat)
    requires IsSegmented(code)
    ensures CiphertextLength(0, code) == 0 && PaddedLength(0, code).None?
  {
    CeilDivUnique(0, SegmentPlaintextBytes(code), 0);
  }

  // In segmented mode an empty file gets no padding.
  lemma EmptySegmentedLayout(code: nat, cap: nat)
    requires IsSegmented(code) && ValidCap(cap)
    ensures WireLayoutFor(0, code, cap).Some? && WireLayoutFor(0, code, cap).value.plaintextPadding == 0
  {
    EmptyCiphertext(code);
    CeilDivUnique(SM_ENC_BYTES, cap, 1);
    CeilDivUnique(0, WIRE_BLOCK_REF, 0);
    MaxTokensBounds(SM_ENC_BYTES, cap);
    assert Fits(SM_ENC_BYTES, cap, 1);
    SearchHits(0, code, cap, 0);
  }

  /** When the receiver gets the file back, in terms of what the sender is given. */
  predicate Receivable(request: UploadRequest, file: Bytes) {
    if IsWholeFile(request.segmentCode)
    then |Normalize(request.fileName)| <= V21_SEGMENT_CODE_FIELD_OFFSET
    else file != []
  }

  /**
   The round trip: what the batch receiver makes of a batch upload is exactly the file, if and
   only if a whole-file name has at most 120 bytes and a segmented file is not empty. The one kind
   of name that is misread rather than rejected is `ReceiveMisread`.
   */
  lemma ReceivePrepared(c: Crypto, tape: Tape, request: UploadRequest, file: Bytes)
    requires Ideal(c) && Encode(c, tape, request, file).Some?
    requires FitsIntegers(WireLayoutFor(|file|, request.segmentCode, request.maxWireBlockBytes).value, |file|)
    requires TokensDistinct(c, SplitCredential(request.credential).value.searchCode,
                            |Encode(c, tape, request, file).value|)
    ensures var searchCode := SplitCredential(request.credential).value.searchCode;
            var uploads := MapOf(c, searchCode, Encode(c, tape, request, file).value);
            && (Receivable(request, file) ==> Receive(c, request.credential, uploads) == Some(file))
            && (!Receivable(request, file)
                && !(IsWholeFile(request.segmentCode) && NameMisread(Normalize(request.fileName))) ==>
                  Receive(c, request.credential, uploads).None?)
  {
    hide Search;
    hide Encode;
    hide MapOf;
    hide LogicalBlocks;
    hide Levels;
    hide Print;
    hide ParseSmbEncrypted;
    hide CollectBlocks;
    hide DecryptCiphertext;
    hide Normalize;
    hide TokensDistinct;
    HonestEncodes(c, tape, request, file);
    var h := HonestUpload(c, tape, request, file).value;
    var wires := Encode(c, tape, request, file).value;
    var uploads := MapOf(c, h.parts.searchCode, wires);
    HonestFacts(c, tape, request, file, h);
    HonestParse(c, tape, request, file, h);
    Token0IsStored(c, h.parts.searchCode, wires);
    if NameSurvives(h.metadata.originalFileName, request.segmentCode) {
      HonestCollect(c, tape, request, file, h, uploads);
      HonestDecrypt(c, tape, request, file, h);
      if IsSegmented(request.segmentCode) && file == [] {
        EmptySegmentedLayout(request.segmentCode, request.maxWireBlockBytes);
      }
    }
  }

  // Collecting looks only at the sizes and the root in the metadata.
  lemma CollectSame(c: Crypto, uploads: UploadMap, searchCode: Bytes, a: SmbMetadata, b: SmbMetadata)
    requires a.numTokens == b.numTokens && a.wireBlockSize == b.wireBlockSize
    requires a.ciphertextLength == b.ciphertextLength && a.rootHash == b.rootHash
    ensures CollectBlocks(c, uploads, searchCode, a) == CollectBlocks(c, uploads, searchCode, b)
  {
    hide RootOf;
    hide Fetch;
    assert LastBlockLength(a) == LastBlockLength(b);
  }

  // The one record of a whole file, opened as segments of `size` bytes.
  lemma OpenAsSegments(c: Crypto, key: Bytes, tape: Tape, padded: Bytes, code: nat)
    requires Ideal(c) && |key| == KEY_BYTES && IsSegmented(code)
    ensures var size := SegmentPlaintextBytes(code);
            var record := EncryptPayload(c, key, tape, SEGMENT_POS, padded, V2_SEGMENT_CODE_WHOLE_FILE);
            var length := PaddedLength(|record|, code);
            && |record| == |padded| + GCM_ENVELOPE_BYTES
            && (|padded| == 0 ==> length.None?)
            && (0 < |padded| <= size ==>
                  length == Some(|padded|) && DecryptPayload(c, key, record, code, |padded|) == Some(padded))
            && (size < |padded| && length.Some?
                && DecryptPayload(c, key, record, code, length.value).Some? ==>
                  Decrypt(c, key, record[..size + GCM_ENVELOPE_BYTES]).Some?)
  {
    hide Flatten;
    hide SealSegments;
    hide SearchPaddedLength;
    hide Decrypt;
    var size := SegmentPlaintextBytes(code);
    var record := EncryptPayload(c, key, tape, SEGMENT_POS, padded, V2_SEGMENT_CODE_WHOLE_FILE);
    PayloadLength(c, key, tape, SEGMENT_POS, padded, V2_SEGMENT_CODE_WHOLE_FILE);
    WholeFileRoundTrip(c, key, tape, SEGMENT_POS, padded);
    var length := PaddedLength(|record|, code);
    if length.Some? {
      LengthInverseExact(|record|, code, length.value);
      CeilDivBounds(length.value, size);
    }
    if 0 < |padded| <= size {
      CeilDivUnique(|padded|, size, 1);
      LengthInverseExact(|record|, code, |padded|);
      OneRecord(c, key, record, padded, size);
    }
  }

  lemma OneRecord(c: Crypto, key: Bytes, record: Bytes, padded: Bytes, size: nat)
    requires 0 < |padded| <= size && |record| == |padded| + GCM_ENVELOPE_BYTES
    requires Decrypt(c, key, record) == Some(padded)
    ensures OpenSegments(c, key, record, size, |padded|) == Some(padded)
  {
    assert record[..|record|] == record && record[|record|..] == [];
    assert OpenSegments(c, key, [], size, 0) == Some([]);
    assert padded + [] == padded;
  }

  // What the receiver makes of the one record once it takes the upload for a segmented one.
  lemma MisreadDecrypt(c: Crypto, tape: Tape, request: UploadRequest, file: Bytes, h: Honest)
    requires Uploaded(c, tape, request, file, h) && IsWholeFile(request.segmentCode)
    requires NameMisread(h.metadata.originalFileName)
    ensures var m := Misread(h.metadata);
            var size := SegmentPlaintextBytes(m.segmentCode);
            var padded := PaddedPlaintext(h.layout, file);
            var record := EncryptPayload(c, Fek(tape), tape, SEGMENT_POS, padded, V2_SEGMENT_CODE_WHOLE_FILE);
            var received := DecryptCiphertext(c, h.parts, m, Flatten(h.blocks));
            && (0 < |padded| <= size ==> received == Some(file))
            && (|padded| == 0 ==> received.None?)
            && (size < |padded| ==>
                  || received.None?
                  || (size + GCM_ENVELOPE_BYTES < |record|
                      && Decrypt(c, Fek(tape), record[..size + GCM_ENVELOPE_BYTES]).Some?))
  {
    hide HonestUpload;
    hide EncryptPayload;
    hide DecryptPayload;
    hide PaddedLength;
    hide CiphertextLength;
    hide Decrypt;
    hide Flatten;
    hide Ideal;
    hide UnwrapFek;
    hide PaddedPlaintext;
    hide SegmentPlaintextBytes;
    var m := Misread(h.metadata);
    HonestStream(c, tape, request, file, h);
    HonestFek(c, tape, request, file, h);
    SameFek(c, h.parts, WithoutLevels(h.metadata), m);
    OpenAsSegments(c, Fek(tape), tape, PaddedPlaintext(h.layout, file), m.segmentCode);
    PaddingBehind(h.layout, file);
  }

  lemma SameFek(c: Crypto, parts: CredentialParts, a: SmbMetadata, b: SmbMetadata)
    requires a.saltRand == b.saltRand && a.encryptedFek == b.encryptedFek
    ensures UnwrapFek(c, parts, a) == UnwrapFek(c, parts, b)
  {
  }

  /**
   A whole-file name of 121 bytes whose last byte is a segment code is taken for a segmented
   upload. The file still comes back if it is one segment at most; an empty one is refused, and
   a longer one too, unless the front of its record opens as a record of its own.
   */
  lemma ReceiveMisread(c: Crypto, tape: Tape, request: UploadRequest, file: Bytes)
    requires Ideal(c) && Encode(c, tape, request, file).Some? && IsWholeFile(request.segmentCode)
    requires NameMisread(Normalize(request.fileName))
    requires FitsIntegers(WireLayoutFor(|file|, request.segmentCode, request.maxWireBlockBytes).value, |file|)
    requires TokensDistinct(c, SplitCredential(request.credential).value.searchCode,
                            |Encode(c, tape, request, file).value|)
    ensures var searchCode := SplitCredential(request.credential).value.searchCode;
            var uploads := MapOf(c, searchCode, Encode(c, tape, request, file).value);
            var layout := WireLayoutFor(|file|, request.segmentCode, request.maxWireBlockBytes).value;
            var size := SegmentPlaintextBytes(Normalize(request.fileName)[V21_SEGMENT_CODE_FIELD_OFFSET]);
            var padded := PaddedPlaintext(layout, file);
            var record := EncryptPayload(c, Fek(tape), tape, SEGMENT_POS, padded, request.segmentCode);
            var received := Receive(c, request.credential, uploads);
            && (0 < |padded| <= size ==> received == Some(file))
            && (|padded| == 0 ==> received.None?)
            && (size < |padded| ==>
                  || received.None?
                  || (size + GCM_ENVELOPE_BYTES < |record|
                      && Decrypt(c, Fek(tape), record[..size + GCM_ENVELOPE_BYTES]).Some?))
  {
    hide Search;
    hide Encode;
    hide MapOf;
    hide SplitWire;
    hide Levels;
    hide Print;
    hide ParseSmbEncrypted;
    hide CollectBlocks;
    hide DecryptCiphertext;
    hide Normalize;
    hide TokensDistinct;
    hide EncryptPayload;
    hide Decrypt;
    hide Flatten;
    hide Full;
    hide Partitions;
    hide RootOf;
    hide SegmentPlaintextBytes;
    HonestEncodes(c, tape, request, file);
    var h := HonestUpload(c, tape, request, file).value;
    var wires := Encode(c, tape, request, file).value;
    var uploads := MapOf(c, h.parts.searchCode, wires);
    HonestFacts(c, tape, request, file, h);
    HonestParse(c, tape, request, file, h);
    Token0IsStored(c, h.parts.searchCode, wires);
    HonestCollect(c, tape, request, file, h, uploads);
    CollectSame(c, uploads, h.parts.searchCode, WithoutLevels(h.metadata), Misread(h.metadata));
    MisreadDecrypt(c, tape, request, file, h);
  }

  lemma Token0IsStored(c: Crypto, searchCode: Bytes, wires: seq<Bytes>)
    requires TokensDistinct(c, searchCode, |wires|) && wires != []
    ensures var m := MapOf(c, searchCode, wires);
            c.uploadToken(searchCode, 0) in m && m[c.uploadToken(searchCode, 0)] == wires[0]
  {
    MapOfDistinct(c, searchCode, wires);
  }

  /** The integer fields are no restriction up to 1 TiB. */
  lemma UpToOneTebibyte(request: UploadRequest, file: Bytes)
    requires |file| <= 0x100_0000_0000 && IsSupported(request.segmentCode)
    requires WireLayoutFor(|file|, request.segmentCode, request.maxWireBlockBytes).Some?
    ensures FitsIntegers(WireLayoutFor(|file|, request.segmentCode, request.maxWireBlockBytes).value, |file|)
  {
    hide Search;
    TokenCountFits(|file|, request.segmentCode, request.maxWireBlockBytes);
  }
}
