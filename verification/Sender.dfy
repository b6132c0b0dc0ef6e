/** The batch sender: from file bytes to the map of tokens and wire blobs. */
module Sender {
  import opened ByteStrings
  import opened Cryptography
  import opened FileNames
  import opened Merkle
  import opened Segment
  import opened WireLayouts
  import opened Smb
  import opened SmbRoundTrip

  type UploadMap = map<Bytes, Bytes>

  datatype UploadRequest = UploadRequest(
    credential: Bytes,
    fileName: Bytes,
    segmentCode: nat,
    maxWireBlockBytes: nat)

  function NormalizeForCode(name: Bytes, code: nat): (r: Bytes)
    ensures IsSegmented(code) ==> |r| <= V21_FILE_NAME_PAYLOAD_BYTES
  {
    if IsSegmented(code) then Truncate(Normalize(name), V21_FILE_NAME_PAYLOAD_BYTES) else Normalize(name)
  }

  method NormalizeFileNameForSegmentCode(name: Bytes, code: nat) returns (r: Bytes)
    ensures r == NormalizeForCode(name, code)
  {
    r := NormalizeOriginalFileName(name);
    if IsSegmented(code) {
      r := TruncateInPlace(r, V21_FILE_NAME_PAYLOAD_BYTES);
    }
  }

  // ---------- Wire blocks ----------

  /** Cut off `m - 1` blocks of `wire` bytes; the rest is the last block. */
  function SplitWire(ciphertext: Bytes, wire: nat, m: nat): seq<Bytes>
    decreases m
  {
    if m <= 1 then [ciphertext]
    else
      var n := Min(wire, |ciphertext|);
      [ciphertext[..n]] + SplitWire(ciphertext[n..], wire, m - 1)
  }

  /** Full blocks followed by a rest are the one way to split their concatenation. */
  lemma {:induction false} SplitUnique(leading: seq<Bytes>, last: Bytes, wire: nat)
    requires Full(leading, wire)
    ensures SplitWire(Flatten(leading) + last, wire, |leading| + 1) == leading + [last]
    decreases |leading|
  {
    hide Flatten;
    if leading == [] {
      NothingFlattened();
      assert Flatten(leading) + last == last;
    } else {
      var first, rest := leading[0], leading[1..];
      assert leading == [first] + rest;
      FlattenCons(first, rest);
      SplitUnique(rest, last, wire);
      var whole := Flatten(leading) + last;
      assert whole == first + (Flatten(rest) + last);
      assert whole[..wire] == first && whole[wire..] == Flatten(rest) + last;
    }
  }

  ghost predicate SplitsInto(blocks: seq<Bytes>, ciphertext: Bytes, wire: nat, m: nat)
    requires 1 <= m
  {
    && |blocks| == m
    && Full(blocks[..m - 1], wire)
    && |blocks[m - 1]| == |ciphertext| - (m - 1) * wire
    && Flatten(blocks) == ciphertext
  }

  lemma {:induction false} SplitCovers(ciphertext: Bytes, wire: nat, m: nat)
    requires 1 <= m && (m - 1) * wire <= |ciphertext|
    ensures SplitsInto(SplitWire(ciphertext, wire, m), ciphertext, wire, m)
    decreases m
  {
    hide Flatten;
    hide Full;
    hide SplitsInto;
    if m == 1 {
      SplitOne(ciphertext, wire);
    } else {
      MulStep(m, wire);
      var first, rest := ciphertext[..wire], ciphertext[wire..];
      SplitCovers(rest, wire, m - 1);
      SplitMore(first, rest, SplitWire(rest, wire, m - 1), wire, m);
      assert first + rest == ciphertext;
    }
  }

  lemma SplitOne(ciphertext: Bytes, wire: nat)
    ensures SplitsInto([ciphertext], ciphertext, wire, 1)
  {
    FlattenSnoc([], ciphertext);
    assert [ciphertext] == [] + [ciphertext];
    assert Flatten([]) + ciphertext == ciphertext;
  }

  lemma MulStep(m: nat, wire: nat)
    requires 2 <= m
    ensures (m - 1) * wire == (m - 2) * wire + wire && wire <= (m - 1) * wire
  {
    MulMonotone(0, m - 2, wire);
  }

  lemma SplitMore(first: Bytes, rest: Bytes, blocks: seq<Bytes>, wire: nat, m: nat)
    requires 2 <= m && |first| == wire && SplitsInto(blocks, rest, wire, m - 1)
    ensures SplitsInto([first] + blocks, first + rest, wire, m)
  {
    hide Flatten;
    FlattenCons(first, blocks);
    MulStep(m, wire);
    var front: seq<Bytes> := ([first] + blocks)[..m - 1];
    forall i: nat | i < m - 1
      ensures |front[i]| == wire
    {
      if i > 0 {
        assert front[i] == blocks[..m - 2][i - 1];
      }
    }
  }

  method SplitCiphertext(ciphertext: Bytes, layout: WireLayout) returns (blocks: seq<Bytes>)
    requires 1 <= layout.numTokens
    requires (layout.numTokens - 1) * layout.wireBlockSize <= |ciphertext|
    ensures blocks == SplitWire(ciphertext, layout.wireBlockSize, layout.numTokens)
  {
    hide SplitWire;
    hide Flatten;
    var wire, m := layout.wireBlockSize, layout.numTokens;
    var leading: seq<Bytes> := [];
    assert Flatten(leading) == ciphertext[..0] by {
      NothingFlattened();
    }
    var index := 1;
    while index < m
      invariant 1 <= index <= m && |leading| == index - 1 && Full(leading, wire)
      invariant (index - 1) * wire <= (m - 1) * wire
      invariant Flatten(leading) == ciphertext[..(index - 1) * wire]
    {
      var offset := (index - 1) * wire;
      assert offset + wire == index * wire;
      MulMonotone(index, m - 1, wire);
      var block := ciphertext[offset..offset + wire];
      FlattenSnoc(leading, block);
      assert ciphertext[..offset] + block == ciphertext[..offset + wire];
      leading := leading + [block];
      index := index + 1;
    }
    var lastOffset := (m - 1) * wire;
    var last := ciphertext[lastOffset..];
    SplitUnique(leading, last, wire);
    assert ciphertext[..lastOffset] + last == ciphertext;
    blocks := leading + [last];
  }

  lemma NothingFlattened()
    ensures Flatten([]) == []
  {
  }

  // ---------- Keys and metadata ----------

  const SALT_POS: nat := 0
  const FEK_POS: nat := 16
  const SEGMENT_POS: nat := 48

  function SaltRand(tape: Tape): Bytes {
    Draw(tape, SALT_POS, SALT_RAND_BYTES)
  }

  function Fek(tape: Tape): (r: Bytes)
    ensures |r| == KEY_BYTES
  {
    Draw(tape, FEK_POS, KEY_BYTES)
  }

  // The tape position after `count` segment nonces.
  function WrapPos(count: nat): nat {
    SEGMENT_POS + count * GCM_NONCE_BYTES
  }

  function SmbKey(c: Crypto, parts: CredentialParts): Bytes {
    c.slowKdf(parts.keyCode, SALT_FIX_KEY)
  }

  function WrapFek(c: Crypto, tape: Tape, parts: CredentialParts, count: nat): Bytes {
    c.seal(c.slowKdf(parts.keyCode, SaltRand(tape)), Draw(tape, WrapPos(count), GCM_NONCE_BYTES), Fek(tape))
  }

  function MetadataOf(c: Crypto, tape: Tape, parts: CredentialParts, request: UploadRequest, layout: WireLayout,
                      fileLength: nat, tree: MerkleTree, count: nat): Option<SmbMetadata> {
    var fek :- Unpack(WrapFek(c, tape, parts, count));
    Some(SmbMetadata(tree.rootHash, fek, SaltRand(tape), tree, layout.numTokens, layout.wireBlockSize,
                     layout.ciphertextLength, fileLength,
                     NormalizeForCode(request.fileName, request.segmentCode), request.segmentCode))
  }

  function SealSmb(c: Crypto, tape: Tape, parts: CredentialParts, metadata: SmbMetadata, count: nat): Bytes {
    c.seal(SmbKey(c, parts), Draw(tape, WrapPos(count) + GCM_NONCE_BYTES, GCM_NONCE_BYTES), Print(c, metadata))
  }

  /** Token 0: the encrypted metadata block followed by the last logical block. */
  function Token0(c: Crypto, tape: Tape, parts: CredentialParts, request: UploadRequest, layout: WireLayout,
                  fileLength: nat, tree: MerkleTree, last: Bytes, count: nat): Option<Bytes> {
    var metadata :- MetadataOf(c, tape, parts, request, layout, fileLength, tree, count);
    Some(SealSmb(c, tape, parts, metadata, count) + last)
  }

  function PaddedPlaintext(layout: WireLayout, file: Bytes): Bytes {
    Zeros(layout.plaintextPadding) + file
  }

  function LogicalBlocks(c: Crypto, tape: Tape, request: UploadRequest, layout: WireLayout, file: Bytes): seq<Bytes>
    requires IsSupported(request.segmentCode)
  {
    SplitWire(EncryptPayload(c, Fek(tape), tape, SEGMENT_POS, PaddedPlaintext(layout, file), request.segmentCode),
              layout.wireBlockSize, layout.numTokens)
  }

  function RecordCount(request: UploadRequest, layout: WireLayout, file: Bytes): nat
    requires IsSupported(request.segmentCode)
  {
    |Segments(PaddedPlaintext(layout, file), request.segmentCode)|
  }

  /** The wire blobs of an upload, indexed by token number. */
  function Encode(c: Crypto, tape: Tape, request: UploadRequest, file: Bytes): Option<seq<Bytes>> {
    var parts :- SplitCredential(request.credential);
    if !IsSupported(request.segmentCode) then None
    else
      var layout :- WireLayoutFor(|file|, request.segmentCode, request.maxWireBlockBytes);
      var blocks := LogicalBlocks(c, tape, request, layout, file);
      var token0 :- Token0(c, tape, parts, request, layout, |file|, TreeOf(c, HashBlocks(c, blocks)),
                           blocks[|blocks| - 1], RecordCount(request, layout, file));
      Some([token0] + blocks[..|blocks| - 1])
  }

  // ---------- The upload map ----------

  /** Blobs entered under their tokens in order; an occupied token keeps its blob. */
  function MapOf(c: Crypto, searchCode: Bytes, wires: seq<Bytes>): UploadMap {
    if wires == [] then map[]
    else
      var m, token := MapOf(c, searchCode, wires[..|wires| - 1]), c.uploadToken(searchCode, |wires| - 1);
      if token in m then m else m[token := wires[|wires| - 1]]
  }

  ghost predicate TokensDistinct(c: Crypto, searchCode: Bytes, count: nat) {
    forall i, j | 0 <= i < j < count :: c.uploadToken(searchCode, i) != c.uploadToken(searchCode, j)
  }

  /** With distinct tokens, the map holds exactly the blobs, each under its own token. */
  lemma {:induction false} MapOfDistinct(c: Crypto, searchCode: Bytes, wires: seq<Bytes>)
    requires TokensDistinct(c, searchCode, |wires|)
    ensures var m := MapOf(c, searchCode, wires);
            && (forall i | 0 <= i < |wires| ::
                  c.uploadToken(searchCode, i) in m && m[c.uploadToken(searchCode, i)] == wires[i])
            && (forall t | t in m :: exists i :: 0 <= i < |wires| && t == c.uploadToken(searchCode, i))
  {
    if wires != [] {
      MapOfDistinct(c, searchCode, wires[..|wires| - 1]);
    }
  }

  // No earlier blob has the token of blob `i`.
  ghost predicate First(c: Crypto, searchCode: Bytes, i: nat) {
    forall j | 0 <= j < i :: c.uploadToken(searchCode, j) != c.uploadToken(searchCode, i)
  }

  /** Every blob is under its token, unless an earlier blob has the same one; nothing else is stored. */
  ghost predicate Stores(c: Crypto, searchCode: Bytes, wires: seq<Bytes>, m: UploadMap) {
    && (forall i | 0 <= i < |wires| && First(c, searchCode, i) ::
          c.uploadToken(searchCode, i) in m && m[c.uploadToken(searchCode, i)] == wires[i])
    && forall t | t in m :: exists i | 0 <= i < |wires| && First(c, searchCode, i) :: t == c.uploadToken(searchCode, i)
  }

  lemma {:induction false} MapStores(c: Crypto, searchCode: Bytes, wires: seq<Bytes>)
    ensures Stores(c, searchCode, wires, MapOf(c, searchCode, wires))
  {
    hide Stores;
    if wires == [] {
      NothingStored(c, searchCode);
    } else {
      var n := |wires| - 1;
      MapStores(c, searchCode, wires[..n]);
      OneMoreStored(c, searchCode, wires[..n], MapOf(c, searchCode, wires[..n]), wires[n]);
      assert wires[..n] + [wires[n]] == wires;
    }
  }

  lemma NothingStored(c: Crypto, searchCode: Bytes)
    ensures Stores(c, searchCode, [], map[])
  {
  }

  lemma OneMoreStored(c: Crypto, searchCode: Bytes, wires: seq<Bytes>, m: UploadMap, wire: Bytes)
    requires Stores(c, searchCode, wires, m)
    ensures var token := c.uploadToken(searchCode, |wires|);
            Stores(c, searchCode, wires + [wire], if token in m then m else m[token := wire])
  {
    hide First;
    var n, token := |wires|, c.uploadToken(searchCode, |wires|);
    if token in m {
      var i :| 0 <= i < n && First(c, searchCode, i) && token == c.uploadToken(searchCode, i);
      NotFirst(c, searchCode, i, n);
    } else {
      forall j | 0 <= j < n
        ensures c.uploadToken(searchCode, j) != token
      {
        TokenStored(c, searchCode, wires, m, j);
      }
      IsFirst(c, searchCode, n);
    }
  }

  lemma NotFirst(c: Crypto, searchCode: Bytes, i: nat, n: nat)
    requires i < n && c.uploadToken(searchCode, i) == c.uploadToken(searchCode, n)
    ensures !First(c, searchCode, n)
  {
  }

  lemma IsFirst(c: Crypto, searchCode: Bytes, n: nat)
    requires forall j | 0 <= j < n :: c.uploadToken(searchCode, j) != c.uploadToken(searchCode, n)
    ensures First(c, searchCode, n)
  {
  }

  lemma TokenStored(c: Crypto, searchCode: Bytes, wires: seq<Bytes>, m: UploadMap, i: nat)
    requires Stores(c, searchCode, wires, m) && i < |wires|
    ensures c.uploadToken(searchCode, i) in m
    decreases i
  {
    if !First(c, searchCode, i) {
      var j :| 0 <= j < i && c.uploadToken(searchCode, j) == c.uploadToken(searchCode, i);
      TokenStored(c, searchCode, wires, m, j);
    }
  }

  method BuildUploadMap(c: Crypto, token0: Bytes, leading: seq<Bytes>, searchCode: Bytes) returns (m: UploadMap)
    ensures m == MapOf(c, searchCode, [token0] + leading)
  {
    m := map[];
    var wires := [token0] + leading;
    for index := 0 to |wires|
      invariant m == MapOf(c, searchCode, wires[..index])
    {
      var token := c.uploadToken(searchCode, index);
      assert wires[..index + 1][..index] == wires[..index];
      if token !in m {
        m := m[token := if index == 0 then token0 else leading[index - 1]];
      }
    }
    assert wires[..|wires|] == wires;
  }

  // ---------- Every check of the sender passes ----------

  lemma MetadataWellSized(c: Crypto, tape: Tape, parts: CredentialParts, request: UploadRequest,
                          layout: WireLayout, fileLength: nat, tree: MerkleTree, count: nat)
    requires Ideal(c) && |tree.rootHash| == HASH_BYTES
    ensures var m := MetadataOf(c, tape, parts, request, layout, fileLength, tree, count);
            m.Some? && WellSized(m.value) && Pack(m.value.encryptedFek) == WrapFek(c, tape, parts, count)
  {
    UnpackPack(WrapFek(c, tape, parts, count));
  }

  lemma RootLength(c: Crypto, leaves: seq<Bytes>)
    requires Ideal(c) && Digests(leaves)
    ensures |RootOf(c, leaves)| == HASH_BYTES
    decreases |leaves|
  {
    if |leaves| > 1 {
      RootStep(c, leaves);
      NextLevelDigests(c, leaves);
      RootLength(c, NextLevel(c, leaves));
    }
  }

  /** Token 0 has exactly one wire block: the sizes the sender checks are right by construction. */
  lemma Token0Length(c: Crypto, tape: Tape, parts: CredentialParts, request: UploadRequest, layout: WireLayout,
                     fileLength: nat, tree: MerkleTree, last: Bytes, count: nat)
    requires Ideal(c) && |tree.rootHash| == HASH_BYTES
    ensures var m := MetadataOf(c, tape, parts, request, layout, fileLength, tree, count);
            && m.Some?
            && |Print(c, m.value)| == SM_PLAIN_BYTES
            && |SealSmb(c, tape, parts, m.value, count)| == SM_ENC_BYTES
  {
    MetadataWellSized(c, tape, parts, request, layout, fileLength, tree, count);
    var m := MetadataOf(c, tape, parts, request, layout, fileLength, tree, count);
    PrintedLength(c, m.value);
  }

  /** Sizes of the logical blocks for a layout the search returned. */
  lemma BlocksFit(c: Crypto, tape: Tape, request: UploadRequest, file: Bytes)
    requires Ideal(c) && IsSupported(request.segmentCode)
    requires WireLayoutFor(|file|, request.segmentCode, request.maxWireBlockBytes).Some?
    ensures var layout := WireLayoutFor(|file|, request.segmentCode, request.maxWireBlockBytes).value;
            var padded := PaddedPlaintext(layout, file);
            var ciphertext := EncryptPayload(c, Fek(tape), tape, SEGMENT_POS, padded, request.segmentCode);
            var blocks := LogicalBlocks(c, tape, request, layout, file);
            && Partitions(layout, request.maxWireBlockBytes)
            && |ciphertext| == layout.ciphertextLength == CiphertextLength(|padded|, request.segmentCode)
            && 1 <= |blocks| == layout.numTokens
            && Full(blocks[..|blocks| - 1], layout.wireBlockSize)
            && |blocks[|blocks| - 1]| == layout.lastBlockLength
            && Flatten(blocks) == ciphertext
  {
    hide Ideal;
    hide Search;
    hide SplitWire;
    hide Flatten;
    hide Full;
    hide EncryptPayload;
    hide ExactLayout;
    hide CiphertextLength;
    SearchIsExact(|file|, request.segmentCode, request.maxWireBlockBytes, 0);
    var layout := WireLayoutFor(|file|, request.segmentCode, request.maxWireBlockBytes).value;
    var padded := PaddedPlaintext(layout, file);
    PayloadLength(c, Fek(tape), tape, SEGMENT_POS, padded, request.segmentCode);
    SplitCovers(EncryptPayload(c, Fek(tape), tape, SEGMENT_POS, padded, request.segmentCode),
                layout.wireBlockSize, layout.numTokens);
  }

  // ---------- Which bytes are sealed with which ----------

  // `x` is what the tape holds from there on.
  ghost predicate ReadsTape(tape: Tape, from: nat, x: Bytes) {
    forall i | 0 <= i < |x| :: x[i] == tape(from + i)
  }

  // The plaintexts of the records: the whole file, or segments of 2^(code + 3) MiB and a rest.
  ghost predicate CutAsAnnounced(segments: seq<Bytes>, padded: Bytes, code: nat) {
    && code <= 5
    && Flatten(segments) == padded
    && (code == 0 ==> segments == [padded])
    && (1 <= code ==> Chunked(segments, [16, 32, 64, 128, 256][code - 1] * 0x10_0000))
  }

  lemma SegmentsAreCut(padded: Bytes, code: nat)
    requires IsSupported(code)
    ensures CutAsAnnounced(Segments(padded, code), padded, code)
  {
    hide Flatten;
    hide Chunk;
    hide Chunked;
    SegmentsCover(padded, code);
    if IsSegmented(code) {
      ChunkCovers(padded, SegmentPlaintextBytes(code));
    }
  }

  // Sealed under the key with the 12 nonce bytes the tape holds from there on.
  ghost predicate SealedWith(c: Crypto, tape: Tape, key: Bytes, from: nat, plain: Bytes, sealed: Bytes) {
    exists nonce: Bytes | |nonce| == 12 && ReadsTape(tape, from, nonce) :: sealed == c.seal(key, nonce, plain)
  }

  lemma DrawReads(tape: Tape, pos: nat, length: nat)
    ensures ReadsTape(tape, pos, Draw(tape, pos, length))
  {
  }

  // One record per segment under the key the tape holds from byte 16 on, with nonces from byte 48 on.
  ghost predicate SealedInOrder(c: Crypto, tape: Tape, key: Bytes, segments: seq<Bytes>, records: seq<Bytes>) {
    && |key| == 32 && ReadsTape(tape, 16, key)
    && |records| == |segments|
    && forall k | 0 <= k < |records| :: SealedWith(c, tape, key, 48 + 12 * k, segments[k], records[k])
  }

  lemma RecordIsSealed(c: Crypto, tape: Tape, segments: seq<Bytes>, k: nat)
    requires k < |segments|
    ensures SealedWith(c, tape, Fek(tape), 48 + 12 * k, segments[k],
                       SealSegments(c, Fek(tape), tape, SEGMENT_POS, segments)[k])
  {
    hide ReadsTape;
    DrawReads(tape, 48 + 12 * k, 12);
    assert SealSegments(c, Fek(tape), tape, SEGMENT_POS, segments)[k]
        == c.seal(Fek(tape), Draw(tape, 48 + 12 * k, 12), segments[k]);
  }

  lemma RecordsAreSealed(c: Crypto, tape: Tape, segments: seq<Bytes>)
    ensures |SealSegments(c, Fek(tape), tape, SEGMENT_POS, segments)| == |segments|
    ensures SealedInOrder(c, tape, Fek(tape), segments, SealSegments(c, Fek(tape), tape, SEGMENT_POS, segments))
  {
    hide SealedWith;
    hide ReadsTape;
    DrawReads(tape, 16, 32);
    forall k: nat | k < |segments|
      ensures SealedWith(c, tape, Fek(tape), 48 + 12 * k, segments[k],
                         SealSegments(c, Fek(tape), tape, SEGMENT_POS, segments)[k])
    {
      RecordIsSealed(c, tape, segments, k);
    }
  }

  // The wrapped key and the metadata block, with the two nonces behind those of the `n` records.
  ghost predicate KeysWrapped(c: Crypto, tape: Tape, keyCode: Bytes, key: Bytes, n: nat, m: SmbMetadata, head: Bytes) {
    && |m.saltRand| == 16 && ReadsTape(tape, 0, m.saltRand)
    && SealedWith(c, tape, c.slowKdf(keyCode, m.saltRand), 48 + 12 * n, key, Pack(m.encryptedFek))
    && SealedWith(c, tape, c.slowKdf(keyCode, Ascii("12C-v2-KEY-SALT")), 60 + 12 * n, Print(c, m), head)
  }

  function Ascii(text: string): Bytes {
    seq(|text|, i requires 0 <= i < |text| => text[i] as nat % 128)
  }

  lemma FixedSalt()
    ensures SALT_FIX_KEY == Ascii("12C-v2-KEY-SALT")
  {
  }

  lemma MetadataIsSealed(c: Crypto, tape: Tape, parts: CredentialParts, request: UploadRequest, layout: WireLayout,
                         fileLength: nat, tree: MerkleTree, n: nat)
    requires Ideal(c) && |tree.rootHash| == HASH_BYTES
    ensures var m := MetadataOf(c, tape, parts, request, layout, fileLength, tree, n);
            && m.Some?
            && KeysWrapped(c, tape, parts.keyCode, Fek(tape), n, m.value, SealSmb(c, tape, parts, m.value, n))
  {
    hide Ideal;
    hide Print;
    hide Ascii;
    hide Draw;
    hide ReadsTape;
    MetadataWellSized(c, tape, parts, request, layout, fileLength, tree, n);
    FixedSalt();
    DrawReads(tape, 0, 16);
    DrawReads(tape, 48 + 12 * n, 12);
    DrawReads(tape, 60 + 12 * n, 12);
  }

  // The blobs are the sealed metadata with the last block behind it, and the blocks before that one.
  lemma EncodeIs(c: Crypto, tape: Tape, request: UploadRequest, file: Bytes)
    requires Encode(c, tape, request, file).Some?
    ensures |request.credential| == 12 && IsSupported(request.segmentCode)
    ensures WireLayoutFor(|file|, request.segmentCode, request.maxWireBlockBytes).Some?
    ensures var parts := SplitCredential(request.credential).value;
            var layout := WireLayoutFor(|file|, request.segmentCode, request.maxWireBlockBytes).value;
            var blocks := LogicalBlocks(c, tape, request, layout, file);
            var n := RecordCount(request, layout, file);
            var m := MetadataOf(c, tape, parts, request, layout, |file|, TreeOf(c, HashBlocks(c, blocks)), n);
            && parts == CredentialParts(request.credential[..6], request.credential[6..])
            && 1 <= |blocks| && m.Some?
            && Encode(c, tape, request, file).value
               == [SealSmb(c, tape, parts, m.value, n) + blocks[|blocks| - 1]] + blocks[..|blocks| - 1]
  {
    hide Search;
    hide EncryptPayload;
    hide RecordCount;
    hide TreeOf;
    hide HashBlocks;
    hide SealSmb;
    hide MetadataOf;
  }

  lemma FirstBlob(head: Bytes, last: Bytes, leading: seq<Bytes>)
    requires |head| == 373
    ensures var wires := [head + last] + leading;
            wires[0][..373] == head && wires[0][373..] == last && wires[1..] == leading
  {
  }

  lemma FrontAndLast(blocks: seq<Bytes>)
    requires blocks != []
    ensures blocks[..|blocks| - 1] + [blocks[|blocks| - 1]] == blocks
  {
  }

  lemma BlobSizes(head: Bytes, blocks: seq<Bytes>, wires: seq<Bytes>, wire: nat)
    requires |head| == 373 && blocks != []
    requires wires == [head + blocks[|blocks| - 1]] + blocks[..|blocks| - 1]
    requires Full(blocks[..|blocks| - 1], wire) && 373 + |blocks[|blocks| - 1]| == wire
    ensures |wires| == |blocks| && forall i | 0 <= i < |wires| :: |wires[i]| == wire
  {
    forall i | 1 <= i < |wires|
      ensures |wires[i]| == wire
    {
      assert wires[i] == blocks[..|blocks| - 1][i - 1];
    }
  }

  lemma BlobsCarry(head: Bytes, blocks: seq<Bytes>, wires: seq<Bytes>)
    requires |head| == 373 && blocks != []
    requires wires == [head + blocks[|blocks| - 1]] + blocks[..|blocks| - 1]
    ensures wires[0][..373] == head && wires[1..] + [wires[0][373..]] == blocks
    ensures Flatten(wires[1..]) + wires[0][373..] == Flatten(blocks)
  {
    hide Flatten;
    FrontAndLast(blocks);
    FirstBlob(head, blocks[|blocks| - 1], blocks[..|blocks| - 1]);
    FlattenSnoc(wires[1..], wires[0][373..]);
  }

  /**
   Over the blobs of an upload: which bytes of the tape are the salt, the file key and the nonces,
   what each record and the two wrapped blocks are sealed with, and where they end up.
   */
  lemma WhatIsSealed(c: Crypto, tape: Tape, request: UploadRequest, file: Bytes)
    returns (key: Bytes, segments: seq<Bytes>, records: seq<Bytes>, m: SmbMetadata)
    requires Ideal(c) && Encode(c, tape, request, file).Some?
    ensures |request.credential| == 12 && IsSupported(request.segmentCode)
    ensures WireLayoutFor(|file|, request.segmentCode, request.maxWireBlockBytes).Some?
    ensures var layout := WireLayoutFor(|file|, request.segmentCode, request.maxWireBlockBytes).value;
            CutAsAnnounced(segments, Zeros(layout.plaintextPadding) + file, request.segmentCode)
    ensures SealedInOrder(c, tape, key, segments, records)
    ensures var layout := WireLayoutFor(|file|, request.segmentCode, request.maxWireBlockBytes).value;
            var wires := Encode(c, tape, request, file).value;
            && |wires| == layout.numTokens >= 1
            && (forall i | 0 <= i < |wires| :: |wires[i]| == layout.wireBlockSize >= 373)
            && Flatten(wires[1..]) + wires[0][373..] == Flatten(records)
            && KeysWrapped(c, tape, request.credential[6..], key, |records|, m, wires[0][..373])
            && m.rootHash == RootOf(c, HashBlocks(c, wires[1..] + [wires[0][373..]]))
            && m.numTokens == |wires| && m.wireBlockSize == layout.wireBlockSize
            && m.ciphertextLength == |Flatten(records)| && m.originalFileLength == |file|
            && m.originalFileName == (if request.segmentCode == 0 then Normalize(request.fileName)
                                      else Truncate(Normalize(request.fileName), 120))
            && m.segmentCode == request.segmentCode
  {
    hide Search;
    hide Flatten;
    hide Print;
    hide Levels;
    hide LogicalBlocks;
    hide CutAsAnnounced;
    hide SealedInOrder;
    hide KeysWrapped;
    hide CiphertextLength;
    hide SealSegments;
    hide Segments;
    hide Normalize;
    hide Truncate;
    hide Encode;
    hide SealSmb;
    hide WrapFek;
    hide Full;
    EncodeIs(c, tape, request, file);
    var parts := SplitCredential(request.credential).value;
    var layout := WireLayoutFor(|file|, request.segmentCode, request.maxWireBlockBytes).value;
    var padded := PaddedPlaintext(layout, file);
    var blocks := LogicalBlocks(c, tape, request, layout, file);
    var tree := TreeOf(c, HashBlocks(c, blocks));
    key, segments := Fek(tape), Segments(padded, request.segmentCode);
    records := SealSegments(c, key, tape, SEGMENT_POS, segments);
    m := MetadataOf(c, tape, parts, request, layout, |file|, tree, |segments|).value;
    BlocksFit(c, tape, request, file);
    SegmentsAreCut(padded, request.segmentCode);
    RecordsAreSealed(c, tape, segments);
    RootLength(c, HashBlocks(c, blocks));
    MetadataIsSealed(c, tape, parts, request, layout, |file|, tree, |segments|);
    Token0Length(c, tape, parts, request, layout, |file|, tree, blocks[|blocks| - 1], |segments|);
    BlobSizes(SealSmb(c, tape, parts, m, |segments|), blocks, Encode(c, tape, request, file).value,
              layout.wireBlockSize);
    BlobsCarry(SealSmb(c, tape, parts, m, |segments|), blocks, Encode(c, tape, request, file).value);
  }

  method PrepareUpload(c: Crypto, tape: Tape, request: UploadRequest, file: Bytes) returns (r: Option<UploadMap>)
    requires Ideal(c)
    ensures var wires := Encode(c, tape, request, file);
            r == if wires.None? then None
                 else Some(MapOf(c, SplitCredential(request.credential).value.searchCode, wires.value))
    ensures r.Some? ==>
              && |request.credential| == 12
              && Stores(c, request.credential[..6], Encode(c, tape, request, file).value, r.value)
    ensures r.None? <==>
              || |request.credential| != CREDENTIAL_LENGTH
              || !IsSupported(request.segmentCode)
              || WireLayoutFor(|file|, request.segmentCode, request.maxWireBlockBytes).None?
  {
    hide Search;
    hide Levels;
    hide SplitWire;
    hide Print;
    hide MapOf;
    hide NormalizeForCode;
    hide Flatten;
    hide Full;
    hide CiphertextLength;
    hide EncryptPayload;
    hide Stores;
    var parts := SplitCredential(request.credential);
    if parts.None? || !IsSupported(request.segmentCode) {
      return None;
    }
    var maybeLayout := ComputeWireLayout(|file|, request.segmentCode, request.maxWireBlockBytes);
    if maybeLayout.None? {
      return None;
    }
    var layout := maybeLayout.value;
    BlocksFit(c, tape, request, file);
    var plaintext := Zeros(layout.plaintextPadding) + file;
    var saltRand := Draw(tape, SALT_POS, SALT_RAND_BYTES);
    var kek := c.slowKdf(parts.value.keyCode, saltRand);
    var fek := Draw(tape, FEK_POS, KEY_BYTES);
    var ciphertext, pos := EncryptPayloadForCode(c, fek, tape, SEGMENT_POS, plaintext, request.segmentCode);
    var blocks := SplitCiphertext(ciphertext, layout);
    var tree := BuildMerkleTree(c, blocks);
    var encryptedFek := Encrypt(c, kek, Draw(tape, pos, GCM_NONCE_BYTES), fek);
    var fekBlob := Unpack(encryptedFek);
    var last := blocks[|blocks| - 1];
    ghost var count := RecordCount(request, layout, file);
    RootLength(c, HashBlocks(c, blocks));
    Token0Length(c, tape, parts.value, request, layout, |file|, tree, last, count);
    var name := NormalizeFileNameForSegmentCode(request.fileName, request.segmentCode);
    var metadata := SmbMetadata(
      tree.rootHash, fekBlob.value, saltRand, tree, layout.numTokens, layout.wireBlockSize,
      layout.ciphertextLength, |file|, name, request.segmentCode);
    var smBytes := SerializeSmb(c, metadata);
    var sEnc := Encrypt(c, SmbKey(c, parts.value), Draw(tape, pos + GCM_NONCE_BYTES, GCM_NONCE_BYTES), smBytes);
    var token0 := sEnc + last;
    var uploads := BuildUploadMap(c, token0, blocks[..|blocks| - 1], parts.value.searchCode);
    MapStores(c, parts.value.searchCode, [token0] + blocks[..|blocks| - 1]);
    // The source throws if one of these sizes is off; none ever is.
    var sized :=
      && |ciphertext| == layout.ciphertextLength
      && |smBytes| == SM_PLAIN_BYTES
      && |sEnc| == SM_ENC_BYTES
      && |last| == layout.lastBlockLength
      && |token0| == layout.wireBlockSize;
    r := if sized then Some(uploads) else None;
  }

  method EncryptPayloadForCode(c: Crypto, key: Bytes, tape: Tape, pos: nat, padded: Bytes, code: nat)
    returns (ciphertext: Bytes, pos': nat)
    requires Ideal(c) && IsSupported(code) && |key| == KEY_BYTES
    ensures ciphertext == EncryptPayload(c, key, tape, pos, padded, code)
    ensures pos' == pos + |Segments(padded, code)| * GCM_NONCE_BYTES
  {
    if IsWholeFile(code) {
      SealSnoc(c, key, tape, pos, [], padded);
      assert [] + [padded] == [padded];
      ciphertext := Encrypt(c, key, Draw(tape, pos, GCM_NONCE_BYTES), padded);
      pos' := pos + GCM_NONCE_BYTES;
    } else {
      var stream, next := EncryptPayloadV21Segmented(c, key, tape, pos, padded, code);
      ciphertext, pos' := stream.value, next;
    }
  }
}
