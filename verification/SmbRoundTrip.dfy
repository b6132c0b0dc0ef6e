/** Reading back what was written: which metadata records survive the 345-byte form. */
module SmbRoundTrip {
  import opened ByteStrings
  import opened Cryptography
  import opened FileNames
  import opened Merkle
  import opened Segment
  import opened WireLayouts
  import opened Smb

  /** A whole-file name must stop short of the two bytes where the reader expects a code. */
  predicate NameSurvives(name: Bytes, code: nat) {
    IsWholeFile(code) ==> |name| <= V21_SEGMENT_CODE_FIELD_OFFSET
  }

  /** A 121-byte whole-file name whose last byte passes for a segment code. */
  predicate NameMisread(name: Bytes) {
    |name| == V21_SEGMENT_CODE_FIELD_OFFSET + 1 && IsSegmented(name[V21_SEGMENT_CODE_FIELD_OFFSET])
  }

  lemma WholeFileField(name: Bytes)
    requires Clean(name) && |name| <= MAX_ORIGINAL_FILE_NAME_BYTES
    ensures var field := NameField(name, V2_SEGMENT_CODE_WHOLE_FILE);
            && field == name + Zeros(MAX_ORIGINAL_FILE_NAME_BYTES - |name|)
            && UntilNul(field) == name
            && (|name| <= V21_SEGMENT_CODE_FIELD_OFFSET ==> ReadSegmentCode(field) == Some(0))
            && (V21_SEGMENT_CODE_FIELD_OFFSET < |name| && !NameMisread(name) ==>
                  ReadSegmentCode(field).None?)
            && (NameMisread(name) ==>
                  && ReadSegmentCode(field) == Some(name[V21_SEGMENT_CODE_FIELD_OFFSET])
                  && UntilNul(field[..V21_FILE_NAME_PAYLOAD_BYTES]) == name[..V21_FILE_NAME_PAYLOAD_BYTES])
  {
    UntilNulOfPadded(name, MAX_ORIGINAL_FILE_NAME_BYTES - |name|);
    assert name[..|name|] == name;
    var field := NameField(name, V2_SEGMENT_CODE_WHOLE_FILE);
    if NameMisread(name) {
      UntilNulOfPadded(name[..V21_FILE_NAME_PAYLOAD_BYTES], 0);
      assert field[..V21_FILE_NAME_PAYLOAD_BYTES] == name[..V21_FILE_NAME_PAYLOAD_BYTES] + Zeros(0);
    }
    if V21_SEGMENT_CODE_FIELD_OFFSET < |name| {
      assert field[V21_SEGMENT_CODE_FIELD_OFFSET] == name[V21_SEGMENT_CODE_FIELD_OFFSET];
      if V21_SEGMENT_CODE_FIELD_OFFSET + 1 < |name| {
        assert field[V21_SEGMENT_CODE_FIELD_OFFSET + 1] == name[V21_SEGMENT_CODE_FIELD_OFFSET + 1];
      }
    }
  }

  lemma SegmentedField(name: Bytes, code: nat)
    requires Clean(name) && |name| <= V21_FILE_NAME_PAYLOAD_BYTES && IsSegmented(code)
    ensures var field := NameField(name, code);
            && UntilNul(field[..V21_FILE_NAME_PAYLOAD_BYTES]) == name
            && ReadSegmentCode(field) == Some(code)
  {
    var padding := V21_SEGMENT_CODE_FIELD_OFFSET - |name|;
    UntilNulOfPadded(name, padding);
    var field := NameField(name, code);
    assert name[..|name|] == name;
    assert field[..V21_FILE_NAME_PAYLOAD_BYTES] == name + Zeros(padding);
    assert field[V21_SEGMENT_CODE_FIELD_OFFSET] == code && field[V21_SEGMENT_CODE_FIELD_OFFSET + 1] == 0;
    assert field[V21_SEGMENT_CODE_FIELD_OFFSET + 2..] == Zeros(6);
    forall i | V21_SEGMENT_CODE_FIELD_OFFSET + 2 <= i < |field|
      ensures field[i] == 0
    {
      assert field[i] == field[V21_SEGMENT_CODE_FIELD_OFFSET + 2..][i - V21_SEGMENT_CODE_FIELD_OFFSET - 2];
    }
  }

  lemma ReadNameFieldAt(buffer: Bytes, offset: nat, name: Bytes, code: nat)
    requires At(buffer, offset, NameField(name, code)) && IsSupported(code) && Normalize(name) == name
    requires IsSegmented(code) ==> |name| <= V21_FILE_NAME_PAYLOAD_BYTES
    ensures NameSurvives(name, code) ==> ReadNameField(buffer, offset) == Some((name, code))
    ensures !NameSurvives(name, code) && !NameMisread(name) ==> ReadNameField(buffer, offset).None?
    ensures !NameSurvives(name, code) && NameMisread(name) ==>
              ReadNameField(buffer, offset)
              == Some((name[..V21_FILE_NAME_PAYLOAD_BYTES], name[V21_SEGMENT_CODE_FIELD_OFFSET] as nat))
  {
    hide UntilNul;
    hide Normalize;
    hide ReadSegmentCode;
    hide NameField;
    NormalizeFixedPoint(name);
    if IsWholeFile(code) {
      WholeFileField(name);
      if NameMisread(name) {
        NormalizeFixedPoint(name[..V21_FILE_NAME_PAYLOAD_BYTES]);
      }
    } else {
      SegmentedField(name, code);
    }
  }

  /** The record a reader makes of `m`: everything but the Merkle levels. */
  function WithoutLevels(m: SmbMetadata): SmbMetadata {
    m.(merkleTree := MerkleTree([], m.rootHash))
  }

  /** The record it makes of a misread name: the last byte has become the segment code. */
  function Misread(m: SmbMetadata): (r: SmbMetadata)
    requires NameMisread(m.originalFileName)
    ensures IsSegmented(r.segmentCode)
  {
    WithoutLevels(m).(
      originalFileName := m.originalFileName[..V21_FILE_NAME_PAYLOAD_BYTES],
      segmentCode := m.originalFileName[V21_SEGMENT_CODE_FIELD_OFFSET])
  }

  lemma MisreadDiffers(m: SmbMetadata)
    ensures !NameSurvives(m.originalFileName, m.segmentCode) && NameMisread(m.originalFileName) ==>
              Misread(m) != WithoutLevels(m)
  {
  }

  lemma ParseBodyAt(payload: Bytes, offset: nat, m: SmbMetadata)
    requires Encodable(m) && At(payload, offset, Body(m))
    ensures |Body(m)| == 272
    ensures NameSurvives(m.originalFileName, m.segmentCode) ==>
              ParseBody(payload, offset) == Some((WithoutLevels(m), offset + 272))
    ensures !NameSurvives(m.originalFileName, m.segmentCode) ==>
              ParseBody(payload, offset)
              == if NameMisread(m.originalFileName) then Some((Misread(m), offset + 272)) else None
  {
    hide ReadBytes;
    hide ReadU32;
    hide ReadU64;
    hide ReadNameField;
    hide Normalize;
    hide At;
    hide NameField;
    hide BigEndian;
    var name := NameField(m.originalFileName, m.segmentCode);
    var b8 := BigEndian(m.originalFileLength, 8) + name;
    var b7 := BigEndian(m.ciphertextLength, 8) + b8;
    var b6 := BigEndian(m.wireBlockSize, 4) + b7;
    var b5 := BigEndian(m.numTokens, 4) + b6;
    var b4 := LengthPrefixed(m.saltRand) + b5;
    var b3 := LengthPrefixed(Pack(m.encryptedFek)) + b4;
    assert Body(m) == LengthPrefixed(m.rootHash) + b3;
    AtSplit(payload, offset, LengthPrefixed(m.rootHash), b3);
    AtSplit(payload, offset + 36, LengthPrefixed(Pack(m.encryptedFek)), b4);
    AtSplit(payload, offset + 100, LengthPrefixed(m.saltRand), b5);
    AtSplit(payload, offset + 120, BigEndian(m.numTokens, 4), b6);
    AtSplit(payload, offset + 124, BigEndian(m.wireBlockSize, 4), b7);
    AtSplit(payload, offset + 128, BigEndian(m.ciphertextLength, 8), b8);
    AtSplit(payload, offset + 136, BigEndian(m.originalFileLength, 8), name);
    ReadBytesAt(payload, offset, m.rootHash);
    ReadBytesAt(payload, offset + 36, Pack(m.encryptedFek));
    PackUnpack(m.encryptedFek);
    ReadBytesAt(payload, offset + 100, m.saltRand);
    ReadU32At(payload, offset + 120, m.numTokens);
    ReadU32At(payload, offset + 124, m.wireBlockSize);
    ReadU64At(payload, offset + 128, m.ciphertextLength);
    ReadU64At(payload, offset + 136, m.originalFileLength);
    ReadNameFieldAt(payload, offset + 144, m.originalFileName, m.segmentCode);
  }

  lemma PayloadParts(c: Crypto, m: SmbMetadata)
    requires Ideal(c) && WellSized(m)
    ensures var p, hash := Payload(c, m), LengthPrefixed(c.sha256(Body(m)));
            && |Body(m)| == 272 && |p| == 313
            && At(p, 0, BigEndian(SMB_MAGIC, 4)) && p[4] == SMB_VERSION
            && At(p, 5, Body(m)) && At(p, 277, hash)
  {
    hide BigEndian;
    hide NameField;
    var p, hash := Payload(c, m), LengthPrefixed(c.sha256(Body(m)));
    assert |Body(m)| == 272;
    assert p[0..|p|] == p;
    AtSplit(p, 0, BigEndian(SMB_MAGIC, 4), [SMB_VERSION] + (Body(m) + hash));
    AtSplit(p, 4, [SMB_VERSION], Body(m) + hash);
    assert p[4..5] == [SMB_VERSION];
    AtSplit(p, 5, Body(m), hash);
  }

  // ---------- The written form, byte by byte ----------

  // A 32-bit number, most significant byte first.
  function Word(v: nat): Bytes {
    [v / 0x100_0000 % 256, v / 0x1_0000 % 256, v / 0x100 % 256, v % 256]
  }

  lemma BigEndianWord(v: nat)
    ensures BigEndian(v, 4) == Word(v)
  {
    assert Pow256(3) == 0x100_0000 && Pow256(2) == 0x1_0000 && Pow256(1) == 0x100 && Pow256(0) == 1;
    BigEndianTop(v, 3);
    BigEndianTop(v, 2);
    BigEndianTop(v, 1);
    BigEndianTop(v, 0);
  }

  lemma FixedWords()
    ensures Word(SMB_MAGIC) == [0x31, 0x43, 0x32, 0x32]
    ensures Word(16) == [0, 0, 0, 16] && Word(32) == [0, 0, 0, 32] && Word(60) == [0, 0, 0, 60]
  {
  }

  lemma LastByte(high: nat, x: nat)
    requires x < 256
    ensures (high * 256 + x) / 256 == high && (high * 256 + x) % 256 == x
  {
  }

  lemma Quotients(v: nat)
    ensures v / 0x100 / 0x100 == v / 0x1_0000
    ensures v / 0x1_0000 / 0x100 == v / 0x100_0000
    ensures v / 0x100_0000 / 0x100 == v / 0x1_0000_0000
  {
  }

  lemma WordOf(b0: Byte, b1: Byte, b2: Byte, b3: Byte)
    ensures var n1: nat := b0 as nat * 256 + b1;
            var n2: nat := n1 * 256 + b2;
            Word(n2 * 256 + b3) == [b0, b1, b2, b3]
  {
    var n1: nat := b0 as nat * 256 + b1;
    var n2: nat := n1 * 256 + b2;
    Quotients(n2 * 256 + b3);
    LastByte(n2, b3);
    LastByte(n1, b2);
    LastByte(b0, b1);
  }

  // The reader's number has the bytes it was read from.
  lemma WordRead(b: Bytes)
    requires |b| == 4
    ensures b == Word(FromBigEndian(b))
  {
    hide Word;
    WordOf(b[0], b[1], b[2], b[3]);
    assert b[..1] == [b[0]] && b[..2][..1] == b[..1] && b[..3][..2] == b[..2];
    assert FromBigEndian(b[..1]) == FromBigEndian([]) * 256 + b[0];
    assert FromBigEndian(b[..2]) == FromBigEndian(b[..1]) * 256 + b[1];
    assert FromBigEndian(b[..3]) == FromBigEndian(b[..2]) * 256 + b[2];
  }

  lemma BigEndianWords(v: nat)
    ensures BigEndian(v, 8) == Word(v / 0x1_0000_0000) + Word(v)
  {
    var v1 := v / 0x100;
    var v2 := v1 / 0x100;
    var v3 := v2 / 0x100;
    var v4 := v3 / 0x100;
    assert BigEndian(v, 8) == BigEndian(v4, 4) + [v3 % 256, v2 % 256, v1 % 256, v % 256] by {
      assert BigEndian(v3, 5) == BigEndian(v4, 4) + [v3 % 256];
      assert BigEndian(v2, 6) == BigEndian(v3, 5) + [v2 % 256];
      assert BigEndian(v1, 7) == BigEndian(v2, 6) + [v1 % 256];
    }
    hide BigEndian;
    BigEndianWord(v4);
    Quotients(v);
  }

  lemma NameFieldBytes(name: Bytes, code: nat)
    ensures var field, n := NameField(name, code), if code == 0 then Min(|name|, 128) else Min(|name|, 120);
            && |field| == 128
            && field[..n] == name[..n]
            && (forall i | n <= i < 128 && (i < 120 || i >= 122 || code == 0) :: field[i] == 0)
            && (code != 0 ==> field[120] == code % 256 && field[121] == code / 256 % 256)
  {
  }

  lemma BodyFields(m: SmbMetadata)
    requires WellSized(m)
    ensures var b := Body(m);
            && |b| == 272
            && b[..4] == Word(32) && b[4..36] == m.rootHash
            && b[36..40] == Word(60) && b[40..100] == Pack(m.encryptedFek)
            && b[100..104] == Word(16) && b[104..120] == m.saltRand
            && b[120..124] == Word(m.numTokens) && b[124..128] == Word(m.wireBlockSize)
            && b[128..136] == Word(m.ciphertextLength / 0x1_0000_0000) + Word(m.ciphertextLength)
            && b[136..144] == Word(m.originalFileLength / 0x1_0000_0000) + Word(m.originalFileLength)
            && b[144..] == NameField(m.originalFileName, m.segmentCode)
  {
    hide NameField;
    hide BigEndian;
    hide Word;
    BigEndianWord(32);
    BigEndianWord(60);
    BigEndianWord(16);
    BigEndianWord(m.numTokens);
    BigEndianWord(m.wireBlockSize);
    BigEndianWords(m.ciphertextLength);
    BigEndianWords(m.originalFileLength);
  }

  /**
   The 345 bytes: magic and version, the length-prefixed root, wrapped key and salt, the four
   big-endian numbers, the name field, the prefixed hash of the body and the hash of it all.
   */
  lemma PrintedFields(c: Crypto, m: SmbMetadata)
    requires Ideal(c) && WellSized(m)
    ensures var d := Print(c, m);
            && |d| == 345
            && d[..5] == [0x31, 0x43, 0x32, 0x32, 2]
            && d[5..9] == [0, 0, 0, 32] && d[9..41] == m.rootHash
            && d[41..45] == [0, 0, 0, 60]
            && d[45..105] == m.encryptedFek.nonce + m.encryptedFek.tag + m.encryptedFek.ciphertext
            && d[105..109] == [0, 0, 0, 16] && d[109..125] == m.saltRand
            && d[125..129] == Word(m.numTokens) && d[129..133] == Word(m.wireBlockSize)
            && d[133..141] == Word(m.ciphertextLength / 0x1_0000_0000) + Word(m.ciphertextLength)
            && d[141..149] == Word(m.originalFileLength / 0x1_0000_0000) + Word(m.originalFileLength)
            && d[149..277] == NameField(m.originalFileName, m.segmentCode)
            && d[277..281] == [0, 0, 0, 32] && d[281..313] == c.sha256(d[5..277])
            && d[313..] == c.sha256(d[..313])
  {
    hide Body;
    hide NameField;
    hide BigEndian;
    hide WellSized;
    hide Word;
    hide Pow256;
    PayloadParts(c, m);
    BodyFields(m);
    BigEndianWord(SMB_MAGIC);
    BigEndianWord(32);
    FixedWords();
    var d, p := Print(c, m), Payload(c, m);
    assert d[..313] == p && d[313..] == c.sha256(p);
    assert d[5..277] == p[5..277] == Body(m);
    assert p[277..313] == Word(32) + c.sha256(Body(m));
    PartOf(d, 5, Body(m));
  }

  lemma SliceOfSlice(d: Bytes, lo: nat, hi: nat, i: nat, j: nat)
    requires lo <= hi <= |d| && i <= j <= hi - lo
    ensures d[lo..hi][i..j] == d[lo + i..lo + j]
  {
    var part, x := d[lo..hi], d[lo + i..lo + j];
    assert |part[i..j]| == |x|;
    forall k | 0 <= k < |x|
      ensures part[i..j][k] == x[k]
    {
      assert part[i + k] == d[lo + i + k];
    }
  }

  // Slices of a part are slices of the whole.
  lemma PartOf(d: Bytes, offset: nat, b: Bytes)
    requires offset + |b| <= |d| && d[offset..offset + |b|] == b
    ensures forall i, j | 0 <= i <= j <= |b| :: b[i..j] == d[offset + i..offset + j]
  {
    forall i, j | 0 <= i <= j <= |b|
      ensures b[i..j] == d[offset + i..offset + j]
    {
      SliceOfSlice(d, offset, offset + |b|, i, j);
    }
  }

  /** Only a block under the magic and version whose two hashes match is read. */
  lemma ParseChecks(c: Crypto, data: Bytes)
    requires Ideal(c) && Parse(c, data).Some?
    ensures var n := |data|;
            && 73 <= n
            && data[..5] == [0x31, 0x43, 0x32, 0x32, 2]
            && data[n - 68..n - 64] == [0, 0, 0, 32]
            && data[n - 64..n - 32] == c.sha256(data[5..n - 68])
            && data[n - 32..] == c.sha256(data[..n - 32])
  {
    hide ParseBody;
    hide Word;
    hide FromBigEndian;
    var payload := data[..|data| - 32];
    var (m, end) := ParseBody(payload, 5).value;
    var (length, start) := ReadU32(payload, end).value;
    assert length == 32 && start + 32 == |payload| by {
      assert |c.sha256(payload[5..end])| == 32;
    }
    assert payload[0..4] == data[..4] && payload[end..start] == data[end..start];
    assert payload[start..start + 32] == data[start..start + 32] && payload[5..end] == data[5..end];
    WordRead(data[..4]);
    WordRead(data[end..start]);
    FixedWords();
  }

  /** The written form always has 345 bytes. */
  lemma PrintedLength(c: Crypto, m: SmbMetadata)
    requires Ideal(c) && WellSized(m)
    ensures |Print(c, m)| == SM_PLAIN_BYTES
  {
    PayloadParts(c, m);
  }

  /**
   Reading what was written restores every field but the Merkle levels, if and only if a
   whole-file name has at most 120 bytes. Of longer names, those with 121 bytes of which the last
   is a segment code are misread, and all others rejected.
   */
  lemma ParsePrint(c: Crypto, m: SmbMetadata)
    requires Ideal(c) && Encodable(m)
    ensures Parse(c, Print(c, m)) == Some(WithoutLevels(m))
       <==> NameSurvives(m.originalFileName, m.segmentCode)
    ensures !NameSurvives(m.originalFileName, m.segmentCode) ==>
              Parse(c, Print(c, m)) == if NameMisread(m.originalFileName) then Some(Misread(m)) else None
  {
    hide Body;
    hide Payload;
    hide ParseBody;
    hide ReadBytes;
    hide ReadU32;
    hide WellSized;
    hide Normalize;
    hide BigEndian;
    hide NameSurvives;
    hide NameMisread;
    var p, data := Payload(c, m), Print(c, m);
    PayloadParts(c, m);
    MisreadDiffers(m);
    assert data[..|data| - HASH_BYTES] == p && data[|data| - HASH_BYTES..] == c.sha256(p);
    ReadU32At(p, 0, SMB_MAGIC);
    ParseBodyAt(p, 5, m);
    assert p[5..277] == Body(m);
    ReadBytesAt(p, 277, c.sha256(Body(m)));
  }
}
