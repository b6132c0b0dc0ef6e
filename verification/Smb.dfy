/** The super metadata block: its fixed 345-byte form, the writer and the reader. */
module Smb {
  import opened ByteStrings
  import opened Cryptography
  import opened FileNames
  import opened Merkle
  import opened Segment

  const SMB_MAGIC: nat := 0x31433232
  const SMB_VERSION: Byte := 2

  datatype SmbMetadata = SmbMetadata(
    rootHash: Bytes,
    encryptedFek: EncryptedBlob,
    saltRand: Bytes,
    merkleTree: MerkleTree,
    numTokens: nat,
    wireBlockSize: nat,
    ciphertextLength: nat,
    originalFileLength: nat,
    originalFileName: Bytes,
    segmentCode: nat)

  // ---------- Big-endian integers ----------

  function Pow256(n: nat): (r: nat)
    ensures 0 < r
  {
    if n == 0 then 1 else 256 * Pow256(n - 1)
  }

  /** The low `n` bytes of `v`, most significant first. */
  function BigEndian(v: nat, n: nat): (r: Bytes)
    ensures |r| == n
  {
    if n == 0 then [] else BigEndian(v / 256, n - 1) + [v % 256]
  }

  function FromBigEndian(b: Bytes): nat {
    if b == [] then 0 else FromBigEndian(b[..|b| - 1]) * 256 + b[|b| - 1]
  }

  lemma {:induction false} BigEndianRoundTrip(v: nat, n: nat)
    requires v < Pow256(n)
    ensures FromBigEndian(BigEndian(v, n)) == v
  {
    if n > 0 {
      BigEndianRoundTrip(v / 256, n - 1);
      assert BigEndian(v, n)[..n - 1] == BigEndian(v / 256, n - 1);
    }
  }

  lemma {:induction false} BigEndianTop(v: nat, n: nat)
    ensures BigEndian(v, n + 1) == [v / Pow256(n) % 256] + BigEndian(v, n)
  {
    if n > 0 {
      BigEndianTop(v / 256, n - 1);
      DivDiv(v, Pow256(n - 1));
    }
  }

  lemma DivDiv(v: nat, d: nat)
    requires 0 < d
    ensures v / 256 / d == v / (256 * d)
  {
    var q := v / 256 / d;
    DivBounds(v / 256, d);
    assert q * (256 * d) == 256 * (q * d);
    DivUnique(v, 256 * d, q);
  }

  method AppendU32(buffer: Bytes, value: nat) returns (out: Bytes)
    ensures out == buffer + BigEndian(value, 4)
  {
    out := buffer + [value / 0x100_0000 % 256];
    out := out + [value / 0x1_0000 % 256];
    out := out + [value / 0x100 % 256];
    out := out + [value % 256];
    assert Pow256(3) == 0x100_0000 && Pow256(2) == 0x1_0000 && Pow256(1) == 0x100 && Pow256(0) == 1;
    BigEndianTop(value, 3);
    BigEndianTop(value, 2);
    BigEndianTop(value, 1);
    BigEndianTop(value, 0);
  }

  method AppendU64(buffer: Bytes, value: nat) returns (out: Bytes)
    ensures out == buffer + BigEndian(value, 8)
  {
    out := buffer;
    var left := 8;
    while left > 0
      invariant 0 <= left <= 8
      invariant out + BigEndian(value, left) == buffer + BigEndian(value, 8)
    {
      BigEndianTop(value, left - 1);
      out := out + [value / Pow256(left - 1) % 256];
      left := left - 1;
    }
  }

  method AppendBytes(buffer: Bytes, data: Bytes) returns (out: Bytes)
    ensures out == buffer + LengthPrefixed(data)
  {
    out := AppendU32(buffer, |data|);
    out := out + data;
  }

  // ---------- The writer ----------

  function LengthPrefixed(data: Bytes): Bytes {
    BigEndian(|data|, 4) + data
  }

  /** The 128-byte name slot; segmented mode keeps its code and six zero bytes at the end. */
  function NameField(name: Bytes, code: nat): (r: Bytes)
    ensures |r| == MAX_ORIGINAL_FILE_NAME_BYTES
  {
    if code == V2_SEGMENT_CODE_WHOLE_FILE then
      var n := Min(|name|, MAX_ORIGINAL_FILE_NAME_BYTES);
      name[..n] + Zeros(MAX_ORIGINAL_FILE_NAME_BYTES - n)
    else
      var n := Min(|name|, V21_FILE_NAME_PAYLOAD_BYTES);
      name[..n] + Zeros(V21_SEGMENT_CODE_FIELD_OFFSET - n) + [code % 256, code / 256 % 256] + Zeros(6)
  }

  function Body(m: SmbMetadata): Bytes {
    LengthPrefixed(m.rootHash)
    + (LengthPrefixed(Pack(m.encryptedFek))
       + (LengthPrefixed(m.saltRand)
          + (BigEndian(m.numTokens, 4)
             + (BigEndian(m.wireBlockSize, 4)
                + (BigEndian(m.ciphertextLength, 8)
                   + (BigEndian(m.originalFileLength, 8)
                      + NameField(m.originalFileName, m.segmentCode)))))))
  }

  function Payload(c: Crypto, m: SmbMetadata): Bytes {
    BigEndian(SMB_MAGIC, 4) + ([SMB_VERSION] + (Body(m) + LengthPrefixed(c.sha256(Body(m)))))
  }

  function Print(c: Crypto, m: SmbMetadata): Bytes {
    Payload(c, m) + c.sha256(Payload(c, m))
  }

  method BuildBody(m: SmbMetadata) returns (body: Bytes)
    ensures body == Body(m)
  {
    body := AppendBytes([], m.rootHash);
    body := AppendBytes(body, Pack(m.encryptedFek));
    body := AppendBytes(body, m.saltRand);
    body := AppendU32(body, m.numTokens);
    body := AppendU32(body, m.wireBlockSize);
    body := AppendU64(body, m.ciphertextLength);
    body := AppendU64(body, m.originalFileLength);
    var field := AppendFixedFileNameField(m.originalFileName, m.segmentCode);
    body := body + field;
  }

  // The source copies the name into a zeroed array and then sets the two code bytes.
  method AppendFixedFileNameField(name: Bytes, code: nat) returns (r: Bytes)
    ensures r == NameField(name, code)
  {
    var field := new Byte[MAX_ORIGINAL_FILE_NAME_BYTES](_ => 0);
    var limit := if code == V2_SEGMENT_CODE_WHOLE_FILE then MAX_ORIGINAL_FILE_NAME_BYTES
                 else V21_FILE_NAME_PAYLOAD_BYTES;
    var length := Min(|name|, limit);
    for i := 0 to length
      invariant forall k | 0 <= k < i :: field[k] == name[k]
      invariant forall k | i <= k < field.Length :: field[k] == 0
    {
      field[i] := name[i];
    }
    if code != V2_SEGMENT_CODE_WHOLE_FILE {
      field[V21_SEGMENT_CODE_FIELD_OFFSET] := code % 256;
      field[V21_SEGMENT_CODE_FIELD_OFFSET + 1] := code / 256 % 256;
    }
    r := field[..];
  }

  method SerializeSmb(c: Crypto, m: SmbMetadata) returns (data: Bytes)
    ensures data == Print(c, m)
  {
    hide Body;
    hide BigEndian;
    hide LengthPrefixed;
    var body := BuildBody(m);
    var bodyHash := c.sha256(body);
    var payload := AppendU32([], SMB_MAGIC);
    payload := payload + [SMB_VERSION];
    payload := payload + body;
    payload := AppendBytes(payload, bodyHash);
    assert payload == Payload(c, m);
    data := payload + c.sha256(payload);
  }

  // ---------- The reader ----------

  function ReadU32(buffer: Bytes, offset: nat): Option<(nat, nat)> {
    if offset + 4 > |buffer| then None
    else Some((FromBigEndian(buffer[offset..offset + 4]), offset + 4))
  }

  function ReadU64(buffer: Bytes, offset: nat): Option<(nat, nat)> {
    if offset + 8 > |buffer| then None
    else Some((FromBigEndian(buffer[offset..offset + 8]), offset + 8))
  }

  function ReadBytes(buffer: Bytes, offset: nat): Option<(Bytes, nat)> {
    var (length, start) :- ReadU32(buffer, offset);
    if start + length > |buffer| then None else Some((buffer[start..start + length], start + length))
  }

  function ReadSegmentCode(field: Bytes): (r: Option<nat>)
    requires |field| == MAX_ORIGINAL_FILE_NAME_BYTES
    ensures r.Some? ==> IsSupported(r.value)
  {
    var low: nat, high: nat := field[V21_SEGMENT_CODE_FIELD_OFFSET], field[V21_SEGMENT_CODE_FIELD_OFFSET + 1];
    var code := low + high * 256;
    if code == V2_SEGMENT_CODE_WHOLE_FILE then Some(code)
    else if !IsSupported(code) then None
    else if exists i | V21_SEGMENT_CODE_FIELD_OFFSET + 2 <= i < |field| :: field[i] != 0 then None
    else Some(code)
  }

  function ReadNameField(buffer: Bytes, offset: nat): (r: Option<(Bytes, nat)>)
    ensures r.Some? ==> IsSupported(r.value.1)
  {
    if offset + MAX_ORIGINAL_FILE_NAME_BYTES > |buffer| then None
    else
      var field := buffer[offset..offset + MAX_ORIGINAL_FILE_NAME_BYTES];
      var code :- ReadSegmentCode(field);
      var slot := if code == V2_SEGMENT_CODE_WHOLE_FILE then field
                  else field[..V21_FILE_NAME_PAYLOAD_BYTES];
      Some((Normalize(UntilNul(slot)), code))
  }

  function ParseBody(payload: Bytes, offset: nat): (r: Option<(SmbMetadata, nat)>)
    ensures r.Some? ==> offset <= r.value.1 <= |payload| && IsSupported(r.value.0.segmentCode)
  {
    var (root, o1) :- ReadBytes(payload, offset);
    var (packed, o2) :- ReadBytes(payload, o1);
    var fek :- Unpack(packed);
    var (salt, o3) :- ReadBytes(payload, o2);
    var (numTokens, o4) :- ReadU32(payload, o3);
    var (wireBlockSize, o5) :- ReadU32(payload, o4);
    var (ciphertextLength, o6) :- ReadU64(payload, o5);
    var (originalLength, o7) :- ReadU64(payload, o6);
    var (name, code) :- ReadNameField(payload, o7);
    Some((SmbMetadata(root, fek, salt, MerkleTree([], root), numTokens, wireBlockSize,
                      ciphertextLength, originalLength, name, code),
          o7 + MAX_ORIGINAL_FILE_NAME_BYTES))
  }

  function Parse(c: Crypto, data: Bytes): (r: Option<SmbMetadata>)
    ensures r.Some? ==> IsSupported(r.value.segmentCode)
  {
    if |data| < 4 + 1 + 4 + HASH_BYTES + HASH_BYTES then None
    else
      var payload := data[..|data| - HASH_BYTES];
      if c.sha256(payload) != data[|data| - HASH_BYTES..] then None
      else
        var (magic, o1) :- ReadU32(payload, 0);
        if magic != SMB_MAGIC || o1 >= |payload| || payload[o1] != SMB_VERSION then None
        else
          var (m, o2) :- ParseBody(payload, o1 + 1);
          var (bodyHash, o3) :- ReadBytes(payload, o2);
          if c.sha256(payload[o1 + 1..o2]) != bodyHash || o3 != |payload| then None else Some(m)
  }

  // A reader returns the value it read and the advanced offset.
  method TakeU32(buffer: Bytes, offset: nat) returns (r: Option<nat>, offset': nat)
    ensures ReadU32(buffer, offset) == if r.None? then None else Some((r.value, offset'))
  {
    offset' := offset;
    if offset + 4 > |buffer| {
      return None, offset;
    }
    var b := buffer[offset..offset + 4];
    assert b[..1] == [b[0]] && b[..2][..1] == b[..1] && b[..3][..2] == b[..2];
    assert FromBigEndian(b[..1]) == FromBigEndian([]) * 256 + b[0];
    assert FromBigEndian(b[..2]) == FromBigEndian(b[..1]) * 256 + b[1];
    assert FromBigEndian(b[..3]) == FromBigEndian(b[..2]) * 256 + b[2];
    var b0: nat, b1: nat, b2: nat, b3: nat :=
      buffer[offset], buffer[offset + 1], buffer[offset + 2], buffer[offset + 3];
    r := Some(b0 * 0x100_0000 + b1 * 0x1_0000 + b2 * 0x100 + b3);
    offset' := offset + 4;
  }

  method TakeU64(buffer: Bytes, offset: nat) returns (r: Option<nat>, offset': nat)
    ensures ReadU64(buffer, offset) == if r.None? then None else Some((r.value, offset'))
  {
    hide FromBigEndian;
    hide Pow256;
    hide Shifted;
    offset' := offset;
    if offset + 8 > |buffer| {
      return None, offset;
    }
    var value: nat := 0;
    ghost var b := buffer[offset..offset + 8];
    NothingRead(8);
    assert b[..0] == [];
    // The source ors each byte into its place; the places are disjoint.
    var left := 8;
    while left > 0
      invariant 0 <= left <= 8 && offset' == offset + (8 - left)
      invariant value == Shifted(FromBigEndian(b[..8 - left]), left)
    {
      FromBigEndianSnoc(b, 8 - left);
      var digit: nat := buffer[offset'];
      ShiftIn(FromBigEndian(b[..8 - left]), digit, left);
      value := value + digit * Pow256(left - 1);
      offset' := offset' + 1;
      left := left - 1;
    }
    assert b[..8] == b;
    NothingShifted(FromBigEndian(b));
    r := Some(value);
  }

  lemma FromBigEndianSnoc(b: Bytes, n: nat)
    requires n < |b|
    ensures FromBigEndian(b[..n + 1]) == FromBigEndian(b[..n]) * 256 + b[n]
  {
    assert b[..n + 1][..n] == b[..n];
  }

  // `high` in front of `left` bytes that are still to come.
  function Shifted(high: nat, left: nat): nat {
    high * Pow256(left)
  }

  lemma NothingRead(left: nat)
    ensures FromBigEndian([]) == 0 && Shifted(0, left) == 0
  {
  }

  lemma NothingShifted(value: nat)
    ensures Shifted(value, 0) == value
  {
  }

  lemma ShiftIn(high: nat, digit: nat, left: nat)
    requires 0 < left
    ensures Shifted(high, left) + digit * Pow256(left - 1) == Shifted(high * 256 + digit, left - 1)
  {
    assert high * Pow256(left) == high * 256 * Pow256(left - 1);
  }

  method TakeBytes(buffer: Bytes, offset: nat) returns (r: Option<Bytes>, offset': nat)
    ensures ReadBytes(buffer, offset) == if r.None? then None else Some((r.value, offset'))
  {
    var length, start := TakeU32(buffer, offset);
    if length.None? || start + length.value > |buffer| {
      return None, offset;
    }
    return Some(buffer[start..start + length.value]), start + length.value;
  }

  /** The code in the name field; a code of segmented mode must be followed by zeros only. */
  method ReadSegmentCodeFromField(field: Bytes) returns (r: Option<nat>)
    requires |field| == MAX_ORIGINAL_FILE_NAME_BYTES
    ensures r == ReadSegmentCode(field)
    ensures r.Some? && r.value != V2_SEGMENT_CODE_WHOLE_FILE ==>
              forall i | V21_SEGMENT_CODE_FIELD_OFFSET + 2 <= i < |field| :: field[i] == 0
  {
    var low: nat, high: nat := field[V21_SEGMENT_CODE_FIELD_OFFSET], field[V21_SEGMENT_CODE_FIELD_OFFSET + 1];
    var code := low + high * 256;
    if code == V2_SEGMENT_CODE_WHOLE_FILE {
      return Some(code);
    }
    if !IsSupported(code) {
      return None;
    }
    for index := V21_SEGMENT_CODE_FIELD_OFFSET + 2 to |field|
      invariant forall i | V21_SEGMENT_CODE_FIELD_OFFSET + 2 <= i < index :: field[i] == 0
    {
      if field[index] != 0 {
        return None;
      }
    }
    r := Some(code);
  }

  method TakeNameField(buffer: Bytes, offset: nat) returns (r: Option<(Bytes, nat)>, offset': nat)
    ensures r == ReadNameField(buffer, offset)
    ensures r.Some? ==> offset' == offset + MAX_ORIGINAL_FILE_NAME_BYTES <= |buffer|
  {
    offset' := offset;
    if offset + MAX_ORIGINAL_FILE_NAME_BYTES > |buffer| {
      return None, offset;
    }
    var field := buffer[offset..offset + MAX_ORIGINAL_FILE_NAME_BYTES];
    var code := ReadSegmentCodeFromField(field);
    if code.None? {
      return None, offset;
    }
    var slot := if code.value == V2_SEGMENT_CODE_WHOLE_FILE then field
                else field[..V21_FILE_NAME_PAYLOAD_BYTES];
    var value := ReadUntilNul(slot);
    var name := NormalizeOriginalFileName(value);
    return Some((name, code.value)), offset + MAX_ORIGINAL_FILE_NAME_BYTES;
  }

  method TakeBody(payload: Bytes, start: nat) returns (r: Option<SmbMetadata>, offset: nat)
    ensures ParseBody(payload, start) == if r.None? then None else Some((r.value, offset))
  {
    hide ReadBytes;
    hide ReadU32;
    hide ReadU64;
    hide ReadNameField;
    offset := start;
    r := None;
    var root: Option<Bytes>, packed: Option<Bytes>, salt: Option<Bytes>;
    root, offset := TakeBytes(payload, offset);
    if root.None? { return; }
    packed, offset := TakeBytes(payload, offset);
    if packed.None? { return; }
    var fek := Unpack(packed.value);
    if fek.None? { return; }
    salt, offset := TakeBytes(payload, offset);
    if salt.None? { return; }
    var numTokens: Option<nat>, wireBlockSize: Option<nat>, ciphertextLength: Option<nat>;
    var originalLength: Option<nat>, name: Option<(Bytes, nat)>;
    numTokens, offset := TakeU32(payload, offset);
    if numTokens.None? { return; }
    wireBlockSize, offset := TakeU32(payload, offset);
    if wireBlockSize.None? { return; }
    ciphertextLength, offset := TakeU64(payload, offset);
    if ciphertextLength.None? { return; }
    originalLength, offset := TakeU64(payload, offset);
    if originalLength.None? { return; }
    name, offset := TakeNameField(payload, offset);
    if name.None? { return; }
    r := Some(SmbMetadata(root.value, fek.value, salt.value, MerkleTree([], root.value),
                          numTokens.value, wireBlockSize.value, ciphertextLength.value,
                          originalLength.value, name.value.0, name.value.1));
  }

  method DeserializeSmb(c: Crypto, data: Bytes) returns (r: Option<SmbMetadata>)
    ensures r == Parse(c, data)
  {
    hide ParseBody;
    hide ReadBytes;
    hide ReadU32;
    if |data| < 4 + 1 + 4 + HASH_BYTES + HASH_BYTES {
      return None;
    }
    var expectedPayloadHash := data[|data| - HASH_BYTES..];
    var payload := data[..|data| - HASH_BYTES];
    if c.sha256(payload) != expectedPayloadHash {
      return None;
    }
    var magic, offset := TakeU32(payload, 0);
    if magic.None? || magic.value != SMB_MAGIC {
      return None;
    }
    if offset >= |payload| || payload[offset] != SMB_VERSION {
      return None;
    }
    var bodyStart := offset + 1;
    var metadata, bodyEnd := TakeBody(payload, bodyStart);
    if metadata.None? {
      return None;
    }
    var expectedBodyHash, end := TakeBytes(payload, bodyEnd);
    if expectedBodyHash.None? || c.sha256(payload[bodyStart..bodyEnd]) != expectedBodyHash.value {
      return None;
    }
    r := if end != |payload| then None else metadata;
  }

  // ---------- Round trip ----------

  /** Fixed-width fields of the right width. */
  ghost predicate WellSized(m: SmbMetadata) {
    && |m.rootHash| == HASH_BYTES
    && |m.encryptedFek.nonce| == GCM_NONCE_BYTES
    && |m.encryptedFek.tag| == GCM_TAG_BYTES
    && |m.encryptedFek.ciphertext| == KEY_BYTES
    && |m.saltRand| == SALT_RAND_BYTES
  }

  /** What the field types and the sender guarantee about a metadata record. */
  ghost predicate Encodable(m: SmbMetadata) {
    && WellSized(m)
    && m.numTokens < 0x1_0000_0000
    && m.wireBlockSize < 0x1_0000_0000
    && m.ciphertextLength < 0x1_0000_0000_0000_0000
    && m.originalFileLength < 0x1_0000_0000_0000_0000
    && IsSupported(m.segmentCode)
    && Normalize(m.originalFileName) == m.originalFileName
    && (IsSegmented(m.segmentCode) ==> |m.originalFileName| <= V21_FILE_NAME_PAYLOAD_BYTES)
  }

  // `x` stands at `offset`.
  ghost predicate At(buffer: Bytes, offset: nat, x: Bytes) {
    offset + |x| <= |buffer| && buffer[offset..offset + |x|] == x
  }

  lemma AtSplit(buffer: Bytes, offset: nat, x: Bytes, y: Bytes)
    requires At(buffer, offset, x + y)
    ensures At(buffer, offset, x) && At(buffer, offset + |x|, y)
  {
    var whole := buffer[offset..offset + |x + y|];
    assert buffer[offset..offset + |x|] == whole[..|x|] == x;
    assert buffer[offset + |x|..offset + |x| + |y|] == whole[|x|..] == y;
  }

  lemma ReadU32At(buffer: Bytes, offset: nat, v: nat)
    requires At(buffer, offset, BigEndian(v, 4)) && v < 0x1_0000_0000
    ensures ReadU32(buffer, offset) == Some((v, offset + 4))
  {
    assert Pow256(4) == 0x1_0000_0000;
    BigEndianRoundTrip(v, 4);
  }

  lemma ReadU64At(buffer: Bytes, offset: nat, v: nat)
    requires At(buffer, offset, BigEndian(v, 8)) && v < 0x1_0000_0000_0000_0000
    ensures ReadU64(buffer, offset) == Some((v, offset + 8))
  {
    assert Pow256(4) == 0x1_0000_0000;
    assert Pow256(8) == 0x1_0000_0000_0000_0000;
    BigEndianRoundTrip(v, 8);
  }

  lemma ReadBytesAt(buffer: Bytes, offset: nat, x: Bytes)
    requires At(buffer, offset, LengthPrefixed(x)) && |x| < 0x1_0000_0000
    ensures ReadBytes(buffer, offset) == Some((x, offset + 4 + |x|))
  {
    AtSplit(buffer, offset, BigEndian(|x|, 4), x);
    ReadU32At(buffer, offset, |x|);
  }
}
