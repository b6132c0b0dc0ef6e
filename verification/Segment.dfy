/**
 Payload encryption: segment sizes, the ciphertext length and its searched inverse, and the
 whole-file (V2) and segmented (V2.1) encrypt and decrypt loops.
 */
module Segment {
  import opened ByteStrings
  import opened Cryptography

  const V2_SEGMENT_CODE_WHOLE_FILE: nat := 0
  const V21_SEGMENT_CODE_MIN: nat := 1
  const V21_SEGMENT_CODE_MAX: nat := 5
  const V21_FILE_NAME_PAYLOAD_BYTES: nat := 120
  const V21_SEGMENT_CODE_FIELD_OFFSET: nat := 120

  predicate IsWholeFile(code: nat) {
    code == V2_SEGMENT_CODE_WHOLE_FILE
  }

  predicate IsSegmented(code: nat) {
    V21_SEGMENT_CODE_MIN <= code <= V21_SEGMENT_CODE_MAX
  }

  predicate IsSupported(code: nat) {
    IsWholeFile(code) || IsSegmented(code)
  }

  /** 16 MiB for code 1, doubling up to 256 MiB for code 5. */
  function SegmentPlaintextBytes(code: nat): (r: nat)
    requires IsSegmented(code)
    ensures r >= 0x100_0000
  {
    if code == 1 then 0x100_0000
    else if code == 2 then 0x200_0000
    else if code == 3 then 0x400_0000
    else if code == 4 then 0x800_0000
    else 0x1000_0000
  }

  function CiphertextLength(padded: nat, code: nat): nat
    requires IsSupported(code)
  {
    if IsWholeFile(code) then padded + GCM_ENVELOPE_BYTES
    else padded + CeilDiv(padded, SegmentPlaintextBytes(code)) * GCM_ENVELOPE_BYTES
  }

  /** Every record adds 28 bytes: a whole file is one record, and a segment of code n has 2^(n + 3) MiB. */
  lemma CiphertextLengthIs(padded: nat, code: nat) returns (records: nat)
    requires code <= 5
    ensures CiphertextLength(padded, code) == padded + 28 * records
    ensures code == 0 ==> records == 1
    ensures 1 <= code ==>
              var size := [16, 32, 64, 128, 256][code - 1] * 0x10_0000;
              SegmentPlaintextBytes(code) == size && records * size - size < padded <= records * size
  {
    if code == 0 {
      records := 1;
    } else {
      records := CeilDiv(padded, SegmentPlaintextBytes(code));
      CeilDivBounds(padded, SegmentPlaintextBytes(code));
    }
  }

  // ---------- The inverse of the ciphertext length ----------

  function SearchPaddedLength(length: nat, size: nat, count: nat): Option<nat>
    requires 0 < size
    decreases length + 1 - count
  {
    if count > length then None
    else if length >= count * GCM_ENVELOPE_BYTES
            && CeilDiv(length - count * GCM_ENVELOPE_BYTES, size) == count
    then Some(length - count * GCM_ENVELOPE_BYTES)
    else SearchPaddedLength(length, size, count + 1)
  }

  function PaddedLength(length: nat, code: nat): Option<nat>
    requires IsSupported(code)
  {
    if IsWholeFile(code) then
      if length < GCM_ENVELOPE_BYTES then None else Some(length - GCM_ENVELOPE_BYTES)
    else SearchPaddedLength(length, SegmentPlaintextBytes(code), 1)
  }

  method PaddedPlaintextLengthFromCiphertext(length: nat, code: nat) returns (r: Option<nat>)
    requires IsSupported(code)
    ensures r == PaddedLength(length, code)
  {
    if IsWholeFile(code) {
      return if length < GCM_ENVELOPE_BYTES then None else Some(length - GCM_ENVELOPE_BYTES);
    }
    var size := SegmentPlaintextBytes(code);
    var maxSegments := CeilDiv(length, 1);
    var count := 1;
    while count <= maxSegments
      invariant 1 <= count
      invariant PaddedLength(length, code) == SearchPaddedLength(length, size, count)
    {
      var envelopeTotal := count * GCM_ENVELOPE_BYTES;
      if length >= envelopeTotal && CeilDiv(length - envelopeTotal, size) == count {
        return Some(length - envelopeTotal);
      }
      count := count + 1;
    }
    return None;
  }

  // Longer plaintext, longer ciphertext; so a ciphertext length has at most one preimage.
  lemma CiphertextLengthStrict(a: nat, b: nat, code: nat)
    requires IsSupported(code) && a < b
    ensures CiphertextLength(a, code) < CiphertextLength(b, code)
  {
    if IsSegmented(code) {
      CeilDivMonotone(a, b, SegmentPlaintextBytes(code));
    }
  }

  lemma {:induction false} SearchFinds(length: nat, size: nat, from: nat, padded: nat)
    requires 0 < size && 0 < padded && from <= CeilDiv(padded, size)
    requires length == padded + CeilDiv(padded, size) * GCM_ENVELOPE_BYTES
    ensures SearchPaddedLength(length, size, from).Some?
    decreases CeilDiv(padded, size) - from
  {
    var count := CeilDiv(padded, size);
    assert count <= length;
    if from < count {
      SearchFinds(length, size, from + 1, padded);
    }
  }

  lemma {:induction false} SearchSound(length: nat, size: nat, from: nat)
    requires 0 < size && 1 <= from
    requires SearchPaddedLength(length, size, from).Some?
    ensures var p := SearchPaddedLength(length, size, from).value;
            0 < p && length == p + CeilDiv(p, size) * GCM_ENVELOPE_BYTES
    decreases length + 1 - from
  {
    if length >= from * GCM_ENVELOPE_BYTES
       && CeilDiv(length - from * GCM_ENVELOPE_BYTES, size) == from {
      if length == from * GCM_ENVELOPE_BYTES {
        CeilDivUnique(0, size, 0);
      }
    } else {
      SearchSound(length, size, from + 1);
    }
  }

  /** The inverse recovers the padded length; in segmented mode the length must be positive. */
  lemma LengthInverse(padded: nat, code: nat)
    requires IsSupported(code) && (IsSegmented(code) ==> 0 < padded)
    ensures PaddedLength(CiphertextLength(padded, code), code) == Some(padded)
  {
    if IsSegmented(code) {
      var size, length := SegmentPlaintextBytes(code), CiphertextLength(padded, code);
      CeilDivBounds(padded, size);
      SearchFinds(length, size, 1, padded);
      SearchSound(length, size, 1);
      var p := PaddedLength(length, code).value;
      if p < padded {
        CiphertextLengthStrict(p, padded, code);
      } else if padded < p {
        CiphertextLengthStrict(padded, p, code);
      }
    }
  }

  /** A length is rejected exactly when no admissible plaintext length produces it. */
  lemma LengthInverseExact(length: nat, code: nat, padded: nat)
    requires IsSupported(code)
    ensures PaddedLength(length, code) == Some(padded)
       <==> (IsSegmented(code) ==> 0 < padded) && CiphertextLength(padded, code) == length
  {
    if IsSegmented(code) && PaddedLength(length, code) == Some(padded) {
      SearchSound(length, SegmentPlaintextBytes(code), 1);
    }
    if (IsSegmented(code) ==> 0 < padded) && CiphertextLength(padded, code) == length {
      LengthInverse(padded, code);
    }
  }

  // ---------- Encryption ----------

  /** The plaintexts of the GCM records, in order. */
  function Segments(padded: Bytes, code: nat): seq<Bytes>
    requires IsSupported(code)
  {
    if IsWholeFile(code) then [padded] else Chunk(padded, SegmentPlaintextBytes(code))
  }

  /** One record per segment, each with the next nonce of the tape. */
  function SealSegments(c: Crypto, key: Bytes, tape: Tape, pos: nat, segments: seq<Bytes>): seq<Bytes>
    requires |key| == KEY_BYTES
  {
    seq(|segments|, i requires 0 <= i < |segments| =>
      Encrypt(c, key, Draw(tape, pos + i * GCM_NONCE_BYTES, GCM_NONCE_BYTES), segments[i]))
  }

  function EncryptPayload(c: Crypto, key: Bytes, tape: Tape, pos: nat, padded: Bytes, code: nat): Bytes
    requires IsSupported(code) && |key| == KEY_BYTES
  {
    Flatten(SealSegments(c, key, tape, pos, Segments(padded, code)))
  }

  lemma SealSnoc(c: Crypto, key: Bytes, tape: Tape, pos: nat, segments: seq<Bytes>, x: Bytes)
    requires |key| == KEY_BYTES
    ensures SealSegments(c, key, tape, pos, segments + [x])
         == SealSegments(c, key, tape, pos, segments)
            + [Encrypt(c, key, Draw(tape, pos + |segments| * GCM_NONCE_BYTES, GCM_NONCE_BYTES), x)]
    ensures Flatten(SealSegments(c, key, tape, pos, segments + [x]))
         == Flatten(SealSegments(c, key, tape, pos, segments))
            + Encrypt(c, key, Draw(tape, pos + |segments| * GCM_NONCE_BYTES, GCM_NONCE_BYTES), x)
  {
    var pack := Encrypt(c, key, Draw(tape, pos + |segments| * GCM_NONCE_BYTES, GCM_NONCE_BYTES), x);
    assert SealSegments(c, key, tape, pos, segments + [x])
        == SealSegments(c, key, tape, pos, segments) + [pack];
    FlattenSnoc(SealSegments(c, key, tape, pos, segments), pack);
  }

  lemma {:induction false} SealedLength(c: Crypto, key: Bytes, tape: Tape, pos: nat, segments: seq<Bytes>)
    requires Ideal(c) && |key| == KEY_BYTES
    ensures |Flatten(SealSegments(c, key, tape, pos, segments))|
         == |Flatten(segments)| + |segments| * GCM_ENVELOPE_BYTES
  {
    if segments != [] {
      var init, last := segments[..|segments| - 1], segments[|segments| - 1];
      assert segments == init + [last];
      SealedLength(c, key, tape, pos, init);
      SealSnoc(c, key, tape, pos, init, last);
    }
  }

  lemma SegmentsCover(padded: Bytes, code: nat)
    requires IsSupported(code)
    ensures Flatten(Segments(padded, code)) == padded
    ensures CiphertextLength(|padded|, code)
         == |padded| + |Segments(padded, code)| * GCM_ENVELOPE_BYTES
  {
    if IsWholeFile(code) {
      FlattenSnoc([], padded);
      assert [] + [padded] == [padded];
    } else {
      ChunkCovers(padded, SegmentPlaintextBytes(code));
    }
  }

  /** The forward length function says how long the payload is, in both modes. */
  lemma PayloadLength(c: Crypto, key: Bytes, tape: Tape, pos: nat, padded: Bytes, code: nat)
    requires Ideal(c) && IsSupported(code) && |key| == KEY_BYTES
    ensures |EncryptPayload(c, key, tape, pos, padded, code)| == CiphertextLength(|padded|, code)
  {
    SegmentsCover(padded, code);
    SealedLength(c, key, tape, pos, Segments(padded, code));
  }

  lemma NothingSealed(c: Crypto, key: Bytes, tape: Tape, pos: nat, size: nat)
    requires |key| == KEY_BYTES
    ensures Flatten(SealSegments(c, key, tape, pos, [])) == [] && Flatten([]) == []
    ensures Chunked([], size) && Full([], size)
  {
  }

  method EncryptPayloadV21Segmented(c: Crypto, key: Bytes, tape: Tape, pos: nat, padded: Bytes, code: nat)
    returns (r: Option<Bytes>, pos': nat)
    requires Ideal(c) && IsSegmented(code) && |key| == KEY_BYTES
    ensures r == Some(EncryptPayload(c, key, tape, pos, padded, code))
    ensures pos' == pos + |Segments(padded, code)| * GCM_NONCE_BYTES
  {
    hide SealSegments;
    hide Encrypt;
    hide Ideal;
    hide Flatten;
    hide Chunk;
    hide Chunked;
    hide Full;
    hide CeilDiv;
    var size := SegmentPlaintextBytes(code);
    var stream: Bytes := [];
    var offset := 0;
    NothingSealed(c, key, tape, pos, size);
    pos' := pos;
    ghost var segments: seq<Bytes> := [];
    while offset < |padded|
      invariant 0 <= offset <= |padded| && Flatten(segments) == padded[..offset]
      invariant Chunked(segments, size) && (offset < |padded| ==> Full(segments, size))
      invariant stream == Flatten(SealSegments(c, key, tape, pos, segments))
      invariant pos' == pos + |segments| * GCM_NONCE_BYTES
    {
      var chunkLength := Min(size, |padded| - offset);
      var segment := padded[offset..offset + chunkLength];
      var pack := Encrypt(c, key, Draw(tape, pos', GCM_NONCE_BYTES), segment);
      SealSnoc(c, key, tape, pos, segments, segment);
      FlattenSnoc(segments, segment);
      ChunkedSnoc(segments, segment, size);
      segments := segments + [segment];
      assert padded[..offset] + segment == padded[..offset + chunkLength];
      pos' := pos' + GCM_NONCE_BYTES;
      stream := stream + pack;
      offset := offset + chunkLength;
    }
    assert padded[..offset] == padded;
    ChunkUnique(segments, size);
    PayloadLength(c, key, tape, pos, padded, code);
    r := if |stream| != CiphertextLength(|padded|, code) then None else Some(stream);
  }

  // ---------- Decryption ----------

  /** Walk the stream record by record until `remaining` plaintext bytes have come out. */
  function OpenSegments(c: Crypto, key: Bytes, stream: Bytes, size: nat, remaining: nat): Option<Bytes>
    requires 0 < size
    decreases remaining
  {
    if remaining == 0 then
      if stream == [] then Some([]) else None
    else
      var n := Min(size, remaining);
      if |stream| < n + GCM_ENVELOPE_BYTES then None
      else
        var plain :- Decrypt(c, key, stream[..n + GCM_ENVELOPE_BYTES]);
        if |plain| != n then None
        else
          var rest :- OpenSegments(c, key, stream[n + GCM_ENVELOPE_BYTES..], size, remaining - n);
          Some(plain + rest)
  }

  function DecryptPayload(c: Crypto, key: Bytes, stream: Bytes, code: nat, padded: nat): Option<Bytes>
    requires IsSupported(code)
  {
    if IsWholeFile(code) then
      var plain :- Decrypt(c, key, stream);
      if |plain| != padded then None else Some(plain)
    else OpenSegments(c, key, stream, SegmentPlaintextBytes(code), padded)
  }

  function Prepend(front: Bytes, rest: Option<Bytes>): Option<Bytes> {
    match rest
    case None => None
    case Some(r) => Some(front + r)
  }

  lemma PrependNothing(rest: Option<Bytes>)
    ensures Prepend([], rest) == rest
  {
    if rest.Some? {
      assert [] + rest.value == rest.value;
    }
  }

  lemma PrependAssoc(a: Bytes, b: Bytes, rest: Option<Bytes>)
    ensures Prepend(a, Prepend(b, rest)) == Prepend(a + b, rest)
  {
    if rest.Some? {
      assert a + (b + rest.value) == (a + b) + rest.value;
    }
  }

  // One round of `OpenSegments`, seen at an offset of the whole stream.
  lemma OpenAt(c: Crypto, key: Bytes, stream: Bytes, offset: nat, size: nat, remaining: nat)
    requires 0 < size && 0 < remaining && offset <= |stream|
    ensures var n := Min(size, remaining);
            var rest := OpenSegments(c, key, stream[offset..], size, remaining);
            if |stream| < offset + n + GCM_ENVELOPE_BYTES then rest == None
            else
              var end := offset + n + GCM_ENVELOPE_BYTES;
              var plain := Decrypt(c, key, stream[offset..end]);
              if plain.None? || |plain.value| != n then rest == None
              else rest == Prepend(plain.value, OpenSegments(c, key, stream[end..], size, remaining - n))
  {
    var n := Min(size, remaining);
    if offset + n + GCM_ENVELOPE_BYTES <= |stream| {
      assert stream[offset..][..n + GCM_ENVELOPE_BYTES] == stream[offset..offset + n + GCM_ENVELOPE_BYTES];
      assert stream[offset..][n + GCM_ENVELOPE_BYTES..] == stream[offset + n + GCM_ENVELOPE_BYTES..];
    }
  }

  method DecryptPayloadV21Segmented(c: Crypto, key: Bytes, stream: Bytes, code: nat, padded: nat)
    returns (r: Option<Bytes>)
    requires IsSegmented(code)
    ensures r == DecryptPayload(c, key, stream, code, padded)
  {
    var size := SegmentPlaintextBytes(code);
    var plaintext: Bytes := [];
    var offset := 0;
    var remaining := padded;
    ghost var target := OpenSegments(c, key, stream, size, padded);
    assert stream[0..] == stream;
    PrependNothing(target);
    while remaining > 0
      invariant 0 <= offset <= |stream| && 0 <= remaining
      invariant target == Prepend(plaintext, OpenSegments(c, key, stream[offset..], size, remaining))
    {
      var n := Min(size, remaining);
      var packLength := n + GCM_ENVELOPE_BYTES;
      OpenAt(c, key, stream, offset, size, remaining);
      if offset >= |stream| || offset + packLength > |stream| {
        return None;
      }
      var plain := Decrypt(c, key, stream[offset..offset + packLength]);
      if plain.None? || |plain.value| != n {
        return None;
      }
      PrependAssoc(plaintext, plain.value,
                   OpenSegments(c, key, stream[offset + packLength..], size, remaining - n));
      plaintext := plaintext + plain.value;
      offset := offset + packLength;
      remaining := remaining - n;
    }
    assert plaintext + [] == plaintext;
    r := if offset != |stream| then None else Some(plaintext);
  }

  /**
   `packs` are complete records, front first, that open to `plains` when `total` plaintext
   bytes are still expected.
   */
  ghost predicate Opened(c: Crypto, key: Bytes, packs: seq<Bytes>, plains: seq<Bytes>, size: nat, total: nat)
    decreases |packs|
  {
    if packs == [] then plains == []
    else
      && plains != []
      && 0 < |plains[0]| == Min(size, total)
      && |packs[0]| == |plains[0]| + GCM_ENVELOPE_BYTES
      && Decrypt(c, key, packs[0]) == Some(plains[0])
      && Opened(c, key, packs[1..], plains[1..], size, total - |plains[0]|)
  }

  lemma OpenStep(c: Crypto, key: Bytes, x: Bytes, p: Bytes, tail: Bytes, size: nat, total: nat)
    requires 0 < |p| == Min(size, total)
    requires |x| == |p| + GCM_ENVELOPE_BYTES && Decrypt(c, key, x) == Some(p)
    ensures OpenSegments(c, key, x + tail, size, total)
         == Prepend(p, OpenSegments(c, key, tail, size, total - |p|))
  {
    assert (x + tail)[..|x|] == x && (x + tail)[|x|..] == tail;
  }

  // Whatever follows the opened records is decoded as if it stood alone.
  lemma {:induction false} OpenAfter(c: Crypto, key: Bytes, packs: seq<Bytes>, plains: seq<Bytes>,
                                     size: nat, total: nat, tail: Bytes)
    requires 0 < size && Opened(c, key, packs, plains, size, total)
    ensures |Flatten(plains)| <= total
    ensures OpenSegments(c, key, Flatten(packs) + tail, size, total)
         == Prepend(Flatten(plains), OpenSegments(c, key, tail, size, total - |Flatten(plains)|))
    decreases |packs|
  {
    hide OpenSegments;
    if packs == [] {
      assert Flatten(packs) + tail == tail;
      PrependNothing(OpenSegments(c, key, tail, size, total));
    } else {
      var x, p, xs, ps := packs[0], plains[0], packs[1..], plains[1..];
      var fx, fp := Flatten(xs), Flatten(ps);
      assert Flatten(packs) == x + fx by {
        assert packs == [x] + xs;
        FlattenCons(x, xs);
      }
      assert Flatten(plains) == p + fp by {
        assert plains == [p] + ps;
        FlattenCons(p, ps);
      }
      assert 0 < |p| == Min(size, total);
      OpenAfter(c, key, xs, ps, size, total - |p|, tail);
      OpenAfterCons(c, key, x, p, fx, fp, size, total, tail);
    }
  }

  lemma OpenAfterCons(c: Crypto, key: Bytes, x: Bytes, p: Bytes, xs: Bytes, ps: Bytes,
                      size: nat, total: nat, tail: Bytes)
    requires 0 < |p| == Min(size, total)
    requires |x| == |p| + GCM_ENVELOPE_BYTES && Decrypt(c, key, x) == Some(p)
    requires |p| + |ps| <= total
    requires OpenSegments(c, key, xs + tail, size, total - |p|)
          == Prepend(ps, OpenSegments(c, key, tail, size, total - |p| - |ps|))
    ensures OpenSegments(c, key, x + xs + tail, size, total)
         == Prepend(p + ps, OpenSegments(c, key, tail, size, total - |p + ps|))
  {
    assert x + xs + tail == x + (xs + tail);
    OpenStep(c, key, x, p, xs + tail, size, total);
    PrependAssoc(p, ps, OpenSegments(c, key, tail, size, total - |p + ps|));
  }

  lemma {:induction false} OpenedSnoc(c: Crypto, key: Bytes, packs: seq<Bytes>, plains: seq<Bytes>,
                                      size: nat, total: nat, x: Bytes, p: Bytes)
    requires Opened(c, key, packs, plains, size, total)
    requires |Flatten(plains)| <= total
    requires 0 < |p| == Min(size, total - |Flatten(plains)|)
    requires |x| == |p| + GCM_ENVELOPE_BYTES && Decrypt(c, key, x) == Some(p)
    ensures Opened(c, key, packs + [x], plains + [p], size, total)
    decreases |packs|
  {
    if packs == [] {
      assert packs + [x] == [x] && plains + [p] == [p];
    } else {
      assert plains == [plains[0]] + plains[1..];
      FlattenCons(plains[0], plains[1..]);
      OpenedSnoc(c, key, packs[1..], plains[1..], size, total - |plains[0]|, x, p);
      assert (packs + [x])[1..] == packs[1..] + [x];
      assert (plains + [p])[1..] == plains[1..] + [p];
    }
  }

  lemma {:induction false} OpenedLength(c: Crypto, key: Bytes, packs: seq<Bytes>, plains: seq<Bytes>,
                                        size: nat, total: nat)
    requires 0 < size && Opened(c, key, packs, plains, size, total) && |Flatten(plains)| <= total
    ensures |Flatten(packs)| + CeilDiv(total - |Flatten(plains)|, size) * GCM_ENVELOPE_BYTES
         == |Flatten(plains)| + CeilDiv(total, size) * GCM_ENVELOPE_BYTES
    decreases |packs|
  {
    if packs != [] {
      assert packs == [packs[0]] + packs[1..] && plains == [plains[0]] + plains[1..];
      FlattenCons(packs[0], packs[1..]);
      FlattenCons(plains[0], plains[1..]);
      OpenedLength(c, key, packs[1..], plains[1..], size, total - |plains[0]|);
      if total <= size {
        CeilDivUnique(total, size, 1);
        CeilDivUnique(0, size, 0);
      } else {
        CeilDivStep(total, size);
      }
    }
  }

  lemma SealCons(c: Crypto, key: Bytes, tape: Tape, pos: nat, x: Bytes, rest: seq<Bytes>)
    requires |key| == KEY_BYTES
    ensures SealSegments(c, key, tape, pos, [x] + rest)
         == [Encrypt(c, key, Draw(tape, pos, GCM_NONCE_BYTES), x)]
            + SealSegments(c, key, tape, pos + GCM_NONCE_BYTES, rest)
  {
    hide SealSegments;
    hide Draw;
    hide Encrypt;
    var left := SealSegments(c, key, tape, pos, [x] + rest);
    var right := SealSegments(c, key, tape, pos + GCM_NONCE_BYTES, rest);
    SealedCount(c, key, tape, pos + GCM_NONCE_BYTES, rest);
    SealedAt(c, key, tape, pos, [x] + rest, 0);
    forall i: nat | i < |rest|
      ensures left[i + 1] == right[i]
    {
      SealedAt(c, key, tape, pos, [x] + rest, i + 1);
      SealedAt(c, key, tape, pos + GCM_NONCE_BYTES, rest, i);
      NoncePlace(pos, i);
    }
    assert left == [left[0]] + right;
  }

  lemma SealedCount(c: Crypto, key: Bytes, tape: Tape, pos: nat, segments: seq<Bytes>)
    requires |key| == KEY_BYTES
    ensures |SealSegments(c, key, tape, pos, segments)| == |segments|
  {
  }

  lemma SealedAt(c: Crypto, key: Bytes, tape: Tape, pos: nat, segments: seq<Bytes>, i: nat)
    requires |key| == KEY_BYTES && i < |segments|
    ensures |SealSegments(c, key, tape, pos, segments)| == |segments|
    ensures SealSegments(c, key, tape, pos, segments)[i]
         == Encrypt(c, key, Draw(tape, pos + i * GCM_NONCE_BYTES, GCM_NONCE_BYTES), segments[i])
  {
    hide Draw;
    hide Encrypt;
  }

  lemma NoncePlace(pos: nat, i: nat)
    ensures pos + (i + 1) * GCM_NONCE_BYTES == pos + GCM_NONCE_BYTES + i * GCM_NONCE_BYTES
  {
  }

  lemma {:induction false} SealedIsOpened(c: Crypto, key: Bytes, tape: Tape, pos: nat, plains: seq<Bytes>,
                                          size: nat)
    requires Ideal(c) && |key| == KEY_BYTES && 0 < size && Chunked(plains, size)
    ensures Opened(c, key, SealSegments(c, key, tape, pos, plains), plains, size, |Flatten(plains)|)
    decreases |plains|
  {
    if plains != [] {
      var first, rest := plains[0], plains[1..];
      assert plains == [first] + rest;
      FlattenCons(first, rest);
      SealCons(c, key, tape, pos, first, rest);
      SealedIsOpened(c, key, tape, pos + GCM_NONCE_BYTES, rest, size);
      var packs := SealSegments(c, key, tape, pos, plains);
      assert packs[1..] == SealSegments(c, key, tape, pos + GCM_NONCE_BYTES, rest);
      if rest == [] {
        assert Flatten(rest) == [];
      } else {
        assert |first| == size;
      }
    }
  }

  /** Decrypting an encrypted payload gives the padded plaintext back, in both modes. */
  lemma PayloadRoundTrip(c: Crypto, key: Bytes, tape: Tape, pos: nat, padded: Bytes, code: nat)
    requires Ideal(c) && IsSupported(code) && |key| == KEY_BYTES
    ensures DecryptPayload(c, key, EncryptPayload(c, key, tape, pos, padded, code), code, |padded|)
         == Some(padded)
  {
    if IsWholeFile(code) {
      WholeFileRoundTrip(c, key, tape, pos, padded);
    } else {
      SegmentedRoundTrip(c, key, tape, pos, padded, SegmentPlaintextBytes(code));
    }
  }

  lemma WholeFileRoundTrip(c: Crypto, key: Bytes, tape: Tape, pos: nat, padded: Bytes)
    requires Ideal(c) && |key| == KEY_BYTES
    ensures Decrypt(c, key, Flatten(SealSegments(c, key, tape, pos, [padded]))) == Some(padded)
  {
    var pack := Encrypt(c, key, Draw(tape, pos, GCM_NONCE_BYTES), padded);
    assert SealSegments(c, key, tape, pos, [padded]) == [] + [pack];
    FlattenSnoc([], pack);
    assert Flatten([]) + pack == pack;
  }

  lemma SegmentedRoundTrip(c: Crypto, key: Bytes, tape: Tape, pos: nat, padded: Bytes, size: nat)
    requires Ideal(c) && |key| == KEY_BYTES && 0 < size
    ensures OpenSegments(c, key, Flatten(SealSegments(c, key, tape, pos, Chunk(padded, size))), size, |padded|)
         == Some(padded)
  {
    hide Flatten;
    hide SealSegments;
    hide Opened;
    hide Chunk;
    hide Ideal;
    var segments := Chunk(padded, size);
    var packs := SealSegments(c, key, tape, pos, segments);
    ChunkCovers(padded, size);
    SealedIsOpened(c, key, tape, pos, segments, size);
    OpenAfter(c, key, packs, segments, size, |padded|, []);
    assert OpenSegments(c, key, [], size, 0) == Some([]);
    assert Flatten(packs) + [] == Flatten(packs);
    assert padded + [] == padded;
    PrependSome(padded, []);
  }

  lemma PrependSome(front: Bytes, rest: Bytes)
    ensures Prepend(front, Some(rest)) == Some(front + rest)
  {
  }
}
