/**
 The cryptographic operations the codec is built from. They are values of function type, so
 every theorem holds for whatever implementation satisfies `Ideal`; SHA-256 is nowhere assumed
 to be injective. Random bytes come from one tape, read in call order.
 */
module Cryptography {
  import opened ByteStrings

  const CREDENTIAL_LENGTH: nat := 12
  const SEARCH_CODE_LENGTH: nat := 6
  const KEY_BYTES: nat := 32
  const HASH_BYTES: nat := 32
  const SALT_RAND_BYTES: nat := 16
  const GCM_NONCE_BYTES: nat := 12
  const GCM_TAG_BYTES: nat := 16
  const GCM_ENVELOPE_BYTES: nat := 28

  // The ASCII octets of "12C-v2-KEY-SALT".
  const SALT_FIX_KEY: Bytes := [49, 50, 67, 45, 118, 50, 45, 75, 69, 89, 45, 83, 65, 76, 84]

  datatype Crypto = Crypto(
    seal: (Bytes, Bytes, Bytes) -> Bytes,   // key, nonce, plaintext
    open: (Bytes, Bytes) -> Option<Bytes>,  // key, GCM record
    sha256: Bytes -> Bytes,
    slowKdf: (Bytes, Bytes) -> Bytes,       // key code, salt
    uploadToken: (Bytes, nat) -> Bytes)     // search code, index

  type Tape = nat -> Byte

  ghost predicate Ideal(c: Crypto) {
    && (forall k: Bytes, n: Bytes, p: Bytes :: |n| == GCM_NONCE_BYTES ==>
          |c.seal(k, n, p)| == |p| + GCM_ENVELOPE_BYTES && c.open(k, c.seal(k, n, p)) == Some(p))
    && (forall k: Bytes, x: Bytes :: c.open(k, x).Some? ==>
          |x| == |c.open(k, x).value| + GCM_ENVELOPE_BYTES)
    && (forall x: Bytes :: |c.sha256(x)| == HASH_BYTES)
    && (forall k: Bytes, s: Bytes :: |c.slowKdf(k, s)| == KEY_BYTES)
  }

  // For two digests in a row the first byte of the second one plus one, and 0 for every other input.
  function Mark(x: Bytes): Byte {
    if |x| != 2 * HASH_BYTES then 0
    else
      var byte: nat := x[HASH_BYTES];
      (byte + 1) % 256
  }

  /** An implementation that hides nothing; its hash keeps one byte. */
  function Transparent(): Crypto {
    Crypto(
      (k, n, p) => n + Zeros(GCM_TAG_BYTES) + p,
      (k, x) => if |x| < GCM_ENVELOPE_BYTES then None else Some(x[GCM_ENVELOPE_BYTES..]),
      x => [Mark(x)] + Zeros(HASH_BYTES - 1),
      (k, s) => Zeros(KEY_BYTES),
      (s, i) => Zeros(i))
  }

  // `Ideal` can be met, with distinct tokens.
  lemma TransparentIsIdeal()
    ensures Ideal(Transparent())
    ensures forall s: Bytes, i: nat, j: nat :: i != j ==>
              Transparent().uploadToken(s, i) != Transparent().uploadToken(s, j)
  {
    var c := Transparent();
    forall k: Bytes, n: Bytes, p: Bytes | |n| == GCM_NONCE_BYTES
      ensures c.open(k, c.seal(k, n, p)) == Some(p)
    {
      assert c.seal(k, n, p)[GCM_ENVELOPE_BYTES..] == p;
    }
    forall s: Bytes, i: nat, j: nat | i != j
      ensures c.uploadToken(s, i) != c.uploadToken(s, j)
    {
      assert |c.uploadToken(s, i)| == i && |c.uploadToken(s, j)| == j;
    }
  }

  lemma TransparentHash(x: Bytes)
    ensures |Transparent().sha256(x)| == HASH_BYTES && Transparent().sha256(x)[0] == Mark(x)
  {
  }

  function Draw(tape: Tape, pos: nat, length: nat): (r: Bytes)
    ensures |r| == length
  {
    seq(length, i requires 0 <= i => tape(pos + i))
  }

  function Encrypt(c: Crypto, key: Bytes, nonce: Bytes, plaintext: Bytes): Bytes
    requires |key| == KEY_BYTES && |nonce| == GCM_NONCE_BYTES
  {
    c.seal(key, nonce, plaintext)
  }

  function Decrypt(c: Crypto, key: Bytes, packed: Bytes): Option<Bytes> {
    if |key| != KEY_BYTES || |packed| < GCM_ENVELOPE_BYTES then None else c.open(key, packed)
  }

  datatype CredentialParts = CredentialParts(searchCode: Bytes, keyCode: Bytes)

  function SplitCredential(credential: Bytes): Option<CredentialParts> {
    if |credential| != CREDENTIAL_LENGTH then None
    else Some(CredentialParts(credential[..SEARCH_CODE_LENGTH], credential[SEARCH_CODE_LENGTH..]))
  }

  datatype EncryptedBlob = EncryptedBlob(nonce: Bytes, tag: Bytes, ciphertext: Bytes)

  function Pack(blob: EncryptedBlob): Bytes {
    blob.nonce + blob.tag + blob.ciphertext
  }

  function Unpack(packed: Bytes): Option<EncryptedBlob> {
    if |packed| < GCM_NONCE_BYTES + GCM_TAG_BYTES then None
    else Some(EncryptedBlob(
                packed[..GCM_NONCE_BYTES],
                packed[GCM_NONCE_BYTES..GCM_ENVELOPE_BYTES],
                packed[GCM_ENVELOPE_BYTES..]))
  }

  lemma UnpackPack(packed: Bytes)
    requires |packed| >= GCM_ENVELOPE_BYTES
    ensures Unpack(packed).Some? && Pack(Unpack(packed).value) == packed
  {
    var n, e := GCM_NONCE_BYTES, GCM_ENVELOPE_BYTES;
    assert packed == packed[..n] + packed[n..e] + packed[e..];
  }

  lemma PackUnpack(blob: EncryptedBlob)
    requires |blob.nonce| == GCM_NONCE_BYTES && |blob.tag| == GCM_TAG_BYTES
    ensures Unpack(Pack(blob)) == Some(blob)
  {
    var p := Pack(blob);
    assert p[..GCM_NONCE_BYTES] == blob.nonce;
    assert p[GCM_NONCE_BYTES..GCM_ENVELOPE_BYTES] == blob.tag;
    assert p[GCM_ENVELOPE_BYTES..] == blob.ciphertext;
  }
}
