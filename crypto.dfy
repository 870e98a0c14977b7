/**
 * Salt generation, salted password hashing and the encrypt-then-MAC blob of
 * securecrypto/crypto.go. The primitives (scrypt, AES-GCM, HMAC-SHA256) are
 * parameters whose lawfulness is stated, not implemented; base64 is the
 * concrete codec of module Base64.
 */
module SecureCrypto {
  import opened Wrappers
  import opened Errors
  import Base64
  import Text

  const KeyLen := 32      // AES-256 key, and scrypt output length
  const SaltLen := 16
  const NonceLen := 12
  const HmacLen := 32     // SHA-256 output size
  const TagLen := 16      // the tag gcm.Seal appends
  const ScryptN := 32768  // 1 << 15
  const ScryptR := 8
  const ScryptP := 1

  /** Sixteen bytes from the random source. */
  type SaltBytes = s: seq<byte> | |s| == SaltLen witness [0, 0, 0, 0, 0, 0, 0, 0, 0, 0, 0, 0, 0, 0, 0, 0]

  /** Twelve bytes from the random source. */
  type NonceBytes = s: seq<byte> | |s| == NonceLen witness [0, 0, 0, 0, 0, 0, 0, 0, 0, 0, 0, 0]

  /** The key lengths `aes.NewCipher` accepts (AES-128, AES-192, AES-256). */
  predicate ValidKey(key: seq<byte>) {
    |key| == 16 || |key| == 24 || |key| == 32
  }

  /**
   * The cryptographic engines the code calls: scrypt with N = 2^15, r = 8, p = 1
   * and 32 bytes of output; AES-GCM sealing and opening under a key and a nonce
   * (NIST SP 800-38D); HMAC-SHA256 (RFC 2104).
   */
  datatype Primitives = Primitives(
    scryptKey: (seq<byte>, seq<byte>) -> seq<byte>,
    gcmSeal: (seq<byte>, seq<byte>, seq<byte>) -> seq<byte>,
    gcmOpen: (seq<byte>, seq<byte>, seq<byte>) -> Option<seq<byte>>,
    hmacSha256: (seq<byte>, seq<byte>) -> seq<byte>)
  {
    /** What the model relies on: output lengths and that opening undoes sealing. */
    ghost predicate Lawful() {
      && (forall password, salt :: |scryptKey(password, salt)| == KeyLen)
      && (forall key, nonce, plain :: ValidKey(key) && |nonce| == NonceLen ==>
            |gcmSeal(key, nonce, plain)| == |plain| + TagLen)
      && (forall key, nonce, plain :: ValidKey(key) && |nonce| == NonceLen ==>
            gcmOpen(key, nonce, gcmSeal(key, nonce, plain)) == Some(plain))
      && (forall key, message :: |hmacSha256(key, message)| == HmacLen)
    }
  }

  /** `GenerateSalt`: sixteen random bytes as standard base64 text. */
  function GenerateSalt(random: Option<SaltBytes>): (r: Result<string, Error>)
    ensures random.None? <==> r == Err(Entropy)
    ensures random.Some? ==> r.Ok? && |r.value| == 24
    ensures random.Some? ==> forall i :: 0 <= i < |r.value| ==> Base64.IsEncodingChar(r.value[i])
    ensures random.Some? ==> ':' !in r.value
    ensures random.Some? ==> Base64.Decode(r.value) == Some(random.value)
  {
    match random
    case None => Err(Entropy)
    case Some(bytes) =>
      Base64.DecodeEncode(bytes);
      Base64.EncodeHasNoColon(bytes);
      Base64.EncodedLength(bytes, 6);
      Ok(Base64.Encode(bytes))
  }

  /**
   * `HashWithSalt`: decode the base64 salt, run scrypt over the password bytes,
   * return the 32-byte key as base64 text.
   */
  function HashWithSalt(prims: Primitives, password: string, salt: string): (r: Result<string, Error>)
    requires prims.Lawful()
    ensures Base64.Decode(salt).None? <==> r == Err(CorruptBase64)
    ensures r.Ok? ==> |r.value| == 44 && ':' !in r.value
    ensures r.Ok? ==> Base64.Decode(r.value) == Some(prims.scryptKey(Text.Bytes(password), Base64.Decode(salt).value))
  {
    match Base64.Decode(salt)
    case None => Err(CorruptBase64)
    case Some(saltBytes) =>
      var key := prims.scryptKey(Text.Bytes(password), saltBytes);
      Base64.DecodeEncode(key);
      Base64.EncodeHasNoColon(key);
      assert |key| == KeyLen;
      Base64.EncodedLength(key, 11);
      Ok(Base64.Encode(key))
  }

  /** A salt made by GenerateSalt always decodes, so hashing with it never fails. */
  lemma HashWithFreshSaltSucceeds(prims: Primitives, password: string, random: SaltBytes)
    requires prims.Lawful()
    ensures HashWithSalt(prims, password, GenerateSalt(Some(random)).value).Ok?
  {
  }

  /** `DeriveKey`: the scrypt output, which is an AES-256 key. */
  function DeriveKey(prims: Primitives, password: seq<byte>, salt: seq<byte>): (key: seq<byte>)
    requires prims.Lawful()
    ensures |key| == KeyLen && ValidKey(key)
  {
    prims.scryptKey(password, salt)
  }

  /**
   * `Encrypt`: `salt ‖ nonce ‖ gcm.Seal(plaintext) ‖ HMAC(key, salt ‖ nonce ‖ ciphertext)`.
   * `random` is what the random source gave for the nonce.
   */
  function Encrypt(prims: Primitives, plaintext: seq<byte>, key: seq<byte>, salt: seq<byte>,
                   random: Option<NonceBytes>): (r: Result<seq<byte>, Error>)
    requires prims.Lawful()
    ensures !ValidKey(key) ==> r == Err(KeySize)
    ensures ValidKey(key) && random.None? ==> r == Err(Entropy)
    ensures ValidKey(key) && random.Some? ==> r.Ok?
    ensures r.Ok? ==>
      var blob := r.value;
      && |blob| == |salt| + NonceLen + |plaintext| + TagLen + HmacLen
      && blob[..|salt|] == salt
      && blob[|salt|..|salt| + NonceLen] == random.value
      && blob[|salt| + NonceLen..|blob| - HmacLen] == prims.gcmSeal(key, random.value, plaintext)
      && blob[|blob| - HmacLen..] == prims.hmacSha256(key, blob[..|blob| - HmacLen])
  {
    if !ValidKey(key) then Err(KeySize)
    else match random
      case None => Err(Entropy)
      case Some(nonce) =>
        var ciphertext := prims.gcmSeal(key, nonce, plaintext);
        var mac := prims.hmacSha256(key, salt + nonce + ciphertext);
        var full := salt + (nonce + (ciphertext + mac));
        assert full[..|full| - HmacLen] == salt + nonce + ciphertext;
        Ok(full)
  }

  /**
   * `Decrypt`: reject blobs shorter than salt, nonce and MAC together; check the
   * MAC over everything before it; only then build the cipher and open.
   */
  function Decrypt(prims: Primitives, payload: seq<byte>, key: seq<byte>): (r: Result<seq<byte>, Error>)
    requires prims.Lawful()
    ensures |payload| < SaltLen + NonceLen + HmacLen ==> r == Err(Message("payload too short"))
    ensures |payload| >= SaltLen + NonceLen + HmacLen ==>
      var body, mac := payload[..|payload| - HmacLen], payload[|payload| - HmacLen..];
      && (prims.hmacSha256(key, body) != mac ==> r == Err(Message("HMAC mismatch: tampered or wrong password")))
      && (prims.hmacSha256(key, body) == mac && !ValidKey(key) ==> r == Err(KeySize))
      && (prims.hmacSha256(key, body) == mac && ValidKey(key) ==>
            var unsealed := prims.gcmOpen(key, payload[SaltLen..SaltLen + NonceLen], body[SaltLen + NonceLen..]);
            && (unsealed.None? ==> r == Err(Message("decryption failed or integrity check failed")))
            && (unsealed.Some? ==> r == Ok(unsealed.value)))
  {
    if |payload| < SaltLen + NonceLen + HmacLen then Err(Message("payload too short"))
    else
      var salt := payload[..SaltLen];
      var nonce := payload[SaltLen..SaltLen + NonceLen];
      var macStart := |payload| - HmacLen;
      var ciphertext := payload[SaltLen + NonceLen..macStart];
      var expectedMac := payload[macStart..];
      assert salt + nonce + ciphertext == payload[..macStart];
      var actualMac := prims.hmacSha256(key, salt + nonce + ciphertext);
      if actualMac != expectedMac then Err(Message("HMAC mismatch: tampered or wrong password"))
      else if !ValidKey(key) then Err(KeySize)
      else match prims.gcmOpen(key, nonce, ciphertext)
        case None => Err(Message("decryption failed or integrity check failed"))
        case Some(plain) => Ok(plain)
  }

  /** With a sixteen-byte salt and a valid key, decryption undoes encryption. */
  lemma DecryptEncrypt(prims: Primitives, plaintext: seq<byte>, key: seq<byte>, salt: SaltBytes, nonce: NonceBytes)
    requires prims.Lawful() && ValidKey(key)
    ensures Decrypt(prims, Encrypt(prims, plaintext, key, salt, Some(nonce)).value, key) == Ok(plaintext)
  {
    var blob := Encrypt(prims, plaintext, key, salt, Some(nonce)).value;
    var body := blob[..|blob| - HmacLen];
    assert blob[SaltLen..SaltLen + NonceLen] == nonce;
    assert body[SaltLen + NonceLen..] == blob[SaltLen + NonceLen..|blob| - HmacLen];
  }

  /**
   * Whatever the salt length, the MAC of an encrypted blob checks out: the MAC
   * covers the same bytes however they are split.
   */
  lemma EncryptedMacVerifies(prims: Primitives, plaintext: seq<byte>, key: seq<byte>, salt: seq<byte>, nonce: NonceBytes)
    requires prims.Lawful() && ValidKey(key)
    requires |salt| + NonceLen + |plaintext| + TagLen + HmacLen >= SaltLen + NonceLen + HmacLen
    ensures Decrypt(prims, Encrypt(prims, plaintext, key, salt, Some(nonce)).value, key)
            != Err(Message("HMAC mismatch: tampered or wrong password"))
  {
    var blob := Encrypt(prims, plaintext, key, salt, Some(nonce)).value;
    assert |blob| >= SaltLen + NonceLen + HmacLen;
  }
}
