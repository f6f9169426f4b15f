/** Chunk-level password-based authenticated encryption
    (encryption/encryption.go).

    An encrypted chunk is the self-describing blob
        salt (16 bytes) ++ nonce (NonceSize bytes) ++ Seal(key, nonce, plaintext)
    where key is derived from the password and the salt with PBKDF2
    (HMAC-SHA-256, 2048 iterations, 32-byte key; RFC 8018 section 5.2) and
    Seal/Open are AES-GCM (NIST SP 800-38D). The primitives are not modelled:
    they are the fields of a `Cipher` value that every operation receives. */
module Encryption {
  import opened Common

  const SaltSize: nat := 16
  /** The nonce size of Go's `cipher.NewGCM` (`NonceSize()`). */
  const NonceSize: nat := 12
  /** The tag size of Go's `cipher.NewGCM` (`Overhead()`). */
  const TagSize: nat := 16
  const Iterations: nat := 2048
  const KeyLength: nat := 32
  /** How many bytes encryption adds to a chunk. */
  const Overhead: nat := SaltSize + NonceSize + TagSize

  datatype Prf = HmacSha256

  /** The arguments of one `pbkdf2.Key` call. */
  datatype KdfParams = KdfParams(
    password: string,
    salt: Bytes,
    iterations: nat,
    keyLength: nat,
    prf: Prf)

  /** The foreign primitives. `newAead(key)` tells whether `aes.NewCipher(key)`
      followed by `cipher.NewGCM` succeeds; `seal` and `open` take the key,
      the nonce and the input. */
  datatype Cipher = Cipher(
    deriveKey: KdfParams -> Bytes,
    newAead: Bytes -> bool,
    seal: (Bytes, Bytes, Bytes) -> Bytes,
    open: (Bytes, Bytes, Bytes) -> Option<Bytes>)

  /** What AES-GCM guarantees and this model relies on: opening a sealed
      message with the same key and nonce gives the message back, and
      sealing adds exactly one tag. */
  ghost predicate Sound(c: Cipher)
  {
    forall key, nonce, plaintext ::
      c.open(key, nonce, c.seal(key, nonce, plaintext)) == Some(plaintext) &&
      |c.seal(key, nonce, plaintext)| == |plaintext| + TagSize
  }

  datatype CryptoError = CipherSetupFailed | AuthenticationFailed

  /** Both directions derive the key the same way: from the password and the
      salt, with 2048 iterations of HMAC-SHA-256 and a 32-byte output. */
  function DeriveKey(c: Cipher, password: string, salt: Bytes): (key: Bytes)
  {
    c.deriveKey(KdfParams(password, salt, Iterations, KeyLength, HmacSha256))
  }

  /** The smallest input `Decrypt` can split: a salt and a nonce. */
  const MinBlob: nat := SaltSize + NonceSize

  /** `Encrypt`: `random` is what `crypto/rand` delivers. `io.ReadFull` takes
      the 16 salt bytes first and, once the cipher is built, the nonce bytes;
      either read fails when the source runs dry, and a failure at any step
      means nothing is sent (`None`). On success the result is the chunk that
      goes out on the channel. */
  function Encrypt(data: FileData, c: Cipher, random: Bytes): (r: Option<FileData>)
    ensures r.Some? <==>
      |random| >= SaltSize + NonceSize &&
      c.newAead(DeriveKey(c, data.password, random[..SaltSize]))
    ensures r.Some? ==>
      var blob := r.value.bytes;
      |blob| >= MinBlob &&
      blob[..SaltSize] == random[..SaltSize] &&
      blob[SaltSize..MinBlob] == random[SaltSize..MinBlob] &&
      blob[MinBlob..] == c.seal(DeriveKey(c, data.password, random[..SaltSize]),
                                random[SaltSize..MinBlob], data.bytes)
    ensures r.Some? ==>
      r.value.filename == data.filename && r.value.fileUuid == data.fileUuid &&
      r.value.counter == data.counter && r.value.isLastChunk == data.isLastChunk &&
      r.value.password == ""
    ensures r.Some? && Sound(c) ==> |r.value.bytes| == |data.bytes| + Overhead
  {
    if |random| < SaltSize then None
    else
      var salt := random[..SaltSize];
      var key := DeriveKey(c, data.password, salt);
      if !c.newAead(key) then None
      else if |random| < SaltSize + NonceSize then None
      else
        var nonce := random[SaltSize..SaltSize + NonceSize];
        var ciphertext := salt + (nonce + c.seal(key, nonce, data.bytes));
        Some(FileData(data.filename, "", data.fileUuid, ciphertext, data.counter, data.isLastChunk))
  }

  /** `Decrypt` splits the blob at 16 and 16 + NonceSize, re-derives the key
      from the embedded salt and opens the rest. It never returns partial
      plaintext: any failure is an error and nothing else. The source slices
      without checking the length, so blobs shorter than a salt and a nonce
      are outside its domain. */
  function Decrypt(blob: Bytes, password: string, c: Cipher): (r: Result<Bytes, CryptoError>)
    requires |blob| >= MinBlob
    ensures r.Failure? <==>
      !c.newAead(DeriveKey(c, password, blob[..SaltSize])) ||
      c.open(DeriveKey(c, password, blob[..SaltSize]), blob[SaltSize..MinBlob], blob[MinBlob..]).None?
    ensures r.Failure? && c.newAead(DeriveKey(c, password, blob[..SaltSize])) ==>
      r.error == AuthenticationFailed
    ensures r.Success? ==>
      r.value == c.open(DeriveKey(c, password, blob[..SaltSize]), blob[SaltSize..MinBlob], blob[MinBlob..]).value
  {
    var key := DeriveKey(c, password, blob[..SaltSize]);
    if !c.newAead(key) then Failure(CipherSetupFailed)
    else
      var nonce, ciphertext := blob[SaltSize..SaltSize + NonceSize], blob[SaltSize + NonceSize..];
      match c.open(key, nonce, ciphertext)
      case None => Failure(AuthenticationFailed)
      case Some(plaintext) => Success(plaintext)
  }

  /** Decrypting what `Encrypt` produced, with the same password, gives back
      the plaintext: the layout is split where it was joined, so the same key
      is re-derived from the embedded salt and the sealed part is opened with
      the embedded nonce. */
  lemma RoundTrip(data: FileData, c: Cipher, random: Bytes)
    requires Sound(c)
    requires Encrypt(data, c, random).Some?
    ensures |Encrypt(data, c, random).value.bytes| >= MinBlob
    ensures Decrypt(Encrypt(data, c, random).value.bytes, data.password, c) == Success(data.bytes)
  {
    var blob := Encrypt(data, c, random).value.bytes;
    var key := DeriveKey(c, data.password, random[..SaltSize]);
    assert DeriveKey(c, data.password, blob[..SaltSize]) == key;
    assert c.open(key, random[SaltSize..MinBlob], c.seal(key, random[SaltSize..MinBlob], data.bytes)) == Some(data.bytes);
  }
}
