/** The symmetric-envelope helpers of the onion-routing node (src/crypto.ts):
    the base64/ArrayBuffer conversions, the export and import of AES keys as
    base64 text, and `symEncrypt`/`symDecrypt`, which frame a message as
    `base64(IV || AES-256-CBC(key, IV, UTF-8(message)))`.

    Every helper takes the library codecs as a `Codecs` value; randomness
    (`crypto.randomBytes`) and the placement of buffers in Node's pool are
    parameters too, so each helper is a function of its arguments. */
module Crypto {
  import opened Wrappers
  import opened Runtime

  /** A Node `KeyObject` of type "secret": all it holds is its raw bytes. */
  datatype SecretKey = SecretKey(raw: Bytes)

  /** The exceptions the symmetric helpers can raise. */
  datatype CryptoError =
    | InvalidIv         // createDecipheriv: the IV is not 16 bytes long
    | InvalidKeyLength  // createCipheriv/createDecipheriv: the key is not 32 bytes long
    | InvalidArgType    // Decipheriv#update: the data is neither a string nor an ArrayBufferView
    | BadDecrypt        // Decipheriv#final: wrong final block length or bad padding

  /** `arrayBufferToBase64`: the base64 text of the buffer's bytes. */
  function ArrayBufferToBase64(c: Codecs, buffer: Bytes): (r: string)
    ensures c.base64.RoundTrips() ==> c.base64.decode(r) == buffer
  {
    c.base64.encode(buffer)
  }

  /** `base64ToArrayBuffer`: decode into a pooled `Buffer`, then copy out exactly
      the `byteLength` bytes at `byteOffset` of its backing `ArrayBuffer`. Whatever
      else the pool holds, the result is the decoded bytes and nothing more. */
  function Base64ToArrayBuffer(c: Codecs, base64: string, alloc: Allocation): (r: Bytes)
    ensures r == c.base64.decode(base64)
  {
    var buff := BufferFromBase64(c.base64, base64, alloc);
    Slice(buff.buffer, buff.byteOffset, buff.byteOffset + buff.byteLength)
  }

  /** `exportPrvKey`: no key (JavaScript `null`) exports as `null`; a key exports
      as its PKCS#8 PEM text, which `pkcs8Pem` stands for. */
  function ExportPrvKey<Key>(key: Option<Key>, pkcs8Pem: Key -> string): (r: Option<string>)
    ensures r.None? <==> key.None?
    ensures key.Some? ==> r == Some(pkcs8Pem(key.value))
  {
    match key
    case None => None
    case Some(k) => Some(pkcs8Pem(k))
  }

  /** `createRandomSymmetricKey`: a secret key over the 32 bytes that
      `crypto.randomBytes(32)` drew, passed in as `entropy`. */
  function CreateRandomSymmetricKey(entropy: Bytes): (key: SecretKey)
    requires |entropy| == Aes256KeySize
    ensures |key.raw| == Aes256KeySize && key.raw == entropy
  {
    SecretKey(entropy)
  }

  /** `exportSymKey`: the base64 text of the key's raw bytes. */
  function ExportSymKey(c: Codecs, key: SecretKey): (r: string)
    ensures c.base64.RoundTrips() ==> c.base64.decode(r) == key.raw
  {
    ArrayBufferToBase64(c, key.raw)
  }

  /** `importSymKey`: a secret key over the base64-decoded bytes, of any length. */
  function ImportSymKey(c: Codecs, strKey: string): SecretKey
  {
    SecretKey(c.base64.decode(strKey))
  }

  /** What `createCipheriv("aes-256-cbc", key, iv)` and `createDecipheriv` throw:
      an IV that is not one block long is rejected first, then a key that is not
      32 bytes long; `None` when both are accepted. */
  function CipherInitError(key: SecretKey, iv: Bytes): (r: Option<CryptoError>)
    ensures r.None? <==> |iv| == BlockSize && |key.raw| == Aes256KeySize
    ensures |iv| != BlockSize ==> r == Some(InvalidIv)
    ensures |iv| == BlockSize && |key.raw| != Aes256KeySize ==> r == Some(InvalidKeyLength)
  {
    if |iv| != BlockSize then Some(InvalidIv)
    else if |key.raw| != Aes256KeySize then Some(InvalidKeyLength)
    else None
  }

  /** `symEncrypt` with the IV that `crypto.randomBytes(16)` drew passed in as `iv`:
      encrypt the UTF-8 bytes of `data` and return the base64 text of the IV
      followed by the ciphertext. Only a key that is not 32 bytes long fails.
      Decoded, the output is the IV and then exactly the ciphertext. */
  function SymEncrypt(c: Codecs, key: SecretKey, data: string, iv: Bytes): (r: Result<string, CryptoError>)
    requires |iv| == BlockSize
    ensures r.Success? <==> |key.raw| == Aes256KeySize
    ensures r.Failure? ==> r.error == InvalidKeyLength
    ensures c.base64.RoundTrips() && r.Success? ==>
              var framed := c.base64.decode(r.value);
              var ct := c.aes.encrypt(key.raw, iv, c.utf8.encode(data));
              |framed| == BlockSize + |ct| && framed[..BlockSize] == iv && framed[BlockSize..] == ct
  {
    match CipherInitError(key, iv)
    case Some(e) => Failure(e)
    case None =>
      var dataUint8 := c.utf8.encode(data);
      var encryptedData := c.aes.encrypt(key.raw, iv, dataUint8);
      var combinedData := iv + encryptedData;
      Success(c.base64.encode(combinedData))
  }

  /** The framing step of `symDecrypt`: `slice(0, 16)` is the IV and `slice(16)`
      the ciphertext. A buffer of at least one block splits into a 16-byte IV and
      the rest, which together give the buffer back; a shorter buffer is all IV. */
  function SplitIv(buf: Bytes): (r: (Bytes, Bytes))
    ensures |buf| >= BlockSize ==> |r.0| == BlockSize && r.0 + r.1 == buf
    ensures |buf| < BlockSize ==> r.0 == buf && r.1 == []
  {
    (Slice(buf, 0, BlockSize), Slice(buf, BlockSize, |buf|))
  }

  /** `decipher.update(data)` followed by `decipher.final()` on a decipher that
      `createDecipheriv` accepted. `update` takes only a string or an
      `ArrayBufferView`: a bare `ArrayBuffer` is rejected before any decryption.
      A view is decrypted, and `final` fails exactly when the cipher rejects the
      ciphertext. */
  function Decipher(c: Codecs, key: SecretKey, iv: Bytes, data: BinaryData): (r: Result<Bytes, CryptoError>)
    ensures data.ArrayBuffer? ==> r == Failure(InvalidArgType)
    ensures data.View? ==>
              match c.aes.decrypt(key.raw, iv, data.bytes)
              case None => r == Failure(BadDecrypt)
              case Some(p) => r == Success(p)
  {
    match data
    case ArrayBuffer(_) => Failure(InvalidArgType)
    case View(bytes) =>
      match c.aes.decrypt(key.raw, iv, bytes)
      case None => Failure(BadDecrypt)
      case Some(p) => Success(p)
  }

  /** `symDecrypt` as written: rebuild the key from its base64 text as `importSymKey`
      does, base64-decode the input to an `ArrayBuffer`, slice off the IV and hand
      the remaining `ArrayBuffer` to `decipher.update`. It fails with `InvalidIv`
      when the decoded input is shorter than a block, then with `InvalidKeyLength`
      when the key is not 32 bytes, and otherwise always with `InvalidArgType`,
      because the ciphertext reaches `update` as a bare `ArrayBuffer`. */
  function SymDecrypt(c: Codecs, strKey: string, encryptedData: string, alloc: Allocation)
    : (r: Result<string, CryptoError>)
    ensures var buf, raw := c.base64.decode(encryptedData), c.base64.decode(strKey);
            && (|buf| < BlockSize ==> r == Failure(InvalidIv))
            && (|buf| >= BlockSize && |raw| != Aes256KeySize ==> r == Failure(InvalidKeyLength))
            && (|buf| >= BlockSize && |raw| == Aes256KeySize ==> r == Failure(InvalidArgType))
  {
    var key := ImportSymKey(c, strKey);
    var encryptedDataBuffer := Base64ToArrayBuffer(c, encryptedData, alloc);
    var (iv, data) := SplitIv(encryptedDataBuffer);
    match CipherInitError(key, iv)
    case Some(e) => Failure(e)
    case None =>
      match Decipher(c, key, iv, ArrayBuffer(data))
      case Failure(e) => Failure(e)
      case Success(decryptedData) => Success(c.utf8.decode(decryptedData))
  }

  /** `symDecrypt` as evidently intended: the same steps, but the ciphertext is
      handed to `decipher.update` as a view over the sliced bytes
      (`Buffer.from(data)`). It fails with `InvalidIv` when the decoded input is
      shorter than a block, then with `InvalidKeyLength` when the key is not 32
      bytes, then with `BadDecrypt` when the cipher rejects the bytes after the IV;
      otherwise the result is the UTF-8 decoding of the plaintext. Where Node
      placed the decoded buffer makes no difference. */
  function SymDecryptFixed(c: Codecs, strKey: string, encryptedData: string, alloc: Allocation)
    : (r: Result<string, CryptoError>)
    ensures var buf, raw := c.base64.decode(encryptedData), c.base64.decode(strKey);
            && (|buf| < BlockSize ==> r == Failure(InvalidIv))
            && (|buf| >= BlockSize && |raw| != Aes256KeySize ==> r == Failure(InvalidKeyLength))
            && (|buf| >= BlockSize && |raw| == Aes256KeySize ==>
                  match c.aes.decrypt(raw, buf[..BlockSize], buf[BlockSize..])
                  case None => r == Failure(BadDecrypt)
                  case Some(p) => r == Success(c.utf8.decode(p)))
  {
    var key := ImportSymKey(c, strKey);
    var encryptedDataBuffer := Base64ToArrayBuffer(c, encryptedData, alloc);
    var (iv, data) := SplitIv(encryptedDataBuffer);
    match CipherInitError(key, iv)
    case Some(e) => Failure(e)
    case None =>
      match Decipher(c, key, iv, View(data))
      case Failure(e) => Failure(e)
      case Success(decryptedData) => Success(c.utf8.decode(decryptedData))
  }

  // ---------------------------------------------------------------------------
  // Round trips and framing

  /** `base64ToArrayBuffer` undoes `arrayBufferToBase64`, wherever the pool puts the bytes. */
  lemma Base64RoundTrip(c: Codecs, b: Bytes, alloc: Allocation)
    requires c.base64.RoundTrips()
    ensures Base64ToArrayBuffer(c, ArrayBufferToBase64(c, b), alloc) == b
  {
  }

  /** `symDecrypt`'s split undoes `symEncrypt`'s framing: IV first, ciphertext after. */
  lemma SplitInvertsFraming(iv: Bytes, ct: Bytes)
    requires |iv| == BlockSize
    ensures SplitIv(iv + ct) == (iv, ct)
  {
  }

  /** Importing an exported key gives back the same raw bytes. */
  lemma SymKeyRoundTrip(c: Codecs, key: SecretKey)
    requires c.base64.RoundTrips()
    ensures ImportSymKey(c, ExportSymKey(c, key)) == key
  {
  }

  /** With a 32-byte key and the PKCS#7 length law, the decoded output of
      `symEncrypt` is the IV plus the padded message: a whole number of blocks,
      at least two. */
  lemma SymEncryptLength(c: Codecs, key: SecretKey, data: string, iv: Bytes)
    requires c.base64.RoundTrips() && c.aes.PadsToBlocks()
    requires |iv| == BlockSize && |key.raw| == Aes256KeySize
    ensures SymEncrypt(c, key, data, iv).Success?
    ensures |c.base64.decode(SymEncrypt(c, key, data, iv).value)|
              == BlockSize * (|c.utf8.encode(data)| / BlockSize + 2)
  {
  }

  /** Two encryptions of the same message under the same key with different IVs
      never give the same text: the fresh IV alone makes envelopes distinct. */
  lemma SymEncryptDistinctIvs(c: Codecs, key: SecretKey, data: string, iv1: Bytes, iv2: Bytes)
    requires c.base64.RoundTrips()
    requires |iv1| == BlockSize && |iv2| == BlockSize && iv1 != iv2
    requires |key.raw| == Aes256KeySize
    ensures SymEncrypt(c, key, data, iv1) != SymEncrypt(c, key, data, iv2)
  {
  }

  /** `symDecrypt` as written never returns a message: every input fails with one
      of the three errors. */
  lemma SymDecryptNeverSucceeds(c: Codecs, strKey: string, encryptedData: string, alloc: Allocation)
    ensures SymDecrypt(c, strKey, encryptedData, alloc).Failure?
  {
  }

  /** `symDecrypt` as written rejects what `symEncrypt` produced under the very key
      it was given: the round trip fails with `InvalidArgType`. */
  lemma SymDecryptRejectsOwnCiphertext(c: Codecs, key: SecretKey, message: string, iv: Bytes, alloc: Allocation)
    requires c.base64.RoundTrips()
    requires |iv| == BlockSize && |key.raw| == Aes256KeySize
    ensures SymEncrypt(c, key, message, iv).Success?
    ensures SymDecrypt(c, ExportSymKey(c, key), SymEncrypt(c, key, message, iv).value, alloc)
              == Failure(InvalidArgType)
  {
  }

  /** The message round trip of the corrected decryption: decrypting, with the
      exported key, what `symEncrypt` produced gives the message back, whatever the
      IV and the buffer placement, less the leading byte order mark, if any, that
      `TextDecoder` drops. */
  lemma MessageRoundTrip(c: Codecs, key: SecretKey, message: string, iv: Bytes, alloc: Allocation)
    requires c.Lawful()
    requires |iv| == BlockSize && |key.raw| == Aes256KeySize
    ensures SymEncrypt(c, key, message, iv).Success?
    ensures SymDecryptFixed(c, ExportSymKey(c, key), SymEncrypt(c, key, message, iv).value, alloc)
              == Success(StripBom(message))
  {
  }

  /** A message that does not start with a byte order mark comes back unchanged,
      and one that does comes back without it. */
  lemma MessageRoundTripExact(c: Codecs, key: SecretKey, message: string, iv: Bytes, alloc: Allocation)
    requires c.Lawful()
    requires |iv| == BlockSize && |key.raw| == Aes256KeySize
    ensures var back := SymDecryptFixed(c, ExportSymKey(c, key), SymEncrypt(c, key, message, iv).value, alloc);
            && (back == Success(message) <==> (message == [] || message[0] != ByteOrderMark))
            && (back != Success(message) ==> back.Success? && [ByteOrderMark] + back.value == message)
  {
    MessageRoundTrip(c, key, message, iv, alloc);
  }

  /** A freshly created key always encrypts, and with the corrected decryption its
      exported text decrypts the result, less a leading byte order mark. */
  lemma FreshKeyRoundTrip(c: Codecs, entropy: Bytes, message: string, iv: Bytes, alloc: Allocation)
    requires c.Lawful()
    requires |entropy| == Aes256KeySize && |iv| == BlockSize
    ensures var key := CreateRandomSymmetricKey(entropy);
            && SymEncrypt(c, key, message, iv).Success?
            && SymDecryptFixed(c, ExportSymKey(c, key), SymEncrypt(c, key, message, iv).value, alloc)
                 == Success(StripBom(message))
  {
  }
}
