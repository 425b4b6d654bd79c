/** The parts of the JavaScript runtime and of Node's `crypto` module that the
    symmetric-envelope helpers call: bytes, `ArrayBuffer.prototype.slice`,
    `Buffer.from(text, "base64")` with its shared allocation pool, and the three
    library codecs (base64, UTF-8, AES-256-CBC with PKCS#7 padding), and the
    distinction Node's cipher API draws between a bare `ArrayBuffer` and a view.

    The codecs are not implemented here. Each is a value of function type that
    callers pass in, together with a predicate naming the one law of the standard
    that the envelope code relies on; a lemma that needs the law requires it. */
module Runtime {
  import opened Wrappers

  newtype byte = x: int | 0 <= x < 256

  type Bytes = seq<byte>

  /** Length in bytes of an AES block, of a CBC initialisation vector. */
  const BlockSize: nat := 16

  /** Length in bytes of an AES-256 key. */
  const Aes256KeySize: nat := 32

  /** Base64 as in section 4 of RFC 4648: `Buffer#toString("base64")` and the
      decoding half of `Buffer.from(text, "base64")`, which never throws. */
  datatype Base64 = Base64(encode: Bytes -> string, decode: string -> Bytes)
  {
    /** Decoding the encoding of any byte string gives the byte string back. */
    ghost predicate RoundTrips()
    {
      forall b: Bytes :: decode(encode(b)) == b
    }
  }

  /** U+FEFF, the byte order mark. */
  const ByteOrderMark: char := '\U{FEFF}'

  /** The text without one leading byte order mark, if it has one. */
  function StripBom(s: string): (r: string)
    ensures r == s <==> (s == [] || s[0] != ByteOrderMark)
    ensures r != s ==> [ByteOrderMark] + r == s
  {
    if |s| > 0 && s[0] == ByteOrderMark then s[1..] else s
  }

  /** `TextEncoder#encode` and `TextDecoder#decode` with the default decoder: it is
      not fatal (malformed input becomes replacement characters, so decoding is
      total), and it does not ignore the byte order mark, so it drops one leading
      U+FEFF while the encoder keeps it. */
  datatype Utf8 = Utf8(encode: string -> Bytes, decode: Bytes -> string)
  {
    /** Decoding the encoding of any string gives the string back, less one
        leading byte order mark. */
    ghost predicate RoundTrips()
    {
      forall s: string :: decode(encode(s)) == StripBom(s)
    }
  }

  /** AES-256 in CBC mode (section 6.2 of NIST SP 800-38A) with PKCS#7 padding
      (section 6.3 of RFC 5652), as Node's `Cipheriv` and `Decipheriv` compute it: `encrypt(key, iv, p)` is
      `update(p)` followed by `final()`, and `decrypt` is `None` exactly where
      `Decipheriv#final` throws (a last block of the wrong length, bad padding). */
  datatype AesCbc = AesCbc(encrypt: (Bytes, Bytes, Bytes) -> Bytes,
                           decrypt: (Bytes, Bytes, Bytes) -> Option<Bytes>)
  {
    /** Under a 32-byte key and a 16-byte IV, decryption undoes encryption. */
    ghost predicate RoundTrips()
    {
      forall key: Bytes, iv: Bytes, p: Bytes
        | |key| == Aes256KeySize && |iv| == BlockSize
        :: decrypt(key, iv, encrypt(key, iv, p)) == Some(p)
    }

    /** PKCS#7 always adds between 1 and 16 bytes of padding, so the ciphertext
        is the plaintext rounded up to the next whole number of blocks. */
    ghost predicate PadsToBlocks()
    {
      forall key: Bytes, iv: Bytes, p: Bytes
        | |key| == Aes256KeySize && |iv| == BlockSize
        :: |encrypt(key, iv, p)| == BlockSize * (|p| / BlockSize + 1)
    }
  }

  /** The library codecs the helpers are parameterised by. */
  datatype Codecs = Codecs(base64: Base64, utf8: Utf8, aes: AesCbc)
  {
    /** The round-trip laws of all three codecs. */
    ghost predicate Lawful()
    {
      base64.RoundTrips() && utf8.RoundTrips() && aes.RoundTrips()
    }
  }

  /** Where `Buffer.from` puts the bytes it creates: Node hands out small buffers
      as views into a shared pool, so the backing `ArrayBuffer` holds `before`,
      then the new bytes, then `after`. The placement is the allocator's choice. */
  datatype Allocation = Allocation(before: Bytes, after: Bytes)

  /** A binary value handed to Node: a bare `ArrayBuffer` (what `ArrayBuffer.prototype.slice`
      returns) or an `ArrayBufferView` such as a `Buffer` over the same kind of bytes. */
  datatype BinaryData = ArrayBuffer(bytes: Bytes) | View(bytes: Bytes)

  /** A Node `Buffer`: a view of `byteLength` bytes at `byteOffset` of `buffer`. */
  datatype NodeBuffer = NodeBuffer(buffer: Bytes, byteOffset: nat, byteLength: nat)
  {
    ghost predicate Valid()
    {
      byteOffset + byteLength <= |buffer|
    }

    /** The bytes the view shows. */
    function Contents(): Bytes
      requires Valid()
    {
      buffer[byteOffset..byteOffset + byteLength]
    }
  }

  /** `Buffer.from(text, "base64")`: a view over the decoded bytes, placed in the
      pool as `alloc` says. */
  function BufferFromBase64(b64: Base64, text: string, alloc: Allocation): (v: NodeBuffer)
    ensures v.Valid() && v.Contents() == b64.decode(text)
  {
    var bytes := b64.decode(text);
    var v := NodeBuffer(alloc.before + bytes + alloc.after, |alloc.before|, |bytes|);
    assert v.Contents() == bytes by {
      assert (alloc.before + bytes + alloc.after)[|alloc.before|..|alloc.before| + |bytes|] == bytes;
    }
    v
  }

  /** The index `ArrayBuffer.prototype.slice` uses for an argument `i` on a buffer
      of `len` bytes: a negative `i` counts from the end, and the result is clamped
      to `[0, len]`. */
  function RelativeIndex(i: int, len: nat): (r: nat)
    ensures r <= len
    ensures 0 <= i <= len ==> r == i
  {
    if i < 0 then (if len + i < 0 then 0 else len + i)
    else if i > len then len
    else i
  }

  /** `ArrayBuffer.prototype.slice(start, end)`: a copy of the bytes between the two
      relative indices, empty when the end comes before the start. */
  function Slice(b: Bytes, start: int, end: int): (r: Bytes)
    ensures var s := RelativeIndex(start, |b|);
            && |r| == (if s < RelativeIndex(end, |b|) then RelativeIndex(end, |b|) - s else 0)
            && forall k | 0 <= k < |r| :: r[k] == b[s + k]
  {
    var s, e := RelativeIndex(start, |b|), RelativeIndex(end, |b|);
    if s < e then b[s..e] else []
  }
}
