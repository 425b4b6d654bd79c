# Onion-routing node: symmetric envelope helpers and node registry

This Dafny project models two parts of a small onion-routing network written in TypeScript.

- **The symmetric-envelope helpers of `src/crypto.ts`.** A message is UTF-8 encoded and encrypted with AES-256-CBC under a fresh random 16-byte IV. It travels as `base64(IV || ciphertext)`. Symmetric keys travel as the base64 text of their 32 raw bytes. The module also covers the base64/ArrayBuffer conversions and the `null` case of private-key export.
- **The `/registerNode` handler of the node registry (`src/registry/registry.ts`).** A process-wide list of `{nodeId, pubKey}` entries is kept. A request with a falsy field is rejected. A request whose id is already registered is rejected too. Any other request is appended to the list.

Files:

- `wrappers.dfy` (module `Wrappers`): `Option` stands for JavaScript's `null`. `Result` stands for thrown exceptions and HTTP error replies.
- `runtime.dfy` (module `Runtime`): the parts of Node and of the JavaScript runtime that the helpers call.
  - Bytes, and `ArrayBuffer.prototype.slice` with its relative-index clamping.
  - `Buffer.from(text, "base64")` as a view into Node's shared allocation pool.
  - The three library codecs: base64 (section 4 of RFC 4648), UTF-8 (`TextEncoder`/`TextDecoder`), and AES-256-CBC (section 6.2 of NIST SP 800-38A) with PKCS#7 padding (section 6.3 of RFC 5652).
  - The distinction Node's cipher API draws between a bare `ArrayBuffer` and an `ArrayBufferView` such as a `Buffer`.
  - These codecs are not implemented. Each is a record of functions (`Base64`, `Utf8`, `AesCbc`, bundled as `Codecs`) that is passed in as a parameter. Each carries a ghost predicate stating the one law the helpers rely on: base64 decoding undoes encoding; UTF-8 decoding undoes encoding except that the default `TextDecoder` drops one leading byte order mark (U+FEFF); decryption undoes encryption under a 32-byte key and a 16-byte IV, and (used for one length lemma only) PKCS#7 rounds the plaintext up to whole blocks. Every lemma that needs a law requires it explicitly.
- `crypto.dfy` (module `Crypto`): the helpers of `src/crypto.ts` as pure functions. `symDecrypt` appears twice: `SymDecrypt` as written, which always fails (see "## Findings"), and the corrected `SymDecryptFixed`, which the round-trip lemmas are about. Their contracts and lemmas cover the framing, the key-encoding round trip and the message round trip. Two kinds of nondeterminism become parameters: the random bytes that `crypto.randomBytes` draws (the key's `entropy` and the `iv`), and where Node places a decoded buffer in its pool (`alloc`).
- `registry.dfy` (module `Registry`): the registry, with these parts.
  - The pure specification `Register` of one request.
  - The invariant `Consistent`: node ids are pairwise distinct, and no entry has id 0 or an empty key.
  - Lemmas showing that single requests and whole sequences of requests keep the invariant and only append.
  - The class `NodeRegistry`. It holds `registeredNodes` as a `seq<Node>` field. Its method `IsRegistered` is the `some` scan as a loop. Its method `RegisterNode` is the handler body.

## Model

| member | source | states |
|---|---|---|
| `Runtime.BufferFromBase64` | src/crypto.ts:14 | `Buffer.from(text, "base64")` returns a valid view whose bytes are exactly the base64 decoding of the text, wherever the pool places them |
| `Runtime.StripBom` | src/crypto.ts:149-150 | what the default `TextDecoder` does to a leading U+FEFF: the text is left unchanged exactly when it is empty or does not start with U+FEFF, and otherwise loses exactly that one character |
| `Runtime.RelativeIndex` | src/crypto.ts:15 | the index `ArrayBuffer.prototype.slice` uses always lies within the buffer, and an index already within it is used as given |
| `Runtime.Slice` | src/crypto.ts:15 | `ArrayBuffer.prototype.slice(start, end)` copies the bytes from the clamped start up to the clamped end, in order, and is empty when the end does not come after the start |
| `Crypto.ArrayBufferToBase64` | src/crypto.ts:8-10 | the base64 text of a buffer decodes back to exactly its bytes, given the base64 round-trip law; `Base64RoundTrip` carries this through `base64ToArrayBuffer` |
| `Crypto.Base64ToArrayBuffer` | src/crypto.ts:13-16 | copying `byteLength` bytes from `byteOffset` of the backing buffer yields exactly the decoded bytes, whatever else the shared pool holds |
| `Crypto.Base64RoundTrip` | src/crypto.ts:8-16 | `base64ToArrayBuffer(arrayBufferToBase64(b))` has exactly the bytes of `b`, for any pool placement, given the base64 round-trip law |
| `Crypto.ExportPrvKey` | src/crypto.ts:43-48 | exporting yields `null` exactly when the key is `null`; a key yields its PKCS#8 PEM text |
| `Crypto.CreateRandomSymmetricKey` | src/crypto.ts:93-97 | the created key holds exactly the 32 random bytes drawn (256 bits) |
| `Crypto.ExportSymKey` | src/crypto.ts:100-105 | the exported text of a key decodes back to exactly its 32 raw bytes, given the base64 round-trip law |
| `Crypto.ImportSymKey` | src/crypto.ts:108-114 | no contract of its own (it only wraps the decoded bytes as a key); `SymKeyRoundTrip` gives its meaning |
| `Crypto.SymKeyRoundTrip` | src/crypto.ts:100-114 | `importSymKey(exportSymKey(k))` has the same raw bytes as `k`, given the base64 round-trip law |
| `Crypto.CipherInitError` | src/crypto.ts:125 | creating an AES-256-CBC cipher succeeds exactly when the IV is 16 bytes and the key 32 bytes; a bad IV is reported before a bad key |
| `Crypto.SymEncrypt` | src/crypto.ts:117-132 | encryption fails exactly when the key is not 32 bytes, and then only with the key-length error; the decoded output is the 16-byte IV followed by exactly the ciphertext of the UTF-8 message, so its length is 16 + the ciphertext length |
| `Crypto.SplitIv` | src/crypto.ts:142-143 | a buffer of at least 16 bytes splits into a 16-byte IV and a rest that concatenate back to the buffer; a shorter buffer is all IV with an empty rest |
| `Crypto.Decipher` | src/crypto.ts:146-147 | `update` followed by `final` rejects a bare `ArrayBuffer` with the argument-type error before decrypting; a view decrypts, failing with the padding error exactly when the cipher rejects the ciphertext |
| `Crypto.SymDecrypt` | src/crypto.ts:135-153 | as written: fails with the IV error when the decoded input is under 16 bytes, then with the key-length error when the decoded key is not 32 bytes, and otherwise always with the argument-type error, because the sliced ciphertext reaches `decipher.update` as a bare `ArrayBuffer` |
| `Crypto.SymDecryptNeverSucceeds` | src/crypto.ts:139-147 | as written, `symDecrypt` fails on every input |
| `Crypto.SymDecryptRejectsOwnCiphertext` | src/crypto.ts:117-147 | as written, `symDecrypt(exportSymKey(k), symEncrypt(k, m))` fails with the argument-type error for every 32-byte key, message and IV |
| `Crypto.SymDecryptFixed` | src/crypto.ts:135-153 | corrected (ciphertext passed as a view): IV error under 16 bytes, then key-length error, then padding error when the cipher rejects the bytes after the IV; otherwise the UTF-8 decoding of the plaintext; the pool placement never matters |
| `Crypto.SplitInvertsFraming` | src/crypto.ts:124-143 | for any 16-byte `iv`, the split of `symDecrypt` applied to `iv ++ ct` gives back `(iv, ct)` |
| `Crypto.SymEncryptLength` | src/crypto.ts:124-128 | under a 32-byte key the decoded output is 16 bytes of IV plus the PKCS#7-padded message: 16·(⌊n/16⌋ + 2) bytes for an n-byte UTF-8 message |
| `Crypto.SymEncryptDistinctIvs` | src/crypto.ts:124-131 | two encryptions of the same message under the same key with different IVs never produce the same text |
| `Crypto.MessageRoundTrip` | src/crypto.ts:100-153 | with the corrected decryption, `symDecrypt(exportSymKey(k), symEncrypt(k, m))` is `m` less one leading U+FEFF, for every 32-byte key, message, IV and pool placement, given the three codec round-trip laws |
| `Crypto.MessageRoundTripExact` | src/crypto.ts:117-153 | with the corrected decryption, a message comes back unchanged exactly when it is empty or does not start with U+FEFF; otherwise it comes back without that first character |
| `Crypto.FreshKeyRoundTrip` | src/crypto.ts:93-153 | a key from `createRandomSymmetricKey` always encrypts, and with the corrected decryption its exported text decrypts the result back to the message less one leading U+FEFF |
| `Registry.Register` | src/registry/registry.ts:23-37 | a request succeeds iff both fields are truthy and the id is fresh; a falsy field gives the missing-field error even for a taken id; a taken id gives the duplicate error; success appends exactly `{nodeId, pubKey}` at the end; failure leaves the list unchanged; the length grows by 1 on success and 0 on failure |
| `Registry.TruthyId` | src/registry/registry.ts:26 | no contract of its own (JavaScript truthiness of the id: present and not 0); `Register` states the reply it leads to |
| `Registry.TruthyKey` | src/registry/registry.ts:26 | no contract of its own (JavaScript truthiness of the key: present and not empty); `Register` states the reply it leads to |
| `Registry.HasNode` | src/registry/registry.ts:30 | no contract of its own (some stored entry has the id); `NodeRegistry.IsRegistered` is proved to compute it |
| `Registry.RegisterPreservesConsistency` | src/registry/registry.ts:26-34 | every registration keeps the ids pairwise distinct, and keeps every entry free of id 0 and of an empty key |
| `Registry.ReRegistrationRejected` | src/registry/registry.ts:30-34 | after an id is registered, any later well-formed request for the same id is rejected as a duplicate |
| `Registry.ReplayPreservesConsistency` | src/registry/registry.ts:16-37 | after any sequence of requests handled in order, the registry is still consistent |
| `Registry.ReplayOnlyAppends` | src/registry/registry.ts:16-37 | after any sequence of requests, the earlier entries are an unchanged prefix, and the list grew by at most one entry per request |
| `Registry.NodeRegistry.constructor` | src/registry/registry.ts:16 | the registry starts empty and consistent |
| `Registry.NodeRegistry.IsRegistered` | src/registry/registry.ts:30 | the scan answers true exactly when some stored entry has the given id |
| `Registry.NodeRegistry.RegisterNode` | src/registry/registry.ts:23-37 | the handler's reply and the new list are exactly those of `Register` on the old list; success appends the returned node, failure changes nothing; the registry stays consistent |

## Left out

- RSA key generation, export, import, encryption and decryption (src/crypto.ts:28-86) are thin calls into Node's `crypto` library. They have no logic of the repository's own, so no claim is made about them.
- `exportPubKey`, `importPubKey` and `importPrvKey` are library calls as well. `ExportPrvKey` models only the `null` check; the PEM export itself is a parameter.
- The internals of base64, UTF-8, AES-256-CBC and PKCS#7 padding are library behaviour. The model assumes only the round-trip laws, and the padding-length law where a lemma needs it.
- `cipher.update` followed by `cipher.final` is modelled as one encryption function (`update` then `final` concatenated), and likewise for decryption.
- Strings are sequences of Unicode scalar values. A JavaScript string with a lone surrogate cannot be expressed, and such strings do not survive `TextEncoder` in the original.
- `ImportSymKey` and `SymDecrypt` do not model any check that `createSecretKey` makes on its buffer. A key of the wrong length fails only when the cipher is created.
- The `Promise` wrappers of the `async` functions are not modelled. A rejected promise is a `Failure`.
- Express plumbing is not modelled: the app, JSON body parsing, `listen`, the `/status` route, HTTP status codes and reply texts. The handler's outcome is a `Result`.
- Only two shapes of request body are modelled: an id that is an absent or integer field, and a key that is an absent or string field. Fractional ids and JSON values of other types are not modelled. `NaN` cannot come out of JSON parsing.
- src/users/userRoutes.ts only returns two module variables that stay `null`. It is observability plumbing, so it is not part of this model.
- The layered onion envelope, circuit building, the length-prefixed wire format and relay forwarding do not appear in the code this project models, so they are not modelled.
- `MessageRoundTrip`, `FreshKeyRoundTrip`: a message that starts with U+FEFF does not round-trip exactly. `TextEncoder` keeps the mark, but the default `TextDecoder` of src/crypto.ts:149-150 (no `ignoreBOM`) drops it, so the message comes back one character shorter. The lemmas state this loss rather than an exact round trip.
- Requests are handled one at a time on Node's event loop, so concurrency needs no model.
- `ImportSymKey` raises no format error: Node's base64 decoder skips characters it does not recognise instead of throwing, and the key may have any length. A wrong length surfaces only when a cipher is created.
- `Node` has no address field: the source type holds only `nodeId` and `pubKey`.
- src/crypto.ts imports only `webcrypto`, yet calls `crypto.randomBytes`, `crypto.createSecretKey`, `crypto.createCipheriv` and `crypto.createDecipheriv` on a bare `crypto`. In current Node that global is the Web Crypto object, which has none of these methods. The model assumes that `crypto` resolves to Node's `crypto` module, and does not model the `TypeError` the calls would otherwise raise.

## Findings

| source | as written | input that shows it | evidently intended | confidence | as-written member | corrected member |
|---|---|---|---|---|---|---|
| src/crypto.ts:143-146 | `slice(16)` of the `ArrayBuffer` from `base64ToArrayBuffer` is itself a bare `ArrayBuffer`. It is passed to `decipher.update`, which accepts only strings and `ArrayBufferView`s and throws `ERR_INVALID_ARG_TYPE` | any 32-byte key `k`, message `m` and IV: `symDecrypt(exportSymKey(k), symEncrypt(k, m))` | decipher a view over the same bytes (`Buffer.from(data)`), so that the message round-trips | not executed; read from the argument check of Node's `Cipher.prototype.update` | `Crypto.SymDecrypt`, `Crypto.SymDecryptRejectsOwnCiphertext` | `Crypto.SymDecryptFixed`, `Crypto.MessageRoundTrip` |
