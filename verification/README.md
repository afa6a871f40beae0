# AES-256-GCM envelope codec, modelled in Dafny

The repository wraps Node's `crypto` module in two near-identical copies of an
`encrypt`/`decrypt` pair: the exported one in `crypto-utils.js` and a script
copy in `index.js`. Both derive a 32-byte key with scrypt when the file is
loaded. `encrypt` draws a 12-byte IV and seals the plaintext with AES-256-GCM.
It writes the result as the envelope `hex(iv):hex(tag):hex(ciphertext)` in
lower-case base16. `decrypt` splits the envelope on `:` and reads the hex. It
runs authenticated decryption and turns every failure into the single error
"Decryption failed or data is corrupted.". The `crypto-utils.js` copy also
refuses an envelope with an empty segment. `index.js` has no such check: of
the three segments, only an empty ciphertext gets past its cipher.

The model is functional. Each source file is one module.

- `Wrappers`, `Octets`: result types; bytes as integers 0-255, with the
  bitwise exclusive-or GCM needs. That exclusive-or undoes itself
  (`Octets.XorBitsInvolution`).
- `Hex`: lower-case base16 (section 8 of RFC 4648) and its inverse on
  well-formed input. Node's `Buffer.from(s, 'hex')` is a parameter
  `fromHex`. The only constraint on it (`Hex.Agrees`) is that it equals
  `Hex.Decode` on well-formed input. Malformed input is therefore left
  unspecified, as Node's lenient reader is.
- `Envelope`: `String.prototype.split(':')`, its inverse `Join`, and the
  envelope `Format`.
- `Gcm`: GCM-AE and GCM-AD with empty additional data, following sections
  7.1 and 7.2 of NIST SP 800-38D. The AES block cipher enters through two
  abstract functions held by a `Cipher` value:
  - the keystream. GCTR is an exclusive-or with it (section 6.5).
  - the 128-bit tag of key, IV and ciphertext.

  That decryption inverts encryption, and that a tag other than the one
  recomputed from the ciphertext fails, are proved from these definitions. They
  are not assumed. A zero-length IV fails, as section 7.2 step 1 requires.
- `Kdf`: scrypt (section 6 of RFC 7914) as a function parameter. `Kdf.Sized`
  requires only that its output has the requested length. The environment
  (`SECRET_KEY`, `SALT`) is a value whose fields may be undefined.
- `CryptoUtils`, `IndexScript`: the two files. The random IV of `encrypt` is a
  parameter. Plaintexts are byte strings.
- `Interop`: how the two copies relate.

## Behaviour worth knowing

- An empty `SECRET_KEY` is accepted; only an undefined one makes `scryptSync` throw.
- Segments are not checked for hex syntax or for the 12- and 16-byte lengths.
- Malformed input and authentication failures give the same error.
- In `crypto-utils.js` the empty plaintext does not round-trip (see Findings).
- Tags shorter than 16 bytes are not modelled (see Left out).
- Node reads upper-case hex digits like lower-case ones. Changing the case of a
  hex letter in a genuine envelope's tag or ciphertext segment therefore leaves
  it decryptable in the program; the model does not specify this case (see
  `Hex.Agrees` under Left out).

## Model

| member | source | states |
|---|---|---|
| Hex.Encode | crypto-utils.js:50 | each segment is lower-case hex, twice as long as its bytes, and holds no `:` |
| Hex.Decode | crypto-utils.js:67-69 | well-formed hex decodes to half as many bytes, which encode back to the same text |
| Hex.EncodeDigits | crypto-utils.js:50 | byte i is written as digits 2i and 2i+1, high nibble first, so the digits' values give back the byte |
| Hex.DecodeEncode | crypto-utils.js:67-69 | reading back a segment that `encrypt` wrote yields the original bytes |
| Hex.EncodeInjective | crypto-utils.js:50 | different byte strings give different segments |
| Envelope.Split | crypto-utils.js:61 | `split(':')` yields one more field than there are separators, no field holds `:`, and joining the fields restores the input |
| Envelope.SplitJoin | crypto-utils.js:61 | splitting undoes joining for separator-free fields, so the fields of a string are unique |
| Envelope.Format | crypto-utils.js:50 | the envelope splits into exactly the three encodings, in the order IV, tag, ciphertext |
| Octets.XorBitsInvolution | crypto-utils.js:78 | masking a value twice with the same keystream bits restores it, the step that lets deciphering undo enciphering |
| Gcm.GctrInvolution | crypto-utils.js:78 | deciphering with the same key and IV undoes enciphering |
| Gcm.Seal | crypto-utils.js:41-47 | ciphertext is as long as the plaintext; the tag is the one bound to that key, IV and ciphertext |
| Gcm.Open | crypto-utils.js:72-78 | GCM-AD of SP 800-38D with t = 128 and any non-empty IV: decryption succeeds exactly when the IV is non-empty and the 16-byte tag matches; its plaintext seals back to the given ciphertext and tag |
| Gcm.OpenSeal | crypto-utils.js:72-78 | opening what was sealed with the same key and IV returns the plaintext |
| Gcm.OpenRejectsOtherTag | crypto-utils.js:75-78 | any tag other than the sealed one is refused |
| CryptoUtils.DeriveKey | crypto-utils.js:29 | loading succeeds exactly when both `SECRET_KEY` and `SALT` are defined, and yields a 32-byte key |
| CryptoUtils.Encrypt | crypto-utils.js:36-51 | three hex segments of 24, 32 and twice-the-plaintext digits; the first decodes to the IV, and the decoded segments open to the plaintext |
| CryptoUtils.Decrypt | crypto-utils.js:58-84 | every failure is the one generic error; input with fewer than two `:` or an empty IV segment fails |
| CryptoUtils.RoundTrip | crypto-utils.js:36-84 | decrypting an envelope returns its plaintext if and only if the plaintext is non-empty |
| CryptoUtils.EmptyTextRejected | crypto-utils.js:62-63 | the envelope of the empty plaintext has an empty third segment and is refused |
| CryptoUtils.EmptySegmentRejected | crypto-utils.js:61-64 | an input whose IV, tag or ciphertext field is empty is refused, whatever fields follow |
| CryptoUtils.ExtraFieldsIgnored | crypto-utils.js:61 | fields after the third do not change the outcome |
| CryptoUtils.OnlyAuthenticDecrypts | crypto-utils.js:72-80 | with tags fixed at 16 bytes: if hex segments decrypt to `p`, then `p` is non-empty and the segments are exactly the envelope that sealing `p` under that IV produces |
| CryptoUtils.TamperedTagRejected | crypto-utils.js:75-83 | with tags fixed at 16 bytes: replacing the tag of a genuine envelope gives the generic error, whether the new tag segment is empty or merely wrong |
| CryptoUtils.FailuresIndistinguishable | crypto-utils.js:81-83 | a format failure and an authentication failure surface as the same error |
| CryptoUtils.DecryptCorrected | crypto-utils.js:62-63 | the corrected check keeps the generic error and the failures on missing fields and on an empty IV |
| CryptoUtils.RoundTripCorrected | crypto-utils.js:62-63 | with the corrected check every plaintext, the empty one included, round-trips |
| CryptoUtils.CorrectedAgreesOnNonEmptyCiphertext | crypto-utils.js:62-63 | the correction changes nothing when the ciphertext segment is present and non-empty |
| IndexScript.DeriveKey | index.js:6 | loading fails only for an undefined `SECRET_KEY`; the salt is the literal "salt" |
| IndexScript.Encrypt | index.js:8-14 | the same IV:tag:ciphertext hex envelope, with the same segment lengths and decoding |
| IndexScript.Decrypt | index.js:21-36 | every failure is the one generic error; input with fewer than two `:` fails |
| IndexScript.RoundTrip | index.js:8-36 | every plaintext, the empty one included, survives the round trip |
| IndexScript.OnlyAuthenticDecrypts | index.js:24-31 | with tags fixed at 16 bytes: if hex segments decrypt to `p`, the IV is non-empty and the segments are exactly the envelope that sealing `p` under that IV produces; `p` may be empty |
| IndexScript.TamperedTagRejected | index.js:29-35 | with tags fixed at 16 bytes: replacing the tag of a genuine envelope by any other byte string, the empty one included, gives the generic error |
| IndexScript.EmptyIvRejected | index.js:24-28 | an empty IV segment reaches the cipher as a zero-length IV and is refused |
| IndexScript.ExtraFieldsIgnored | index.js:23 | fields after the third do not change the outcome |
| IndexScript.FailuresIndistinguishable | index.js:33-35 | a missing-field failure and an authentication failure surface as the same error |
| Interop.SameEnvelope | index.js:13 | both `encrypt` functions build the same envelope from the same key, IV and plaintext |
| Interop.DecryptAgreement | index.js:21-36 | `index.js` accepts everything `crypto-utils.js` accepts, with the same plaintext, and they agree when the three segments are non-empty |
| Interop.DifferOnlyOnEmptyCiphertext | index.js:21-36 | with a decoder that reads well-formed hex correctly, the two `decrypt` functions give different results only when the third field is present and empty |
| Interop.EmptyPlaintextDivergence | crypto-utils.js:62-63 | for the empty plaintext `crypto-utils.js` fails on its own envelope while `index.js` returns the empty plaintext |
| Interop.SameKeyForLiteralSalt | index.js:6 | with `SALT` = "salt" both files derive the same key, or fail alike |
| Interop.IndexKeyIgnoresSalt | index.js:6 | the `index.js` key depends on `SECRET_KEY` alone |
| Interop.CrossFileRoundTrip | crypto-utils.js:29 | with `SALT` = "salt", envelopes decrypt across the files; from `index.js` to `crypto-utils.js` this holds for non-empty plaintexts |
| Interop.OtherSaltMayNotInteroperate | crypto-utils.js:29 | for any other `SALT` there is a sized KDF and a cipher under which neither file decrypts the other's envelopes |
| Interop.ForeignTagRejected | crypto-utils.js:72-78 | an envelope whose tag differs under the decrypting key fails in both files |

`CryptoUtils.Attempt`/`Unpack` and `IndexScript.Attempt`/`Unpack` model the
`try` blocks (crypto-utils.js:59-80, index.js:22-32). They carry no contract
of their own; the `Decrypt` functions and the lemmas above state what they do.

## Findings

| source | as written | input that shows it | evidently intended | confidence | as-written member | corrected member |
|---|---|---|---|---|---|---|
| crypto-utils.js:62-63 | `!encryptedHex` treats the empty ciphertext segment as missing | plaintext `""`: `encrypt` writes `<24 hex>:<32 hex>:` and `decrypt` rejects it | reject only a missing segment, so the empty plaintext round-trips as in index.js | medium, not executed | CryptoUtils.EmptyTextRejected | CryptoUtils.RoundTripCorrected |

The other members keep modelling the code as written, and `Interop` relates
the two files as they are.

## Left out

- AES block-cipher internals and GHASH: abstract functions in `Gcm.Cipher`. Wrong-key and ciphertext-tamper rejection hold only with high probability, so they are not claimed; `Interop.OtherSaltMayNotInteroperate` exhibits one cipher where they happen.
- scrypt internals: abstract, with only the output length constrained.
- `crypto.randomBytes` and nonce uniqueness: the IV is a parameter, and uniqueness is probabilistic.
- `dotenv`/`process.env` loading and the `ALGORITHM` override (crypto-utils.js:11, 20): the environment is a parameter and the algorithm is always AES-256-GCM.
- The demo script in index.js (lines 16-19, 37-39): console output only.
- Node's handling of odd-length, non-hex or upper-case input to `Buffer.from(s, 'hex')`: unspecified through `Hex.Agrees`, which constrains the decoder only on even-length lower-case hex. Node decodes `A`-`F` exactly as `a`-`f`; the model says nothing about such input.
- UTF-8 encoding of the plaintext and decoding of the result: plaintexts are byte strings.
- Node's acceptance of truncated GCM tags in `setAuthTag`: the tag length is fixed at 16 bytes. Without `authTagLength`, `setAuthTag` (crypto-utils.js:75, index.js:29) also accepts tags of 4, 8 or 12 to 15 bytes and compares only that many bytes of the real tag.
- CryptoUtils.TamperedTagRejected: holds for the model's 16-byte tag check only. The program returns the plaintext of a genuine envelope whose tag segment is cut to its first 8, 16 or 24 to 30 digits; the model fails there.
- CryptoUtils.OnlyAuthenticDecrypts: holds for 16-byte tags only. In the program a genuine envelope with a truncated tag segment also decrypts, so the segments need not be exactly the sealed envelope.
- IndexScript.TamperedTagRejected: as for CryptoUtils.TamperedTagRejected, a truncated genuine tag decrypts in the program.
- IndexScript.OnlyAuthenticDecrypts: as for CryptoUtils.OnlyAuthenticDecrypts, a truncated genuine tag decrypts in the program.
- Gcm.Open: models GCM-AD with a fixed 16-byte tag and any non-empty IV. Without `authTagLength`, Node's `setAuthTag` (crypto-utils.js:75, index.js:29) also accepts a 4-, 8- or 12- to 15-byte prefix of the genuine tag, where `Open` returns `None`. The OpenSSL 3 library bundled with current Node also refuses GCM IVs longer than 128 bytes, which `Open` accepts. Neither limit appears in the source text.
- Gcm.OpenRejectsOtherTag: GCM-AD with a fixed 16-byte tag; Node's shorter-tag acceptance is not modelled.
- The GCM plaintext length limit of section 5.2.1.1 of SP 800-38D: lengths are unbounded.
- The exception Node throws for a zero-length IV on encryption: `encrypt` always passes 12 bytes, so a non-empty IV is a precondition of `Gcm.Seal`.
