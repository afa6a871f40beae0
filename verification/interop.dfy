/** How the two copies in crypto-utils.js and index.js relate: same envelope,
    same decryption wherever crypto-utils.js accepts the input, a different
    answer for the empty plaintext, and keys that coincide when `SALT` is the
    literal "salt". */
module Interop {
  import opened Wrappers
  import opened Octets
  import Hex
  import Envelope
  import Gcm
  import Kdf
  import CryptoUtils
  import IndexScript

  /** Both `encrypt` functions build the same envelope. */
  lemma SameEnvelope(c: Gcm.Cipher, key: Gcm.Key, iv: Bytes, text: Bytes)
    requires |iv| == CryptoUtils.IvLength
    ensures IndexScript.Encrypt(c, key, iv, text) == CryptoUtils.Encrypt(c, key, iv, text)
  {
  }

  /** index.js accepts everything crypto-utils.js accepts, with the same
      plaintext, and the two agree on every input whose first three fields
      are present and non-empty. */
  lemma DecryptAgreement(c: Gcm.Cipher, fromHex: Hex.Decoder, key: Gcm.Key, text: string)
    ensures CryptoUtils.Decrypt(c, fromHex, key, text).Success? ==>
              IndexScript.Decrypt(c, fromHex, key, text) == CryptoUtils.Decrypt(c, fromHex, key, text)
    ensures var fields := Envelope.Split(text);
            |fields| >= 3 && fields[0] != "" && fields[1] != "" && fields[2] != "" ==>
              IndexScript.Decrypt(c, fromHex, key, text) == CryptoUtils.Decrypt(c, fromHex, key, text)
  {
    var fields := Envelope.Split(text);
    assert CryptoUtils.Attempt(c, fromHex, key, text) == CryptoUtils.Unpack(c, fromHex, key, fields);
    assert IndexScript.Attempt(c, fromHex, key, text) == IndexScript.Unpack(c, fromHex, key, fields);
  }

  /** With a decoder that reads well-formed hex correctly, the two files
      differ only on an empty ciphertext field: an empty IV or tag field fails
      in both, the first check in crypto-utils.js, the cipher in index.js. */
  lemma DifferOnlyOnEmptyCiphertext(c: Gcm.Cipher, fromHex: Hex.Decoder, key: Gcm.Key, text: string)
    requires Hex.Agrees(fromHex)
    ensures var fields := Envelope.Split(text);
            IndexScript.Decrypt(c, fromHex, key, text) != CryptoUtils.Decrypt(c, fromHex, key, text) ==>
              |fields| >= 3 && fields[2] == ""
  {
    var fields := Envelope.Split(text);
    assert CryptoUtils.Attempt(c, fromHex, key, text) == CryptoUtils.Unpack(c, fromHex, key, fields);
    assert IndexScript.Attempt(c, fromHex, key, text) == IndexScript.Unpack(c, fromHex, key, fields);
    if |fields| >= 3 && (fields[0] == "" || fields[1] == "") {
      assert fromHex("") == Hex.Decode("") == [];
    }
  }

  /** The empty plaintext: crypto-utils.js cannot decrypt its own envelope,
      index.js can. */
  lemma EmptyPlaintextDivergence(c: Gcm.Cipher, fromHex: Hex.Decoder, key: Gcm.Key, iv: Bytes)
    requires Hex.Agrees(fromHex)
    requires |iv| == CryptoUtils.IvLength
    ensures CryptoUtils.Decrypt(c, fromHex, key, CryptoUtils.Encrypt(c, key, iv, []))
            == Failure(CryptoUtils.DecryptionFailed)
    ensures IndexScript.Decrypt(c, fromHex, key, IndexScript.Encrypt(c, key, iv, [])) == Success([])
  {
    CryptoUtils.EmptyTextRejected(c, fromHex, key, iv);
    IndexScript.RoundTrip(c, fromHex, key, iv, []);
  }

  /** With `SALT` set to "salt" the two files derive the same key, or fail
      alike when `SECRET_KEY` is missing. */
  lemma SameKeyForLiteralSalt(scrypt: Kdf.Scrypt, env: Kdf.Env)
    requires Kdf.Sized(scrypt)
    requires env.salt == Some(IndexScript.Salt)
    ensures CryptoUtils.DeriveKey(scrypt, env) == IndexScript.DeriveKey(scrypt, env)
  {
  }

  /** The index.js key depends on `SECRET_KEY` alone. */
  lemma IndexKeyIgnoresSalt(scrypt: Kdf.Scrypt, env: Kdf.Env, other: Kdf.Env)
    requires Kdf.Sized(scrypt)
    requires env.secretKey == other.secretKey
    ensures IndexScript.DeriveKey(scrypt, env) == IndexScript.DeriveKey(scrypt, other)
  {
  }

  /** With `SALT` set to "salt", envelopes cross between the files: index.js
      decrypts every crypto-utils.js envelope, and crypto-utils.js decrypts
      every index.js envelope of a non-empty plaintext. */
  lemma CrossFileRoundTrip(scrypt: Kdf.Scrypt, c: Gcm.Cipher, fromHex: Hex.Decoder, env: Kdf.Env, iv: Bytes, text: Bytes)
    requires Kdf.Sized(scrypt)
    requires Hex.Agrees(fromHex)
    requires env.secretKey.Some? && env.salt == Some(IndexScript.Salt)
    requires |iv| == CryptoUtils.IvLength
    ensures CryptoUtils.DeriveKey(scrypt, env).Success? && IndexScript.DeriveKey(scrypt, env).Success?
    ensures var sharedKey := CryptoUtils.DeriveKey(scrypt, env).value;
            var indexKey := IndexScript.DeriveKey(scrypt, env).value;
            && IndexScript.Decrypt(c, fromHex, indexKey, CryptoUtils.Encrypt(c, sharedKey, iv, text)) == Success(text)
            && (|text| > 0 ==>
                  CryptoUtils.Decrypt(c, fromHex, sharedKey, IndexScript.Encrypt(c, indexKey, iv, text)) == Success(text))
  {
    var key := CryptoUtils.DeriveKey(scrypt, env).value;
    SameKeyForLiteralSalt(scrypt, env);
    SameEnvelope(c, key, iv, text);
    IndexScript.RoundTrip(c, fromHex, key, iv, text);
    CryptoUtils.RoundTrip(c, fromHex, key, iv, text);
  }

  /** For any other `SALT`, interoperation is not guaranteed: there are a
      sized key-derivation function and a cipher under which neither file can
      decrypt the other's envelopes. */
  lemma OtherSaltMayNotInteroperate(fromHex: Hex.Decoder, env: Kdf.Env, iv: Bytes, text: Bytes)
      returns (scrypt: Kdf.Scrypt, c: Gcm.Cipher)
    requires Hex.Agrees(fromHex)
    requires env.secretKey.Some? && env.salt.Some? && env.salt.value != IndexScript.Salt
    requires |iv| == CryptoUtils.IvLength
    ensures Kdf.Sized(scrypt)
    ensures CryptoUtils.DeriveKey(scrypt, env).Success? && IndexScript.DeriveKey(scrypt, env).Success?
    ensures var sharedKey := CryptoUtils.DeriveKey(scrypt, env).value;
            var indexKey := IndexScript.DeriveKey(scrypt, env).value;
            && IndexScript.Decrypt(c, fromHex, indexKey, CryptoUtils.Encrypt(c, sharedKey, iv, text)).Failure?
            && CryptoUtils.Decrypt(c, fromHex, sharedKey, IndexScript.Encrypt(c, indexKey, iv, text)).Failure?
  {
    scrypt, c := SaltSensitiveScrypt(), KeyPrefixCipher();
    var sharedKey, indexKey := SaltSensitiveKeys(env);
    var fromShared := Gcm.Seal(c, sharedKey, iv, text).ciphertext;
    var fromIndex := Gcm.Seal(c, indexKey, iv, text).ciphertext;
    KeyPrefixMac(sharedKey, indexKey, iv, fromShared);
    KeyPrefixMac(indexKey, sharedKey, iv, fromIndex);
    ForeignTagRejected(c, fromHex, sharedKey, indexKey, iv, text);
    ForeignTagRejected(c, fromHex, indexKey, sharedKey, iv, text);
  }

  /** A key-derivation function whose output depends on whether the salt is
      the literal "salt". */
  function SaltSensitiveScrypt(): Kdf.Scrypt
  {
    (password: string, salt: string, keylen: nat) => seq(keylen, _ => if salt == IndexScript.Salt then 0 else 1)
  }

  /** A cipher whose tag is the first sixteen key bytes. */
  function KeyPrefixCipher(): Gcm.Cipher
  {
    Gcm.Cipher((key: Gcm.Key, iv: Bytes, i: nat) => 0, (key: Gcm.Key, iv: Bytes, ciphertext: Bytes) => key[..Gcm.TagSize])
  }

  /** Under `SaltSensitiveScrypt` the two files derive keys that differ in
      their first byte when `SALT` is not "salt". */
  lemma SaltSensitiveKeys(env: Kdf.Env) returns (sharedKey: Gcm.Key, indexKey: Gcm.Key)
    requires env.secretKey.Some? && env.salt.Some? && env.salt.value != IndexScript.Salt
    ensures Kdf.Sized(SaltSensitiveScrypt())
    ensures CryptoUtils.DeriveKey(SaltSensitiveScrypt(), env) == Success(sharedKey)
    ensures IndexScript.DeriveKey(SaltSensitiveScrypt(), env) == Success(indexKey)
    ensures sharedKey[0] != indexKey[0]
  {
    var scrypt := SaltSensitiveScrypt();
    assert Kdf.Sized(scrypt);
    sharedKey := scrypt(env.secretKey.value, env.salt.value, 32);
    indexKey := scrypt(env.secretKey.value, IndexScript.Salt, 32);
    assert sharedKey[0] == 1 && indexKey[0] == 0;
  }

  /** Keys that differ in their first byte give every ciphertext different
      tags under `KeyPrefixCipher`. */
  lemma KeyPrefixMac(key: Gcm.Key, other: Gcm.Key, iv: Bytes, ciphertext: Bytes)
    requires key[0] != other[0]
    ensures KeyPrefixCipher().mac(key, iv, ciphertext) != KeyPrefixCipher().mac(other, iv, ciphertext)
  {
    assert KeyPrefixCipher().mac(key, iv, ciphertext)[0] == key[0];
    assert KeyPrefixCipher().mac(other, iv, ciphertext)[0] == other[0];
  }

  /** An envelope sealed under `sealKey` fails under `openKey` in both files
      when the two keys give the envelope's ciphertext different tags. */
  lemma ForeignTagRejected(c: Gcm.Cipher, fromHex: Hex.Decoder, sealKey: Gcm.Key, openKey: Gcm.Key, iv: Bytes, text: Bytes)
    requires Hex.Agrees(fromHex)
    requires |iv| == CryptoUtils.IvLength
    requires var ciphertext := Gcm.Seal(c, sealKey, iv, text).ciphertext;
             c.mac(sealKey, iv, ciphertext) != c.mac(openKey, iv, ciphertext)
    ensures IndexScript.Decrypt(c, fromHex, openKey, CryptoUtils.Encrypt(c, sealKey, iv, text)).Failure?
    ensures CryptoUtils.Decrypt(c, fromHex, openKey, IndexScript.Encrypt(c, sealKey, iv, text)).Failure?
  {
    var envelope := CryptoUtils.Encrypt(c, sealKey, iv, text);
    SameEnvelope(c, sealKey, iv, text);
    var fields := Envelope.Split(envelope);
    assert fromHex(fields[0]) == Hex.Decode(fields[0]);
    assert fromHex(fields[1]) == Hex.Decode(fields[1]);
    assert fromHex(fields[2]) == Hex.Decode(fields[2]);
    assert IndexScript.Unpack(c, fromHex, openKey, fields).Failure?;
    assert CryptoUtils.Unpack(c, fromHex, openKey, fields).Failure?;
    assert IndexScript.Attempt(c, fromHex, openKey, envelope).Failure?;
    assert CryptoUtils.Attempt(c, fromHex, openKey, envelope).Failure?;
  }
}
