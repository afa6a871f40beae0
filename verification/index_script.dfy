/** index.js: a second `encrypt`/`decrypt` pair, with the key derived from
    `SECRET_KEY` and the fixed salt "salt", and without the empty-segment check
    of crypto-utils.js. */
module IndexScript {
  import opened Wrappers
  import opened Octets
  import Hex
  import Envelope
  import Gcm
  import Kdf

  /** GCM standard IV length, in bytes. */
  const IvLength: nat := 12

  /** The salt written into the source. */
  const Salt: string := "salt"

  const DecryptionFailed: string := "Decryption failed or data is corrupted."

  /** `KEY = scryptSync(SECRET_KEY, 'salt', 32)`: fails only when `SECRET_KEY`
      is undefined; `SALT` in the environment plays no part. */
  function DeriveKey(scrypt: Kdf.Scrypt, env: Kdf.Env): (r: Result<Gcm.Key, Kdf.ConfigError>)
    requires Kdf.Sized(scrypt)
    ensures r.Success? <==> env.secretKey.Some?
    ensures r.Failure? ==> r.error == Kdf.MissingSecretKey
  {
    if env.secretKey.None? then Failure(Kdf.MissingSecretKey)
    else
      var key := scrypt(env.secretKey.value, Salt, 32);
      assert |key| == Gcm.KeySize;
      Success(key)
  }

  /** `encrypt`: the same IV:tag:ciphertext lower-case hex envelope as
      crypto-utils.js. */
  function Encrypt(c: Gcm.Cipher, key: Gcm.Key, iv: Bytes, text: Bytes): (r: string)
    requires |iv| == IvLength
    ensures var fields := Envelope.Split(r);
      && |fields| == 3
      && |fields[0]| == 2 * IvLength
      && |fields[1]| == 2 * Gcm.TagSize
      && |fields[2]| == 2 * |text|
      && Hex.IsHex(fields[0]) && Hex.IsHex(fields[1]) && Hex.IsHex(fields[2])
      && Hex.Decode(fields[0]) == iv
      && Gcm.Open(c, key, iv, Hex.Decode(fields[2]), Hex.Decode(fields[1])) == Some(text)
  {
    var sealed := Gcm.Seal(c, key, iv, text);
    Hex.DecodeEncode(iv);
    Hex.DecodeEncode(sealed.tag);
    Hex.DecodeEncode(sealed.ciphertext);
    Gcm.OpenSeal(c, key, iv, text);
    Envelope.Format(iv, sealed.tag, sealed.ciphertext)
  }

  /** What the `try` block of `decrypt` can throw before it is caught:
      `Buffer.from(undefined, 'hex')` throws for a missing field, and the
      cipher throws when authentication fails. */
  datatype Fault = UndefinedField | NotAuthentic

  /** The `try` block of `decrypt`: split, then `Unpack` the fields. */
  function Attempt(c: Gcm.Cipher, fromHex: Hex.Decoder, key: Gcm.Key, text: string): Result<Bytes, Fault>
  {
    Unpack(c, fromHex, key, Envelope.Split(text))
  }

  /** The rest of the `try` block: read the three fields as hex, whatever
      they hold, and run authenticated decryption. */
  function Unpack(c: Gcm.Cipher, fromHex: Hex.Decoder, key: Gcm.Key, fields: seq<string>): Result<Bytes, Fault>
  {
    if |fields| < 3 then Failure(UndefinedField)
    else
      var iv := fromHex(fields[0]);
      var tag := fromHex(fields[1]);
      var ciphertext := fromHex(fields[2]);
      match Gcm.Open(c, key, iv, ciphertext, tag)
      case None => Failure(NotAuthentic)
      case Some(plaintext) => Success(plaintext)
  }

  /** `decrypt`: every failure is rethrown as the one generic error; input
      with fewer than two separators fails. */
  function Decrypt(c: Gcm.Cipher, fromHex: Hex.Decoder, key: Gcm.Key, text: string): (r: Result<Bytes, string>)
    ensures r.Failure? ==> r.error == DecryptionFailed
    ensures Envelope.Count(text) < 2 ==> r.Failure?
  {
    match Attempt(c, fromHex, key, text)
    case Success(plaintext) => Success(plaintext)
    case Failure(_) => Failure(DecryptionFailed)
  }

  /** Every plaintext, the empty one included, survives the round trip. */
  lemma RoundTrip(c: Gcm.Cipher, fromHex: Hex.Decoder, key: Gcm.Key, iv: Bytes, text: Bytes)
    requires Hex.Agrees(fromHex)
    requires |iv| == IvLength
    ensures Decrypt(c, fromHex, key, Encrypt(c, key, iv, text)) == Success(text)
  {
    var fields := Envelope.Split(Encrypt(c, key, iv, text));
    assert fromHex(fields[0]) == Hex.Decode(fields[0]);
    assert fromHex(fields[1]) == Hex.Decode(fields[1]);
    assert fromHex(fields[2]) == Hex.Decode(fields[2]);
  }

  /** Only authentic envelopes decrypt: when the segments are well-formed hex
      and `decrypt` yields `p`, the first three segments are exactly the
      envelope that sealing `p` under the decoded IV produces. Unlike
      crypto-utils.js, `p` may be empty. */
  lemma OnlyAuthenticDecrypts(c: Gcm.Cipher, fromHex: Hex.Decoder, key: Gcm.Key, text: string, p: Bytes)
    requires Hex.Agrees(fromHex)
    requires Envelope.HexFields(text)
    requires Decrypt(c, fromHex, key, text) == Success(p)
    ensures var fields := Envelope.Split(text);
      var iv := Hex.Decode(fields[0]);
      && |iv| > 0
      && Envelope.Join(fields[..3])
         == Envelope.Format(iv, Gcm.Seal(c, key, iv, p).tag, Gcm.Seal(c, key, iv, p).ciphertext)
  {
    var fields := Envelope.Split(text);
    var iv, tag, ciphertext := Hex.Decode(fields[0]), Hex.Decode(fields[1]), Hex.Decode(fields[2]);
    assert fromHex(fields[0]) == iv && fromHex(fields[1]) == tag && fromHex(fields[2]) == ciphertext;
    assert Gcm.Open(c, key, iv, ciphertext, tag) == Some(p);
    var s := Envelope.Format(iv, tag, ciphertext);
    assert Envelope.Join(Envelope.Split(s)) == s;
    assert fields[..3] == [fields[0], fields[1], fields[2]];
  }

  /** Replacing the tag of a genuine envelope by any other byte string, the
      empty one included, makes `decrypt` fail with the generic error. */
  lemma TamperedTagRejected(c: Gcm.Cipher, fromHex: Hex.Decoder, key: Gcm.Key, iv: Bytes, text: Bytes, tag: Bytes)
    requires Hex.Agrees(fromHex)
    requires |iv| == IvLength
    requires tag != Gcm.Seal(c, key, iv, text).tag
    ensures Decrypt(c, fromHex, key, Envelope.Format(iv, tag, Gcm.Seal(c, key, iv, text).ciphertext))
            == Failure(DecryptionFailed)
  {
    var ciphertext := Gcm.Seal(c, key, iv, text).ciphertext;
    var fields := Envelope.Split(Envelope.Format(iv, tag, ciphertext));
    Hex.DecodeEncode(iv);
    Hex.DecodeEncode(tag);
    Hex.DecodeEncode(ciphertext);
    assert fromHex(fields[0]) == iv && fromHex(fields[1]) == tag && fromHex(fields[2]) == ciphertext;
  }

  /** An empty IV segment reaches the cipher as a zero-length IV, which GCM
      refuses. */
  lemma EmptyIvRejected(c: Gcm.Cipher, fromHex: Hex.Decoder, key: Gcm.Key, rest: string)
    requires Hex.Agrees(fromHex)
    ensures Decrypt(c, fromHex, key, [Envelope.Sep] + rest) == Failure(DecryptionFailed)
  {
    var text := [Envelope.Sep] + rest;
    var fields := Envelope.Split(text);
    assert text[1..] == rest;
    assert fields[0] == "";
    assert fromHex("") == Hex.Decode("") == [];
  }

  /** Fields after the third are ignored. */
  lemma ExtraFieldsIgnored(c: Gcm.Cipher, fromHex: Hex.Decoder, key: Gcm.Key, fields: seq<string>)
    requires |fields| >= 3
    requires Envelope.NoSep(fields)
    ensures Decrypt(c, fromHex, key, Envelope.Join(fields)) == Decrypt(c, fromHex, key, Envelope.Join(fields[..3]))
  {
    var long, short := Envelope.Join(fields), Envelope.Join(fields[..3]);
    Envelope.SplitJoin(fields);
    Envelope.SplitJoin(fields[..3]);
    assert Attempt(c, fromHex, key, long) == Unpack(c, fromHex, key, fields);
    assert Attempt(c, fromHex, key, short) == Unpack(c, fromHex, key, fields[..3]);
    UnpackReadsThree(c, fromHex, key, fields);
  }

  lemma UnpackReadsThree(c: Gcm.Cipher, fromHex: Hex.Decoder, key: Gcm.Key, fields: seq<string>)
    requires |fields| >= 3
    ensures Unpack(c, fromHex, key, fields) == Unpack(c, fromHex, key, fields[..3])
  {
    var prefix := fields[..3];
    assert prefix[0] == fields[0] && prefix[1] == fields[1] && prefix[2] == fields[2];
  }

  /** A missing-field failure and an authentication failure are
      indistinguishable to the caller. */
  lemma FailuresIndistinguishable(c: Gcm.Cipher, fromHex: Hex.Decoder, key: Gcm.Key, malformed: string, forged: string)
    requires Attempt(c, fromHex, key, malformed) == Failure(UndefinedField)
    requires Attempt(c, fromHex, key, forged) == Failure(NotAuthentic)
    ensures Decrypt(c, fromHex, key, malformed) == Decrypt(c, fromHex, key, forged) == Failure(DecryptionFailed)
  {
  }
}
