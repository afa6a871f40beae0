/** crypto-utils.js: the exported `encrypt`/`decrypt` pair over a key derived
    at load time from `SECRET_KEY` and `SALT`. The random IV of each `encrypt`
    call is a parameter, and Node's hex reader is the `fromHex` parameter. */
module CryptoUtils {
  import opened Wrappers
  import opened Octets
  import Hex
  import Envelope
  import Gcm
  import Kdf

  /** IV length for AES-GCM, in bytes. */
  const IvLength: nat := 12

  /** Key length for AES-256, in bytes. */
  const KeyLength: nat := 32

  /** The one error `decrypt` ever throws. */
  const DecryptionFailed: string := "Decryption failed or data is corrupted."

  /** `KEY = scryptSync(SECRET_KEY, SALT, KEY_LENGTH)`: loading the module
      fails unless both variables are defined; the key is as long as AES-256
      needs. */
  function DeriveKey(scrypt: Kdf.Scrypt, env: Kdf.Env): (r: Result<Gcm.Key, Kdf.ConfigError>)
    requires Kdf.Sized(scrypt)
    ensures r.Success? <==> env.secretKey.Some? && env.salt.Some?
    ensures env.secretKey.None? ==> r == Failure(Kdf.MissingSecretKey)
  {
    if env.secretKey.None? then Failure(Kdf.MissingSecretKey)
    else if env.salt.None? then Failure(Kdf.MissingSalt)
    else
      var key := scrypt(env.secretKey.value, env.salt.value, KeyLength);
      assert |key| == KeyLength == Gcm.KeySize;
      Success(key)
  }

  /** `encrypt`: three lower-case hex segments IV, tag, ciphertext; the IV
      segment is 24 digits, the tag 32, the ciphertext twice the plaintext
      length, and the segments decode to values that open to the plaintext. */
  function Encrypt(c: Gcm.Cipher, key: Gcm.Key, iv: Bytes, text: Bytes): (r: string)
    requires |iv| == IvLength
    ensures var fields := Envelope.Split(r);
      && |fields| == 3
      && |fields[0]| == 2 * IvLength
      && |fields[1]| == 2 * Gcm.TagSize
      && |fields[2]| == 2 * |text|
      && Hex.IsHex(fields[0]) && Hex.IsHex(fields[1]) && Hex.IsHex(fields[2])
      && Hex.Decode(fields[0]) == iv
      && Gcm.Open(c, key, iv, Hex.Decode(fields[2]), Hex.Decode(fields[1])) == Some(text)
  {
    var sealed := Gcm.Seal(c, key, iv, text);
    Hex.DecodeEncode(iv);
    Hex.DecodeEncode(sealed.tag);
    Hex.DecodeEncode(sealed.ciphertext);
    Gcm.OpenSeal(c, key, iv, text);
    Envelope.Format(iv, sealed.tag, sealed.ciphertext)
  }

  /** What the `try` block of `decrypt` can throw before it is caught. */
  datatype Fault = InvalidFormat | NotAuthentic

  /** The `try` block of `decrypt`: split, then `Unpack` the fields. */
  function Attempt(c: Gcm.Cipher, fromHex: Hex.Decoder, key: Gcm.Key, text: string): Result<Bytes, Fault>
  {
    Unpack(c, fromHex, key, Envelope.Split(text))
  }

  /** The rest of the `try` block, on the fields `[ivHex, tagHex, encryptedHex]`:
      refuse a missing or empty one, read the hex, and run authenticated
      decryption. */
  function Unpack(c: Gcm.Cipher, fromHex: Hex.Decoder, key: Gcm.Key, fields: seq<string>): Result<Bytes, Fault>
  {
    if |fields| < 3 || fields[0] == "" || fields[1] == "" || fields[2] == "" then
      Failure(InvalidFormat)
    else
      var iv := fromHex(fields[0]);
      var tag := fromHex(fields[1]);
      var ciphertext := fromHex(fields[2]);
      match Gcm.Open(c, key, iv, ciphertext, tag)
      case None => Failure(NotAuthentic)
      case Some(plaintext) => Success(plaintext)
  }

  /** `decrypt`: every failure is rethrown as the one generic error; input
      with fewer than two separators, or with an empty IV segment, fails. */
  function Decrypt(c: Gcm.Cipher, fromHex: Hex.Decoder, key: Gcm.Key, text: string): (r: Result<Bytes, string>)
    ensures r.Failure? ==> r.error == DecryptionFailed
    ensures Envelope.Count(text) < 2 ==> r.Failure?
    ensures |text| == 0 || text[0] == Envelope.Sep ==> r.Failure?
  {
    match Attempt(c, fromHex, key, text)
    case Success(plaintext) => Success(plaintext)
    case Failure(_) => Failure(DecryptionFailed)
  }

  /** The round trip succeeds exactly for non-empty plaintexts. */
  lemma RoundTrip(c: Gcm.Cipher, fromHex: Hex.Decoder, key: Gcm.Key, iv: Bytes, text: Bytes)
    requires Hex.Agrees(fromHex)
    requires |iv| == IvLength
    ensures Decrypt(c, fromHex, key, Encrypt(c, key, iv, text)) == Success(text) <==> |text| > 0
  {
    var fields := Envelope.Split(Encrypt(c, key, iv, text));
    if |text| > 0 {
      assert fromHex(fields[0]) == Hex.Decode(fields[0]);
      assert fromHex(fields[1]) == Hex.Decode(fields[1]);
      assert fromHex(fields[2]) == Hex.Decode(fields[2]);
    } else {
      assert fields[2] == "";
    }
  }

  /** The empty plaintext encrypts to an envelope whose ciphertext segment is
      empty, and `decrypt` refuses it. */
  lemma EmptyTextRejected(c: Gcm.Cipher, fromHex: Hex.Decoder, key: Gcm.Key, iv: Bytes)
    requires |iv| == IvLength
    ensures Decrypt(c, fromHex, key, Encrypt(c, key, iv, [])) == Failure(DecryptionFailed)
  {
    assert Envelope.Split(Encrypt(c, key, iv, []))[2] == "";
  }

  /** An empty IV, tag or ciphertext segment is refused, whatever follows it. */
  lemma EmptySegmentRejected(c: Gcm.Cipher, fromHex: Hex.Decoder, key: Gcm.Key, fields: seq<string>)
    requires |fields| >= 3
    requires Envelope.NoSep(fields)
    requires fields[0] == "" || fields[1] == "" || fields[2] == ""
    ensures Decrypt(c, fromHex, key, Envelope.Join(fields)) == Failure(DecryptionFailed)
  {
    Envelope.SplitJoin(fields);
    assert Attempt(c, fromHex, key, Envelope.Join(fields)) == Failure(InvalidFormat);
  }

  /** Fields after the third are ignored. */
  lemma ExtraFieldsIgnored(c: Gcm.Cipher, fromHex: Hex.Decoder, key: Gcm.Key, fields: seq<string>)
    requires |fields| >= 3
    requires Envelope.NoSep(fields)
    ensures Decrypt(c, fromHex, key, Envelope.Join(fields)) == Decrypt(c, fromHex, key, Envelope.Join(fields[..3]))
  {
    var long, short := Envelope.Join(fields), Envelope.Join(fields[..3]);
    Envelope.SplitJoin(fields);
    Envelope.SplitJoin(fields[..3]);
    assert Attempt(c, fromHex, key, long) == Unpack(c, fromHex, key, fields);
    assert Attempt(c, fromHex, key, short) == Unpack(c, fromHex, key, fields[..3]);
    UnpackReadsThree(c, fromHex, key, fields);
  }

  lemma UnpackReadsThree(c: Gcm.Cipher, fromHex: Hex.Decoder, key: Gcm.Key, fields: seq<string>)
    requires |fields| >= 3
    ensures Unpack(c, fromHex, key, fields) == Unpack(c, fromHex, key, fields[..3])
  {
    var prefix := fields[..3];
    assert prefix[0] == fields[0] && prefix[1] == fields[1] && prefix[2] == fields[2];
  }

  /** Only authentic envelopes decrypt: when the segments are well-formed hex
      and `decrypt` yields `p`, the first three segments are exactly the
      envelope that sealing `p` under the decoded IV produces, and `p` is not
      empty. */
  lemma OnlyAuthenticDecrypts(c: Gcm.Cipher, fromHex: Hex.Decoder, key: Gcm.Key, text: string, p: Bytes)
    requires Hex.Agrees(fromHex)
    requires Envelope.HexFields(text)
    requires Decrypt(c, fromHex, key, text) == Success(p)
    ensures var fields := Envelope.Split(text);
      var iv := Hex.Decode(fields[0]);
      && |p| > 0
      && |iv| > 0
      && Envelope.Join(fields[..3])
         == Envelope.Format(iv, Gcm.Seal(c, key, iv, p).tag, Gcm.Seal(c, key, iv, p).ciphertext)
  {
    var fields := Envelope.Split(text);
    var iv, tag, ciphertext := Hex.Decode(fields[0]), Hex.Decode(fields[1]), Hex.Decode(fields[2]);
    assert fromHex(fields[0]) == iv && fromHex(fields[1]) == tag && fromHex(fields[2]) == ciphertext;
    assert Gcm.Open(c, key, iv, ciphertext, tag) == Some(p);
    var s := Envelope.Format(iv, tag, ciphertext);
    assert Envelope.Join(Envelope.Split(s)) == s;
    assert fields[..3] == [fields[0], fields[1], fields[2]];
  }

  /** Replacing the tag of a genuine envelope makes `decrypt` fail with the
      generic error, whether the new tag segment is empty (a format failure)
      or merely wrong (an authentication failure). */
  lemma TamperedTagRejected(c: Gcm.Cipher, fromHex: Hex.Decoder, key: Gcm.Key, iv: Bytes, text: Bytes, tag: Bytes)
    requires Hex.Agrees(fromHex)
    requires |iv| == IvLength
    requires tag != Gcm.Seal(c, key, iv, text).tag
    ensures Decrypt(c, fromHex, key, Envelope.Format(iv, tag, Gcm.Seal(c, key, iv, text).ciphertext))
            == Failure(DecryptionFailed)
  {
    var ciphertext := Gcm.Seal(c, key, iv, text).ciphertext;
    var fields := Envelope.Split(Envelope.Format(iv, tag, ciphertext));
    Hex.DecodeEncode(iv);
    Hex.DecodeEncode(tag);
    Hex.DecodeEncode(ciphertext);
    assert fromHex(fields[0]) == iv && fromHex(fields[1]) == tag && fromHex(fields[2]) == ciphertext;
  }

  /** A format failure and an authentication failure are indistinguishable to
      the caller. */
  lemma FailuresIndistinguishable(c: Gcm.Cipher, fromHex: Hex.Decoder, key: Gcm.Key, malformed: string, forged: string)
    requires Attempt(c, fromHex, key, malformed) == Failure(InvalidFormat)
    requires Attempt(c, fromHex, key, forged) == Failure(NotAuthentic)
    ensures Decrypt(c, fromHex, key, malformed) == Decrypt(c, fromHex, key, forged) == Failure(DecryptionFailed)
  {
  }

  /** `decrypt` as evidently intended: the format check refuses a missing
      segment or an empty IV or tag segment, but lets an empty ciphertext
      segment through, since the empty plaintext encrypts to one. */
  function DecryptCorrected(c: Gcm.Cipher, fromHex: Hex.Decoder, key: Gcm.Key, text: string): (r: Result<Bytes, string>)
    ensures r.Failure? ==> r.error == DecryptionFailed
    ensures Envelope.Count(text) < 2 ==> r.Failure?
    ensures |text| == 0 || text[0] == Envelope.Sep ==> r.Failure?
  {
    var fields := Envelope.Split(text);
    if |fields| < 3 || fields[0] == "" || fields[1] == "" then Failure(DecryptionFailed)
    else
      match Gcm.Open(c, key, fromHex(fields[0]), fromHex(fields[2]), fromHex(fields[1]))
      case None => Failure(DecryptionFailed)
      case Some(plaintext) => Success(plaintext)
  }

  /** With the corrected check every plaintext, the empty one included,
      survives the round trip. */
  lemma RoundTripCorrected(c: Gcm.Cipher, fromHex: Hex.Decoder, key: Gcm.Key, iv: Bytes, text: Bytes)
    requires Hex.Agrees(fromHex)
    requires |iv| == IvLength
    ensures DecryptCorrected(c, fromHex, key, Encrypt(c, key, iv, text)) == Success(text)
  {
    var envelope := Encrypt(c, key, iv, text);
    var fields := Envelope.Split(envelope);
    assert fromHex(fields[0]) == Hex.Decode(fields[0]);
    assert fromHex(fields[1]) == Hex.Decode(fields[1]);
    assert fromHex(fields[2]) == Hex.Decode(fields[2]);
  }

  /** The correction changes nothing for input whose ciphertext segment is
      present and non-empty. */
  lemma CorrectedAgreesOnNonEmptyCiphertext(c: Gcm.Cipher, fromHex: Hex.Decoder, key: Gcm.Key, text: string)
    requires |Envelope.Split(text)| >= 3 && Envelope.Split(text)[2] != ""
    ensures DecryptCorrected(c, fromHex, key, text) == Decrypt(c, fromHex, key, text)
  {
    assert Attempt(c, fromHex, key, text) == Unpack(c, fromHex, key, Envelope.Split(text));
  }
}
