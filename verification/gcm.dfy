/** AES-256-GCM with no additional authenticated data, at the level of
    sections 7.1 (GCM-AE) and 7.2 (GCM-AD) of NIST SP 800-38D. The two parts
    that depend on the AES block cipher itself are left abstract as the fields
    of `Cipher`:
    - `keystream(K, IV, i)`: byte i of CIPH_K applied to the counter blocks
      that start at inc32(J0) (J0 being derived from IV), so that GCTR is an
      exclusive-or with it (section 6.5);
    - `mac(K, IV, C)`: the tag MSB_t(GCTR_K(J0, GHASH_H(C-block))) of
      section 7.1 steps 4-6, a 128-bit value determined by key, IV and
      ciphertext. */
module Gcm {
  import opened Wrappers
  import opened Octets

  /** AES-256 key size in bytes. */
  const KeySize: nat := 32

  /** Tag length in bytes (Node's default, t = 128). */
  const TagSize: nat := 16

  type Key = k: Bytes | |k| == KeySize witness seq(32, _ => 0)

  type Tag = t: Bytes | |t| == TagSize witness seq(16, _ => 0)

  datatype Cipher = Cipher(keystream: (Key, Bytes, nat) -> Byte, mac: (Key, Bytes, Bytes) -> Tag)

  /** GCTR from inc32(J0): exclusive-or with the keystream. */
  function Gctr(c: Cipher, key: Key, iv: Bytes, x: Bytes): (y: Bytes)
    ensures |y| == |x|
  {
    seq<Byte>(|x|, i requires 0 <= i < |x| => Xor(x[i], c.keystream(key, iv, i)))
  }

  /** GCTR is its own inverse under the same key and IV. */
  lemma GctrInvolution(c: Cipher, key: Key, iv: Bytes, x: Bytes)
    ensures Gctr(c, key, iv, Gctr(c, key, iv, x)) == x
  {
    var y := Gctr(c, key, iv, x);
    var z := Gctr(c, key, iv, y);
    forall i | 0 <= i < |x|
      ensures z[i] == x[i]
    {
      XorInvolution(x[i], c.keystream(key, iv, i));
    }
  }

  datatype Sealed = Sealed(ciphertext: Bytes, tag: Tag)

  /** GCM-AE (section 7.1) with empty additional data; a zero-length IV is not
      supported (section 5.2.1.1). */
  function Seal(c: Cipher, key: Key, iv: Bytes, plaintext: Bytes): (r: Sealed)
    requires |iv| > 0
    ensures |r.ciphertext| == |plaintext|
    ensures r.tag == c.mac(key, iv, r.ciphertext)
  {
    var ciphertext := Gctr(c, key, iv, plaintext);
    Sealed(ciphertext, c.mac(key, iv, ciphertext))
  }

  /** GCM-AD (section 7.2): FAIL for an unsupported (empty) IV or a tag that
      does not match the one recomputed from the ciphertext; otherwise the
      plaintext. */
  function Open(c: Cipher, key: Key, iv: Bytes, ciphertext: Bytes, tag: Bytes): (r: Option<Bytes>)
    ensures r.Some? <==> |iv| > 0 && tag == c.mac(key, iv, ciphertext)
    ensures r.Some? ==> Seal(c, key, iv, r.value) == Sealed(ciphertext, tag)
  {
    if |iv| == 0 || tag != c.mac(key, iv, ciphertext) then None
    else
      GctrInvolution(c, key, iv, ciphertext);
      Some(Gctr(c, key, iv, ciphertext))
  }

  /** Authenticated decryption inverts authenticated encryption. */
  lemma OpenSeal(c: Cipher, key: Key, iv: Bytes, plaintext: Bytes)
    requires |iv| > 0
    ensures var s := Seal(c, key, iv, plaintext);
            Open(c, key, iv, s.ciphertext, s.tag) == Some(plaintext)
  {
    GctrInvolution(c, key, iv, plaintext);
  }

  /** A tag other than the one sealed with the ciphertext is refused. */
  lemma OpenRejectsOtherTag(c: Cipher, key: Key, iv: Bytes, plaintext: Bytes, tag: Bytes)
    requires |iv| > 0
    requires tag != Seal(c, key, iv, plaintext).tag
    ensures Open(c, key, iv, Seal(c, key, iv, plaintext).ciphertext, tag) == None
  {
  }
}
