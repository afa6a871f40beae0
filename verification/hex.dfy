/** Lower-case base16 (section 8 of RFC 4648, written in lower case as Node's
    `buf.toString('hex')` does): every byte becomes two digits, high nibble first. */
module Hex {
  import opened Octets

  predicate IsDigit(ch: char) {
    '0' <= ch <= '9' || 'a' <= ch <= 'f'
  }

  /** A well-formed hex string: even length, lower-case digits only. */
  predicate IsHex(s: string) {
    |s| % 2 == 0 && forall i :: 0 <= i < |s| ==> IsDigit(s[i])
  }

  function DigitValue(ch: char): (v: nat)
    requires IsDigit(ch)
    ensures v < 16
  {
    if ch <= '9' then ch as nat - '0' as nat else ch as nat - 'a' as nat + 10
  }

  /** The digit for a nibble; `DigitValue` undoes it. */
  function Digit(v: nat): (ch: char)
    requires v < 16
    ensures IsDigit(ch)
    ensures DigitValue(ch) == v
  {
    if v < 10 then ('0' as nat + v) as char else ('a' as nat + v - 10) as char
  }

  lemma DigitOfValue(ch: char)
    requires IsDigit(ch)
    ensures Digit(DigitValue(ch)) == ch
  {
  }

  function EncodeByte(b: Byte): (s: string)
    ensures |s| == 2 && IsDigit(s[0]) && IsDigit(s[1])
  {
    [Digit(b / 16), Digit(b % 16)]
  }

  function Encode(bs: Bytes): (s: string)
    ensures |s| == 2 * |bs|
    ensures IsHex(s)
    ensures ':' !in s
  {
    if |bs| == 0 then "" else EncodeByte(bs[0]) + Encode(bs[1..])
  }

  function DecodeByte(hi: char, lo: char): (b: Byte)
    requires IsDigit(hi) && IsDigit(lo)
    ensures EncodeByte(b) == [hi, lo]
  {
    var n := 16 * DigitValue(hi) + DigitValue(lo);
    NibbleSplit(DigitValue(hi), DigitValue(lo));
    DigitOfValue(hi);
    DigitOfValue(lo);
    n
  }

  lemma NibbleSplit(h: nat, l: nat)
    requires h < 16 && l < 16
    ensures (16 * h + l) / 16 == h && (16 * h + l) % 16 == l
  {
  }


  /** Decoding of well-formed input; other input is left unspecified (see `Agrees`). */
  function Decode(s: string): (bs: Bytes)
    requires IsHex(s)
    ensures 2 * |bs| == |s|
    ensures Encode(bs) == s
    decreases |s|
  {
    if |s| == 0 then [] else [DecodeByte(s[0], s[1])] + Decode(s[2..])
  }

  lemma EncodeByteInjective(a: Byte, b: Byte)
    requires EncodeByte(a) == EncodeByte(b)
    ensures a == b
  {
    assert DigitValue(EncodeByte(a)[0]) == a / 16;
    assert DigitValue(EncodeByte(a)[1]) == a % 16;
  }

  /** Distinct byte strings have distinct encodings. */
  lemma {:induction false} EncodeInjective(a: Bytes, b: Bytes)
    requires Encode(a) == Encode(b)
    ensures a == b
  {
    if |a| > 0 {
      assert |b| > 0;
      var ea, eb := Encode(a), Encode(b);
      assert ea[..2] == EncodeByte(a[0]) && eb[..2] == EncodeByte(b[0]);
      EncodeByteInjective(a[0], b[0]);
      assert ea[2..] == Encode(a[1..]) && eb[2..] == Encode(b[1..]);
      EncodeInjective(a[1..], b[1..]);
      assert a == [a[0]] + a[1..];
      assert b == [b[0]] + b[1..];
    }
  }

  /** The digit order: byte i is written as digits 2i and 2i+1, high nibble
      first. */
  lemma {:induction false} EncodeDigits(bs: Bytes)
    ensures forall i :: 0 <= i < |bs| ==>
              16 * DigitValue(Encode(bs)[2 * i]) + DigitValue(Encode(bs)[2 * i + 1]) == bs[i]
  {
    if |bs| > 0 {
      var s, tail := Encode(bs), Encode(bs[1..]);
      assert s == EncodeByte(bs[0]) + tail;
      EncodeDigits(bs[1..]);
      forall i | 0 <= i < |bs|
        ensures 16 * DigitValue(s[2 * i]) + DigitValue(s[2 * i + 1]) == bs[i]
      {
        if i > 0 {
          assert s[2 * i] == tail[2 * (i - 1)] && s[2 * i + 1] == tail[2 * (i - 1) + 1];
          assert bs[i] == bs[1..][i - 1];
        }
      }
    }
  }

  /** Decoding undoes encoding: the byte string round-trips through hex. */
  lemma DecodeEncode(bs: Bytes)
    ensures Decode(Encode(bs)) == bs
  {
    var s := Encode(bs);
    EncodeInjective(Decode(s), bs);
  }

  /** Node's `Buffer.from(s, 'hex')`: a decoder that agrees with `Decode` on
      well-formed input and says nothing about any other input. */
  type Decoder = string -> Bytes

  ghost predicate Agrees(fromHex: Decoder) {
    forall s {:trigger fromHex(s)} :: IsHex(s) ==> fromHex(s) == Decode(s)
  }
}
