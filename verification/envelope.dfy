/** The wire format shared by both encrypt/decrypt pairs: three hex segments,
    IV, auth tag and ciphertext, joined by ':'; and JavaScript's
    `String.prototype.split` on that separator, which takes them apart. */
module Envelope {
  import opened Octets
  import Hex

  const Sep: char := ':'

  /** Number of separators in `s`. */
  function Count(s: string): (n: nat)
    ensures n <= |s|
  {
    if |s| == 0 then 0 else (if s[0] == Sep then 1 else 0) + Count(s[1..])
  }

  /** The fields of `fields` with one separator between neighbours. */
  function Join(fields: seq<string>): string
  {
    if |fields| == 0 then ""
    else if |fields| == 1 then fields[0]
    else fields[0] + [Sep] + Join(fields[1..])
  }

  predicate NoSep(fields: seq<string>) {
    forall i :: 0 <= i < |fields| ==> Sep !in fields[i]
  }

  /** `s.split(':')`: always at least one field (the empty string splits into
      one empty field), one more field than there are separators, no field
      holds a separator, and joining the fields gives back `s`. */
  function Split(s: string): (fields: seq<string>)
    ensures |fields| == Count(s) + 1
    ensures NoSep(fields)
    ensures Join(fields) == s
  {
    if |s| == 0 then [""]
    else
      var tail := Split(s[1..]);
      if s[0] == Sep then
        assert s == [Sep] + s[1..];
        [""] + tail
      else
        var fields := [[s[0]] + tail[0]] + tail[1..];
        assert Join(tail) == tail[0] + (if |tail| == 1 then "" else [Sep] + Join(tail[1..]));
        assert s == [s[0]] + s[1..];
        fields
  }

  lemma {:induction false} SplitSingle(x: string)
    requires Sep !in x
    ensures Split(x) == [x]
    decreases |x|
  {
    if |x| > 0 {
      SplitSingle(x[1..]);
      assert x == [x[0]] + x[1..];
    }
  }

  lemma {:induction false} SplitFirst(x: string, rest: string)
    requires Sep !in x
    ensures Split(x + [Sep] + rest) == [x] + Split(rest)
    decreases |x|
  {
    var s := x + [Sep] + rest;
    if |x| == 0 {
      assert s[1..] == rest;
    } else {
      assert s[1..] == x[1..] + [Sep] + rest;
      SplitFirst(x[1..], rest);
      assert x == [x[0]] + x[1..];
    }
  }

  /** Splitting undoes joining, for fields free of separators: with `Split`'s
      own postcondition, `Split` and `Join` are inverse bijections between
      strings and non-empty separator-free field lists. */
  lemma {:induction false} SplitJoin(fields: seq<string>)
    requires |fields| >= 1
    requires NoSep(fields)
    ensures Split(Join(fields)) == fields
  {
    if |fields| == 1 {
      SplitSingle(fields[0]);
    } else {
      SplitJoin(fields[1..]);
      SplitFirst(fields[0], Join(fields[1..]));
      assert fields == [fields[0]] + fields[1..];
    }
  }

  /** The envelope string built by both `encrypt` functions. */
  function Format(iv: Bytes, tag: Bytes, ciphertext: Bytes): (s: string)
    ensures Split(s) == [Hex.Encode(iv), Hex.Encode(tag), Hex.Encode(ciphertext)]
    ensures |s| == 2 * (|iv| + |tag| + |ciphertext|) + 2
  {
    var fields := [Hex.Encode(iv), Hex.Encode(tag), Hex.Encode(ciphertext)];
    var s := Hex.Encode(iv) + [Sep] + Hex.Encode(tag) + [Sep] + Hex.Encode(ciphertext);
    assert Join(fields[2..]) == Hex.Encode(ciphertext);
    assert Join(fields[1..]) == Hex.Encode(tag) + [Sep] + Hex.Encode(ciphertext);
    assert s == Join(fields);
    SplitJoin(fields);
    s
  }

  /** The first three fields of `s` are well-formed hex. */
  predicate HexFields(s: string) {
    var fields := Split(s);
    |fields| >= 3 && Hex.IsHex(fields[0]) && Hex.IsHex(fields[1]) && Hex.IsHex(fields[2])
  }
}
