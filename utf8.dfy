/** UTF-8 as the codec's null-terminated strings use it: a String is stored as its UTF-8
    bytes, and bytes read back become a String by lossy decoding, where every maximal
    invalid subpart is replaced by one U+FFFD. */
module Utf8 {
  import opened Types

  /** The bytes of one scalar value. */
  function EncodeChar(c: char): (bs: seq<uint8>)
    ensures 1 <= |bs| <= 4
    ensures |bs| == 1 <==> (c as int) < 0x80
    ensures c != '\0' ==> 0 !in bs
  {
    var n := c as int;
    if n < 0x80 then [n as uint8]
    else if n < 0x800 then [(0xC0 + n / 64) as uint8, (0x80 + n % 64) as uint8]
    else if n < 0x1_0000 then
      [(0xE0 + n / 4096) as uint8, (0x80 + (n / 64) % 64) as uint8, (0x80 + n % 64) as uint8]
    else
      [(0xF0 + n / 0x4_0000) as uint8, (0x80 + (n / 4096) % 64) as uint8,
       (0x80 + (n / 64) % 64) as uint8, (0x80 + n % 64) as uint8]
  }

  /** `String::into_bytes`: the UTF-8 encoding. */
  function Encode(s: string): (bs: seq<uint8>)
    ensures '\0' !in s ==> 0 !in bs
  {
    if s == [] then [] else EncodeChar(s[0]) + Encode(s[1..])
  }

  predicate IsContinuation(b: uint8)
  {
    0x80 <= b < 0xC0
  }

  /** The length of the sequence a lead byte starts; 0 for a byte that starts none. */
  function SequenceLength(b: uint8): nat
  {
    if b < 0x80 then 1
    else if 0xC2 <= b <= 0xDF then 2
    else if 0xE0 <= b <= 0xEF then 3
    else if 0xF0 <= b <= 0xF4 then 4
    else 0
  }

  /** The bytes allowed right after a lead byte: narrower after E0, ED, F0 and F4, which
      rules out overlong forms, surrogates and values above U+10FFFF. */
  predicate SecondOk(lead: uint8, b: uint8)
  {
    var lo := if lead == 0xE0 then 0xA0 else if lead == 0xF0 then 0x90 else 0x80;
    var hi := if lead == 0xED then 0x9F else if lead == 0xF4 then 0x8F else 0xBF;
    lo <= b <= hi
  }

  /** How many leading bytes of `bs` form a prefix of a well-formed sequence (0 when the
      first byte cannot start one). */
  function ValidPrefix(bs: seq<uint8>): (p: nat)
    requires bs != []
    ensures p <= SequenceLength(bs[0]) && p <= |bs|
    ensures SequenceLength(bs[0]) >= 1 ==> p >= 1
  {
    var len := SequenceLength(bs[0]);
    if len <= 1 then len
    else if |bs| < 2 || !SecondOk(bs[0], bs[1]) then 1
    else if len == 2 then 2
    else if |bs| < 3 || !IsContinuation(bs[2]) then 2
    else if len == 3 then 3
    else if |bs| < 4 || !IsContinuation(bs[3]) then 3
    else 4
  }

  /** The scalar value of one well-formed sequence. */
  function DecodeSequence(bs: seq<uint8>): char
    requires bs != [] && SequenceLength(bs[0]) >= 1 && |bs| >= SequenceLength(bs[0])
    requires ValidPrefix(bs) == SequenceLength(bs[0])
  {
    var b0 := bs[0] as int;
    match SequenceLength(bs[0])
    case 1 => b0 as char
    case 2 => ((b0 - 0xC0) * 64 + (bs[1] as int - 0x80)) as char
    case 3 =>
      var n := (b0 - 0xE0) * 4096 + (bs[1] as int - 0x80) * 64 + (bs[2] as int - 0x80);
      assert b0 == 0xED ==> n < 0xD800;
      n as char
    case 4 =>
      var n := (b0 - 0xF0) * 0x4_0000 + (bs[1] as int - 0x80) * 4096 + (bs[2] as int - 0x80) * 64 + (bs[3] as int - 0x80);
      assert n < 0x11_0000;
      n as char
  }

  /** `String::from_utf8_lossy`: well-formed sequences decode to their scalar values; a
      maximal prefix of a sequence that is cut short, or a byte that starts none, becomes
      one U+FFFD. */
  function Decode(bs: seq<uint8>): string
    decreases |bs|
  {
    if bs == [] then []
    else
      var len := SequenceLength(bs[0]);
      var p := ValidPrefix(bs);
      if len >= 1 && p == len then [DecodeSequence(bs[..len])] + Decode(bs[len..])
      else if p == 0 then ['\U{FFFD}'] + Decode(bs[1..])
      else ['\U{FFFD}'] + Decode(bs[p..])
  }

  /** Each encoded character is one well-formed sequence that decodes back to it. */
  lemma EncodeCharDecodes(c: char)
    ensures var bs := EncodeChar(c);
            SequenceLength(bs[0]) == |bs| && ValidPrefix(bs) == |bs| && DecodeSequence(bs) == c
  {
    var n := c as int;
    if n < 0x80 {
    } else if n < 0x800 {
      TwoByteDecodes(c);
    } else if n < 0x1_0000 {
      ThreeByteDecodes(c);
    } else {
      FourByteDecodes(c);
    }
  }

  lemma TwoByteDecodes(c: char)
    requires 0x80 <= c as int < 0x800
    ensures var bs := EncodeChar(c);
            SequenceLength(bs[0]) == |bs| && ValidPrefix(bs) == |bs| && DecodeSequence(bs) == c
  {
    var n := c as int;
    var bs := EncodeChar(c);
    assert bs[0] as int == 0xC0 + n / 64 && bs[1] as int == 0x80 + n % 64;
    assert (n / 64) * 64 + n % 64 == n;
  }

  lemma ThreeByteDecodes(c: char)
    requires 0x800 <= c as int < 0x1_0000
    ensures var bs := EncodeChar(c);
            SequenceLength(bs[0]) == |bs| && ValidPrefix(bs) == |bs| && DecodeSequence(bs) == c
  {
    var n := c as int;
    var bs := EncodeChar(c);
    var q := n / 64;
    assert bs[0] as int == 0xE0 + n / 4096 && bs[1] as int == 0x80 + q % 64 && bs[2] as int == 0x80 + n % 64;
    assert n / 4096 == q / 64;
    assert (q / 64) * 64 + q % 64 == q;
    assert q * 64 + n % 64 == n;
  }

  lemma FourByteDecodes(c: char)
    requires 0x1_0000 <= c as int
    ensures var bs := EncodeChar(c);
            SequenceLength(bs[0]) == |bs| && ValidPrefix(bs) == |bs| && DecodeSequence(bs) == c
  {
    var n := c as int;
    var bs := EncodeChar(c);
    var q := n / 64;
    var q2 := q / 64;
    assert bs[0] as int == 0xF0 + n / 0x4_0000 && bs[1] as int == 0x80 + q2 % 64 && bs[2] as int == 0x80 + q % 64 && bs[3] as int == 0x80 + n % 64;
    assert n / 4096 == q2 && n / 0x4_0000 == q2 / 64;
    assert (q2 / 64) * 64 + q2 % 64 == q2;
    assert q2 * 64 + q % 64 == q;
    assert q * 64 + n % 64 == n;
  }

  /** Decoding the encoding of a string gives the string back. */
  lemma {:induction false} DecodeEncode(s: string)
    ensures Decode(Encode(s)) == s
  {
    if s != [] {
      var head := EncodeChar(s[0]);
      var rest := Encode(s[1..]);
      var bs := head + rest;
      EncodeCharDecodes(s[0]);
      assert bs[..|head|] == head && bs[|head|..] == rest;
      assert ValidPrefix(bs) == ValidPrefix(head) by {
        assert bs[0] == head[0];
        assert forall i :: 0 <= i < |head| ==> bs[i] == head[i];
      }
      DecodeEncode(s[1..]);
    }
  }
}
