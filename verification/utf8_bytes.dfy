/** UTF-8 encoding of strings, as section 3 of RFC 3629 defines it. It stands
    for the `utf8-bytes` package that the item identifier uses to turn a binary
    attribute given as a string into bytes. */
module Utf8Bytes {
  import opened JsRuntime

  /** The UTF-8 bytes of one Unicode scalar value: one byte below U+0080, two
      below U+0800, three below U+10000 and four above. */
  function EncodeChar(c: char): (r: seq<uint8>)
    ensures |r| == (if c as int < 0x80 then 1 else if c as int < 0x800 then 2
                    else if c as int < 0x10000 then 3 else 4)
    ensures c as int < 0x80 ==> r == [c as int]
  {
    var v := c as int;
    if v < 0x80 then [v]
    else
      var v1, d := v / 0x40, v % 0x40;
      if v < 0x800 then [0xC0 + v1, 0x80 + d]
      else
        var v2, c1 := v1 / 0x40, v1 % 0x40;
        if v < 0x10000 then [0xE0 + v2, 0x80 + c1, 0x80 + d]
        else [0xF0 + v2 / 0x40, 0x80 + v2 % 0x40, 0x80 + c1, 0x80 + d]
  }

  /** The UTF-8 bytes of a string. */
  function Encode(s: string): (r: seq<uint8>)
    ensures |s| <= |r| <= 4 * |s|
  {
    if s == [] then [] else EncodeChar(s[0]) + Encode(s[1..])
  }

  /** The scalar value whose encoding starts the well-formed UTF-8 sequence b,
      and the number of bytes it takes. */
  function DecodeFirst(b: seq<uint8>): (r: (int, nat))
    requires b != []
    ensures 1 <= r.1 <= 4
  {
    var b0 := b[0];
    if b0 < 0x80 then (b0, 1)
    else if b0 < 0xE0 then
      if |b| < 2 then (0, 1) else ((b0 - 0xC0) * 0x40 + (b[1] - 0x80), 2)
    else if b0 < 0xF0 then
      if |b| < 3 then (0, 1)
      else ((b0 - 0xE0) * 0x1000 + (b[1] - 0x80) * 0x40 + (b[2] - 0x80), 3)
    else
      if |b| < 4 then (0, 1)
      else ((b0 - 0xF0) * 0x40000 + (b[1] - 0x80) * 0x1000 + (b[2] - 0x80) * 0x40 + (b[3] - 0x80), 4)
  }

  /** The scalar values a well-formed UTF-8 byte sequence encodes. */
  function Decode(b: seq<uint8>): seq<int>
    decreases |b|
  {
    if b == [] then []
    else
      var (v, n) := DecodeFirst(b);
      if n <= |b| then [v] + Decode(b[n..]) else [v]
  }

  function ScalarValues(s: string): (r: seq<int>)
    ensures |r| == |s|
  {
    seq(|s|, i requires 0 <= i < |s| => s[i] as int)
  }

  lemma DecodeFirstOfEncodeChar(c: char, rest: seq<uint8>)
    ensures DecodeFirst(EncodeChar(c) + rest) == (c as int, |EncodeChar(c)|)
  {
    var v := c as int;
    var b := EncodeChar(c) + rest;
    var v1, d := v / 0x40, v % 0x40;
    var v2, c1 := v1 / 0x40, v1 % 0x40;
    assert v == v1 * 0x40 + d && v1 == v2 * 0x40 + c1;
    assert v2 == (v2 / 0x40) * 0x40 + v2 % 0x40;
    if v < 0x80 {
    } else if v < 0x800 {
      assert b[0] == 0xC0 + v1 && b[1] == 0x80 + d;
    } else if v < 0x10000 {
      assert b[0] == 0xE0 + v2 && b[1] == 0x80 + c1 && b[2] == 0x80 + d;
    } else {
      assert b[0] == 0xF0 + v2 / 0x40 && b[1] == 0x80 + v2 % 0x40;
      assert b[2] == 0x80 + c1 && b[3] == 0x80 + d;
    }
  }

  /** Decoding the encoding of a string gives back its scalar values, so two
      strings with the same UTF-8 bytes are the same string. */
  lemma {:induction false} DecodeEncode(s: string)
    ensures Decode(Encode(s)) == ScalarValues(s)
  {
    if s != [] {
      var e := EncodeChar(s[0]);
      DecodeFirstOfEncodeChar(s[0], Encode(s[1..]));
      assert (e + Encode(s[1..]))[|e|..] == Encode(s[1..]);
      DecodeEncode(s[1..]);
    }
  }
}
