/** The UTF-8 codecs for Basic Multilingual Plane strings in main_mcu/src/utils.c:301-504,
    compared with section 3 of RFC 3629.

    An address into a C buffer is an array and an index. */
module Utf8 {

  type codepoint = bv16

  // ---------------------------------------------------------------- one code point

  function Encode(c: codepoint): seq<bv8> {
    if c <= 0x7F then [c as bv8]
    else if c <= 0x07FF then
      [(((c >> 6) & 0x1F) | 0xC0) as bv8, ((c & 0x3F) | 0x80) as bv8]
    else
      [(((c >> 12) & 0x0F) | 0xE0) as bv8, (((c >> 6) & 0x3F) | 0x80) as bv8, ((c & 0x3F) | 0x80) as bv8]
  }

  datatype Decoded = Point(size: nat, c: codepoint) | Invalid

  /** How many bytes the decoder reads for a first byte. */
  function Reads(first: bv8): nat {
    if 0xC0 <= first < 0xE0 then 2 else if 0xE0 <= first < 0xF0 then 3 else 1
  }

  function Tail(high: codepoint, b: bv8): codepoint {
    (high << 6) | ((b & 0x3F) as bv16)
  }

  function DecodeBytes(b: seq<bv8>): Decoded
    requires |b| > 0 && |b| >= Reads(b[0])
  {
    if b[0] < 0x80 then Point(1, b[0] as bv16)
    else if b[0] < 0xC0 || b[0] >= 0xF0 then Invalid
    else if b[0] < 0xE0 then Point(2, Tail((b[0] ^ 0xC0) as bv16, b[1]))
    else Point(3, Tail(Tail((b[0] ^ 0xE0) as bv16, b[1]), b[2]))
  }

  /** What the decoder refuses, by the first byte alone: a tail byte, and whatever begins a
      sequence of four bytes or more. */
  lemma InvalidIff(b: seq<bv8>)
    requires |b| > 0 && |b| >= Reads(b[0])
    ensures DecodeBytes(b).Invalid? <==> 0x80 <= b[0] < 0xC0 || b[0] >= 0xF0
  {
  }

  /** Section 3 of RFC 3629, restricted to the plane: the grammar of UTF8-1, UTF8-2, UTF8-3. */
  predicate IsTail(b: bv8) { 0x80 <= b <= 0xBF }

  predicate WellFormed(b: seq<bv8>) {
    || (|b| == 1 && b[0] <= 0x7F)
    || (|b| == 2 && 0xC2 <= b[0] <= 0xDF && IsTail(b[1]))
    || (|b| == 3 && IsTail(b[2]) &&
          ( (b[0] == 0xE0 && 0xA0 <= b[1] <= 0xBF)
         || (0xE1 <= b[0] <= 0xEC && IsTail(b[1]))
         || (b[0] == 0xED && 0x80 <= b[1] <= 0x9F)
         || (0xEE <= b[0] <= 0xEF && IsTail(b[1]))))
  }

  predicate IsSurrogate(c: codepoint) { 0xD800 <= c <= 0xDFFF }

  /** The three-byte forms the RFC forbids because they stand for surrogates. */
  predicate SurrogateForm(b: seq<bv8>) {
    |b| == 3 && b[0] == 0xED && 0xA0 <= b[1] <= 0xBF && IsTail(b[2])
  }

  lemma TwoBytes(c: codepoint)
    requires 0x7F < c <= 0x07FF
    ensures var x, y := (((c >> 6) & 0x1F) | 0xC0) as bv8, ((c & 0x3F) | 0x80) as bv8;
            0xC0 <= x < 0xE0 && Tail((x ^ 0xC0) as bv16, y) == c
  {
  }

  lemma ThreeBytes(c: codepoint)
    requires 0x07FF < c
    ensures var x, y := (((c >> 12) & 0x0F) | 0xE0) as bv8, (((c >> 6) & 0x3F) | 0x80) as bv8;
            var z := ((c & 0x3F) | 0x80) as bv8;
            0xE0 <= x < 0xF0 && Tail(Tail((x ^ 0xE0) as bv16, y), z) == c
  {
  }

  lemma EncodeLeads(c: codepoint)
    ensures Reads(Encode(c)[0]) == |Encode(c)|
    ensures DecodeBytes(Encode(c)) == Point(|Encode(c)|, c)
  {
    hide Tail;
    if c <= 0x7F {
    } else if c <= 0x07FF {
      TwoBytes(c);
    } else {
      ThreeBytes(c);
    }
  }

  /** Decoding reads only the bytes it counts. */
  lemma DecodePrefix(b: seq<bv8>, rest: seq<bv8>)
    requires |b| > 0 && |b| >= Reads(b[0])
    ensures DecodeBytes(b + rest) == DecodeBytes(b)
  {
  }

  lemma DecodeInvertsEncode(c: codepoint, rest: seq<bv8>)
    ensures Reads((Encode(c) + rest)[0]) == |Encode(c)|
    ensures DecodeBytes(Encode(c) + rest) == Point(|Encode(c)|, c)
  {
    EncodeLeads(c);
    DecodePrefix(Encode(c), rest);
    assert (Encode(c) + rest)[0] == Encode(c)[0];
  }

  /** The encoder follows the RFC except that it also encodes surrogates. */
  lemma EncodesPerRfc(c: codepoint)
    ensures WellFormed(Encode(c)) <==> !IsSurrogate(c)
    ensures SurrogateForm(Encode(c)) <==> IsSurrogate(c)
  {
  }

  lemma ReEncodesOne(x: bv8)
    requires x < 0x80
    ensures Encode(x as bv16) == [x]
  {
  }

  lemma ReEncodesTwo(x: bv8, y: bv8)
    requires 0xC0 <= x < 0xE0
    ensures Encode(Tail((x ^ 0xC0) as bv16, y)) == [x, y] <==> x >= 0xC2 && IsTail(y)
  {
  }

  lemma ThreeByteParts(x: bv8, y: bv8, z: bv8)
    requires 0xE0 <= x < 0xF0
    ensures var c := Tail(Tail((x ^ 0xE0) as bv16, y), z);
            && (((c >> 12) & 0x0F) | 0xE0) as bv8 == x
            && (((c >> 6) & 0x3F) | 0x80) as bv8 == (y & 0x3F) | 0x80
            && ((c & 0x3F) | 0x80) as bv8 == (z & 0x3F) | 0x80
            && (c > 0x07FF <==> x > 0xE0 || y & 0x3F >= 0x20)
  {
  }

  lemma ReEncodesThree(x: bv8, y: bv8, z: bv8)
    requires 0xE0 <= x < 0xF0
    ensures Encode(Tail(Tail((x ^ 0xE0) as bv16, y), z)) == [x, y, z]
       <==> IsTail(y) && IsTail(z) && (x == 0xE0 ==> y >= 0xA0)
  {
    var c := Tail(Tail((x ^ 0xE0) as bv16, y), z);
    ThreeByteParts(x, y, z);
    if c <= 0x07FF {
      assert |Encode(c)| <= 2;
    }
  }

  /** The decoder accepts byte sequences the RFC forbids; a sequence it accepts encodes back to
      itself exactly when it is well formed or stands for a surrogate. */
  lemma ReEncodes(b: seq<bv8>)
    requires |b| > 0 && |b| == Reads(b[0]) && DecodeBytes(b).Point?
    ensures Encode(DecodeBytes(b).c) == b <==> WellFormed(b) || SurrogateForm(b)
  {
    hide Tail, Encode;
    if |b| == 1 {
      ReEncodesOne(b[0]);
    } else if |b| == 2 {
      assert b == [b[0], b[1]];
      ReEncodesTwo(b[0], b[1]);
    } else {
      assert b == [b[0], b[1], b[2]];
      ReEncodesThree(b[0], b[1], b[2]);
    }
  }
}
