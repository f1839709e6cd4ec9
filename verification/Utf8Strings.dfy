/** The string conversions of main_mcu/src/utils.c over caller-supplied buffers. Return values
    and running totals are 16-bit signed in the source. */
module Utf8Strings {
  import opened Utf8

  function ToInt16(x: int): int {
    (x + 0x8000) % 0x1_0000 - 0x8000
  }

  /** The one signed 16-bit number that differs from x by a multiple of 65536. */
  lemma ToInt16Wraps(x: int)
    ensures -0x8000 <= ToInt16(x) <= 0x7FFF && exists k :: x == ToInt16(x) + 0x1_0000 * k
  {
    assert x == ToInt16(x) + 0x1_0000 * ((x + 0x8000) / 0x1_0000);
  }

  function EncodeAll(text: seq<codepoint>): seq<bv8> {
    if text == [] then [] else EncodeAll(text[..|text| - 1]) + Encode(text[|text| - 1])
  }

  lemma EncodeNothing()
    ensures EncodeAll([]) == []
  {
  }

  lemma EncodeAllAppend(text: seq<codepoint>, c: codepoint)
    ensures EncodeAll(text + [c]) == EncodeAll(text) + Encode(c)
  {
    hide Encode;
    assert (text + [c])[..|text|] == text;
  }

  lemma {:induction false} EncodeAllPrepend(c: codepoint, text: seq<codepoint>)
    ensures EncodeAll([c] + text) == Encode(c) + EncodeAll(text)
  {
    hide Encode, EncodeAll;
    EncodeNothing();
    if text == [] {
      EncodeAllAppend([], c);
      assert [c] + text == [] + [c];
    } else {
      var init, last := text[..|text| - 1], text[|text| - 1];
      EncodeAllPrepend(c, init);
      EncodeAllAppend(init, last);
      EncodeAllAppend([c] + init, last);
      assert init + [last] == text && [c] + init + [last] == [c] + text;
    }
  }

  lemma {:induction false} EncodeAllGrows(text: seq<codepoint>, k: nat)
    requires k <= |text|
    ensures |EncodeAll(text[..k])| <= |EncodeAll(text)|
    ensures k < |text| ==> |EncodeAll(text[..k])| < |EncodeAll(text)|
  {
    if k < |text| {
      var init := text[..|text| - 1];
      EncodeAllGrows(init, k);
      assert init[..k] == text[..k];
    } else {
      assert text[..k] == text;
    }
  }

  /** A zero-terminated string in a buffer. */
  ghost predicate Holds(bmp: seq<codepoint>, text: seq<codepoint>) {
    |text| < |bmp| && bmp[..|text|] == text && bmp[|text|] == 0 && 0 !in text
  }

  // ---------------------------------------------------------------- to UTF-8

  /** The number of leading code points whose encoding and a terminator fit into len bytes. */
  ghost predicate FitsExactly(text: seq<codepoint>, len: nat, k: nat) {
    && k <= |text|
    && (k > 0 ==> |EncodeAll(text[..k])| + 1 <= len)
    && (k < |text| ==> |EncodeAll(text[..k + 1])| + 1 > len)
  }

  /** What the buffer holds after k code points were written from its start. */
  ghost predicate Written(out: seq<bv8>, before: seq<bv8>, text: seq<codepoint>, k: nat)
    requires k <= |text| && |out| == |before|
  {
    var e := EncodeAll(text[..k]);
    if k == 0 then out == before
    else |e| + 1 <= |out| && out == e + [0] + before[|e| + 1..]
  }

  /** The encoding by its bytes. */
  lemma EncodeCases(c: codepoint)
    ensures c <= 0x7F ==> Encode(c) == [c as bv8]
    ensures 0x7F < c <= 0x07FF ==> Encode(c) == [(((c >> 6) & 0x1F) | 0xC0) as bv8, ((c & 0x3F) | 0x80) as bv8]
    ensures c > 0x07FF ==>
              Encode(c) == [(((c >> 12) & 0x0F) | 0xE0) as bv8, (((c >> 6) & 0x3F) | 0x80) as bv8,
                            ((c & 0x3F) | 0x80) as bv8]
  {
  }

  lemma StoredTwo(b: seq<bv8>, at: nat, x: bv8, y: bv8)
    requires at + 2 <= |b|
    ensures b[at := x][at + 1 := y] == b[..at] + [x, y] + b[at + 2..]
  {
  }

  lemma StoredThree(b: seq<bv8>, at: nat, x: bv8, y: bv8, z: bv8)
    requires at + 3 <= |b|
    ensures b[at := x][at + 1 := y][at + 2 := z] == b[..at] + [x, y, z] + b[at + 3..]
  {
  }

  lemma StoredFour(b: seq<bv8>, at: nat, x: bv8, y: bv8, z: bv8, w: bv8)
    requires at + 4 <= |b|
    ensures b[at := x][at + 1 := y][at + 2 := z][at + 3 := w] == b[..at] + [x, y, z, w] + b[at + 4..]
  {
  }

  /** utils_utf8_encode_bmp() at an index of a buffer. */
  method EncodeBmp(c: codepoint, out: array<bv8>, at: nat, maxWrites: nat) returns (r: int)
    requires at + maxWrites <= out.Length
    modifies out
    ensures r == if |Encode(c)| + 1 <= maxWrites then |Encode(c)| else -1
    ensures r < 0 ==> out[..] == old(out[..])
    ensures r >= 0 ==> out[..] == old(out[..at]) + Encode(c) + [0] + old(out[at + |Encode(c)| + 1..])
  {
    EncodeCases(c);
    hide Encode;
    ghost var was := out[..];
    if c <= 0x7F {
      if maxWrites >= 2 {
        out[at] := c as bv8;
        out[at + 1] := 0;
        StoredTwo(was, at, c as bv8, 0);
        return 1;
      }
    } else if c <= 0x07FF {
      if maxWrites >= 3 {
        var x, y := (((c >> 6) & 0x1F) | 0xC0) as bv8, ((c & 0x3F) | 0x80) as bv8;
        out[at] := x;
        out[at + 1] := y;
        out[at + 2] := 0;
        StoredThree(was, at, x, y, 0);
        return 2;
      }
    } else {
      if maxWrites >= 4 {
        var x, y := (((c >> 12) & 0x0F) | 0xE0) as bv8, (((c >> 6) & 0x3F) | 0x80) as bv8;
        var z := ((c & 0x3F) | 0x80) as bv8;
        out[at] := x;
        out[at + 1] := y;
        out[at + 2] := z;
        out[at + 3] := 0;
        StoredFour(was, at, x, y, z, 0);
        return 3;
      }
    }
    return -1;
  }

  /** The state before the i-th code point. */
  ghost predicate Progress(out: seq<bv8>, before: seq<bv8>, text: seq<codepoint>,
                           i: nat, at: nat, left: nat, len: nat) {
    && i <= |text| && |out| == |before| && at == |EncodeAll(text[..i])| && at + left == len
    && (i > 0 ==> at + 1 <= len) && Written(out, before, text, i)
  }

  lemma NothingWritten(before: seq<bv8>, text: seq<codepoint>, len: nat)
    ensures Progress(before, before, text, 0, 0, len, len)
  {
    assert text[..0] == [];
  }

  lemma EncodeNotEmpty(c: codepoint)
    ensures 1 <= |Encode(c)| <= 3
  {
  }

  lemma WriteOneMore(out: seq<bv8>, mid: seq<bv8>, before: seq<bv8>, text: seq<codepoint>, i: nat)
    requires i < |text| && |out| == |mid| == |before|
    requires Written(mid, before, text, i)
    requires EncodeAll(text[..i + 1]) == EncodeAll(text[..i]) + Encode(text[i])
    requires |EncodeAll(text[..i + 1])| + 1 <= |out|
    requires out == mid[..|EncodeAll(text[..i])|] + Encode(text[i]) + [0] + mid[|EncodeAll(text[..i + 1])| + 1..]
    ensures Written(out, before, text, i + 1)
  {
    hide Encode;
    var e, e' := EncodeAll(text[..i]), EncodeAll(text[..i + 1]);
    EncodeNotEmpty(text[i]);
    if i == 0 {
      assert e == [];
    } else {
      assert mid[..|e|] == e;
      assert mid[|e'| + 1..] == before[|e'| + 1..];
    }
    assert out == e' + [0] + before[|e'| + 1..];
  }

  /** One turn of the loop. */
  method EncodeNext(c: codepoint, out: array<bv8>, at: nat, left: nat,
                    ghost before: seq<bv8>, ghost text: seq<codepoint>, ghost i: nat, ghost len: nat)
    returns (written: int)
    requires i < |text| && c == text[i] && Progress(out[..], before, text, i, at, left, len) && len <= out.Length
    modifies out
    ensures written >= 0 ==>
              written <= left && Progress(out[..], before, text, i + 1, at + written, left - written, len)
    ensures written < 0 ==>
              written == -1 && FitsExactly(text, len, i) && |EncodeAll(text)| + 1 > len && out[..] == old(out[..])
  {
    hide Encode;
    assert text[..i + 1][..i] == text[..i] && text[..i + 1][i] == text[i];
    assert EncodeAll(text[..i + 1]) == EncodeAll(text[..i]) + Encode(text[i]);
    ghost var mid := out[..];
    written := EncodeBmp(c, out, at, left);
    if written < 0 {
      EncodeAllGrows(text, i + 1);
    } else {
      WriteOneMore(out[..], mid, before, text, i);
    }
  }

  /** utils_bmp_string_to_utf8_string(): writes the encoding and one zero byte if they fit,
      otherwise the longest prefix that fits; an empty string writes nothing at all. */
  method BmpToUtf8(bmp: seq<codepoint>, ghost text: seq<codepoint>, out: array<bv8>, len: nat) returns (r: int)
    requires Holds(bmp, text)
    requires len <= out.Length && len < 0x1_0000
    modifies out
    ensures text == [] || |EncodeAll(text)| + 1 <= len
            ==> r == ToInt16(|EncodeAll(text)|) && Written(out[..], old(out[..]), text, |text|)
    ensures text != [] && |EncodeAll(text)| + 1 > len
            ==> r == -1 && exists k :: FitsExactly(text, len, k) && Written(out[..], old(out[..]), text, k)
  {
    hide EncodeAll, Encode, Written;
    var total := 0;
    var at: nat, left: nat, i: nat := 0, len, 0;
    ghost var before := out[..];
    NothingWritten(before, text, len);
    while bmp[i] != 0
      invariant i <= |text| && total == ToInt16(at) && Progress(out[..], before, text, i, at, left, len)
      decreases |text| - i
    {
      var written := EncodeNext(bmp[i], out, at, left, before, text, i, len);
      if written < 0 {
        return -1;
      }
      total := ToInt16(total + written);
      left := left - written;
      at := at + written;
      i := i + 1;
    }
    assert i == |text| && text[..i] == text;
    return total;
  }

  // ---------------------------------------------------------------- to code points

  function LeadOf(n: nat): bv8
    requires 1 <= n <= 7
  {
    if n == 1 then 0xC0 else if n == 2 then 0xE0 else if n == 3 then 0xF0 else if n == 4 then 0xF8
    else if n == 5 then 0xFC else if n == 6 then 0xFE else 0xFF
  }

  function MaskOf(n: nat): bv8
    requires 1 <= n <= 7
  {
    if n == 7 then 0xFF else LeadOf(n + 1)
  }

  lemma BitTests(b: bv8)
    ensures b & 0x80 == 0 <==> b < 0x80
    ensures b & 0xC0 == 0x80 <==> 0x80 <= b < 0xC0
  {
  }

  /** A first byte that is not of length n has the lead of a longer sequence; there is always
      one to be found. */
  lemma NextLead(b: bv8, n: nat)
    requires 1 <= n <= 7 && b >= LeadOf(n) && b & MaskOf(n) != LeadOf(n)
    ensures n < 7 && b >= LeadOf(n + 1) && (MaskOf(n) >> 1) | 0x80 == MaskOf(n + 1)
  {
  }

  lemma LeadFound(b: bv8, n: nat)
    requires 1 <= n <= 7 && b >= LeadOf(n) && b & MaskOf(n) == LeadOf(n)
    ensures n == 1 <==> 0xC0 <= b < 0xE0
    ensures n == 2 <==> 0xE0 <= b < 0xF0
    ensures n >= 3 <==> b >= 0xF0
  {
  }

  /** utils_utf8_to_bmp() at an index of a buffer, with the loop that finds the length of the
      sequence from its first byte. */
  method DecodeBmp(mem: seq<bv8>, at: nat) returns (d: Decoded)
    requires at < |mem| && at + Reads(mem[at]) <= |mem|
    ensures d == DecodeBytes(mem[at..])
  {
    var nxt := mem[at];
    BitTests(nxt);
    if nxt & 0x80 == 0 {
      return Point(1, nxt as bv16);
    } else if nxt & 0xC0 == 0x80 {
      return Invalid;
    }
    var lead: bv8, mask: bv8 := 0xC0, 0xE0;
    var remunits := 1;
    while nxt & mask != lead
      invariant 1 <= remunits <= 7 && lead == LeadOf(remunits) && mask == MaskOf(remunits) && nxt >= lead
      decreases 7 - remunits
    {
      NextLead(nxt, remunits);
      lead := mask;
      mask := mask >> 1;
      mask := mask | 0x80;
      remunits := remunits + 1;
    }
    LeadFound(nxt, remunits);
    if remunits >= 3 {
      return Invalid;
    }
    var c := (nxt ^ lead) as bv16;
    var index := at + 1;
    ghost var first, n := c, remunits;
    while remunits > 0
      invariant 0 <= remunits <= n && index == at + 1 + (n - remunits)
      invariant remunits == n ==> c == first
      invariant remunits == n - 1 ==> c == Tail(first, mem[at + 1])
      invariant remunits == n - 2 ==> c == Tail(Tail(first, mem[at + 1]), mem[at + 2])
    {
      c := c << 6;
      c := c | ((mem[index] & 0x3F) as bv16);
      index := index + 1;
      remunits := remunits - 1;
    }
    return Point(index - at, c);
  }

  /** How a conversion of a UTF-8 string ends, with the code points written before. */
  datatype Conversion =
    | Complete(text: seq<codepoint>)   // the terminator was reached
    | NoRoom(text: seq<codepoint>)     // the output is full; its last code point is replaced by 0
    | Malformed(text: seq<codepoint>)  // an invalid first byte or one beyond the plane
    | TooFar(text: seq<codepoint>)     // a sequence ends behind the readable length; 0 is written

  /** The loop takes the point at an index and goes on: it is inside the length, as far as the
      signed 16-bit count of the bytes read tells, and not the terminator. */
  predicate GoesOn(mem: seq<bv8>, at: nat, len: nat)
    requires at < |mem| && at + Reads(mem[at]) <= |mem|
  {
    var d := DecodeBytes(mem[at..]);
    d.Point? && ToInt16(at) + d.size <= len && d.c != 0
  }

  /** All that the loop reads is in memory. */
  predicate Readable(mem: seq<bv8>, at: nat, len: nat, room: nat)
    decreases room
  {
    room == 0 || (
      && at < |mem| && at + Reads(mem[at]) <= |mem|
      && (GoesOn(mem, at, len) ==> Readable(mem, at + Reads(mem[at]), len, room - 1)))
  }

  function Before(c: codepoint, r: Conversion): Conversion {
    r.(text := [c] + r.text)
  }

  function Convert(mem: seq<bv8>, at: nat, len: nat, room: nat): Conversion
    requires Readable(mem, at, len, room)
    decreases room
  {
    if room == 0 then NoRoom([])
    else match DecodeBytes(mem[at..])
      case Invalid => Malformed([])
      case Point(size, c) =>
        if ToInt16(at) + size > len then TooFar([])
        else if c == 0 then Complete([])
        else Before(c, Convert(mem, at + Reads(mem[at]), len, room - 1))
  }

  /** The output buffer after a conversion. */
  ghost predicate Converted(out: seq<codepoint>, before: seq<codepoint>, r: Conversion) {
    var n := |r.text|;
    && |out| == |before| >= n
    && match r
       case Complete(text) => n < |out| && out[..n] == text && out[n] == 0 && out[n + 1..] == before[n + 1..]
       case NoRoom(text) => n > 0 && out[..n - 1] == text[..n - 1] && out[n - 1] == 0 && out[n..] == before[n..]
       case Malformed(text) => out[..n] == text && out[n..] == before[n..]
       case TooFar(text) => n < |out| && out[..n] == text && out[n] == 0 && out[n + 1..] == before[n + 1..]
  }

  /** Continues a conversion after code points that were already written. */
  function Continue(done: seq<codepoint>, r: Conversion): Conversion {
    r.(text := done + r.text)
  }

  lemma DecodedSize(b: seq<bv8>)
    requires |b| > 0 && |b| >= Reads(b[0]) && DecodeBytes(b).Point?
    ensures DecodeBytes(b).size == Reads(b[0])
  {
  }

  /** One step of a conversion, continued after `done`. */
  lemma ContinueStep(mem: seq<bv8>, at: nat, len: nat, room: nat, done: seq<codepoint>)
    requires Readable(mem, at, len, room)
    ensures room > 0 ==> at < |mem| && at + Reads(mem[at]) <= |mem|
    ensures room == 0 ==> Continue(done, Convert(mem, at, len, room)) == NoRoom(done)
    ensures room > 0 ==>
              var r, d := Continue(done, Convert(mem, at, len, room)), DecodeBytes(mem[at..]);
              && (d.Invalid? ==> r == Malformed(done))
              && (d.Point? && ToInt16(at) + d.size > len ==> r == TooFar(done))
              && (d.Point? && ToInt16(at) + d.size <= len && d.c == 0 ==> r == Complete(done))
              && (GoesOn(mem, at, len) ==>
                    && d.size == Reads(mem[at]) && Readable(mem, at + d.size, len, room - 1)
                    && r == Continue(done + [d.c], Convert(mem, at + d.size, len, room - 1)))
  {
    assert done + [] == done;
    if room > 0 && GoesOn(mem, at, len) {
      DecodedSize(mem[at..]);
      var d := DecodeBytes(mem[at..]);
      hide DecodeBytes;
      var rest := Convert(mem, at + d.size, len, room - 1);
      assert done + ([d.c] + rest.text) == (done + [d.c]) + rest.text;
    }
  }

  // ---------------------------------------------------------------- how far the loop reads

  /** The index behind the points taken. */
  function Consumed(mem: seq<bv8>, at: nat, len: nat, room: nat): nat
    requires Readable(mem, at, len, room)
    decreases room
  {
    if room > 0 && GoesOn(mem, at, len) then Consumed(mem, at + Reads(mem[at]), len, room - 1) else at
  }

  /** The index behind the last byte read. */
  function Reached(mem: seq<bv8>, at: nat, len: nat, room: nat): nat
    requires Readable(mem, at, len, room)
    decreases room
  {
    if room == 0 then at
    else if GoesOn(mem, at, len) then Reached(mem, at + Reads(mem[at]), len, room - 1)
    else at + Reads(mem[at])
  }

  /** The 16-bit count cannot overflow: one of the two lengths is small. */
  predicate Counted(at: nat, len: nat, room: nat) {
    len <= 0x7FFF || at + 3 * room <= 0x7FFF
  }

  lemma ReadsAtMostThree(b: bv8)
    ensures 1 <= Reads(b) <= 3
  {
  }

  /** While the signed count stays in range, three bytes behind the length are enough memory. */
  lemma {:induction false} ReadableWithSpare(mem: seq<bv8>, at: nat, len: nat, room: nat)
    requires Counted(at, len, room) && at <= len && len + 3 <= |mem|
    ensures Readable(mem, at, len, room)
    decreases room
  {
    if room > 0 {
      ReadsAtMostThree(mem[at]);
      if GoesOn(mem, at, len) {
        DecodedSize(mem[at..]);
        hide DecodeBytes, GoesOn;
        ReadableWithSpare(mem, at + Reads(mem[at]), len, room - 1);
      }
    }
  }

  lemma InvalidReadsOne(b: seq<bv8>)
    requires |b| > 0 && |b| >= Reads(b[0])
    ensures DecodeBytes(b).Invalid? ==> Reads(b[0]) == 1
  {
  }

  lemma AtLastRead(mem: seq<bv8>, at: nat, len: nat, room: nat)
    requires Readable(mem, at, len, room) && Counted(at, len, room) && at <= len
    requires room == 0 || !GoesOn(mem, at, len)
    ensures Consumed(mem, at, len, room) == at
    ensures Reached(mem, at, len, room) > len
       <==> var r := Convert(mem, at, len, room); r.TooFar? || (r.Malformed? && at == len)
  {
    if room > 0 {
      InvalidReadsOne(mem[at..]);
      if DecodeBytes(mem[at..]).Point? {
        DecodedSize(mem[at..]);
      }
      ReadsAtMostThree(mem[at]);
      hide DecodeBytes, Reads;
    }
  }

  lemma BeforeLastRead(mem: seq<bv8>, at: nat, len: nat, room: nat)
    requires Readable(mem, at, len, room) && Counted(at, len, room) && at <= len
    requires room > 0 && GoesOn(mem, at, len)
    ensures var next := at + Reads(mem[at]);
            && Readable(mem, next, len, room - 1) && Counted(next, len, room - 1) && next <= len
            && Consumed(mem, at, len, room) == Consumed(mem, next, len, room - 1)
            && Reached(mem, at, len, room) == Reached(mem, next, len, room - 1)
            && (Convert(mem, at, len, room).TooFar? <==> Convert(mem, next, len, room - 1).TooFar?)
            && (Convert(mem, at, len, room).Malformed? <==> Convert(mem, next, len, room - 1).Malformed?)
  {
    DecodedSize(mem[at..]);
    ReadsAtMostThree(mem[at]);
    hide DecodeBytes, Reads;
  }

  lemma ReadableHere(mem: seq<bv8>, at: nat, len: nat, room: nat)
    requires Readable(mem, at, len, room) && room > 0
    ensures at < |mem| && at + Reads(mem[at]) <= |mem|
  {
  }

  /** While the signed count stays in range, no point is taken that ends behind the length. A
      byte behind the length is read if and only if the conversion ends at a point that goes too
      far, or at an invalid byte that lies right behind the length. */
  lemma {:induction false} ReadsBehindIff(mem: seq<bv8>, at: nat, len: nat, room: nat)
    requires Readable(mem, at, len, room) && Counted(at, len, room) && at <= len
    ensures Consumed(mem, at, len, room) <= len
    ensures Reached(mem, at, len, room) > len
       <==> var r := Convert(mem, at, len, room); r.TooFar? || (r.Malformed? && Consumed(mem, at, len, room) == len)
    decreases room
  {
    if room > 0 {
      ReadableHere(mem, at, len, room);
    }
    hide Readable, GoesOn, Counted, Convert, Consumed, Reached, Reads;
    if room == 0 || !GoesOn(mem, at, len) {
      AtLastRead(mem, at, len, room);
    } else {
      BeforeLastRead(mem, at, len, room);
      ReadsBehindIff(mem, at + Reads(mem[at]), len, room - 1);
    }
  }

  /** Three-byte sequences. */
  function Threes(n: nat): (b: seq<bv8>)
    ensures |b| == 3 * n
  {
    if n == 0 then [] else Threes(n - 1) + [0xE1, 0x80, 0x80]
  }

  lemma {:induction false} ThreesAt(n: nat, i: nat)
    requires i < n
    ensures Threes(n)[3 * i] == 0xE1 && Threes(n)[3 * i + 1] == 0x80 && Threes(n)[3 * i + 2] == 0x80
    decreases n
  {
    if i < n - 1 {
      ThreesAt(n - 1, i);
    }
  }

  lemma ThreeGoesOn(mem: seq<bv8>, at: nat, len: nat)
    requires at + 3 <= |mem| && mem[at] == 0xE1 && mem[at + 1] == 0x80 && mem[at + 2] == 0x80
    requires ToInt16(at) + 3 <= len
    ensures Reads(mem[at]) == 3 && GoesOn(mem, at, len)
  {
    assert mem[at..][0] == mem[at] && mem[at..][1] == mem[at + 1] && mem[at..][2] == mem[at + 2];
    assert Tail(Tail((mem[at] ^ 0xE0) as bv16, mem[at + 1]), mem[at + 2]) != 0;
  }

  lemma CountStaysLow(at: nat, len: nat)
    requires 0x8001 <= len && at <= 98298 && at % 3 == 0
    ensures ToInt16(at) + 3 <= len
  {
    var q := at / 3;
    assert at == 3 * q;
  }

  lemma GoesOnFrom(mem: seq<bv8>, at: nat, len: nat, room: nat)
    requires at < |mem| && at + Reads(mem[at]) <= |mem| && GoesOn(mem, at, len)
    requires Readable(mem, at + Reads(mem[at]), len, room)
    ensures Readable(mem, at, len, room + 1)
    ensures Consumed(mem, at, len, room + 1) == Consumed(mem, at + Reads(mem[at]), len, room)
    ensures Convert(mem, at, len, room + 1).NoRoom? <==> Convert(mem, at + Reads(mem[at]), len, room).NoRoom?
  {
    hide DecodeBytes, Reads;
  }

  lemma NothingLeft(mem: seq<bv8>, at: nat, len: nat)
    ensures Readable(mem, at, len, 0) && Convert(mem, at, len, 0).NoRoom? && Consumed(mem, at, len, 0) == at
  {
  }

  /** When the signed count overflows, the length is no limit: from a length of 32769 on, for
      every output longer than a third of it, sequences of three bytes are taken until the output
      is full, behind the length. */
  lemma {:induction false} LengthIsIgnored(len: nat, room: nat, k: nat)
    requires 0x8001 <= len < 0x1_0000 && room <= 0x7FFF && len < 3 * room && k <= room
    ensures Readable(Threes(room), 3 * k, len, room - k) && Convert(Threes(room), 3 * k, len, room - k).NoRoom?
    ensures Consumed(Threes(room), 3 * k, len, room - k) == 3 * room > len
    decreases room - k
  {
    hide Reads, GoesOn, Readable, Convert, Consumed, Threes, ToInt16;
    var mem := Threes(room);
    if k == room {
      NothingLeft(mem, 3 * k, len);
    } else {
      LengthIsIgnored(len, room, k + 1);
      ThreesAt(room, k);
      CountStaysLow(3 * k, len);
      ThreeGoesOn(mem, 3 * k, len);
      GoesOnFrom(mem, 3 * k, len, room - k - 1);
    }
  }

  // ---------------------------------------------------------------- the conversion loop

  /** The output once some code points are written. */
  ghost predicate Begun(out: seq<codepoint>, before: seq<codepoint>, text: seq<codepoint>) {
    |text| <= |out| == |before| && out[..|text|] == text && out[|text|..] == before[|text|..]
  }

  /** The last store of each ending. */
  lemma ConvertedAtEnd(out: seq<codepoint>, before: seq<codepoint>, last: seq<codepoint>, r: Conversion)
    requires Begun(out, before, r.text)
    requires var n := |r.text|;
             match r
             case NoRoom(_) => n > 0 && last == out[n - 1 := 0]
             case Malformed(_) => last == out
             case _ => n < |out| && last == out[n := 0]
    ensures Converted(last, before, r)
  {
  }

  lemma BegunNext(out: seq<codepoint>, before: seq<codepoint>, text: seq<codepoint>, c: codepoint)
    requires Begun(out, before, text) && |text| < |out|
    ensures Begun(out[|text| := c], before, text + [c])
  {
  }

  /** The conversion so far: the code points written, and how the rest goes on. */
  ghost predicate Converting(out: seq<codepoint>, before: seq<codepoint>, mem: seq<bv8>, len: nat, bmpLen: nat,
                             text: seq<codepoint>, at: nat) {
    && Readable(mem, 0, len, bmpLen) && bmpLen <= |out|
    && |text| <= at && |text| <= bmpLen && (len <= 0x7FFF ==> at <= len) && Begun(out, before, text)
    && Readable(mem, at, len, bmpLen - |text|)
    && Convert(mem, 0, len, bmpLen) == Continue(text, Convert(mem, at, len, bmpLen - |text|))
  }

  lemma ConvertingNext(out: seq<codepoint>, before: seq<codepoint>, mem: seq<bv8>, len: nat, bmpLen: nat,
                       text: seq<codepoint>, at: nat, d: Decoded)
    requires Converting(out, before, mem, len, bmpLen, text, at) && |text| < bmpLen
    requires at + Reads(mem[at]) <= |mem| && d == DecodeBytes(mem[at..]) && GoesOn(mem, at, len)
    ensures Converting(out[|text| := d.c], before, mem, len, bmpLen, text + [d.c], at + d.size)
  {
    ReadsAtMostThree(mem[at]);
    hide DecodeBytes, Convert, Begun, Continue, Reads, Readable;
    ContinueStep(mem, at, len, bmpLen - |text|, text);
    BegunNext(out, before, text, d.c);
  }

  lemma CountWraps(at: nat, size: nat)
    ensures ToInt16(ToInt16(at) + size) == ToInt16(at + size)
  {
    var q := at / 0x1_0000;
    assert at == at % 0x1_0000 + q * 0x1_0000;
  }

  lemma WrittenFits(len: nat, bmpLen: nat, at: nat, d: Decoded, written: nat, mem: seq<bv8>)
    requires (len <= 0x7FFF && at <= len && written <= at) || (bmpLen <= 0x7FFF && written < bmpLen)
    requires at < |mem| && at + Reads(mem[at]) <= |mem| && d == DecodeBytes(mem[at..]) && d.Point?
    requires ToInt16(at) + d.size <= len
    ensures ToInt16(written + 1) == written + 1
  {
    DecodedSize(mem[at..]);
    ReadsAtMostThree(mem[at]);
  }

  lemma ContinueNothing(r: Conversion)
    ensures Continue([], r) == r
  {
    assert [] + r.text == r.text;
  }

  lemma ConvertingNothing(before: seq<codepoint>, mem: seq<bv8>, len: nat, bmpLen: nat)
    requires Readable(mem, 0, len, bmpLen) && bmpLen <= |before|
    ensures Converting(before, before, mem, len, bmpLen, [], 0)
  {
    ContinueNothing(Convert(mem, 0, len, bmpLen));
  }

  /** utils_utf8_string_to_bmp_string(), whose counts of bytes and code points are signed 16-bit
      numbers. With an output length above 0x7FFF the latter stays in range if the input length
      is not above. */
  method Utf8ToBmp(mem: seq<bv8>, bmp: array<codepoint>, len: nat, bmpLen: nat) returns (r: int)
    requires len < 0x1_0000 && bmpLen < 0x1_0000 && (len <= 0x7FFF || bmpLen <= 0x7FFF)
    requires Readable(mem, 0, len, bmpLen) && 0 < bmpLen <= bmp.Length
    modifies bmp
    ensures Converted(bmp[..], old(bmp[..]), Convert(mem, 0, len, bmpLen))
    ensures r == match Convert(mem, 0, len, bmpLen) case Complete(text) => |text| case _ => -1
  {
    hide DecodeBytes, Convert, Readable, Reads, Begun, Converted, Continue;
    var at: nat, total, written: nat := 0, 0, 0;
    ghost var before := bmp[..];
    ghost var text: seq<codepoint> := [];
    ConvertingNothing(before, mem, len, bmpLen);
    while true
      invariant written == |text| && total == ToInt16(at) && Converting(bmp[..], before, mem, len, bmpLen, text, at)
      decreases bmpLen - written
    {
      ghost var out := bmp[..];
      ContinueStep(mem, at, len, bmpLen - written, text);
      if bmpLen == written {
        bmp[written - 1] := 0;
        ConvertedAtEnd(out, before, bmp[..], NoRoom(text));
        return -1;
      }
      var d := DecodeBmp(mem, at);
      if d.Invalid? {
        ConvertedAtEnd(out, before, bmp[..], Malformed(text));
        return -1;
      }
      bmp[written] := d.c;
      if d.size + total > len {
        bmp[written] := 0;
        ConvertedAtEnd(out, before, bmp[..], TooFar(text));
        return -1;
      }
      CountWraps(at, d.size);
      WrittenFits(len, bmpLen, at, d, written, mem);
      total := ToInt16(total + d.size);
      written := ToInt16(written + 1);
      if d.c == 0 {
        ConvertedAtEnd(out, before, bmp[..], Complete(text));
        return written - 1;
      }
      ConvertingNext(out, before, mem, len, bmpLen, text, at, d);
      at := at + d.size;
      text := text + [d.c];
    }
  }

  // ---------------------------------------------------------------- round trip

  /** The first byte of an encoding tells its length. */
  lemma ReadsEncoding(mem: seq<bv8>, at: nat, c: codepoint)
    requires at + |Encode(c)| <= |mem| && Encode(c) <= mem[at..]
    ensures |Encode(c)| > 0 && Reads(mem[at]) == |Encode(c)|
  {
    assert mem[at] == mem[at..][0];
  }

  lemma ZeroEncodes()
    ensures Encode(0) == [0]
  {
  }

  /** Where an encoded string begins, the encoding of its first code point does, and behind that
      the rest of the string. */
  lemma EncodedAt(mem: seq<bv8>, at: nat, text: seq<codepoint>)
    requires text != [] && at + |EncodeAll(text)| + 1 <= |mem|
    requires mem[at..at + |EncodeAll(text)| + 1] == EncodeAll(text) + [0]
    ensures var c, tail := text[0], EncodeAll(text[1..]);
            var next := at + |Encode(c)|;
            && |EncodeAll(text)| == |Encode(c)| + |tail|
            && |Encode(c)| == Reads(mem[at]) > 0 && mem[at..][0] == mem[at]
            && DecodeBytes(mem[at..]) == Point(|Encode(c)|, c)
            && mem[next..next + |tail| + 1] == tail + [0]
  {
    hide Encode, DecodeBytes, EncodeAll, Reads;
    var e, c, tail := EncodeAll(text), text[0], EncodeAll(text[1..]);
    var rest := mem[at + |e| + 1..];
    assert mem[at..] == e + [0] + rest;
    assert text == [c] + text[1..];
    EncodeAllPrepend(c, text[1..]);
    assert mem[at..] == Encode(c) + (tail + [0] + rest);
    DecodeInvertsEncode(c, tail + [0] + rest);
    ReadsEncoding(mem, at, c);
    assert mem[at + |Encode(c)|..at + |e| + 1] == mem[at..at + |e| + 1][|Encode(c)|..];
  }

  lemma {:induction false} ConvertsEncoding(mem: seq<bv8>, at: nat, len: nat, room: nat, text: seq<codepoint>)
    requires 0 !in text && |text| < room && len < 0x1_0000
    requires at + |EncodeAll(text)| + 1 <= len && at + |EncodeAll(text)| + 1 <= |mem|
    requires mem[at..at + |EncodeAll(text)| + 1] == EncodeAll(text) + [0]
    ensures Readable(mem, at, len, room) && Convert(mem, at, len, room) == Complete(text)
    decreases |text|
  {
    hide Encode, DecodeBytes, Convert, EncodeAll, Reads;
    if text == [] {
      ZeroEncodes();
      assert EncodeAll(text) == [] by { EncodeNothing(); }
      assert mem[at..] == Encode(0) + mem[at + 1..];
      DecodeInvertsEncode(0, mem[at + 1..]);
      ReadsEncoding(mem, at, 0);
      ContinueStep(mem, at, len, room, []);
    } else {
      EncodedAt(mem, at, text);
      ConvertsEncoding(mem, at + |Encode(text[0])|, len, room - 1, text[1..]);
      ContinueStep(mem, at, len, room, []);
      assert [] + [text[0]] + text[1..] == text;
    }
    ContinueNothing(Convert(mem, at, len, room));
  }

  /** Encoding a non-empty zero-free string and decoding the result returns the string, when
      both buffers are large enough. */
  lemma RoundTrip(text: seq<codepoint>, out: seq<bv8>, before: seq<bv8>, len: nat, room: nat)
    requires text != [] && 0 !in text && |text| < room
    requires |out| == |before| && Written(out, before, text, |text|)
    requires |EncodeAll(text)| + 1 <= len < 0x1_0000
    ensures Readable(out, 0, len, room) && Convert(out, 0, len, room) == Complete(text)
  {
    assert text[..|text|] == text;
    ConvertsEncoding(out, 0, len, room, text);
  }
}
