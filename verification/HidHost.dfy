/** The host side: scripts/python_framework/generic_hid_device.py. */
module HidHost {
  import opened Wrappers
  import opened HidPackets

  class GenericHidDevice {
    var flipbit: bool
    var ackFlagInComms: bool

    constructor ()
      ensures !flipbit && !ackFlagInComms
    {
      flipbit, ackFlagInComms := false, false;
    }

    /** get_packets_from_message() on the serialized message. With more than 16 packets the
        second header byte overflows, the call raises and the flip bit stays. */
    method GetPacketsFromMessage(message: seq<byte>) returns (result: Option<seq<seq<byte>>>)
      modifies this`flipbit
      ensures Count(|message|) > MAX_PACKETS ==> result == None && flipbit == old(flipbit)
      ensures Count(|message|) <= MAX_PACKETS ==>
                result == Some(AllPackets(message, old(flipbit), ackFlagInComms)) && flipbit == !old(flipbit)
    {
      var remaining := |message|;
      var last := (remaining + MAX_PAYLOAD - 1) / MAX_PAYLOAD - 1;
      if last >= MAX_PACKETS {
        return None;
      }
      var packets: seq<seq<byte>> := [];
      var id, index := 0, 0;
      while id <= last
        invariant 0 <= id <= last + 1 == Count(|message|) && index == End(|message|, id)
                && remaining == |message| - index
        invariant packets == Packets(message, flipbit, ackFlagInComms, id)
        invariant flipbit == old(flipbit)
      {
        ChunkBounds(|message|, id);
        var length := MAX_PAYLOAD;
        if remaining < MAX_PAYLOAD {
          length := remaining;
        }
        var packet := [Header0(flipbit, ackFlagInComms, length), Header1(id, last)];
        packet := packet + message[index..index + length];
        remaining := remaining - length;
        index := index + length;
        id := id + 1;
        packets := packets + [packet];
      }
      flipbit := !flipbit;
      result := Some(packets);
    }
  }

  // ---------------------------------------------------------------- receiving

  datatype Received =
    | Message(cmd: nat, len: nat, data: seq<byte>)
    | SizeError    // the call returns None
    | Timeout      // no further packet
    | IndexError   // a packet too short for the fields that are read

  /** Slicing as in Python: bounds beyond the end are clipped. */
  function Slice(a: seq<byte>, lo: nat, hi: nat): seq<byte> {
    var l := if lo < |a| then lo else |a|;
    var h := if hi < |a| then hi else |a|;
    if l <= h then a[l..h] else []
  }

  function Uint16(lo: byte, hi: byte): nat { lo + hi * 256 }

  /** The packets still to come, the header once read, the data and payload byte count so far. */
  function Collect(stream: seq<seq<byte>>, head: Option<(nat, nat)>, data: seq<byte>, count: nat): Received
    decreases |stream|
  {
    if stream == [] then Timeout
    else
      var a := stream[0];
      if |a| < 2 || (head.None? && |a| < 6) then IndexError
      else
        var head' := if head.None? then (Uint16(a[2], a[3]), Uint16(a[4], a[5])) else head.value;
        var data' := data + Slice(a, if head.None? then 6 else 2, 2 + LengthOf(a));
        var count' := count + LengthOf(a);
        if IdOf(a) != TotalOf(a) then Collect(stream[1..], Some(head'), data', count')
        else if |data'| != head'.1 || |data'| != count' - 4 then SizeError
        else Message(head'.0, head'.1, data')
  }

  /** receiveHidMessage() on the packets the device has sent. */
  method ReceiveHidMessage(stream: seq<seq<byte>>) returns (result: Received, used: nat)
    ensures result == Collect(stream, None, [], 0)
    ensures used <= |stream|
  {
    hide Uint16, Slice, LengthOf, IdOf, TotalOf;
    var count := 0;
    var cmd: int, len: int := -1, -1;
    var data: seq<byte> := [];
    used := 0;
    while used < |stream|
      invariant 0 <= used <= |stream| && (cmd == -1 ==> used == 0) && cmd >= -1 && (cmd >= 0 ==> len >= 0)
      invariant count >= 0 && (used == 0 ==> cmd == -1 && data == [] && count == 0)
      invariant Collect(stream, None, [], 0)
             == Collect(stream[used..], if cmd == -1 then None else Some((cmd as nat, len as nat)), data, count)
    {
      var answer := stream[used];
      assert stream[used..][0] == answer && stream[used..][1..] == stream[used + 1..];
      used := used + 1;
      if |answer| < 2 || (cmd == -1 && |answer| < 6) {
        return IndexError, used;
      }
      var length: nat := LengthOf(answer);
      var current, total := IdOf(answer), TotalOf(answer);
      count := count + length;
      if cmd == -1 {
        cmd := Uint16(answer[2], answer[3]);
        len := Uint16(answer[4], answer[5]);
        data := data + Slice(answer, 6, 2 + length);
      } else {
        data := data + Slice(answer, 2, 2 + length);
      }
      if current == total {
        if |data| != len || |data| != count - 4 {
          return SizeError, used;
        }
        return Message(cmd, len, data), used;
      }
    }
    return Timeout, used;
  }
}
