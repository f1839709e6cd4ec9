/** The device side of sending: aux_mcu_v2/src/COMMS/comms_usb.c:101-149 and
    aux_mcu/src/USBHID/usbhid.c:154-182, and what the host makes of the packets. */
module HidSend {
  import opened Wrappers
  import opened HidPackets
  import opened HidHost

  function Padded(p: seq<byte>): seq<byte>
    requires |p| <= PACKET_SIZE
  {
    p + Zeros(PACKET_SIZE - |p|)
  }

  /** The first k packets of the v2 device: always 64 bytes, flip and acknowledge bits clear. */
  function PaddedPackets(m: seq<byte>, k: nat): seq<seq<byte>>
    requires k <= Count(|m|) <= MAX_PACKETS
  {
    if k == 0 then []
    else
      PacketFields(m, false, false, k - 1);
      PaddedPackets(m, k - 1) + [Padded(Packet(m, false, false, k - 1))]
  }

  /** The next packet the loop builds is the next fragment. */
  lemma NextFragment(m: seq<byte>, id: nat, size: nat, packet: seq<byte>)
    requires id < Count(|m|) <= MAX_PACKETS && End(|m|, id) < |m|
    requires size == if |m| - End(|m|, id) > MAX_PAYLOAD then MAX_PAYLOAD else |m| - End(|m|, id)
    requires packet == [Header0(false, false, size), Header1(id, Count(|m|) - 1)]
                       + m[End(|m|, id)..End(|m|, id) + size] + Zeros(MAX_PAYLOAD - size)
    ensures PaddedPackets(m, id + 1) == PaddedPackets(m, id) + [packet]
    ensures End(|m|, id) + size == End(|m|, id + 1) && (End(|m|, id + 1) == |m| <==> id + 1 == Count(|m|))
  {
    hide Header0, Header1;
    ChunkBounds(|m|, id);
    PacketFields(m, false, false, id);
    assert m[End(|m|, id)..End(|m|, id) + size] == Chunk(m, id);
    assert packet == Padded(Packet(m, false, false, id));
  }

  lemma EndBounds(n: nat)
    requires n <= PAYLOAD_LENGTH
    ensures End(n, 0) == 0 && Count(n) < MAX_PACKETS && (n > 0 <==> Count(n) > 0)
  {
  }

  lemma NoPackets(m: seq<byte>)
    requires Count(|m|) <= MAX_PACKETS
    ensures PaddedPackets(m, 0) == []
  {
  }

  /** comms_usb_send_hid_message() of a message with the given payload length. */
  method SendHidMessage(payload: array<byte>, length: nat) returns (packets: seq<seq<byte>>)
    requires length <= payload.Length == PAYLOAD_LENGTH
    ensures packets == PaddedPackets(payload[..length], Count(length))
  {
    ghost var m := payload[..length];
    var total := if length == 0 then 15 else (length + MAX_PAYLOAD - 1) / MAX_PAYLOAD - 1;
    var remaining, offset, id := length, 0, 0;
    packets := [];
    hide PaddedPackets, Header0, Header1, End;
    EndBounds(length);
    NoPackets(m);
    while remaining > 0
      invariant 0 <= remaining == length - offset && 0 <= id && offset == End(length, id)
      invariant if remaining > 0 then id < Count(length) else id == Count(length)
      invariant id <= Count(length) && packets == PaddedPackets(m, id)
      decreases remaining
    {
      var size := if remaining > MAX_PAYLOAD then MAX_PAYLOAD else remaining;
      var packet := [Header0(false, false, size), Header1(id, total)] + payload[offset..offset + size]
          + Zeros(MAX_PAYLOAD - size);
      assert payload[offset..offset + size] == m[offset..offset + size];
      NextFragment(m, id, size, packet);
      remaining := remaining - size;
      offset := offset + size;
      id := id + 1;
      packets := packets + [packet];
    }
  }

  /** The 4-bit packet count of the v1 sender. */
  function TotalV1(n: nat): nat {
    LastIdV1(n) % 16
  }

  /** The v1 loop's 4-bit packet number, and its place in the message. */
  datatype TurnV1 = TurnV1(id: nat, index: nat)

  /** The loop after k turns. */
  function AfterV1(n: nat, k: nat): TurnV1 {
    if k == 0 then TurnV1(0, 0)
    else
      var t := AfterV1(n, k - 1);
      TurnV1((t.id + 1) % 16, t.index + if n - t.index >= MAX_PAYLOAD then MAX_PAYLOAD else n - t.index)
  }

  /** The loop's condition. */
  predicate GoesOnV1(n: nat, k: nat) {
    AfterV1(n, k).id <= TotalV1(n)
  }

  lemma NextV1(n: nat, k: nat)
    ensures (k % 16 + 1) % 16 == (k + 1) % 16
    ensures End(n, k) <= n
    ensures End(n, k + 1) == End(n, k) + if n - End(n, k) >= MAX_PAYLOAD then MAX_PAYLOAD else n - End(n, k)
  {
  }

  lemma {:induction false} AfterV1At(n: nat, k: nat)
    ensures AfterV1(n, k) == TurnV1(k % 16, End(n, k))
  {
    if k > 0 {
      NextV1(n, k - 1);
      hide End;
      AfterV1At(n, k - 1);
    }
  }

  /** The loop's condition fails for the first time after k turns. */
  ghost predicate EndsAfter(n: nat, k: nat) {
    !GoesOnV1(n, k) && forall j :: 0 <= j < k ==> GoesOnV1(n, j)
  }

  lemma GoesOnAt(n: nat, k: nat)
    ensures GoesOnV1(n, k) <==> k % 16 <= TotalV1(n)
    ensures TotalV1(n) <= 15
  {
    AfterV1At(n, k);
  }

  lemma CountV1(n: nat)
    ensures TotalV1(n) <= 15
    ensures TotalV1(n) == 15 <==> n > 0 && Count(n) % 16 == 0
    ensures TotalV1(n) != 15 ==> (End(n, TotalV1(n) + 1) == n <==> n <= 930)
  {
    CountsAgree(n);
  }

  /** The v1 loop ends if and only if the 4-bit count is not 15, that is, unless a non-empty
      message has a multiple of 16 fragments. It then ends after as many packets as the count
      says, and has sent the whole message if and only if that is at most 930 bytes. */
  lemma SenderV1Ends(n: nat)
    ensures (exists k: nat :: !GoesOnV1(n, k)) <==> TotalV1(n) != 15
    ensures TotalV1(n) == 15 <==> n > 0 && Count(n) % 16 == 0
    ensures TotalV1(n) != 15 ==> EndsAfter(n, TotalV1(n) + 1) && (AfterV1(n, TotalV1(n) + 1).index == n <==> n <= 930)
  {
    CountV1(n);
    hide GoesOnV1, TotalV1, AfterV1, Count, End;
    var total := TotalV1(n);
    forall k: nat ensures GoesOnV1(n, k) <==> k % 16 <= total {
      GoesOnAt(n, k);
    }
    if total != 15 {
      AfterV1At(n, total + 1);
      assert !GoesOnV1(n, total + 1);
    }
  }

  lemma CountOfAtMost930(n: nat)
    requires n <= 930
    ensures Count(n) <= 15
  {
  }

  /** All packets of the v1 device: an empty message is one empty packet. */
  function PacketsV1(m: seq<byte>, flip: bool): seq<seq<byte>>
    requires Count(|m|) <= MAX_PACKETS
  {
    if m == [] then [[Header0(flip, false, 0), Header1(0, 0)]] else AllPackets(m, flip, false)
  }

  predicate ProgressV1(m: seq<byte>, flip: bool, id: nat, index: nat, packets: seq<seq<byte>>)
    requires Count(|m|) <= MAX_PACKETS
  {
    if m == [] then index == 0 && packets == if id == 0 then [] else PacketsV1(m, flip)
    else id <= Count(|m|) && index == End(|m|, id) && packets == Packets(m, flip, false, id)
  }

  lemma ProgressStepV1(m: seq<byte>, flip: bool, id: nat, index: nat, packets: seq<seq<byte>>)
    requires Count(|m|) <= MAX_PACKETS && id <= LastIdV1(|m|) && ProgressV1(m, flip, id, index, packets)
    ensures index <= |m|
    ensures var size := if |m| - index >= MAX_PAYLOAD then MAX_PAYLOAD else |m| - index;
            ProgressV1(m, flip, id + 1, index + size,
                       packets + [[Header0(flip, false, size), Header1(id, LastIdV1(|m|))] + m[index..index + size]])
  {
    hide Header0, Header1;
    CountsAgree(|m|);
    if m != [] {
      ChunkBounds(|m|, id);
    } else {
      assert [Header0(flip, false, 0), Header1(0, 0)] + m[0..0] == [Header0(flip, false, 0), Header1(0, 0)];
    }
  }

  lemma ProgressBounds(m: seq<byte>, flip: bool)
    requires Count(|m|) <= MAX_PACKETS
    ensures ProgressV1(m, flip, 0, 0, [])
  {
  }

  lemma ProgressDone(m: seq<byte>, flip: bool, id: nat, index: nat, packets: seq<seq<byte>>)
    requires Count(|m|) <= MAX_PACKETS && ProgressV1(m, flip, id, index, packets) && id == LastIdV1(|m|) + 1
    ensures packets == PacketsV1(m, flip)
  {
    CountsAgree(|m|);
  }

  /** usbhid_send_to_usb(): packets are not padded and carry the flip bit last received. */
  method SendToUsb(buffer: seq<byte>, flip: bool) returns (packets: seq<seq<byte>>)
    requires |buffer| <= 930
    ensures packets == PacketsV1(buffer, flip)
  {
    hide ProgressV1, Header0, Header1;
    CountOfAtMost930(|buffer|);
    CountsAgree(|buffer|);
    var total := |buffer| / MAX_PAYLOAD;
    if |buffer| % MAX_PAYLOAD == 0 && |buffer| > 0 {
      total := total - 1;
    }
    var index := 0;
    packets := [];
    var id := 0;
    ProgressBounds(buffer, flip);
    while id <= total
      invariant 0 <= id <= total + 1 <= 15 && 0 <= index
      invariant ProgressV1(buffer, flip, id, index, packets)
      decreases total + 1 - id
    {
      ProgressStepV1(buffer, flip, id, index, packets);
      var size := if |buffer| - index >= MAX_PAYLOAD then MAX_PAYLOAD else |buffer| - index;
      var packet := [Header0(flip, false, size), Header1(id, total)] + buffer[index..index + size];
      index := index + size;
      packets := packets + [packet];
      id := (id + 1) % 16;
    }
    ProgressDone(buffer, flip, id, index, packets);
  }

  // ---------------------------------------------------------------- what the host recovers

  /** Packets the host reads as fragment k: whatever follows the payload is ignored. */
  predicate Reads(a: seq<byte>, m: seq<byte>, k: nat)
    requires k < Count(|m|) <= MAX_PACKETS
  {
    && |a| >= 2 && |a| >= 2 + LengthOf(a) && a[2..2 + LengthOf(a)] == Chunk(m, k)
    && IdOf(a) == k && TotalOf(a) == Count(|m|) - 1
  }

  ghost predicate ReadsAll(stream: seq<seq<byte>>, m: seq<byte>, k: nat)
    requires Count(|m|) <= MAX_PACKETS
  {
    && k <= Count(|m|) && |stream| == Count(|m|) - k
    && forall i :: 0 <= i < |stream| ==> Reads(stream[i], m, k + i)
  }

  /** What a message of at least four bytes decodes to. */
  function Parsed(m: seq<byte>): Received
    requires |m| >= 4
  {
    if Uint16(m[2], m[3]) == |m| - 4 then Message(Uint16(m[0], m[1]), |m| - 4, m[4..]) else SizeError
  }

  lemma SliceOfPayload(a: seq<byte>, m: seq<byte>, k: nat)
    requires k < Count(|m|) <= MAX_PACKETS && Reads(a, m, k)
    ensures LengthOf(a) == |Chunk(m, k)| && Slice(a, 2, 2 + LengthOf(a)) == Chunk(m, k)
  {
  }

  /** One more fragment on the host. */
  lemma CollectStep(stream: seq<seq<byte>>, m: seq<byte>, k: nat, data: seq<byte>)
    requires |m| >= 4 && 1 <= k < Count(|m|) <= MAX_PACKETS && stream != [] && Reads(stream[0], m, k)
    requires data == m[4..End(|m|, k)] && End(|m|, k) >= 4
    ensures End(|m|, k + 1) >= 4
    ensures var head := Some((Uint16(m[0], m[1]), Uint16(m[2], m[3])));
            Collect(stream, head, data, End(|m|, k))
            == if k + 1 < Count(|m|) then Collect(stream[1..], head, m[4..End(|m|, k + 1)], End(|m|, k + 1))
                else Parsed(m)
  {
    hide Uint16;
    var a := stream[0];
    SliceOfPayload(a, m, k);
    ChunkBounds(|m|, k);
    assert data + Chunk(m, k) == m[4..End(|m|, k + 1)];
    assert End(|m|, k) + LengthOf(a) == End(|m|, k + 1);
  }

  lemma {:induction false} CollectsRest(stream: seq<seq<byte>>, m: seq<byte>, k: nat, data: seq<byte>)
    requires |m| >= 4 && 1 <= k < Count(|m|) <= MAX_PACKETS && ReadsAll(stream, m, k)
    requires data == m[4..End(|m|, k)] && End(|m|, k) >= 4
    ensures Collect(stream, Some((Uint16(m[0], m[1]), Uint16(m[2], m[3]))), data, End(|m|, k)) == Parsed(m)
    decreases |stream|
  {
    hide Uint16, Collect, Reads;
    assert Reads(stream[0], m, k + 0);
    CollectStep(stream, m, k, data);
    if k + 1 < Count(|m|) {
      forall i | 0 <= i < |stream| - 1 ensures Reads(stream[1..][i], m, k + 1 + i) {
        assert Reads(stream[i + 1], m, k + (i + 1));
      }
      CollectsRest(stream[1..], m, k + 1, m[4..End(|m|, k + 1)]);
    }
  }

  /** The first fragment on the host: the header and what follows it. */
  lemma FirstRead(a: seq<byte>, m: seq<byte>)
    requires |m| >= 4 && Count(|m|) <= MAX_PACKETS && Reads(a, m, 0)
    ensures |a| >= 6 && LengthOf(a) == End(|m|, 1) >= 4 && IdOf(a) == 0 && TotalOf(a) == Count(|m|) - 1
    ensures a[2] == m[0] && a[3] == m[1] && a[4] == m[2] && a[5] == m[3]
    ensures Slice(a, 6, 2 + LengthOf(a)) == m[4..End(|m|, 1)]
  {
    ChunkBounds(|m|, 0);
    var c := Chunk(m, 0);
    assert c == m[..End(|m|, 1)] && |c| >= 4;
    assert a[2..2 + |c|] == c;
    assert a[2] == c[0] && a[3] == c[1] && a[4] == c[2] && a[5] == c[3];
    assert a[6..2 + |c|] == a[2..2 + |c|][4..];
  }

  /** The host recovers command, length and data of a message of at least four bytes exactly
      when the length field in it is right; otherwise it reports a size error. */
  lemma HostRecovers(stream: seq<seq<byte>>, m: seq<byte>)
    requires |m| >= 4 && Count(|m|) <= MAX_PACKETS && ReadsAll(stream, m, 0)
    ensures Collect(stream, None, [], 0) == Parsed(m)
  {
    hide Uint16, Slice, LengthOf, IdOf, TotalOf, Reads;
    assert Reads(stream[0], m, 0 + 0);
    FirstRead(stream[0], m);
    ChunkBounds(|m|, 0);
    assert [] + m[4..End(|m|, 1)] == m[4..End(|m|, 1)];
    if Count(|m|) > 1 {
      assert forall i :: 0 <= i < |stream| - 1 ==>
               stream[1..][i] == stream[i + 1] && Reads(stream[i + 1], m, 0 + (i + 1));
      CollectsRest(stream[1..], m, 1, m[4..End(|m|, 1)]);
    } else {
      assert End(|m|, 1) == |m|;
    }
  }

  lemma PaddedReads(m: seq<byte>, k: nat)
    requires k < Count(|m|) <= MAX_PACKETS
    ensures var p := Packet(m, false, false, k); |p| <= PACKET_SIZE && Reads(Padded(p), m, k)
  {
    PacketFields(m, false, false, k);
    var p := Packet(m, false, false, k);
    assert Padded(p)[..|p|] == p && Padded(p)[0] == p[0] && Padded(p)[1] == p[1];
    assert Padded(p)[2..2 + LengthOf(p)] == p[2..];
  }

  lemma {:induction false} PaddedAt(m: seq<byte>, k: nat, i: nat)
    requires i < k <= Count(|m|) <= MAX_PACKETS
    ensures |PaddedPackets(m, k)| == k && Reads(PaddedPackets(m, k)[i], m, i)
    decreases k
  {
    PaddedReads(m, k - 1);
    hide Packet, Padded, Reads;
    if k > 1 {
      PaddedAt(m, k - 1, if i < k - 1 then i else 0);
    }
  }

  /** A message sent by the v2 device is recovered by the host. */
  lemma RoundTripV2(m: seq<byte>)
    requires 4 <= |m| <= PAYLOAD_LENGTH
    ensures Collect(PaddedPackets(m, Count(|m|)), None, [], 0) == Parsed(m)
  {
    CountBounds(|m|);
    var n := Count(|m|);
    PaddedAt(m, n, 0);
    forall i | 0 <= i < n ensures Reads(PaddedPackets(m, n)[i], m, 0 + i) {
      PaddedAt(m, n, i);
    }
    HostRecovers(PaddedPackets(m, n), m);
  }

  /** A message sent by the v1 device is recovered by the host. */
  lemma RoundTripV1(m: seq<byte>, flip: bool)
    requires 4 <= |m| <= 930
    ensures Collect(PacketsV1(m, flip), None, [], 0) == Parsed(m)
  {
    CountBounds(|m|);
    var n := Count(|m|);
    PacketsAt(m, flip, false, n, 0);
    forall i | 0 <= i < n ensures Reads(AllPackets(m, flip, false)[i], m, 0 + i) {
      PacketsAt(m, flip, false, n, i);
      PacketFields(m, flip, false, i);
    }
    HostRecovers(AllPackets(m, flip, false), m);
  }
}
