/** Reassembly in the v2 device: aux_mcu_v2/src/COMMS/comms_usb.c:154-272. */
module UsbReceiverV2 {
  import opened Wrappers
  import opened HidPackets

  const RAW_SIZE: nat := 65

  /** The 64-byte receive buffer and the byte behind it, which a payload length of 63 copies
      as well. A short packet leaves the rest of the buffer as it was. */
  type Raw = r: seq<byte> | |r| == RAW_SIZE witness Zeros(RAW_SIZE)
  type Payload = p: seq<byte> | |p| == PAYLOAD_LENGTH witness Zeros(PAYLOAD_LENGTH)

  /** A message handed to the main MCU. */
  datatype Sent = Sent(length: nat, payload: Payload)

  datatype Receiver = Receiver(
    expectFlip: bool,
    fill: nat,
    expected: nat,
    total: nat,
    payload: Payload,
    sent: seq<Sent>)

  const POWER_ON: Receiver := Receiver(false, 0, 0, 0, Zeros(PAYLOAD_LENGTH), [])

  predicate Fits(r: Receiver) {
    r.fill <= PAYLOAD_LENGTH
  }

  /** What a rejected packet does: the flip state stays. */
  function Restart(r: Receiver): Receiver {
    r.(fill := 0, expected := 0)
  }

  /** Packet 0 starts the message afresh. */
  function Begin(r: Receiver, p: Raw): Receiver {
    if IdOf(p) == 0 then r.(total := TotalOf(p), fill := 0, payload := Zeros(PAYLOAD_LENGTH)) else r
  }

  function Append(r: Receiver, p: Raw): Receiver
    requires r.fill + LengthOf(p) <= PAYLOAD_LENGTH
  {
    var n := LengthOf(p);
    r.(payload := r.payload[..r.fill] + Body(p) + r.payload[r.fill + n..],
       fill := r.fill + n, expected := r.expected + 1)
  }

  function Finish(r: Receiver): Receiver {
    r.(expectFlip := !r.expectFlip, sent := r.sent + [Sent(r.fill, r.payload)], fill := 0, expected := 0)
  }

  function Receive(r: Receiver, p: Raw): Receiver
    requires Fits(r)
  {
    if IsMarker(p) then r.(expectFlip := false, fill := 0, expected := 0)
    else if FlipOf(p) != r.expectFlip then Restart(r)
    else if r.expected != 0 && IdOf(p) != r.expected then Restart(r)
    else
      var b := Begin(r, p);
      if b.fill + LengthOf(p) > PAYLOAD_LENGTH then Restart(b)
      else if IdOf(p) == b.total then Finish(Append(b, p))
      else Append(b, p)
  }

  function Run(r: Receiver, packets: seq<Raw>): (s: Receiver)
    requires Fits(r)
    ensures Fits(s)
  {
    if packets == [] then r else Receive(Run(r, packets[..|packets| - 1]), packets[|packets| - 1])
  }

  lemma RunNothing(r: Receiver)
    requires Fits(r)
    ensures Run(r, []) == r
  {
  }

  lemma {:induction false} RunAppend(r: Receiver, a: seq<Raw>, b: seq<Raw>)
    requires Fits(r)
    ensures Run(r, a + b) == Run(Run(r, a), b)
  {
    hide Receive;
    if b == [] {
      assert a + b == a;
    } else {
      var init := b[..|b| - 1];
      assert (a + b)[..|a + b| - 1] == a + init;
      RunAppend(r, a, init);
    }
  }

  // ---------------------------------------------------------------- a conforming host

  /** The raw buffers after the packets of a transmission. */
  ghost predicate Carries(raws: seq<Raw>, packets: seq<seq<byte>>) {
    |raws| == |packets| && forall i :: 0 <= i < |raws| ==> packets[i] <= raws[i]
  }

  predicate Receivable(m: seq<byte>)
    ensures Receivable(m) ==> 1 <= Count(|m|) <= MAX_PACKETS
  {
    1 <= |m| <= PAYLOAD_LENGTH
  }

  function Padded(m: seq<byte>): Payload
    requires |m| <= PAYLOAD_LENGTH
  {
    m + Zeros(PAYLOAD_LENGTH - |m|)
  }

  /** The state after the first k packets of a message, not yet all. */
  predicate Receiving(r: Receiver, before: Receiver, m: seq<byte>, k: nat)
    requires |m| <= PAYLOAD_LENGTH
  {
    && r.expectFlip == before.expectFlip && r.sent == before.sent
    && r.expected == k
    && (k > 0 ==> k <= Count(|m|) && r.fill == End(|m|, k) && r.total == Count(|m|) - 1
                  && r.payload == Padded(m[..End(|m|, k)]))
  }

  lemma RawFields(raw: Raw, m: seq<byte>, flip: bool, ack: bool, k: nat)
    requires k < Count(|m|) <= MAX_PACKETS && Packet(m, flip, ack, k) <= raw
    ensures FlipOf(raw) == flip && IdOf(raw) == k && TotalOf(raw) == Count(|m|) - 1 && !IsMarker(raw)
    ensures LengthOf(raw) == |Chunk(m, k)| && raw[2..2 + LengthOf(raw)] == Chunk(m, k)
  {
    PacketFields(m, flip, ack, k);
    var p := Packet(m, flip, ack, k);
    assert raw[0] == p[0] && raw[1] == p[1];
    assert raw[2..2 + LengthOf(p)] == raw[..|p|][2..] == p[2..];
  }

  lemma AppendChunk(m: seq<byte>, k: nat, payload: Payload)
    requires |m| <= PAYLOAD_LENGTH && k < Count(|m|)
    requires payload == Padded(m[..End(|m|, k)])
    ensures var c := Chunk(m, k);
            End(|m|, k) + |c| == End(|m|, k + 1) <= PAYLOAD_LENGTH
            && payload[..End(|m|, k)] + c + payload[End(|m|, k) + |c|..] == Padded(m[..End(|m|, k + 1)])
  {
    ChunkBounds(|m|, k);
    var c := Chunk(m, k);
    assert m[..End(|m|, k + 1)] == m[..End(|m|, k)] + c;
    assert payload[End(|m|, k) + |c|..] == Zeros(PAYLOAD_LENGTH - End(|m|, k + 1));
  }

  /** The state after the last packet of a message. */
  predicate Delivered(r: Receiver, before: Receiver, m: seq<byte>)
    requires |m| <= PAYLOAD_LENGTH
  {
    && r.sent == before.sent + [Sent(|m|, Padded(m))] && r.expectFlip == !before.expectFlip
    && r.expected == 0 && r.fill == 0 && r.total == Count(|m|) - 1 && r.payload == Padded(m)
  }

  lemma ReceiveOne(r: Receiver, before: Receiver, m: seq<byte>, ack: bool, k: nat, raw: Raw)
    requires Receivable(m) && Fits(r) && k < Count(|m|)
    requires Receiving(r, before, m, k)
    requires Packet(m, before.expectFlip, ack, k) <= raw
    ensures var s := Receive(r, raw);
            if k + 1 < Count(|m|) then Receiving(s, before, m, k + 1) else Delivered(s, before, m)
  {
    hide LengthOf, IdOf, TotalOf, FlipOf, IsMarker;
    RawFields(raw, m, before.expectFlip, ack, k);
    ChunkBounds(|m|, k);
    var b := Begin(r, raw);
    if k == 0 {
      assert m[..End(|m|, 0)] == [];
      assert b.payload == Padded(m[..0]);
    }
    AppendChunk(m, k, b.payload);
    if k + 1 == Count(|m|) {
      assert m[..End(|m|, k + 1)] == m;
    }
  }

  lemma CarriesInit(raws: seq<Raw>, m: seq<byte>, flip: bool, ack: bool, k: nat)
    requires 0 < k <= Count(|m|) <= MAX_PACKETS && Carries(raws, Packets(m, flip, ack, k))
    ensures |raws| == k && Packet(m, flip, ack, k - 1) <= raws[k - 1]
    ensures Carries(raws[..|raws| - 1], Packets(m, flip, ack, k - 1))
  {
    hide Packet;
    PacketsAt(m, flip, ack, k, k - 1);
  }

  /** One more packet of the message. */
  lemma ReceiveNext(before: Receiver, m: seq<byte>, ack: bool, k: nat, raws: seq<Raw>)
    requires Receivable(m) && Fits(before) && k < Count(|m|)
    requires Carries(raws, Packets(m, before.expectFlip, ack, k + 1))
    requires |raws| > 0 && Receiving(Run(before, raws[..|raws| - 1]), before, m, k)
    ensures var s := Run(before, raws);
            if k + 1 < Count(|m|) then Receiving(s, before, m, k + 1) else Delivered(s, before, m)
  {
    hide Packet, Receive, Receiving, Delivered, Carries, Padded;
    CarriesInit(raws, m, before.expectFlip, ack, k + 1);
    ReceiveOne(Run(before, raws[..|raws| - 1]), before, m, ack, k, raws[|raws| - 1]);
  }

  lemma ReceivedNone(before: Receiver, m: seq<byte>, raws: seq<Raw>)
    requires Fits(before) && before.expected == 0 && |m| <= PAYLOAD_LENGTH && raws == []
    ensures Receiving(Run(before, raws), before, m, 0)
  {
  }

  lemma {:induction false} ReceivePrefix(before: Receiver, m: seq<byte>, ack: bool, k: nat, raws: seq<Raw>)
    requires Receivable(m) && Fits(before) && before.expected == 0 && k < Count(|m|)
    requires Carries(raws, Packets(m, before.expectFlip, ack, k))
    ensures Receiving(Run(before, raws), before, m, k)
  {
    if k == 0 {
      ReceivedNone(before, m, raws);
    } else {
      hide *;
      CarriesInit(raws, m, before.expectFlip, ack, k);
      ReceivePrefix(before, m, ack, k - 1, raws[..|raws| - 1]);
      ReceiveNext(before, m, ack, k - 1, raws);
    }
  }

  /** A receiver that expects packet 0 with the host's flip bit delivers the message. */
  lemma ReceiveMessage(before: Receiver, m: seq<byte>, ack: bool, raws: seq<Raw>)
    requires Receivable(m) && Fits(before) && before.expected == 0
    requires Carries(raws, AllPackets(m, before.expectFlip, ack))
    ensures Delivered(Run(before, raws), before, m)
  {
    hide Packet, Packets, Run, Receiving, Delivered, Carries;
    var n := Count(|m|);
    CountBounds(|m|);
    CarriesInit(raws, m, before.expectFlip, ack, n);
    ReceivePrefix(before, m, ack, n - 1, raws[..|raws| - 1]);
    ReceiveNext(before, m, ack, n - 1, raws);
  }

  predicate AllReceivable(ms: seq<seq<byte>>) {
    forall i {:trigger ms[i]} :: 0 <= i < |ms| ==> Receivable(ms[i])
  }

  /** The packets a host sends for messages, its flip bit alternating. */
  function HostStream(ms: seq<seq<byte>>, flip: bool, ack: bool): seq<seq<byte>>
    requires AllReceivable(ms)
  {
    if ms == [] then [] else AllPackets(ms[0], flip, ack) + HostStream(ms[1..], !flip, ack)
  }

  function Deliveries(ms: seq<seq<byte>>): seq<Sent>
    requires AllReceivable(ms)
  {
    if ms == [] then [] else [Sent(|ms[0]|, Padded(ms[0]))] + Deliveries(ms[1..])
  }

  lemma CarriesSplit(raws: seq<Raw>, a: seq<seq<byte>>, b: seq<seq<byte>>)
    requires Carries(raws, a + b)
    ensures |a| <= |raws| && Carries(raws[..|a|], a) && Carries(raws[|a|..], b)
  {
    assert forall i :: 0 <= i < |a| ==> raws[..|a|][i] == raws[i] && (a + b)[i] == a[i];
    assert forall i :: 0 <= i < |b| ==> raws[|a|..][i] == raws[|a| + i] && (a + b)[|a| + i] == b[i];
  }

  lemma FirstAndRest(ms: seq<seq<byte>>, flip: bool, ack: bool)
    requires ms != [] && AllReceivable(ms)
    ensures Receivable(ms[0]) && Count(|ms[0]|) <= MAX_PACKETS && |ms[0]| <= PAYLOAD_LENGTH && AllReceivable(ms[1..])
    ensures HostStream(ms, flip, ack) == AllPackets(ms[0], flip, ack) + HostStream(ms[1..], !flip, ack)
    ensures Deliveries(ms) == [Sent(|ms[0]|, Padded(ms[0]))] + Deliveries(ms[1..])
  {
    hide AllPackets, Padded;
  }

  /** The first of several messages. */
  lemma ReceiveFirst(before: Receiver, ms: seq<seq<byte>>, ack: bool, raws: seq<Raw>) returns (a: seq<Raw>, b: seq<Raw>)
    requires Fits(before) && before.expected == 0 && ms != [] && AllReceivable(ms)
    requires Carries(raws, HostStream(ms, before.expectFlip, ack))
    ensures raws == a + b
    ensures var s := Run(before, a);
            s.sent == before.sent + [Sent(|ms[0]|, Padded(ms[0]))] && s.expected == 0
            && AllReceivable(ms[1..]) && Carries(b, HostStream(ms[1..], s.expectFlip, ack))
  {
    hide Receive, AllPackets, Run, Padded, Receivable, AllReceivable, HostStream, Deliveries, Carries;
    FirstAndRest(ms, before.expectFlip, ack);
    var first := AllPackets(ms[0], before.expectFlip, ack);
    CarriesSplit(raws, first, HostStream(ms[1..], !before.expectFlip, ack));
    a, b := raws[..|first|], raws[|first|..];
    assert raws == a + b;
    ReceiveMessage(before, ms[0], ack, a);
  }

  lemma {:induction false} ReceiveMessages(before: Receiver, ms: seq<seq<byte>>, ack: bool, raws: seq<Raw>)
    requires Fits(before) && before.expected == 0
    requires AllReceivable(ms)
    requires Carries(raws, HostStream(ms, before.expectFlip, ack))
    ensures Run(before, raws).sent == before.sent + Deliveries(ms)
    decreases |ms|
  {
    hide Receive, Run, Padded, Receivable, AllReceivable;
    if ms == [] {
      assert raws == [];
      RunNothing(before);
    } else {
      hide HostStream, Carries;
      var a, b := ReceiveFirst(before, ms, ack, raws);
      ReceiveMessages(Run(before, a), ms[1..], ack, b);
      RunAppend(before, a, b);
      FirstAndRest(ms, before.expectFlip, ack);
    }
  }

  /** Whatever was received before: after a reset marker, the packets a host generates for
      messages of 1 to 536 bytes, its flip bit starting at 0, make the device deliver exactly
      these messages, zero-padded, in order. */
  lemma DeliversAfterReset(history: seq<Raw>, marker: Raw, ms: seq<seq<byte>>, ack: bool, raws: seq<Raw>)
    requires marker[0] == 0xFF && marker[1] == 0xFF
    requires AllReceivable(ms)
    requires Carries(raws, HostStream(ms, false, ack))
    ensures Run(POWER_ON, history + [marker] + raws).sent == Run(POWER_ON, history).sent + Deliveries(ms)
  {
    var h := history + [marker];
    assert h[..|h| - 1] == history;
    var before := Run(POWER_ON, h);
    assert before == Receive(Run(POWER_ON, history), marker);
    ReceiveMessages(before, ms, ack, raws);
    RunAppend(POWER_ON, h, raws);
  }

  lemma {:induction false} StreamHasNoMarker(ms: seq<seq<byte>>, flip: bool, ack: bool, i: nat)
    requires AllReceivable(ms)
    requires i < |HostStream(ms, flip, ack)|
    ensures !IsMarker(HostStream(ms, flip, ack)[i])
    decreases |ms|
  {
    hide IsMarker, Packet;
    var n := Count(|ms[0]|);
    if n > 0 {
      PacketsAt(ms[0], flip, ack, n, n - 1);
    }
    if i < n {
      PacketsAt(ms[0], flip, ack, n, i);
      PacketFields(ms[0], flip, ack, i);
    } else {
      StreamHasNoMarker(ms[1..], !flip, ack, i - n);
    }
  }

  // ---------------------------------------------------------------- the firmware object

  class UsbComms {
    var expectFlipBitStateSet: bool
    var messageFillIndex: nat
    var expectedPacketNumber: nat
    var totalExpectedPackets: nat
    const payload: array<byte>
    var delivered: seq<Sent>

    ghost predicate Valid()
      reads this, payload
    {
      payload.Length == PAYLOAD_LENGTH && Fits(State())
    }

    ghost function State(): Receiver
      reads this, payload
      requires payload.Length == PAYLOAD_LENGTH
    {
      Receiver(expectFlipBitStateSet, messageFillIndex, expectedPacketNumber, totalExpectedPackets, payload[..],
          delivered)
    }

    constructor ()
      ensures Valid() && State() == POWER_ON && fresh(payload)
    {
      expectFlipBitStateSet := false;
      messageFillIndex, expectedPacketNumber, totalExpectedPackets := 0, 0, 0;
      payload := new byte[PAYLOAD_LENGTH](_ => 0);
      delivered := [];
      new;
      assert payload[..] == Zeros(PAYLOAD_LENGTH);
    }

    method ClearPayload()
      requires Valid()
      modifies payload
      ensures payload[..] == Zeros(PAYLOAD_LENGTH)
    {
      for i := 0 to payload.Length
        invariant forall k :: 0 <= k < i ==> payload[k] == 0
      {
        payload[i] := 0;
      }
    }

    method CopyPayload(raw: Raw, length: nat)
      requires Valid() && length <= 63 && messageFillIndex + length <= PAYLOAD_LENGTH
      modifies payload
      ensures payload[..] == old(payload[..messageFillIndex]) + raw[2..2 + length]
              + old(payload[messageFillIndex + length..])
    {
      for i := 0 to length
        invariant forall k :: 0 <= k < PAYLOAD_LENGTH ==>
                    payload[k] == if messageFillIndex <= k < messageFillIndex + i
                        then raw[2 + (k - messageFillIndex)] else old(payload[k])
      {
        payload[messageFillIndex + i] := raw[2 + i];
      }
    }

    method RestartMessage()
      requires Valid()
      modifies this
      ensures Valid() && State() == Restart(old(State()))
    {
      messageFillIndex := 0;
      expectedPacketNumber := 0;
    }

    method BeginMessage(raw: Raw)
      requires Valid()
      modifies this, payload
      ensures Valid() && State() == Begin(old(State()), raw)
    {
      if IdOf(raw) == 0 {
        totalExpectedPackets := TotalOf(raw);
        messageFillIndex := 0;
        ClearPayload();
      }
    }

    method AppendPacket(raw: Raw)
      requires Valid() && messageFillIndex + LengthOf(raw) <= PAYLOAD_LENGTH
      modifies this, payload
      ensures Valid() && State() == Append(old(State()), raw)
    {
      CopyPayload(raw, LengthOf(raw));
      messageFillIndex := messageFillIndex + LengthOf(raw);
      expectedPacketNumber := expectedPacketNumber + 1;
    }

    method FinishMessage()
      requires Valid()
      modifies this
      ensures Valid() && State() == Finish(old(State()))
    {
      expectFlipBitStateSet := !expectFlipBitStateSet;
      delivered := delivered + [Sent(messageFillIndex, payload[..])];
      RestartMessage();
    }

    /** comms_usb_communication_routine() once a packet is in the receive buffer. */
    method CommunicationRoutine(raw: Raw)
      requires Valid()
      modifies this, payload
      ensures Valid() && State() == Receive(old(State()), raw)
    {
      hide Zeros, LengthOf, FlipOf, IdOf, TotalOf;
      if raw[0] == 0xFF && raw[1] == 0xFF {
        expectFlipBitStateSet := false;
        RestartMessage();
        return;
      }
      if (expectFlipBitStateSet && !FlipOf(raw)) || (!expectFlipBitStateSet && FlipOf(raw)) {
        RestartMessage();
        return;
      }
      if expectedPacketNumber != 0 && IdOf(raw) != expectedPacketNumber {
        RestartMessage();
        return;
      }
      BeginMessage(raw);
      if messageFillIndex + LengthOf(raw) > PAYLOAD_LENGTH {
        RestartMessage();
        return;
      }
      AppendPacket(raw);
      if IdOf(raw) == totalExpectedPackets {
        FinishMessage();
      }
    }

    /** comms_usb_configuration_callback() */
    method ConfigurationCallback()
      requires Valid()
      modifies this
      ensures Valid() && State() == old(State()).(expectFlip := false, fill := 0, expected := 0)
    {
      expectFlipBitStateSet := false;
      messageFillIndex := 0;
      expectedPacketNumber := 0;
    }
  }
}
