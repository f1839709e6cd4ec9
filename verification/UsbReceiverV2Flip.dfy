/** The flip bit of the v2 device, and what a packet it rejects leaves behind:
    aux_mcu_v2/src/COMMS/comms_usb.c:171-272. */
module UsbReceiverV2Flip {
  import opened Wrappers
  import opened HidPackets
  import opened UsbReceiverV2
  import opened UsbReceiverV2Runs

  // ---------------------------------------------------------------- the flip bit expected

  predicate NoMarker(packets: seq<Raw>) {
    forall i :: 0 <= i < |packets| ==> !IsMarker(packets[i])
  }

  lemma FlipStep(r: Receiver, p: Raw)
    requires Fits(r) && !IsMarker(p)
    ensures var s := Receive(r, p);
            && r.sent <= s.sent && |s.sent| <= |r.sent| + 1
            && (s.expectFlip != r.expectFlip <==> |s.sent| == |r.sent| + 1)
  {
    hide IsMarker, FlipOf, IdOf, TotalOf, LengthOf;
  }

  lemma {:induction false} FlipCounts(r: Receiver, packets: seq<Raw>)
    requires Fits(r) && NoMarker(packets)
    ensures var s := Run(r, packets);
            r.sent <= s.sent && (s.expectFlip != r.expectFlip <==> (|s.sent| - |r.sent|) % 2 == 1)
  {
    if packets != [] {
      var init, p := packets[..|packets| - 1], packets[|packets| - 1];
      FlipCounts(r, init);
      FlipStep(Run(r, init), p);
      hide Receive;
    }
  }

  lemma StartsOnFlip0(history: seq<Raw>)
    requires history == [] || IsMarker(history[|history| - 1])
    ensures !Run(POWER_ON, history).expectFlip
  {
    hide IsMarker;
  }

  /** Whatever was received before: the flip bit expected is the parity of the deliveries since
      the last reset marker, or since power-on if there was none. */
  lemma FlipIsParity(history: seq<Raw>, packets: seq<Raw>)
    requires history == [] || IsMarker(history[|history| - 1])
    requires NoMarker(packets)
    ensures var r, s := Run(POWER_ON, history), Run(POWER_ON, history + packets);
            r.sent <= s.sent && (s.expectFlip <==> (|s.sent| - |r.sent|) % 2 == 1)
  {
    hide Run, Receive, IsMarker, NoMarker;
    StartsOnFlip0(history);
    RunAppend(POWER_ON, history, packets);
    FlipCounts(Run(POWER_ON, history), packets);
  }

  // ---------------------------------------------------------------- behind a rejected packet

  /** The flip bit is not the one expected, or the number is not, or the payload is full. */
  predicate Rejected(r: Receiver, p: Raw) {
    && !IsMarker(p)
    && (|| FlipOf(p) != r.expectFlip
        || (r.expected != 0 && IdOf(p) != r.expected)
        || (if IdOf(p) == 0 then 0 else r.fill) + LengthOf(p) > PAYLOAD_LENGTH)
  }

  lemma RejectedIsGone(r: Receiver, p: Raw)
    requires Fits(r) && Rejected(r, p)
    ensures var s := Receive(r, p);
            s.sent == r.sent && s.expected == 0 && s.fill == 0 && s.expectFlip == r.expectFlip
  {
    hide IsMarker, FlipOf, IdOf, TotalOf, LengthOf;
  }

  /** After any stream whose last packet was rejected, the packets of messages that go on with
      the flip bit expected before it make the device deliver exactly these messages. */
  lemma DeliversAfterRejection(history: seq<Raw>, p: Raw, ms: seq<seq<byte>>, ack: bool, raws: seq<Raw>)
    requires Rejected(Run(POWER_ON, history), p)
    requires AllReceivable(ms)
    requires Carries(raws, HostStream(ms, Run(POWER_ON, history).expectFlip, ack))
    ensures Run(POWER_ON, history + [p] + raws).sent == Run(POWER_ON, history).sent + Deliveries(ms)
  {
    hide Receive, Rejected, HostStream, Deliveries, AllReceivable, Carries;
    RunNext(history, p);
    RejectedIsGone(Run(POWER_ON, history), p);
    ReceiveMessages(Run(POWER_ON, history + [p]), ms, ack, raws);
    RunAppend(POWER_ON, history + [p], raws);
  }

  /** Packets on the other flip bit deliver nothing. */
  lemma {:induction false} OtherFlipIsIgnored(r: Receiver, packets: seq<Raw>)
    requires Fits(r) && r.expected == 0
    requires forall i :: 0 <= i < |packets| ==> !IsMarker(packets[i]) && FlipOf(packets[i]) != r.expectFlip
    ensures var s := Run(r, packets); s.sent == r.sent && s.expected == 0 && s.expectFlip == r.expectFlip
  {
    hide IsMarker, FlipOf;
    if packets != [] {
      OtherFlipIsIgnored(r, packets[..|packets| - 1]);
    }
  }

  lemma CarriesCount(m: seq<byte>, flip: bool, ack: bool, raws: seq<Raw>)
    requires Receivable(m) && Carries(raws, AllPackets(m, flip, ack))
    ensures |raws| == Count(|m|) > 0
  {
    CountBounds(|m|);
    PacketsAt(m, flip, ack, Count(|m|), 0);
  }

  lemma CarriedFields(m: seq<byte>, flip: bool, ack: bool, raws: seq<Raw>, i: nat)
    requires Receivable(m) && Carries(raws, AllPackets(m, flip, ack)) && i < |raws|
    ensures !IsMarker(raws[i]) && FlipOf(raws[i]) == flip && IdOf(raws[i]) == i && LengthOf(raws[i]) <= MAX_PAYLOAD
  {
    CarriesCount(m, flip, ack, raws);
    PacketsAt(m, flip, ack, Count(|m|), i);
    hide IsMarker, FlipOf, IdOf, LengthOf, Packet;
    RawFields(raws[i], m, flip, ack, i);
    ChunkIsShort(m, i);
  }

  /** A message is delivered once however often the host sends it: whatever is sent with its flip
      bit before the messages that follow on the other one is ignored. */
  lemma RepetitionIsIgnored(before: Receiver, m: seq<byte>, ms: seq<seq<byte>>, ack: bool,
                            raws: seq<Raw>, again: seq<Raw>, rest: seq<Raw>)
    requires Fits(before) && before.expected == 0 && Receivable(m) && AllReceivable(ms)
    requires Carries(raws, AllPackets(m, before.expectFlip, ack))
    requires forall i :: 0 <= i < |again| ==> !IsMarker(again[i]) && FlipOf(again[i]) == before.expectFlip
    requires Carries(rest, HostStream(ms, !before.expectFlip, ack))
    ensures Run(before, raws + again + rest).sent == before.sent + [Sent(|m|, Padded(m))] + Deliveries(ms)
  {
    hide Receive, Run, Carries, HostStream, Deliveries, AllReceivable, AllPackets, Receivable, FlipOf, IsMarker;
    ReceiveMessage(before, m, ack, raws);
    var r := Run(before, raws);
    OtherFlipIsIgnored(r, again);
    RunAppend(before, raws, again);
    ReceiveMessages(Run(before, raws + again), ms, ack, rest);
    RunAppend(before, raws + again, rest);
  }

  // ---------------------------------------------------------------- a message begun too late

  /** Before packet k of a message whose packet 0 was rejected: at most one packet is held, and
      deliveries since then had no more. */
  predicate Missed(r: Receiver, sent: seq<Sent>, k: nat) {
    && ((r.expected == 0 && r.fill == 0) || (k >= 2 && r.expected == 1 && r.fill <= MAX_PAYLOAD))
    && sent <= r.sent && forall i :: |sent| <= i < |r.sent| ==> r.sent[i].length <= MAX_PAYLOAD
  }

  lemma MissedNext(r: Receiver, sent: seq<Sent>, p: Raw, k: nat)
    requires Fits(r) && Missed(r, sent, k) && k > 0
    requires !IsMarker(p) && IdOf(p) == k && LengthOf(p) <= MAX_PAYLOAD
    ensures Missed(Receive(r, p), sent, k + 1)
  {
    hide IsMarker, FlipOf, IdOf, TotalOf, LengthOf;
  }

  lemma MissesFirst(r: Receiver, p: Raw)
    requires Fits(r) && r.expected != 0 && !IsMarker(p) && IdOf(p) == 0
    ensures Missed(Receive(r, p), r.sent, 1) && Receive(r, p).sent == r.sent
  {
    hide IsMarker, IdOf, Receive, FlipOf, LengthOf;
    RejectedIsGone(r, p);
  }

  lemma OneMore(r: Receiver, raws: seq<Raw>, k: nat)
    requires Fits(r) && 1 <= k <= |raws|
    ensures Run(r, raws[..k]) == Receive(Run(r, raws[..k - 1]), raws[k - 1])
    ensures Run(r, raws[..0]) == r
  {
    hide Receive;
    assert raws[..k][..k - 1] == raws[..k - 1];
  }

  lemma {:induction false} MissesRest(r: Receiver, m: seq<byte>, flip: bool, ack: bool, raws: seq<Raw>, k: nat)
    requires Fits(r) && r.expected != 0 && r.expectFlip == flip && Receivable(m) && 1 <= k <= |raws|
    requires Carries(raws, AllPackets(m, flip, ack))
    ensures Missed(Run(r, raws[..k]), r.sent, k) && (k == 1 ==> Run(r, raws[..k]).sent == r.sent)
  {
    hide Run, Receive, Missed, Carries, IsMarker, FlipOf, IdOf, LengthOf, AllPackets;
    CarriedFields(m, flip, ack, raws, k - 1);
    OneMore(r, raws, k);
    if k == 1 {
      MissesFirst(r, raws[0]);
    } else {
      MissesRest(r, m, flip, ack, raws, k - 1);
      MissedNext(Run(r, raws[..k - 1]), r.sent, raws[k - 1], k - 1);
    }
  }

  lemma CountsOne(n: nat)
    requires n > 0
    ensures Count(n) == 1 <==> n <= MAX_PAYLOAD
  {
  }

  /** After any stream, a message on the flip bit expected is delivered, alone and as it is, if
      and only if the device is not in the middle of another one. */
  lemma DeliveredIff(history: seq<Raw>, m: seq<byte>, ack: bool, raws: seq<Raw>)
    requires Receivable(m) && Carries(raws, AllPackets(m, Run(POWER_ON, history).expectFlip, ack))
    ensures Run(POWER_ON, history + raws).sent == Run(POWER_ON, history).sent + [Sent(|m|, Padded(m))]
       <==> Run(POWER_ON, history).expected == 0
  {
    hide Run, Receive, Carries, AllPackets, Padded;
    var r := Run(POWER_ON, history);
    RunAppend(POWER_ON, history, raws);
    if r.expected == 0 {
      ReceiveMessage(r, m, ack, raws);
    } else {
      CarriesCount(m, r.expectFlip, ack, raws);
      CountsOne(|m|);
      MissesRest(r, m, r.expectFlip, ack, raws, |raws|);
      assert raws[..|raws|] == raws;
      assert (r.sent + [Sent(|m|, Padded(m))])[|r.sent|].length == |m|;
    }
  }
}
