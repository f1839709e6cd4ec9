/** What the v2 device delivers on streams of any packets: aux_mcu_v2/src/COMMS/comms_usb.c:171-272. */
module UsbReceiverV2Runs {
  import opened Wrappers
  import opened HidPackets
  import opened UsbReceiverV2

  /** Packets with one flip bit, numbered by their place but for the first. */
  predicate Numbered(ps: seq<Raw>, flip: bool) {
    forall k {:trigger ps[k]} :: 0 <= k < |ps| ==> FlipOf(ps[k]) == flip && (k > 0 ==> IdOf(ps[k]) == k)
  }

  /** All packets of a message: numbered 0 to the total of the first, with one flip bit. */
  predicate Whole(ps: seq<Raw>) {
    ps != [] && Numbered(ps, FlipOf(ps[0])) && IdOf(ps[0]) == 0 && |ps| == TotalOf(ps[0]) + 1
  }

  function Tail(packets: seq<Raw>, n: nat): seq<Raw>
    requires n <= |packets|
  {
    packets[|packets| - n..]
  }

  /** What is collected: the packets since packet 0 was last expected. */
  ghost predicate Collected(open: seq<Raw>, r: Receiver) {
    && |open| == r.expected && Numbered(open, r.expectFlip)
    && r.fill == |Bodies(open)| <= PAYLOAD_LENGTH && r.payload[..r.fill] == Bodies(open)
    && (open != [] && IdOf(open[0]) == 0 ==> r.total == TotalOf(open[0]) && r.payload == Padded(Bodies(open)))
  }

  /** A delivery made of these packets: their bodies, and exactly these, zero-padded, if the
      packets are a whole message. They are one if and only if the first is packet 0. */
  ghost predicate MadeOf(m: Sent, ps: seq<Raw>) {
    && ps != [] && Numbered(ps, FlipOf(ps[0]))
    && m.length == |Bodies(ps)| <= PAYLOAD_LENGTH && m.payload[..m.length] == Bodies(ps)
    && (Whole(ps) <==> IdOf(ps[0]) == 0)
    && (Whole(ps) ==> m == Sent(|Bodies(ps)|, Padded(Bodies(ps))))
  }

  // ---------------------------------------------------------------- one packet

  lemma NothingCollected(r: Receiver)
    requires r.expected == 0 && r.fill == 0
    ensures Collected([], r)
  {
    assert r.payload[..0] == [];
  }

  lemma BodiesNext(open: seq<Raw>, p: Raw)
    ensures Bodies(open + [p]) == Bodies(open) + Body(p) && |Body(p)| == LengthOf(p)
  {
    assert (open + [p])[..|open|] == open;
  }

  lemma NumberedNext(open: seq<Raw>, p: Raw, flip: bool)
    requires Numbered(open, flip) && FlipOf(p) == flip && (open != [] ==> IdOf(p) == |open|)
    ensures Numbered(open + [p], flip)
  {
    hide FlipOf, IdOf;
  }

  predicate Accepted(r: Receiver, p: Raw) {
    !IsMarker(p) && FlipOf(p) == r.expectFlip && (r.expected != 0 ==> IdOf(p) == r.expected)
  }

  lemma BeginCollected(open: seq<Raw>, r: Receiver, p: Raw)
    requires Collected(open, r) && Accepted(r, p)
    ensures var b := Begin(r, p);
            Collected(open, b) && (open == [] && IdOf(p) == 0 ==> b.total == TotalOf(p) && b.payload == Padded([]))
  {
    hide IdOf, TotalOf, FlipOf;
    if IdOf(p) == 0 {
      assert open == [];
      NothingCollected(Begin(r, p));
    }
  }

  lemma PaddedNext(a: seq<byte>, b: seq<byte>)
    requires |a| + |b| <= PAYLOAD_LENGTH
    ensures Padded(a)[..|a|] + b + Padded(a)[|a| + |b|..] == Padded(a + b)
  {
  }

  lemma AppendCollected(open: seq<Raw>, b: Receiver, p: Raw)
    requires Collected(open, b) && Accepted(b, p) && b.fill + LengthOf(p) <= PAYLOAD_LENGTH
    requires open == [] && IdOf(p) == 0 ==> b.total == TotalOf(p) && b.payload == Padded([])
    ensures Collected(open + [p], Append(b, p))
  {
    hide IdOf, TotalOf, FlipOf, Numbered, Padded, Body;
    BodiesNext(open, p);
    NumberedNext(open, p, b.expectFlip);
    var ps := open + [p];
    assert ps[0] == if open == [] then p else open[0];
    if IdOf(ps[0]) == 0 {
      assert b.payload == Padded(Bodies(open));
      PaddedNext(Bodies(open), Body(p));
    }
  }

  lemma DeliveryIsMadeOf(ps: seq<Raw>, a: Receiver, p: Raw)
    requires Collected(ps, a) && ps != [] && p == ps[|ps| - 1] && IdOf(p) == a.total
    ensures MadeOf(Sent(a.fill, a.payload), ps)
  {
    hide TotalOf, FlipOf, Padded;
    assert FlipOf(ps[0]) == a.expectFlip;
    assert |ps| > 1 ==> IdOf(p) == |ps| - 1;
  }

  /** The packets held when a packet has been taken. */
  ghost predicate Taken(open: seq<Raw>, r: Receiver, p: Raw, s: Receiver, next: seq<Raw>) {
    && Collected(next, s)
    && if s.sent == r.sent then next == [] || next == open + [p]
       else next == [] && |s.sent| == |r.sent| + 1 && s.sent[..|r.sent|] == r.sent
            && MadeOf(s.sent[|r.sent|], open + [p])
  }

  lemma AppendKeeps(b: Receiver, p: Raw)
    requires b.fill + LengthOf(p) <= PAYLOAD_LENGTH
    ensures var a := Append(b, p); a.sent == b.sent && a.total == b.total
  {
  }

  lemma ReceiveTakes(open: seq<Raw>, r: Receiver, p: Raw) returns (next: seq<Raw>)
    requires Fits(r) && Collected(open, r)
    ensures Taken(open, r, p, Receive(r, p), next)
  {
    var s := Receive(r, p);
    hide IdOf, TotalOf, FlipOf, LengthOf, IsMarker, Append;
    next := [];
    if Accepted(r, p) {
      BeginCollected(open, r, p);
      var b := Begin(r, p);
      if b.fill + LengthOf(p) <= PAYLOAD_LENGTH {
        AppendCollected(open, b, p);
        AppendKeeps(b, p);
        hide Collected, MadeOf;
        if IdOf(p) == b.total {
          DeliveryIsMadeOf(open + [p], Append(b, p), p);
          NothingCollected(s);
        } else {
          next := open + [p];
        }
        return;
      }
    }
    NothingCollected(s);
  }

  // ---------------------------------------------------------------- whole runs

  /** The deliveries come, in order, from separate contiguous runs of packets. */
  ghost predicate Accounted(runs: seq<(nat, nat)>, sent: seq<Sent>, packets: seq<Raw>, held: nat) {
    && |runs| == |sent| && held <= |packets|
    && (forall i :: 0 <= i < |runs| ==>
          runs[i].0 < runs[i].1 <= |packets| && MadeOf(sent[i], packets[runs[i].0..runs[i].1]))
    && (forall i, j :: 0 <= i < j < |runs| ==> runs[i].1 <= runs[j].0)
    && (runs != [] ==> runs[|runs| - 1].1 <= |packets| - held)
  }

  lemma RunNext(init: seq<Raw>, p: Raw)
    ensures Run(POWER_ON, init + [p]) == Receive(Run(POWER_ON, init), p)
  {
    assert (init + [p])[..|init|] == init;
  }

  lemma AccountedNext(runs: seq<(nat, nat)>, init: seq<Raw>, p: Raw, r: Receiver, s: Receiver, next: seq<Raw>)
    returns (more: seq<(nat, nat)>)
    requires r.expected <= |init| && Accounted(runs, r.sent, init, r.expected)
    requires Taken(Tail(init, r.expected), r, p, s, next)
    ensures s.expected <= |init| + 1 && Accounted(more, s.sent, init + [p], s.expected)
    ensures Collected(Tail(init + [p], s.expected), s)
  {
    hide MadeOf, Numbered;
    var packets := init + [p];
    var open := Tail(init, r.expected);
    assert packets[|init| - r.expected..|packets|] == open + [p] == packets[|init| - r.expected..];
    assert s.expected == |next|;
    assert Tail(packets, s.expected) == next;
    forall i | 0 <= i < |runs| ensures MadeOf(r.sent[i], packets[runs[i].0..runs[i].1]) {
      assert packets[runs[i].0..runs[i].1] == init[runs[i].0..runs[i].1];
    }
    more := runs;
    if s.sent != r.sent {
      more := runs + [(|init| - r.expected, |packets|)];
      assert forall i :: 0 <= i < |runs| ==> s.sent[i] == s.sent[..|r.sent|][i] == r.sent[i];
    }
  }

  /** Whatever the stream of packets: the messages delivered come, in order, from separate
      contiguous runs of packets with one flip bit, numbered 1, 2, ... behind the first. Such a
      run is a whole message, numbered from 0 to its total, exactly if its first packet is
      packet 0, and then the message delivered is the bodies, zero-padded. */
  lemma {:induction false} EveryDelivery(packets: seq<Raw>) returns (runs: seq<(nat, nat)>)
    ensures var r := Run(POWER_ON, packets);
            r.expected <= |packets| && Accounted(runs, r.sent, packets, r.expected)
            && Collected(Tail(packets, r.expected), r)
  {
    if packets == [] {
      NothingCollected(POWER_ON);
      return [];
    }
    var init, p := packets[..|packets| - 1], packets[|packets| - 1];
    assert packets == init + [p];
    hide *;
    runs := EveryDelivery(init);
    RunNext(init, p);
    var r := Run(POWER_ON, init);
    var next := ReceiveTakes(Tail(init, r.expected), r, p);
    runs := AccountedNext(runs, init, p, r, Run(POWER_ON, packets), next);
  }

  /** A packet that makes the device deliver a message completes a whole one if and only if the
      first of the packets held with it is packet 0. */
  lemma WholeIffFirstIsZero(init: seq<Raw>, p: Raw)
    requires Run(POWER_ON, init + [p]).sent != Run(POWER_ON, init).sent
    ensures var r, s := Run(POWER_ON, init), Run(POWER_ON, init + [p]);
            && r.expected <= |init|
            && var ps := Tail(init + [p], r.expected + 1);
            && (Whole(ps) <==> IdOf(ps[0]) == 0)
            && (Whole(ps) ==> |Bodies(ps)| <= PAYLOAD_LENGTH
                              && s.sent == r.sent + [Sent(|Bodies(ps)|, Padded(Bodies(ps)))])
  {
    hide Run, Receive, Collected, IdOf, Padded, Whole, Numbered;
    var r, s := Run(POWER_ON, init), Run(POWER_ON, init + [p]);
    var runs := EveryDelivery(init);
    RunNext(init, p);
    var next := ReceiveTakes(Tail(init, r.expected), r, p);
    assert Tail(init + [p], r.expected + 1) == Tail(init, r.expected) + [p];
    assert s.sent == s.sent[..|r.sent|] + [s.sent[|r.sent|]];
  }

  // ---------------------------------------------------------------- a message that is not whole

  lemma ChunkIsShort(m: seq<byte>, k: nat)
    requires k < Count(|m|)
    ensures |Chunk(m, k)| <= MAX_PAYLOAD
  {
    ChunkBounds(|m|, k);
  }

  /** From power-on, a message of several packets and then, of another message as long, only
      the last packet: that packet's payload is delivered as a message, with the end of the
      first message behind it in the buffer. */
  lemma DeliversTailAlone(m: seq<byte>, m': seq<byte>, ack: bool, raws: seq<Raw>, last: Raw)
    requires Receivable(m) && Receivable(m') && Count(|m'|) == Count(|m|) > 1
    requires Carries(raws, AllPackets(m, false, ack)) && Packet(m', true, ack, Count(|m'|) - 1) <= last
    ensures var c := Chunk(m', Count(|m'|) - 1);
            && Run(POWER_ON, raws + [last]).sent == [Sent(|m|, Padded(m)), Sent(|c|, c + Padded(m)[|c|..])]
            && IdOf(last) != 0
  {
    hide Run, Chunk, Count, Packet, Padded;
    ReceiveMessage(POWER_ON, m, ack, raws);
    var r := Run(POWER_ON, raws);
    RunNext(raws, last);
    RawFields(last, m', true, ack, Count(|m'|) - 1);
    ChunkIsShort(m', Count(|m'|) - 1);
    assert r.payload[..0] == [];
    var c := Chunk(m', Count(|m'|) - 1);
    assert [] + c == c;
    assert [Sent(|m|, Padded(m))] + [Sent(|c|, c + Padded(m)[|c|..])]
        == [Sent(|m|, Padded(m)), Sent(|c|, c + Padded(m)[|c|..])];
  }
}
