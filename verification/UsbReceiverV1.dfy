/** Reassembly in the v1 device: aux_mcu/src/USBHID/usbhid.c:80-131 and
    aux_mcu/src/COMM/comm.c:119-148. */
module UsbReceiverV1 {
  import opened Wrappers
  import opened HidPackets

  const MAX_MSG_SIZE: nat := MAX_PAYLOAD * MAX_PACKETS

  /** A packet as the interrupt copies it: two header bytes and a 62-byte payload field. */
  type Report = p: seq<byte> | |p| == PACKET_SIZE && LengthOf(p) <= MAX_PAYLOAD witness Zeros(PACKET_SIZE)

  /** The message handed to DMA: the bytes behind the length are left over from earlier ones. */
  datatype Sent = Sent(length: nat, payload: seq<byte>)

  datatype Receiver = Receiver(
    flip: bool,
    counter: nat,
    size: nat,
    buffer: seq<byte>,
    length: nat,        // comm_tx.payload_len1
    payload: seq<byte>, // comm_tx.payload
    sent: seq<Sent>)

  const POWER_ON: Receiver := Receiver(false, 0, 0, Zeros(MAX_MSG_SIZE), 0, Zeros(PAYLOAD_LENGTH), [])

  predicate InBounds(r: Receiver) {
    && |r.buffer| == MAX_MSG_SIZE && |r.payload| == PAYLOAD_LENGTH
    && r.counter <= MAX_PACKETS && r.size <= MAX_PAYLOAD * r.counter && r.length <= PAYLOAD_LENGTH
  }

  /** Replaces bytes of a buffer. */
  function Written(buffer: seq<byte>, at: nat, data: seq<byte>): (w: seq<byte>)
    requires at + |data| <= |buffer|
    ensures |w| == |buffer| && w[..at + |data|] == buffer[..at] + data
  {
    buffer[..at] + data + buffer[at + |data|..]
  }

  /** A new flip bit discards what was collected. */
  function Sync(r: Receiver, p: Report): Receiver {
    if FlipOf(p) != r.flip then r.(flip := FlipOf(p), counter := 0, size := 0) else r
  }

  predicate Acceptable(r: Receiver, p: Report) {
    IdOf(p) == r.counter && r.counter < MAX_PACKETS
  }

  function Rewound(r: Receiver): Receiver {
    r.(counter := 0, size := 0)
  }

  function Stored(r: Receiver, p: Report): Receiver
    requires InBounds(r) && r.counter < MAX_PACKETS
  {
    r.(buffer := Written(r.buffer, r.size, Body(p)), size := r.size + LengthOf(p), counter := r.counter + 1)
  }

  /** comm_usb_process_in_pkt(): a body that does not fit is left out. */
  function Forwarded(r: Receiver, p: Report): Receiver
    requires InBounds(r)
  {
    var start := if IdOf(p) == 0 then 0 else r.length;
    var fits := start + LengthOf(p) <= PAYLOAD_LENGTH;
    var length := if fits then start + LengthOf(p) else start;
    var payload := if fits then Written(r.payload, start, Body(p)) else r.payload;
    r.(length := length, payload := payload,
       sent := if IdOf(p) == TotalOf(p) then r.sent + [Sent(length, payload)] else r.sent)
  }

  function Receive(r: Receiver, p: Report): (s: Receiver)
    requires InBounds(r)
    ensures InBounds(s)
  {
    var f := Sync(r, p);
    if !Acceptable(f, p) then Rewound(f)
    else
      var s := Forwarded(Stored(f, p), p);
      if IdOf(p) == TotalOf(p) then Rewound(s) else s
  }

  function Run(packets: seq<Report>): (r: Receiver)
    ensures InBounds(r)
  {
    if packets == [] then POWER_ON else Receive(Run(packets[..|packets| - 1]), packets[|packets| - 1])
  }

  // ---------------------------------------------------------------- what a message is

  /** Packets 0, 1, ... of a message, without the last one. */
  predicate Opening(ps: seq<Report>, flip: bool) {
    forall k {:trigger ps[k]} :: 0 <= k < |ps| ==>
      IdOf(ps[k]) == k && FlipOf(ps[k]) == flip && IdOf(ps[k]) != TotalOf(ps[k])
  }

  /** All packets of a message. */
  predicate Whole(ps: seq<Report>) {
    && 0 < |ps| <= MAX_PACKETS
    && var p := ps[|ps| - 1];
       Opening(ps[..|ps| - 1], FlipOf(p)) && IdOf(p) == |ps| - 1 == TotalOf(p)
  }

  /** The bodies, leaving out each that does not fit behind those before it. */
  function Fitted(ps: seq<Report>): (f: seq<byte>)
    ensures |f| <= PAYLOAD_LENGTH
  {
    if ps == [] then []
    else
      var f, b := Fitted(ps[..|ps| - 1]), Body(ps[|ps| - 1]);
      if |f| + |b| <= PAYLOAD_LENGTH then f + b else f
  }

  lemma {:induction false} FittedIffShort(ps: seq<Report>)
    ensures |Fitted(ps)| <= |Bodies(ps)|
    ensures Fitted(ps) == Bodies(ps) <==> |Bodies(ps)| <= PAYLOAD_LENGTH
  {
    if ps != [] {
      FittedIffShort(ps[..|ps| - 1]);
    }
  }

  function Tail(packets: seq<Report>, n: nat): seq<Report>
    requires n <= |packets|
  {
    packets[|packets| - n..]
  }

  /** What is collected after any stream: the packets since the counter was last zero. */
  ghost predicate Collected(packets: seq<Report>, r: Receiver) {
    && r.counter <= |packets|
    && var open := Tail(packets, r.counter);
       && Opening(open, r.flip)
       && r.size == |Bodies(open)| <= MAX_MSG_SIZE == |r.buffer| && r.buffer[..r.size] == Bodies(open)
       && (r.counter > 0 ==> r.length <= |r.payload| && r.payload[..r.length] == Fitted(open))
       && r.flip == (packets != [] && FlipOf(packets[|packets| - 1]))
  }

  /** The number of packets held when a packet arrives, after its flip bit was looked at. */
  function Held(r: Receiver, p: Report): nat {
    if FlipOf(p) != r.flip then 0 else r.counter
  }

  lemma TailNext(init: seq<Report>, p: Report, n: nat)
    requires n <= |init|
    ensures Tail(init + [p], n + 1) == Tail(init, n) + [p]
  {
  }

  lemma TailLength(packets: seq<Report>, n: nat)
    requires n <= |packets|
    ensures |Tail(packets, n)| == n
  {
  }

  lemma StoreStep(init: seq<Report>, f: Receiver, p: Report)
    requires InBounds(f) && Acceptable(f, p) && f.counter <= |init|
    requires var open := Tail(init, f.counter);
             f.size == |Bodies(open)| && f.buffer[..f.size] == Bodies(open)
             && (f.counter > 0 ==> f.payload[..f.length] == Fitted(open))
    ensures var s := Forwarded(Stored(f, p), p);
            var open := Tail(init + [p], f.counter + 1);
            && s.size == |Bodies(open)| && s.buffer[..s.size] == Bodies(open)
            && s.length <= PAYLOAD_LENGTH && s.payload[..s.length] == Fitted(open)
  {
    hide IdOf, LengthOf, Written, Tail;
    TailNext(init, p, f.counter);
    var open := Tail(init, f.counter);
    var next := Tail(init + [p], f.counter + 1);
    assert next == open + [p];
    assert next[..|next| - 1] == open;
    if f.counter == 0 {
      assert open == [] by { TailLength(init, 0); }
      assert f.payload[..0] == [];
    }
  }

  lemma CountsOne(f: Receiver, p: Report)
    requires InBounds(f) && Acceptable(f, p)
    ensures InBounds(Stored(f, p))
    ensures var s := Forwarded(Stored(f, p), p);
            && s.counter == f.counter + 1 && s.flip == f.flip && |s.buffer| == |f.buffer| && |s.payload| == |f.payload|
            && |s.sent| == |f.sent| + (if IdOf(p) == TotalOf(p) then 1 else 0)
            && (IdOf(p) == TotalOf(p) ==> s.sent == f.sent + [Sent(s.length, s.payload)])
            && (IdOf(p) != TotalOf(p) ==> s.sent == f.sent)
  {
  }

  lemma NothingCollected(packets: seq<Report>, r: Receiver)
    requires r.counter == 0 && r.size == 0 && |r.buffer| == MAX_MSG_SIZE
    requires r.flip == (packets != [] && FlipOf(packets[|packets| - 1]))
    ensures Collected(packets, r)
  {
    assert r.buffer[..0] == [];
  }

  lemma OpeningGrows(open: seq<Report>, p: Report)
    requires Opening(open, FlipOf(p)) && IdOf(p) == |open| && IdOf(p) != TotalOf(p)
    ensures Opening(open + [p], FlipOf(p))
  {
    hide IdOf, TotalOf, FlipOf;
  }

  lemma NothingOpens(init: seq<Report>, f: Receiver, flip: bool)
    requires f.counter <= |init|
    ensures f.counter == 0 ==> Opening(Tail(init, f.counter), flip)
  {
  }

  lemma CollectedStep(init: seq<Report>, r: Receiver, p: Report)
    requires InBounds(r) && Collected(init, r)
    ensures Collected(init + [p], Receive(r, p))
  {
    hide IdOf, LengthOf, FlipOf, TotalOf, Stored, Forwarded, Written, Tail, Bodies, Fitted, Opening;
    var f := Sync(r, p);
    assert (init + [p])[|init|] == p;
    assert Collected(init, f.(flip := r.flip)) by {
      if FlipOf(p) != r.flip {
        NothingCollected(init, f.(flip := r.flip));
      }
    }
    if !Acceptable(f, p) {
      NothingCollected(init + [p], Rewound(f));
    } else {
      CountsOne(f, p);
      var s := Forwarded(Stored(f, p), p);
      if IdOf(p) == TotalOf(p) {
        NothingCollected(init + [p], Rewound(s));
      } else {
        StoreStep(init, f, p);
        TailNext(init, p, f.counter);
        TailLength(init, f.counter);
        assert Opening(Tail(init, f.counter), FlipOf(p)) by {
          NothingOpens(init, f, FlipOf(p));
        }
        OpeningGrows(Tail(init, f.counter), p);
      }
    }
  }

  lemma RunNext(init: seq<Report>, p: Report)
    ensures Run(init + [p]) == Receive(Run(init), p)
  {
    assert (init + [p])[..|init + [p]| - 1] == init;
  }

  /** After any stream of packets the receive buffer holds the bodies of the packets counted so
      far, numbered from 0 with the flip bit of the last packet, in at most 992 bytes. */
  lemma {:induction false} HoldsOpenMessage(packets: seq<Report>)
    ensures Collected(packets, Run(packets))
  {
    if packets == [] {
      NothingCollected([], POWER_ON);
    } else {
      hide *;
      var init, p := packets[..|packets| - 1], packets[|packets| - 1];
      assert packets == init + [p];
      HoldsOpenMessage(init);
      CollectedStep(init, Run(init), p);
      RunNext(init, p);
    }
  }

  // ---------------------------------------------------------------- what is handed over

  function Text(s: Sent): seq<byte>
    requires s.length <= |s.payload|
  {
    s.payload[..s.length]
  }

  /** One message more, with these packets' bodies. */
  ghost predicate HandsOver(before: seq<Sent>, after: seq<Sent>, ps: seq<Report>) {
    && |after| == |before| + 1 && after[..|before|] == before
    && var s := after[|before|]; s.length <= |s.payload| == PAYLOAD_LENGTH && Text(s) == Fitted(ps)
  }

  lemma WholeIff(init: seq<Report>, f: Receiver, p: Report)
    requires f.counter <= |init| && Opening(Tail(init, f.counter), FlipOf(p))
    ensures Whole(Tail(init + [p], f.counter + 1)) <==> Acceptable(f, p) && IdOf(p) == TotalOf(p)
  {
    hide IdOf, FlipOf, TotalOf, Opening, Tail;
    TailNext(init, p, f.counter);
    TailLength(init, f.counter);
    var ps := Tail(init + [p], f.counter + 1);
    assert ps[..|ps| - 1] == Tail(init, f.counter);
  }

  lemma HandOverStep(init: seq<Report>, f: Receiver, p: Report)
    requires InBounds(f) && f.flip == FlipOf(p) && Collected(init, f.(flip := init != [] && FlipOf(init[|init| - 1])))
    requires f.counter > 0 ==> f.flip == (init != [] && FlipOf(init[|init| - 1]))
    ensures f.counter <= |init|
    ensures var ps := Tail(init + [p], f.counter + 1);
            var after := Receive(f, p).sent;
            if Whole(ps) then HandsOver(f.sent, after, ps) else after == f.sent
  {
    hide IdOf, LengthOf, FlipOf, TotalOf, Stored, Forwarded, Written, Bodies, Fitted, Opening, Whole, Tail;
    NothingOpens(init, f, FlipOf(p));
    WholeIff(init, f, p);
    if Acceptable(f, p) {
      CountsOne(f, p);
      StoreStep(init, f, p);
    }
  }

  lemma SyncOnce(r: Receiver, p: Report)
    requires InBounds(r)
    ensures var f := Sync(r, p);
            InBounds(f) && f.flip == FlipOf(p) && f.counter == Held(r, p) && f.sent == r.sent
                && Receive(f, p) == Receive(r, p)
  {
    hide Stored, Forwarded, Acceptable;
  }

  lemma SyncCollected(init: seq<Report>, r: Receiver, p: Report)
    requires InBounds(r) && Collected(init, r)
    ensures var f := Sync(r, p); Collected(init, f.(flip := r.flip))
  {
    if FlipOf(p) != r.flip {
      NothingCollected(init, Sync(r, p).(flip := r.flip));
    }
  }

  lemma HeldMeansSameFlip(r: Receiver, p: Report)
    ensures Held(r, p) > 0 ==> FlipOf(p) == r.flip
  {
  }

  lemma FlipFollows(packets: seq<Report>)
    ensures Run(packets).flip == (packets != [] && FlipOf(packets[|packets| - 1]))
  {
    HoldsOpenMessage(packets);
  }

  /** A packet completes a message exactly if it is the last packet of a whole one together
      with the packets held. */
  lemma HandOver(init: seq<Report>, p: Report)
    ensures var n := Held(Run(init), p); var before, after := Run(init).sent, Run(init + [p]).sent;
            && n <= |init|
            && var ps := Tail(init + [p], n + 1);
            if Whole(ps) then HandsOver(before, after, ps) else after == before
  {
    hide *;
    var r := Run(init);
    HoldsOpenMessage(init);
    RunNext(init, p);
    SyncCollected(init, r, p);
    SyncOnce(r, p);
    var f := Sync(r, p);
    FlipFollows(init);
    HeldMeansSameFlip(r, p);
    HandOverStep(init, f, p);
  }

  /** Nothing is held when the packet at this place arrives. */
  predicate Afresh(packets: seq<Report>, first: nat)
    requires first < |packets|
  {
    || first == 0
    || FlipOf(packets[first]) != FlipOf(packets[first - 1])
    || Run(packets[..first]).counter == 0
  }

  lemma AfreshHoldsNothing(packets: seq<Report>, first: nat)
    requires first < |packets|
    ensures Afresh(packets, first) <==> Held(Run(packets[..first]), packets[first]) == 0
  {
    HoldsOpenMessage(packets[..first]);
  }

  lemma HeldGrows(r: Receiver, p: Report, next: Report)
    requires InBounds(r) && Held(r, p) == IdOf(p) < MAX_PACKETS && IdOf(p) != TotalOf(p) && FlipOf(next) == FlipOf(p)
    ensures Held(Receive(r, p), next) == Held(r, p) + 1
  {
    CountsOne(Sync(r, p), p);
  }

  lemma HeldGrowsAt(packets: seq<Report>, n: nat)
    requires n + 1 < |packets|
    requires var p := packets[n];
             && Held(Run(packets[..n]), p) == IdOf(p) < MAX_PACKETS && IdOf(p) != TotalOf(p)
             && FlipOf(packets[n + 1]) == FlipOf(p)
    ensures Held(Run(packets[..n + 1]), packets[n + 1]) == IdOf(packets[n]) + 1
  {
    hide IdOf, LengthOf, FlipOf, TotalOf, Run, Held, Receive;
    assert packets[..n + 1] == packets[..n] + [packets[n]];
    RunNext(packets[..n], packets[n]);
    HeldGrows(Run(packets[..n]), packets[n], packets[n + 1]);
  }

  lemma OpeningUpTo(packets: seq<Report>, first: nat, k: nat, flip: bool)
    requires first + k < |packets| && Opening(packets[first..first + k + 1], flip)
    ensures Opening(packets[first..first + k], flip)
    ensures var p := packets[first + k]; IdOf(p) == k && FlipOf(p) == flip && IdOf(p) != TotalOf(p)
  {
    hide IdOf, FlipOf, TotalOf;
    var ps := packets[first..first + k + 1];
    assert ps[k] == packets[first + k];
    forall i {:trigger packets[first..first + k][i]} | 0 <= i < k
      ensures var p := packets[first..first + k][i]; IdOf(p) == i && FlipOf(p) == flip && IdOf(p) != TotalOf(p)
    {
      assert packets[first..first + k][i] == ps[i];
    }
  }

  /** A message's packets are held one after another. */
  lemma {:induction false} HoldsOneMore(packets: seq<Report>, first: nat, k: nat)
    requires first + k < |packets| && k < MAX_PACKETS && Afresh(packets, first)
    requires Opening(packets[first..first + k], FlipOf(packets[first + k]))
    ensures Held(Run(packets[..first + k]), packets[first + k]) == k
  {
    hide IdOf, LengthOf, FlipOf, TotalOf, Run, Opening, Afresh, Held;
    if k == 0 {
      AfreshHoldsNothing(packets, first);
    } else {
      OpeningUpTo(packets, first, k - 1, FlipOf(packets[first + k]));
      HoldsOneMore(packets, first, k - 1);
      HeldGrowsAt(packets, first + k - 1);
    }
  }

  lemma TailIs(packets: seq<Report>, n: nat)
    requires n <= |packets|
    ensures Tail(packets, n) == packets[|packets| - n..]
  {
  }

  lemma HandsOverMore(before: seq<Sent>, after: seq<Sent>, ps: seq<Report>)
    ensures HandsOver(before, after, ps) ==> after != before
  {
  }

  /** The packets with which the last one may complete a message. */
  lemma HandOverAt(init: seq<Report>, p: Report) returns (n: nat)
    ensures n == Held(Run(init), p) <= |init|
    ensures var ps := (init + [p])[|init| - n..];
            && (Whole(ps) <==> Run(init + [p]).sent != Run(init).sent)
            && (Whole(ps) ==> HandsOver(Run(init).sent, Run(init + [p]).sent, ps))
  {
    hide *;
    HandOver(init, p);
    n := Held(Run(init), p);
    TailIs(init + [p], n + 1);
    HandsOverMore(Run(init).sent, Run(init + [p]).sent, (init + [p])[|init| - n..]);
  }

  lemma CountsHeld(r: Receiver, p: Report)
    requires InBounds(r)
    ensures Receive(r, p).counter > 0 ==> Receive(r, p).counter == Held(r, p) + 1
  {
    var f := Sync(r, p);
    if Acceptable(f, p) {
      CountsOne(f, p);
    }
  }

  lemma AfreshExtends(packets: seq<Report>, first: nat)
    requires first + 1 < |packets| && Afresh(packets[..|packets| - 1], first)
    ensures Afresh(packets, first)
  {
    assert packets[..|packets| - 1][..first] == packets[..first];
  }

  /** The packets counted were collected from a place where nothing was held. */
  lemma {:induction false} StartsAfresh(packets: seq<Report>)
    ensures var c := Run(packets).counter;
            c > 0 ==> c <= |packets| && Afresh(packets, |packets| - c)
  {
    var c := Run(packets).counter;
    if c > 0 {
      hide IdOf, LengthOf, FlipOf, TotalOf, Stored, Forwarded;
      var init, p := packets[..|packets| - 1], packets[|packets| - 1];
      CountsHeld(Run(init), p);
      if c == 1 {
        AfreshHoldsNothing(packets, |init|);
      } else {
        StartsAfresh(init);
        AfreshExtends(packets, |packets| - c);
      }
    }
  }

  lemma HeldIsAfresh(init: seq<Report>, p: Report)
    ensures var n := Held(Run(init), p); n <= |init| && Afresh(init + [p], |init| - n)
  {
    var packets := init + [p];
    assert packets[..|packets| - 1] == init == packets[..|init|];
    if Held(Run(init), p) == 0 {
      AfreshHoldsNothing(packets, |init|);
    } else {
      StartsAfresh(init);
      AfreshExtends(packets, |init| - Run(init).counter);
    }
  }

  lemma WholeIsHeld(packets: seq<Report>, first: nat)
    requires first < |packets| && Afresh(packets, first) && Whole(packets[first..])
    ensures Held(Run(packets[..|packets| - 1]), packets[|packets| - 1]) == |packets| - 1 - first
  {
    var k := |packets| - 1 - first;
    assert packets[first..][..k] == packets[first..first + k];
    HoldsOneMore(packets, first, k);
  }

  /** The last packet of a stream makes the device hand over a message if and only if the
      stream ends in a whole message that starts while nothing is held: at the very start,
      where the flip bit changes, or where the counter is 0. */
  lemma HandedOverIff(packets: seq<Report>)
    requires packets != []
    ensures var before := Run(packets[..|packets| - 1]).sent;
            Run(packets).sent != before
            <==> exists first: nat :: first < |packets| && Afresh(packets, first) && Whole(packets[first..])
    ensures forall first: nat ::
              (first < |packets| && Afresh(packets, first) && Whole(packets[first..])
               ==> HandsOver(Run(packets[..|packets| - 1]).sent, Run(packets).sent, packets[first..]))
  {
    hide *;
    var init, p := packets[..|packets| - 1], packets[|packets| - 1];
    assert packets == init + [p];
    var n := HandOverAt(init, p);
    HeldIsAfresh(init, p);
    forall first: nat | first < |packets| && Afresh(packets, first) && Whole(packets[first..])
      ensures first == |init| - n
    {
      WholeIsHeld(packets, first);
    }
  }

  ghost predicate Makes(s: Sent, run: (nat, nat), packets: seq<Report>) {
    && run.0 < run.1 <= |packets| && Whole(packets[run.0..run.1])
    && s.length <= |s.payload| == PAYLOAD_LENGTH && Text(s) == Fitted(packets[run.0..run.1])
  }

  /** The messages handed over and the packets they are made of. */
  ghost predicate MadeOf(sent: seq<Sent>, runs: seq<(nat, nat)>, packets: seq<Report>) {
    && |runs| == |sent|
    && (forall i :: 0 <= i < |runs| ==> Makes(sent[i], runs[i], packets))
    && (forall i, j :: 0 <= i < j < |runs| ==> runs[i].1 <= runs[j].0)
  }

  /** Separate runs that end before the packets now held. */
  ghost predicate Accounted(runs: seq<(nat, nat)>, packets: seq<Report>, r: Receiver) {
    && MadeOf(r.sent, runs, packets) && r.counter <= |packets|
    && (runs != [] ==> runs[|runs| - 1].1 <= |packets| - r.counter)
  }

  lemma MadeOfMore(sent: seq<Sent>, runs: seq<(nat, nat)>, packets: seq<Report>, p: Report)
    requires MadeOf(sent, runs, packets)
    ensures MadeOf(sent, runs, packets + [p])
  {
    hide Whole, Fitted;
    forall i | 0 <= i < |runs|
      ensures Makes(sent[i], runs[i], packets + [p])
    {
      assert (packets + [p])[runs[i].0..runs[i].1] == packets[runs[i].0..runs[i].1];
    }
  }

  lemma MadeOfOneMore(before: seq<Sent>, after: seq<Sent>, runs: seq<(nat, nat)>, packets: seq<Report>, first: nat)
    requires MadeOf(before, runs, packets) && first < |packets| && Whole(packets[first..])
    requires HandsOver(before, after, packets[first..])
    requires runs != [] ==> runs[|runs| - 1].1 <= first
    ensures MadeOf(after, runs + [(first, |packets|)], packets)
  {
    hide Whole, Fitted;
    assert packets[first..|packets|] == packets[first..];
    var more := runs + [(first, |packets|)];
    forall i | 0 <= i < |more|
      ensures Makes(after[i], more[i], packets)
    {
      assert i < |runs| ==> after[i] == after[..|before|][i] == before[i] && more[i] == runs[i];
    }
  }

  lemma AccountedStep(runs: seq<(nat, nat)>, init: seq<Report>, p: Report, before: Receiver, after: Receiver)
      returns (next: seq<(nat, nat)>)
    requires Accounted(runs, init, before)
    requires after.counter > 0 ==> after.counter == Held(before, p) + 1
    requires after.sent != before.sent ==> after.counter == 0
    requires Held(before, p) <= before.counter
    requires var ps := Tail(init + [p], Held(before, p) + 1);
             if Whole(ps) then HandsOver(before.sent, after.sent, ps) else after.sent == before.sent
    ensures Accounted(next, init + [p], after)
  {
    hide Held, Whole, HandsOver, Makes, Tail;
    var n := Held(before, p);
    var packets := init + [p];
    MadeOfMore(before.sent, runs, init, p);
    TailIs(packets, n + 1);
    HandsOverMore(before.sent, after.sent, packets[|init| - n..]);
    next := runs;
    if Whole(packets[|init| - n..]) {
      MadeOfOneMore(before.sent, after.sent, runs, packets, |init| - n);
      next := runs + [(|init| - n, |packets|)];
    }
  }

  lemma AccountedMade(runs: seq<(nat, nat)>, packets: seq<Report>, r: Receiver)
    requires Accounted(runs, packets, r)
    ensures MadeOf(r.sent, runs, packets)
  {
  }

  lemma HeldAtMost(r: Receiver, p: Report)
    ensures Held(r, p) <= r.counter
  {
  }

  lemma WholeResets(init: seq<Report>, p: Report)
    ensures Run(init + [p]).sent != Run(init).sent ==> Run(init + [p]).counter == 0
  {
    RunNext(init, p);
    var f := Sync(Run(init), p);
    if Acceptable(f, p) {
      CountsOne(f, p);
    }
  }

  /** Whatever the stream of packets, the messages handed over come, in order, from separate
      contiguous runs of packets numbered 0 to the total with one flip bit, and each carries
      what fits of its packets' bodies, which is all of them if they are at most 536 bytes. */
  lemma {:induction false} EveryMessageIsWhole(packets: seq<Report>) returns (runs: seq<(nat, nat)>)
    ensures MadeOf(Run(packets).sent, runs, packets)
    ensures Accounted(runs, packets, Run(packets))
  {
    if packets == [] {
      return [];
    }
    hide *;
    var init, p := packets[..|packets| - 1], packets[|packets| - 1];
    assert packets == init + [p];
    runs := EveryMessageIsWhole(init);
    HandOver(init, p);
    RunNext(init, p);
    CountsHeld(Run(init), p);
    HeldAtMost(Run(init), p);
    WholeResets(init, p);
    runs := AccountedStep(runs, init, p, Run(init), Run(packets));
    AccountedMade(runs, packets, Run(packets));
  }

  // ---------------------------------------------------------------- a conforming host

  /** The reports that carry a message's packets. */
  ghost predicate Carries(reports: seq<Report>, m: seq<byte>, flip: bool, ack: bool)
    requires Count(|m|) <= MAX_PACKETS
  {
    && |reports| == Count(|m|)
    && forall k {:trigger reports[k]} :: 0 <= k < |reports| ==> Packet(m, flip, ack, k) <= reports[k]
  }

  lemma ReportFields(report: Report, m: seq<byte>, flip: bool, ack: bool, k: nat)
    requires k < Count(|m|) <= MAX_PACKETS && Packet(m, flip, ack, k) <= report
    ensures FlipOf(report) == flip && IdOf(report) == k && TotalOf(report) == Count(|m|) - 1
            && Body(report) == Chunk(m, k)
  {
    PacketFields(m, flip, ack, k);
    var p := Packet(m, flip, ack, k);
    assert report[0] == p[0] && report[1] == p[1];
    assert report[2..2 + LengthOf(p)] == report[..|p|][2..] == p[2..];
  }

  lemma {:induction false} BodiesOfMessage(reports: seq<Report>, m: seq<byte>, flip: bool, ack: bool, k: nat)
    requires k <= Count(|m|) <= MAX_PACKETS && Carries(reports, m, flip, ack)
    ensures Bodies(reports[..k]) == m[..End(|m|, k)]
  {
    if k > 0 {
      BodiesOfMessage(reports, m, flip, ack, k - 1);
      ReportFields(reports[k - 1], m, flip, ack, k - 1);
      ChunkBounds(|m|, k - 1);
      assert reports[..k][..k - 1] == reports[..k - 1];
    }
  }

  lemma HostSendsWhole(reports: seq<Report>, m: seq<byte>, flip: bool, ack: bool)
    requires Sendable(m) && Carries(reports, m, flip, ack)
    ensures |reports| > 0 && Whole(reports) && Bodies(reports) == m && FlipOf(reports[0]) == flip
  {
    hide IdOf, TotalOf, FlipOf, Packet;
    CountBounds(|m|);
    forall k {:trigger reports[k]} | 0 <= k < |reports|
      ensures FlipOf(reports[k]) == flip && IdOf(reports[k]) == k && TotalOf(reports[k]) == Count(|m|) - 1
    {
      ReportFields(reports[k], m, flip, ack, k);
    }
    BodiesOfMessage(reports, m, flip, ack, |reports|);
    assert reports[..|reports|] == reports;
    ChunkBounds(|m|, |reports| - 1);
  }

  lemma SilentUnlessLast(init: seq<Report>, p: Report)
    ensures IdOf(p) != TotalOf(p) ==> Run(init + [p]).sent == Run(init).sent
  {
    hide IdOf, TotalOf;
    RunNext(init, p);
    var f := Sync(Run(init), p);
    if Acceptable(f, p) {
      CountsOne(f, p);
    }
  }

  lemma {:induction false} SilentBeforeLast(history: seq<Report>, reports: seq<Report>, k: nat)
    requires k < |reports| && Whole(reports)
    ensures Run(history + reports[..k]).sent == Run(history).sent
  {
    hide Run, IdOf, TotalOf, FlipOf;
    if k == 0 {
      assert history + reports[..0] == history;
    } else {
      SilentBeforeLast(history, reports, k - 1);
      assert reports[..|reports| - 1][k - 1] == reports[k - 1];
      SilentUnlessLast(history + reports[..k - 1], reports[k - 1]);
      assert history + reports[..k] == history + reports[..k - 1] + [reports[k - 1]];
    }
  }

  /** A whole message on a flip bit other than the last one is handed over, and nothing else. */
  lemma DeliversWhole(history: seq<Report>, reports: seq<Report>)
    requires |reports| > 0 && Whole(reports)
    requires history != [] ==> FlipOf(history[|history| - 1]) != FlipOf(reports[0])
    ensures HandsOver(Run(history).sent, Run(history + reports).sent, reports)
  {
    hide Whole, Run, FlipOf, HandsOver;
    var packets := history + reports;
    assert packets[|history|..] == reports;
    assert packets[|history|] == reports[0];
    HandedOverIff(packets);
    SilentBeforeLast(history, reports, |reports| - 1);
    assert packets[..|packets| - 1] == history + reports[..|reports| - 1];
    assert Afresh(packets, |history|);
  }

  /** Whatever came before: a message of 1 to 536 bytes whose packets bear the other flip bit
      than the packet before them is handed over, with exactly its bytes. */
  lemma DeliversNextMessage(history: seq<Report>, reports: seq<Report>, m: seq<byte>, flip: bool, ack: bool)
    requires Sendable(m) && |m| <= PAYLOAD_LENGTH && Carries(reports, m, flip, ack)
    requires history != [] ==> FlipOf(history[|history| - 1]) != flip
    ensures var before, after := Run(history).sent, Run(history + reports).sent;
            && |after| == |before| + 1 && after[..|before|] == before
            && var s := after[|before|]; s.length <= |s.payload| && Text(s) == m
  {
    HostSendsWhole(reports, m, flip, ack);
    FittedIffShort(reports);
    hide Whole, Run, FlipOf, Fitted, Bodies, Carries;
    DeliversWhole(history, reports);
  }

  /** The flip bit of the k-th message. */
  function FlipAt(flip: bool, k: nat): bool {
    if k % 2 == 0 then flip else !flip
  }

  function Flat(streams: seq<seq<Report>>): seq<Report> {
    if streams == [] then [] else Flat(streams[..|streams| - 1]) + streams[|streams| - 1]
  }

  lemma FlipAlternates(flip: bool, k: nat)
    ensures FlipAt(flip, 0) == flip && FlipAt(flip, k + 1) == !FlipAt(flip, k)
  {
  }

  /** The reports of the k-th message. */
  ghost predicate CarriesAt(reports: seq<Report>, m: seq<byte>, flip: bool, ack: bool, k: nat) {
    Sendable(m) && |m| <= PAYLOAD_LENGTH && Carries(reports, m, FlipAt(flip, k), ack)
  }

  /** The reports of each message, the flip bit alternating. */
  ghost predicate CarryAll(streams: seq<seq<Report>>, ms: seq<seq<byte>>, flip: bool, ack: bool) {
    |streams| == |ms| && forall k :: 0 <= k < |ms| ==> CarriesAt(streams[k], ms[k], flip, ack, k)
  }

  predicate Is(s: Sent, m: seq<byte>) {
    s.length <= |s.payload| && Text(s) == m
  }

  /** These messages more, in order. */
  ghost predicate Adds(before: seq<Sent>, after: seq<Sent>, ms: seq<seq<byte>>) {
    && |after| == |before| + |ms| && after[..|before|] == before
    && forall k :: 0 <= k < |ms| ==> Is(after[|before| + k], ms[k])
  }

  /** The last packet bears this flip bit. */
  predicate EndsWith(packets: seq<Report>, flip: bool) {
    packets != [] && FlipOf(packets[|packets| - 1]) == flip
  }

  lemma LastFlip(before: seq<Report>, reports: seq<Report>, m: seq<byte>, flip: bool, ack: bool)
    requires Sendable(m) && Carries(reports, m, flip, ack)
    ensures EndsWith(before + reports, flip)
  {
    ReportFields(reports[|reports| - 1], m, flip, ack, |reports| - 1);
  }

  lemma AddsOne(before: seq<Sent>, mid: seq<Sent>, after: seq<Sent>, ms: seq<seq<byte>>, m: seq<byte>)
    requires Adds(before, mid, ms)
    requires |after| == |mid| + 1 && after[..|mid|] == mid && Is(after[|mid|], m)
    ensures Adds(before, after, ms + [m])
  {
    hide Is;
    assert forall k :: 0 <= k < |mid| ==> after[k] == after[..|mid|][k] == mid[k];
    assert after[..|before|] == mid[..|before|];
  }

  /** One message more, with the flip bit that is due. */
  lemma DeliversAnother(history: seq<Report>, before: seq<Report>, reports: seq<Report>,
                        done: seq<seq<byte>>, m: seq<byte>, flip: bool, ack: bool)
    requires CarriesAt(reports, m, flip, ack, |done|)
    requires Adds(Run(history).sent, Run(before).sent, done)
    requires before == [] || EndsWith(before, !FlipAt(flip, |done|))
    ensures Adds(Run(history).sent, Run(before + reports).sent, done + [m])
    ensures EndsWith(before + reports, FlipAt(flip, |done|))
  {
    hide Run, Carries, Adds, FlipAt;
    DeliversNextMessage(before, reports, m, FlipAt(flip, |done|), ack);
    LastFlip(before, reports, m, FlipAt(flip, |done|), ack);
    AddsOne(Run(history).sent, Run(before).sent, Run(before + reports).sent, done, m);
  }

  lemma CarriesNone(streams: seq<seq<Report>>, flip: bool, ack: bool)
    requires CarryAll(streams, [], flip, ack)
    ensures Flat(streams) == []
  {
  }

  lemma AddsNone(sent: seq<Sent>)
    ensures Adds(sent, sent, [])
  {
  }

  lemma CarriesLast(streams: seq<seq<Report>>, ms: seq<seq<byte>>, flip: bool, ack: bool)
    requires CarryAll(streams, ms, flip, ack) && ms != []
    ensures var k := |ms| - 1;
            && |streams| == k + 1 && CarryAll(streams[..k], ms[..k], flip, ack)
               && CarriesAt(streams[k], ms[k], flip, ack, k)
            && Flat(streams) == Flat(streams[..k]) + streams[k]
  {
    hide CarriesAt;
  }

  /** Whatever came before: messages of 1 to 536 bytes whose flip bit alternates, beginning with
      the other flip bit than the packet before them, are handed over in order with exactly
      their bytes, and nothing else is. */
  lemma {:induction false} DeliversMessages(history: seq<Report>, streams: seq<seq<Report>>, ms: seq<seq<byte>>,
                                            flip: bool, ack: bool)
    requires CarryAll(streams, ms, flip, ack)
    requires history == [] || EndsWith(history, !flip)
    ensures Adds(Run(history).sent, Run(history + Flat(streams)).sent, ms)
    ensures var all := history + Flat(streams); all == [] || EndsWith(all, !FlipAt(flip, |ms|))
    decreases |ms|
  {
    hide Run, CarriesAt, EndsWith, Adds, FlipAt, FlipOf, LengthOf, CarryAll, Flat;
    FlipAlternates(flip, |ms|);
    if ms == [] {
      CarriesNone(streams, flip, ack);
      assert history + Flat(streams) == history;
      AddsNone(Run(history).sent);
    } else {
      var k := |ms| - 1;
      FlipAlternates(flip, k);
      CarriesLast(streams, ms, flip, ack);
      DeliversMessages(history, streams[..k], ms[..k], flip, ack);
      var before := history + Flat(streams[..k]);
      DeliversAnother(history, before, streams[k], ms[..k], ms[k], flip, ack);
      assert before + streams[k] == history + Flat(streams);
      assert ms[..k] + [ms[k]] == ms;
    }
  }

  // ---------------------------------------------------------------- the firmware object

  class UsbHid {
    var rxMsgFlip: bool
    var rxPktCounter: nat
    var rxMsgSize: nat
    const rxBuffer: array<byte>
    var payloadLen1: nat
    const payload: array<byte>
    var sent: seq<Sent>

    ghost predicate Shaped()
      reads this
    {
      rxBuffer.Length == MAX_MSG_SIZE && payload.Length == PAYLOAD_LENGTH && rxBuffer != payload
    }

    ghost predicate Valid()
      reads this, rxBuffer, payload
    {
      Shaped() && InBounds(State())
    }

    ghost function State(): Receiver
      reads this, rxBuffer, payload
    {
      Receiver(rxMsgFlip, rxPktCounter, rxMsgSize, rxBuffer[..], payloadLen1, payload[..], sent)
    }

    /** usbhid_init(), with the buffers cleared as at power-on. */
    constructor ()
      ensures Valid() && State() == POWER_ON && fresh(rxBuffer) && fresh(payload)
    {
      rxMsgFlip, rxPktCounter, rxMsgSize := false, 0, 0;
      rxBuffer := new byte[MAX_MSG_SIZE](_ => 0);
      payloadLen1, sent := 0, [];
      payload := new byte[PAYLOAD_LENGTH](_ => 0);
      new;
      assert rxBuffer[..] == Zeros(MAX_MSG_SIZE);
      assert payload[..] == Zeros(PAYLOAD_LENGTH);
    }

    /** memcpy() of a packet's body */
    static method CopyBody(p: Report, target: array<byte>, at: nat)
      requires at + LengthOf(p) <= target.Length
      modifies target
      ensures target[..] == Written(old(target[..]), at, Body(p))
    {
      var body := Body(p);
      ghost var was := target[..];
      for i := 0 to LengthOf(p)
        modifies target
        invariant target[..at] == was[..at] && target[at..at + i] == body[..i] && target[at + i..] == was[at + i..]
      {
        target[at + i] := body[i];
        assert body[..i + 1] == body[..i] + [body[i]];
        assert target[at..at + i + 1] == target[at..at + i] + [target[at + i]];
      }
      assert target[..] == target[..at] + target[at..at + LengthOf(p)] + target[at + LengthOf(p)..];
    }

    method StorePacket(p: Report)
      requires Valid() && rxPktCounter < MAX_PACKETS
      modifies this, rxBuffer
      ensures Valid() && State() == Stored(old(State()), p)
    {
      CopyBody(p, rxBuffer, rxMsgSize);
      rxMsgSize := rxMsgSize + LengthOf(p);
      rxPktCounter := rxPktCounter + 1;
    }

    /** comm_usb_process_in_pkt() */
    method ProcessInPkt(start: bool, end: bool, p: Report)
      requires Valid() && start == (IdOf(p) == 0) && end == (IdOf(p) == TotalOf(p))
      modifies this, payload
      ensures Valid() && State() == Forwarded(old(State()), p)
    {
      if start {
        payloadLen1 := 0;
      }
      if payloadLen1 + LengthOf(p) <= PAYLOAD_LENGTH {
        CopyBody(p, payload, payloadLen1);
        payloadLen1 := payloadLen1 + LengthOf(p);
      }
      if end {
        sent := sent + [Sent(payloadLen1, payload[..])];
      }
    }

    /** usbhid_task() once a packet is there */
    method Task(p: Report)
      requires Valid()
      modifies this, rxBuffer, payload
      ensures Valid() && State() == Receive(old(State()), p)
    {
      hide Stored, Forwarded, IdOf, TotalOf, FlipOf;
      if FlipOf(p) != rxMsgFlip {
        rxMsgSize, rxPktCounter, rxMsgFlip := 0, 0, FlipOf(p);
      }
      if IdOf(p) != rxPktCounter || rxPktCounter >= MAX_PACKETS {
        rxMsgSize, rxPktCounter := 0, 0;
      } else {
        StorePacket(p);
        ProcessInPkt(IdOf(p) == 0, IdOf(p) == TotalOf(p), p);
        if IdOf(p) == TotalOf(p) {
          rxMsgSize, rxPktCounter := 0, 0;
        }
      }
    }
  }
}
