/** How the main loop's USB handler reads a message from its slot: packet by packet, with
    interrupts on, waiting for USB between packets (aux_mcu_v2/src/COMMS/comms_usb.c:101-149 on
    a slot that dma.c:60-98 may overwrite meanwhile). */
module SlotReading {
  import opened Wrappers
  import opened HidPackets
  import opened EarlyDispatch

  // ---------------------------------------------------------------- whose bytes a slot holds

  /** The number of the last completed message of a class: the one its slot holds. */
  function Owner(events: seq<Event>, c: Class): Option<nat> {
    if events == [] then None
    else
      var init, e := events[..|events| - 1], events[|events| - 1];
      if e.Complete? && ClassOf(Run(init).temp) == c then Some(|Run(init).done|) else Owner(init, c)
  }

  /** The slot holds its owner's bytes, and if it waits to be dispatched it is as that message. */
  ghost predicate Owned(s: State, c: Class, owner: Option<nat>) {
    match owner
    case None => !Waiting(s, c)
    case Some(id) =>
      && id < |s.done| && s.slot.Get(c) == s.done[id] && ClassOf(s.done[id]) == c
      && (Waiting(s, c) ==> s.slotId.Get(c) == id)
  }

  lemma OwnedByte(s: State, b: byte, c: Class, owner: Option<nat>)
    requires s.n < MESSAGE_SIZE && Owned(s, c, owner)
    ensures Owned(OnByte(s, b), c, owner)
  {
  }

  lemma OwnedMain(s: State, stale: bool, c: Class, owner: Option<nat>)
    requires Owned(s, c, owner)
    ensures Owned(OnMain(s, stale), c, owner)
  {
    var t := OnMain(s, stale);
    assert Waiting(t, c) ==> Waiting(s, c);
    assert t.slot == s.slot && t.done == s.done && t.slotId == s.slotId;
  }

  lemma OwnedComplete(s: State, c: Class, owner: Option<nat>)
    requires Steady(s) && Owned(s, c, owner)
    ensures Owned(OnComplete(s), c, if ClassOf(s.temp) == c then Some(|s.done|) else owner)
  {
    var t, k := OnComplete(s), ClassOf(s.temp);
    assert FlagsRight(s, k);
    hide Steady, Claims, SlotRight, Claimed, ClassOf;
    assert t.slot.Get(c) == if k == c then s.temp else s.slot.Get(c);
  }

  lemma OwnedStep(s: State, e: Event, c: Class, owner: Option<nat>)
    requires Steady(s) && Enabled(s, e) && Owned(s, c, owner)
    ensures Owned(Step(s, e), c, if e.Complete? && ClassOf(s.temp) == c then Some(|s.done|) else owner)
  {
    hide Steady, Owned, OnMain, OnComplete;
    match e
    case ByteIn(b) => OwnedByte(s, b, c, owner);
    case Complete => OwnedComplete(s, c, owner);
    case Main(stale) => OwnedMain(s, stale, c, owner);
  }

  lemma NothingOwned(c: Class)
    ensures Owned(Run([]), c, None)
  {
    RunOfNothing();
  }

  /** On every run a slot holds the last completed message of its class, whole. */
  lemma {:induction false} SlotIsOwned(events: seq<Event>, c: Class)
    requires Valid(events)
    ensures Owned(Run(events), c, Owner(events, c))
  {
    hide Step, Enabled, Valid, Owned, Steady, Run;
    if events == [] {
      NothingOwned(c);
    } else {
      var init := events[..|events| - 1];
      ValidPrefix(events);
      RunIsSteady(init);
      SlotIsOwned(init, c);
      OwnedStep(Run(init), events[|events| - 1], c, Owner(init, c));
    }
  }

  // ---------------------------------------------------------------- while the handler reads

  /** No completion of the class among the first n events of a window. */
  ghost predicate NoneCompletes(events: seq<Event>, window: seq<Event>, n: nat, c: Class) {
    forall i {:trigger CompletesAt(events + window, i, c)} ::
      |events| <= i < |events| + n ==> !CompletesAt(events + window, i, c)
  }

  lemma OwnersGrow(events: seq<Event>, c: Class)
    requires Valid(events) && Owner(events, c).Some?
    ensures Owner(events, c).value < |Run(events).done|
  {
    SlotIsOwned(events, c);
  }

  lemma DoneStep(s: State, e: Event)
    requires Enabled(s, e)
    ensures s.done <= Step(s, e).done
  {
  }

  lemma DoneGrows(events: seq<Event>, e: Event)
    requires Valid(events + [e])
    ensures |Run(events + [e]).done| >= |Run(events).done|
  {
    hide Run, Valid;
    assert (events + [e])[..|events|] == events;
    ValidPrefix(events + [e]);
    DoneStep(Run(events), e);
  }

  lemma OwnerNext(events: seq<Event>, e: Event, c: Class)
    ensures Owner(events + [e], c)
         == if CompletesAt(events + [e], |events|, c) then Some(|Run(events).done|) else Owner(events, c)
  {
    assert (events + [e])[..|events|] == events;
  }

  lemma NoneCompletesNext(events: seq<Event>, window: seq<Event>, n: nat, c: Class)
    requires 0 < n <= |window|
    ensures NoneCompletes(events, window, n, c)
       <==> NoneCompletes(events, window, n - 1, c) && !CompletesAt(events + window, |events| + n - 1, c)
  {
    hide CompletesAt;
  }

  /** During a window the slot stays its owner's exactly while no message of the class
      completes; afterwards it is a later one's. */
  lemma {:induction false} OwnerStaysIff(events: seq<Event>, window: seq<Event>, n: nat, c: Class)
    requires Valid(events + window) && n <= |window|
    ensures Owner(events + window[..n], c) == Owner(events, c) <==> NoneCompletes(events, window, n, c)
    ensures !NoneCompletes(events, window, n, c) ==>
              Owner(events + window[..n], c).Some? && Owner(events + window[..n], c).value >= |Run(events).done|
    ensures |Run(events + window[..n]).done| >= |Run(events).done|
  {
    hide Run, Valid, Owner, CompletesAt;
    if n == 0 {
      assert events + window[..0] == events;
    } else {
      var before := events + window[..n - 1];
      OwnerStaysIff(events, window, n - 1, c);
      assert before + [window[n - 1]] == events + window[..n];
      assert (events + window)[..|before| + 1] == before + [window[n - 1]];
      PrefixSees(events + window, |before| + 1, |before|, c);
      ValidPrefixes(events + window, |before| + 1);
      ValidPrefixes(events + window, |events|);
      assert (events + window)[..|events|] == events;
      OwnerNext(before, window[n - 1], c);
      DoneGrows(before, window[n - 1]);
      if Owner(events, c).Some? {
        OwnersGrow(events, c);
      }
      NoneCompletesNext(events, window, n, c);
    }
  }

  lemma {:induction false} DonePrefix(events: seq<Event>, window: seq<Event>, n: nat)
    requires Valid(events + window) && n <= |window|
    ensures Run(events + window[..n]).done <= Run(events + window).done
    decreases |window| - n
  {
    hide Run, Valid;
    if n == |window| {
      assert window[..n] == window;
    } else {
      DonePrefix(events, window, n + 1);
      var now, next := events + window[..n], events + window[..n + 1];
      assert next == now + [window[n]] && next == (events + window)[..|next|];
      ValidPrefixes(events + window, |next|);
      ValidPrefix(next);
      assert next[..|next| - 1] == now;
      DoneStep(Run(now), window[n]);
    }
  }

  // ---------------------------------------------------------------- the packets sent

  function PayloadOf(m: Message, length: nat): (p: seq<byte>)
    requires length <= PAYLOAD_LENGTH
    ensures |p| == length
  {
    m[4..4 + length]
  }

  /** The places in a window at which the handler reads the fragments: one for each, in order.
      The main loop is in the handler and makes no step of its own. */
  predicate Reading(window: seq<Event>, times: seq<nat>, length: nat) {
    && |times| == Count(length)
    && (forall i, j :: 0 <= i < j < |times| ==> times[i] <= times[j])
    && (forall i :: 0 <= i < |times| ==> times[i] <= |window|)
    && forall i :: 0 <= i < |window| ==> !window[i].Main?
  }

  /** The fragment the handler takes from the slot at its time. */
  function Taken(events: seq<Event>, window: seq<Event>, times: seq<nat>, c: Class, length: nat, k: nat): seq<byte>
    requires Reading(window, times, length) && k < |times| && length <= PAYLOAD_LENGTH
  {
    Chunk(PayloadOf(Run(events + window[..times[k]]).slot.Get(c), length), k)
  }

  function OwnerAt(events: seq<Event>, window: seq<Event>, times: seq<nat>, c: Class, k: nat): Option<nat>
    requires k < |times| && times[k] <= |window|
  {
    Owner(events + window[..times[k]], c)
  }

  /** The run has come to the use of a class's slot. */
  ghost predicate UsesSlot(events: seq<Event>, c: Class) {
    events != [] && events[|events| - 1].Main? && Run(events[..|events| - 1]).pc == Pc.Taken(c)
  }

  lemma DispatchedIsOwner(events: seq<Event>, c: Class)
    requires Valid(events) && UsesSlot(events, c)
    ensures var s := Run(events);
            && s.log != []
            && var d := s.log[|s.log| - 1];
            && !d.early && d.c == c && d.id < |s.done| && d.bytes == s.done[d.id] == s.slot.Get(c)
            && Owner(events, c) == Some(d.id)
  {
    hide Run, Valid;
    var init := events[..|events| - 1];
    ValidPrefix(events);
    RunIsSteady(init);
    UseSlotClaims(Run(init), c);
    SlotIsOwned(init, c);
    assert init + [events[|events| - 1]] == events;
    OwnerNext(init, events[|events| - 1], c);
  }

  /** A fragment is one of the message that owns the slot at that moment. */
  ghost predicate TakenFromOwner(events: seq<Event>, window: seq<Event>, times: seq<nat>, c: Class, length: nat, k: nat)
    requires Reading(window, times, length) && k < |times| && length <= PAYLOAD_LENGTH
  {
    var owner, done := OwnerAt(events, window, times, c, k), Run(events + window).done;
    && owner.Some? && owner.value < |done|
    && Taken(events, window, times, c, length, k) == Chunk(PayloadOf(done[owner.value], length), k)
  }

  /** All fragments are taken from this message. */
  ghost predicate AllFrom(events: seq<Event>, window: seq<Event>, times: seq<nat>, c: Class, length: nat, id: nat)
    requires Reading(window, times, length)
  {
    forall k :: 0 <= k < |times| ==> OwnerAt(events, window, times, c, k) == Some(id)
  }

  lemma FragmentIsOwned(events: seq<Event>, window: seq<Event>, times: seq<nat>, c: Class, length: nat, k: nat, id: nat)
    requires Valid(events + window) && Owner(events, c) == Some(id)
    requires Reading(window, times, length) && k < |times| && length <= PAYLOAD_LENGTH
    ensures TakenFromOwner(events, window, times, c, length, k)
    ensures var owner := OwnerAt(events, window, times, c, k);
            owner.Some? && owner.value >= id && (owner == Some(id) <==> NoneCompletes(events, window, times[k], c))
  {
    hide Run, Valid, Owner, Chunk, PayloadOf, NoneCompletes;
    var n := times[k];
    var now := events + window[..n];
    assert now == (events + window)[..|now|];
    ValidPrefixes(events + window, |now|);
    ValidPrefixes(events + window, |events|);
    assert (events + window)[..|events|] == events;
    OwnerStaysIff(events, window, n, c);
    OwnersGrow(events, c);
    SlotIsOwned(now, c);
    DonePrefix(events, window, n);
  }

  lemma AllFromIff(events: seq<Event>, window: seq<Event>, times: seq<nat>, c: Class, length: nat, id: nat)
    requires Valid(events + window) && Owner(events, c) == Some(id)
    requires Reading(window, times, length) && |times| > 0 && length <= PAYLOAD_LENGTH
    ensures AllFrom(events, window, times, c, length, id) <==> NoneCompletes(events, window, times[|times| - 1], c)
  {
    hide Run, Valid, Owner, OwnerAt, TakenFromOwner;
    var last := |times| - 1;
    FragmentIsOwned(events, window, times, c, length, last, id);
    if NoneCompletes(events, window, times[last], c) {
      forall k | 0 <= k < |times| ensures OwnerAt(events, window, times, c, k) == Some(id) {
        assert NoneCompletes(events, window, times[k], c);
        FragmentIsOwned(events, window, times, c, length, k, id);
      }
    }
  }

  /** On every run: when the handler begins, it was called for the message in the slot. Each
      fragment it takes is one of the message that owns the slot at that moment. All are of the
      message dispatched if and only if no message of the class completes before the last one
      is taken. */
  lemma ReadsOneMessageIff(events: seq<Event>, window: seq<Event>, times: seq<nat>, c: Class, length: nat)
    requires Valid(events + window) && UsesSlot(events, c)
    requires length == PayloadLength(Run(events).slot.Get(c)) && 0 < length <= PAYLOAD_LENGTH
    requires Reading(window, times, length)
    ensures Run(events).log != [] && |times| > 0
    ensures var d := Run(events).log[|Run(events).log| - 1];
            && d.id < |Run(events + window).done| && d.c == c && d.bytes == Run(events + window).done[d.id]
            && (AllFrom(events, window, times, c, length, d.id)
                <==> NoneCompletes(events, window, times[|times| - 1], c))
    ensures forall k :: 0 <= k < |times| ==> TakenFromOwner(events, window, times, c, length, k)
  {
    hide Run, Valid, Owner, UsesSlot, AllFrom, NoneCompletes, TakenFromOwner;
    CountBounds(length);
    assert events == (events + window)[..|events|];
    ValidPrefixes(events + window, |events|);
    DispatchedIsOwner(events, c);
    DonePrefix(events, window, 0);
    assert events + window[..0] == events;
    var d := Run(events).log[|Run(events).log| - 1];
    AllFromIff(events, window, times, c, length, d.id);
    forall k | 0 <= k < |times| ensures TakenFromOwner(events, window, times, c, length, k) {
      FragmentIsOwned(events, window, times, c, length, k, d.id);
    }
  }

  lemma CopyStep(s: State, e: Event)
    requires Enabled(s, e) && !e.Main?
    ensures Step(s, e).copy == s.copy
  {
  }

  /** A message answered early is read from a copy that nothing overwrites meanwhile. */
  lemma {:induction false} CopyStays(events: seq<Event>, window: seq<Event>)
    requires Valid(events + window) && forall i :: 0 <= i < |window| ==> !window[i].Main?
    ensures Run(events + window).copy == Run(events).copy
  {
    hide Run, Valid, Step, Enabled;
    if window == [] {
      assert events + window == events;
    } else {
      var init, e := window[..|window| - 1], window[|window| - 1];
      var all := events + window;
      assert all[..|all| - 1] == events + init && all[|all| - 1] == e;
      ValidPrefix(all);
      CopyStays(events, init);
      CopyStep(Run(events + init), e);
    }
  }

  // ---------------------------------------------------------------- a torn message

  /** Two USB messages: the main loop comes to use the slot of the first, then the second
      arrives and completes. */
  function FirstUsed(m: Message): seq<Event> {
    Arrival(m) + [Complete, Main(false), Main(false)]
  }

  function SecondArrives(m: Message): seq<Event> {
    Arrival(m) + [Complete]
  }

  lemma RunsFirst(m: Message)
    requires ClassOf(m) == Usb
    ensures Valid(FirstUsed(m)) && UsesSlot(FirstUsed(m), Usb)
    ensures Run(FirstUsed(m)) == START.(
                temp := m, arrivals := MESSAGE_SIZE, done := [m], slot := PerClass(m, BLANK, BLANK),
                pc := AtCheck(Ble), log := [Dispatch(0, Usb, m, false)])
  {
    hide Run, Valid, ClassOf, BLANK;
    FirstHeld(m);
    var held := Arrival(m) + [Complete, Main(false)];
    RunNext(held, Main(false));
    assert held + [Main(false)] == FirstUsed(m);
    assert FirstUsed(m)[..|FirstUsed(m)| - 1] == held;
  }

  lemma RunsSecond(m: Message, m': Message)
    requires ClassOf(m) == Usb && ClassOf(m') == Usb
    ensures Valid(FirstUsed(m) + SecondArrives(m'))
    ensures Run(FirstUsed(m) + SecondArrives(m')).slot.Get(Usb) == m'
  {
    RunsFirst(m);
    hide Run, Valid, ClassOf;
    RunArrival(FirstUsed(m), m');
    RunNext(FirstUsed(m) + Arrival(m'), Complete);
    assert FirstUsed(m) + Arrival(m') + [Complete] == FirstUsed(m) + SecondArrives(m');
  }

  /** The handler takes the first fragment at once and the others when the second message has
      come. */
  function LateTimes(n: nat, late: nat): seq<nat> {
    seq(n, i => if i == 0 then 0 else late)
  }

  lemma FirstCompletion(m: Message)
    ensures |FirstUsed(m)| >= MESSAGE_SIZE && !Run(FirstUsed(m)[..MESSAGE_SIZE]).pc.Taken?
    ensures forall i :: 0 <= i < |FirstUsed(m)| && i != MESSAGE_SIZE ==> !FirstUsed(m)[i].Complete?
  {
    RunOfNothing();
    assert Valid([]);
    hide Run, Valid;
    RunArrival([], m);
    assert [] + Arrival(m) == FirstUsed(m)[..MESSAGE_SIZE];
  }

  lemma SecondCompletion(m: Message, m': Message)
    requires ClassOf(m) == Usb
    ensures !Run(FirstUsed(m) + Arrival(m')).pc.Taken?
  {
    hide Run, Valid;
    RunsFirst(m);
    RunArrival(FirstUsed(m), m');
  }

  lemma TornRunIsQuiet(m: Message, m': Message)
    requires ClassOf(m) == Usb && ClassOf(m') == Usb
    ensures Quiet(FirstUsed(m) + SecondArrives(m'))
  {
    hide Run, Valid, ClassOf, FirstUsed;
    var all := FirstUsed(m) + SecondArrives(m');
    FirstCompletion(m);
    SecondCompletion(m, m');
    assert all[..MESSAGE_SIZE] == FirstUsed(m)[..MESSAGE_SIZE];
    assert all[..|FirstUsed(m)| + MESSAGE_SIZE] == FirstUsed(m) + Arrival(m');
    forall i | 0 <= i < |all| ensures Undisturbed(Run(all[..i]), all[i]) {
      if i < |FirstUsed(m)| {
        assert all[i] == FirstUsed(m)[i];
      } else {
        assert all[i] == SecondArrives(m')[i - |FirstUsed(m)|];
      }
    }
  }

  /** For any two USB messages there is a run from power-on on which the handler, called for the
      first, takes the first fragment from it and all others from the second. No completion
      disturbs the main loop otherwise. */
  lemma TornMessage(m: Message, m': Message, length: nat)
    requires ClassOf(m) == Usb && ClassOf(m') == Usb && length == PayloadLength(m) && 0 < length <= PAYLOAD_LENGTH
    ensures var events, window := FirstUsed(m), SecondArrives(m'); var times := LateTimes(Count(length), |window|);
            && Valid(events + window) && UsesSlot(events, Usb) && Reading(window, times, length)
            && Run(events).log == [Dispatch(0, Usb, m, false)] && Quiet(events + window)
            && forall k :: 0 <= k < |times| ==>
                 Taken(events, window, times, Usb, length, k) == Chunk(PayloadOf(if k == 0 then m else m', length), k)
  {
    hide Run, Valid, Quiet, UsesSlot, Chunk, PayloadOf, ClassOf;
    RunsFirst(m);
    RunsSecond(m, m');
    var events, window := FirstUsed(m), SecondArrives(m');
    assert events + window[..0] == events && window[..|window|] == window;
    assert Run(events).slot.Get(Usb) == m;
    TornRunIsQuiet(m, m');
  }

  function Filled(length: nat, b: byte): Message
    requires length <= PAYLOAD_LENGTH
  {
    [0, 0, length % 256, length / 256] + Copies<byte>(b, MESSAGE_SIZE - 4)
  }

  /** For instance, of a message of 100 ones the PC gets 62, and then 38 twos. */
  lemma TornHundred()
    ensures var m, m' := Filled(100, 1), Filled(100, 2);
            var events, window := FirstUsed(m), SecondArrives(m'); var times := LateTimes(2, |window|);
            && Valid(events + window) && Reading(window, times, 100) && Run(events).log == [Dispatch(0, Usb, m, false)]
            && Taken(events, window, times, Usb, 100, 0) == Copies<byte>(1, 62)
            && Taken(events, window, times, Usb, 100, 1) == Copies<byte>(2, 38)
  {
    hide Run, Valid, Quiet;
    var m, m' := Filled(100, 1), Filled(100, 2);
    assert Count(100) == 2;
    TornMessage(m, m', 100);
    assert PayloadOf(m, 100) == Copies<byte>(1, 100) && PayloadOf(m', 100) == Copies<byte>(2, 100);
    assert Copies<byte>(1, 100)[0..62] == Copies<byte>(1, 62);
    assert Copies<byte>(2, 100)[62..100] == Copies<byte>(2, 38);
  }
}
