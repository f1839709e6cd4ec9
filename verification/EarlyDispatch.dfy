/** How the aux MCU receives messages from the main MCU: DMA fills one 544-byte buffer, the
    completion interrupt copies it to a slot per message class, and the main loop may answer a
    message before it is complete (aux_mcu_v2/src/COMMS/comms_main_mcu.c, DMA/dma.c).

    Bytes and the interrupt arrive between any two steps of the main loop. The state carries a
    history of the messages received and of the dispatches made. */
module EarlyDispatch {
  import opened Wrappers

  const MESSAGE_SIZE: nat := 544
  const EARLY_MARGIN: nat := 20

  datatype Class = Usb | Ble | Other

  datatype PerClass<T> = PerClass(usb: T, ble: T, other: T) {
    function Get(c: Class): T {
      match c
      case Usb => usb
      case Ble => ble
      case Other => other
    }

    function Set(c: Class, t: T): PerClass<T> {
      match c
      case Usb => this.(usb := t)
      case Ble => this.(ble := t)
      case Other => this.(other := t)
    }

  }

  type Message = m: seq<byte> | |m| == MESSAGE_SIZE witness Zeros(MESSAGE_SIZE)

  /** message_type: 0 is USB, 1 is BLE, everything else is handled alike. */
  function ClassOf(m: Message): Class {
    var t := m[0] as int + 256 * m[1] as int;
    if t == 0 then Usb else if t == 1 then Ble else Other
  }

  function PayloadLength(m: Message): nat {
    m[2] as int + 256 * m[3] as int
  }

  /** Where the main loop is: at the full-message check of a class, between clearing the flag
      of a class and using its slot, and at the steps of the early answer. */
  datatype Pc =
    | AtCheck(c: Class)
    | Taken(c: Class)
    | AtSample
    | Sampled(count: nat)
    | Picked(count: nat, c: Class)
    | Answering(id: nat)

  /** The handling of a message: its number in arrival order, the class it was handled as and
      the bytes the handler saw. */
  datatype Dispatch = Dispatch(id: nat, c: Class, bytes: Message, early: bool)

  datatype State = State(
    temp: Message,                // dma_main_mcu_temp_rcv_message
    n: nat,                       // bytes of it received so far
    answered: PerClass<bool>,     // ..._msg_answered_using_first_bytes
    received: PerClass<bool>,     // ..._msg_received
    slot: PerClass<Message>,      // ..._rcv_message
    copy: Message,                // comms_main_mcu_temp_message
    pc: Pc,
    done: seq<Message>,           // history: completed messages
    slotId: PerClass<nat>,        // history: number of the message a slot was flagged for
    arrivals: nat,                // history: bytes since the received-byte count was read
    log: seq<Dispatch>,           // history: dispatches made
    lost: set<nat>)               // history: messages overwritten while still flagged

  // ---------------------------------------------------------------- steps

  /** `stale`: the byte count register may still show the end of the previous transfer when no
      byte of the new one has arrived. */
  datatype Event = ByteIn(b: byte) | Complete | Main(stale: bool)

  function After(c: Class): Pc {
    match c
    case Usb => AtCheck(Ble)
    case Ble => AtCheck(Other)
    case Other => AtSample
  }

  function OnByte(s: State, b: byte): State
    requires s.n < MESSAGE_SIZE
  {
    s.(temp := s.temp[s.n := b], n := s.n + 1, arrivals := s.arrivals + 1)
  }

  /** DMAC_Handler: re-arm, copy to the slot, then flag the message unless already answered. */
  function OnComplete(s: State): State {
    var c := ClassOf(s.temp);
    var t := s.(n := 0, slot := s.slot.Set(c, s.temp), done := s.done + [s.temp]);
    if s.answered.Get(c) then t.(answered := s.answered.Set(c, false))
    else
      t.(received := s.received.Set(c, true),
         slotId := s.slotId.Set(c, |s.done|),
         lost := if s.received.Get(c) then s.lost + {s.slotId.Get(c)} else s.lost)
  }

  function Check(s: State, c: Class): State {
    if s.received.Get(c) then s.(received := s.received.Set(c, false), pc := Taken(c))
    else s.(pc := After(c))
  }

  function UseSlot(s: State, c: Class): State {
    var t := s.(pc := After(c));
    if s.answered.Get(c) then t
    else t.(log := s.log + [Dispatch(s.slotId.Get(c), c, s.slot.Get(c), false)])
  }

  function Sample(s: State, stale: bool): State {
    s.(pc := Sampled(if stale && s.n == 0 then MESSAGE_SIZE else s.n), arrivals := 0)
  }

  predicate ShouldAnswer(s: State, count: nat, c: Class) {
    && count >= 4 + PayloadLength(s.temp)
    && !s.answered.Get(c)
    && MESSAGE_SIZE - count > EARLY_MARGIN
    && !s.received.Get(c)
  }

  function FirstBytes(m: Message, count: nat): Message
    requires count <= MESSAGE_SIZE
  {
    m[..count] + Zeros(MESSAGE_SIZE - count)
  }

  function Critical(s: State, count: nat, c: Class): State {
    if ShouldAnswer(s, count, c) then
      s.(answered := s.answered.Set(c, true), copy := FirstBytes(s.temp, count), pc := Answering(|s.done|))
    else s.(pc := AtCheck(Usb))
  }

  function Early(s: State, id: nat): Dispatch {
    Dispatch(id, ClassOf(s.copy), s.copy, true)
  }

  function OnMain(s: State, stale: bool): State {
    match s.pc
    case AtCheck(c) => Check(s, c)
    case Taken(c) => UseSlot(s, c)
    case AtSample => Sample(s, stale)
    case Sampled(count) => s.(pc := Picked(count, ClassOf(s.temp)))
    case Picked(count, c) => Critical(s, count, c)
    case Answering(id) => s.(log := s.log + [Early(s, id)], pc := AtCheck(Usb))
  }

  /** A byte arrives only while the transfer is armed, and at most 20 arrive between the
      reading of the byte count and the critical section. The interrupt fires when the
      transfer is complete. */
  predicate Enabled(s: State, e: Event) {
    match e
    case ByteIn(_) => s.n < MESSAGE_SIZE && (s.pc.Sampled? || s.pc.Picked? ==> s.arrivals < EARLY_MARGIN)
    case Complete => s.n == MESSAGE_SIZE
    case Main(_) => true
  }

  function Step(s: State, e: Event): State
    requires Enabled(s, e)
  {
    match e
    case ByteIn(b) => OnByte(s, b)
    case Complete => OnComplete(s)
    case Main(stale) => OnMain(s, stale)
  }

  const BLANK: Message := Zeros(MESSAGE_SIZE)

  const START: State := State(
    BLANK, 0, PerClass(false, false, false), PerClass(false, false, false), PerClass(BLANK, BLANK, BLANK),
    BLANK, AtCheck(Usb), [], PerClass(0, 0, 0), 0, [], {})

  /** The main loop holds a class's slot: its flag is cleared, its bytes are not yet read. */
  predicate Holds(s: State, c: Class) {
    s.pc == Taken(c)
  }

  /** A completion does not land in the slot the main loop is holding. */
  predicate Undisturbed(s: State, e: Event) {
    e.Complete? ==> !Holds(s, ClassOf(s.temp))
  }

  // ---------------------------------------------------------------- the invariant

  /** The dispatches made and the one the main loop is committed to. */
  function Claims(s: State): seq<Dispatch> {
    if s.pc.Answering? then s.log + [Early(s, s.pc.id)] else s.log
  }

  /** What the handler saw is the message, at least up to the end of its payload. */
  predicate Agrees(bytes: Message, m: Message) {
    bytes == m || (4 + PayloadLength(m) <= MESSAGE_SIZE && bytes[..4 + PayloadLength(m)] == m[..4 + PayloadLength(m)])
  }

  /** A dispatch of a completed message is right; one of the message in flight is an early one
      whose type, length and payload have already arrived. */
  predicate Right(s: State, d: Dispatch) {
    && d.id <= |s.done|
    && (d.id < |s.done| ==>
          d.c == ClassOf(s.done[d.id]) && Agrees(d.bytes, s.done[d.id]) && (!d.early ==> d.bytes == s.done[d.id]))
    && (d.id == |s.done| ==>
          && d.early && d.c == ClassOf(s.temp) && s.answered.Get(d.c)
          && 4 + PayloadLength(s.temp) <= s.n
          && 4 + PayloadLength(s.temp) <= MESSAGE_SIZE
          && d.bytes[..4 + PayloadLength(s.temp)] == s.temp[..4 + PayloadLength(s.temp)])
  }

  ghost predicate AllRight(s: State) {
    forall i :: 0 <= i < |Claims(s)| ==> Right(s, Claims(s)[i])
  }

  /** Messages of one class are dispatched in the order in which they arrived, none twice. */
  predicate InOrder(claims: seq<Dispatch>) {
    forall i, j :: 0 <= i < j < |claims| && claims[i].c == claims[j].c ==> claims[i].id < claims[j].id
  }

  predicate Claimed(s: State, id: nat) {
    exists i :: 0 <= i < |Claims(s)| && Claims(s)[i].id == id
  }

  /** A class with a message waiting in its slot, flagged or held by the main loop. */
  predicate Waiting(s: State, c: Class) {
    s.received.Get(c) || Holds(s, c)
  }

  /** The slot holds the message it was flagged for, which was not dispatched early. */
  ghost predicate SlotRight(s: State, c: Class) {
    && s.slotId.Get(c) < |s.done|
    && s.slot.Get(c) == s.done[s.slotId.Get(c)]
    && ClassOf(s.slot.Get(c)) == c
    && forall i :: 0 <= i < |Claims(s)| && Claims(s)[i].early ==> Claims(s)[i].id != s.slotId.Get(c)
  }

  ghost predicate FlagsRight(s: State, c: Class) {
    && !(s.answered.Get(c) && Waiting(s, c))
    && (s.answered.Get(c) ==> c == ClassOf(s.temp) && s.n >= 4 && Claimed(s, |s.done|))
    && (Waiting(s, c) ==> SlotRight(s, c))
  }

  /** A message dispatched early is not dispatched again. */
  predicate EarlyOnce(claims: seq<Dispatch>) {
    forall i, j :: 0 <= i < |claims| && 0 <= j < |claims| && i != j && claims[i].early ==> claims[i].id != claims[j].id
  }

  /** The sampled count still describes the message in flight, unless it is too large to be
      acted on. */
  predicate SampleRight(s: State) {
    match s.pc
    case Sampled(count) =>
      count + EARLY_MARGIN < MESSAGE_SIZE ==> s.n == count + s.arrivals && s.arrivals <= EARLY_MARGIN
    case Picked(count, c) =>
      count + EARLY_MARGIN < MESSAGE_SIZE ==>
        s.n == count + s.arrivals && s.arrivals <= EARLY_MARGIN && (count >= 2 ==> c == ClassOf(s.temp))
    case _ => true
  }

  /** What holds on every run. */
  ghost predicate Steady(s: State) {
    && s.n <= MESSAGE_SIZE
    && AllRight(s)
    && EarlyOnce(Claims(s))
    && (forall c :: FlagsRight(s, c))
    && SampleRight(s)
  }

  // ---------------------------------------------------------------- every step keeps it

  lemma ByteKeepsSteady(s: State, b: byte)
    requires Steady(s) && Enabled(s, ByteIn(b))
    ensures Steady(OnByte(s, b))
  {
    var t := OnByte(s, b);
    assert Claims(t) == Claims(s);
    forall i | 0 <= i < |Claims(t)| ensures Right(t, Claims(t)[i]) {
      assert Right(s, Claims(s)[i]);
    }
    assert forall c :: FlagsRight(s, c) ==> FlagsRight(t, c);
  }

  /** A completion keeps it even where it disturbs the main loop. */
  lemma CompleteKeepsSteady(s: State)
    requires Steady(s) && Enabled(s, Complete)
    ensures Steady(OnComplete(s))
  {
    var t := OnComplete(s);
    var c := ClassOf(s.temp);
    assert Claims(t) == Claims(s);
    assert FlagsRight(s, c);
    forall i | 0 <= i < |Claims(t)| ensures Right(t, Claims(t)[i]) {
      assert Right(s, Claims(s)[i]);
    }
    forall k ensures FlagsRight(t, k) {
      assert FlagsRight(s, k);
      if k == c && !s.answered.Get(c) {
        forall i | 0 <= i < |Claims(t)| && Claims(t)[i].early ensures Claims(t)[i].id != |s.done| {
          assert Right(s, Claims(s)[i]);
        }
      }
    }
  }

  lemma CheckKeepsSteady(s: State, c: Class)
    requires Steady(s) && s.pc == AtCheck(c)
    ensures Steady(Check(s, c))
  {
    var t := Check(s, c);
    assert Claims(t) == Claims(s);
    forall i | 0 <= i < |Claims(t)| ensures Right(t, Claims(t)[i]) {
      assert Right(s, Claims(s)[i]);
    }
    assert FlagsRight(s, c);
    forall k ensures FlagsRight(t, k) {
      assert FlagsRight(s, k);
      assert Waiting(t, k) ==> Waiting(s, k);
      assert SlotRight(s, k) ==> SlotRight(t, k);
    }
  }

  lemma ClaimOneMore(s: State, t: State, d: Dispatch)
    requires Claims(t) == Claims(s) + [d]
    ensures forall id :: Claimed(t, id) <==> Claimed(s, id) || id == d.id
  {
    assert Claims(t)[|Claims(s)|] == d;
    forall id ensures Claimed(t, id) <==> Claimed(s, id) || id == d.id {
      if Claimed(s, id) {
        var i :| 0 <= i < |Claims(s)| && Claims(s)[i].id == id;
        assert Claims(t)[i].id == id;
      }
    }
  }

  lemma UseSlotClaims(s: State, c: Class)
    requires Steady(s) && s.pc == Taken(c)
    ensures !s.answered.Get(c) && s.slotId.Get(c) < |s.done|
    ensures Claims(UseSlot(s, c)) == Claims(s) + [Dispatch(s.slotId.Get(c), c, s.slot.Get(c), false)]
  {
    assert FlagsRight(s, c) && Holds(s, c);
  }

  lemma UseSlotKeepsSteady(s: State, c: Class)
    requires Steady(s) && s.pc == Taken(c)
    ensures Steady(UseSlot(s, c))
  {
    var t := UseSlot(s, c);
    UseSlotClaims(s, c);
    assert FlagsRight(s, c) && Holds(s, c);
    var d := Dispatch(s.slotId.Get(c), c, s.slot.Get(c), false);
    forall i | 0 <= i < |Claims(t)| ensures Right(t, Claims(t)[i]) {
      if i < |Claims(s)| {
        assert Right(s, Claims(s)[i]);
      }
    }
    ClaimOneMore(s, t, d);
    forall k ensures FlagsRight(t, k) {
      assert FlagsRight(s, k);
    }
  }

  /** Steps that only move the main loop between points where it holds nothing. */
  lemma MoveKeepsSteady(s: State, t: State)
    requires Steady(s) && !s.pc.Taken? && !t.pc.Taken?
    requires t == s.(pc := t.pc, arrivals := t.arrivals, log := t.log) && Claims(t) == Claims(s)
    requires SampleRight(t)
    ensures Steady(t)
  {
    forall i | 0 <= i < |Claims(t)| ensures Right(t, Claims(t)[i]) {
      assert Right(s, Claims(s)[i]);
    }
    forall k ensures FlagsRight(t, k) {
      assert FlagsRight(s, k);
    }
  }

  lemma FirstBytesPrefix(m: Message, count: nat, k: nat)
    requires k <= count <= MESSAGE_SIZE
    ensures FirstBytes(m, count)[..k] == m[..k]
  {
  }

  lemma SampleIsRight(s: State, count: nat, c: Class)
    requires Steady(s) && s.pc == Picked(count, c) && ShouldAnswer(s, count, c)
    ensures c == ClassOf(s.temp) && count <= s.n < MESSAGE_SIZE
    ensures ClassOf(FirstBytes(s.temp, count)) == c
    ensures FirstBytes(s.temp, count)[..4 + PayloadLength(s.temp)] == s.temp[..4 + PayloadLength(s.temp)]
  {
    var b := FirstBytes(s.temp, count);
    FirstBytesPrefix(s.temp, count, 2);
    assert b[0] == b[..2][0] == s.temp[..2][0] == s.temp[0];
    assert b[1] == b[..2][1] == s.temp[..2][1] == s.temp[1];
    FirstBytesPrefix(s.temp, count, 4 + PayloadLength(s.temp));
  }

  /** The message in flight, not yet answered, is not among the dispatches. */
  lemma InFlightIsUnclaimed(s: State)
    requires Steady(s) && !s.answered.Get(ClassOf(s.temp))
    ensures forall i :: 0 <= i < |Claims(s)| ==> Claims(s)[i].id < |s.done|
  {
    forall i | 0 <= i < |Claims(s)| ensures Claims(s)[i].id < |s.done| {
      assert Right(s, Claims(s)[i]);
    }
  }

  lemma CriticalKeepsSteady(s: State, count: nat, c: Class)
    requires Steady(s) && s.pc == Picked(count, c)
    ensures Steady(Critical(s, count, c))
  {
    var t := Critical(s, count, c);
    if ShouldAnswer(s, count, c) {
      SampleIsRight(s, count, c);
      var d := Early(t, |s.done|);
      assert Claims(t) == Claims(s) + [d];
      InFlightIsUnclaimed(s);
      ClaimOneMore(s, t, d);
      forall i | 0 <= i < |Claims(t)| ensures Right(t, Claims(t)[i]) {
        if i < |Claims(s)| {
          assert Right(s, Claims(s)[i]);
        }
      }
      forall k ensures FlagsRight(t, k) {
        assert FlagsRight(s, k);
      }
    } else {
      MoveKeepsSteady(s, t);
    }
  }

  lemma SteadyHasSample(s: State)
    requires Steady(s)
    ensures SampleRight(s)
  {
  }

  lemma StepKeepsSteady(s: State, e: Event)
    requires Steady(s) && Enabled(s, e)
    ensures Steady(Step(s, e))
  {
    hide Steady;
    match e
    case ByteIn(b) => ByteKeepsSteady(s, b);
    case Complete => CompleteKeepsSteady(s);
    case Main(stale) =>
      match s.pc
      case AtCheck(c) => CheckKeepsSteady(s, c);
      case Taken(c) => UseSlotKeepsSteady(s, c);
      case Picked(count, c) => CriticalKeepsSteady(s, count, c);
      case _ =>
        SteadyHasSample(s);
        MoveKeepsSteady(s, OnMain(s, stale));
  }

  // ---------------------------------------------------------------- every run

  /** An event that is not possible changes nothing; valid runs contain none. */
  function Run(events: seq<Event>): State {
    if events == [] then START
    else
      var s := Run(events[..|events| - 1]);
      if Enabled(s, events[|events| - 1]) then Step(s, events[|events| - 1]) else s
  }

  ghost predicate Valid(events: seq<Event>) {
    forall i :: 0 <= i < |events| ==> Enabled(Run(events[..i]), events[i])
  }

  lemma ValidPrefix(events: seq<Event>)
    requires Valid(events) && events != []
    ensures var init := events[..|events| - 1];
            Valid(init) && Enabled(Run(init), events[|events| - 1])
                && Run(events) == Step(Run(init), events[|events| - 1])
  {
    hide Step, Enabled;
    var init := events[..|events| - 1];
    assert forall k :: 0 <= k < |init| ==> init[..k] == events[..k];
  }

  lemma StartIsSteady()
    ensures Steady(START)
  {
  }

  lemma {:induction false} RunIsSteady(events: seq<Event>)
    requires Valid(events)
    ensures Steady(Run(events))
  {
    hide Steady, Step, Enabled, Valid;
    if events == [] {
      StartIsSteady();
    } else {
      ValidPrefix(events);
      RunIsSteady(events[..|events| - 1]);
      StepKeepsSteady(Run(events[..|events| - 1]), events[|events| - 1]);
    }
  }

  /** On every run: no class has its answered and its received flag set together, an answered
      flag names the class of the message in flight, so at most one is set, and it is set
      exactly when that message has been answered early or is about to be. */
  lemma FlagDiscipline(events: seq<Event>, c: Class, c': Class)
    requires Valid(events)
    ensures var s := Run(events);
            && !(s.answered.Get(c) && s.received.Get(c))
            && (s.answered.Get(c) ==> c == ClassOf(s.temp) && s.n >= 4)
            && (s.answered.Get(c) && s.answered.Get(c') ==> c == c')
            && (Claimed(s, |s.done|) <==> s.answered.Get(ClassOf(s.temp)))
  {
    RunIsSteady(events);
    var s := Run(events);
    assert FlagsRight(s, c) && FlagsRight(s, c') && FlagsRight(s, ClassOf(s.temp));
    if Claimed(s, |s.done|) {
      var i :| 0 <= i < |Claims(s)| && Claims(s)[i].id == |s.done|;
      assert Right(s, Claims(s)[i]);
    }
  }

  /** On every run: where the critical section decides to answer, what the early answer will
      see is the type, length and payload of the message in flight. */
  lemma CopyIsRight(events: seq<Event>, count: nat, c: Class)
    requires Valid(events) && Run(events).pc == Picked(count, c) && ShouldAnswer(Run(events), count, c)
    ensures var s := Run(events); var m := s.temp; var copy := Critical(s, count, c).copy;
            && c == ClassOf(m) == ClassOf(copy) && 4 + PayloadLength(m) <= s.n < MESSAGE_SIZE
            && copy[..4 + PayloadLength(m)] == m[..4 + PayloadLength(m)]
  {
    RunIsSteady(events);
    SampleIsRight(Run(events), count, c);
  }

  /** On every run every dispatch of a completed message went to the right class with the right
      bytes, up to the end of the payload if it was early, and a message that was dispatched
      early is not dispatched again. */
  lemma DispatchesAreRight(events: seq<Event>)
    requires Valid(events)
    ensures var s := Run(events);
            EarlyOnce(s.log) && forall i :: 0 <= i < |s.log| ==> Right(s, s.log[i])
  {
    RunIsSteady(events);
    var s := Run(events);
    assert forall i :: 0 <= i < |s.log| ==> Claims(s)[i] == s.log[i];
    forall i | 0 <= i < |s.log| ensures Right(s, s.log[i]) {
      assert Right(s, Claims(s)[i]);
    }
  }

  // ---------------------------------------------------------------- quiet runs

  /** No completion lands in a slot while the main loop holds it. */
  ghost predicate Quiet(events: seq<Event>) {
    forall i :: 0 <= i < |events| ==> Undisturbed(Run(events[..i]), events[i])
  }

  /** One message waits in the slot, and every dispatch of its class is older. */
  ghost predicate QueueRight(s: State, c: Class) {
    && !(s.received.Get(c) && Holds(s, c))
    && (Waiting(s, c) ==>
          && s.slotId.Get(c) !in s.lost
          && forall i :: 0 <= i < |Claims(s)| && Claims(s)[i].c == c ==> Claims(s)[i].id < s.slotId.Get(c))
  }

  /** Every completed message was dispatched, is waiting, or was overwritten while flagged. */
  ghost predicate Accounted(s: State, id: nat) {
    Claimed(s, id) || id in s.lost || exists c :: Waiting(s, c) && s.slotId.Get(c) == id
  }

  ghost predicate Inv(s: State) {
    && Steady(s)
    && InOrder(Claims(s))
    && (forall c :: QueueRight(s, c))
    && (forall id | 0 <= id < |s.done| :: Accounted(s, id))
    && (forall id :: id in s.lost ==> id < |s.done| && !Claimed(s, id))
  }

  lemma StartInv()
    ensures Inv(START)
  {
    StartIsSteady();
  }

  lemma InvIsSteady(s: State)
    requires Inv(s)
    ensures Steady(s)
  {
  }

  lemma ByteKeepsInv(s: State, b: byte)
    requires Inv(s) && Enabled(s, ByteIn(b))
    ensures Inv(OnByte(s, b))
  {
    ByteKeepsSteady(s, b);
    hide Steady;
    var t := OnByte(s, b);
    assert Claims(t) == Claims(s);
    assert forall c :: QueueRight(s, c) ==> QueueRight(t, c);
    assert forall id :: Accounted(s, id) ==> Accounted(t, id);
  }

  /** A waiting message is not among the dispatches. */
  lemma WaitingIsUnclaimed(s: State, c: Class)
    requires Inv(s) && Waiting(s, c)
    ensures s.slotId.Get(c) < |s.done| && ClassOf(s.done[s.slotId.Get(c)]) == c && !Claimed(s, s.slotId.Get(c))
  {
    assert FlagsRight(s, c) && QueueRight(s, c);
    var id := s.slotId.Get(c);
    forall i | 0 <= i < |Claims(s)| ensures Claims(s)[i].id != id {
      assert Right(s, Claims(s)[i]);
    }
  }

  lemma CompleteAccounts(s: State, id: nat)
    requires Inv(s) && Enabled(s, Complete) && Undisturbed(s, Complete)
    requires id <= |s.done|
    ensures Accounted(OnComplete(s), id)
  {
    var t := OnComplete(s);
    var c := ClassOf(s.temp);
    assert Claims(t) == Claims(s);
    assert FlagsRight(s, c);
    if id == |s.done| {
      if !s.answered.Get(c) {
        assert Waiting(t, c) && t.slotId.Get(c) == id;
      }
    } else {
      assert Accounted(s, id);
      if !Claimed(s, id) && id !in s.lost {
        var k :| Waiting(s, k) && s.slotId.Get(k) == id;
        if k != c {
          assert Waiting(t, k) && t.slotId.Get(k) == id;
        } else {
          assert FlagsRight(s, k);
        }
      }
    }
  }

  lemma CompleteQueue(s: State, k: Class)
    requires Inv(s) && Enabled(s, Complete) && Undisturbed(s, Complete)
    ensures QueueRight(OnComplete(s), k)
  {
    var t := OnComplete(s);
    var c := ClassOf(s.temp);
    assert Claims(t) == Claims(s);
    assert FlagsRight(s, k) && QueueRight(s, k);
    if k == c {
      if !s.answered.Get(c) {
        InFlightIsUnclaimed(s);
      }
    } else if Waiting(s, k) && s.received.Get(c) {
      WaitingIsUnclaimed(s, k);
      WaitingIsUnclaimed(s, c);
    }
  }

  lemma CompleteKeepsInv(s: State)
    requires Inv(s) && Enabled(s, Complete) && Undisturbed(s, Complete)
    ensures Inv(OnComplete(s))
  {
    CompleteKeepsSteady(s);
    hide Steady, QueueRight, Accounted;
    var t := OnComplete(s);
    assert Claims(t) == Claims(s);
    forall k ensures QueueRight(t, k) {
      CompleteQueue(s, k);
    }
    forall id | 0 <= id < |t.done| ensures Accounted(t, id) {
      CompleteAccounts(s, id);
    }
    if s.received.Get(ClassOf(s.temp)) {
      WaitingIsUnclaimed(s, ClassOf(s.temp));
    }
  }

  lemma AppendInOrder(claims: seq<Dispatch>, d: Dispatch)
    requires InOrder(claims)
    requires forall i :: 0 <= i < |claims| && claims[i].c == d.c ==> claims[i].id < d.id
    ensures InOrder(claims + [d])
  {
  }

  /** A step of the main loop that makes no further dispatch and forgets no waiting message. */
  lemma SameClaimsKeepInv(s: State, t: State)
    requires Inv(s) && Steady(t) && Claims(t) == Claims(s)
    requires t.done == s.done && t.lost == s.lost && t.slotId == s.slotId
    requires forall c :: (Waiting(t, c) <==> Waiting(s, c)) && !(t.received.Get(c) && Holds(t, c))
    ensures Inv(t)
  {
    hide Steady;
    forall k ensures QueueRight(t, k) {
      assert QueueRight(s, k);
    }
    forall id | 0 <= id < |t.done| ensures Accounted(t, id) {
      assert Accounted(s, id);
    }
  }

  lemma CheckKeepsInv(s: State, c: Class)
    requires Inv(s) && s.pc == AtCheck(c)
    ensures Inv(Check(s, c))
  {
    CheckKeepsSteady(s, c);
    SameClaimsKeepInv(s, Check(s, c));
  }

  /** A dispatch takes the message out of its slot or is of the message in flight. */
  lemma OneMoreKeepsInv(s: State, t: State, d: Dispatch)
    requires Inv(s) && Steady(t) && Claims(t) == Claims(s) + [d]
    requires t.done == s.done && t.lost == s.lost && t.slotId == s.slotId && t.received == s.received
    requires forall i :: 0 <= i < |Claims(s)| && Claims(s)[i].c == d.c ==> Claims(s)[i].id < d.id
    requires forall k :: Waiting(t, k) <==> Waiting(s, k) && k != d.c
    requires Waiting(s, d.c) ==> s.slotId.Get(d.c) == d.id
    requires d.id !in s.lost && !t.pc.Taken?
    ensures Inv(t)
  {
    hide Steady;
    AppendInOrder(Claims(s), d);
    ClaimOneMore(s, t, d);
    forall k ensures QueueRight(t, k) {
      assert QueueRight(s, k);
    }
    forall id | 0 <= id < |t.done| ensures Accounted(t, id) {
      assert Accounted(s, id);
      if !Claimed(t, id) && id !in s.lost {
        var k :| Waiting(s, k) && s.slotId.Get(k) == id;
        assert Waiting(t, k);
      }
    }
  }

  lemma UseSlotKeepsInv(s: State, c: Class)
    requires Inv(s) && s.pc == Taken(c)
    ensures Inv(UseSlot(s, c))
  {
    UseSlotKeepsSteady(s, c);
    UseSlotClaims(s, c);
    assert QueueRight(s, c) && Holds(s, c);
    OneMoreKeepsInv(s, UseSlot(s, c), Dispatch(s.slotId.Get(c), c, s.slot.Get(c), false));
  }

  lemma CriticalKeepsInv(s: State, count: nat, c: Class)
    requires Inv(s) && s.pc == Picked(count, c)
    ensures Inv(Critical(s, count, c))
  {
    CriticalKeepsSteady(s, count, c);
    var t := Critical(s, count, c);
    if ShouldAnswer(s, count, c) {
      SampleIsRight(s, count, c);
      InFlightIsUnclaimed(s);
      OneMoreKeepsInv(s, t, Early(t, |s.done|));
    } else {
      SameClaimsKeepInv(s, t);
    }
  }

  lemma StepKeepsInv(s: State, e: Event)
    requires Inv(s) && Enabled(s, e) && Undisturbed(s, e)
    ensures Inv(Step(s, e))
  {
    hide Inv, Steady;
    match e
    case ByteIn(b) => ByteKeepsInv(s, b);
    case Complete => CompleteKeepsInv(s);
    case Main(stale) =>
      match s.pc
      case AtCheck(c) => CheckKeepsInv(s, c);
      case Taken(c) => UseSlotKeepsInv(s, c);
      case Picked(count, c) => CriticalKeepsInv(s, count, c);
      case _ =>
        InvIsSteady(s);
        StepKeepsSteady(s, e);
        SameClaimsKeepInv(s, OnMain(s, stale));
  }

  lemma {:induction false} RunKeepsInv(events: seq<Event>)
    requires Valid(events) && Quiet(events)
    ensures Inv(Run(events))
  {
    hide Inv, Step, Enabled, Undisturbed, Valid;
    if events == [] {
      StartInv();
    } else {
      var init := events[..|events| - 1];
      ValidPrefix(events);
      assert forall i :: 0 <= i < |init| ==> init[..i] == events[..i];
      RunKeepsInv(init);
      StepKeepsInv(Run(init), events[|events| - 1]);
    }
  }

  lemma ClaimsAreDistinct(s: State, i: nat, j: nat)
    requires Inv(s) && i < j < |Claims(s)|
    ensures Claims(s)[i].id != Claims(s)[j].id
  {
    assert Right(s, Claims(s)[i]) && Right(s, Claims(s)[j]);
  }

  /** No message is dispatched twice. */
  predicate Distinct(log: seq<Dispatch>) {
    forall i, j :: 0 <= i < j < |log| ==> log[i].id != log[j].id
  }

  /** On every quiet run no message is dispatched twice, and messages of one class are
      dispatched in arrival order. */
  lemma AtMostOnceInOrder(events: seq<Event>)
    requires Valid(events) && Quiet(events)
    ensures var s := Run(events); InOrder(s.log) && Distinct(s.log)
  {
    RunKeepsInv(events);
    var s := Run(events);
    assert forall i :: 0 <= i < |s.log| ==> Claims(s)[i] == s.log[i];
    forall i, j | 0 <= i < j < |s.log| ensures s.log[i].id != s.log[j].id {
      ClaimsAreDistinct(s, i, j);
    }
  }

  // ---------------------------------------------------------------- exactly once

  ghost predicate CompletesAt(events: seq<Event>, i: nat, c: Class) {
    i < |events| && events[i].Complete? && ClassOf(Run(events[..i]).temp) == c
  }

  ghost predicate ChecksAt(events: seq<Event>, i: nat, c: Class) {
    i < |events| && events[i].Main? && Run(events[..i]).pc == AtCheck(c)
  }

  /** The full-message check of a class runs between any two completions of that class. */
  ghost predicate CheckedBetween(events: seq<Event>) {
    forall c, i: nat, j: nat :: i < j && CompletesAt(events, i, c) && CompletesAt(events, j, c)
      ==> exists k :: i < k < j && ChecksAt(events, k, c)
  }

  lemma PrefixSees(events: seq<Event>, m: nat, i: nat, c: Class)
    requires i < m <= |events|
    ensures CompletesAt(events[..m], i, c) <==> CompletesAt(events, i, c)
    ensures ChecksAt(events[..m], i, c) <==> ChecksAt(events, i, c)
  {
    assert events[..m][..i] == events[..i];
  }

  lemma PrefixCheckedBetween(events: seq<Event>, m: nat)
    requires m <= |events| && CheckedBetween(events)
    ensures CheckedBetween(events[..m])
  {
    var init := events[..m];
    forall c, i: nat, j: nat | i < j && CompletesAt(init, i, c) && CompletesAt(init, j, c)
      ensures exists k :: i < k < j && ChecksAt(init, k, c)
    {
      PrefixSees(events, m, i, c);
      PrefixSees(events, m, j, c);
      var k :| i < k < j && ChecksAt(events, k, c);
      PrefixSees(events, m, k, c);
    }
  }

  lemma FlagStep(s: State, e: Event, c: Class)
    requires Enabled(s, e) && Step(s, e).received.Get(c)
    ensures (e.Complete? && ClassOf(s.temp) == c) || (s.received.Get(c) && !(e.Main? && s.pc == AtCheck(c)))
  {
  }

  lemma RunOfNothing()
    ensures Run([]) == START
  {
  }

  /** A set flag goes back to a completion after which the class was not checked. */
  lemma {:induction false} FlagMeansUnchecked(events: seq<Event>, c: Class) returns (i: nat)
    requires Valid(events) && Run(events).received.Get(c)
    ensures CompletesAt(events, i, c) && forall k :: i < k < |events| ==> !ChecksAt(events, k, c)
  {
    hide Step, Enabled, Valid, Run;
    assert events != [] by { RunOfNothing(); }
    var last := |events| - 1;
    var init := events[..last];
    ValidPrefix(events);
    FlagStep(Run(init), events[last], c);
    if CompletesAt(events, last, c) {
      i := last;
    } else {
      i := FlagMeansUnchecked(init, c);
      PrefixSees(events, last, i, c);
      forall k | i < k < |events| ensures !ChecksAt(events, k, c) {
        if k < last {
          PrefixSees(events, last, k, c);
        }
      }
    }
  }

  /** A completion overwrites a message of its class that is still flagged. */
  predicate Overwrites(s: State, e: Event) {
    e.Complete? && s.received.Get(ClassOf(s.temp))
  }

  predicate OverwritesId(s: State, e: Event, id: nat) {
    Overwrites(s, e) && s.slotId.Get(ClassOf(s.temp)) == id
  }

  lemma LostStep(s: State, e: Event, id: nat)
    requires Steady(s) && Enabled(s, e)
    ensures id in Step(s, e).lost <==> id in s.lost || OverwritesId(s, e, id)
  {
    assert FlagsRight(s, ClassOf(s.temp));
  }

  ghost predicate OverwrittenIn(events: seq<Event>, id: nat) {
    exists i {:trigger events[i]} :: 0 <= i < |events| && OverwritesId(Run(events[..i]), events[i], id)
  }

  lemma OverwrittenNext(init: seq<Event>, e: Event, id: nat)
    ensures OverwrittenIn(init + [e], id) <==> OverwrittenIn(init, id) || OverwritesId(Run(init), e, id)
  {
    hide OverwritesId, Run;
    var events := init + [e];
    assert forall i {:trigger events[i]} :: 0 <= i < |init| ==> init[..i] == events[..i] && init[i] == events[i];
    assert events[|init|] == e && events[..|init|] == init;
  }

  /** On every run a flagged message is lost if and only if a completion of its class comes
      while the received flag is still set. */
  lemma {:induction false} LostIff(events: seq<Event>, id: nat)
    requires Valid(events)
    ensures id in Run(events).lost <==> OverwrittenIn(events, id)
  {
    hide Step, Enabled, Valid, OverwritesId, Steady, Run;
    if events == [] {
      RunOfNothing();
    } else {
      hide OverwrittenIn;
      var init, e := events[..|events| - 1], events[|events| - 1];
      ValidPrefix(events);
      RunIsSteady(init);
      LostIff(init, id);
      LostStep(Run(init), e, id);
      OverwrittenNext(init, e, id);
      assert init + [e] == events;
    }
  }

  /** No completion overwrites a flagged message. */
  ghost predicate Kept(events: seq<Event>) {
    forall i {:trigger events[i]} :: 0 <= i < |events| ==> !Overwrites(Run(events[..i]), events[i])
  }

  lemma KeptIffNothingLost(events: seq<Event>)
    requires Valid(events)
    ensures Kept(events) <==> Run(events).lost == {}
  {
    hide Run, Valid;
    if Kept(events) {
      forall id ensures id !in Run(events).lost {
        if id in Run(events).lost {
          LostIff(events, id);
        }
      }
    } else {
      var i :| 0 <= i < |events| && Overwrites(Run(events[..i]), events[i]);
      LostIff(events, Run(events[..i]).slotId.Get(ClassOf(Run(events[..i]).temp)));
    }
  }

  lemma CheckedFlagIsClear(events: seq<Event>)
    requires Valid(events) && CheckedBetween(events) && events != []
    requires events[|events| - 1].Complete?
    ensures var s := Run(events[..|events| - 1]); !s.received.Get(ClassOf(s.temp))
  {
    hide Step, Enabled, Valid, Run;
    var last := |events| - 1;
    var init := events[..last];
    ValidPrefix(events);
    var c := ClassOf(Run(init).temp);
    if Run(init).received.Get(c) {
      var i := FlagMeansUnchecked(init, c);
      PrefixSees(events, last, i, c);
      assert CompletesAt(events, last, c);
      var k :| i < k < last && ChecksAt(events, k, c);
      PrefixSees(events, last, k, c);
      assert false;
    }
  }

  lemma ValidPrefixes(events: seq<Event>, n: nat)
    requires n <= |events| && Valid(events)
    ensures Valid(events[..n])
  {
    hide Enabled, Run;
    assert forall k :: 0 <= k < n ==> events[..n][..k] == events[..k];
  }

  lemma CheckedIsKept(events: seq<Event>)
    requires Valid(events) && CheckedBetween(events)
    ensures Kept(events)
  {
    hide Run, Valid, CheckedBetween;
    forall i {:trigger events[i]} | 0 <= i < |events|
      ensures !Overwrites(Run(events[..i]), events[i])
    {
      var prefix := events[..i + 1];
      assert prefix[..i] == events[..i];
      ValidPrefixes(events, i + 1);
      PrefixCheckedBetween(events, i + 1);
      if events[i].Complete? {
        CheckedFlagIsClear(prefix);
      }
    }
  }

  /** No message is lost if its class is checked between any two completions. */
  lemma NothingLost(events: seq<Event>)
    requires Valid(events) && CheckedBetween(events)
    ensures Run(events).lost == {}
  {
    CheckedIsKept(events);
    KeptIffNothingLost(events);
  }

  /** The main loop's check of one class, in one or two steps. */
  function DrainClass(s: State, c: Class): State {
    var t := Check(s, c);
    if t.pc == Taken(c) then UseSlot(t, c) else t
  }

  /** The main loop from its start to the sampling step, nothing arriving meanwhile. */
  function Drain(s: State): State {
    DrainClass(DrainClass(DrainClass(s, Usb), Ble), Other)
  }

  function MainSteps(s: State, k: nat): State {
    if k == 0 then s else OnMain(MainSteps(s, k - 1), false)
  }

  lemma DrainClassIsMainSteps(start: State, s: State, k: nat, c: Class) returns (next: nat)
    requires s == MainSteps(start, k) && s.pc == AtCheck(c)
    ensures next in {k + 1, k + 2} && DrainClass(s, c) == MainSteps(start, next) && DrainClass(s, c).pc == After(c)
  {
    assert MainSteps(start, k + 1) == OnMain(s, false);
    next := if s.received.Get(c) then k + 2 else k + 1;
  }

  lemma DrainIsMainSteps(s: State)
    requires s.pc == AtCheck(Usb)
    ensures exists k :: 3 <= k <= 6 && Drain(s) == MainSteps(s, k)
  {
    hide DrainClass;
    var ble := DrainClass(s, Usb);
    var other := DrainClass(ble, Ble);
    var k1 := DrainClassIsMainSteps(s, s, 0, Usb);
    var k2 := DrainClassIsMainSteps(s, ble, k1, Ble);
    var k3 := DrainClassIsMainSteps(s, other, k2, Other);
    assert Drain(s) == MainSteps(s, k3);
  }

  lemma DrainClassKeepsInv(s: State, c: Class)
    requires Inv(s) && s.pc == AtCheck(c)
    ensures var t := DrainClass(s, c);
            Inv(t) && t.pc == After(c) && t.received == s.received.Set(c, false)
            && t.done == s.done && t.lost == s.lost
  {
    hide Inv;
    CheckKeepsInv(s, c);
    if Check(s, c).pc == Taken(c) {
      UseSlotKeepsInv(Check(s, c), c);
    }
  }

  lemma DrainSettles(s: State)
    requires Inv(s) && s.pc == AtCheck(Usb)
    ensures var t := Drain(s);
            Inv(t) && t.pc == AtSample && t.received == PerClass(false, false, false)
            && t.done == s.done && t.lost == s.lost
  {
    hide Inv, DrainClass;
    DrainClassKeepsInv(s, Usb);
    DrainClassKeepsInv(DrainClass(s, Usb), Ble);
    DrainClassKeepsInv(DrainClass(DrainClass(s, Usb), Ble), Other);
  }

  /** A message occurs exactly once among the dispatches. */
  ghost predicate Once(log: seq<Dispatch>, id: nat) {
    exists i :: 0 <= i < |log| && log[i].id == id && forall j :: 0 <= j < |log| && j != i ==> log[j].id != id
  }

  lemma SettledMeansOnce(t: State, id: nat)
    requires Inv(t) && t.pc == AtSample && t.received == PerClass(false, false, false)
    requires id < |t.done| && id !in t.lost
    ensures Once(t.log, id)
  {
    assert Accounted(t, id);
    assert Claimed(t, id);
    var i :| 0 <= i < |Claims(t)| && Claims(t)[i].id == id;
    forall j | 0 <= j < |t.log| && j != i ensures t.log[j].id != id {
      ClaimsAreDistinct(t, if i < j then i else j, if i < j then j else i);
    }
  }

  /** On every quiet run without an overwritten message, every completed message has been
      dispatched exactly once as soon as the main loop has gone through its checks again. */
  lemma DispatchedExactlyOnce(events: seq<Event>, id: nat)
    requires Valid(events) && Quiet(events) && Kept(events)
    requires Run(events).pc == AtCheck(Usb) && id < |Run(events).done|
    ensures Once(Drain(Run(events)).log, id)
  {
    hide Inv, Drain, Run, Valid, Quiet, Kept;
    RunKeepsInv(events);
    KeptIffNothingLost(events);
    DrainSettles(Run(events));
    SettledMeansOnce(Drain(Run(events)), id);
  }

  // ---------------------------------------------------------------- quietness is needed

  /** A completed message that was not dispatched and has no slot to be dispatched from. */
  ghost predicate Gone(s: State, id: nat) {
    && id < |s.done| && s.pc != Answering(id)
    && (forall i :: 0 <= i < |s.log| ==> s.log[i].id != id)
    && forall c :: Waiting(s, c) ==> s.slotId.Get(c) != id
  }

  lemma GoneStays(s: State, e: Event, id: nat)
    requires Gone(s, id) && Enabled(s, e)
    ensures Gone(Step(s, e), id)
  {
    var t := Step(s, e);
    forall c | Waiting(t, c) ensures t.slotId.Get(c) != id {
      assert Waiting(s, c) || t.slotId.Get(c) == |s.done|;
    }
  }

  /** The message the main loop holds is gone when another one completes in its slot. */
  lemma DisturbedIsGone(s: State)
    requires Inv(s) && s.n == MESSAGE_SIZE && Holds(s, ClassOf(s.temp))
    ensures Gone(OnComplete(s), s.slotId.Get(ClassOf(s.temp)))
  {
    var c := ClassOf(s.temp);
    WaitingIsUnclaimed(s, c);
    var id := s.slotId.Get(c);
    forall i | 0 <= i < |s.log| ensures s.log[i].id != id {
      assert Claims(s)[i].id == s.log[i].id;
    }
    var t := OnComplete(s);
    assert !s.answered.Get(c) by {
      assert FlagsRight(s, c);
    }
    forall k | Waiting(t, k) ensures t.slotId.Get(k) != id {
      if k != c {
        WaitingIsUnclaimed(s, k);
      }
    }
  }

  lemma QuietPrefix(events: seq<Event>)
    requires events != []
    ensures var init := events[..|events| - 1];
            Quiet(events) <==> Quiet(init) && Undisturbed(Run(init), events[|events| - 1])
  {
    hide Undisturbed, Run;
    var init := events[..|events| - 1];
    assert forall k :: 0 <= k < |init| ==> init[..k] == events[..k] && init[k] == events[k];
    if Quiet(init) && Undisturbed(Run(init), events[|init|]) {
      forall i | 0 <= i < |events| ensures Undisturbed(Run(events[..i]), events[i]) {
        if i < |init| {
          assert Undisturbed(Run(init[..i]), init[i]);
        }
      }
    }
  }

  lemma DisturbedEvent(s: State, e: Event)
    requires Inv(s) && Enabled(s, e) && !Undisturbed(s, e)
    ensures Gone(Step(s, e), s.slotId.Get(ClassOf(s.temp)))
  {
    DisturbedIsGone(s);
  }

  lemma {:induction false} DisturbedRunLoses(events: seq<Event>) returns (id: nat)
    requires Valid(events) && !Quiet(events)
    ensures Gone(Run(events), id)
  {
    assert events != [];
    var last := |events| - 1;
    var init := events[..last];
    hide Gone, Step, Enabled, Inv, Run, Valid, Undisturbed, Quiet;
    ValidPrefix(events);
    QuietPrefix(events);
    if Quiet(init) {
      RunKeepsInv(init);
      id := Run(init).slotId.Get(ClassOf(Run(init).temp));
      DisturbedEvent(Run(init), events[last]);
    } else {
      id := DisturbedRunLoses(init);
      GoneStays(Run(init), events[last], id);
    }
  }

  lemma {:induction false} GoneAfterMainSteps(s: State, k: nat, id: nat)
    requires Gone(s, id)
    ensures Gone(MainSteps(s, k), id)
  {
    if k > 0 {
      hide Gone;
      GoneAfterMainSteps(s, k - 1, id);
      GoneStays(MainSteps(s, k - 1), Main(false), id);
    }
  }

  lemma GoneIsNotOnce(s: State, id: nat)
    requires Gone(s, id)
    ensures id < |s.done| && !Once(s.log, id)
  {
  }

  lemma DrainKeepsDone(s: State)
    ensures Drain(s).done == s.done
  {
  }

  lemma LostIsNotLogged(t: State, id: nat)
    requires Inv(t) && id in t.lost && t.pc == AtSample
    ensures id < |t.done| && !Once(t.log, id)
  {
    assert Claims(t) == t.log;
  }

  /** A message overwritten while flagged is never dispatched. */
  lemma OverwrittenIsNotOnce(events: seq<Event>) returns (id: nat)
    requires Valid(events) && Quiet(events) && !Kept(events) && Run(events).pc == AtCheck(Usb)
    ensures id < |Run(events).done| && !Once(Drain(Run(events)).log, id)
  {
    KeptIffNothingLost(events);
    RunKeepsInv(events);
    hide Run, Valid, Quiet, Kept;
    var s := Run(events);
    id :| id in s.lost;
    DrainSettles(s);
    LostIsNotLogged(Drain(s), id);
  }

  /** On every run, every completed message is dispatched exactly once if and only if no
      completion lands in a slot while the main loop, having cleared its flag, has not yet used
      it, and none comes while the flag of its class is set. */
  lemma ExactlyOnceIff(events: seq<Event>)
    requires Valid(events) && Run(events).pc == AtCheck(Usb)
    ensures (forall id: nat :: id < |Run(events).done| ==> Once(Drain(Run(events)).log, id))
       <==> Quiet(events) && Kept(events)
  {
    hide Run, Valid, Quiet, Kept, Drain, Gone, Once;
    if !Quiet(events) {
      var id := DisturbedRunLoses(events);
      DrainIsMainSteps(Run(events));
      var k :| 3 <= k <= 6 && Drain(Run(events)) == MainSteps(Run(events), k);
      GoneAfterMainSteps(Run(events), k, id);
      GoneIsNotOnce(Drain(Run(events)), id);
      DrainKeepsDone(Run(events));
    } else if !Kept(events) {
      var id := OverwrittenIsNotOnce(events);
    } else {
      forall id: nat | id < |Run(events).done| ensures Once(Drain(Run(events)).log, id) {
        DispatchedExactlyOnce(events, id);
      }
    }
  }

  /** If the full-message check runs between any two completions of a class, the first of these
      conditions alone decides. */
  lemma ExactlyOnceIffQuiet(events: seq<Event>)
    requires Valid(events) && CheckedBetween(events) && Run(events).pc == AtCheck(Usb)
    ensures (forall id: nat :: id < |Run(events).done| ==> Once(Drain(Run(events)).log, id)) <==> Quiet(events)
  {
    ExactlyOnceIff(events);
    CheckedIsKept(events);
  }

  predicate Logged(log: seq<Dispatch>, id: nat) {
    exists i :: 0 <= i < |log| && log[i].id == id
  }

  /** A message that was dispatched twice or will be: it waits to be used and is flagged as
      well, or it waits although it was dispatched. */
  ghost predicate Doubled(s: State) {
    || !Distinct(s.log)
    || exists c :: (s.received.Get(c) && Holds(s, c)) || (Waiting(s, c) && Logged(s.log, s.slotId.Get(c)))
  }

  lemma LoggedMore(log: seq<Dispatch>, d: Dispatch)
    ensures Logged(log + [d], d.id)
    ensures forall id :: Logged(log, id) ==> Logged(log + [d], id)
    ensures Logged(log, d.id) || !Distinct(log) ==> !Distinct(log + [d])
  {
    assert (log + [d])[|log|] == d;
    assert forall i :: 0 <= i < |log| ==> (log + [d])[i] == log[i];
  }

  lemma DoubledAtUse(s: State, c: Class)
    requires Steady(s) && s.pc == Taken(c) && (s.received.Get(c) || Logged(s.log, s.slotId.Get(c)))
    ensures Doubled(UseSlot(s, c))
  {
    UseSlotClaims(s, c);
    var t := UseSlot(s, c);
    LoggedMore(s.log, Dispatch(s.slotId.Get(c), c, s.slot.Get(c), false));
    assert s.received.Get(c) ==> Waiting(t, c) && Logged(t.log, t.slotId.Get(c));
  }

  lemma LogGrows(s: State, e: Event)
    requires Enabled(s, e)
    ensures !Distinct(s.log) ==> !Distinct(Step(s, e).log)
    ensures forall id :: Logged(s.log, id) ==> Logged(Step(s, e).log, id)
  {
    var t := Step(s, e);
    assert t.log == s.log || t.log == s.log + [t.log[|s.log|]];
    if t.log != s.log {
      LoggedMore(s.log, t.log[|s.log|]);
    }
  }

  lemma WaitingStays(s: State, e: Event, c: Class)
    requires Enabled(s, e) && Waiting(s, c) && !s.answered.Get(c) && !(e.Main? && s.pc == Taken(c))
    requires e.Complete? ==> !s.received.Get(ClassOf(s.temp))
    ensures var t := Step(s, e);
            if e.Complete? && ClassOf(s.temp) == c then t.received.Get(c) && Holds(t, c)
            else && Waiting(t, c) && t.slotId.Get(c) == s.slotId.Get(c)
                 && (s.received.Get(c) && Holds(s, c) ==> t.received.Get(c) && Holds(t, c))
  {
  }

  /** When completions of a class find its flag clear, one that will be dispatched twice stays so. */
  lemma DoubledStays(s: State, e: Event)
    requires Steady(s) && Doubled(s) && Enabled(s, e) && (e.Complete? ==> !s.received.Get(ClassOf(s.temp)))
    ensures Doubled(Step(s, e))
  {
    LogGrows(s, e);
    if Distinct(s.log) {
      var c :| (s.received.Get(c) && Holds(s, c)) || (Waiting(s, c) && Logged(s.log, s.slotId.Get(c)));
      assert FlagsRight(s, c);
      hide Distinct, Logged, FlagsRight, Steady;
      if e.Main? && s.pc == Taken(c) {
        DoubledAtUse(s, c);
      } else {
        WaitingStays(s, e, c);
      }
    }
  }

  lemma DisturbedEventDoubles(s: State, e: Event)
    requires Steady(s) && Enabled(s, e) && !Undisturbed(s, e)
    ensures Doubled(Step(s, e))
  {
    var c := ClassOf(s.temp);
    assert FlagsRight(s, c);
    assert Step(s, e).received.Get(c) && Holds(Step(s, e), c);
  }

  lemma {:induction false} DisturbedRunDoubles(events: seq<Event>)
    requires Valid(events) && CheckedBetween(events) && !Quiet(events)
    ensures Doubled(Run(events))
  {
    assert events != [];
    var last := |events| - 1;
    var init := events[..last];
    hide Doubled, Step, Enabled, Steady, Run, Valid, Undisturbed, Quiet, CheckedBetween;
    ValidPrefix(events);
    QuietPrefix(events);
    RunIsSteady(init);
    if events[last].Complete? {
      CheckedFlagIsClear(events);
    }
    if Quiet(init) {
      DisturbedEventDoubles(Run(init), events[last]);
    } else {
      PrefixCheckedBetween(events, last);
      DisturbedRunDoubles(init);
      DoubledStays(Run(init), events[last]);
    }
  }

  lemma {:induction false} DoubledAfterMainSteps(s: State, k: nat)
    requires Steady(s) && Doubled(s)
    ensures Steady(MainSteps(s, k)) && Doubled(MainSteps(s, k))
  {
    if k > 0 {
      hide Steady, Doubled;
      DoubledAfterMainSteps(s, k - 1);
      StepKeepsSteady(MainSteps(s, k - 1), Main(false));
      DoubledStays(MainSteps(s, k - 1), Main(false));
    }
  }

  lemma DrainClears(s: State)
    requires s.pc == AtCheck(Usb)
    ensures Drain(s).pc == AtSample && Drain(s).received == PerClass(false, false, false)
  {
  }

  /** If the full-message check runs between any two completions of a class, no message is
      dispatched twice if and only if no completion lands in a slot while the main loop, having
      cleared its flag, has not yet used it. */
  lemma AtMostOnceIffQuiet(events: seq<Event>)
    requires Valid(events) && CheckedBetween(events) && Run(events).pc == AtCheck(Usb)
    ensures Distinct(Drain(Run(events)).log) <==> Quiet(events)
  {
    hide Run, Valid, Quiet, CheckedBetween, Drain, Inv, Steady;
    var t := Drain(Run(events));
    if Quiet(events) {
      RunKeepsInv(events);
      DrainSettles(Run(events));
      assert Claims(t) == t.log;
      forall i, j | 0 <= i < j < |t.log| ensures t.log[i].id != t.log[j].id {
        ClaimsAreDistinct(t, i, j);
      }
    } else {
      RunIsSteady(events);
      DisturbedRunDoubles(events);
      DrainIsMainSteps(Run(events));
      var k :| 3 <= k <= 6 && t == MainSteps(Run(events), k);
      DoubledAfterMainSteps(Run(events), k);
      DrainClears(Run(events));
      assert Doubled(t);
      assert forall c :: !Waiting(t, c);
    }
  }

  // ---------------------------------------------------------------- a run that is not quiet

  /** The bytes of a message, one after another. */
  function Arrival(m: Message): (events: seq<Event>)
    ensures |events| == MESSAGE_SIZE && forall i :: 0 <= i < MESSAGE_SIZE ==> events[i] == ByteIn(m[i])
  {
    seq(MESSAGE_SIZE, i requires 0 <= i < MESSAGE_SIZE => ByteIn(m[i]))
  }

  lemma RunNext(events: seq<Event>, e: Event)
    requires Valid(events) && Enabled(Run(events), e)
    ensures Valid(events + [e]) && Run(events + [e]) == Step(Run(events), e)
  {
    hide Step, Enabled;
    var more := events + [e];
    assert more[..|events|] == events;
    assert forall k :: 0 <= k < |events| ==> more[..k] == events[..k] && more[k] == events[k];
  }

  /** The state while a message arrives. */
  function Arriving(s: State, m: Message, n: nat): State
    requires n <= MESSAGE_SIZE
  {
    s.(temp := m[..n] + s.temp[n..], n := n, arrivals := s.arrivals + n)
  }

  predicate Receptive(s: State) {
    s.n == 0 && !s.pc.Sampled? && !s.pc.Picked?
  }

  lemma ArrivingNext(s: State, m: Message, n: nat)
    requires n < MESSAGE_SIZE && Receptive(s)
    ensures Enabled(Arriving(s, m, n), ByteIn(m[n]))
    ensures Step(Arriving(s, m, n), ByteIn(m[n])) == Arriving(s, m, n + 1)
  {
    assert (m[..n] + s.temp[n..])[n := m[n]] == m[..n + 1] + s.temp[n + 1..];
  }

  lemma {:induction false} RunArriving(events: seq<Event>, m: Message, n: nat)
    requires Valid(events) && Receptive(Run(events)) && n <= MESSAGE_SIZE
    ensures Valid(events + Arrival(m)[..n]) && Run(events + Arrival(m)[..n]) == Arriving(Run(events), m, n)
  {
    hide Run, Valid, Step, Enabled;
    if n == 0 {
      assert events + Arrival(m)[..0] == events;
      assert m[..0] + Run(events).temp[0..] == Run(events).temp;
    } else {
      RunArriving(events, m, n - 1);
      ArrivingNext(Run(events), m, n - 1);
      RunNext(events + Arrival(m)[..n - 1], ByteIn(m[n - 1]));
      assert events + Arrival(m)[..n - 1] + [ByteIn(m[n - 1])] == events + Arrival(m)[..n];
    }
  }

  lemma RunArrival(events: seq<Event>, m: Message)
    requires Valid(events) && Receptive(Run(events))
    ensures Valid(events + Arrival(m))
    ensures var s := Run(events);
            Run(events + Arrival(m)) == s.(temp := m, n := MESSAGE_SIZE, arrivals := s.arrivals + MESSAGE_SIZE)
  {
    hide Run, Valid;
    RunArriving(events, m, MESSAGE_SIZE);
    assert Arrival(m)[..MESSAGE_SIZE] == Arrival(m);
    assert m[..MESSAGE_SIZE] + Run(events).temp[MESSAGE_SIZE..] == m;
  }

  /** Two USB messages; the second completes while the main loop holds the slot of the first.
      The main loop then goes round once. */
  function BeforeDisturbance(): seq<Event> {
    Arrival(BLANK) + [Complete, Main(false)] + Arrival(BLANK)
  }

  function DisturbedEvents(): seq<Event> {
    BeforeDisturbance() + [Complete] + [Main(false), Main(false), Main(false), Main(false), Main(false), Main(false)]
  }

  /** The state once the first message, a USB one, is flagged. */
  function Flagged(m: Message): State {
    START.(temp := m, arrivals := MESSAGE_SIZE, done := [m], received := PerClass(true, false, false),
           slot := PerClass(m, BLANK, BLANK))
  }

  lemma FlaggedAfter(s: State, m: Message)
    requires ClassOf(m) == Usb && s == START.(temp := m, n := MESSAGE_SIZE, arrivals := MESSAGE_SIZE)
    ensures Enabled(s, Complete) && Step(s, Complete) == Flagged(m)
  {
  }

  lemma FirstMessage(m: Message)
    requires ClassOf(m) == Usb
    ensures var once := Arrival(m) + [Complete]; Valid(once) && Run(once) == Flagged(m)
  {
    RunOfNothing();
    assert Valid([]);
    hide Run, Valid, ClassOf, Step, Flagged;
    RunArrival([], m);
    assert [] + Arrival(m) == Arrival(m);
    FlaggedAfter(Run(Arrival(m)), m);
    RunNext(Arrival(m), Complete);
  }

  /** The main loop then clears the flag. */
  lemma FirstHeld(m: Message)
    requires ClassOf(m) == Usb
    ensures var held := Arrival(m) + [Complete, Main(false)];
            Valid(held) && Run(held) == Flagged(m).(received := PerClass(false, false, false), pc := Taken(Usb))
  {
    hide Run, Valid, ClassOf;
    FirstMessage(m);
    RunNext(Arrival(m) + [Complete], Main(false));
    assert Arrival(m) + [Complete] + [Main(false)] == Arrival(m) + [Complete, Main(false)];
  }

  lemma BlankIsUsb()
    ensures ClassOf(BLANK) == Usb
  {
  }

  lemma ReachesDisturbance()
    ensures Valid(BeforeDisturbance())
    ensures Run(BeforeDisturbance()) == START.(
                n := MESSAGE_SIZE, arrivals := 2 * MESSAGE_SIZE, done := [BLANK], pc := Taken(Usb))
    ensures ChecksAt(BeforeDisturbance(), MESSAGE_SIZE + 1, Usb)
  {
    hide Run, Valid, BLANK;
    BlankIsUsb();
    FirstMessage(BLANK);
    FirstHeld(BLANK);
    RunArrival(Arrival(BLANK) + [Complete, Main(false)], BLANK);
    assert BeforeDisturbance()[..MESSAGE_SIZE + 1] == Arrival(BLANK) + [Complete];
  }

  /** The main loop's round after the second completion. */
  lemma RoundAfterDisturbance(events: seq<Event>, a: nat)
    requires Valid(events)
    requires Run(events) == START.(arrivals := a, done := [BLANK, BLANK], pc := Taken(Usb),
                                   received := PerClass(true, false, false), slotId := PerClass(1, 0, 0))
    ensures var more := events + [Main(false), Main(false), Main(false), Main(false), Main(false), Main(false)];
            && Valid(more)
            && Run(more) == Run(events).(arrivals := 0, pc := AtCheck(Usb), log := [Dispatch(1, Usb, BLANK, false)])
  {
    hide Run, Valid;
    var m := Main(false);
    RunNext(events, m);
    RunNext(events + [m], m);
    assert Run(events + [m] + [m]) == Run(events).(pc := AtCheck(Other), log := [Dispatch(1, Usb, BLANK, false)]);
    RunNext(events + [m] + [m], m);
    RunNext(events + [m] + [m] + [m], m);
    RunNext(events + [m] + [m] + [m] + [m], m);
    RunNext(events + [m] + [m] + [m] + [m] + [m], m);
    assert events + [m] + [m] + [m] + [m] + [m] + [m] == events + [m, m, m, m, m, m];
  }

  lemma DisturbedRun()
    ensures Valid(DisturbedEvents()) && !Quiet(DisturbedEvents())
    ensures Run(DisturbedEvents()) == START.(
                done := [BLANK, BLANK], received := PerClass(true, false, false), slotId := PerClass(1, 0, 0),
                pc := AtCheck(Usb), log := [Dispatch(1, Usb, BLANK, false)])
  {
    hide BeforeDisturbance, Run, Valid, BLANK;
    ReachesDisturbance();
    BlankIsUsb();
    var before := BeforeDisturbance();
    var events := DisturbedEvents();
    assert events[|before|] == Complete && events[..|before|] == before;
    assert !Undisturbed(Run(events[..|before|]), events[|before|]);
    RunNext(before, Complete);
    RoundAfterDisturbance(before + [Complete], 2 * MESSAGE_SIZE);
  }

  lemma DisturbedCompletions(i: nat)
    requires i < |DisturbedEvents()| && DisturbedEvents()[i].Complete?
    ensures i == MESSAGE_SIZE || i == |BeforeDisturbance()| == 2 * MESSAGE_SIZE + 2
  {
  }

  lemma DisturbedRunIsChecked()
    ensures CheckedBetween(DisturbedEvents())
  {
    var before, events := BeforeDisturbance(), DisturbedEvents();
    assert before == events[..|before|];
    hide Run, ChecksAt, Valid, BeforeDisturbance, DisturbedEvents;
    ReachesDisturbance();
    BlankIsUsb();
    PrefixSees(events, |before|, MESSAGE_SIZE + 1, Usb);
    forall c, i: nat, j: nat | i < j && CompletesAt(events, i, c) && CompletesAt(events, j, c)
      ensures exists k :: i < k < j && ChecksAt(events, k, c)
    {
      DisturbedCompletions(i);
      DisturbedCompletions(j);
    }
  }

  /** The class check runs between the two completions, every step is possible, and yet the
      second message is dispatched twice and the first never. */
  lemma DisturbedMessageIsUsedTwice()
    ensures var events, d := DisturbedEvents(), Dispatch(1, Usb, BLANK, false);
            && Valid(events) && CheckedBetween(events) && !Quiet(events)
            && Run(events).pc == AtCheck(Usb) && |Run(events).done| == 2 && Drain(Run(events)).log == [d, d]
  {
    DisturbedRun();
    DisturbedRunIsChecked();
    hide Run, Valid, Quiet, CheckedBetween, DisturbedEvents;
  }
}
