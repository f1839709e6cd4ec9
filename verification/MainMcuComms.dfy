/** The receive side of comms_main_mcu.c and dma.c with its global flags and buffers. Every
    method is one atomic step of the EarlyDispatch state machine. */
module MainMcuComms {
  import opened Wrappers
  import opened EarlyDispatch

  /** memcpy of the first `count` bytes. */
  method CopyBytes(dst: array<byte>, src: array<byte>, count: nat)
    requires dst != src && dst.Length == src.Length && count <= dst.Length
    modifies dst
    ensures dst[..] == src[..count] + old(dst[count..])
  {
    var i := 0;
    while i < count
      invariant i <= count && dst[..i] == src[..i] && dst[i..] == old(dst[i..])
    {
      dst[i] := src[i];
      i := i + 1;
    }
    assert dst[..] == dst[..count] + dst[count..];
  }

  /** memset to zero. */
  method Clear(dst: array<byte>)
    modifies dst
    ensures dst[..] == Zeros(dst.Length)
  {
    var i := 0;
    while i < dst.Length
      invariant i <= dst.Length && forall k :: 0 <= k < i ==> dst[k] == 0
    {
      dst[i] := 0;
      i := i + 1;
    }
  }

  class Comms {
    const temp: array<byte>
    const usbMessage: array<byte>
    const bleMessage: array<byte>
    const otherMessage: array<byte>
    const tempMessage: array<byte>
    var nbReceived: nat
    var usbAnswered: bool
    var bleAnswered: bool
    var otherAnswered: bool
    var usbReceived: bool
    var bleReceived: bool
    var otherReceived: bool
    var pc: Pc
    // History, for the specification only
    var done: seq<Message>
    var slotId: PerClass<nat>
    var arrivals: nat
    var log: seq<Dispatch>
    var lost: set<nat>

    function Buffers(): set<object> {
      {temp, usbMessage, bleMessage, otherMessage, tempMessage}
    }

    predicate Valid()
      reads this, Buffers()
    {
      && temp.Length == usbMessage.Length == bleMessage.Length == otherMessage.Length == tempMessage.Length
         == MESSAGE_SIZE
      && temp != usbMessage && temp != bleMessage && temp != otherMessage && temp != tempMessage
      && usbMessage != bleMessage && usbMessage != otherMessage && usbMessage != tempMessage
      && bleMessage != otherMessage && bleMessage != tempMessage && otherMessage != tempMessage
    }

    function Answered(): PerClass<bool>
      reads this`usbAnswered, this`bleAnswered, this`otherAnswered
    {
      PerClass(usbAnswered, bleAnswered, otherAnswered)
    }

    function Received(): PerClass<bool>
      reads this`usbReceived, this`bleReceived, this`otherReceived
    {
      PerClass(usbReceived, bleReceived, otherReceived)
    }

    function Slots(): PerClass<Message>
      reads this, Buffers()
      requires Valid()
    {
      PerClass(usbMessage[..], bleMessage[..], otherMessage[..])
    }

    ghost function State(): EarlyDispatch.State
      reads this, Buffers()
      requires Valid()
    {
      EarlyDispatch.State.State(temp[..], nbReceived, Answered(), Received(), Slots(), tempMessage[..],
                                pc, done, slotId, arrivals, log, lost)
    }

    constructor ()
      ensures Valid() && fresh(Buffers()) && State() == START
    {
      temp := new byte[MESSAGE_SIZE](_ => 0);
      usbMessage := new byte[MESSAGE_SIZE](_ => 0);
      bleMessage := new byte[MESSAGE_SIZE](_ => 0);
      otherMessage := new byte[MESSAGE_SIZE](_ => 0);
      tempMessage := new byte[MESSAGE_SIZE](_ => 0);
      nbReceived := 0;
      usbAnswered, bleAnswered, otherAnswered := false, false, false;
      usbReceived, bleReceived, otherReceived := false, false, false;
      pc := AtCheck(Usb);
      done, slotId, arrivals, log, lost := [], PerClass(0, 0, 0), 0, [], {};
      new;
      assert temp[..] == BLANK && usbMessage[..] == BLANK && bleMessage[..] == BLANK;
      assert otherMessage[..] == BLANK && tempMessage[..] == BLANK;
    }

    /** DMA stores one byte. */
    method ByteArrives(b: byte)
      requires Valid() && nbReceived < MESSAGE_SIZE
      modifies this`nbReceived, this`arrivals, temp
      ensures Valid() && State() == OnByte(old(State()), b)
    {
      temp[nbReceived] := b;
      nbReceived := nbReceived + 1;
      arrivals := arrivals + 1;
    }

    method TypeOfTemp() returns (c: Class)
      requires Valid()
      ensures c == ClassOf(temp[..])
    {
      assert temp[..][0] == temp[0] && temp[..][1] == temp[1];
      var t := temp[0] as int + 256 * temp[1] as int;
      if t == 0 { c := Usb; } else if t == 1 { c := Ble; } else { c := Other; }
    }

    method SetAnswered(c: Class, v: bool)
      modifies this`usbAnswered, this`bleAnswered, this`otherAnswered
      ensures Answered() == old(Answered()).Set(c, v)
    {
      match c
      case Usb => usbAnswered := v;
      case Ble => bleAnswered := v;
      case Other => otherAnswered := v;
    }

    method SetReceived(c: Class, v: bool)
      modifies this`usbReceived, this`bleReceived, this`otherReceived
      ensures Received() == old(Received()).Set(c, v)
    {
      match c
      case Usb => usbReceived := v;
      case Ble => bleReceived := v;
      case Other => otherReceived := v;
    }

    /** Copies the received message to the buffer of its class. */
    method StoreSlot(c: Class)
      requires Valid()
      modifies usbMessage, bleMessage, otherMessage
      ensures Slots() == old(Slots()).Set(c, temp[..])
    {
      match c
      case Usb =>
        CopyBytes(usbMessage, temp, MESSAGE_SIZE);
        assert usbMessage[..] == temp[..];
      case Ble =>
        CopyBytes(bleMessage, temp, MESSAGE_SIZE);
        assert bleMessage[..] == temp[..];
      case Other =>
        CopyBytes(otherMessage, temp, MESSAGE_SIZE);
        assert otherMessage[..] == temp[..];
    }

    /** A message answered early only loses its answered flag; any other one is flagged. */
    method FlagMessage(c: Class, id: nat)
      modifies this`usbAnswered, this`bleAnswered, this`otherAnswered
      modifies this`usbReceived, this`bleReceived, this`otherReceived, this`slotId, this`lost
      ensures if old(Answered()).Get(c) then
                Answered() == old(Answered()).Set(c, false) && Received() == old(Received())
                && slotId == old(slotId) && lost == old(lost)
              else
                Answered() == old(Answered()) && Received() == old(Received()).Set(c, true)
                && slotId == old(slotId).Set(c, id)
                && lost == if old(Received()).Get(c) then old(lost) + {old(slotId).Get(c)} else old(lost)
    {
      if Answered().Get(c) {
        SetAnswered(c, false);
      } else {
        lost := if Received().Get(c) then lost + {slotId.Get(c)} else lost;
        slotId := slotId.Set(c, id);
        SetReceived(c, true);
      }
    }

    /** DMAC_Handler() for the receive channel. */
    method DmacHandler()
      requires Valid() && nbReceived == MESSAGE_SIZE
      modifies this, usbMessage, bleMessage, otherMessage
      ensures Valid() && State() == OnComplete(old(State()))
    {
      hide ClassOf;
      var c := TypeOfTemp();
      nbReceived := 0;
      StoreSlot(c);
      FlagMessage(c, |done|);
      done := done + [temp[..]];
    }

    /** The full-message checks: test and clear the received flag. */
    method CheckReceived(c: Class)
      requires Valid() && pc == AtCheck(c)
      modifies this`usbReceived, this`bleReceived, this`otherReceived, this`pc
      ensures Valid() && State() == Check(old(State()), c)
    {
      if Received().Get(c) {
        SetReceived(c, false);
        pc := Taken(c);
      } else {
        pc := After(c);
      }
    }

    /** The rest of a full-message check: handle the slot unless answered early. */
    method DealWithSlot(c: Class)
      requires Valid() && pc == Taken(c)
      modifies this`pc, this`log
      ensures Valid() && State() == UseSlot(old(State()), c)
    {
      if !Answered().Get(c) {
        log := log + [Dispatch(slotId.Get(c), c, Slots().Get(c), false)];
      }
      pc := After(c);
    }

    /** nb_received_bytes_for_ongoing_transfer: the message size less the remaining count, which
        may still read 0 right after re-arming. */
    method ReadByteCount(stale: bool)
      requires Valid() && pc == AtSample && nbReceived <= MESSAGE_SIZE
      modifies this`pc, this`arrivals
      ensures Valid() && State() == Sample(old(State()), stale)
    {
      var remaining := if stale && nbReceived == 0 then 0 else MESSAGE_SIZE - nbReceived;
      pc := Sampled(MESSAGE_SIZE - remaining);
      arrivals := 0;
    }

    /** Selects the flags of the class the received type names. */
    method PickFlags()
      requires Valid() && pc.Sampled?
      modifies this`pc
      ensures Valid() && State() == OnMain(old(State()), false)
    {
      var c := TypeOfTemp();
      pc := Picked(pc.count, c);
    }

    /** Clears the dedicated buffer and copies the bytes counted so far. */
    method KeepFirstBytes(count: nat)
      requires Valid() && count <= MESSAGE_SIZE
      modifies tempMessage
      ensures tempMessage[..] == FirstBytes(temp[..], count)
    {
      Clear(tempMessage);
      ghost var zeros := tempMessage[..];
      CopyBytes(tempMessage, temp, count);
      assert zeros[count..] == Zeros(MESSAGE_SIZE - count);
      assert temp[..][..count] == temp[..count];
    }

    /** The critical section: decide on an early answer and copy the first bytes. */
    method CriticalSection()
      requires Valid() && pc.Picked? && pc.count <= MESSAGE_SIZE
      modifies this, tempMessage
      ensures Valid() && State() == Critical(old(State()), old(pc.count), old(pc.c))
    {
      hide ClassOf;
      var count, c := pc.count, pc.c;
      assert temp[..][2] == temp[2] && temp[..][3] == temp[3];
      var length := temp[2] as int + 256 * temp[3] as int;
      if count >= 4 + length && !Answered().Get(c) && MESSAGE_SIZE - count > EARLY_MARGIN && !Received().Get(c) {
        SetAnswered(c, true);
        KeepFirstBytes(count);
        pc := Answering(|done|);
      } else {
        pc := AtCheck(Usb);
      }
    }

    /** Handles the early copy. */
    method AnswerEarly()
      requires Valid() && pc.Answering?
      modifies this`pc, this`log
      ensures Valid() && State() == OnMain(old(State()), false)
    {
      log := log + [Dispatch(pc.id, ClassOf(tempMessage[..]), tempMessage[..], true)];
      pc := AtCheck(Usb);
    }
  }
}
