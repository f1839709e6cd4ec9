/** The v1 bootloader: aux_mcu/src/bootloader.c and the commands of COMM/comm_bootloader.c. */
module BootloaderV1 {
  import opened NorFlash
  import opened FlashLoaders
  import NvmV1

  const APP_START: nat := 0x2000
  const WAIT_TIME_MS: nat := 500
  const TICK_MS: nat := 100

  datatype Mode = Wait | Program | LastTxDma | StartApp

  /** The size of a write command is a 16-bit number. */
  type uint16 = x: int | 0 <= x < 0x1_0000

  datatype Command =
    | Programming(image: nat)
    | Write(size: uint16, data: Bytes)
    | Other

  /** What one turn of the main loop meets: the command received if any, whether 100 ms have
      passed, whether the DMA transfer is over, and what flash holds after a write outside it. */
  datatype Input = Input(command: Command, tick: bool, transferDone: bool, undefined: Image)

  datatype Machine = Machine(
    current: Mode,
    next: Mode,
    enter: bool,
    exit: bool,
    imageSize: nat,
    length: nat,
    address: nat,
    timeout: nat,
    flash: Image,
    started: bool)

  function Wrapped(x: nat): nat {
    x % 0x1_0000_0000
  }

  // ---------------------------------------------------------------- one turn

  function EnterProgramming(m: Machine, size: nat): Machine {
    m.(imageSize := size, length := 0, address := APP_START, enter := true)
  }

  /** The write lies in flash and in memory: the data is what memory holds from the message's
      payload on, which may be more than the message. */
  predicate Covered(m: Machine, size: nat, data: Bytes) {
    size <= |data| && |m.flash.programmed| == |m.flash.cells| && m.address + size <= 2 * |m.flash.cells|
  }

  /** The flash driver performs the write. */
  predicate Unrefused(m: Machine, size: nat) {
    NvmV1.Check(m.address, size) == NvmV1.NoError
  }

  function Flashed(m: Machine, size: nat, data: Bytes, undefined: Image): Image {
    if !Unrefused(m, size) then m.flash
    else if Covered(m, size, data) then Copied(m.flash, m.address / 2, Words(data[..size]))
    else undefined
  }

  /** A write the driver performs lies in flash and in memory. */
  predicate Defined(m: Machine, c: Command) {
    c.Write? && Unrefused(m, c.size) ==> Covered(m, c.size, c.data)
  }

  /** bootloader_write() does not look at the driver's error. */
  function WriteData(m: Machine, size: nat, data: Bytes, undefined: Image): Machine {
    var length := Wrapped(m.length + size);
    m.(flash := Flashed(m, size, data, undefined), length := length, address := Wrapped(m.address + size),
       exit := m.exit || m.imageSize <= length)
  }

  function Process(m: Machine, i: Input): Machine {
    match i.command
    case Programming(size) => EnterProgramming(m, size)
    case Write(size, data) => if m.current == Program then WriteData(m, size, data, i.undefined) else m
    case Other => m
  }

  /** Counting the time to wait. */
  function Timed(m: Machine, tick: bool): Machine {
    var timeout := if tick then m.timeout + TICK_MS else m.timeout;
    if timeout >= WAIT_TIME_MS then m.(timeout := 0, next := StartApp) else m.(timeout := timeout)
  }

  /** The application's reset vector is erased. */
  predicate NoApplication(c: Image) {
    var at := (APP_START + 4) / 2;
    at + 2 <= |c.cells| && c.cells[at] == ERASED && c.cells[at + 1] == ERASED
  }

  function Chosen(m: Machine, i: Input): Machine {
    match m.current
    case Wait =>
      var p := Process(m, i);
      if p.enter then p.(next := Program) else Timed(p, i.tick)
    case Program =>
      var p := Process(m, i);
      if p.exit then p.(next := LastTxDma) else p
    case LastTxDma => if i.transferDone then m.(next := StartApp) else m
    case StartApp => if NoApplication(m.flash) then m.(next := Wait) else m.(started := true)
  }

  /** One turn; once the application runs, there are no more. */
  function Turn(m: Machine, i: Input): Machine {
    if m.started then m
    else
      var c := Chosen(m, i);
      if c.started then c else c.(current := c.next)
  }

  /** Without the magic key. The next state's variable starts as Wait in either case. */
  function PowerOn(flash: Image): Machine {
    Machine(Wait, Wait, false, false, 0, 0, 0, 0, flash, false)
  }

  function Keyed(flash: Image, size: nat): Machine {
    EnterProgramming(PowerOn(flash), size).(current := Program)
  }

  predicate Boots(m: Machine) {
    m == PowerOn(m.flash) || m == Keyed(m.flash, m.imageSize)
  }

  function Run(m: Machine, inputs: seq<Input>): Machine {
    if inputs == [] then m else Turn(Run(m, inputs[..|inputs| - 1]), inputs[|inputs| - 1])
  }

  lemma RunNext(m: Machine, inputs: seq<Input>, i: Input)
    ensures Run(m, inputs + [i]) == Turn(Run(m, inputs), i)
  {
    assert (inputs + [i])[..|inputs|] == inputs;
  }

  // ---------------------------------------------------------------- when the application is started

  predicate AcceptsProgramming(m: Machine, i: Input) {
    !m.started && m.current in {Wait, Program} && i.command.Programming?
  }

  predicate AcceptsWrite(m: Machine, i: Input) {
    !m.started && m.current == Program && i.command.Write?
  }

  /** A programming request was accepted, by the application before the reset or here. */
  ghost predicate Requested(m: Machine, inputs: seq<Input>) {
    || m.enter
    || exists k {:trigger inputs[k]} :: 0 <= k < |inputs| && AcceptsProgramming(Run(m, inputs[..k]), inputs[k])
  }

  predicate Fills(m: Machine, i: Input) {
    AcceptsWrite(m, i) && m.imageSize <= Wrapped(m.length + i.command.size)
  }

  /** A write was accepted that brought the length to that of the image. */
  ghost predicate Filled(m: Machine, inputs: seq<Input>) {
    exists k {:trigger inputs[k]} :: 0 <= k < |inputs| && Fills(Run(m, inputs[..k]), inputs[k])
  }

  /** The modes follow from the two flags. */
  predicate Consistent(m: Machine) {
    && (m.current == Wait ==> m.next == Wait)
    && (m.current == Program ==> m.enter && (m.exit ==> m.next == Program))
    && (m.current == LastTxDma ==> m.exit && m.next == LastTxDma)
    && (m.current == StartApp ==> m.next == StartApp && (m.enter ==> m.exit))
    && (m.started ==> m.current == StartApp)
    && m.next in {Wait, m.current}
    && (m.exit ==> m.enter)
  }

  lemma TurnKeepsConsistent(m: Machine, i: Input)
    requires Consistent(m)
    ensures Consistent(Turn(m, i))
    ensures Turn(m, i).enter == (m.enter || AcceptsProgramming(m, i))
    ensures Turn(m, i).exit == (m.exit || Fills(m, i))
  {
    hide Flashed, NoApplication, Wrapped;
  }

  lemma RequestedNext(m: Machine, init: seq<Input>, i: Input)
    ensures Requested(m, init + [i]) <==> Requested(m, init) || AcceptsProgramming(Run(m, init), i)
  {
    hide AcceptsProgramming, Run;
    var inputs := init + [i];
    assert forall k {:trigger inputs[k]} :: 0 <= k < |init| ==> init[..k] == inputs[..k] && init[k] == inputs[k];
    assert inputs[|init|] == i && inputs[..|init|] == init;
  }

  lemma FilledNext(m: Machine, init: seq<Input>, i: Input)
    ensures Filled(m, init + [i]) <==> Filled(m, init) || Fills(Run(m, init), i)
  {
    hide Fills, Run;
    var inputs := init + [i];
    assert forall k {:trigger inputs[k]} :: 0 <= k < |init| ==> init[..k] == inputs[..k] && init[k] == inputs[k];
    assert inputs[|init|] == i && inputs[..|init|] == init;
  }

  lemma {:induction false} FlagsRecord(m: Machine, inputs: seq<Input>)
    requires Boots(m)
    ensures var r := Run(m, inputs);
            Consistent(r) && (r.enter <==> Requested(m, inputs)) && (r.exit <==> Filled(m, inputs))
  {
    if inputs != [] {
      hide Turn, Consistent, AcceptsProgramming, Fills, Requested, Filled;
      var init, i := inputs[..|inputs| - 1], inputs[|inputs| - 1];
      assert inputs == init + [i];
      FlagsRecord(m, init);
      TurnKeepsConsistent(Run(m, init), i);
      RequestedNext(m, init, i);
      FilledNext(m, init, i);
    }
  }

  /** On every run, the application is started only if no programming request was ever accepted
      or a write has brought the length to the size of the image. */
  lemma StartedOnlyIfFilled(m: Machine, inputs: seq<Input>)
    requires Boots(m)
    ensures Run(m, inputs).started ==> !Requested(m, inputs) || Filled(m, inputs)
  {
    FlagsRecord(m, inputs);
  }

  // ---------------------------------------------------------------- what the flash holds

  /** The flash at the last programming command, and the bytes of the writes accepted since. */
  datatype Log = Log(base: Image, data: Bytes)

  function LogNext(r: Machine, l: Log, i: Input): Log {
    if AcceptsProgramming(r, i) then Log(r.flash, [])
    else if AcceptsWrite(r, i) && i.command.size <= |i.command.data| then
      Log(l.base, l.data + i.command.data[..i.command.size])
    else l
  }

  function Logged(m: Machine, inputs: seq<Input>): Log {
    if inputs == [] then Log(m.flash, [])
    else
      var init := inputs[..|inputs| - 1];
      LogNext(Run(m, init), Logged(m, init), inputs[|inputs| - 1])
  }

  predicate RowWrite(c: Command) {
    c.Write? && c.size in {0, 256, 512} && |c.data| == 512
  }

  predicate Fitting(r: Machine, l: Log, i: Input, size: nat) {
    AcceptsWrite(r, i) ==> RowWrite(i.command) && APP_START + |l.data| + i.command.size <= 2 * size
  }

  /** Every write accepted has whole rows, and the flash has room for all of them. */
  ghost predicate RowWrites(m: Machine, inputs: seq<Input>) {
    && |m.flash.programmed| == |m.flash.cells| && APP_START <= 2 * |m.flash.cells| < 0x1_0000_0000
    && forall k {:trigger inputs[k]} :: 0 <= k < |inputs| ==>
         Fitting(Run(m, inputs[..k]), Logged(m, inputs[..k]), inputs[k], |m.flash.cells|)
  }

  /** Since the last programming command the flash was changed by a copy of the bytes to the
      application's place, and by nothing else. */
  predicate Holds(r: Machine, l: Log, size: nat) {
    && |l.base.programmed| == |l.base.cells| == size
    && (r.enter ==>
          && |l.data| % 256 == 0 && APP_START + |l.data| <= 2 * size
          && r.flash == Copied(l.base, APP_START / 2, Words(l.data))
          && r.length == |l.data| && r.address == APP_START + r.length)
    && (!r.enter ==> l.data == [] && r.flash == l.base)
  }

  lemma WriteExtends(r: Machine, l: Log, size: nat, data: Bytes, undefined: Image, cells: nat)
    requires Holds(r, l, cells) && r.enter && size % 256 == 0 && size <= |data|
            && APP_START + |l.data| + size <= 2 * cells
    ensures Flashed(r, size, data, undefined) == Copied(l.base, APP_START / 2, Words(l.data + data[..size]))
  {
    hide Copied, Words;
    WordsAppend(l.data, data[..size]);
    CopiedTwice(l.base, APP_START / 2, Words(l.data), Words(data[..size]));
  }

  lemma NotWrapped(x: nat)
    requires x < 0x1_0000_0000
    ensures Wrapped(x) == x
  {
  }

  lemma HoldsWrite(r: Machine, l: Log, i: Input, cells: nat)
    requires Holds(r, l, cells) && r.enter && 2 * cells < 0x1_0000_0000 && AcceptsWrite(r, i) && Fitting(r, l, i, cells)
    ensures Holds(WriteData(r, i.command.size, i.command.data, i.undefined), LogNext(r, l, i), cells)
  {
    hide Copied, Words, Flashed, Wrapped, Unrefused;
    NotWrapped(r.length + i.command.size);
    NotWrapped(r.address + i.command.size);
    WriteExtends(r, l, i.command.size, i.command.data, i.undefined, cells);
  }

  lemma HoldsTurn(r: Machine, l: Log, i: Input, size: nat)
    requires Holds(r, l, size) && Consistent(r) && APP_START <= 2 * size < 0x1_0000_0000 && Fitting(r, l, i, size)
    ensures Holds(Turn(r, i), LogNext(r, l, i), size)
  {
    hide Copied, NoApplication;
    if AcceptsProgramming(r, i) {
      CopiedNothing(r.flash, APP_START / 2);
      assert Words([]) == [];
    } else if AcceptsWrite(r, i) {
      HoldsWrite(r, l, i, size);
      hide WriteData;
    }
  }

  /** On every run whose accepted writes are whole rows, the flash from 0x2000 holds, each cell
      programmed once, the writes since the last programming command one behind the other; the
      rest is as it was then; and the address is 0x2000 plus the length. */
  lemma {:induction false} HoldsWrites(m: Machine, inputs: seq<Input>)
    requires Boots(m) && RowWrites(m, inputs)
    ensures Holds(Run(m, inputs), Logged(m, inputs), |m.flash.cells|)
  {
    if inputs == [] {
      CopiedNothing(m.flash, APP_START / 2);
      assert Words([]) == [];
    } else {
      hide Turn, Consistent, Holds, LogNext, Fitting;
      var init, i := inputs[..|inputs| - 1], inputs[|inputs| - 1];
      assert forall k {:trigger inputs[k]} :: 0 <= k < |init| ==> init[..k] == inputs[..k] && init[k] == inputs[k];
      assert Fitting(Run(m, inputs[..|init|]), Logged(m, inputs[..|init|]), inputs[|init|], |m.flash.cells|);
      HoldsWrites(m, init);
      FlagsRecord(m, init);
      HoldsTurn(Run(m, init), Logged(m, init), i, |m.flash.cells|);
    }
  }

  // ---------------------------------------------------------------- other writes

  lemma StartFits()
    ensures Wrapped(APP_START + 0) == APP_START
  {
  }

  lemma BootAddress(m: Machine)
    requires Boots(m)
    ensures var r := Run(m, []); r.enter ==> r.address == Wrapped(APP_START + r.length)
  {
    StartFits();
  }

  lemma WrappedOff(x: nat, q: nat)
    ensures Wrapped(x + q * 0x1_0000_0000) == Wrapped(x)
  {
    var k := x / 0x1_0000_0000;
    assert x + q * 0x1_0000_0000 == Wrapped(x) + (k + q) * 0x1_0000_0000;
  }

  lemma WrappedSum(a: nat, b: nat)
    ensures Wrapped(Wrapped(a) + b) == Wrapped(a + b)
  {
    WrappedOff(Wrapped(a) + b, a / 0x1_0000_0000);
    assert a + b == Wrapped(a) + b + a / 0x1_0000_0000 * 0x1_0000_0000;
  }

  lemma WrappedLater(a: nat)
    ensures Wrapped(APP_START + Wrapped(a)) == Wrapped(APP_START + a)
  {
    WrappedSum(a, APP_START);
  }

  lemma AddressStep(r: Machine, i: Input)
    requires Consistent(r) && (r.enter ==> r.address == Wrapped(APP_START + r.length))
    ensures var s := Turn(r, i); s.enter ==> s.address == Wrapped(APP_START + s.length)
  {
    hide Flashed, NoApplication, Wrapped;
    if i.command.Write? {
      WrappedSum(APP_START + r.length, i.command.size);
      WrappedLater(r.length + i.command.size);
    }
    WrappedLater(0);
    StartFits();
  }

  /** On every run the address is 0x2000 plus the length, modulo 2^32. */
  lemma {:induction false} AddressFollows(m: Machine, inputs: seq<Input>)
    requires Boots(m)
    ensures var r := Run(m, inputs); r.enter ==> r.address == Wrapped(APP_START + r.length)
  {
    hide *;
    if inputs == [] {
      BootAddress(m);
    } else {
      var init, i := inputs[..|inputs| - 1], inputs[|inputs| - 1];
      assert inputs == init + [i];
      AddressFollows(m, init);
      FlagsRecord(m, init);
      RunNext(m, init, i);
      AddressStep(Run(m, init), i);
    }
  }

  lemma AddressInRow(length: nat, address: nat)
    requires address == Wrapped(APP_START + length)
    ensures address % 256 == length % 256
  {
    var q, l := (APP_START + length) / 0x1_0000_0000, length / 256;
    assert 0x2000 + length == address + q * 0x1_0000_0000;
    assert address == length % 256 + 256 * (l + 32 - q * 0x100_0000);
  }

  /** A write is put into flash exactly when its size and the total size before it are whole
      rows. Any other write is acknowledged and counted, and leaves the flash as it was. */
  lemma ProgrammedIffWholeRows(m: Machine, inputs: seq<Input>, i: Input)
    requires Boots(m) && AcceptsWrite(Run(m, inputs), i)
    requires Unrefused(Run(m, inputs), i.command.size) ==> Covered(Run(m, inputs), i.command.size, i.command.data)
    ensures var r, s, size := Run(m, inputs), Run(m, inputs + [i]), i.command.size;
            && s.length == Wrapped(r.length + size)
            && (Unrefused(r, size) <==> size % 256 == 0 && r.length % 256 == 0)
            && s.flash == if Unrefused(r, size)
                          then Copied(r.flash, r.address / 2, Words(i.command.data[..size]))
                          else r.flash
  {
    hide Run, Copied, Words;
    FlagsRecord(m, inputs);
    AddressFollows(m, inputs);
    RunNext(m, inputs, i);
    AddressInRow(Run(m, inputs).length, Run(m, inputs).address);
  }

  /** So the whole rows above are needed: whatever the flash holds, if the image is shorter than
      a row and comes in one write of its size, the application is started with nothing written. */
  lemma StartsUnwritten(flash: Image, size: nat, data: Bytes, quiet: Input)
    requires 0 < size < 256 && !NoApplication(flash)
    requires quiet.command.Other? && quiet.transferDone
    ensures var r := Run(Keyed(flash, size), [quiet.(command := Write(size, data)), quiet, quiet]);
            r.started && r.flash == flash
  {
    hide NoApplication;
    var first := quiet.(command := Write(size, data));
    var m := Keyed(flash, size);
    assert Run(m, []) == m;
    assert [] + [first] == [first] && [first] + [quiet] == [first, quiet]
        && [first, quiet] + [quiet] == [first, quiet, quiet];
    RunNext(m, [], first);
    RunNext(m, [first], quiet);
    RunNext(m, [first, quiet], quiet);
  }

  /** On every run: if after programming no application is found, the wait state is back with
      both flags still set. Whatever is received, two turns later programming is over again. */
  lemma SecondAttemptIsCutShort(m: Machine, inputs: seq<Input>, first: Input, second: Input)
    requires Boots(m) && Run(m, inputs).current == Wait && Run(m, inputs).exit
    ensures var r := Run(m, inputs + [first, second]); r.current == LastTxDma && r.exit
  {
    hide Run, Flashed, NoApplication;
    FlagsRecord(m, inputs);
    RunNext(m, inputs, first);
    RunNext(m, inputs + [first], second);
    assert inputs + [first] + [second] == inputs + [first, second];
  }

  // ---------------------------------------------------------------- the timeout

  function Ticks(inputs: seq<Input>): nat {
    if inputs == [] then 0 else Ticks(inputs[..|inputs| - 1]) + if inputs[|inputs| - 1].tick then 1 else 0
  }

  /** Without a programming command, the fifth tick and no earlier one ends the wait. */
  lemma {:induction false} WaitsFiveTicks(flash: Image, inputs: seq<Input>)
    requires forall k :: 0 <= k < |inputs| ==> !inputs[k].command.Programming?
    ensures var r := Run(PowerOn(flash), inputs);
            && (Ticks(inputs) < 5 ==> r == PowerOn(flash).(timeout := Ticks(inputs) * TICK_MS))
            && (inputs != [] && Ticks(inputs) == 5 && inputs[|inputs| - 1].tick ==> r.current == StartApp)
  {
    if inputs != [] {
      hide Flashed, NoApplication;
      WaitsFiveTicks(flash, inputs[..|inputs| - 1]);
    }
  }

  // ---------------------------------------------------------------- the firmware object

  class Bootloader {
    var currentState: Mode
    var nextState: Mode
    var enterProgramming: bool
    var exitProgramming: bool
    var imageSize: nat
    var currentLen: nat
    var currentAddr: nat
    var timeoutMs: nat
    var applicationStarted: bool
    const flash: Flash

    ghost predicate Valid()
      reads this, flash
    {
      flash.Valid()
    }

    ghost function State(): Machine
      reads this, flash, flash.cells
    {
      Machine(currentState, nextState, enterProgramming, exitProgramming, imageSize, currentLen, currentAddr, timeoutMs,
              flash.State(), applicationStarted)
    }

    constructor (flash: Flash, keyed: bool, size: nat)
      requires flash.Valid()
      ensures Valid() && this.flash == flash
      ensures State() == if keyed then Keyed(flash.State(), size) else PowerOn(flash.State())
    {
      this.flash := flash;
      currentState, nextState := Wait, Wait;
      enterProgramming, exitProgramming := false, false;
      imageSize, currentLen, currentAddr, timeoutMs := 0, 0, 0, 0;
      applicationStarted := false;
      new;
      if keyed {
        BootloaderEnterProgramming(size);
        currentState := Program;
      }
    }

    method BootloaderEnterProgramming(size: nat)
      requires Valid()
      modifies this
      ensures Valid() && State() == EnterProgramming(old(State()), size)
    {
      imageSize := size;
      currentLen := 0;
      currentAddr := APP_START;
      enterProgramming := true;
    }

    method BootloaderWrite(size: uint16, data: Bytes, ghost undefined: Image)
      requires Valid() && (Unrefused(State(), size) ==> Covered(State(), size, data))
      modifies this, flash, flash.cells, flash.buffer
      ensures Valid() && State() == WriteData(old(State()), size, data, undefined)
    {
      hide Words, Copied;
      var error := NvmV1.WriteBuffer(flash, currentAddr, data, size);
      currentLen := Wrapped(currentLen + size);
      currentAddr := Wrapped(currentAddr + size);
      if imageSize <= currentLen {
        exitProgramming := true;
      }
    }

    method ProcessMsg(i: Input)
      requires Valid() && Defined(State(), i.command)
      modifies this, flash, flash.cells, flash.buffer
      ensures Valid() && State() == Process(old(State()), i) && applicationStarted == old(applicationStarted)
    {
      match i.command
      case Programming(size) => BootloaderEnterProgramming(size);
      case Write(size, data) =>
        if currentState == Program {
          BootloaderWrite(size, data, i.undefined);
        }
      case Other =>
    }

    method TimeoutExpired(tick: bool) returns (expired: bool)
      requires Valid()
      modifies this`timeoutMs
      ensures Timed(old(State()), tick) == State().(next := if expired then StartApp else nextState)
    {
      if tick {
        timeoutMs := timeoutMs + TICK_MS;
      }
      expired := timeoutMs >= WAIT_TIME_MS;
      if expired {
        timeoutMs := 0;
      }
    }

    /** One turn of the main loop. */
    method MainTurn(i: Input)
      requires Valid() && !applicationStarted && Defined(State(), i.command)
      modifies this, flash, flash.cells, flash.buffer
      ensures Valid() && State() == Turn(old(State()), i)
    {
      hide WriteData, EnterProgramming;
      match currentState {
        case Wait =>
          ProcessMsg(i);
          if enterProgramming {
            nextState := Program;
          } else {
            var expired := TimeoutExpired(i.tick);
            if expired {
              nextState := StartApp;
            }
          }
        case Program =>
          ProcessMsg(i);
          if exitProgramming {
            nextState := LastTxDma;
          }
        case LastTxDma =>
          if i.transferDone {
            nextState := StartApp;
          }
        case StartApp =>
          var at := (APP_START + 4) / 2;
          if at + 2 <= flash.cells.Length && flash.cells[at] == ERASED && flash.cells[at + 1] == ERASED {
            nextState := Wait;
          } else {
            applicationStarted := true;
            return;
          }
      }
      currentState := nextState;
    }
  }
}
