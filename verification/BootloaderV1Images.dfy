/** When the v1 bootloader starts an application whose whole image is in flash:
    aux_mcu/src/bootloader.c:119-149 and 187-241. */
module BootloaderV1Images {
  import opened Wrappers
  import opened NorFlash
  import opened FlashLoaders
  import opened BootloaderV1
  import NvmV1

  /** The last programming command was accepted after an image had been received. */
  function LastLate(m: Machine, inputs: seq<Input>): bool {
    if inputs == [] then false
    else
      var init, i := inputs[..|inputs| - 1], inputs[|inputs| - 1];
      if AcceptsProgramming(Run(m, init), i) then Run(m, init).exit else LastLate(m, init)
  }

  /** The size of the last write accepted since the last programming command. */
  function LastWrite(m: Machine, inputs: seq<Input>): nat {
    if inputs == [] then 0
    else
      var init, i := inputs[..|inputs| - 1], inputs[|inputs| - 1];
      if AcceptsProgramming(Run(m, init), i) then 0
      else if AcceptsWrite(Run(m, init), i) then i.command.size
      else LastWrite(m, init)
  }

  // ---------------------------------------------------------------- one turn

  /** Back in a receiving mode with an image received, there is no application in flash. */
  predicate WaitsWithout(r: Machine) {
    r.exit && r.current in {Wait, Program} ==> NoApplication(r.flash)
  }

  /** After a late command either there is no application, or the one write since then has put
      one there and it is about to be started. */
  predicate LateState(r: Machine, l: Log, write: nat) {
    && r.exit
    && (NoApplication(r.flash) || (r.current in {LastTxDma, StartApp} && |l.data| == write))
  }

  /** Otherwise the length, once it has reached the image's size, stays there. */
  predicate Complete(r: Machine, l: Log) {
    r.exit ==> r.imageSize <= |l.data|
  }

  predicate Known(r: Machine, l: Log, late: bool, write: nat, size: nat) {
    && Consistent(r) && Holds(r, l, size) && WaitsWithout(r) && write <= |l.data|
    && (if late then LateState(r, l, write) else Complete(r, l))
  }

  /** A write behind the first row leaves the reset vector. */
  lemma VectorStays(c: Image, at: nat, data: seq<bv16>)
    requires Has(c, at, |data|) && at >= APP_START / 2 + ROW && NoApplication(c)
    ensures NoApplication(Copied(c, at, data))
  {
  }

  lemma TurnWaitsWithout(r: Machine, i: Input)
    requires Consistent(r) && WaitsWithout(r)
    ensures WaitsWithout(Turn(r, i))
  {
    hide Flashed, NoApplication, Wrapped;
  }

  lemma ProgrammingEffect(r: Machine, i: Input)
    requires AcceptsProgramming(r, i)
    ensures Turn(r, i).flash == r.flash && Turn(r, i).exit == r.exit
  {
    hide NoApplication;
  }

  lemma ProgrammingIsKnown(r: Machine, l: Log, i: Input, late: bool, write: nat, size: nat)
    requires Known(r, l, late, write, size) && AcceptsProgramming(r, i)
    requires Holds(Turn(r, i), LogNext(r, l, i), size) && Consistent(Turn(r, i)) && WaitsWithout(Turn(r, i))
    ensures Known(Turn(r, i), LogNext(r, l, i), r.exit, 0, size)
  {
    hide Holds, NoApplication, Consistent;
    ProgrammingEffect(r, i);
  }

  /** What an accepted write does. */
  lemma WriteEffect(r: Machine, l: Log, i: Input, size: nat)
    requires Consistent(r) && Holds(r, l, size) && AcceptsWrite(r, i) && Fitting(r, l, i, size)
            && 2 * size < 0x1_0000_0000
    ensures r.enter && Has(r.flash, r.address / 2, i.command.size / 2) && r.address == APP_START + |l.data|
    ensures var s := Turn(r, i);
            && s.flash == Copied(r.flash, r.address / 2, Words(i.command.data[..i.command.size]))
            && s.imageSize == r.imageSize && s.exit == (r.exit || r.imageSize <= |l.data| + i.command.size)
            && (s.exit ==> s.current == LastTxDma)
    ensures |LogNext(r, l, i).data| == |l.data| + i.command.size
  {
    hide Copied, Words, NoApplication;
    assert r.flash == Copied(l.base, APP_START / 2, Words(l.data));
    assert Unrefused(r, i.command.size);
  }

  lemma FirstRowIsFull(r: Machine, l: Log, size: nat)
    requires Holds(r, l, size) && r.enter && l.data != []
    ensures r.address / 2 >= APP_START / 2 + ROW
  {
  }

  lemma WriteIsKnown(r: Machine, l: Log, i: Input, late: bool, write: nat, size: nat)
    requires Known(r, l, late, write, size) && AcceptsWrite(r, i) && Fitting(r, l, i, size) && 2 * size < 0x1_0000_0000
    requires Holds(Turn(r, i), LogNext(r, l, i), size) && Consistent(Turn(r, i)) && WaitsWithout(Turn(r, i))
    ensures Known(Turn(r, i), LogNext(r, l, i), late, i.command.size, size)
  {
    WriteEffect(r, l, i, size);
    if late && l.data != [] {
      FirstRowIsFull(r, l, size);
      VectorStays(r.flash, r.address / 2, Words(i.command.data[..i.command.size]));
    }
    hide Turn, Holds, NoApplication, Consistent, LogNext, Copied, Words;
  }

  lemma OtherIsKnown(r: Machine, l: Log, i: Input, late: bool, write: nat, size: nat)
    requires Known(r, l, late, write, size) && !AcceptsWrite(r, i) && !AcceptsProgramming(r, i)
    requires Holds(Turn(r, i), LogNext(r, l, i), size) && Consistent(Turn(r, i)) && WaitsWithout(Turn(r, i))
    ensures Known(Turn(r, i), LogNext(r, l, i), late, write, size)
  {
    hide Holds, NoApplication;
  }

  // ---------------------------------------------------------------- whole runs

  lemma PrefixFits(m: Machine, init: seq<Input>, i: Input)
    requires RowWrites(m, init + [i])
    ensures RowWrites(m, init) && Fitting(Run(m, init), Logged(m, init), i, |m.flash.cells|)
  {
    hide Run, Logged, Fitting;
    var inputs := init + [i];
    assert forall k {:trigger inputs[k]} :: 0 <= k < |init| ==> init[..k] == inputs[..k] && init[k] == inputs[k];
    assert inputs[|init|] == i && inputs[..|init|] == init;
  }

  lemma BootsWithoutExit(m: Machine)
    requires Boots(m)
    ensures Run(m, []) == m && !m.exit
  {
    assert !PowerOn(m.flash).exit && !Keyed(m.flash, m.imageSize).exit;
  }

  lemma BootIsKnown(m: Machine)
    requires Boots(m) && RowWrites(m, [])
    ensures Known(m, Log(m.flash, []), false, 0, |m.flash.cells|)
  {
    FlagsRecord(m, []);
    HoldsWrites(m, []);
    BootsWithoutExit(m);
  }

  lemma TurnIsKnown(m: Machine, init: seq<Input>, i: Input, late: bool, write: nat)
    requires Boots(m) && RowWrites(m, init + [i])
    requires Fitting(Run(m, init), Logged(m, init), i, |m.flash.cells|)
    requires Known(Run(m, init), Logged(m, init), late, write, |m.flash.cells|)
    ensures var r := Run(m, init);
            Known(Turn(r, i), LogNext(r, Logged(m, init), i),
                  if AcceptsProgramming(r, i) then r.exit else late,
                  if AcceptsProgramming(r, i) then 0 else if AcceptsWrite(r, i) then i.command.size else write,
                  |m.flash.cells|)
  {
    var size := |m.flash.cells|;
    assert APP_START <= 2 * size < 0x1_0000_0000;
    assert Consistent(Run(m, init)) && Holds(Run(m, init), Logged(m, init), size) && WaitsWithout(Run(m, init));
    hide *;
    var r, l := Run(m, init), Logged(m, init);
    TurnKeepsConsistent(r, i);
    HoldsTurn(r, l, i, size);
    TurnWaitsWithout(r, i);
    if AcceptsProgramming(r, i) {
      ProgrammingIsKnown(r, l, i, late, write, size);
    } else if AcceptsWrite(r, i) {
      WriteIsKnown(r, l, i, late, write, size);
    } else {
      OtherIsKnown(r, l, i, late, write, size);
    }
  }

  lemma {:induction false} RunIsKnown(m: Machine, inputs: seq<Input>)
    requires Boots(m) && RowWrites(m, inputs)
    ensures Known(Run(m, inputs), Logged(m, inputs), LastLate(m, inputs), LastWrite(m, inputs), |m.flash.cells|)
  {
    hide Run, Turn, Consistent, Holds, WaitsWithout, Fitting, Boots, RowWrites, LogNext, AcceptsProgramming,
        AcceptsWrite, Known;
    if inputs == [] {
      BootIsKnown(m);
      BootsWithoutExit(m);
    } else {
      var init, i := inputs[..|inputs| - 1], inputs[|inputs| - 1];
      assert inputs == init + [i];
      PrefixFits(m, init, i);
      RunIsKnown(m, init);
      RunNext(m, init, i);
      TurnIsKnown(m, init, i, LastLate(m, init), LastWrite(m, init));
    }
  }

  lemma StartingTurn(r: Machine, i: Input)
    requires Consistent(r) && (r.started ==> !NoApplication(r.flash))
    ensures Turn(r, i).started ==> !NoApplication(Turn(r, i).flash)
  {
    hide Flashed, NoApplication, Wrapped;
  }

  /** A started application was found in flash. */
  lemma {:induction false} StartedMeansApplication(m: Machine, inputs: seq<Input>)
    requires Boots(m)
    ensures Run(m, inputs).started ==> !NoApplication(Run(m, inputs).flash)
  {
    if inputs != [] {
      var init, i := inputs[..|inputs| - 1], inputs[|inputs| - 1];
      hide Turn, NoApplication, Consistent;
      StartedMeansApplication(m, init);
      FlagsRecord(m, init);
      StartingTurn(Run(m, init), i);
    }
  }

  /** On every run of whole-row writes on which the application is started after programming:
      the writes since the last programming command hold the whole image if and only if that
      command was not late, or the image fits in one write. After a late command exactly one
      write, besides empty ones, is received before the start. */
  lemma StartsWholeImageIff(m: Machine, inputs: seq<Input>)
    requires Boots(m) && RowWrites(m, inputs)
    requires Run(m, inputs).started && Requested(m, inputs)
    ensures var r, l := Run(m, inputs), Logged(m, inputs);
            && Holds(r, l, |m.flash.cells|) && r.enter
            && (r.imageSize <= |l.data| <==> !LastLate(m, inputs) || r.imageSize <= LastWrite(m, inputs))
            && (LastLate(m, inputs) ==> |l.data| == LastWrite(m, inputs))
  {
    FlagsRecord(m, inputs);
    RunIsKnown(m, inputs);
    var r, l := Run(m, inputs), Logged(m, inputs);
    assert Consistent(r) && Known(r, l, LastLate(m, inputs), LastWrite(m, inputs), |m.flash.cells|);
    hide Run, Logged, Holds, Requested, Filled, LastLate, LastWrite, RowWrites;
    StartedMeansApplication(m, inputs);
  }

  // ---------------------------------------------------------------- two runs

  /** One more turn of a run of whole-row writes. */
  lemma Extends(m: Machine, inputs: seq<Input>, i: Input)
    requires RowWrites(m, inputs) && Fitting(Run(m, inputs), Logged(m, inputs), i, |m.flash.cells|)
    ensures RowWrites(m, inputs + [i]) && Run(m, inputs + [i]) == Turn(Run(m, inputs), i)
    ensures Logged(m, inputs + [i]) == LogNext(Run(m, inputs), Logged(m, inputs), i)
    ensures AcceptsProgramming(Run(m, inputs), i) ==> LastLate(m, inputs + [i]) == Run(m, inputs).exit
    ensures !AcceptsProgramming(Run(m, inputs), i) ==> LastLate(m, inputs + [i]) == LastLate(m, inputs)
  {
    hide Turn, Fitting, LogNext, AcceptsProgramming;
    var more := inputs + [i];
    assert more[..|inputs|] == inputs && more[|inputs|] == i;
    assert forall k {:trigger more[k]} :: 0 <= k < |inputs| ==> more[..k] == inputs[..k] && more[k] == inputs[k];
  }

  /** Programming has just begun, of one row at most or a second time. */
  predicate AtStart(r: Machine, cells: nat) {
    && r.current == Program && !r.started && r.address == APP_START && r.length == 0
    && |r.flash.programmed| == |r.flash.cells| == cells && APP_START + 256 <= 2 * cells
    && (r.exit || r.imageSize <= 256)
  }

  function RowWritten(r: Machine, data: Bytes): Machine
    requires AtStart(r, |r.flash.cells|) && |data| == 512
  {
    r.(flash := Copied(r.flash, APP_START / 2, Words(data[..256])), length := 256, address := APP_START + 256,
       exit := true, current := LastTxDma, next := LastTxDma)
  }

  lemma RowTurn(r: Machine, i: Input)
    requires AtStart(r, |r.flash.cells|) && i.command.Write? && i.command.size == 256 && |i.command.data| == 512
    ensures Turn(r, i) == RowWritten(r, i.command.data)
  {
    hide Copied, Words, NoApplication;
  }

  /** Where two turns without a command lead after the last transfer. */
  function Launched(r: Machine): Machine {
    if NoApplication(r.flash) then r.(current := Wait, next := Wait)
    else r.(current := StartApp, next := StartApp, started := true)
  }

  lemma QuietTurns(r: Machine, quiet: Input)
    requires r.current == LastTxDma && !r.started && quiet.command.Other? && quiet.transferDone
    ensures Turn(Turn(r, quiet), quiet) == Launched(r)
  {
    hide NoApplication;
  }

  /** A turn without an accepted command. */
  lemma ExtendsQuietly(m: Machine, inputs: seq<Input>, quiet: Input)
    requires RowWrites(m, inputs) && quiet.command.Other?
    ensures RowWrites(m, inputs + [quiet]) && Run(m, inputs + [quiet]) == Turn(Run(m, inputs), quiet)
    ensures Logged(m, inputs + [quiet]) == Logged(m, inputs) && LastLate(m, inputs + [quiet]) == LastLate(m, inputs)
  {
    hide Turn, Run, Logged, LastLate, RowWrites;
    Extends(m, inputs, quiet);
  }

  /** A one-row write. */
  lemma ExtendsByRow(m: Machine, inputs: seq<Input>, i: Input)
    requires RowWrites(m, inputs) && AtStart(Run(m, inputs), |m.flash.cells|) && Logged(m, inputs).data == []
    requires i.command.Write? && i.command.size == 256 && |i.command.data| == 512
    ensures RowWrites(m, inputs + [i]) && Run(m, inputs + [i]) == RowWritten(Run(m, inputs), i.command.data)
    ensures |Logged(m, inputs + [i]).data| == 256 && LastLate(m, inputs + [i]) == LastLate(m, inputs)
  {
    hide Turn, Run, Logged, LastLate, RowWrites, RowWritten;
    RowTurn(Run(m, inputs), i);
    Extends(m, inputs, i);
  }

  /** A one-row write, then two turns without a command. */
  lemma WritesRow(m: Machine, inputs: seq<Input>, data: Bytes, quiet: Input)
    requires RowWrites(m, inputs) && quiet.command.Other? && quiet.transferDone && |data| == 512
    requires AtStart(Run(m, inputs), |m.flash.cells|) && Logged(m, inputs).data == []
    ensures var more := inputs + [quiet.(command := Write(256, data)), quiet, quiet];
            && RowWrites(m, more) && |Logged(m, more).data| == 256 && LastLate(m, more) == LastLate(m, inputs)
            && Run(m, more) == Launched(RowWritten(Run(m, inputs), data))
  {
    hide Run, Logged, RowWrites, LastLate, Turn, Launched, NoApplication, Copied, Words;
    var first := quiet.(command := Write(256, data));
    ExtendsByRow(m, inputs, first);
    ExtendsQuietly(m, inputs + [first], quiet);
    ExtendsQuietly(m, inputs + [first] + [quiet], quiet);
    QuietTurns(RowWritten(Run(m, inputs), data), quiet);
    assert inputs + [first] + [quiet] + [quiet] == inputs + [first, quiet, quiet];
  }

  lemma BootFits(flash: Image, size: nat)
    requires |flash.programmed| == |flash.cells| && APP_START + 256 <= 2 * |flash.cells| < 0x1_0000_0000
    ensures var m := Keyed(flash, size);
            Boots(m) && RowWrites(m, []) && Run(m, []) == m && Logged(m, []) == Log(flash, [])
    ensures !LastLate(Keyed(flash, size), [])
  {
  }

  /** An image of one row is received, has a reset vector and is started. */
  lemma StartsWritten(flash: Image, data: Bytes, quiet: Input)
    requires |flash.programmed| == |flash.cells| && APP_START + 256 <= 2 * |flash.cells| < 0x1_0000_0000
    requires |data| == 512 && quiet.command.Other? && quiet.transferDone
    requires !NoApplication(Copied(flash, APP_START / 2, Words(data[..256])))
    ensures var m, inputs := Keyed(flash, 256), [quiet.(command := Write(256, data)), quiet, quiet];
            && Boots(m) && RowWrites(m, inputs) && !LastLate(m, inputs) && Requested(m, inputs)
            && Run(m, inputs).started && Run(m, inputs).flash == Copied(flash, APP_START / 2, Words(data[..256]))
  {
    hide Run, Logged, RowWrites, NoApplication, Copied, Words, LastLate;
    BootFits(flash, 256);
    var inputs := [quiet.(command := Write(256, data)), quiet, quiet];
    WritesRow(Keyed(flash, 256), [], data, quiet);
    assert [] + inputs == inputs;
  }

  lemma CopiedOver(c: Image, at: nat, a: seq<bv16>, b: seq<bv16>)
    requires Has(c, at, |a|) && |a| == |b|
    ensures Copied(Copied(c, at, a), at, b) == Copied(c, at, b)
  {
    OverwrittenOver(c.cells, at, a, b);
    OverwrittenOver(c.programmed, at, Copies(1, |a|), Copies(1, |b|));
  }

  /** A first image of one row without a reset vector is not started; the command for a second
      image, of two rows, is late: after its first row it is started, half received. */
  lemma StartsHalfImage(flash: Image, blank: Bytes, data: Bytes, quiet: Input)
    requires |flash.programmed| == |flash.cells| && APP_START + 256 <= 2 * |flash.cells| < 0x1_0000_0000
    requires |blank| == |data| == 512 && quiet.command.Other? && quiet.transferDone
    requires NoApplication(Copied(flash, APP_START / 2, Words(blank[..256])))
    requires !NoApplication(Copied(flash, APP_START / 2, Words(data[..256])))
    ensures var write := quiet.(command := Write(256, blank));
            var m, inputs := Keyed(flash, 256),
                             [write, quiet, quiet, quiet.(command := Programming(512)),
                                 quiet.(command := Write(256, data)), quiet, quiet];
            && Boots(m) && RowWrites(m, inputs) && LastLate(m, inputs) && Requested(m, inputs) && Run(m, inputs).started
            && Run(m, inputs).imageSize == 512 && |Logged(m, inputs).data| == 256
            && Run(m, inputs).flash == Copied(flash, APP_START / 2, Words(data[..256]))
  {
    hide Run, Logged, RowWrites, NoApplication, Copied, Words, LastLate;
    BootFits(flash, 256);
    var m := Keyed(flash, 256);
    var once := [quiet.(command := Write(256, blank)), quiet, quiet];
    WritesRow(m, [], blank, quiet);
    assert [] + once == once;
    var command := quiet.(command := Programming(512));
    Extends(m, once, command);
    var again := [quiet.(command := Write(256, data)), quiet, quiet];
    CopiedOver(flash, APP_START / 2, Words(blank[..256]), Words(data[..256]));
    WritesRow(m, once + [command], data, quiet);
    assert once + [command] + again == [once[0], quiet, quiet, command, again[0], quiet, quiet];
  }

  const BLANK_ROW: Bytes := Copies<bv8>(0xFF, 512)
  const ZERO_ROW: Bytes := Copies<bv8>(0, 512)

  /** A row of 0xFF has no reset vector, one of zeros has. */
  lemma BlankAndZeroRows(flash: Image)
    requires |flash.programmed| == |flash.cells| && APP_START + 256 <= 2 * |flash.cells|
    ensures NoApplication(Copied(flash, APP_START / 2, Words(BLANK_ROW[..256])))
    ensures !NoApplication(Copied(flash, APP_START / 2, Words(ZERO_ROW[..256])))
  {
    assert Word(0xFF, 0xFF) == ERASED && Word(0, 0) != ERASED;
  }

  /** So with every flash that has room for a row there is a run on which an image of two rows is
      started when only its first row was received. */
  lemma HalfImageIsStarted(flash: Image) returns (inputs: seq<Input>)
    requires |flash.programmed| == |flash.cells| && APP_START + 256 <= 2 * |flash.cells| < 0x1_0000_0000
    ensures var m := Keyed(flash, 256);
            && Boots(m) && RowWrites(m, inputs) && LastLate(m, inputs) && Requested(m, inputs)
            && Run(m, inputs).started && Run(m, inputs).imageSize == 512 && |Logged(m, inputs).data| == 256
            && Run(m, inputs).flash == Copied(flash, APP_START / 2, Words(ZERO_ROW[..256]))
  {
    hide Run, Logged, RowWrites, NoApplication, Copied, Words, LastLate, Requested;
    BlankAndZeroRows(flash);
    var quiet := Input(Other, false, true, flash);
    StartsHalfImage(flash, BLANK_ROW, ZERO_ROW, quiet);
    inputs := [quiet.(command := Write(256, BLANK_ROW)), quiet, quiet, quiet.(command := Programming(512)),
               quiet.(command := Write(256, ZERO_ROW)), quiet, quiet];
  }
}
