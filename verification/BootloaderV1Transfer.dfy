/** What the v1 bootloader waits for, and what it takes for an application:
    aux_mcu/src/bootloader.c:36-60 and 187-241. */
module BootloaderV1Transfer {
  import opened FlashLoaders
  import opened NorFlash
  import opened BootloaderV1

  // ---------------------------------------------------------------- the last transfer

  lemma {:induction false} RunAppend(m: Machine, a: seq<Input>, b: seq<Input>)
    ensures Run(m, a + b) == Run(Run(m, a), b)
  {
    hide Turn;
    if b == [] {
      assert a + b == a;
    } else {
      assert (a + b)[..|a + b| - 1] == a + b[..|b| - 1];
      RunAppend(m, a, b[..|b| - 1]);
    }
  }

  /** The write that fills the image, in whatever mode it is accepted, leads to the state that
      waits for the last transfer. */
  lemma FillsThenWaits(m: Machine, inputs: seq<Input>, i: Input)
    requires Boots(m) && Fills(Run(m, inputs), i)
    ensures var r := Run(m, inputs + [i]); r.current == LastTxDma && !r.started
  {
    hide Run, Flashed, Wrapped, NoApplication;
    FlagsRecord(m, inputs);
    RunNext(m, inputs, i);
  }

  lemma WaitingTurn(r: Machine, i: Input)
    requires r.current == LastTxDma && r.next == LastTxDma && !r.started
    ensures Turn(r, i) == if i.transferDone then r.(current := StartApp, next := StartApp) else r
  {
  }

  lemma {:induction false} Waits(r: Machine, inputs: seq<Input>)
    requires r.current == LastTxDma && r.next == LastTxDma && !r.started
    requires forall k :: 0 <= k < |inputs| ==> !inputs[k].transferDone
    ensures Run(r, inputs) == r
  {
    if inputs != [] {
      hide Turn;
      Waits(r, inputs[..|inputs| - 1]);
      WaitingTurn(r, inputs[|inputs| - 1]);
    }
  }

  /** On every run, from the write that fills the image on nothing changes, whatever is received,
      until the first turn that finds the last transfer done; that one goes on to start the
      application. */
  lemma LeavesIffTransferred(m: Machine, inputs: seq<Input>, i: Input, waiting: seq<Input>, last: Input)
    requires Boots(m) && Fills(Run(m, inputs), i)
    requires forall k :: 0 <= k < |waiting| ==> !waiting[k].transferDone
    ensures var r, s := Run(m, inputs + [i]), Run(m, inputs + [i] + waiting + [last]);
            && r.current == LastTxDma && Run(m, inputs + [i] + waiting) == r
            && s == if last.transferDone then r.(current := StartApp, next := StartApp) else r
  {
    hide Run, Turn, Fills;
    FillsThenWaits(m, inputs, i);
    FlagsRecord(m, inputs + [i]);
    Waits(Run(m, inputs + [i]), waiting);
    RunAppend(m, inputs + [i], waiting);
    RunNext(m, inputs + [i] + waiting, last);
    WaitingTurn(Run(m, inputs + [i]), last);
  }

  /** A turn that waited for the last transfer and found it done, no write being accepted from it on. */
  ghost predicate DoneAt(m: Machine, inputs: seq<Input>, k: nat)
    requires k < |inputs|
  {
    && Run(m, inputs[..k]).current == LastTxDma && inputs[k].transferDone
    && forall j {:trigger inputs[j]} :: k <= j < |inputs| ==> !AcceptsWrite(Run(m, inputs[..j]), inputs[j])
  }

  ghost predicate TransferDone(m: Machine, inputs: seq<Input>) {
    exists k {:trigger inputs[k]} :: 0 <= k < |inputs| && DoneAt(m, inputs, k)
  }

  lemma DoneNext(m: Machine, init: seq<Input>, i: Input)
    requires !AcceptsWrite(Run(m, init), i)
    requires TransferDone(m, init) || (Run(m, init).current == LastTxDma && i.transferDone)
    ensures TransferDone(m, init + [i])
  {
    hide AcceptsWrite, Run;
    var inputs := init + [i];
    assert inputs[|init|] == i && inputs[..|init|] == init;
    var k := |init|;
    if TransferDone(m, init) {
      k :| 0 <= k < |init| && DoneAt(m, init, k);
      assert init[..k] == inputs[..k] && init[k] == inputs[k];
      forall j {:trigger inputs[j]} | k <= j < |inputs| ensures !AcceptsWrite(Run(m, inputs[..j]), inputs[j]) {
        if j < |init| {
          assert init[..j] == inputs[..j] && init[j] == inputs[j];
        }
      }
    }
    assert DoneAt(m, inputs, k);
  }

  lemma StartsBehind(r: Machine, i: Input)
    requires Consistent(r) && Turn(r, i).current == StartApp && Turn(r, i).enter
    ensures !AcceptsWrite(r, i) && r.enter
    ensures r.current == StartApp || (r.current == LastTxDma && i.transferDone)
  {
    hide NoApplication, Flashed, Wrapped;
  }

  lemma {:induction false} ReachedByTransfer(m: Machine, inputs: seq<Input>)
    requires Boots(m) && Run(m, inputs).current == StartApp && Run(m, inputs).enter
    ensures TransferDone(m, inputs)
  {
    if inputs != [] {
      hide Turn, Consistent, AcceptsWrite, TransferDone;
      var init, i := inputs[..|inputs| - 1], inputs[|inputs| - 1];
      assert inputs == init + [i];
      FlagsRecord(m, init);
      StartsBehind(Run(m, init), i);
      if Run(m, init).current == StartApp {
        ReachedByTransfer(m, init);
      }
      DoneNext(m, init, i);
    }
  }

  /** On every run: if a programming request was ever accepted, the application is started only
      after a turn that found the last transfer done, behind the last write. */
  lemma StartedOnlyIfTransferred(m: Machine, inputs: seq<Input>)
    requires Boots(m) && Requested(m, inputs) && Run(m, inputs).started
    ensures TransferDone(m, inputs)
  {
    FlagsRecord(m, inputs);
    ReachedByTransfer(m, inputs);
  }

  // ---------------------------------------------------------------- every wait

  /** Waiting, no time counted yet, and nothing requested. */
  predicate BeginsWait(r: Machine) {
    r.current == Wait && r.next == Wait && !r.enter && !r.started && r.timeout == 0
  }

  lemma {:induction false} WaitsFrom(r: Machine, inputs: seq<Input>)
    requires BeginsWait(r) && forall k :: 0 <= k < |inputs| ==> !inputs[k].command.Programming?
    ensures var s := Run(r, inputs);
            && (Ticks(inputs) < 5 ==> s == r.(timeout := Ticks(inputs) * TICK_MS))
            && (inputs != [] && Ticks(inputs) == 5 && inputs[|inputs| - 1].tick ==> s.current == StartApp)
  {
    if inputs != [] {
      hide Flashed, NoApplication;
      WaitsFrom(r, inputs[..|inputs| - 1]);
    }
  }

  lemma NoTimeStep(r: Machine, i: Input)
    requires Consistent(r) && (r.current == StartApp && !r.enter ==> r.timeout == 0)
    ensures var s := Turn(r, i); s.current == StartApp && !s.enter ==> s.timeout == 0
  {
    hide Flashed, NoApplication, Wrapped;
  }

  lemma {:induction false} NoTimeCounted(m: Machine, inputs: seq<Input>)
    requires Boots(m)
    ensures var r := Run(m, inputs); r.current == StartApp && !r.enter ==> r.timeout == 0
  {
    if inputs != [] {
      hide Turn, Consistent;
      NoTimeCounted(m, inputs[..|inputs| - 1]);
      FlagsRecord(m, inputs[..|inputs| - 1]);
      NoTimeStep(Run(m, inputs[..|inputs| - 1]), inputs[|inputs| - 1]);
    }
  }

  /** On every run: when no application is found and no programming was requested, the bootloader
      waits again, and again the fifth tick and no earlier one ends the wait. */
  lemma WaitsFiveTicksAgain(m: Machine, inputs: seq<Input>, i: Input, waiting: seq<Input>)
    requires Boots(m) && Run(m, inputs).current == StartApp && !Requested(m, inputs)
    requires Run(m, inputs + [i]).current == Wait
    requires forall k :: 0 <= k < |waiting| ==> !waiting[k].command.Programming?
    ensures var r, s := Run(m, inputs + [i]), Run(m, inputs + [i] + waiting);
            && (Ticks(waiting) < 5 ==> s == r.(timeout := Ticks(waiting) * TICK_MS))
            && (waiting != [] && Ticks(waiting) == 5 && waiting[|waiting| - 1].tick ==> s.current == StartApp)
  {
    hide Run, NoApplication, Requested;
    FlagsRecord(m, inputs);
    NoTimeCounted(m, inputs);
    RunNext(m, inputs, i);
    WaitsFrom(Run(m, inputs + [i]), waiting);
    RunAppend(m, inputs + [i], waiting);
  }

  // ---------------------------------------------------------------- the reset vector

  /** The four bytes of the application's reset vector, at 0x2004. */
  function Vector(c: Image): Bytes
    requires 2 * |c.cells| >= 0x2008
  {
    BytesOf(c.cells)[0x2004..0x2008]
  }

  lemma ErasedBytes(w: bv16)
    ensures w == ERASED <==> Low(w) == 0xFF && High(w) == 0xFF
  {
  }

  /** No application is there exactly if all four bytes of its reset vector read 0xFF. */
  lemma NoApplicationIff(c: Image)
    requires 2 * |c.cells| >= 0x2008
    ensures NoApplication(c) <==> Vector(c) == [0xFF, 0xFF, 0xFF, 0xFF]
  {
    ErasedBytes(c.cells[0x1002]);
    ErasedBytes(c.cells[0x1003]);
    hide Low, High, ERASED;
    var b := BytesOf(c.cells);
    assert Vector(c) == [b[0x2004], b[0x2005], b[0x2006], b[0x2007]];
  }

  /** On every run, the turn that is to start the application does so if and only if its reset
      vector is not erased; otherwise the bootloader waits again. */
  lemma StartsIffVector(m: Machine, inputs: seq<Input>, i: Input)
    requires Run(m, inputs).current == StartApp && !Run(m, inputs).started
    requires 2 * |Run(m, inputs).flash.cells| >= 0x2008
    ensures var r, s := Run(m, inputs), Run(m, inputs + [i]);
            && (s.started <==> Vector(r.flash) != [0xFF, 0xFF, 0xFF, 0xFF])
            && (!s.started ==> s.current == Wait) && s.flash == r.flash
  {
    hide Run, NoApplication, Vector;
    RunNext(m, inputs, i);
    NoApplicationIff(Run(m, inputs).flash);
  }
}
