/** When a transmission to the main MCU may start at once (aux_mcu_v2/src/DMA/dma.c:246-288).
    The end of the previous transmission was stamped with the 24-bit cycle counter, which
    counts down and wraps, and with the 32-bit millisecond counter, which also wraps. */
module TxPacing {

  const MCU_SYSTICK_MAX_PERIOD: int := 0x00FF_FFFF
  const CYCLE_WRAP: int := 0x0100_0000
  const MS_WRAP: int := 0x1_0000_0000
  const CYCLES_PER_MS: int := 48000
  const MIN_GAP: int := 720

  type Cycle = x: int | 0 <= x < 0x0100_0000
  type Ms = x: int | 0 <= x < 0x1_0000_0000

  /** The code's elapsed cycles; one short when the counter wrapped in between. */
  function CyclesApart(sentCycle: Cycle, nowCycle: Cycle): int {
    (sentCycle - nowCycle) % CYCLE_WRAP - if sentCycle < nowCycle then 1 else 0
  }

  function MsApart(sentMs: Ms, nowMs: Ms): int {
    (nowMs - sentMs) % MS_WRAP
  }

  /** The comparisons of dma_main_mcu_init_tx_transfer when the previous transmission had
      already ended on entry: whether the 15 us delay is taken. */
  method NeedsDelay(sentCycle: Cycle, sentMs: Ms, nowCycle: Cycle, nowMs: Ms) returns (delay: bool)
    ensures delay == (CyclesApart(sentCycle, nowCycle) < MIN_GAP && MsApart(sentMs, nowMs) < 20)
  {
    delay := false;
    var ms := (nowMs - sentMs) % MS_WRAP;
    if sentCycle < nowCycle {
      if ms < 20 {
        var gap := MCU_SYSTICK_MAX_PERIOD - nowCycle + sentCycle;
        if gap < MIN_GAP {
          delay := true;
        }
      }
    } else {
      var gap := sentCycle - nowCycle;
      if gap < MIN_GAP && ms < 20 {
        delay := true;
      }
    }
  }

  /** The counters after `elapsed` cycles and `ticks` millisecond interrupts. */
  function CycleAfter(c: Cycle, elapsed: nat): Cycle {
    (c - elapsed) % CYCLE_WRAP
  }

  function MsAfter(ms: Ms, ticks: nat): Ms {
    (ms + ticks) % MS_WRAP
  }

  lemma Apart(c: Cycle, ms: Ms, elapsed: nat, ticks: nat)
    ensures (c - CycleAfter(c, elapsed)) % CYCLE_WRAP == elapsed % CYCLE_WRAP
    ensures MsApart(ms, MsAfter(ms, ticks)) == ticks % MS_WRAP
  {
    var q := (c - elapsed) / CYCLE_WRAP;
    assert c - CycleAfter(c, elapsed) == elapsed + CYCLE_WRAP * q;
    var r := (ms + ticks) / MS_WRAP;
    assert MsAfter(ms, ticks) - ms == ticks - MS_WRAP * r;
  }

  /** Millisecond interrupts keep pace with the cycle counter up to a margin for their phase
      and for the moments at which the two counters are read. */
  predicate InStep(elapsed: nat, ticks: nat) {
    elapsed / CYCLES_PER_MS - 1 <= ticks <= elapsed / CYCLES_PER_MS + 2
  }

  /** Whenever the delay is skipped, at least 720 cycles have really passed, however often the
      counters wrapped. */
  lemma SkippingIsSafe(c: Cycle, ms: Ms, elapsed: nat, ticks: nat)
    requires InStep(elapsed, ticks)
    requires !(CyclesApart(c, CycleAfter(c, elapsed)) < MIN_GAP && MsApart(ms, MsAfter(ms, ticks)) < 20)
    ensures elapsed >= MIN_GAP
  {
    Apart(c, ms, elapsed, ticks);
  }

  /** Until the millisecond counter has run once round, the delay is taken exactly when fewer
      than 720 cycles have passed; at exactly 720 cycles it is also taken if the cycle counter
      wrapped. */
  lemma DelayIsExact(c: Cycle, ms: Ms, elapsed: nat, ticks: nat)
    requires InStep(elapsed, ticks) && ticks < MS_WRAP
    ensures CyclesApart(c, CycleAfter(c, elapsed)) < MIN_GAP && MsApart(ms, MsAfter(ms, ticks)) < 20
       <==> elapsed < MIN_GAP || (elapsed == MIN_GAP && c < MIN_GAP)
  {
    Apart(c, ms, elapsed, ticks);
    assert ticks % MS_WRAP == ticks;
    if elapsed < CYCLE_WRAP {
      assert elapsed % CYCLE_WRAP == elapsed;
      if elapsed <= MIN_GAP {
        assert elapsed / CYCLES_PER_MS == 0;
        assert c < CycleAfter(c, elapsed) <==> elapsed > c by {
          if elapsed > c {
            assert CycleAfter(c, elapsed) == c - elapsed + CYCLE_WRAP;
          }
        }
      }
    } else {
      assert elapsed / CYCLES_PER_MS >= 300;
    }
  }
}
