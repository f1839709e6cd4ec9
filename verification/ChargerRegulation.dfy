/** How the charger follows the current it measures: aux_mcu_v2/src/LOGIC/logic_battery.c:65-284. */
module ChargerRegulation {
  import Timers
  import opened Charger

  // ---------------------------------------------------------------- what a reading does

  /** A reading that can change something: any in the ramp, one per timer expiry afterwards. */
  predicate Acts(c: Charger) {
    c.st.StartRamping? || Decides(c)
  }

  /** How far below the highest reading of the maintain state this one is. */
  function Drop(c: Charger, low: Reading): int {
    if low > c.peak then 0 else c.peak - low
  }

  /** On every run: what ends a charging state. The ramp ends at a current above 100, the reach
      state at one above 375, both with the set-point and the output as they are. Charging ends
      in an error exactly at a low side of 3975 or more when the set-point was to be raised, and
      is done exactly at one more than 5 below the peak. */
  lemma NextState(events: seq<Event>, high: Reading, low: Reading)
    ensures var c, r := Run(POWER_ON, events), Run(POWER_ON, events + [Measured(high, low)]);
            var current := high - low;
            && (c.st.StartRamping? ==>
                  r.st == if current > 100 then ChargingReach else if low >= 3975 then ErrorStRamping else StartRamping)
            && (c.st.ChargingReach? && c.timer.expired ==>
                  r.st == if current > 375 then CurMaintain else if low >= 3975 then ErrorStRamping else ChargingReach)
            && (c.st.CurMaintain? && c.timer.expired ==>
                  r.st == if Drop(c, low) > 5 then ChargingDone
                          else if current < 373 && low >= 3975 then ErrorCurMaintain else CurMaintain)
            && (c.st != r.st && Charging(r.st) ==> r.setPoint == c.setPoint && r.dac == c.dac)
            && (!Acts(c) ==> r == c)
  {
    hide Run, Wrap16, DacCode;
    RunAppend(POWER_ON, events, [Measured(high, low)]);
    RunOne(Run(POWER_ON, events), Measured(high, low));
  }

  // ---------------------------------------------------------------- the set-point over a run

  /** What a reading that acts adds to the set-point. */
  function Change(st: ChargeState, current: int): int {
    match st
    case StartRamping => if current <= 100 then 10 else 0
    case ChargingReach => if current <= 375 then 1 else 0
    case CurMaintain => if current < 373 then 1 else if current > 379 then -1 else 0
    case _ => 0
  }

  function ChangeOf(c: Charger, e: Event): int {
    if e.Measured? && Acts(c) then Change(c.st, e.high - e.low) else 0
  }

  function Net(c: Charger, events: seq<Event>): int {
    if events == [] then 0
    else
      var init := events[..|events| - 1];
      Net(c, init) + ChangeOf(Run(c, init), events[|events| - 1])
  }

  lemma WrapAdds(a: int, b: int)
    ensures Wrap16(Wrap16(a) + b) == Wrap16(a + b)
  {
    var q := a / 0x1_0000;
    assert a + b == Wrap16(a) + b + q * 0x1_0000;
  }

  lemma WrapNothing(x: uint16)
    ensures Wrap16(x + 0) == x
  {
  }

  lemma SetPointStep(c: Charger, e: Event)
    requires !e.Start? && Charging(Step(c, e).st)
    ensures Charging(c.st) && Step(c, e).setPoint == Wrap16(c.setPoint + ChangeOf(c, e))
  {
    hide DacCode, Wrap16, Timers.Started, Timers.Ticked, Timers.Polled;
    WrapNothing(c.setPoint);
  }

  /** The number of readings that act. */
  function Actions(c: Charger, events: seq<Event>): nat {
    if events == [] then 0
    else
      var init, e := events[..|events| - 1], events[|events| - 1];
      Actions(c, init) + if e.Measured? && Acts(Run(c, init)) then 1 else 0
  }

  lemma RunNothing(c: Charger)
    ensures Run(c, []) == c && Net(c, []) == 0 && Actions(c, []) == 0
  {
  }

  lemma RunLast(c: Charger, events: seq<Event>)
    requires events != []
    ensures var init, e := events[..|events| - 1], events[|events| - 1];
            && Run(c, events) == Step(Run(c, init), e)
            && Net(c, events) == Net(c, init) + ChangeOf(Run(c, init), e)
            && Actions(c, events) == Actions(c, init) + if e.Measured? && Acts(Run(c, init)) then 1 else 0
  {
    hide Step, ChangeOf, Acts;
  }

  predicate NoStart(events: seq<Event>) {
    forall i :: 0 <= i < |events| ==> !events[i].Start?
  }

  /** As long as charging goes on, in whatever state, the set-point is what it was plus the
      changes called for since, in 16 bits. */
  lemma {:induction false} SetPointFollows(c: Charger, events: seq<Event>)
    requires NoStart(events) && Charging(Run(c, events).st)
    ensures Charging(c.st) && Run(c, events).setPoint == Wrap16(c.setPoint + Net(c, events))
  {
    hide Step, Wrap16, Run, Net, ChangeOf, Charging;
    if events == [] {
      RunNothing(c);
      WrapNothing(c.setPoint);
    } else {
      var init, e := events[..|events| - 1], events[|events| - 1];
      RunLast(c, events);
      SetPointStep(Run(c, init), e);
      SetPointFollows(c, init);
      WrapAdds(c.setPoint + Net(c, init), ChangeOf(Run(c, init), e));
    }
  }

  /** Ticks, and readings whose current lies in a range. */
  predicate Between(events: seq<Event>, least: int, most: int) {
    forall i {:trigger events[i]} :: 0 <= i < |events| ==>
      !events[i].Start? && (events[i].Measured? ==> least <= events[i].high - events[i].low <= most)
  }

  /** A battery voltage at which the set-point may be raised. */
  predicate BelowLimit(events: seq<Event>) {
    forall i {:trigger events[i]} :: 0 <= i < |events| ==> events[i].Measured? ==> events[i].low < 3975
  }

  function Readings(events: seq<Event>): nat {
    if events == [] then 0
    else Readings(events[..|events| - 1]) + if events[|events| - 1].Measured? then 1 else 0
  }

  lemma RampStays(c: Charger, e: Event)
    requires c.st.StartRamping? && !e.Start? && (e.Measured? ==> e.high - e.low <= 100 && e.low < 3975)
    ensures Step(c, e).st.StartRamping? && ChangeOf(c, e) == if e.Measured? then 10 else 0
  {
    hide DacCode, Wrap16;
  }

  lemma {:induction false} RampNet(c: Charger, events: seq<Event>)
    requires c.st.StartRamping? && Between(events, -4095, 100) && BelowLimit(events)
    ensures Run(c, events).st.StartRamping? && Net(c, events) == 10 * Readings(events)
  {
    if events != [] {
      hide Step, ChangeOf;
      var init, e := events[..|events| - 1], events[|events| - 1];
      RampNet(c, init);
      RampStays(Run(c, init), e);
    }
  }

  /** The ramp: from its start, whatever happened before, every reading of at most 100 with a
      battery below 3975 raises the set-point by 10, in 16 bits, from 550. */
  lemma RampRises(before: seq<Event>, events: seq<Event>)
    requires Between(events, -4095, 100) && BelowLimit(events)
    ensures var c := Run(POWER_ON, before + [Event.Start] + events);
            && c.st.StartRamping? && c.setPoint == (550 + 10 * Readings(events)) % 0x1_0000
            && c.dac == DacCode(c.setPoint)
  {
    hide Run, DacCode;
    var started := Run(POWER_ON, before + [Event.Start]);
    RunAppend(POWER_ON, before, [Event.Start]);
    RunOne(Run(POWER_ON, before), Event.Start);
    RunAppend(POWER_ON, before + [Event.Start], events);
    RampNet(started, events);
    SetPointFollows(started, events);
    AlwaysSafe(before + [Event.Start] + events);
  }

  lemma {:induction false} ReadingsGrow(events: seq<Event>, k: nat)
    requires k <= |events|
    ensures Readings(events[..k]) <= Readings(events)
  {
    if k < |events| {
      ReadingsGrow(events[..|events| - 1], k);
      assert events[..|events| - 1][..k] == events[..k];
    } else {
      assert events[..k] == events;
    }
  }

  /** And up to 6498 readings, the output was never higher before: it first falls back when the
      set-point wraps, to 4 mV. */
  lemma RampNeverFalls(before: seq<Event>, events: seq<Event>, k: nat)
    requires Between(events, -4095, 100) && BelowLimit(events) && k <= |events|
    ensures var started := before + [Event.Start];
            var c, d := Run(POWER_ON, started + events[..k]), Run(POWER_ON, started + events);
            && (Readings(events) <= 6498 ==> c.setPoint <= d.setPoint && d.dac <= c.dac)
            && (Readings(events) == 6499 ==> d.setPoint == 4 && d.dac == 493)
  {
    hide Run, DacCode;
    RampRises(before, events[..k]);
    RampRises(before, events);
    ReadingsGrow(events, k);
    DacRange(4);
    if Readings(events) <= 6498 {
      DacFalls(550 + 10 * Readings(events[..k]), 550 + 10 * Readings(events));
    }
  }

  function Rank(st: ChargeState): nat {
    match st
    case StartRamping => 0
    case ChargingReach => 1
    case CurMaintain => 2
    case _ => 3
  }

  lemma RankGrows(c: Charger, e: Event)
    requires !e.Start?
    ensures Rank(c.st) <= Rank(Step(c, e).st)
  {
    hide DacCode, Wrap16;
  }

  lemma SameRank(a: ChargeState, b: ChargeState)
    requires Charging(a) && Rank(a) == Rank(b)
    ensures a == b
  {
  }

  lemma {:induction false} RanksGrow(c: Charger, events: seq<Event>)
    requires NoStart(events)
    ensures Rank(c.st) <= Rank(Run(c, events).st)
  {
    if events != [] {
      hide Step, Rank;
      RanksGrow(c, events[..|events| - 1]);
      RankGrows(Run(c, events[..|events| - 1]), events[|events| - 1]);
    }
  }

  /** A current range calls for the same change everywhere. */
  predicate Calls(st: ChargeState, least: int, most: int, change: int) {
    forall current {:trigger Change(st, current)} :: least <= current <= most ==> Change(st, current) == change
  }

  lemma {:induction false} NetOfActions(c: Charger, events: seq<Event>, least: int, most: int, change: int)
    requires Charging(c.st) && Between(events, least, most) && Calls(c.st, least, most, change)
    requires Run(c, events).st == c.st
    ensures Net(c, events) == change * Actions(c, events)
  {
    hide Change, Step, Run, Net, Actions, Rank, Acts;
    if events == [] {
      RunNothing(c);
    } else {
      var init, e := events[..|events| - 1], events[|events| - 1];
      var r := Run(c, init);
      RunLast(c, events);
      RanksGrow(c, init);
      RankGrows(r, e);
      assert Rank(c.st) == Rank(r.st);
      SameRank(c.st, r.st);
      NetOfActions(c, init, least, most, change);
      assert ChangeOf(r, e) == if e.Measured? && Acts(r) then change else 0;
    }
  }

  /** The reach state: as long as it lasts, every decision raises the set-point by 1. */
  lemma ReachRises(before: seq<Event>, events: seq<Event>)
    requires var c := Run(POWER_ON, before); c.st.ChargingReach? && Run(c, events).st.ChargingReach?
    requires Between(events, -4095, 375)
    ensures var c := Run(POWER_ON, before); var r := Run(c, events);
            r.setPoint == (c.setPoint + Actions(c, events)) % 0x1_0000 && r.dac == DacCode(r.setPoint)
  {
    hide Run, DacCode;
    var c := Run(POWER_ON, before);
    NetOfActions(c, events, -4095, 375, 1);
    SetPointFollows(c, events);
    RunAppend(POWER_ON, before, events);
    AlwaysSafe(before + events);
  }

  /** The maintain state: as long as it lasts, every decision raises the set-point by 1 below a
      current of 373, lowers it by 1 above 379, and keeps it in between. */
  lemma MaintainRegulates(before: seq<Event>, events: seq<Event>)
    requires var c := Run(POWER_ON, before); c.st.CurMaintain? && Run(c, events).st.CurMaintain?
    ensures var c := Run(POWER_ON, before); var r := Run(c, events); var n := Actions(c, events);
            && (Between(events, -4095, 372) ==> r.setPoint == (c.setPoint + n) % 0x1_0000)
            && (Between(events, 373, 379) ==> r.setPoint == c.setPoint)
            && (Between(events, 380, 4095) ==> r.setPoint == (c.setPoint - n) % 0x1_0000)
            && r.dac == DacCode(r.setPoint)
  {
    hide Run, DacCode;
    var c := Run(POWER_ON, before);
    if Between(events, -4095, 372) {
      NetOfActions(c, events, -4095, 372, 1);
      SetPointFollows(c, events);
    }
    if Between(events, 373, 379) {
      NetOfActions(c, events, 373, 379, 0);
      SetPointFollows(c, events);
    }
    if Between(events, 380, 4095) {
      NetOfActions(c, events, 380, 4095, -1);
      SetPointFollows(c, events);
    }
    RunAppend(POWER_ON, before, events);
    AlwaysSafe(before + events);
  }

  /** After a decision, or on entry from the ramp, the next decision is due exactly when the
      fifth (reach) or tenth (maintain) tick has passed. */
  lemma DecidesAgain(c: Charger, high: Reading, low: Reading, events: seq<Event>)
    requires Safe(c) && Acts(c) && NoStart(events)
    requires Task(c, high, low).st.ChargingReach? || Task(c, high, low).st.CurMaintain?
    requires MsTicks(events) + 1 == if Task(c, high, low).st.ChargingReach? then 5 else 10
    ensures var d := Task(c, high, low);
            !Decides(Run(d, events)) && Decides(Run(d, events + [MsTick]))
            && Run(d, events + [MsTick]) == d.(timer := Timers.Entry(0, true))
  {
    var d := Task(c, high, low);
    var left := if d.st.CurMaintain? then CUR_MAINTAIN_TICK else CUR_REACH_TICK;
    assert d.timer == Timers.Counting(left);
    QuietWhileCounting(d, left, events);
    hide Run, Task;
    RunAppend(d, events, [MsTick]);
    RunOne(Run(d, events), MsTick);
  }

  // ---------------------------------------------------------------- the output

  /** Between 550 and 1872 mV the code follows the set-point: differences agree within one step of
      512 / 191 mV. */
  lemma DacTracks(low: uint16, high: uint16)
    requires 550 <= low <= high <= 1872
    ensures -512 < 512 * (DacCode(low) - DacCode(high)) - 191 * (high - low) < 512
  {
  }
}
