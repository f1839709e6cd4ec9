/** The NiMH charging state machine of aux_mcu_v2/src/LOGIC/logic_battery.c, on top of the
    step-down and mosfet switches of PLATFORM/platform_io.c and the battery decision timer. */
module Charger {
  import opened Timers

  type uint16 = x: int | 0 <= x < 0x1_0000

  /** An averaged 12-bit conversion result. */
  type Reading = x: int | 0 <= x < 4096

  datatype ChargeState =
    | Idle | StartRamping | ChargingReach | ErrorStRamping
    | CurMaintain | ErrorCurReach | ErrorCurMaintain | ChargingDone

  const START_CHG_VOLTAGE: uint16 := 550
  const START_CHG_V_INC: uint16 := 10
  const CUR_FOR_ST_RAMP_END: int := 100
  const MAX_V_FOR_ST_RAMP: int := 3975
  const CUR_REACH_TICK: uint32 := 5
  const CUR_REACH_V_INC: uint16 := 1
  const CUR_FOR_REACH_END_12C: int := 375
  const MAX_V_FOR_CUR_REACH: int := 3975
  const CUR_MAINTAIN_TICK: uint32 := 10
  const END_OF_CHARGE_NEG_V: int := 5

  /** The charger's variables and the outputs it drives. */
  datatype Charger = Charger(
    st: ChargeState,
    setPoint: uint16,
    peak: uint16,
    ticksSincePeak: uint32,
    mosfets: bool,
    stepDown: bool,
    dac: nat,
    timer: Entry)

  predicate Charging(st: ChargeState) {
    st.StartRamping? || st.ChargingReach? || st.CurMaintain?
  }

  function Wrap16(x: int): uint16 { x % 0x1_0000 }

  function Wrap32(x: int): uint32 { x % 0x1_0000_0000 }

  // ---------------------------------------------------------------- the step-down

  /** The DAC code for a set-point in mV; a lower code is a higher output voltage. */
  function DacCode(voltage: uint16): nat {
    var v := if voltage < 550 then 550 else voltage as int;
    var scaled := v * 191 / 512;
    698 - (if scaled > 698 then 698 else scaled)
  }

  lemma DacRange(voltage: uint16)
    ensures 0 <= DacCode(voltage) <= 493
    ensures DacCode(voltage) == 493 <==> voltage <= 552
    ensures DacCode(voltage) == 0 <==> voltage >= 1872
  {
  }

  /** A higher set-point never lowers the output. */
  lemma DacFalls(low: uint16, high: uint16)
    requires low <= high
    ensures DacCode(high) <= DacCode(low)
  {
  }

  // ---------------------------------------------------------------- one call of logic_battery_task()

  function Stop(c: Charger, st: ChargeState): Charger {
    c.(st := st, mosfets := false, stepDown := false, dac := 0)
  }

  function SetVoltage(c: Charger, setPoint: uint16): Charger {
    c.(setPoint := setPoint, dac := DacCode(setPoint))
  }

  /** The set-point is raised; the output follows unless the battery voltage is too high. */
  function Raise(c: Charger, inc: uint16, low: Reading, limit: int, error: ChargeState): Charger {
    var setPoint := Wrap16(c.setPoint + inc);
    if low >= limit then Stop(c.(setPoint := setPoint), error) else SetVoltage(c, setPoint)
  }

  function RampStep(c: Charger, high: Reading, low: Reading): Charger {
    if high - low > CUR_FOR_ST_RAMP_END then c.(st := ChargingReach, timer := Started(c.timer, CUR_REACH_TICK))
    else Raise(c, START_CHG_V_INC, low, MAX_V_FOR_ST_RAMP, ErrorStRamping)
  }

  /** A decision in the reach state. */
  function ReachStep(c: Charger, high: Reading, low: Reading): Charger {
    if high - low > CUR_FOR_REACH_END_12C then
      c.(st := CurMaintain, ticksSincePeak := 0, peak := low, timer := Started(c.timer, CUR_MAINTAIN_TICK))
    else
      var r := Raise(c, CUR_REACH_V_INC, low, MAX_V_FOR_CUR_REACH, ErrorStRamping);
      r.(timer := Started(r.timer, CUR_REACH_TICK))
  }

  function TrackPeak(c: Charger, low: Reading): Charger {
    if low > c.peak then c.(peak := low, ticksSincePeak := 0)
    else c.(ticksSincePeak := Wrap32(c.ticksSincePeak + 1))
  }

  /** A decision in the maintain state. */
  function MaintainStep(c: Charger, high: Reading, low: Reading): Charger {
    var t := TrackPeak(c, low);
    var r :=
      if t.peak - low > END_OF_CHARGE_NEG_V then Stop(t, ChargingDone)
      else if high - low > CUR_FOR_REACH_END_12C + 4 then SetVoltage(t, Wrap16(t.setPoint - CUR_REACH_V_INC))
      else if high - low < CUR_FOR_REACH_END_12C - 2 then
        Raise(t, CUR_REACH_V_INC, low, MAX_V_FOR_CUR_REACH, ErrorCurMaintain)
      else t;
    r.(timer := Started(r.timer, CUR_MAINTAIN_TICK))
  }

  /** Whether this call is a decision tick. */
  predicate Decides(c: Charger) {
    (c.st.ChargingReach? || c.st.CurMaintain?) && c.timer.expired
  }

  function Polls(c: Charger): Charger {
    c.(timer := Polled(c.timer, true))
  }

  function Task(c: Charger, high: Reading, low: Reading): Charger {
    match c.st
    case StartRamping => RampStep(c, high, low)
    case ChargingReach => if c.timer.expired then ReachStep(Polls(c), high, low) else c
    case CurMaintain => if c.timer.expired then MaintainStep(Polls(c), high, low) else c
    case _ => c
  }

  function StartCharging(c: Charger): Charger {
    SetVoltage(c, START_CHG_VOLTAGE).(st := StartRamping, mosfets := true, stepDown := true)
  }

  // ---------------------------------------------------------------- runs

  datatype Event = Start | Measured(high: Reading, low: Reading) | MsTick

  const POWER_ON: Charger := Charger(Idle, 0, 0, 0, false, false, 0, Entry(0, true))

  function Step(c: Charger, e: Event): Charger {
    match e
    case Start => StartCharging(c)
    case Measured(high, low) => Task(c, high, low)
    case MsTick => c.(timer := Ticked(c.timer))
  }

  function Run(c: Charger, events: seq<Event>): Charger {
    if events == [] then c else Step(Run(c, events[..|events| - 1]), events[|events| - 1])
  }

  /** What every reachable state satisfies. */
  ghost predicate Safe(c: Charger) {
    && (c.mosfets <==> Charging(c.st))
    && (c.stepDown <==> Charging(c.st))
    && c.dac <= 493
    && (if Charging(c.st) then c.dac == DacCode(c.setPoint) else c.dac == 0)
    && !c.st.ErrorCurReach?
    && GoodEntry(c.timer)
  }

  lemma StepIsSafe(c: Charger, e: Event)
    requires Safe(c)
    ensures Safe(Step(c, e))
  {
    DacRange(Step(c, e).setPoint);
  }

  /** On every run the mosfets and the step-down are on exactly in the three charging states,
      the DAC holds the code of the set-point while charging and is reset otherwise, its code
      stays within 0..493, and the state LB_ERROR_CUR_REACH is never entered. */
  lemma {:induction false} AlwaysSafe(events: seq<Event>)
    ensures Safe(Run(POWER_ON, events))
  {
    if events != [] {
      AlwaysSafe(events[..|events| - 1]);
      StepIsSafe(Run(POWER_ON, events[..|events| - 1]), events[|events| - 1]);
    }
  }

  /** Error, done and idle states last, with everything off, until charging is started. */
  lemma {:induction false} RestsUntilStarted(c: Charger, events: seq<Event>)
    requires Safe(c) && !Charging(c.st)
    requires forall i :: 0 <= i < |events| ==> !events[i].Start?
    ensures var r := Run(c, events);
            r.st == c.st && !r.mosfets && !r.stepDown && r.dac == 0 && r.setPoint == c.setPoint
  {
    if events != [] {
      RestsUntilStarted(c, events[..|events| - 1]);
    }
  }

  lemma NotRaised(c: Charger, high: Reading, low: Reading)
    requires Safe(c) && low >= 3975
    ensures Task(c, high, low).stepDown ==> Task(c, high, low).dac >= c.dac
  {
    hide DacCode, Wrap16;
  }

  /** On every run, a reading of 3975 or more never raises the output. */
  lemma NeverRaisedOnHighReading(events: seq<Event>, high: Reading, low: Reading)
    requires low >= 3975
    ensures var c := Run(POWER_ON, events); var r := Task(c, high, low);
            r.stepDown ==> r.dac >= c.dac
  {
    AlwaysSafe(events);
    NotRaised(Run(POWER_ON, events), high, low);
  }

  /** A decision that means to lower the output raises it, to its maximum, exactly if the
      16-bit set-point is 0 and wraps. */
  lemma LoweringRaisesIffZero(c: Charger, high: Reading, low: Reading)
    requires Safe(c) && c.st.CurMaintain? && c.timer.expired
    requires high - low > CUR_FOR_REACH_END_12C + 4 && c.peak - low <= END_OF_CHARGE_NEG_V
    ensures Task(c, high, low).dac < c.dac <==> c.setPoint == 0
    ensures c.setPoint == 0 ==> Task(c, high, low).dac == 0
  {
    DacRange(c.setPoint);
    if c.setPoint > 0 {
      DacFalls(c.setPoint - 1, c.setPoint);
    }
  }

  // A run that reaches a set-point of 0.

  function MsTicksOnly(n: nat): (events: seq<Event>)
    ensures |events| == n && forall i :: 0 <= i < n ==> events[i] == MsTick
  {
    seq(n, _ => MsTick)
  }

  /** A reading whose current calls for a lower set-point, after the decision timer has run. */
  function LoweringRound(): seq<Event> {
    MsTicksOnly(CUR_MAINTAIN_TICK) + [Measured(1000, 500)]
  }

  function Rounds(n: nat): seq<Event> {
    if n == 0 then [] else Rounds(n - 1) + LoweringRound()
  }

  /** The ramp ends at once, and so does the reach state at its first decision. */
  function ToMaintain(): seq<Event> {
    [Event.Start, Measured(1000, 500)] + MsTicksOnly(CUR_REACH_TICK) + [Measured(1000, 500)]
  }

  lemma {:induction false} RunAppend(c: Charger, a: seq<Event>, b: seq<Event>)
    ensures Run(c, a + b) == Run(Run(c, a), b)
  {
    hide Step;
    if b == [] {
      assert a + b == a;
    } else {
      assert (a + b)[..|a + b| - 1] == a + b[..|b| - 1];
      RunAppend(c, a, b[..|b| - 1]);
    }
  }

  lemma RunOne(c: Charger, e: Event)
    ensures Run(c, [e]) == Step(c, e)
  {
    assert Run(c, [e][..0]) == c;
  }

  lemma OneTick(c: Charger, n: nat)
    requires 1 < n < 0x1_0000 && c.timer == Counting(n)
    ensures Step(c, MsTick) == c.(timer := Counting(n - 1))
  {
  }

  /** The decision timer runs out. */
  lemma {:induction false} TimerRunsOut(c: Charger, n: nat)
    requires 0 < n < 0x1_0000 && c.timer == Counting(n)
    ensures Run(c, MsTicksOnly(n)) == c.(timer := Entry(0, true))
    decreases n
  {
    var ticked := Step(c, MsTick);
    RunOne(c, MsTick);
    if n == 1 {
      assert MsTicksOnly(1) == [MsTick];
    } else {
      hide Step;
      assert MsTicksOnly(n) == [MsTick] + MsTicksOnly(n - 1);
      RunAppend(c, [MsTick], MsTicksOnly(n - 1));
      OneTick(c, n);
      TimerRunsOut(ticked, n - 1);
    }
  }

  lemma RoundLowers(c: Charger)
    requires c.st.CurMaintain? && c.timer == Counting(CUR_MAINTAIN_TICK) && c.peak == 500 && c.setPoint > 0
    ensures var d := Run(c, LoweringRound());
            && d.st.CurMaintain? && d.timer == Counting(CUR_MAINTAIN_TICK) && d.peak == 500
               && d.setPoint == c.setPoint - 1
  {
    hide Run, DacCode;
    TimerRunsOut(c, CUR_MAINTAIN_TICK);
    RunAppend(c, MsTicksOnly(CUR_MAINTAIN_TICK), [Measured(1000, 500)]);
    RunOne(c.(timer := Entry(0, true)), Measured(1000, 500));
  }

  lemma ReachesMaintain()
    ensures var c := Run(POWER_ON, ToMaintain());
            c.st.CurMaintain? && c.timer == Counting(CUR_MAINTAIN_TICK) && c.peak == 500
                && c.setPoint == START_CHG_VOLTAGE
  {
    hide Run, DacCode;
    var reading := Measured(1000, 500);
    assert [Event.Start] + [reading] == [Event.Start, reading];
    RunOne(POWER_ON, Event.Start);
    RunAppend(POWER_ON, [Event.Start], [reading]);
    var c := Step(Step(POWER_ON, Event.Start), reading);
    RunOne(Step(POWER_ON, Event.Start), reading);
    RunAppend(POWER_ON, [Event.Start, reading], MsTicksOnly(CUR_REACH_TICK));
    TimerRunsOut(c, CUR_REACH_TICK);
    RunAppend(POWER_ON, [Event.Start, reading] + MsTicksOnly(CUR_REACH_TICK), [reading]);
    RunOne(c.(timer := Entry(0, true)), reading);
  }

  lemma {:induction false} RoundsLower(n: nat)
    requires n <= START_CHG_VOLTAGE
    ensures var c := Run(POWER_ON, ToMaintain() + Rounds(n));
            && c.st.CurMaintain? && c.timer == Counting(CUR_MAINTAIN_TICK) && c.peak == 500
            && c.setPoint == START_CHG_VOLTAGE - n
  {
    hide Run;
    if n == 0 {
      assert ToMaintain() + Rounds(0) == ToMaintain();
      ReachesMaintain();
    } else {
      RoundsLower(n - 1);
      var before := ToMaintain() + Rounds(n - 1);
      assert before + LoweringRound() == ToMaintain() + Rounds(n);
      RunAppend(POWER_ON, before, LoweringRound());
      RoundLowers(Run(POWER_ON, before));
    }
  }

  /** From power-on, 550 lowering decisions after the ramp bring the set-point to 0, and the
      next one raises the output from its minimum to its maximum. */
  lemma SetPointReachesZero()
    ensures var c := Run(POWER_ON, ToMaintain() + Rounds(START_CHG_VOLTAGE));
            && c.st.CurMaintain? && c.setPoint == 0 && c.dac == 493
            && Run(POWER_ON, ToMaintain() + Rounds(START_CHG_VOLTAGE) + LoweringRound()).dac == 0
  {
    hide Run;
    var events := ToMaintain() + Rounds(START_CHG_VOLTAGE);
    RoundsLower(START_CHG_VOLTAGE);
    AlwaysSafe(events);
    var c := Run(POWER_ON, events);
    TimerRunsOut(c, CUR_MAINTAIN_TICK);
    var due := c.(timer := Entry(0, true));
    RunAppend(POWER_ON, events, LoweringRound());
    RunAppend(c, MsTicksOnly(CUR_MAINTAIN_TICK), [Measured(1000, 500)]);
    RunOne(due, Measured(1000, 500));
    DacRange(0);
    LoweringRaisesIffZero(due, 1000, 500);
  }

  // ---------------------------------------------------------------- the decision clock

  function MsTicks(events: seq<Event>): nat {
    if events == [] then 0
    else MsTicks(events[..|events| - 1]) + if events[|events| - 1].MsTick? then 1 else 0
  }

  /** While the decision timer counts, readings change nothing. */
  lemma {:induction false} QuietWhileCounting(c: Charger, left: uint32, events: seq<Event>)
    requires c.st.ChargingReach? || c.st.CurMaintain?
    requires c.timer == Counting(left)
    requires forall i :: 0 <= i < |events| ==> !events[i].Start?
    requires MsTicks(events) < left || events == []
    ensures Run(c, events) == c.(timer := Counting(left - MsTicks(events)))
  {
    if events != [] {
      QuietWhileCounting(c, left, events[..|events| - 1]);
    }
  }

  /** Decisions in the reach state are at least 5 ms apart, in the maintain state at least
      10 ms: after a decision, or on entry from the ramp, no reading changes anything until
      that many ticks have passed. */
  lemma DecisionsAreApart(c: Charger, high: Reading, low: Reading, events: seq<Event>)
    requires Safe(c) && (Decides(c) || c.st.StartRamping?)
    requires var d := Task(c, high, low); d.st.ChargingReach? || d.st.CurMaintain?
    requires forall i :: 0 <= i < |events| ==> !events[i].Start?
    requires MsTicks(events) < if Task(c, high, low).st.CurMaintain? then CUR_MAINTAIN_TICK else CUR_REACH_TICK
    ensures var d, r := Task(c, high, low), Run(Task(c, high, low), events);
            r == d.(timer := r.timer) && !r.timer.expired
  {
    var d := Task(c, high, low);
    var left := if d.st.CurMaintain? then CUR_MAINTAIN_TICK else CUR_REACH_TICK;
    assert d.timer == Counting(left);
    QuietWhileCounting(d, left, events);
  }

  // ---------------------------------------------------------------- the peak

  function CountedStep(before: Charger, h: seq<Reading>, e: Event): seq<Reading> {
    if e.Measured? && Decides(before) then
      if before.st.CurMaintain? then h + [e.low]
      else if Step(before, e).st.CurMaintain? then [e.low]
      else h
    else h
  }

  /** The low-side readings that count since the maintain state was entered: the reading that
      entered it and one per decision tick. */
  function Counted(c: Charger, events: seq<Event>): seq<Reading> {
    if events == [] then []
    else
      var init := events[..|events| - 1];
      CountedStep(Run(c, init), Counted(c, init), events[|events| - 1])
  }

  predicate IsMaxOf(m: int, s: seq<int>) {
    m in s && forall i :: 0 <= i < |s| ==> s[i] <= m
  }

  /** The position at which a value first occurs. */
  predicate FirstAt(s: seq<int>, m: int, k: nat) {
    k < |s| && s[k] == m && forall i :: 0 <= i < k ==> s[i] != m
  }

  ghost predicate PeakTracked(c: Charger, h: seq<int>) {
    IsMaxOf(c.peak, h) && exists k: nat :: FirstAt(h, c.peak, k) && c.ticksSincePeak == Wrap32(|h| - 1 - k)
  }

  lemma WrapNext(x: nat)
    ensures Wrap32(Wrap32(x) + 1) == Wrap32(x + 1) && Wrap32(0) == 0
  {
    var q := x / 0x1_0000_0000;
    assert x + 1 == Wrap32(x) + 1 + q * 0x1_0000_0000;
  }

  lemma TrackPeakStep(c: Charger, h: seq<int>, low: Reading)
    requires PeakTracked(c, h)
    ensures PeakTracked(TrackPeak(c, low), h + [low])
  {
    var k: nat :| FirstAt(h, c.peak, k) && c.ticksSincePeak == Wrap32(|h| - 1 - k);
    var h', c' := h + [low], TrackPeak(c, low);
    assert forall i :: 0 <= i < |h| ==> h'[i] == h[i];
    WrapNext(|h| - 1 - k);
    hide Wrap32;
    if low > c.peak {
      WrapNext(0);
      assert h'[|h|] == low;
      assert FirstAt(h', low, |h|);
    } else {
      assert h'[k] == c.peak;
      assert FirstAt(h', c.peak, k);
      assert c'.ticksSincePeak == Wrap32(|h'| - 1 - k);
    }
  }

  lemma SamePeak(c: Charger, d: Charger, h: seq<int>)
    requires c.peak == d.peak && c.ticksSincePeak == d.ticksSincePeak
    ensures PeakTracked(c, h) <==> PeakTracked(d, h)
  {
  }

  lemma PeakStep(c: Charger, h: seq<Reading>, e: Event)
    requires c.st.CurMaintain? ==> PeakTracked(c, h)
    requires Step(c, e).st.CurMaintain?
    ensures PeakTracked(Step(c, e), CountedStep(c, h, e))
  {
    hide Wrap16, DacCode;
    if c.st.CurMaintain? {
      if e.Measured? && Decides(c) {
        hide PeakTracked;
        TrackPeakStep(Polls(c), h, e.low);
        var t, r := TrackPeak(Polls(c), e.low), Step(c, e);
        SamePeak(Polls(c), c, h);
        SamePeak(t, r, h + [e.low]);
      }
    } else {
      assert [e.low][0] == e.low;
      assert FirstAt([e.low], e.low, 0);
    }
  }

  /** In the maintain state of any run, the stored peak is the maximum of the counted readings
      and the tick counter is, modulo 2^32, the number of decision ticks since that maximum
      was first reached. */
  lemma {:induction false} PeakIsTracked(events: seq<Event>)
    requires Run(POWER_ON, events).st.CurMaintain?
    ensures PeakTracked(Run(POWER_ON, events), Counted(POWER_ON, events))
  {
    hide PeakTracked, Step, CountedStep;
    var init := events[..|events| - 1];
    if Run(POWER_ON, init).st.CurMaintain? {
      PeakIsTracked(init);
    }
    PeakStep(Run(POWER_ON, init), Counted(POWER_ON, init), events[|events| - 1]);
  }

  /** Charging is declared done exactly at a maintain decision whose reading is more than 5
      below the maximum of the readings counted so far. */
  lemma DoneExactlyBelowPeak(events: seq<Event>, e: Event)
    requires !Run(POWER_ON, events).st.ChargingDone?
    ensures Step(Run(POWER_ON, events), e).st.ChargingDone?
       <==> var c, h := Run(POWER_ON, events), Counted(POWER_ON, events);
            && c.st.CurMaintain? && Decides(c) && e.Measured?
            && exists i :: 0 <= i < |h| && h[i] - e.low > END_OF_CHARGE_NEG_V
  {
    var c, h := Run(POWER_ON, events), Counted(POWER_ON, events);
    if c.st.CurMaintain? && Decides(c) && e.Measured? {
      PeakIsTracked(events);
      var k :| 0 <= k < |h| && h[k] == c.peak;
      assert TrackPeak(Polls(c), e.low).peak - e.low > END_OF_CHARGE_NEG_V <==> c.peak - e.low > END_OF_CHARGE_NEG_V;
    }
  }

  // ---------------------------------------------------------------- the firmware object

  class BatteryLogic {
    var state: ChargeState
    var chargeVoltage: uint16
    var peakVoltage: uint16
    var nbTicksSincePeak: uint32
    var diagVbat: int
    var diagCurrent: int
    // Outputs of platform_io.c
    var mosfetsOn: bool
    var stepDownOn: bool
    var dacData: nat
    const timers: TimerDriver

    ghost predicate Valid()
      reads this, timers, timers.entries
    {
      timers.Valid()
    }

    ghost function State(): Charger
      reads this, timers, timers.entries
      requires Valid()
    {
      Charger(state, chargeVoltage, peakVoltage, nbTicksSincePeak, mosfetsOn, stepDownOn, dacData,
              timers.State()[TIMER_BATTERY_TICK])
    }

    constructor (timers: TimerDriver)
      requires timers.Valid() && timers.State()[TIMER_BATTERY_TICK] == Entry(0, true)
      ensures Valid() && this.timers == timers && State() == POWER_ON
    {
      this.timers := timers;
      state := Idle;
      chargeVoltage, peakVoltage, nbTicksSincePeak := 0, 0, 0;
      diagVbat, diagCurrent := 0, 0;
      mosfetsOn, stepDownOn, dacData := false, false, 0;
    }

    /** platform_io_update_step_down_voltage() */
    method UpdateStepDownVoltage(voltage: uint16)
      modifies this`dacData
      ensures dacData == DacCode(voltage)
    {
      var v := voltage as int;
      if v < 550 {
        v := 550;
      }
      var code := v * 191 / 512;
      if code > 698 {
        code := 698;
      }
      dacData := 698 - code;
    }

    /** Charge mosfets off, then step-down off and DAC reset. The 1 ms pause between them lets
        time pass; no other charger code runs meanwhile. */
    method StopCharging(st: ChargeState)
      requires Valid()
      modifies this`state, this`mosfetsOn, this`stepDownOn, this`dacData
      ensures Valid() && State() == Stop(old(State()), st)
    {
      state := st;
      mosfetsOn := false;
      stepDownOn := false;
      dacData := 0;
    }

    /** logic_battery_start_charging() */
    method StartCharge()
      requires Valid()
      modifies this`state, this`chargeVoltage, this`mosfetsOn, this`stepDownOn, this`dacData
      ensures Valid() && State() == StartCharging(old(State()))
    {
      chargeVoltage := START_CHG_VOLTAGE;
      state := StartRamping;
      UpdateStepDownVoltage(chargeVoltage);
      stepDownOn := true;
      mosfetsOn := true;
    }

    /** Raises the set-point; stops with an error when the battery voltage is too high. */
    method RaiseOrStop(inc: uint16, low: Reading, limit: int, error: ChargeState)
      requires Valid()
      modifies this`state, this`chargeVoltage, this`mosfetsOn, this`stepDownOn, this`dacData
      ensures Valid() && State() == Raise(old(State()), inc, low, limit, error)
    {
      chargeVoltage := (chargeVoltage + inc) % 0x1_0000;
      if low >= limit {
        StopCharging(error);
      } else {
        UpdateStepDownVoltage(chargeVoltage);
      }
    }

    method RampTask(high: Reading, low: Reading)
      requires Valid() && state == StartRamping
      modifies this, timers.entries
      ensures Valid() && State() == RampStep(old(State()), high, low)
      ensures unchanged(`diagVbat, `diagCurrent)
    {
      if high - low > CUR_FOR_ST_RAMP_END {
        state := ChargingReach;
        timers.StartTimer(TIMER_BATTERY_TICK, CUR_REACH_TICK);
      } else {
        RaiseOrStop(START_CHG_V_INC, low, MAX_V_FOR_ST_RAMP, ErrorStRamping);
      }
    }

    method ReachDecision(high: Reading, low: Reading)
      requires Valid()
      modifies this, timers.entries
      ensures Valid() && State() == ReachStep(old(State()), high, low)
      ensures unchanged(`diagVbat, `diagCurrent)
    {
      if high - low > CUR_FOR_REACH_END_12C {
        state := CurMaintain;
        nbTicksSincePeak := 0;
        peakVoltage := low;
        timers.StartTimer(TIMER_BATTERY_TICK, CUR_MAINTAIN_TICK);
      } else {
        RaiseOrStop(CUR_REACH_V_INC, low, MAX_V_FOR_CUR_REACH, ErrorStRamping);
        timers.StartTimer(TIMER_BATTERY_TICK, CUR_REACH_TICK);
      }
    }

    method UpdatePeak(low: Reading)
      requires Valid()
      modifies this`peakVoltage, this`nbTicksSincePeak
      ensures Valid() && State() == TrackPeak(old(State()), low)
    {
      if low > peakVoltage {
        peakVoltage := low;
        nbTicksSincePeak := 0;
      } else {
        nbTicksSincePeak := (nbTicksSincePeak + 1) % 0x1_0000_0000;
      }
    }

    method MaintainDecision(high: Reading, low: Reading)
      requires Valid()
      modifies this, timers.entries
      ensures Valid() && State() == MaintainStep(old(State()), high, low)
      ensures unchanged(`diagVbat, `diagCurrent)
    {
      UpdatePeak(low);
      if peakVoltage - low > END_OF_CHARGE_NEG_V {
        StopCharging(ChargingDone);
      } else if high - low > CUR_FOR_REACH_END_12C + 4 {
        chargeVoltage := (chargeVoltage - CUR_REACH_V_INC) % 0x1_0000;
        UpdateStepDownVoltage(chargeVoltage);
      } else if high - low < CUR_FOR_REACH_END_12C - 2 {
        RaiseOrStop(CUR_REACH_V_INC, low, MAX_V_FOR_CUR_REACH, ErrorCurMaintain);
      }
      timers.StartTimer(TIMER_BATTERY_TICK, CUR_MAINTAIN_TICK);
    }

    /** logic_battery_task() with a ready pair of readings. */
    method RunTask(high: Reading, low: Reading)
      requires Valid()
      modifies this, timers.entries
      ensures Valid() && State() == Task(old(State()), high, low)
      ensures diagVbat == low && diagCurrent == high - low
    {
      hide RampStep, ReachStep, MaintainStep;
      diagCurrent := high - low;
      diagVbat := low;
      match state
      case StartRamping =>
        RampTask(high, low);
      case ChargingReach =>
        var expired := timers.HasExpired(TIMER_BATTERY_TICK, true);
        if expired {
          ReachDecision(high, low);
        }
      case CurMaintain =>
        var expired := timers.HasExpired(TIMER_BATTERY_TICK, true);
        if expired {
          MaintainDecision(high, low);
        }
      case _ =>
    }
  }
}
