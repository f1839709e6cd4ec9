/** The two-phase current-sense conversion of aux_mcu_v2/src/PLATFORM/platform_io.c: the
    interrupt stores the high side, starts the low side by itself, and reports the pair. */
module CurrentSense {

  type uint16 = x: int | 0 <= x < 0x1_0000

  /** `converting` is the ADC itself: a conversion was started and has not completed. */
  datatype Sense = Sense(measuringLow: bool, high: uint16, low: uint16, ready: bool, converting: bool)

  const POWER_ON: Sense := Sense(false, 0, 0, false, false)

  datatype Event = Converted(v: uint16) | Fetch(trigger: bool)

  function OnConverted(s: Sense, v: uint16): Sense {
    if !s.measuringLow then s.(measuringLow := true, high := v, converting := true)
    else s.(measuringLow := false, low := v, ready := true, converting := false)
  }

  function OnFetch(s: Sense, trigger: bool): Sense {
    s.(ready := false, converting := s.converting || trigger)
  }

  function Step(s: Sense, e: Event): Sense {
    match e
    case Converted(v) => OnConverted(s, v)
    case Fetch(trigger) => OnFetch(s, trigger)
  }

  /** A conversion completes only if one was started; the battery code fetches only when no
      conversion is in progress. */
  predicate Allowed(s: Sense, e: Event) {
    match e
    case Converted(_) => s.converting
    case Fetch(_) => !s.converting
  }

  function Run(events: seq<Event>): Sense {
    if events == [] then POWER_ON else Step(Run(events[..|events| - 1]), events[|events| - 1])
  }

  ghost predicate AllowedRun(events: seq<Event>) {
    events != [] ==> AllowedRun(events[..|events| - 1]) && Allowed(Run(events[..|events| - 1]), events[|events| - 1])
  }

  /** The results of all conversions, in order. */
  function Conversions(events: seq<Event>): seq<uint16> {
    if events == [] then []
    else
      var c := Conversions(events[..|events| - 1]);
      match events[|events| - 1]
      case Converted(v) => c + [v]
      case Fetch(_) => c
  }

  /** On every allowed run, a ready pair is the last two conversions: they number an even
      count, the high side is the earlier one, and no conversion is in progress that could
      tear the pair before it is fetched. */
  lemma {:induction false} ReadyPairIsWhole(events: seq<Event>)
    requires AllowedRun(events)
    ensures var s, c := Run(events), Conversions(events);
            && (s.measuringLow <==> |c| % 2 == 1)
            && (s.measuringLow ==> s.converting && s.high == c[|c| - 1])
            && (s.ready ==> !s.converting)
            && (|c| > 0 && |c| % 2 == 0 ==> s.high == c[|c| - 2] && s.low == c[|c| - 1])
            && (s.ready ==> |c| > 0 && |c| % 2 == 0)
  {
    if events != [] {
      ReadyPairIsWhole(events[..|events| - 1]);
    }
  }

  lemma RunNext(events: seq<Event>, e: Event)
    requires AllowedRun(events) && Allowed(Run(events), e)
    ensures AllowedRun(events + [e]) && Run(events + [e]) == Step(Run(events), e)
  {
    assert (events + [e])[..|events|] == events;
  }

  /** A fetch with trigger starts a measurement: the next two conversions are its pair. */
  lemma TriggerGivesPair(events: seq<Event>, high: uint16, low: uint16)
    requires AllowedRun(events) && !Run(events).converting
    ensures var more := events + [Fetch(true)] + [Converted(high)] + [Converted(low)];
            AllowedRun(more) && Run(more) == Sense(false, high, low, true, false)
  {
    ReadyPairIsWhole(events);
    hide Run, AllowedRun;
    RunNext(events, Fetch(true));
    RunNext(events + [Fetch(true)], Converted(high));
    RunNext(events + [Fetch(true)] + [Converted(high)], Converted(low));
  }

  /** Without a trigger none is started, and the pair just fetched is not ready again. */
  lemma {:induction false} NothingWithoutTrigger(events: seq<Event>, more: seq<Event>)
    requires AllowedRun(events + [Fetch(false)] + more)
    requires forall i :: 0 <= i < |more| ==> more[i] != Fetch(true)
    ensures var r := Run(events + [Fetch(false)] + more);
            !r.converting && !r.ready && r.high == Run(events).high && r.low == Run(events).low
  {
    var all := events + [Fetch(false)] + more;
    if more == [] {
      assert all == events + [Fetch(false)] && all[..|all| - 1] == events;
    } else {
      assert all[..|all| - 1] == events + [Fetch(false)] + more[..|more| - 1];
      NothingWithoutTrigger(events, more[..|more| - 1]);
    }
  }

  class Sampler {
    var measuringLow: bool
    var high: uint16
    var low: uint16
    var ready: bool
    var converting: bool

    ghost function State(): Sense
      reads this
    {
      Sense(measuringLow, high, low, ready, converting)
    }

    constructor ()
      ensures State() == POWER_ON
    {
      measuringLow, high, low, ready, converting := false, 0, 0, false, false;
    }

    /** ADC_Handler() */
    method AdcHandler(result: uint16)
      modifies this
      ensures State() == OnConverted(old(State()), result)
    {
      if !measuringLow {
        measuringLow := true;
        high := result;
        converting := true;
      } else {
        measuringLow := false;
        low := result;
        ready := true;
        converting := false;
      }
    }

    /** platform_io_get_cursense_conversion_result() */
    method GetResult(trigger: bool) returns (pair: (uint16, uint16))
      modifies this
      ensures State() == OnFetch(old(State()), trigger)
      ensures pair == (old(high), old(low))
    {
      ready := false;
      if trigger {
        converting := true;
      }
      pair := (high, low);
    }
  }
}
