/** The millisecond software timers of aux_mcu_v2/src/TIMER/driver_timer.c. */
module Timers {

  type uint32 = x: int | 0 <= x < 0x1_0000_0000

  /** A timer entry. The source's flag is TIMER_EXPIRED or TIMER_RUNNING. */
  datatype Entry = Entry(val: uint32, expired: bool)

  const TIMER_WAIT_FUNCTS: nat := 0
  const TIMER_TIMEOUT_FUNCTS: nat := 1
  const TIMER_BATTERY_TICK: nat := 2
  const TOTAL_NUMBER_OF_TIMERS: nat := 3

  type TimerId = x: nat | x < TOTAL_NUMBER_OF_TIMERS

  // ---------------------------------------------------------------- one entry

  function Ticked(e: Entry): Entry {
    if e.val == 0 then e else Entry(e.val - 1, if e.val == 1 then true else e.expired)
  }

  /** A start that always writes. */
  function Restarted(v: uint32): Entry {
    Entry(v, v == 0)
  }

  /** timer_start_timer(): nothing is written when the count already has the value. */
  function Started(e: Entry, v: uint32): Entry {
    if e.val != v then Restarted(v) else e
  }

  function Polled(e: Entry, clear: bool): Entry {
    if e.expired && clear then e.(expired := false) else e
  }

  /** A timer that is still counting has not expired. */
  predicate GoodEntry(e: Entry) {
    e.val != 0 ==> !e.expired
  }

  /** The shortcut in timer_start_timer agrees with an unconditional start except for a start
      with 0 of a timer at 0 whose expiry was already consumed. */
  lemma ShortcutIsHarmless(e: Entry, v: uint32)
    requires GoodEntry(e)
    ensures Started(e, v) == Restarted(v) <==> v > 0 || e.val > 0 || e.expired
  {
  }

  // ---------------------------------------------------------------- all timers, over a run

  datatype Op = Tick | Start(id: TimerId, v: uint32) | Poll(id: TimerId, clear: bool)

  type Bank = s: seq<Entry> | |s| == TOTAL_NUMBER_OF_TIMERS witness [Entry(0, true), Entry(0, true), Entry(0, true)]

  predicate Good(s: Bank) {
    forall i :: 0 <= i < |s| ==> GoodEntry(s[i])
  }

  function TickedBank(s: Bank): Bank {
    [Ticked(s[0]), Ticked(s[1]), Ticked(s[2])]
  }

  function Apply(s: Bank, op: Op): Bank {
    match op
    case Tick => TickedBank(s)
    case Start(id, v) => s[id := Started(s[id], v)]
    case Poll(id, clear) => s[id := Polled(s[id], clear)]
  }

  function Run(s: Bank, ops: seq<Op>): Bank
    decreases |ops|
  {
    if ops == [] then s else Run(Apply(s, ops[0]), ops[1..])
  }

  function TicksIn(ops: seq<Op>): nat
    decreases |ops|
  {
    if ops == [] then 0 else (if ops[0].Tick? then 1 else 0) + TicksIn(ops[1..])
  }

  /** ops neither restarts timer `id` nor consumes its expiry, when it has `left` ms to go. */
  ghost predicate LeavesAlone(ops: seq<Op>, id: TimerId, left: nat)
    decreases |ops|
  {
    ops == [] ||
    match ops[0]
    case Tick => LeavesAlone(ops[1..], id, if left == 0 then 0 else left - 1)
    case Start(i, _) => i != id && LeavesAlone(ops[1..], id, left)
    case Poll(i, clear) => (i == id && clear ==> left > 0) && LeavesAlone(ops[1..], id, left)
  }

  /** The entry of a timer that has `left` ms to go. */
  function Counting(left: uint32): Entry {
    Entry(left, left == 0)
  }

  lemma {:induction false} CountsDown(s: Bank, id: TimerId, left: uint32, ops: seq<Op>)
    requires s[id] == Counting(left) && LeavesAlone(ops, id, left)
    ensures Run(s, ops)[id] == Counting(if TicksIn(ops) < left then left - TicksIn(ops) else 0)
    decreases |ops|
  {
    if ops != [] {
      var next := if ops[0].Tick? && left > 0 then left - 1 else left;
      CountsDown(Apply(s, ops[0]), id, next, ops[1..]);
    }
  }

  /** A timer started with v > 0 is running for exactly v ticks and expired from then on,
      whatever happens to the other timers and however often it is polled meanwhile. */
  lemma RunsForExactly(s: Bank, id: TimerId, v: uint32, ops: seq<Op>)
    requires Good(s) && v > 0 && LeavesAlone(ops, id, v)
    ensures var e := Run(Apply(s, Start(id, v)), ops)[id];
            (e.expired <==> TicksIn(ops) >= v) && e.val == if TicksIn(ops) < v then v - TicksIn(ops) else 0
  {
    assert GoodEntry(s[id]);
    ShortcutIsHarmless(s[id], v);
    CountsDown(Apply(s, Start(id, v)), id, v, ops);
  }

  /** No start of timer `id`. */
  predicate NoStart(ops: seq<Op>, id: TimerId) {
    forall i :: 0 <= i < |ops| ==> !(ops[i].Start? && ops[i].id == id)
  }

  lemma {:induction false} StaysConsumed(s: Bank, id: TimerId, ops: seq<Op>)
    requires s[id] == Entry(0, false) && NoStart(ops, id)
    ensures Run(s, ops)[id] == Entry(0, false)
    decreases |ops|
  {
    if ops != [] {
      assert NoStart(ops[1..], id);
      StaysConsumed(Apply(s, ops[0]), id, ops[1..]);
    }
  }

  /** An expired timer that is polled without clearing stays expired; once it is polled with
      clearing it reads as running, whatever happens, until it is started again. */
  lemma ClearedUntilStarted(s: Bank, id: TimerId, ops: seq<Op>)
    requires Good(s) && s[id].expired && NoStart(ops, id)
    ensures Apply(s, Poll(id, false)) == s
    ensures !Run(Apply(s, Poll(id, true)), ops)[id].expired
  {
    assert GoodEntry(s[id]);
    StaysConsumed(Apply(s, Poll(id, true)), id, ops);
  }

  lemma {:induction false} RunStaysGood(s: Bank, ops: seq<Op>)
    requires Good(s)
    ensures Good(Run(s, ops))
    decreases |ops|
  {
    if ops != [] {
      assert GoodEntry(s[0]) && GoodEntry(s[1]) && GoodEntry(s[2]);
      RunStaysGood(Apply(s, ops[0]), ops[1..]);
    }
  }

  // ---------------------------------------------------------------- the driver

  class TimerDriver {
    var sysTick: uint32
    const entries: array<Entry>

    ghost predicate Valid()
      reads this, entries
    {
      entries.Length == TOTAL_NUMBER_OF_TIMERS && Good(entries[..])
    }

    ghost function State(): Bank
      reads this, entries
      requires Valid()
    {
      entries[..]
    }

    /** The zero-initialised array: count 0 and flag 0, which is TIMER_EXPIRED. */
    constructor ()
      ensures Valid() && fresh(entries)
      ensures State() == [Entry(0, true), Entry(0, true), Entry(0, true)] && sysTick == 0
    {
      entries := new Entry[3](_ => Entry(0, true));
      sysTick := 0;
    }

    /** timer_ms_tick() */
    method MsTick()
      requires Valid()
      modifies this`sysTick, entries
      ensures Valid() && State() == Apply(old(State()), Tick)
      ensures sysTick == (old(sysTick) + 1) % 0x1_0000_0000
    {
      sysTick := if sysTick == 0xFFFF_FFFF then 0 else sysTick + 1;
      ghost var before := entries[..];
      assert forall k :: 0 <= k < 3 ==> GoodEntry(before[k]);
      for i := 0 to TOTAL_NUMBER_OF_TIMERS
        modifies entries
        invariant forall k :: 0 <= k < 3 ==> entries[k] == if k < i then Ticked(before[k]) else before[k]
      {
        var e := entries[i];
        if e.val != 0 {
          entries[i] := entries[i].(val := e.val - 1);
          if e.val == 1 {
            entries[i] := entries[i].(expired := true);
          }
        }
      }
      assert entries[..] == TickedBank(before);
    }

    /** timer_has_timer_expired() */
    method HasExpired(id: TimerId, clear: bool) returns (expired: bool)
      requires Valid()
      modifies entries
      ensures Valid() && State() == Apply(old(State()), Poll(id, clear))
      ensures expired == old(entries[id].expired)
    {
      ghost var before := entries[..];
      assert forall k :: 0 <= k < 3 ==> GoodEntry(before[k]);
      expired := entries[id].expired;
      if expired && clear {
        entries[id] := entries[id].(expired := false);
      }
      assert entries[..] == Apply(before, Poll(id, clear));
    }

    /** timer_start_timer() */
    method StartTimer(id: TimerId, val: uint32)
      requires Valid()
      modifies entries
      ensures Valid() && State() == Apply(old(State()), Start(id, val))
    {
      ghost var before := entries[..];
      assert forall k :: 0 <= k < 3 ==> GoodEntry(before[k]);
      if entries[id].val != val {
        entries[id] := entries[id].(val := val);
        if val == 0 {
          entries[id] := entries[id].(expired := true);
        } else {
          entries[id] := entries[id].(expired := false);
        }
      }
      assert entries[..] == Apply(before, Start(id, val));
    }
  }
}
