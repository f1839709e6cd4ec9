/** When the main loop answers a message before it is complete
    (aux_mcu_v2/src/COMMS/comms_main_mcu.c:256-309). */
module EarlyAnswers {
  import opened Wrappers
  import opened EarlyDispatch

  // ---------------------------------------------------------------- the critical section

  /** The bytes counted reach the end of the payload, more than 20 are to come, and the class
      has neither an early answer nor an unhandled message outstanding. */
  predicate Answerable(s: State, m: Message, count: nat, c: Class) {
    && 4 + m[2] + 256 * m[3] <= count < 524
    && !s.answered.Get(c) && !s.received.Get(c)
  }

  /** On every run, in the critical section: the next step of the main loop sets the answered
      flag of the class, and no other, and goes on to answer, if and only if the message can be
      answered; otherwise it goes back to the checks and changes nothing. */
  lemma DecidesIff(events: seq<Event>, count: nat, c: Class, stale: bool)
    requires Valid(events) && Run(events).pc == Picked(count, c)
    ensures var more := events + [Main(stale)]; var s, t := Run(events), Run(more);
            && Valid(more)
            && (Answerable(s, s.temp, count, c) <==> t.pc.Answering?)
            && (Answerable(s, s.temp, count, c) <==> t.answered.Get(c) && !s.answered.Get(c))
            && (forall k :: k != c ==> t.answered.Get(k) == s.answered.Get(k))
            && (!Answerable(s, s.temp, count, c) ==> t == s.(pc := AtCheck(Usb)))
  {
    hide Run, Valid;
    RunIsSteady(events);
    RunNext(events, Main(stale));
  }

  // ---------------------------------------------------------------- a round of the main loop

  predicate OnlyBytes(window: seq<Event>) {
    forall i :: 0 <= i < |window| ==> window[i].ByteIn?
  }

  /** What bytes do: those received before stay. */
  predicate Extends(s: State, t: State, n: nat) {
    && s.n + n <= MESSAGE_SIZE && t.temp[..s.n] == s.temp[..s.n]
    && t == s.(temp := t.temp, n := s.n + n, arrivals := s.arrivals + n)
  }

  lemma ByteExtends(s: State, t: State, n: nat, b: byte)
    requires Extends(s, t, n) && t.n < MESSAGE_SIZE
    ensures Extends(s, OnByte(t, b), n + 1)
  {
  }

  lemma {:induction false} BytesExtend(events: seq<Event>, window: seq<Event>)
    requires Valid(events + window) && OnlyBytes(window) && Run(events).n <= MESSAGE_SIZE
    ensures Valid(events) && Extends(Run(events), Run(events + window), |window|)
  {
    hide Run, Valid;
    if window == [] {
      assert events + window == events;
    } else {
      hide Extends;
      var init, e := window[..|window| - 1], window[|window| - 1];
      assert (events + window)[..|events + window| - 1] == events + init;
      ValidPrefix(events + window);
      BytesExtend(events, init);
      ByteExtends(Run(events), Run(events + init), |init|, e.b);
      assert events + init + [e] == events + window;
    }
  }

  /** At the critical section: what was counted and picked, since the sampling step in s. */
  predicate Picks(s: State, t: State) {
    && t.pc.Picked? && t.answered == s.answered && t.received == s.received && t.log == s.log && t.done == s.done
    && t.pc.count == (if 0 < s.n <= MESSAGE_SIZE || t.pc.count == 0 then s.n else MESSAGE_SIZE)
    && s.n <= t.n <= MESSAGE_SIZE && t.temp[..s.n] == s.temp[..s.n] && (s.n >= 2 ==> t.pc.c == ClassOf(t.temp))
  }

  lemma SamplesThenPicks(s: State, stale: bool, a: nat, mid: State, b: nat, t: State)
    requires s.pc == AtSample && s.n <= MESSAGE_SIZE
    requires Extends(OnMain(s, stale), mid, a) && Extends(OnMain(mid, false), t, b)
    ensures Picks(s, t)
  {
    assert s.n >= 2 ==> mid.temp[0] == mid.temp[..s.n][0] && mid.temp[1] == mid.temp[..s.n][1];
    assert s.n >= 2 ==> t.temp[0] == t.temp[..mid.n][0] && t.temp[1] == t.temp[..mid.n][1];
    assert t.temp[..s.n] == t.temp[..mid.n][..s.n];
  }

  /** The main loop samples and picks the class; bytes arrive in between and behind. */
  lemma RunPicks(events: seq<Event>, stale: bool, a: seq<Event>, b: seq<Event>)
    requires Valid(events) && Run(events).pc == AtSample && OnlyBytes(a) && OnlyBytes(b)
    requires Valid(events + [Main(stale)] + a + [Main(false)] + b)
    ensures Picks(Run(events), Run(events + [Main(stale)] + a + [Main(false)] + b))
  {
    hide Run, Valid, OnlyBytes, Picks, Extends, OnMain;
    var sampled := events + [Main(stale)];
    var mid := sampled + a;
    var picked := mid + [Main(false)];
    var all := picked + b;
    assert all[..|mid|] == mid && all[..|picked|] == picked;
    ValidPrefixes(all, |mid|);
    RunIsSteady(events);
    RunNext(events, Main(stale));
    assert Run(sampled).n <= MESSAGE_SIZE by { RunIsSteady(sampled); }
    BytesExtend(sampled, a);
    RunNext(mid, Main(false));
    assert Run(picked).n <= MESSAGE_SIZE by { RunIsSteady(picked); }
    BytesExtend(picked, b);
    SamplesThenPicks(Run(events), stale, |a|, Run(mid), |b|, Run(all));
  }

  lemma AnswerableSince(s: State, t: State)
    requires Picks(s, t)
    ensures Answerable(t, t.temp, t.pc.count, t.pc.c) <==> Answerable(s, t.temp, s.n, ClassOf(t.temp))
  {
    hide ClassOf;
  }

  lemma ShouldIff(s: State, count: nat, c: Class)
    ensures ShouldAnswer(s, count, c) <==> Answerable(s, s.temp, count, c)
  {
  }

  lemma AnswersIfDecided(picked: seq<Event>)
    requires Valid(picked) && Run(picked).pc.Picked?
    requires Answerable(Run(picked), Run(picked).temp, Run(picked).pc.count, Run(picked).pc.c)
    ensures Valid(picked + [Main(false)])
    ensures var s, t := Run(picked), Run(picked + [Main(false)] + [Main(false)]); var m := s.temp;
            && t.log == s.log + [Dispatch(|s.done|, ClassOf(m), t.copy, true)]
            && t.copy[..4 + PayloadLength(m)] == m[..4 + PayloadLength(m)]
  {
    hide Run, Valid, Answerable, PayloadLength, ClassOf, FirstBytes;
    var s := Run(picked);
    ShouldIff(s, s.pc.count, s.pc.c);
    CopyIsRight(picked, s.pc.count, s.pc.c);
    RunNext(picked, Main(false));
    RunNext(picked + [Main(false)], Main(false));
  }

  /** On every run, a pass of the main loop in which no message completes answers the message in
      flight if and only if the bytes there at its beginning reach the end of the payload and are
      fewer than 524, and the class has neither an early answer nor an unhandled message
      outstanding. The answer is logged with number and class of the message, and sees its type,
      length and payload. */
  lemma PassAnswersIff(events: seq<Event>, stale: bool, a: seq<Event>, b: seq<Event>)
    requires Valid(events) && Run(events).pc == AtSample && OnlyBytes(a) && OnlyBytes(b)
    requires Valid(events + [Main(stale)] + a + [Main(false)] + b)
    ensures var picked := events + [Main(stale)] + a + [Main(false)] + b;
            var s, m := Run(events), Run(picked).temp;
            var decided, t := Run(picked + [Main(false)]), Run(picked + [Main(false)] + [Main(false)]);
            && (Answerable(s, m, s.n, ClassOf(m)) <==> decided.pc.Answering?)
            && (if Answerable(s, m, s.n, ClassOf(m))
                then && t.log == s.log + [Dispatch(|s.done|, ClassOf(m), t.copy, true)]
                     && t.copy[..4 + PayloadLength(m)] == m[..4 + PayloadLength(m)]
                else decided == Run(picked).(pc := AtCheck(Usb)) && decided.log == s.log)
  {
    hide Run, Valid, OnlyBytes, Answerable, PayloadLength, ClassOf;
    var picked := events + [Main(stale)] + a + [Main(false)] + b;
    RunPicks(events, stale, a, b);
    AnswerableSince(Run(events), Run(picked));
    DecidesIff(picked, Run(picked).pc.count, Run(picked).pc.c, false);
    if Answerable(Run(events), Run(picked).temp, Run(events).n, ClassOf(Run(picked).temp)) {
      AnswersIfDecided(picked);
    }
  }

  // ---------------------------------------------------------------- a message answered early

  /** The first k bytes of a message from power-on, and the main loop's checks. */
  function Partly(m: Message, k: nat): seq<Event>
    requires k <= MESSAGE_SIZE
  {
    Arrival(m)[..k] + [Main(false)] + [Main(false)] + [Main(false)]
  }

  lemma ChecksPass(s: State)
    requires s.pc == AtCheck(Usb) && s.received == PerClass(false, false, false)
    ensures Step(Step(Step(s, Main(false)), Main(false)), Main(false)) == s.(pc := AtSample)
  {
  }

  lemma RunPartly(m: Message, k: nat)
    requires k <= MESSAGE_SIZE
    ensures Valid(Partly(m, k)) && Run(Partly(m, k)) == Arriving(START, m, k).(pc := AtSample)
  {
    RunOfNothing();
    assert Valid([]);
    assert Receptive(START);
    var s := Arriving(START, m, k);
    assert s.pc == AtCheck(Usb) && s.received == PerClass(false, false, false);
    hide Run, Valid, Step, Arriving, START, Receptive;
    RunArriving([], m, k);
    var e := Arrival(m)[..k];
    assert [] + e == e;
    RunNext(e, Main(false));
    RunNext(e + [Main(false)], Main(false));
    RunNext(e + [Main(false)] + [Main(false)], Main(false));
    ChecksPass(Run(e));
  }

  lemma SameHead(m: Message, k: nat)
    requires 4 <= k <= MESSAGE_SIZE
    ensures var t := Arriving(START, m, k).temp;
            ClassOf(t) == ClassOf(m) && PayloadLength(t) == PayloadLength(m) && t[..k] == m[..k]
  {
  }

  lemma ClassIs(m: Message)
    ensures ClassOf(m) == if m[0] == 0 && m[1] == 0 then Usb else if m[0] == 1 && m[1] == 0 then Ble else Other
  {
  }

  /** Four more steps of the main loop, at any moment from the end of the payload until fewer
      than 21 bytes are to come, and a message of any class is answered before it is complete. */
  lemma IsAnsweredEarly(m: Message, k: nat)
    requires 4 + PayloadLength(m) <= k < 524
    ensures var events := Partly(m, k) + [Main(false), Main(false), Main(false), Main(false)];
            var s := Run(events);
            && Valid(events) && s.n == k && s.done == [] && |s.log| == 1
            && s.log[0].early && s.log[0].id == 0
            && s.log[0].c == (if m[0] == 0 && m[1] == 0 then Usb else if m[0] == 1 && m[1] == 0 then Ble else Other)
            && s.log[0].bytes[..4 + PayloadLength(m)] == m[..4 + PayloadLength(m)]
  {
    hide Run, Valid, Partly, ClassOf;
    var e, step := Partly(m, k), Main(false);
    RunPartly(m, k);
    SameHead(m, k);
    RunNext(e, step);
    RunNext(e + [step], step);
    assert e + [step] + [] + [step] + [] == e + [step] + [step];
    PassAnswersIff(e, false, [], []);
    var picked := e + [step] + [step];
    RunNext(picked, step);
    RunNext(picked + [step], step);
    assert picked + [step] + [step] == e + [step, step, step, step];
    var n := 4 + PayloadLength(m);
    var t := Run(picked).temp;
    assert t[..n] == t[..k][..n] == m[..k][..n] == m[..n];
    ClassIs(m);
  }
}
