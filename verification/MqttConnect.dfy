/** Connection attempts of the MQTT client thread, interleaved at every access of the shared state with
    the library's callbacks and the Wi-Fi notifications. */
module MqttConnect {
  import opened Bytes
  import opened MqttEcho

  /** Where the client thread stands in mqtt_do_connect.  `first` and `second` are what its two tests of
      the state read; the write of CONNECTING and the library call follow. */
  datatype Pc = Idle | Tested(first: Conn) | Passed(first: Conn, second: Conn) | Marked(first: Conn, second: Conn) | Calling

  /** What is recorded: a write of DISCONNECTED, or a library connect call with what the two tests had
      read and what the state is at the call. */
  datatype Act = WroteDisconnected | Called(first: Conn, second: Conn, at: Conn)

  /** `lossPending`: the Wi-Fi listener has seen CONNECTED and will write DISCONNECTED. */
  datatype Sys = Sys(conn: Conn, pc: Pc, lossPending: bool, log: seq<Act>)

  const RESET := Sys(Disconnected, Idle, false, [])

  datatype Event =
    | FirstTest
    | SecondTest
    | WriteConnecting
    | SetupFails
    | Call
    | CallReturns(ok: bool)
    | Accept
    | Reject
    | BrokerDrop
    | LossTest
    | LossWrite

  predicate Enabled(s: Sys, e: Event) {
    match e
    case FirstTest => s.pc.Idle?
    case SecondTest => s.pc.Tested?
    case WriteConnecting => s.pc.Passed?
    case SetupFails => s.pc.Marked?
    case Call => s.pc.Marked?
    case CallReturns(_) => s.pc.Calling?
    case LossWrite => s.lossPending
    case _ => true
  }

  function Dropped(s: Sys): Sys {
    s.(conn := Disconnected, log := s.log + [WroteDisconnected])
  }

  function Step(s: Sys, e: Event): Sys
    requires Enabled(s, e)
  {
    match e
    case FirstTest => if s.conn.Up? then s else s.(pc := Tested(s.conn))
    case SecondTest => if s.conn.Connecting? then s.(pc := Idle) else s.(pc := Passed(s.pc.first, s.conn))
    case WriteConnecting => s.(conn := Connecting, pc := Marked(s.pc.first, s.pc.second))
    case SetupFails => Dropped(s).(pc := Idle)
    case Call => s.(pc := Calling, log := s.log + [Called(s.pc.first, s.pc.second, s.conn)])
    case CallReturns(ok) => if ok then s.(pc := Idle) else Dropped(s).(pc := Idle)
    case Accept => s.(conn := Up)
    case Reject => Dropped(s)
    case BrokerDrop => Dropped(s)
    case LossTest => s.(lossPending := s.lossPending || s.conn.Up?)
    case LossWrite => Dropped(s).(lossPending := false)
  }

  predicate Runs(s: Sys, es: seq<Event>)
    decreases |es|
  {
    es != [] ==> Enabled(s, es[0]) && Runs(Step(s, es[0]), es[1..])
  }

  function Final(s: Sys, es: seq<Event>): Sys
    requires Runs(s, es)
    decreases |es|
  {
    if es == [] then s else Final(Step(s, es[0]), es[1..])
  }

  /** Between any two calls some step wrote DISCONNECTED. */
  ghost predicate Serialised(log: seq<Act>) {
    forall i, j :: 0 <= i < j < |log| && log[i].Called? && log[j].Called? ==>
                     exists m :: i < m < j && log[m].WroteDisconnected?
  }

  /** Two adjacent entries of the log that are both calls: no DISCONNECTED in between. */
  ghost predicate Repeats(log: seq<Act>, i: nat) {
    i + 1 < |log| && log[i].Called? && log[i + 1].Called?
  }

  lemma {:induction false} RunsAppend(s: Sys, a: seq<Event>, b: seq<Event>)
    ensures Runs(s, a + b) <==> Runs(s, a) && Runs(Final(s, a), b)
    ensures Runs(s, a + b) ==> Final(s, a + b) == Final(Final(s, a), b)
    decreases |a|
  {
    if a == [] {
      assert a + b == b;
    } else {
      assert (a + b)[1..] == a[1..] + b;
      if Enabled(s, a[0]) {
        RunsAppend(Step(s, a[0]), a[1..], b);
      }
    }
  }

  lemma SerialisedIff(log: seq<Act>)
    ensures Serialised(log) <==> forall i: nat :: !Repeats(log, i)
  {
    if forall i: nat :: !Repeats(log, i) {
      forall i, j | 0 <= i < j < |log| && log[i].Called? && log[j].Called?
        ensures exists m :: i < m < j && log[m].WroteDisconnected?
      {
        assert !Repeats(log, i);
        assert log[i + 1].WroteDisconnected?;
      }
    }
    if i: nat :| Repeats(log, i) {
      assert log[i].Called? && log[i + 1].Called?;
    }
  }

  // ------------------------------------------------------------------ what a repeated call looks like

  /** A repeated call has one of two causes: DISCONNECTED had been written over the earlier call's own
      CONNECTING before that call was made, or the later one's first test read CONNECTING and its second
      test, after an accepted CONNACK, CONNECTED. */
  ghost predicate Raced(log: seq<Act>, i: nat)
    requires Repeats(log, i)
  {
    log[i].at.Disconnected? || (log[i + 1].first.Connecting? && log[i + 1].second.Up?)
  }

  /** The last recorded thing is a call made while the state was not DISCONNECTED. */
  ghost predicate CleanCallLast(log: seq<Act>) {
    log != [] && log[|log| - 1].Called? && !log[|log| - 1].at.Disconnected?
  }

  ghost predicate Inv(s: Sys) {
    && (CleanCallLast(s.log) ==> !s.conn.Disconnected?)
    && (s.pc.Tested? || s.pc.Passed? || s.pc.Marked? ==>
          !s.pc.first.Up? && (CleanCallLast(s.log) ==> !s.pc.first.Disconnected?))
    && (s.pc.Passed? || s.pc.Marked? ==> CleanCallLast(s.log) ==> s.pc.second.Up?)
    && forall i: nat :: Repeats(s.log, i) ==> Raced(s.log, i)
  }

  lemma StepKeeps(s: Sys, e: Event)
    requires Inv(s) && Enabled(s, e)
    ensures Inv(Step(s, e))
  {
    var t := Step(s, e);
    if t.log != s.log {
      var a := t.log[|t.log| - 1];
      assert t.log == s.log + [a];
      forall i: nat | Repeats(t.log, i)
        ensures Raced(t.log, i)
      {
        assert i + 1 < |s.log| ==> Repeats(s.log, i);
        assert i + 1 == |s.log| ==> s.log[i] == s.log[|s.log| - 1];
      }
    }
  }

  lemma {:induction false} RunKeeps(s: Sys, es: seq<Event>)
    requires Inv(s) && Runs(s, es)
    ensures Inv(Final(s, es))
    decreases |es|
  {
    if es != [] {
      StepKeeps(s, es[0]);
      RunKeeps(Step(s, es[0]), es[1..]);
    }
  }

  /** Over every interleaving, every repeated call bears the mark of one of the two races. */
  lemma CallsSerialisedUnlessRaced(es: seq<Event>, i: nat)
    requires Runs(RESET, es) && Repeats(Final(RESET, es).log, i)
    ensures Raced(Final(RESET, es).log, i)
  {
    RunKeeps(RESET, es);
  }

  // ------------------------------------------------------------------ exactly when calls are serialised

  predicate LastCalled(s: Sys) {
    s.log != [] && s.log[|s.log| - 1].Called?
  }

  /** The two race windows.  DISCONNECTED is written between the write of CONNECTING and the call; or an
      accepted CONNACK arrives between the two tests of an attempt that waits on the call before it. */
  predicate RaceStep(s: Sys, e: Event) {
    || (s.pc.Marked? && (e.Reject? || e.BrokerDrop? || e.LossWrite?))
    || (s.pc.Tested? && e.Accept? && s.conn.Connecting? && LastCalled(s))
  }

  predicate RaceFree(s: Sys, es: seq<Event>)
    requires Runs(s, es)
    decreases |es|
  {
    es != [] ==> !RaceStep(s, es[0]) && RaceFree(Step(s, es[0]), es[1..])
  }

  /** The client thread is on its way to a call that nothing separates from the one before it. */
  predicate Exposed(s: Sys) {
    || (LastCalled(s) && match s.pc
                         case Idle => s.conn.Disconnected?
                         case Calling => s.conn.Disconnected?
                         case Tested(_) => !s.conn.Connecting?
                         case _ => true)
    || (s.pc.Marked? && s.conn.Disconnected?)
  }

  ghost predicate Secure(s: Sys) {
    Serialised(s.log) && !Exposed(s)
  }

  /** One step out of a secure state: no call is repeated, and the race steps are exactly those that
      leave the secure states. */
  lemma RaceStepIff(s: Sys, e: Event)
    requires Secure(s) && Enabled(s, e)
    ensures Serialised(Step(s, e).log)
    ensures Exposed(Step(s, e)) <==> RaceStep(s, e)
  {
    var t := Step(s, e);
    SerialisedIff(s.log);
    SerialisedIff(t.log);
    if t.log != s.log {
      assert t.log == s.log + [t.log[|s.log|]];
      forall i: nat
        ensures !Repeats(t.log, i)
      {
        assert !Repeats(s.log, i);
      }
    }
  }

  lemma {:induction false} RaceFreeStaysSecure(s: Sys, es: seq<Event>)
    requires Secure(s) && Runs(s, es) && RaceFree(s, es)
    ensures Secure(Final(s, es))
    decreases |es|
  {
    if es != [] {
      RaceStepIff(s, es[0]);
      RaceFreeStaysSecure(Step(s, es[0]), es[1..]);
    }
  }

  /** Without a race step, calls are serialised. */
  lemma RaceFreeCallsAreSerialised(es: seq<Event>)
    requires Runs(RESET, es) && RaceFree(RESET, es)
    ensures Serialised(Final(RESET, es).log)
  {
    RaceFreeStaysSecure(RESET, es);
  }

  // ------------------------------------------------------------------ every race can bite

  /** Steps of the client thread. */
  predicate IsClient(e: Event) {
    e.FirstTest? || e.SecondTest? || e.WriteConnecting? || e.SetupFails? || e.Call? || e.CallReturns?
  }

  /** The client thread runs on alone from `s`, by the steps `es`. */
  ghost predicate Alone(s: Sys, es: seq<Event>) {
    Runs(s, es) && forall i :: 0 <= i < |es| ==> IsClient(es[i])
  }

  /** Whatever the client thread does next by itself, its calls stay serialised. */
  ghost predicate Safe(s: Sys) {
    forall es :: Alone(s, es) ==> Serialised(Final(s, es).log)
  }

  lemma RunsCons(s: Sys, e: Event, es: seq<Event>)
    requires Enabled(s, e) && Runs(Step(s, e), es)
    ensures Runs(s, [e] + es) && Final(s, [e] + es) == Final(Step(s, e), es)
  {
    assert ([e] + es)[1..] == es;
  }

  lemma AloneCons(s: Sys, e: Event, es: seq<Event>)
    requires Enabled(s, e) && IsClient(e) && Alone(Step(s, e), es)
    ensures Alone(s, [e] + es) && Final(s, [e] + es) == Final(Step(s, e), es)
  {
    RunsCons(s, e, es);
  }

  /** The client thread's shortest way from where it stands to the next connect call. */
  function ToCall(pc: Pc): seq<Event> {
    match pc
    case Marked(_, _) => [Call]
    case Passed(_, _) => [WriteConnecting] + [Call]
    case Tested(_) => [SecondTest] + ([WriteConnecting] + [Call])
    case Idle => [FirstTest] + ([SecondTest] + ([WriteConnecting] + [Call]))
    case Calling => [CallReturns(true)] + ([FirstTest] + ([SecondTest] + ([WriteConnecting] + [Call])))
  }

  /** That way is open from every state whose tests pass, and adds one call to the log and nothing else. */
  lemma ReachCall(s: Sys)
    requires s.pc.Idle? || s.pc.Calling? ==> s.conn.Disconnected?
    requires s.pc.Tested? ==> !s.conn.Connecting?
    ensures Alone(s, ToCall(s.pc))
    ensures var t := Final(s, ToCall(s.pc));
            && t.pc.Calling? && |t.log| == |s.log| + 1 && t.log[..|s.log|] == s.log && t.log[|s.log|].Called?
            && t.conn == if s.pc.Marked? then s.conn else Connecting
    decreases match s.pc case Marked(_, _) => 0 case Passed(_, _) => 1 case Tested(_) => 2 case Idle => 3 case Calling => 4
  {
    var e := ToCall(s.pc)[0];
    var t := Step(s, e);
    if s.pc.Marked? {
      assert Alone(t, []);
      AloneCons(s, Call, []);
      assert [Call] + [] == [Call];
    } else {
      ReachCall(t);
      AloneCons(s, e, ToCall(t.pc));
      assert ToCall(s.pc) == [e] + ToCall(t.pc);
    }
  }

  /** Two calls in a row: the state is DISCONNECTED already when the first of them is made. */
  function Onwards(s: Sys): seq<Event> {
    if LastCalled(s) then ToCall(s.pc) else [Call] + ToCall(Calling)
  }

  /** From every exposed state the client thread alone repeats a call. */
  lemma ExposedRepeats(s: Sys)
    requires Exposed(s)
    ensures Alone(s, Onwards(s)) && !Serialised(Final(s, Onwards(s)).log)
  {
    if LastCalled(s) {
      ReachCall(s);
      var log := Final(s, ToCall(s.pc)).log;
      assert log[|s.log| - 1] == log[..|s.log|][|s.log| - 1];
      assert Repeats(log, |s.log| - 1);
      SerialisedIff(log);
    } else {
      var t := Step(s, Call);
      ReachCall(t);
      AloneCons(s, Call, ToCall(Calling));
      var log := Final(t, ToCall(Calling)).log;
      assert log[|s.log|] == log[..|t.log|][|s.log|];
      assert Repeats(log, |s.log|);
      SerialisedIff(log);
    }
  }

  lemma {:induction false} AloneIsRaceFree(s: Sys, es: seq<Event>)
    requires Alone(s, es)
    ensures RaceFree(s, es)
    decreases |es|
  {
    if es != [] {
      assert IsClient(es[0]);
      AloneIsRaceFree(Step(s, es[0]), es[1..]);
    }
  }

  /** A state with no repeated call behind it is safe exactly when it is not exposed. */
  lemma SafeIff(s: Sys)
    requires Serialised(s.log)
    ensures Safe(s) <==> !Exposed(s)
  {
    if Exposed(s) {
      ExposedRepeats(s);
    } else {
      forall es | Alone(s, es)
        ensures Serialised(Final(s, es).log)
      {
        AloneIsRaceFree(s, es);
        RaceFreeStaysSecure(s, es);
      }
    }
  }

  /** Every state the run passes through is safe. */
  ghost predicate AlwaysSafe(s: Sys, es: seq<Event>)
    requires Runs(s, es)
    decreases |es|
  {
    Safe(s) && (es != [] ==> AlwaysSafe(Step(s, es[0]), es[1..]))
  }

  lemma {:induction false} AlwaysSafeIff(s: Sys, es: seq<Event>)
    requires Secure(s) && Runs(s, es)
    ensures AlwaysSafe(s, es) <==> RaceFree(s, es)
    decreases |es|
  {
    SafeIff(s);
    if es != [] {
      var t := Step(s, es[0]);
      RaceStepIff(s, es[0]);
      SafeIff(t);
      if !RaceStep(s, es[0]) {
        AlwaysSafeIff(t, es[1..]);
      }
    }
  }

  /** Exactly when connect calls are serialised: throughout a run from reset the client's calls are, and
      would stay, serialised if and only if no step of it is a race step. */
  lemma SerialisedIffRaceFree(es: seq<Event>)
    requires Runs(RESET, es)
    ensures AlwaysSafe(RESET, es) <==> RaceFree(RESET, es)
    ensures RaceFree(RESET, es) ==> Serialised(Final(RESET, es).log)
  {
    AlwaysSafeIff(RESET, es);
    if RaceFree(RESET, es) {
      RaceFreeCallsAreSerialised(es);
    }
  }

  /** The first race step of any run can be carried on, by the client thread alone, to a repeated call. */
  lemma RaceStepBites(es: seq<Event>, e: Event)
    requires Runs(RESET, es) && RaceFree(RESET, es)
    requires Enabled(Final(RESET, es), e) && RaceStep(Final(RESET, es), e)
    ensures var t := Step(Final(RESET, es), e);
            var run := es + ([e] + Onwards(t));
            Runs(RESET, run) && !Serialised(Final(RESET, run).log)
  {
    var s := Final(RESET, es);
    var t := Step(s, e);
    RaceFreeStaysSecure(RESET, es);
    RaceStepIff(s, e);
    ExposedRepeats(t);
    RunsCons(s, e, Onwards(t));
    RunsAppend(RESET, es, [e] + Onwards(t));
  }

  // ------------------------------------------------------------------ both races, from reset

  /** A first attempt up to the write of CONNECTING, and up to the return of its call. */
  const MARK := [FirstTest] + ([SecondTest] + [WriteConnecting])
  const ATTEMPT := ToCall(Idle) + [CallReturns(true)]

  lemma MarkFromReset()
    ensures Runs(RESET, MARK) && RaceFree(RESET, MARK)
    ensures Final(RESET, MARK) == Sys(Connecting, Marked(Disconnected, Disconnected), false, [])
  {
    var s1 := Step(RESET, FirstTest);
    var s2 := Step(s1, SecondTest);
    RunsCons(s2, WriteConnecting, []);
    assert [WriteConnecting] + [] == [WriteConnecting];
    RunsCons(s1, SecondTest, [WriteConnecting]);
    RunsCons(RESET, FirstTest, [SecondTest] + [WriteConnecting]);
    assert Alone(RESET, MARK);
    AloneIsRaceFree(RESET, MARK);
  }

  /** A disconnect callback between the write of CONNECTING and the call: the next attempt finds
      DISCONNECTED although nobody has written it since the call. */
  lemma DropBeforeCall()
    ensures var run := MARK + ([BrokerDrop] + ([Call] + ToCall(Calling)));
            Runs(RESET, run) && !Serialised(Final(RESET, run).log)
  {
    MarkFromReset();
    RaceStepBites(MARK, BrokerDrop);
  }

  lemma AttemptFromReset()
    ensures Runs(RESET, ATTEMPT + [FirstTest]) && RaceFree(RESET, ATTEMPT + [FirstTest])
    ensures var t := Final(RESET, ATTEMPT + [FirstTest]);
            t.conn.Connecting? && t.pc == Tested(Connecting) && LastCalled(t)
  {
    ReachCall(RESET);
    var s := Final(RESET, ToCall(Idle));
    var t := Step(s, CallReturns(true));
    RunsCons(t, FirstTest, []);
    RunsCons(s, CallReturns(true), [FirstTest]);
    assert [FirstTest] + [] == [FirstTest];
    RunsAppend(RESET, ToCall(Idle), [CallReturns(true)] + [FirstTest]);
    assert ATTEMPT + [FirstTest] == ToCall(Idle) + ([CallReturns(true)] + [FirstTest]);
    assert Alone(RESET, ATTEMPT + [FirstTest]);
    AloneIsRaceFree(RESET, ATTEMPT + [FirstTest]);
  }

  /** An accepted CONNACK between the two tests: the second connect call follows the first with no write
      of DISCONNECTED. */
  lemma AcceptBetweenTests()
    ensures var run := (ATTEMPT + [FirstTest]) + ([Accept] + ([SecondTest] + ([WriteConnecting] + [Call])));
            Runs(RESET, run) && !Serialised(Final(RESET, run).log)
  {
    AttemptFromReset();
    RaceStepBites(ATTEMPT + [FirstTest], Accept);
  }

  // ------------------------------------------------------------------ what the state means

  /** The writes of the connection state: CONNECTING before the call, CONNECTED on an accepted CONNACK,
      DISCONNECTED on a failed setup, a failed call, a refusal, a disconnect and a network loss. */
  function Writes(e: Event): Option<Conn> {
    match e
    case WriteConnecting => Some(Connecting)
    case Accept => Some(Up)
    case SetupFails => Some(Disconnected)
    case CallReturns(ok) => if ok then None else Some(Disconnected)
    case Reject => Some(Disconnected)
    case BrokerDrop => Some(Disconnected)
    case LossWrite => Some(Disconnected)
    case _ => None
  }

  function LastWritten(es: seq<Event>): Conn {
    if es == [] then Disconnected
    else if Writes(es[|es| - 1]).Some? then Writes(es[|es| - 1]).value
    else LastWritten(es[..|es| - 1])
  }

  /** What the most recent library call returned. */
  function LastReturn(es: seq<Event>): Option<bool> {
    if es == [] then None
    else if es[|es| - 1].CallReturns? then Some(es[|es| - 1].ok)
    else LastReturn(es[..|es| - 1])
  }

  /** A network loss found the client connected and has not written the state yet. */
  function LossOpen(es: seq<Event>): bool {
    if es == [] then false
    else
      var before, e := es[..|es| - 1], es[|es| - 1];
      if e.LossTest? && LastWritten(before).Up? then true else if e.LossWrite? then false else LossOpen(before)
  }

  /** Over every interleaving from reset the state is what was written last; and a client thread that rests,
      or has only read the state once, while the state is CONNECTING, waits for the answer to a call that
      the library accepted. */
  lemma {:induction false} StateIsLastWritten(es: seq<Event>)
    requires Runs(RESET, es)
    ensures var t := Final(RESET, es);
            && t.conn == LastWritten(es)
            && t.lossPending == LossOpen(es)
            && ((t.pc.Idle? || t.pc.Tested?) && t.conn.Connecting? ==> LastReturn(es) == Some(true))
            && (t.pc.Passed? ==> !t.conn.Connecting?)
    decreases |es|
  {
    if es != [] {
      var before, e := es[..|es| - 1], es[|es| - 1];
      assert es == before + [e];
      RunsAppend(RESET, before, [e]);
      StateIsLastWritten(before);
      LastStep(Final(RESET, before), e);
    }
  }

  lemma LastStep(s: Sys, e: Event)
    requires Runs(s, [e])
    ensures Enabled(s, e) && Final(s, [e]) == Step(s, e)
  {
    assert [e][1..] == [];
  }

  /** Progress: after every failed setup and every failed call DISCONNECTED has been written, and the client
      thread alone reaches another call. */
  lemma FailureFreesClient(s: Sys, e: Event)
    requires Enabled(s, e) && (e.SetupFails? || e == CallReturns(false))
    ensures var t := Step(s, e);
            && t.pc.Idle? && t.conn.Disconnected? && t.log == s.log + [WroteDisconnected]
            && Alone(t, ToCall(Idle))
            && (var u := Final(t, ToCall(Idle)); u.pc.Calling? && |u.log| == |t.log| + 1 && u.log[|t.log|].Called?)
  {
    ReachCall(Step(s, e));
  }

  /** And a network loss that finds the client connected frees it too, whatever the thread is doing. */
  lemma LossFreesClient(s: Sys)
    requires s.conn.Up?
    ensures Runs(s, [LossTest] + [LossWrite])
    ensures var t := Final(s, [LossTest] + [LossWrite]);
            t.conn.Disconnected? && !t.lossPending && t.pc == s.pc && t.log == s.log + [WroteDisconnected]
  {
    var s1 := Step(s, LossTest);
    RunsCons(s1, LossWrite, []);
    assert [LossWrite] + [] == [LossWrite];
    RunsCons(s, LossTest, [LossWrite]);
  }
}
