/** The OTA trigger hand-off: any number of notify calls set a flag and give a binary semaphore, one
    thread takes the semaphore and swaps the flags out.  Each atomic access is one step. */
module OtaTriggers {
  import opened Bytes

  datatype Source = Button | Connect

  /** The branches of consume_trigger_context over the swapped-out flag bits. */
  function ContextOf(flags: set<Source>): string {
    if flags == {} then "manual"
    else if Button in flags && Connect in flags then "button+connect"
    else if Button in flags then "button"
    else if Connect in flags then "connect"
    else "manual"
  }

  /** The sources a context string names to whoever reads it in the log. */
  function Named(context: string): set<Source> {
    if context == "button+connect" then {Button, Connect}
    else if context == "button" then {Button}
    else if context == "connect" then {Connect}
    else {}
  }

  lemma ContextNamesFlags(flags: set<Source>)
    ensures Named(ContextOf(flags)) == flags
  {
    forall src: Source
      ensures src in Named(ContextOf(flags)) <==> src in flags
    {
      assert src == Button || src == Connect;
      if flags == {} {
      } else {
        var x :| x in flags;
        assert x == Button || x == Connect;
      }
    }
  }

  /** What has been logged: a flag being set, or a check being started by the consumer. */
  datatype Act = Or(src: Source) | Consume(context: string)

  /** A notify call, remembered by where its OR stands in the log. */
  datatype Call = Call(src: Source, at: nat)

  /** A notify call in flight: after its OR, or after it also read a zero semaphore count. */
  datatype Producer = Ored(call: Call) | SawZero(call: Call)

  /** The consumer: blocked, between take and read of the flags, asleep because that read found a connect
      and no button, or about to swap. */
  datatype Consumer = Blocked | Took(token: Call) | Delaying(token: Call) | Ready(token: Call)

  /** The semaphore's single token remembers the call that gave it. */
  datatype Sys = Sys(flags: set<Source>, sem: Option<Call>, consumer: Consumer, active: map<nat, Producer>,
                     log: seq<Act>, calls: nat, returned: nat, checks: nat)

  const START := Sys({}, None, Blocked, map[], [], 0, 0, 0)

  datatype Event =
    | NotifyOr(id: nat, src: Source)
    | NotifyCount(id: nat)
    | NotifyGive(id: nat)
    | Take
    | Look
    | DelayOver
    | Swap
    | Timeout

  predicate Enabled(s: Sys, e: Event) {
    match e
    case NotifyOr(p, _) => p !in s.active
    case NotifyCount(p) => p in s.active && s.active[p].Ored?
    case NotifyGive(p) => p in s.active && s.active[p].SawZero?
    case Take => s.consumer.Blocked? && s.sem.Some?
    case Look => s.consumer.Took?
    case DelayOver => s.consumer.Delaying?
    case Swap => s.consumer.Ready?
    case Timeout => s.consumer.Blocked? && s.sem.None?
  }

  function Step(s: Sys, e: Event): Sys
    requires Enabled(s, e)
  {
    match e
    case NotifyOr(p, src) =>
      s.(flags := s.flags + {src}, active := s.active[p := Ored(Call(src, |s.log|))],
         log := s.log + [Or(src)], calls := s.calls + 1)
    case NotifyCount(p) =>
      if s.sem.None? then s.(active := s.active[p := SawZero(s.active[p].call)])
      else s.(active := s.active - {p}, returned := s.returned + 1)
    case NotifyGive(p) =>
      s.(sem := if s.sem.None? then Some(s.active[p].call) else s.sem,
         active := s.active - {p}, returned := s.returned + 1)
    case Take => s.(sem := None, consumer := Took(s.sem.value))
    case Look =>
      s.(consumer := if Connect in s.flags && Button !in s.flags then Delaying(s.consumer.token) else Ready(s.consumer.token))
    case DelayOver => s.(consumer := Ready(s.consumer.token))
    case Swap =>
      s.(flags := {}, consumer := Blocked, log := s.log + [Consume(ContextOf(s.flags))], checks := s.checks + 1)
    case Timeout => s
  }

  predicate Runs(s: Sys, es: seq<Event>)
    decreases |es|
  {
    es != [] ==> Enabled(s, es[0]) && Runs(Step(s, es[0]), es[1..])
  }

  function Final(s: Sys, es: seq<Event>): Sys
    requires Runs(s, es)
    decreases |es|
  {
    if es == [] then s else Final(Step(s, es[0]), es[1..])
  }

  // ------------------------------------------------------------------ what the log means

  /** Before index `n`, `src` was set after the last consume. */
  ghost predicate SetSince(log: seq<Act>, n: nat, src: Source)
    requires n <= |log|
  {
    exists j: nat :: j < n && log[j] == Or(src) && forall m :: j < m < n ==> log[m].Or?
  }

  /** The consume at `i` names exactly the sources set since the one before. */
  ghost predicate Attributed(log: seq<Act>, i: nat)
    requires i < |log| && log[i].Consume?
  {
    forall src: Source :: src in Named(log[i].context) <==> SetSince(log, i, src)
  }

  /** The first consume after the OR at `j` is at `i`. */
  ghost predicate Takes(log: seq<Act>, i: nat, j: nat) {
    && j < i < |log| && log[j].Or? && log[i].Consume?
    && forall m :: j < m < i ==> log[m].Or?
  }

  lemma SetSinceStable(log: seq<Act>, a: Act, n: nat, src: Source)
    requires n <= |log|
    ensures SetSince(log + [a], n, src) <==> SetSince(log, n, src)
  {
    var log' := log + [a];
    assert forall m :: 0 <= m < |log| ==> log'[m] == log[m];
    if SetSince(log, n, src) {
      var j: nat :| j < n && log[j] == Or(src) && forall m :: j < m < n ==> log[m].Or?;
      assert log'[j] == Or(src);
    }
    if SetSince(log', n, src) {
      var j: nat :| j < n && log'[j] == Or(src) && forall m :: j < m < n ==> log'[m].Or?;
      assert log[j] == Or(src);
      assert forall m :: j < m < n ==> log[m] == log'[m];
    }
  }

  lemma SetSinceAfter(log: seq<Act>, a: Act, src: Source)
    ensures SetSince(log + [a], |log| + 1, src) <==> a.Or? && (a.src == src || SetSince(log, |log|, src))
  {
    var log', n := log + [a], |log|;
    SetSinceStable(log, a, n, src);
    assert log'[n] == a;
    if a.Or? && a.src != src && SetSince(log', n, src) {
      var j: nat :| j < n && log'[j] == Or(src) && forall m :: j < m < n ==> log'[m].Or?;
      assert forall m :: j < m < n + 1 ==> log'[m].Or?;
    }
    if SetSince(log', n + 1, src) {
      var j: nat :| j < n + 1 && log'[j] == Or(src) && forall m :: j < m < n + 1 ==> log'[m].Or?;
      if j < n {
        assert log'[n].Or?;
        assert forall m :: j < m < n ==> log'[m].Or?;
      }
    }
  }

  /** Some consume after `j` is the first one. */
  lemma {:induction false} FirstConsume(log: seq<Act>, j: nat, n: nat) returns (i: nat)
    requires j < n <= |log| && log[j].Or?
    requires !forall m :: j < m < n ==> log[m].Or?
    ensures i < n && Takes(log, i, j)
    decreases n
  {
    if forall m :: j < m < n - 1 ==> log[m].Or? {
      i := n - 1;
    } else {
      i := FirstConsume(log, j, n - 1);
    }
  }

  /** An OR that is no longer pending was taken by some later consume, the first of which names it. */
  lemma TakenOrPending(log: seq<Act>, j: nat, n: nat)
    requires j < n <= |log| && log[j].Or?
    requires forall i: nat :: i < |log| && log[i].Consume? ==> Attributed(log, i)
    ensures SetSince(log, n, log[j].src)
         || exists i: nat :: i < n && Takes(log, i, j) && log[j].src in Named(log[i].context)
  {
    if !forall m :: j < m < n ==> log[m].Or? {
      var i := FirstConsume(log, j, n);
      assert Attributed(log, i) && SetSince(log, i, log[j].src);
    }
  }

  // ------------------------------------------------------------------ the invariant

  ghost predicate CallLogged(log: seq<Act>, c: Call) {
    c.at < |log| && log[c.at] == Or(c.src)
  }

  ghost predicate LogInv(s: Sys) {
    && (forall src: Source :: src in s.flags <==> SetSince(s.log, |s.log|, src))
    && (forall i: nat :: i < |s.log| && s.log[i].Consume? ==> Attributed(s.log, i))
  }

  ghost predicate TokenInv(s: Sys) {
    && (s.sem.Some? ==> CallLogged(s.log, s.sem.value))
    && (!s.consumer.Blocked? ==> CallLogged(s.log, s.consumer.token))
    && (forall p :: p in s.active ==> CallLogged(s.log, s.active[p].call))
  }

  function One(b: bool): nat {
    if b then 1 else 0
  }

  /** Nothing set is without somebody who will see to it. */
  ghost predicate Covered(s: Sys) {
    s.flags != {} ==> s.sem.Some? || !s.consumer.Blocked? || s.active != map[]
  }

  /** Every give came from a call that returned, and every check from a give. */
  ghost predicate Counted(s: Sys) {
    && s.calls == s.returned + |s.active|
    && s.checks + One(!s.consumer.Blocked?) + One(s.sem.Some?) <= s.returned
  }

  ghost predicate Inv(s: Sys) {
    LogInv(s) && TokenInv(s) && Covered(s) && Counted(s)
  }

  lemma LogAfter(s: Sys, a: Act, flags: set<Source>)
    requires LogInv(s)
    requires flags == if a.Or? then s.flags + {a.src} else {}
    requires a.Consume? ==> Named(a.context) == s.flags
    ensures LogInv(s.(flags := flags, log := s.log + [a]))
  {
    var log' := s.log + [a];
    forall src: Source
      ensures src in flags <==> SetSince(log', |log'|, src)
    {
      SetSinceAfter(s.log, a, src);
    }
    forall i: nat | i < |log'| && log'[i].Consume?
      ensures Attributed(log', i)
    {
      forall src: Source
        ensures src in Named(log'[i].context) <==> SetSince(log', i, src)
      {
        SetSinceStable(s.log, a, i, src);
        if i < |s.log| {
          assert Attributed(s.log, i);
        }
      }
    }
  }

  lemma StepKeepsLog(s: Sys, e: Event)
    requires LogInv(s) && Enabled(s, e)
    ensures LogInv(Step(s, e))
  {
    match e
    case NotifyOr(p, src) => LogAfter(s, Or(src), s.flags + {src});
    case Swap =>
      ContextNamesFlags(s.flags);
      LogAfter(s, Consume(ContextOf(s.flags)), {});
    case _ =>
  }

  lemma StepKeepsTokens(s: Sys, e: Event)
    requires TokenInv(s) && Enabled(s, e)
    ensures TokenInv(Step(s, e))
  {
    assert forall c: Call, a: Act :: CallLogged(s.log, c) ==> CallLogged(s.log + [a], c);
  }

  lemma StepKeepsCounts(s: Sys, e: Event)
    requires Covered(s) && Counted(s) && Enabled(s, e)
    ensures Covered(Step(s, e)) && Counted(Step(s, e))
  {
    match e
    case NotifyOr(p, src) => assert p in Step(s, e).active;
    case NotifyCount(p) =>
      assert p in s.active;
      assert p in s.active[p := SawZero(s.active[p].call)];
    case NotifyGive(p) => assert p in s.active;
    case _ =>
  }

  lemma StepKeeps(s: Sys, e: Event)
    requires Inv(s) && Enabled(s, e)
    ensures Inv(Step(s, e))
  {
    StepKeepsLog(s, e);
    StepKeepsTokens(s, e);
    StepKeepsCounts(s, e);
  }

  lemma {:induction false} RunKeeps(s: Sys, es: seq<Event>)
    requires Inv(s) && Runs(s, es)
    ensures Inv(Final(s, es))
    decreases |es|
  {
    if es != [] {
      StepKeeps(s, es[0]);
      RunKeeps(Step(s, es[0]), es[1..]);
    }
  }

  lemma StartInv()
    ensures Inv(START)
  {
  }

  ghost predicate Reachable(s: Sys) {
    exists es: seq<Event> :: Runs(START, es) && s == Final(START, es)
  }

  lemma ReachableInv(s: Sys)
    requires Reachable(s)
    ensures Inv(s)
  {
    var es: seq<Event> :| Runs(START, es) && s == Final(START, es);
    StartInv();
    RunKeeps(START, es);
  }

  // ------------------------------------------------------------------ results

  predicate Quiescent(s: Sys) {
    s.active == map[] && s.consumer.Blocked? && s.sem.None?
  }

  /** In every reachable state, whatever the interleaving: every consume names exactly the sources set
      since the previous one; a set flag is covered by the token, the consumer or a call in flight; and
      checks never outnumber notify calls. */
  lemma HandOffIsSafe(s: Sys)
    requires Reachable(s)
    ensures forall i: nat :: i < |s.log| && s.log[i].Consume? ==> Attributed(s.log, i)
    ensures Covered(s)
    ensures s.checks <= s.returned <= s.calls
  {
    ReachableInv(s);
  }

  /** No trigger is lost: once everything is quiet, every OR ever performed was taken by the first
      consume after it, and that consume named its source. */
  lemma NoTriggerLost(s: Sys, j: nat)
    requires Reachable(s) && Quiescent(s)
    requires j < |s.log| && s.log[j].Or?
    ensures s.flags == {}
    ensures exists i: nat :: Takes(s.log, i, j) && s.log[j].src in Named(s.log[i].context)
  {
    ReachableInv(s);
    TakenOrPending(s.log, j, |s.log|);
  }

  /** "manual" is reported only when the call whose token was taken had already been served: an
      earlier consume took, and named, its source. */
  lemma ManualMeansAlreadyTaken(s: Sys)
    requires Reachable(s) && s.consumer.Ready? && ContextOf(s.flags) == "manual"
    ensures var c := s.consumer.token;
            && c.at < |s.log| && s.log[c.at] == Or(c.src)
            && exists i: nat :: Takes(s.log, i, c.at) && c.src in Named(s.log[i].context)
  {
    ReachableInv(s);
    ContextNamesFlags(s.flags);
    TakenOrPending(s.log, s.consumer.token.at, |s.log|);
  }

  /** The consumer waits before a check exactly when, since the last check, a connect was notified and no
      button was pressed. */
  lemma DelaysIff(s: Sys)
    requires Reachable(s) && s.consumer.Took?
    ensures Step(s, Look).consumer.Delaying? <==> SetSince(s.log, |s.log|, Connect) && !SetSince(s.log, |s.log|, Button)
  {
    ReachableInv(s);
  }

  /** And the check after such a wait names the connect, whatever else came in the meantime. */
  lemma DelayedCheckNamesConnect(s: Sys)
    requires Reachable(s) && s.consumer.Delaying?
    ensures Connect in Named(ContextOf(s.flags))
    ensures Connect in Named(Step(Step(s, DelayOver), Swap).log[|s.log|].context)
  {
    var es: seq<Event> :| Runs(START, es) && s == Final(START, es);
    DelayKeepsConnect(START, es);
    ContextNamesFlags(s.flags);
  }

  lemma {:induction false} DelayKeepsConnect(s: Sys, es: seq<Event>)
    requires Runs(s, es) && (s.consumer.Delaying? ==> Connect in s.flags)
    ensures var t := Final(s, es); t.consumer.Delaying? ==> Connect in t.flags
    decreases |es|
  {
    if es != [] { DelayKeepsConnect(Step(s, es[0]), es[1..]); }
  }

  /** The rest of the consumer's current round, run alone. */
  function FinishRound(s: Sys): Sys {
    match s.consumer
    case Blocked => s
    case Took(_) =>
      var t := Step(s, Look);
      if t.consumer.Delaying? then Step(Step(t, DelayOver), Swap) else Step(t, Swap)
    case Delaying(_) => Step(Step(s, DelayOver), Swap)
    case Ready(_) => Step(s, Swap)
  }

  lemma RoundEnds(s: Sys)
    ensures var t := FinishRound(s);
            && t.consumer.Blocked? && t.active == s.active && t.sem == s.sem
            && t.flags == if s.consumer.Blocked? then s.flags else {}
  {
  }

  /** The consumer alone finishes the job: with no call in flight, the rest of its current round and at
      most one more round bring every reachable state to rest with no flag left. */
  lemma ConsumerDrains(s: Sys)
    requires Reachable(s) && s.active == map[]
    ensures var t := FinishRound(s);
            && t.consumer.Blocked? && t.active == map[]
            && (t.sem.None? ==> Quiescent(t) && t.flags == {})
            && (t.sem.Some? ==> var u := FinishRound(Step(t, Take)); Quiescent(u) && u.flags == {})
  {
    ReachableInv(s);
    RoundEnds(s);
    var t := FinishRound(s);
    if t.sem.Some? {
      RoundEnds(Step(t, Take));
    }
  }

  // ------------------------------------------------------------------ the calls, run alone

  class Triggers {
    var flags: set<Source>
    var sem: bool

    constructor ()
      ensures flags == {} && !sem
    {
      flags, sem := {}, false;
    }

    /** mflt_ota_triggers_notify_button and mflt_ota_triggers_notify_connected */
    method Notify(src: Source)
      modifies this
      ensures flags == old(flags) + {src} && sem
    {
      flags := flags + {src};
      if !sem {
        sem := true;
      }
    }

    /** consume_trigger_context */
    method ConsumeTriggerContext() returns (context: string)
      modifies this`flags
      ensures flags == {} && Named(context) == old(flags)
    {
      context := ContextOf(flags);
      ContextNamesFlags(flags);
      flags := {};
    }
  }
}
