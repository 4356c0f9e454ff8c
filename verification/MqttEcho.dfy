/** The echo test of the MQTT client: published counter values, returned payloads, the silence
    detector and the test ledger. */
module MqttEcho {
  import opened Words

  const ECHO_TIMEOUT_THRESHOLD: nat := 3

  // ------------------------------------------------------------------ decimal payloads

  function DigitChar(d: nat): char
    requires d < 10
  {
    ("0123456789")[d]
  }

  predicate IsDigit(c: char) {
    '0' <= c <= '9'
  }

  function DigitVal(c: char): nat
    requires IsDigit(c)
  {
    (c - '0') as nat
  }

  /** snprintk("%u") */
  function Decimal(n: nat): string {
    if n < 10 then [DigitChar(n)] else Decimal(n / 10) + [DigitChar(n % 10)]
  }

  predicate IsSpace(c: char) {
    c in {' ', '\t', '\n', '\r', 11 as char, 12 as char}
  }

  function SkipSpaces(s: string): string {
    if s != "" && IsSpace(s[0]) then SkipSpaces(s[1..]) else s
  }

  /** The value of the leading digits, continuing from `acc`. */
  function DigitsValue(s: string, acc: nat): nat {
    if s != "" && IsDigit(s[0]) then DigitsValue(s[1..], 10 * acc + DigitVal(s[0])) else acc
  }

  /** strtoul(s, NULL, 10) with a 32-bit unsigned long: spaces, an optional sign, digits; too large a
      number saturates, a minus sign negates modulo the word. */
  function Strtoul(s: string): (r: nat)
    ensures r < WORD
  {
    var t := SkipSpaces(s);
    var signed := t != "" && (t[0] == '-' || t[0] == '+');
    var v := DigitsValue(if signed then t[1..] else t, 0);
    if v >= WORD then WORD - 1
    else if signed && t[0] == '-' && v != 0 then WORD - v
    else v
  }

  /** on_mqtt_publish copies at most 15 bytes before parsing. */
  function Received(payload: string): nat {
    Strtoul(if |payload| <= 15 then payload else payload[..15])
  }

  lemma {:induction false} DecimalIsDigits(n: nat)
    ensures |Decimal(n)| >= 1
    ensures forall i :: 0 <= i < |Decimal(n)| ==> IsDigit(Decimal(n)[i])
  {
    if n >= 10 { DecimalIsDigits(n / 10); }
  }

  function Pow10(k: nat): (r: nat)
    ensures r >= 1
  {
    if k == 0 then 1 else 10 * Pow10(k - 1)
  }

  lemma {:induction false} DecimalLength(n: nat, k: nat)
    requires k >= 1 && n < Pow10(k)
    ensures |Decimal(n)| <= k
  {
    if n >= 10 {
      assert k >= 2;
      DecimalLength(n / 10, k - 1);
    }
  }

  /** Reading one more digit appends it to the value. */
  lemma {:induction false} DigitsValueAppend(s: string, c: char, acc: nat)
    requires IsDigit(c) && forall i :: 0 <= i < |s| ==> IsDigit(s[i])
    ensures DigitsValue(s + [c], acc) == 10 * DigitsValue(s, acc) + DigitVal(c)
  {
    if s == "" {
      assert s + [c] == [c];
      assert [c][1..] == "";
    } else {
      assert (s + [c])[1..] == s[1..] + [c];
      DigitsValueAppend(s[1..], c, 10 * acc + DigitVal(s[0]));
    }
  }

  lemma {:induction false} DigitsValueOfDecimal(n: nat)
    ensures DigitsValue(Decimal(n), 0) == n
  {
    if n < 10 {
      assert [DigitChar(n)][1..] == "";
    } else {
      DigitsValueOfDecimal(n / 10);
      DecimalIsDigits(n / 10);
      DigitsValueAppend(Decimal(n / 10), DigitChar(n % 10), 0);
    }
  }

  /** A published counter comes back as itself: it fits the copy buffer and parses to its own value. */
  lemma EchoRoundTrip(n: nat)
    requires n < WORD
    ensures Received(Decimal(n)) == n
  {
    assert Pow10(5) == 100000;
    assert Pow10(10) == 100000 * Pow10(5) by {
      assert Pow10(7) == 100 * Pow10(5);
    }
    DecimalLength(n, 10);
    DecimalIsDigits(n);
    DigitsValueOfDecimal(n);
    var t := Decimal(n);
    assert IsDigit(t[0]);
    assert SkipSpaces(t) == t;
  }

  lemma {:induction false} SkipSpacesOf(ws: string, s: string)
    requires forall i :: 0 <= i < |ws| ==> IsSpace(ws[i])
    requires s == "" || !IsSpace(s[0])
    ensures SkipSpaces(ws + s) == s
  {
    if ws == "" {
      assert ws + s == s;
    } else {
      assert (ws + s)[1..] == ws[1..] + s;
      SkipSpacesOf(ws[1..], s);
    }
  }

  /** Digits are read up to the first character that is none. */
  lemma {:induction false} DigitsValueStops(ds: string, rest: string, acc: nat)
    requires forall i :: 0 <= i < |ds| ==> IsDigit(ds[i])
    requires rest == "" || !IsDigit(rest[0])
    ensures DigitsValue(ds + rest, acc) == DigitsValue(ds, acc)
  {
    if ds == "" {
      assert ds + rest == rest;
    } else {
      assert (ds + rest)[1..] == ds[1..] + rest;
      DigitsValueStops(ds[1..], rest, 10 * acc + DigitVal(ds[0]));
    }
  }

  /** How any payload with a number in it is read: blanks before it and anything after it are ignored, a
      minus sign negates on 32 bits, and a number that does not fit saturates. */
  lemma StrtoulReads(ws: string, sign: string, n: nat, rest: string)
    requires forall i :: 0 <= i < |ws| ==> IsSpace(ws[i])
    requires sign == "" || sign == "+" || sign == "-"
    requires rest == "" || !IsDigit(rest[0])
    ensures Strtoul(ws + (sign + (Decimal(n) + rest)))
         == if n >= WORD then WORD - 1 else if sign == "-" then (WORD - n) % WORD else n
  {
    DecimalIsDigits(n);
    DigitsValueOfDecimal(n);
    var number := Decimal(n) + rest;
    assert number[0] == Decimal(n)[0];
    DigitsValueStops(Decimal(n), rest, 0);
    SkipSpacesOf(ws, sign + number);
    if sign == "" {
      assert sign + number == number;
    } else {
      assert (sign + number)[0] == sign[0] && (sign + number)[1..] == number;
    }
  }

  /** Only the first 15 bytes of a payload count. */
  lemma OnlyFifteenBytes(p: string, q: string)
    requires |p| >= 15 && |q| >= 15 && p[..15] == q[..15]
    ensures Received(p) == Received(q) == Strtoul(p[..15])
  {
    assert |p| == 15 ==> p[..15] == p;
    assert |q| == 15 ==> q[..15] == q;
  }

  // ------------------------------------------------------------------ the client's variables

  datatype Conn = Disconnected | Connecting | Up

  /** Where the client thread stands in mqtt_publish_message: past the two tests, past the increment of
      the message count, past the successful hand-over to the library. */
  datatype Phase = Resting | Admitted | Counted | HandedOver

  datatype Client = Client(conn: Conn, networkReady: bool, seenNetwork: bool,
                           messageCount: nat, echoTotal: nat, echoFailures: nat,
                           lastPublished: nat, lastEchoAt: nat, phase: Phase)

  const START := Client(Disconnected, false, false, 0, 0, 0, 0, 0, Resting)

  /** A counted message whose fate is still open. */
  predicate Busy(c: Client) {
    c.phase.Counted? || c.phase.HandedOver?
  }

  /** Callbacks run on the library's thread and may come between any two steps of a publish.  A publish
      step out of turn does nothing. */
  datatype Event =
    | Connack(accepted: bool)
    | BrokerDisconnect
    | ConnectBegins
    | NetUp
    | NetDown
    | Echo(payload: string)
    | Suback(ok: bool)
    | PublishTests
    | CountMessage
    | PublishReturns(sent: bool)
    | SilenceTest
    | IntervalMissed

  /** What an event amounts to for the test. */
  datatype Mark = Echoed(mismatch: bool) | Attempted | Handed | PublishFailed | Judged(timeout: bool) | SubFailed | Missed | Other

  predicate IsMismatch(c: Client, payload: string) {
    c.lastPublished != 0 && Received(payload) != c.lastPublished
  }

  predicate CanPublish(c: Client) {
    c.networkReady && c.conn.Up?
  }

  /** The silence detector: an unsigned 32-bit difference. */
  predicate TimesOut(c: Client) {
    c.messageCount > ECHO_TIMEOUT_THRESHOLD
    && (c.messageCount + WORD - c.lastEchoAt) % WORD == ECHO_TIMEOUT_THRESHOLD
  }

  function MarkOf(c: Client, e: Event): Mark {
    match e
    case Echo(p) => Echoed(IsMismatch(c, p))
    case Suback(ok) => if ok then Other else SubFailed
    case CountMessage => if c.phase.Admitted? then Attempted else Other
    case PublishReturns(sent) => if !c.phase.Counted? then Other else if sent then Handed else PublishFailed
    case SilenceTest => if c.phase.HandedOver? then Judged(TimesOut(c)) else Other
    case IntervalMissed => if c.seenNetwork then Missed else Other
    case _ => Other
  }

  function Step(c: Client, e: Event): Client {
    match e
    case Connack(accepted) => c.(conn := if accepted then Up else Disconnected)
    case BrokerDisconnect => c.(conn := Disconnected)
    case ConnectBegins => c.(conn := Connecting)
    case NetUp => if c.networkReady then c else c.(networkReady := true, seenNetwork := true)
    case NetDown => c.(networkReady := false, conn := if c.conn.Up? then Disconnected else c.conn)
    case Echo(p) =>
      c.(echoTotal := Inc(c.echoTotal), lastEchoAt := c.messageCount,
         echoFailures := if IsMismatch(c, p) then Inc(c.echoFailures) else c.echoFailures)
    case Suback(ok) => if ok then c else c.(echoFailures := Inc(c.echoFailures))
    case PublishTests => if c.phase.Resting? && CanPublish(c) then c.(phase := Admitted) else c
    case CountMessage =>
      if c.phase.Admitted? then c.(messageCount := Inc(c.messageCount), phase := Counted) else c
    case PublishReturns(sent) =>
      if !c.phase.Counted? then c
      else if sent then c.(lastPublished := c.messageCount, phase := HandedOver)
      else c.(echoFailures := Inc(c.echoFailures), phase := Resting)
    case SilenceTest =>
      if !c.phase.HandedOver? then c
      else c.(echoFailures := if TimesOut(c) then Inc(c.echoFailures) else c.echoFailures, phase := Resting)
    case IntervalMissed =>
      if c.seenNetwork then c.(echoTotal := Inc(c.echoTotal), echoFailures := Inc(c.echoFailures)) else c
  }

  predicate IsTest(m: Mark) {
    m.Echoed? || m.Missed?
  }

  predicate IsFailure(m: Mark) {
    m == Echoed(true) || m == Judged(true) || m.PublishFailed? || m.SubFailed? || m.Missed?
  }

  predicate IsAttempt(m: Mark) {
    m.Attempted?
  }

  /** How the counters move with a mark. */
  ghost predicate Moves(c: Client, d: Client, m: Mark) {
    && d.echoTotal == (if IsTest(m) then Inc(c.echoTotal) else c.echoTotal)
    && d.echoFailures == (if IsFailure(m) then Inc(c.echoFailures) else c.echoFailures)
    && d.messageCount == (if IsAttempt(m) then Inc(c.messageCount) else c.messageCount)
    && d.lastEchoAt == (if m.Echoed? then c.messageCount else c.lastEchoAt)
    && d.lastPublished == (if m.Handed? then c.messageCount else c.lastPublished)
    && (m.Judged? ==> m.timeout == TimesOut(c) && Busy(c) && !Busy(d))
    && (Busy(d) ==> Busy(c) || IsAttempt(m))
  }

  lemma StepMoves(c: Client, e: Event)
    ensures Moves(c, Step(c, e), MarkOf(c, e))
  {
  }

  /** The variables and the marks after a run from reset. */
  function State(es: seq<Event>): Client {
    if es == [] then START else Step(State(es[..|es| - 1]), es[|es| - 1])
  }

  function Marks(es: seq<Event>): (ms: seq<Mark>)
    ensures |ms| == |es|
  {
    if es == [] then [] else Marks(es[..|es| - 1]) + [MarkOf(State(es[..|es| - 1]), es[|es| - 1])]
  }

  lemma {:induction false} MarksAt(es: seq<Event>, i: nat)
    requires i < |es|
    ensures Marks(es)[i] == MarkOf(State(es[..i]), es[i])
    ensures Marks(es)[..i] == Marks(es[..i])
  {
    var n := |es| - 1;
    if i < n {
      MarksAt(es[..n], i);
      assert es[..n][..i] == es[..i];
      assert Marks(es)[..i] == Marks(es[..n])[..i];
    } else {
      assert Marks(es)[..n] == Marks(es[..n]);
    }
  }

  // ------------------------------------------------------------------ what the flags mean

  /** Something of the kind `on` happened, and nothing of the kind `off` since. */
  ghost predicate Since(es: seq<Event>, on: Event -> bool, off: Event -> bool) {
    exists i: nat :: i < |es| && on(es[i]) && forall j :: i < j < |es| ==> !off(es[j])
  }

  lemma SinceAfter(es: seq<Event>, on: Event -> bool, off: Event -> bool)
    requires es != []
    ensures var n := |es| - 1;
            Since(es, on, off) <==> on(es[n]) || (Since(es[..n], on, off) && !off(es[n]))
  {
    var n := |es| - 1;
    var before := es[..n];
    if Since(before, on, off) && !off(es[n]) {
      var i: nat :| i < n && on(before[i]) && forall j :: i < j < n ==> !off(before[j]);
      assert on(es[i]) && forall j :: i < j < n ==> !off(es[j]) by {
        assert forall j :: i <= j < n ==> es[j] == before[j];
      }
    }
    if Since(es, on, off) && !on(es[n]) {
      var i: nat :| i < |es| && on(es[i]) && forall j :: i < j < |es| ==> !off(es[j]);
      assert on(before[i]) && forall j :: i < j < n ==> !off(before[j]);
    }
  }

  /** The broker accepted a connection and nothing has ended it. */
  ghost predicate IsUp(es: seq<Event>) {
    Since(es, (e: Event) => e == Connack(true),
          (e: Event) => e == Connack(false) || e.BrokerDisconnect? || e.ConnectBegins? || e.NetDown?)
  }

  /** A connection was begun and neither answered nor ended; a network loss leaves it. */
  ghost predicate IsConnecting(es: seq<Event>) {
    Since(es, (e: Event) => e.ConnectBegins?, (e: Event) => e.Connack? || e.BrokerDisconnect?)
  }

  ghost predicate IsReady(es: seq<Event>) {
    Since(es, (e: Event) => e.NetUp?, (e: Event) => e.NetDown?)
  }

  ghost predicate WasReady(es: seq<Event>) {
    Since(es, (e: Event) => e.NetUp?, (e: Event) => false)
  }

  /** Over every run the connection state is what the last callbacks and notifications made of it. */
  lemma {:induction false} StateFollows(es: seq<Event>)
    ensures State(es).conn.Up? == IsUp(es)
    ensures State(es).conn.Connecting? == IsConnecting(es)
  {
    if es != [] {
      StateFollows(es[..|es| - 1]);
      SinceAfter(es, (e: Event) => e == Connack(true),
                 (e: Event) => e == Connack(false) || e.BrokerDisconnect? || e.ConnectBegins? || e.NetDown?);
      SinceAfter(es, (e: Event) => e.ConnectBegins?, (e: Event) => e.Connack? || e.BrokerDisconnect?);
    }
  }

  /** And so are the network flags. */
  lemma {:induction false} NetworkFollows(es: seq<Event>)
    ensures State(es).networkReady == IsReady(es)
    ensures State(es).seenNetwork == WasReady(es)
    ensures State(es).networkReady ==> State(es).seenNetwork
  {
    if es != [] {
      NetworkFollows(es[..|es| - 1]);
      SinceAfter(es, (e: Event) => e.NetUp?, (e: Event) => e.NetDown?);
      SinceAfter(es, (e: Event) => e.NetUp?, (e: Event) => false);
    }
  }

  /** What a mark stands for, in terms of the event: every echo, every refused subscription, every missed
      interval once the network was seen, and no other event, is marked as one. */
  ghost predicate MarkMeans(m: Mark, e: Event, seen: bool) {
    && (m.Echoed? <==> e.Echo?)
    && (m.SubFailed? <==> e == Suback(false))
    && (m.Missed? <==> e.IntervalMissed? && seen)
    && (m.Attempted? ==> e.CountMessage?)
    && (m.Handed? ==> e == PublishReturns(true))
    && (m.PublishFailed? ==> e == PublishReturns(false))
    && (m.Judged? ==> e.SilenceTest?)
  }

  lemma MarkOfMeans(c: Client, e: Event)
    ensures MarkMeans(MarkOf(c, e), e, c.seenNetwork)
  {
  }

  lemma MarksMean(es: seq<Event>, i: nat)
    requires i < |es|
    ensures MarkMeans(Marks(es)[i], es[i], WasReady(es[..i]))
  {
    MarksAt(es, i);
    MarkOfMeans(State(es[..i]), es[i]);
    NetworkFollows(es[..i]);
  }

  // ------------------------------------------------------------------ the ledger

  function One(b: bool): nat {
    if b then 1 else 0
  }

  function Echoes(ms: seq<Mark>): nat {
    if ms == [] then 0 else Echoes(ms[..|ms| - 1]) + One(ms[|ms| - 1].Echoed?)
  }

  function Mismatches(ms: seq<Mark>): nat {
    if ms == [] then 0 else Mismatches(ms[..|ms| - 1]) + One(ms[|ms| - 1] == Echoed(true))
  }

  function Misses(ms: seq<Mark>): nat {
    if ms == [] then 0 else Misses(ms[..|ms| - 1]) + One(ms[|ms| - 1].Missed?)
  }

  function Timeouts(ms: seq<Mark>): nat {
    if ms == [] then 0 else Timeouts(ms[..|ms| - 1]) + One(ms[|ms| - 1] == Judged(true))
  }

  function SendErrors(ms: seq<Mark>): nat {
    if ms == [] then 0 else SendErrors(ms[..|ms| - 1]) + One(ms[|ms| - 1].PublishFailed? || ms[|ms| - 1].SubFailed?)
  }

  function Publishes(ms: seq<Mark>): nat {
    if ms == [] then 0
    else Publishes(ms[..|ms| - 1]) + One(IsAttempt(ms[|ms| - 1]))
  }

  function Tests(ms: seq<Mark>): nat {
    Echoes(ms) + Misses(ms)
  }

  function Failures(ms: seq<Mark>): nat {
    Mismatches(ms) + Misses(ms) + SendErrors(ms) + Timeouts(ms)
  }

  lemma TalliesAfter(ms: seq<Mark>, m: Mark)
    ensures Tests(ms + [m]) == Tests(ms) + One(IsTest(m))
    ensures Failures(ms + [m]) == Failures(ms) + One(IsFailure(m))
    ensures Publishes(ms + [m]) == Publishes(ms) + One(IsAttempt(m))
    ensures Timeouts(ms + [m]) == Timeouts(ms) + One(m == Judged(true))
    ensures PublishesAtLastEcho(ms + [m]) == if m.Echoed? then Publishes(ms) else PublishesAtLastEcho(ms)
    ensures LastHanded(ms + [m]) == if m.Handed? then Publishes(ms) else LastHanded(ms)
  {
    assert (ms + [m])[..|ms|] == ms;
  }

  ghost predicate Balanced(c: Client, ms: seq<Mark>) {
    && c.echoTotal == Tests(ms) % WORD
    && c.echoFailures == Failures(ms) % WORD
    && c.messageCount == Publishes(ms) % WORD
  }

  lemma BalanceMoves(c: Client, d: Client, ms: seq<Mark>, m: Mark)
    requires Balanced(c, ms) && Moves(c, d, m)
    ensures Balanced(d, ms + [m])
  {
    TalliesAfter(ms, m);
    IncMod(Tests(ms));
    IncMod(Failures(ms));
    IncMod(Publishes(ms));
  }

  /** Over every run: the counters are exactly the sums of what happened, modulo the word: total is
      echoes plus missed intervals, failures are mismatches plus missed intervals plus send and
      subscription errors plus timeouts. */
  lemma {:induction false} Ledger(es: seq<Event>)
    ensures Balanced(State(es), Marks(es))
  {
    if es != [] {
      var es', e := es[..|es| - 1], es[|es| - 1];
      Ledger(es');
      StepMoves(State(es'), e);
      BalanceMoves(State(es'), State(es), Marks(es'), MarkOf(State(es'), e));
    }
  }

  lemma {:induction false} MismatchesAmongEchoes(ms: seq<Mark>)
    ensures Mismatches(ms) <= Echoes(ms)
  {
    if ms != [] { MismatchesAmongEchoes(ms[..|ms| - 1]); }
  }

  /** The reported score. */
  function Score(c: Client): nat {
    (c.echoTotal - c.echoFailures) % WORD
  }

  function Matches(ms: seq<Mark>): int {
    Echoes(ms) - Mismatches(ms)
  }

  function Unscored(ms: seq<Mark>): nat {
    SendErrors(ms) + Timeouts(ms)
  }

  lemma ScoreOf(c: Client, ms: seq<Mark>)
    requires Balanced(c, ms)
    ensures Score(c) == Matches(ms) % WORD <==> Unscored(ms) % WORD == 0
  {
    ScoreMod(Tests(ms), Failures(ms), Matches(ms), Unscored(ms));
  }

  /** The reported score, total minus failures, is the number of matched echoes if and only if send
      errors and timeouts cancel out of the word. */
  lemma ScoreIsMatchesIff(es: seq<Event>)
    ensures Matches(Marks(es)) >= 0
    ensures Score(State(es)) == Matches(Marks(es)) % WORD <==> Unscored(Marks(es)) % WORD == 0
  {
    Ledger(es);
    MismatchesAmongEchoes(Marks(es));
    ScoreOf(State(es), Marks(es));
  }

  lemma ScoreMod(t: nat, f: nat, d: int, x: nat)
    requires t - f == d - x
    ensures (t % WORD - f % WORD) % WORD == d % WORD <==> x % WORD == 0
  {
    ModDifference(t, f);
    ModShift(d, x);
  }

  lemma ModShift(d: int, x: nat)
    ensures (d - x) % WORD == d % WORD <==> x % WORD == 0
  {
    if x % WORD == 0 {
      assert d - x == d - WORD * (x / WORD);
    }
    if (d - x) % WORD == d % WORD {
      assert x == WORD * (d / WORD - (d - x) / WORD);
    }
  }

  lemma FailuresCanExceedTotal()
    ensures var c := State([Suback(false)]); c.echoFailures > c.echoTotal
  {
    assert [Suback(false)][..0] == [];
  }

  // ------------------------------------------------------------------ echo values

  /** An echo of the number `n` is a mismatch exactly when something else was published last. */
  lemma MismatchIff(c: Client, n: nat)
    requires n < WORD
    ensures MarkOf(c, Echo(Decimal(n))) == Echoed(c.lastPublished != 0 && c.lastPublished != n)
  {
    EchoRoundTrip(n);
  }

  /** A run whose echoes each carry the number published last counts no mismatch. */
  lemma {:induction false} PromptEchoesMatch(es: seq<Event>)
    requires forall i :: 0 <= i < |es| && es[i].Echo? ==> es[i].payload == Decimal(State(es[..i]).lastPublished)
    ensures Mismatches(Marks(es)) == 0
  {
    if es != [] {
      var n := |es| - 1;
      forall i | 0 <= i < n && es[..n][i].Echo?
        ensures es[..n][i].payload == Decimal(State(es[..n][..i]).lastPublished)
      {
        assert es[..n][..i] == es[..i];
      }
      PromptEchoesMatch(es[..n]);
      LastPublishedFits(es[..n]);
      assert Marks(es)[..n] == Marks(es[..n]);
      if es[n].Echo? {
        MismatchIff(State(es[..n]), State(es[..n]).lastPublished);
      }
    }
  }

  lemma {:induction false} LastPublishedFits(es: seq<Event>)
    ensures State(es).lastPublished < WORD && State(es).messageCount < WORD && State(es).lastEchoAt < WORD
  {
    if es != [] { LastPublishedFits(es[..|es| - 1]); }
  }

  // ------------------------------------------------------------------ silence

  /** The number of publish attempts made before the most recent echo, zero if there was none. */
  function PublishesAtLastEcho(ms: seq<Mark>): nat {
    if ms == [] then 0
    else if ms[|ms| - 1].Echoed? then Publishes(ms[..|ms| - 1])
    else PublishesAtLastEcho(ms[..|ms| - 1])
  }

  lemma {:induction false} LastEchoBound(ms: seq<Mark>)
    ensures PublishesAtLastEcho(ms) <= Publishes(ms)
  {
    if ms != [] { LastEchoBound(ms[..|ms| - 1]); }
  }

  /** The number of the message handed over most recently, zero if there was none. */
  function LastHanded(ms: seq<Mark>): nat {
    if ms == [] then 0
    else if ms[|ms| - 1].Handed? then Publishes(ms[..|ms| - 1])
    else LastHanded(ms[..|ms| - 1])
  }

  ghost predicate Tracked(c: Client, ms: seq<Mark>) {
    c.messageCount == Publishes(ms) && c.lastEchoAt == PublishesAtLastEcho(ms) && c.lastPublished == LastHanded(ms)
  }

  lemma TrackMoves(c: Client, d: Client, ms: seq<Mark>, m: Mark)
    requires Tracked(c, ms) && Moves(c, d, m) && Publishes(ms + [m]) < WORD
    ensures Tracked(d, ms + [m])
  {
    TalliesAfter(ms, m);
  }

  /** Without counter wrap the two message counters are the tallies themselves. */
  lemma {:induction false} LastEchoTracked(es: seq<Event>)
    requires Publishes(Marks(es)) < WORD
    ensures Tracked(State(es), Marks(es))
  {
    if es != [] {
      var es', e := es[..|es| - 1], es[|es| - 1];
      TalliesAfter(Marks(es'), MarkOf(State(es'), e));
      LastEchoTracked(es');
      StepMoves(State(es'), e);
      TrackMoves(State(es'), State(es), Marks(es'), MarkOf(State(es'), e));
    }
  }

  /** The echo of the newest message counts as a mismatch exactly when an earlier message was handed over
      and the newest one has not been, because its publish failed or has not returned yet. */
  lemma FreshEchoIff(es: seq<Event>)
    requires Publishes(Marks(es)) < WORD
    ensures MarkOf(State(es), Echo(Decimal(State(es).messageCount)))
         == Echoed(0 < LastHanded(Marks(es)) != Publishes(Marks(es)))
  {
    LastEchoTracked(es);
    MismatchIff(State(es), State(es).messageCount);
  }

  lemma StateAfter(es: seq<Event>, e: Event)
    ensures State(es + [e]) == Step(State(es), e)
  {
    assert (es + [e])[..|es|] == es;
  }

  /** A connected client that publishes one message and has counted, but not yet handed over, the second. */
  const FIRST_PUBLISHED := [NetUp] + [Connack(true)] + [PublishTests] + [CountMessage] + [PublishReturns(true)]
  const SECOND_COUNTED := FIRST_PUBLISHED + [SilenceTest] + [PublishTests] + [CountMessage]

  lemma FirstPublished()
    ensures State(FIRST_PUBLISHED) == Client(Up, true, true, 1, 0, 0, 1, 0, HandedOver)
  {
    StateAfter([], NetUp);
    assert [] + [NetUp] == [NetUp];
    StateAfter([NetUp], Connack(true));
    StateAfter([NetUp] + [Connack(true)], PublishTests);
    StateAfter([NetUp] + [Connack(true)] + [PublishTests], CountMessage);
    StateAfter([NetUp] + [Connack(true)] + [PublishTests] + [CountMessage], PublishReturns(true));
  }

  /** So a true echo that overtakes the return of its own publish is counted as a failure: the run above,
      followed by the echo of message 2. */
  lemma EarlyEchoMismatches()
    ensures State(SECOND_COUNTED) == Client(Up, true, true, 2, 0, 0, 1, 0, Counted)
    ensures MarkOf(State(SECOND_COUNTED), Echo(Decimal(2))) == Echoed(true)
  {
    FirstPublished();
    StateAfter(FIRST_PUBLISHED, SilenceTest);
    StateAfter(FIRST_PUBLISHED + [SilenceTest], PublishTests);
    StateAfter(FIRST_PUBLISHED + [SilenceTest] + [PublishTests], CountMessage);
    MismatchIff(State(SECOND_COUNTED), 2);
  }

  /** The wrapped comparison is the plain one while the counters have not wrapped. */
  lemma TimesOutIff(c: Client)
    requires c.lastEchoAt <= c.messageCount < WORD
    ensures TimesOut(c) <==> c.messageCount == c.lastEchoAt + 3 && c.lastEchoAt >= 1
  {
    var d := c.messageCount - c.lastEchoAt;
    assert (d + WORD) % WORD == d;
  }

  /** Index `p` is the most recent echo before `i`. */
  ghost predicate LastEchoBefore(ms: seq<Mark>, p: nat, i: nat)
    requires i <= |ms|
  {
    p < i && ms[p].Echoed? && forall m :: p < m < i ==> !ms[m].Echoed?
  }

  /** The recursive count agrees with any most recent echo, and is zero if there is none. */
  lemma {:induction false} LastEchoIndex(ms: seq<Mark>, p: nat)
    requires LastEchoBefore(ms, p, |ms|)
    ensures PublishesAtLastEcho(ms) == Publishes(ms[..p])
  {
    var n := |ms| - 1;
    if p < n {
      assert forall m :: 0 <= m < n ==> ms[m] == ms[..n][m];
      LastEchoIndex(ms[..n], p);
      assert ms[..n][..p] == ms[..p];
    }
  }

  lemma {:induction false} LastEchoExists(ms: seq<Mark>)
    requires PublishesAtLastEcho(ms) > 0
    ensures exists p: nat :: LastEchoBefore(ms, p, |ms|)
  {
    var n := |ms| - 1;
    if ms[n].Echoed? {
      assert LastEchoBefore(ms, n, |ms|);
    } else {
      LastEchoExists(ms[..n]);
      var p: nat :| LastEchoBefore(ms[..n], p, n);
      assert forall m :: 0 <= m < n ==> ms[m] == ms[..n][m];
      assert LastEchoBefore(ms, p, |ms|);
    }
  }

  /** The timeout, exactly, in any run without counter wrap and wherever the callbacks land: the test after
      a successful publish counts one if and only if three attempts were made since the most recent echo
      and some attempt preceded that echo.  So it never fires before the first echo, nor in an episode
      whose third attempt failed, nor when an echo arrives while the third message is being sent. */
  lemma TimeoutIff(es: seq<Event>, i: nat)
    requires i < |es| && Publishes(Marks(es)) < WORD
    requires Marks(es)[i].Judged?
    ensures Marks(es)[i].timeout <==>
            exists p: nat :: && LastEchoBefore(Marks(es), p, i)
                             && Publishes(Marks(es)[..i]) == Publishes(Marks(es)[..p]) + 3
                             && Publishes(Marks(es)[..p]) >= 1
  {
    var c := BeforeTest(es, i);
    TimeoutOnMarks(c, Marks(es), i);
  }

  lemma TimeoutOnMarks(c: Client, ms: seq<Mark>, i: nat)
    requires i < |ms| && Publishes(ms[..i]) < WORD && ms[i].Judged?
    requires Tracked(c, ms[..i]) && ms[i].timeout == TimesOut(c)
    ensures ms[i].timeout <==>
            exists p: nat :: && LastEchoBefore(ms, p, i)
                             && Publishes(ms[..i]) == Publishes(ms[..p]) + 3
                             && Publishes(ms[..p]) >= 1
  {
    TimesOutByTally(c, ms[..i]);
    ThirdSinceEcho(ms, i);
  }

  /** The variables just before a silence test, tied to the marks up to there. */
  lemma BeforeTest(es: seq<Event>, i: nat) returns (c: Client)
    requires i < |es| && Publishes(Marks(es)) < WORD
    requires Marks(es)[i].Judged?
    ensures Tracked(c, Marks(es)[..i]) && Marks(es)[i].timeout == TimesOut(c)
    ensures Publishes(Marks(es)[..i]) < WORD
  {
    c := State(es[..i]);
    MarksAt(es, i);
    StepMoves(c, es[i]);
    PublishesMonotone(Marks(es), i);
    LastEchoTracked(es[..i]);
  }

  lemma TimesOutByTally(c: Client, pre: seq<Mark>)
    requires Tracked(c, pre) && Publishes(pre) < WORD
    ensures TimesOut(c) <==> Publishes(pre) == PublishesAtLastEcho(pre) + 3 && PublishesAtLastEcho(pre) >= 1
  {
    LastEchoBound(pre);
    TimesOutIff(c);
  }

  lemma ThirdSinceEcho(ms: seq<Mark>, i: nat)
    requires i <= |ms|
    ensures Publishes(ms[..i]) == PublishesAtLastEcho(ms[..i]) + 3 && PublishesAtLastEcho(ms[..i]) >= 1 <==>
            exists p: nat :: && LastEchoBefore(ms, p, i)
                             && Publishes(ms[..i]) == Publishes(ms[..p]) + 3
                             && Publishes(ms[..p]) >= 1
  {
    var pre := ms[..i];
    SameLastEcho(ms, i);
    if PublishesAtLastEcho(pre) > 0 {
      LastEchoExists(pre);
      var p: nat :| LastEchoBefore(pre, p, i);
      LastEchoIndex(pre, p);
      assert pre[..p] == ms[..p] && LastEchoBefore(ms, p, i);
    }
    if p: nat :| LastEchoBefore(ms, p, i) && Publishes(pre) == Publishes(ms[..p]) + 3 && Publishes(ms[..p]) >= 1 {
      LastEchoIndex(pre, p);
      assert pre[..p] == ms[..p];
    }
  }

  lemma SameLastEcho(ms: seq<Mark>, i: nat)
    requires i <= |ms|
    ensures forall p: nat :: LastEchoBefore(ms, p, i) <==> LastEchoBefore(ms[..i], p, i)
  {
    forall p: nat
      ensures LastEchoBefore(ms, p, i) <==> LastEchoBefore(ms[..i], p, i)
    {
      assert forall m :: 0 <= m < i ==> ms[m] == ms[..i][m];
    }
  }

  lemma {:induction false} PublishesMonotone(ms: seq<Mark>, i: nat)
    requires i <= |ms|
    ensures Publishes(ms[..i]) <= Publishes(ms)
    decreases |ms|
  {
    if i < |ms| {
      PublishesMonotone(ms[..|ms| - 1], i);
      assert ms[..|ms| - 1][..i] == ms[..i];
    } else {
      assert ms[..i] == ms;
    }
  }

  /** At most one timeout per silence: between two of them there is an echo. */
  lemma EchoBetweenTimeouts(es: seq<Event>, i: nat, k: nat)
    requires i < k < |es| && Publishes(Marks(es)) < WORD
    requires Marks(es)[i] == Judged(true) && Marks(es)[k] == Judged(true)
    ensures exists m :: i < m < k && Marks(es)[m].Echoed?
  {
    var ms := Marks(es);
    TimeoutIff(es, i);
    TimeoutIff(es, k);
    var p: nat :| LastEchoBefore(ms, p, i) && Publishes(ms[..i]) == Publishes(ms[..p]) + 3;
    var q: nat :| LastEchoBefore(ms, q, k) && Publishes(ms[..k]) == Publishes(ms[..q]) + 3;
    var m := AttemptBetweenTests(es, i, k);
    EchoInBetween(ms, p, q, i, m, k);
  }

  lemma EchoInBetween(ms: seq<Mark>, p: nat, q: nat, i: nat, m: nat, k: nat)
    requires i < m < k < |ms| && ms[i].Judged? && IsAttempt(ms[m])
    requires LastEchoBefore(ms, p, i) && Publishes(ms[..i]) == Publishes(ms[..p]) + 3
    requires LastEchoBefore(ms, q, k) && Publishes(ms[..k]) == Publishes(ms[..q]) + 3
    ensures i < q < k && ms[q].Echoed?
  {
    LaterAttempt(ms, m, k);
    PublishesMonotone(ms[..m], i);
    assert ms[..m][..i] == ms[..i];
    assert q <= i ==> p == q;
  }

  /** A silence test belongs to its own attempt. */
  lemma AttemptBetweenTests(es: seq<Event>, i: nat, k: nat) returns (m: nat)
    requires i < k < |es| && Marks(es)[i].Judged? && Marks(es)[k].Judged?
    ensures i < m < k && IsAttempt(Marks(es)[m])
  {
    MarksAt(es, k);
    StepMoves(State(es[..k]), es[k]);
    if forall m :: i < m < k ==> !IsAttempt(Marks(es)[m]) {
      IdleSince(es, i, k);
      assert false;
    }
    m :| i < m < k && IsAttempt(Marks(es)[m]);
  }

  lemma {:induction false} IdleSince(es: seq<Event>, i: nat, j: nat)
    requires i < j <= |es| && Marks(es)[i].Judged?
    requires forall m :: i < m < j ==> !IsAttempt(Marks(es)[m])
    ensures !Busy(State(es[..j]))
    decreases j
  {
    var n := j - 1;
    if i < n {
      IdleSince(es, i, n);
    }
    MarksAt(es, n);
    StepMoves(State(es[..n]), es[n]);
    assert es[..j][..n] == es[..n];
  }

  lemma LaterAttempt(ms: seq<Mark>, i: nat, k: nat)
    requires i < k <= |ms| && IsAttempt(ms[i])
    ensures Publishes(ms[..i]) + 1 <= Publishes(ms[..k])
  {
    assert ms[..i + 1] == ms[..i] + [ms[i]];
    TalliesAfter(ms[..i], ms[i]);
    PublishesMonotone(ms[..k], i + 1);
    assert ms[..k][..i + 1] == ms[..i + 1];
  }

  /** Three attempts are needed for every timeout. */
  lemma {:induction false} TimeoutsBounded(es: seq<Event>)
    requires Publishes(Marks(es)) < WORD
    ensures var ms := Marks(es);
            var l := PublishesAtLastEcho(ms);
            && 3 * Timeouts(ms) <= Publishes(ms)
            && (|| 3 * Timeouts(ms) <= l
                || (3 * Timeouts(ms) <= l + 3 <= Publishes(ms) && (Busy(State(es)) ==> l + 3 < Publishes(ms))))
  {
    if es != [] {
      var es', e := es[..|es| - 1], es[|es| - 1];
      var c, ms, m := State(es'), Marks(es'), MarkOf(State(es'), e);
      TalliesAfter(ms, m);
      TimeoutsBounded(es');
      LastEchoTracked(es');
      LastEchoBound(ms);
      StepMoves(c, e);
      if m.Judged? {
        TimesOutIff(c);
      }
    }
  }

  // ------------------------------------------------------------------ the module's state

  /** The four steps of a publish in a row. */
  function PublishedAlone(c: Client, sent: bool): Client {
    Step(Step(Step(Step(c, PublishTests), CountMessage), PublishReturns(sent)), SilenceTest)
  }

  /** A publish that nothing interrupts: skipped without network or connection; otherwise it takes the next
      number, makes it the last published one if it was sent, and counts a failure exactly if it was not
      sent or is the third message after the one the last echo was recorded at, itself not the first. */
  lemma PublishedAloneIs(c: Client, sent: bool)
    requires c.phase.Resting? && c.lastEchoAt <= c.messageCount < WORD - 1
    ensures var d := PublishedAlone(c, sent);
            && (!(c.networkReady && c.conn.Up?) ==> d == c)
            && (c.networkReady && c.conn.Up? ==>
                  && d.messageCount == c.messageCount + 1
                  && d.lastPublished == (if sent then c.messageCount + 1 else c.lastPublished)
                  && d.echoFailures == (if !sent || (0 < c.lastEchoAt == c.messageCount - 2) then Inc(c.echoFailures)
                                        else c.echoFailures)
                  && d == c.(messageCount := d.messageCount, lastPublished := d.lastPublished, echoFailures := d.echoFailures))
  {
    if c.networkReady && c.conn.Up? && sent {
      TimesOutIff(c.(messageCount := c.messageCount + 1, lastPublished := c.messageCount + 1, phase := HandedOver));
    }
  }

  class MqttClient {
    var currentState: Conn
    var networkReady: bool
    var hasSeenNetwork: bool
    var messageCount: nat
    var echoTotal: nat
    var echoFailures: nat
    var lastPublishedCount: nat
    var lastEchoAtMsg: nat
    ghost var phase: Phase

    ghost function View(): Client
      reads this
    {
      Client(currentState, networkReady, hasSeenNetwork, messageCount, echoTotal, echoFailures,
             lastPublishedCount, lastEchoAtMsg, phase)
    }

    constructor ()
      ensures View() == START
    {
      currentState, networkReady, hasSeenNetwork := Disconnected, false, false;
      messageCount, echoTotal, echoFailures, lastPublishedCount, lastEchoAtMsg := 0, 0, 0, 0, 0;
      phase := Resting;
    }

    /** mqtt_record_failed_attempt at its two call sites, both guarded by the seen-network flag */
    method RecordMissedInterval()
      modifies this
      ensures View() == Step(old(View()), IntervalMissed)
    {
      if hasSeenNetwork {
        echoTotal := Inc(echoTotal);
        echoFailures := Inc(echoFailures);
      }
    }

    /** on_mqtt_connack, as far as the connection state goes */
    method OnConnack(accepted: bool)
      modifies this
      ensures View() == Step(old(View()), Connack(accepted))
    {
      if !accepted {
        currentState := Disconnected;
        return;
      }
      currentState := Up;
    }

    /** on_mqtt_disconnect */
    method OnDisconnect()
      modifies this
      ensures View() == Step(old(View()), BrokerDisconnect)
    {
      currentState := Disconnected;
    }

    /** on_mqtt_publish */
    method OnPublish(payload: string)
      modifies this
      ensures View() == Step(old(View()), Echo(payload))
    {
      var copyLen := if |payload| < 15 then |payload| else 15;
      var numBuf := payload[..copyLen];
      assert numBuf == if |payload| <= 15 then payload else payload[..15];
      var received := Strtoul(numBuf);
      echoTotal := Inc(echoTotal);
      lastEchoAtMsg := messageCount;
      if lastPublishedCount != 0 && received != lastPublishedCount {
        echoFailures := Inc(echoFailures);
      }
    }

    /** on_mqtt_suback */
    method OnSuback(ok: bool)
      modifies this
      ensures View() == Step(old(View()), Suback(ok))
    {
      if !ok {
        echoFailures := Inc(echoFailures);
      }
    }

    /** mqtt_publish_message, run without a callback in between; `sent` is the result of handing the
        message to the library */
    method PublishMessage(sent: bool) returns (done: bool)
      requires phase.Resting?
      modifies this
      ensures View() == PublishedAlone(old(View()), sent) && phase.Resting?
      ensures done == (sent && CanPublish(old(View())))
    {
      if !networkReady || !currentState.Up? {
        return false;
      }
      messageCount := Inc(messageCount);
      if !sent {
        echoFailures := Inc(echoFailures);
        return false;
      }
      lastPublishedCount := messageCount;
      if messageCount > ECHO_TIMEOUT_THRESHOLD
         && (messageCount + WORD - lastEchoAtMsg) % WORD == ECHO_TIMEOUT_THRESHOLD {
        echoFailures := Inc(echoFailures);
      }
      return true;
    }

    /** app_mqtt_client_notify_connected */
    method NotifyConnected()
      modifies this
      ensures View() == Step(old(View()), NetUp)
    {
      if !networkReady {
        hasSeenNetwork := true;
        networkReady := true;
      }
    }

    /** app_mqtt_client_notify_disconnected */
    method NotifyDisconnected()
      modifies this
      ensures View() == Step(old(View()), NetDown)
    {
      networkReady := false;
      if currentState.Up? {
        currentState := Disconnected;
      }
    }
  }
}
