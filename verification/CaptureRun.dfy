/** Whole runs of the capture machinery: connects, losses, timer expiry, uploads and power loss at any
    flash step, with the two flash partitions and what was restored from them. */
module CaptureRun {
  import opened Bytes
  import opened NorFlash
  import opened CaptureCore
  import O = OneShot
  import L = LogState
  import C = CdrState

  // ------------------------------------------------------------------ one partition and its ledger

  datatype LogPart = LogPart(flash: seq<byte>, ledger: O.Ledger<L.Snapshot>)
  datatype CdrPart = CdrPart(flash: seq<byte>, ledger: O.Ledger<seq<byte>>)

  ghost predicate LogInv(p: LogPart) {
    ValidPartition(p.flash) && O.Inv(p.ledger, L.Stored(p.flash))
  }

  ghost predicate CdrInv(p: CdrPart) {
    ValidPartition(p.flash) && O.Inv(p.ledger, C.StoredBlob(p.flash))
  }

  /** How a persist meets the hardware: whether the area opens, and after how many steps it stops. */
  datatype WriteEnv = WriteEnv(openFault: bool, budget: nat, torn: byte)

  function LogPersisted(p: LogPart, ring: Option<L.Snapshot>, w: WriteEnv): LogPart
    requires |p.flash| % PAGE_SIZE == 0
  {
    LogPart(L.PersistImage(p.flash, ring, w.openFault, w.budget, w.torn),
            if ring.None? then p.ledger
            else p.ledger.Attempted(ring.value, L.Attempts(p.flash, ring, w.openFault) && w.budget >= 1))
  }

  function CdrPersisted(p: CdrPart, st: C.Stats, w: WriteEnv): CdrPart
    requires |p.flash| % PAGE_SIZE == 0
  {
    CdrPart(C.PersistImage(p.flash, st, w.openFault, w.budget, w.torn),
            if C.Collected(st).None? then p.ledger
            else p.ledger.Attempted(C.Collected(st).value, C.Attempts(p.flash, st, w.openFault) && w.budget >= 1))
  }

  function Live(ring: Option<L.Snapshot>): Option<L.Sizes> {
    if ring.None? then None else Some(L.SizesOf(ring.value))
  }

  /** A restore that returned: result 0 is recorded with the value it delivered. */
  function LogRestored(p: LogPart, ring: Option<L.Snapshot>, rf: L.ReadFaults, erase: nat): LogPart
    requires |p.flash| % PAGE_SIZE == 0
  {
    L.RestoreSucceedsIff(p.flash, Live(ring), rf);
    LogPart(L.RestoreImage(p.flash, Live(ring), rf, erase),
            if L.RestoreCode(p.flash, Live(ring), rf) == 0 then p.ledger.Recorded(L.Stored(p.flash).value) else p.ledger)
  }

  /** A restore that power loss cut short never returned anything. */
  function LogRestoreCut(p: LogPart, ring: Option<L.Snapshot>, rf: L.ReadFaults, erase: nat): LogPart
    requires |p.flash| % PAGE_SIZE == 0
  {
    p.(flash := L.RestoreImage(p.flash, Live(ring), rf, erase))
  }

  function CdrRestored(p: CdrPart, rf: C.ReadFaults, erase: nat): CdrPart
    requires |p.flash| % PAGE_SIZE == 0
  {
    C.RestoreSucceedsIff(p.flash, rf);
    CdrPart(C.RestoreImage(p.flash, rf, erase),
            if C.RestoreCode(p.flash, rf) == 0 then p.ledger.Recorded(C.StoredBlob(p.flash).value) else p.ledger)
  }

  function CdrRestoreCut(p: CdrPart, rf: C.ReadFaults, erase: nat): CdrPart
    requires |p.flash| % PAGE_SIZE == 0
  {
    p.(flash := C.RestoreImage(p.flash, rf, erase))
  }

  lemma LogPersistKeeps(p: LogPart, ring: Option<L.Snapshot>, w: WriteEnv)
    requires LogInv(p)
    ensures LogInv(LogPersisted(p, ring, w))
  {
    if ring.Some? {
      var p' := LogPersisted(p, ring, w);
      if L.Attempts(p.flash, ring, w.openFault) {
        L.PersistIsCrashAtomic(p.flash, ring.value, w.budget, w.torn);
      }
      O.AttemptKeeps(p.ledger, L.Stored(p.flash), ring.value,
                     L.Attempts(p.flash, ring, w.openFault) && w.budget >= 1, L.Stored(p'.flash));
    }
  }

  lemma CdrPersistKeeps(p: CdrPart, st: C.Stats, w: WriteEnv)
    requires CdrInv(p)
    ensures CdrInv(CdrPersisted(p, st, w))
  {
    if C.Collected(st).Some? {
      var p' := CdrPersisted(p, st, w);
      var blob := C.Collected(st).value;
      if C.Attempts(p.flash, st, w.openFault) {
        C.PersistIsCrashAtomic(p.flash, blob, w.budget, w.torn);
      }
      O.AttemptKeeps(p.ledger, C.StoredBlob(p.flash), blob,
                     C.Attempts(p.flash, st, w.openFault) && w.budget >= 1, C.StoredBlob(p'.flash));
    }
  }

  lemma LogRestoreKeeps(p: LogPart, ring: Option<L.Snapshot>, rf: L.ReadFaults, erase: nat)
    requires LogInv(p)
    ensures LogInv(LogRestoreCut(p, ring, rf, erase))
    ensures erase >= 1 ==> LogInv(LogRestored(p, ring, rf, erase))
  {
    var code := L.RestoreCode(p.flash, Live(ring), rf);
    if code != -L.ENOENT {
      L.RestoreIsOneShotIff(p.flash, Live(ring), rf, erase);
      O.DropKeeps(p.ledger, L.Stored(p.flash), L.Stored(L.RestoreImage(p.flash, Live(ring), rf, erase)));
      if code == 0 {
        L.RestoreSucceedsIff(p.flash, Live(ring), rf);
        O.RestoreKeeps(p.ledger, L.Stored(p.flash).value);
      }
    }
  }

  lemma CdrRestoreKeeps(p: CdrPart, rf: C.ReadFaults, erase: nat)
    requires CdrInv(p)
    ensures CdrInv(CdrRestoreCut(p, rf, erase))
    ensures erase >= 1 ==> CdrInv(CdrRestored(p, rf, erase))
  {
    var code := C.RestoreCode(p.flash, rf);
    if code != -C.ENOENT {
      C.RestoreIsOneShotIff(p.flash, rf, erase);
      O.DropKeeps(p.ledger, C.StoredBlob(p.flash), C.StoredBlob(C.RestoreImage(p.flash, rf, erase)));
      if code == 0 {
        C.RestoreSucceedsIff(p.flash, rf);
        O.RestoreKeeps(p.ledger, C.StoredBlob(p.flash).value);
      }
    }
  }

  // ------------------------------------------------------------------ the system

  datatype Kind = Boot | Connect | Loss | Fire

  /** A connectivity event as the core sees it. */
  datatype Stamp = Stamp(kind: Kind, at: nat)

  datatype Sys = Sys(core: Core, now: nat, ring: Option<L.Snapshot>, log: LogPart, cdr: CdrPart, history: seq<Stamp>)

  datatype ConnectEnv = ConnectEnv(coredumpHeld: bool, logFaults: L.ReadFaults, logErase: nat,
                                   cdrFaults: C.ReadFaults, cdrErase: nat, left: seq<byte>)

  datatype Event =
    | Tick(seconds: nat)
    | RingChanges(ring: Option<L.Snapshot>)
    | WifiUp
    | WifiDown
    | NetDown
    | Click
    | WorkFires(logEnv: WriteEnv, stats: C.Stats, cdrEnv: WriteEnv)
    | WorkCut(logEnv: WriteEnv, reborn: Option<L.Snapshot>)
    | TakeSem
    | DnsDone(env: ConnectEnv)
    | DnsDoneCut(env: ConnectEnv, inCdr: bool, reborn: Option<L.Snapshot>)
    | PowerLoss(reborn: Option<L.Snapshot>)

  ghost predicate Sane(s: Sys) {
    ValidPartition(s.log.flash) && ValidPartition(s.cdr.flash)
  }

  predicate Enabled(s: Sys, e: Event) {
    match e
    case WorkFires(_, _, _) => s.core.due.Some? && s.core.due.value <= s.now
    case WorkCut(_, _) => s.core.due.Some? && s.core.due.value <= s.now
    case TakeSem => s.core.uploadSem && s.core.thread.Waiting?
    case DnsDone(_) => s.core.thread.Resolving?
    case DnsDoneCut(_, _, _) => s.core.thread.Resolving?
    case _ => true
  }

  /** Power loss clears the core's variables; flash and the record of what happened stay. */
  function CoreAfter(c: Core, now: nat, e: Event): Core {
    match e
    case WifiUp => Connected(c)
    case WifiDown => WifiLost(c, now)
    case NetDown => Lost(c, now)
    case Click => Clicked(c)
    case WorkFires(_, _, _) => Fired(c)
    case TakeSem => c.(uploadSem := false, thread := Resolving)
    case DnsDone(_) => c.(thread := Waiting)
    case WorkCut(_, _) => BOOTED
    case DnsDoneCut(_, _, _) => BOOTED
    case PowerLoss(_) => BOOTED
    case _ => c
  }

  function HistoryAfter(h: seq<Stamp>, now: nat, e: Event): seq<Stamp> {
    match e
    case WifiUp => h + [Stamp(Connect, now)]
    case WifiDown => h + [Stamp(Loss, now)]
    case NetDown => h + [Stamp(Loss, now)]
    case WorkFires(_, _, _) => h + [Stamp(Fire, now)]
    case WorkCut(_, _) => h + [Stamp(Fire, now)] + [Stamp(Boot, now)]
    case DnsDoneCut(_, _, _) => h + [Stamp(Boot, now)]
    case PowerLoss(_) => h + [Stamp(Boot, now)]
    case _ => h
  }

  /** on_connect runs only while Wi-Fi is still up and no coredump waits. */
  predicate Restores(s: Sys, v: ConnectEnv) {
    s.core.wifiConnected && !v.coredumpHeld
  }

  function LogAfter(s: Sys, e: Event): (p: LogPart)
    requires |s.log.flash| % PAGE_SIZE == 0
    ensures |p.flash| == |s.log.flash|
  {
    match e
    case WorkFires(w, _, _) => LogPersisted(s.log, s.ring, w)
    case WorkCut(w, _) => LogPersisted(s.log, s.ring, w)
    case DnsDone(v) => if Restores(s, v) then LogRestored(s.log, s.ring, v.logFaults, v.logErase) else s.log
    case DnsDoneCut(v, inCdr, _) =>
      if !Restores(s, v) then s.log
      else if inCdr then LogRestored(s.log, s.ring, v.logFaults, v.logErase)
      else LogRestoreCut(s.log, s.ring, v.logFaults, v.logErase)
    case _ => s.log
  }

  function CdrAfter(s: Sys, e: Event): (p: CdrPart)
    requires |s.cdr.flash| % PAGE_SIZE == 0
    ensures |p.flash| == |s.cdr.flash|
  {
    match e
    case WorkFires(_, st, cw) => CdrPersisted(s.cdr, st, cw)
    case DnsDone(v) => if Restores(s, v) then CdrRestored(s.cdr, v.cdrFaults, v.cdrErase) else s.cdr
    case DnsDoneCut(v, inCdr, _) =>
      if Restores(s, v) && inCdr then CdrRestoreCut(s.cdr, v.cdrFaults, v.cdrErase) else s.cdr
    case _ => s.cdr
  }

  /** The ring after a restore: the snapshot on success, spoilt by a failed read, otherwise as before;
      after power loss, anything. */
  function RingAfter(s: Sys, e: Event): Option<L.Snapshot> {
    match e
    case RingChanges(r) => r
    case DnsDone(v) =>
      if !Restores(s, v) || s.ring.None? then s.ring
      else
        var code := L.RestoreCode(s.log.flash, Live(s.ring), v.logFaults);
        if code == 0 || code == -L.EIO then Some(L.Loaded(s.log.flash, s.ring.value, v.logFaults, v.left)) else s.ring
    case WorkCut(_, r) => r
    case DnsDoneCut(_, _, r) => r
    case PowerLoss(r) => r
    case _ => s.ring
  }

  function Step(s: Sys, e: Event): Sys
    requires |s.log.flash| % PAGE_SIZE == 0 && |s.cdr.flash| % PAGE_SIZE == 0
  {
    Sys(CoreAfter(s.core, s.now, e), if e.Tick? then s.now + e.seconds else s.now, RingAfter(s, e),
        LogAfter(s, e), CdrAfter(s, e), HistoryAfter(s.history, s.now, e))
  }

  ghost predicate Runs(s: Sys, es: seq<Event>)
    requires Sane(s)
    decreases |es|
  {
    es != [] ==>
      && Enabled(s, es[0])
      && Runs(Step(s, es[0]), es[1..])
  }

  ghost function Final(s: Sys, es: seq<Event>): (t: Sys)
    requires Sane(s)
    ensures Sane(t)
    decreases |es|
  {
    if es == [] then s else Final(Step(s, es[0]), es[1..])
  }

  lemma RunsOne(s: Sys, es: seq<Event>)
    requires Sane(s) && es != [] && Enabled(s, es[0])
    ensures Sane(Step(s, es[0]))
    ensures Runs(s, es) <==> Runs(Step(s, es[0]), es[1..])
    ensures Final(s, es) == Final(Step(s, es[0]), es[1..])
  {
  }

  lemma {:induction false} RunsAppend(s: Sys, a: seq<Event>, b: seq<Event>)
    requires Sane(s)
    ensures Final(s, a + b) == Final(Final(s, a), b)
    ensures Runs(s, a + b) <==> Runs(s, a) && Runs(Final(s, a), b)
    decreases |a|
  {
    if a == [] {
      assert a + b == b;
    } else {
      assert (a + b)[1..] == a[1..] + b;
      RunsAppend(Step(s, a[0]), a[1..], b);
    }
  }

  ghost predicate Init(s: Sys) {
    && Sane(s)
    && L.Stored(s.log.flash) == None && C.StoredBlob(s.cdr.flash) == None
    && s.log.ledger == O.Ledger([], []) && s.cdr.ledger == O.Ledger([], [])
    && s.core == BOOTED
    && s.history == [Stamp(Boot, s.now)]
  }

  // ------------------------------------------------------------------ what is restored

  /** The erase whose result a restore ignores got at least as far as the page with the header. */
  predicate EraseReachesHeader(e: Event) {
    match e
    case DnsDone(v) => v.logErase >= 1 && v.cdrErase >= 1
    case DnsDoneCut(v, inCdr, _) => inCdr ==> v.logErase >= 1
    case _ => true
  }

  ghost predicate FlashInv(s: Sys) {
    LogInv(s.log) && CdrInv(s.cdr)
  }

  lemma StepKeepsFlash(s: Sys, e: Event)
    requires FlashInv(s) && EraseReachesHeader(e)
    ensures FlashInv(Step(s, e))
  {
    match e
    case WorkFires(w, st, cw) =>
      LogPersistKeeps(s.log, s.ring, w);
      CdrPersistKeeps(s.cdr, st, cw);
    case WorkCut(w, _) =>
      LogPersistKeeps(s.log, s.ring, w);
    case DnsDone(v) =>
      LogRestoreKeeps(s.log, s.ring, v.logFaults, v.logErase);
      CdrRestoreKeeps(s.cdr, v.cdrFaults, v.cdrErase);
    case DnsDoneCut(v, _, _) =>
      LogRestoreKeeps(s.log, s.ring, v.logFaults, v.logErase);
      CdrRestoreKeeps(s.cdr, v.cdrFaults, v.cdrErase);
    case _ =>
  }

  lemma {:induction false} RunKeepsFlash(s: Sys, es: seq<Event>)
    requires FlashInv(s) && Runs(s, es)
    requires forall i :: 0 <= i < |es| ==> EraseReachesHeader(es[i])
    ensures FlashInv(Final(s, es))
    decreases |es|
  {
    if es != [] {
      StepKeepsFlash(s, es[0]);
      RunKeepsFlash(Step(s, es[0]), es[1..]);
    }
  }

  /** Over every run: each restored log snapshot and each restored statistics blob is, in full, the one
      of the latest persist attempt that reached its erase, and no attempt is restored twice or out of
      order. */
  lemma RestoredOnceInOrder(s: Sys, es: seq<Event>)
    requires Init(s) && Runs(s, es)
    requires forall i :: 0 <= i < |es| ==> EraseReachesHeader(es[i])
    ensures var t := Final(s, es);
            && O.Sourced(t.log.ledger) && O.Increasing(t.log.ledger)
            && O.Sourced(t.cdr.ledger) && O.Increasing(t.cdr.ledger)
  {
    RunKeepsFlash(s, es);
  }

  const CLEAN_READS := L.ReadFaults(false, false, false, false)
  const CLEAN_CDR_READS := C.ReadFaults(false, false, false)

  /** A restore whose ignored erase fails outright delivers the stored snapshot and leaves it in place. */
  lemma UnerasedLogRestore(p: LogPart, v: L.Snapshot)
    requires ValidPartition(p.flash) && L.Stored(p.flash) == Some(v)
    ensures LogRestored(p, Some(v), CLEAN_READS, 0) == p.(ledger := p.ledger.Recorded(v))
    ensures L.RestoreCode(p.flash, Live(Some(v)), CLEAN_READS) == 0
    ensures forall left :: L.Loaded(p.flash, v, CLEAN_READS, left) == v
  {
    L.RestoreSucceedsIff(p.flash, Some(L.SizesOf(v)), CLEAN_READS);
    CutErase(p.flash, 0, 0);
  }

  lemma UnerasedCdrRestore(p: CdrPart, blob: seq<byte>)
    requires ValidPartition(p.flash) && C.StoredBlob(p.flash) == Some(blob)
    ensures CdrRestored(p, CLEAN_CDR_READS, 0) == p.(ledger := p.ledger.Recorded(blob))
  {
    C.RestoreSucceedsIff(p.flash, CLEAN_CDR_READS);
    CutErase(p.flash, 0, 0);
  }

  /** The same attempt restored twice. */
  lemma RecordedTwice<T(!new)>(v: T)
    ensures !O.Increasing(O.Ledger([], []).Attempted(v, true).Recorded(v).Recorded(v))
  {
    var l := O.Ledger([], []).Attempted(v, true).Recorded(v).Recorded(v);
    assert O.CameFrom(l, 0, 0) && O.CameFrom(l, 1, 0);
  }

  lemma CaptureStored(p: LogPart, v: L.Snapshot, w: WriteEnv)
    requires ValidPartition(p.flash) && v.context != [] && v.storage != []
    requires L.PersistCode(p.flash, Some(v), w.openFault, w.budget) == 0
    ensures var q := LogPersisted(p, Some(v), w);
            && ValidPartition(q.flash) && L.Stored(q.flash) == Some(v)
            && q.ledger == p.ledger.Attempted(v, true)
  {
    L.PersistIsCrashAtomic(p.flash, v, w.budget, w.torn);
  }

  lemma StatsStored(p: CdrPart, st: C.Stats, w: WriteEnv)
    requires ValidPartition(p.flash) && C.PersistCode(p.flash, st, w.openFault, w.budget) == 0
    ensures C.Collected(st).Some?
    ensures var q := CdrPersisted(p, st, w);
            && ValidPartition(q.flash) && C.StoredBlob(q.flash) == C.Collected(st)
            && q.ledger == p.ledger.Attempted(C.Collected(st).value, true)
  {
    C.PersistIsCrashAtomic(p.flash, C.Collected(st).value, w.budget, w.torn);
  }

  /** A loss that is captured, and a reconnect up to the end of the DNS wait. */
  function LossAndCapture(fire: Event): seq<Event> {
    [WifiUp, WifiDown, Tick(LOG_FREEZE_DELAY_SEC), fire]
  }

  function Reconnect(v: ConnectEnv): seq<Event> {
    [WifiUp, TakeSem, DnsDone(v)]
  }

  lemma CapturedFromInit(s: Sys, w: WriteEnv, st: C.Stats, cw: WriteEnv)
    requires Init(s)
    ensures var es := LossAndCapture(WorkFires(w, st, cw));
            && Runs(s, es)
            && (var t := Final(s, es);
                && t.log == LogPersisted(s.log, s.ring, w) && t.cdr == CdrPersisted(s.cdr, st, cw)
                && t.ring == s.ring && t.core.thread.Waiting?)
  {
    var es := LossAndCapture(WorkFires(w, st, cw));
    var s1 := Step(s, WifiUp);
    var s2 := Step(s1, WifiDown);
    var s3 := Step(s2, Tick(LOG_FREEZE_DELAY_SEC));
    RunsOne(s3, es[3..]);
    RunsOne(s2, es[2..]);
    RunsOne(s1, es[1..]);
    RunsOne(s, es);
  }

  /** The environment in which nothing fails but the two erases, which do not even begin. */
  function NoErase(left: seq<byte>): ConnectEnv {
    ConnectEnv(false, CLEAN_READS, 0, CLEAN_CDR_READS, 0, left)
  }

  /** Such a reconnect delivers both stored values and leaves everything as it was. */
  lemma UnerasedReconnect(s: Sys, x: L.Snapshot, blob: seq<byte>, left: seq<byte>)
    requires Sane(s) && s.core.thread.Waiting? && s.ring == Some(x)
    requires L.Stored(s.log.flash) == Some(x) && C.StoredBlob(s.cdr.flash) == Some(blob)
    ensures Runs(s, Reconnect(NoErase(left)))
    ensures var t := Final(s, Reconnect(NoErase(left)));
            && t.log == s.log.(ledger := s.log.ledger.Recorded(x))
            && t.cdr == s.cdr.(ledger := s.cdr.ledger.Recorded(blob))
            && t.ring == s.ring && t.core.thread.Waiting?
  {
    var es := Reconnect(NoErase(left));
    var s1 := Step(s, WifiUp);
    var s2 := Step(s1, TakeSem);
    UnerasedLogRestore(s.log, x);
    UnerasedCdrRestore(s.cdr, blob);
    RunsOne(s2, es[2..]);
    RunsOne(s1, es[1..]);
    RunsOne(s, es);
  }

  /** The condition is needed.  From reset, capture a ring and statistics and reconnect twice with both
      ignored erases failing outright: either attempt is restored a second time. */
  lemma FailedEraseRepeats(s: Sys, w: WriteEnv, st: C.Stats, cw: WriteEnv, left: seq<byte>)
    requires Init(s) && s.ring.Some? && s.ring.value.context != [] && s.ring.value.storage != []
    requires L.PersistCode(s.log.flash, s.ring, w.openFault, w.budget) == 0
    requires C.PersistCode(s.cdr.flash, st, cw.openFault, cw.budget) == 0
    ensures var again := Reconnect(NoErase(left));
            var es := LossAndCapture(WorkFires(w, st, cw)) + (again + again);
            && Runs(s, es)
            && !O.Increasing(Final(s, es).log.ledger)
            && !O.Increasing(Final(s, es).cdr.ledger)
  {
    CaptureStored(s.log, s.ring.value, w);
    StatsStored(s.cdr, st, cw);
    var x, blob := s.ring.value, C.Collected(st).value;
    var first, again := LossAndCapture(WorkFires(w, st, cw)), Reconnect(NoErase(left));
    CapturedFromInit(s, w, st, cw);
    var t := Final(s, first);
    UnerasedReconnect(t, x, blob, left);
    var u := Final(t, again);
    UnerasedReconnect(u, x, blob, left);
    RunsAppend(t, again, again);
    RunsAppend(s, first, again + again);
    RecordedTwice(x);
    RecordedTwice(blob);
  }

  // ------------------------------------------------------------------ a capture is delivered

  /** Events that leave the log partition alone: everything but a capture and a restore that gets past the
      header.  A wait for DNS that ends without Wi-Fi or with a coredump waiting restores nothing. */
  predicate LeavesLog(s: Sys, e: Event) {
    match e
    case WorkFires(_, _, _) => false
    case WorkCut(_, _) => false
    case DnsDone(v) => !Restores(s, v) || v.logFaults.open || v.logFaults.header
    case DnsDoneCut(v, _, _) => !Restores(s, v) || v.logFaults.open || v.logFaults.header
    case _ => true
  }

  /** The statistics partition is also left alone by power loss in the log persist or in the log restore. */
  predicate LeavesCdr(s: Sys, e: Event) {
    match e
    case WorkFires(_, _, _) => false
    case DnsDone(v) => !Restores(s, v) || v.cdrFaults.open || v.cdrFaults.header
    case DnsDoneCut(v, inCdr, _) => !Restores(s, v) || !inCdr || v.cdrFaults.open || v.cdrFaults.header
    case _ => true
  }

  ghost predicate AllLeaveLog(s: Sys, es: seq<Event>)
    requires Sane(s)
    decreases |es|
  {
    es != [] ==> LeavesLog(s, es[0]) && AllLeaveLog(Step(s, es[0]), es[1..])
  }

  ghost predicate AllLeaveCdr(s: Sys, es: seq<Event>)
    requires Sane(s)
    decreases |es|
  {
    es != [] ==> LeavesCdr(s, es[0]) && AllLeaveCdr(Step(s, es[0]), es[1..])
  }

  lemma {:induction false} LogSurvives(s: Sys, es: seq<Event>)
    requires Sane(s) && AllLeaveLog(s, es)
    ensures Final(s, es).log == s.log
    decreases |es|
  {
    if es != [] {
      LogSurvives(Step(s, es[0]), es[1..]);
    }
  }

  lemma {:induction false} CdrSurvives(s: Sys, es: seq<Event>)
    requires Sane(s) && AllLeaveCdr(s, es)
    ensures Final(s, es).cdr == s.cdr
    decreases |es|
  {
    if es != [] {
      CdrSurvives(Step(s, es[0]), es[1..]);
    }
  }

  /** A completed capture is delivered: whatever reboots, reconnects, waits without a restore and log
      traffic come in between, the next undisturbed restore returns exactly the ring of the moment of
      capture. */
  lemma CaptureIsDelivered(s: Sys, w: WriteEnv, st: C.Stats, cw: WriteEnv, es: seq<Event>, v: ConnectEnv)
    requires Sane(s) && Enabled(s, WorkFires(w, st, cw))
    requires s.ring.Some? && s.ring.value.context != [] && s.ring.value.storage != []
    requires L.PersistCode(s.log.flash, s.ring, w.openFault, w.budget) == 0
    requires Sane(Step(s, WorkFires(w, st, cw))) && Runs(Step(s, WorkFires(w, st, cw)), es)
    requires AllLeaveLog(Step(s, WorkFires(w, st, cw)), es)
    requires !v.coredumpHeld && v.logFaults == CLEAN_READS
    requires var t := Final(Step(s, WorkFires(w, st, cw)), es);
             Enabled(t, DnsDone(v)) && t.core.wifiConnected && Live(t.ring) == Live(s.ring)
    ensures var t := Final(Step(s, WorkFires(w, st, cw)), es);
            var u := Step(t, DnsDone(v));
            && u.ring == s.ring
            && u.log.ledger == t.log.ledger.Recorded(s.ring.value)
  {
    var s1 := Step(s, WorkFires(w, st, cw));
    CaptureStored(s.log, s.ring.value, w);
    LogSurvives(s1, es);
    StoredIsReturned(Final(s1, es), s.ring.value, v);
  }

  lemma StoredIsReturned(t: Sys, x: L.Snapshot, v: ConnectEnv)
    requires Sane(t) && L.Stored(t.log.flash) == Some(x) && Live(t.ring) == Some(L.SizesOf(x))
    requires Restores(t, v) && v.logFaults == CLEAN_READS
    ensures var u := Step(t, DnsDone(v)); u.ring == Some(x) && u.log.ledger == t.log.ledger.Recorded(x)
  {
    L.RestoreSucceedsIff(t.log.flash, Live(t.ring), CLEAN_READS);
  }

  /** So is a completed statistics capture, whatever became of the log capture beside it. */
  lemma StatsAreDelivered(s: Sys, w: WriteEnv, st: C.Stats, cw: WriteEnv, es: seq<Event>, v: ConnectEnv)
    requires Sane(s) && Enabled(s, WorkFires(w, st, cw))
    requires C.PersistCode(s.cdr.flash, st, cw.openFault, cw.budget) == 0
    requires Sane(Step(s, WorkFires(w, st, cw))) && Runs(Step(s, WorkFires(w, st, cw)), es)
    requires AllLeaveCdr(Step(s, WorkFires(w, st, cw)), es)
    requires !v.coredumpHeld && v.cdrFaults == CLEAN_CDR_READS
    requires var t := Final(Step(s, WorkFires(w, st, cw)), es);
             Enabled(t, DnsDone(v)) && t.core.wifiConnected
    ensures var t := Final(Step(s, WorkFires(w, st, cw)), es);
            var u := Step(t, DnsDone(v));
            && st.Fetched? && st.fw != []
            && u.cdr.ledger == t.cdr.ledger.Recorded(st.fw[..if |st.fw| <= 1024 then |st.fw| else 1024])
  {
    var s1 := Step(s, WorkFires(w, st, cw));
    C.CollectedIs(st);
    StatsStored(s.cdr, st, cw);
    CdrSurvives(s1, es);
    C.RestoreSucceedsIff(s1.cdr.flash, CLEAN_CDR_READS);
  }

  // ------------------------------------------------------------------ what the core's flags mean

  predicate Reboots(e: Event) {
    e.WorkCut? || e.DnsDoneCut? || e.PowerLoss?
  }

  /** Something of the kind `on` happened, and nothing of the kind `off` since. */
  ghost predicate Since(es: seq<Event>, on: Event -> bool, off: Event -> bool) {
    exists i: nat :: i < |es| && on(es[i]) && forall j :: i < j < |es| ==> !off(es[j])
  }

  lemma SinceAfter(es: seq<Event>, e: Event, on: Event -> bool, off: Event -> bool)
    ensures Since(es + [e], on, off) <==> on(e) || (Since(es, on, off) && !off(e))
  {
    var es', n := es + [e], |es|;
    assert es'[n] == e && forall j :: 0 <= j < n ==> es'[j] == es[j];
    if Since(es, on, off) && !off(e) {
      var i: nat :| i < n && on(es[i]) && forall j :: i < j < n ==> !off(es[j]);
      assert on(es'[i]) && forall j :: i < j < |es'| ==> !off(es'[j]);
    }
    if Since(es', on, off) && !on(e) {
      var i: nat :| i < |es'| && on(es'[i]) && forall j :: i < j < |es'| ==> !off(es'[j]);
      assert i < n && !off(es'[n]);
      assert on(es[i]) && forall j :: i < j < n ==> !off(es'[j]);
    }
  }

  /** The last of boot, Wi-Fi up and Wi-Fi down was Wi-Fi up. */
  ghost predicate WifiIsUp(es: seq<Event>) {
    Since(es, (e: Event) => e.WifiUp?, (e: Event) => e.WifiDown? || Reboots(e))
  }

  /** The upload thread has been woken and has not finished waiting for DNS. */
  ghost predicate IsResolving(es: seq<Event>) {
    Since(es, (e: Event) => e.TakeSem?, (e: Event) => e.DnsDone? || Reboots(e))
  }

  /** An upload is asked for by a connect, or by a click while Wi-Fi is up. */
  ghost predicate AsksAt(es: seq<Event>, i: nat)
    requires i < |es|
  {
    es[i].WifiUp? || (es[i].Click? && WifiIsUp(es[..i]))
  }

  /** Asked for, and the thread has not been woken since. */
  ghost predicate IsAsked(es: seq<Event>) {
    exists i: nat :: i < |es| && AsksAt(es, i) && forall j :: i < j < |es| ==> !es[j].TakeSem? && !Reboots(es[j])
  }

  lemma AskedAfter(es: seq<Event>, e: Event)
    ensures IsAsked(es + [e]) <==>
            e.WifiUp? || (e.Click? && WifiIsUp(es)) || (IsAsked(es) && !e.TakeSem? && !Reboots(e))
  {
    var es', n := es + [e], |es|;
    assert es'[n] == e && forall j :: 0 <= j < n ==> es'[j] == es[j];
    assert es'[..n] == es && forall i :: 0 <= i <= n ==> es'[..i] == es[..i];
    assert AsksAt(es', n) <==> e.WifiUp? || (e.Click? && WifiIsUp(es));
    if IsAsked(es) && !e.TakeSem? && !Reboots(e) {
      var i: nat :| i < n && AsksAt(es, i) && forall j :: i < j < n ==> !es[j].TakeSem? && !Reboots(es[j]);
      assert AsksAt(es', i) && forall j :: i < j < |es'| ==> !es'[j].TakeSem? && !Reboots(es'[j]);
    }
    if IsAsked(es') && !AsksAt(es', n) {
      var i: nat :| i < |es'| && AsksAt(es', i) && forall j :: i < j < |es'| ==> !es'[j].TakeSem? && !Reboots(es'[j]);
      assert i < n && AsksAt(es, i) && !es'[n].TakeSem? && !Reboots(es'[n]);
      assert forall j :: i < j < n ==> !es'[j].TakeSem? && !Reboots(es'[j]);
    }
  }

  /** Over every run: the connected flag is set exactly while Wi-Fi is up, the semaphore is given exactly
      while an upload is asked for and not begun, and the thread waits for DNS exactly between the two
      ends of a round. */
  lemma {:induction false} FlagsFollow(s: Sys, es: seq<Event>)
    requires Init(s) && Runs(s, es)
    ensures var c := Final(s, es).core;
            && c.wifiConnected == WifiIsUp(es)
            && c.uploadSem == IsAsked(es)
            && c.thread.Resolving? == IsResolving(es)
    decreases |es|
  {
    if es != [] {
      var n := |es| - 1;
      var before, e := es[..n], es[n];
      assert es == before + [e];
      RunsAppend(s, before, [e]);
      FlagsFollow(s, before);
      SinceAfter(before, e, (e: Event) => e.WifiUp?, (e: Event) => e.WifiDown? || Reboots(e));
      SinceAfter(before, e, (e: Event) => e.TakeSem?, (e: Event) => e.DnsDone? || Reboots(e));
      AskedAfter(before, e);
      LastStep(Final(s, before), e);
    }
  }

  lemma LastStep(s: Sys, e: Event)
    requires Sane(s) && Runs(s, [e])
    ensures Enabled(s, e) && Final(s, [e]) == Step(s, e)
  {
    RunsOne(s, [e]);
  }

  /** A Wi-Fi loss that no connect has answered. */
  ghost predicate LossUnanswered(es: seq<Event>) {
    Since(es, (e: Event) => e.WifiDown?, (e: Event) => e.WifiUp?)
  }

  lemma UnansweredLossIsDown(es: seq<Event>)
    requires LossUnanswered(es)
    ensures !WifiIsUp(es)
  {
    var i: nat :| i < |es| && es[i].WifiDown? && forall j :: i < j < |es| ==> !es[j].WifiUp?;
    assert !es[i].WifiUp?;
  }

  /** A DNS wait that ends after such a loss, or while a coredump waits, restores nothing and touches
      neither partition. */
  lemma NothingRestoredOffline(s: Sys, es: seq<Event>, v: ConnectEnv)
    requires Init(s) && Runs(s, es)
    requires LossUnanswered(es) || v.coredumpHeld
    ensures var t := Final(s, es);
            var u := Step(t, DnsDone(v));
            u.log == t.log && u.cdr == t.cdr && u.ring == t.ring
  {
    if LossUnanswered(es) {
      UnansweredLossIsDown(es);
      FlagsFollow(s, es);
    }
  }

  // ------------------------------------------------------------------ when it is captured

  /** Some connect precedes index `n` in the same boot. */
  ghost predicate ConnectedBefore(h: seq<Stamp>, n: nat)
    requires n <= |h|
  {
    exists c: nat :: c < n && h[c].kind.Connect? && forall m :: c < m < n ==> !h[m].kind.Boot?
  }

  /** Seen from index `n`, stamp `i` is the first loss since the last connect, capture or boot, it came
      after a connect of its boot, and nothing but further losses followed. */
  ghost predicate OpenLoss(h: seq<Stamp>, n: nat, i: nat)
    requires n <= |h|
  {
    && 0 < i < n && h[i].kind.Loss? && !h[i - 1].kind.Loss?
    && ConnectedBefore(h, i)
    && forall m :: i < m < n ==> h[m].kind.Loss?
  }

  /** A capture at `n` answers an open loss that is at least ten seconds old. */
  ghost predicate Justified(h: seq<Stamp>, n: nat)
    requires n < |h|
  {
    exists i: nat :: OpenLoss(h, n, i) && h[i].at + LOG_FREEZE_DELAY_SEC <= h[n].at
  }

  ghost predicate Chronological(h: seq<Stamp>) {
    forall i, j :: 0 <= i < j < |h| ==> h[i].at <= h[j].at
  }

  ghost predicate DueIsRight(h: seq<Stamp>, due: Option<nat>) {
    && (due.None? ==> forall i: nat :: !OpenLoss(h, |h|, i))
    && (due.Some? ==> exists i: nat :: OpenLoss(h, |h|, i) && due.value == h[i].at + LOG_FREEZE_DELAY_SEC)
  }

  ghost predicate ScheduleInv(core: Core, now: nat, h: seq<Stamp>) {
    && h != [] && h[0].kind.Boot? && Chronological(h) && h[|h| - 1].at <= now
    && core.scheduled == core.due.Some?
    && core.everConnected == ConnectedBefore(h, |h|)
    && (core.everConnected && h[|h| - 1].kind.Loss? ==> core.scheduled)
    && DueIsRight(h, core.due)
    && forall n: nat :: n < |h| && h[n].kind.Fire? ==> Justified(h, n)
  }

  /** Appending a stamp changes nothing that is seen from earlier indices. */
  lemma PrefixStable(h: seq<Stamp>, x: Stamp)
    ensures forall n: nat :: n <= |h| ==> (ConnectedBefore(h + [x], n) <==> ConnectedBefore(h, n))
    ensures forall n: nat, i: nat :: n <= |h| ==> (OpenLoss(h + [x], n, i) <==> OpenLoss(h, n, i))
    ensures forall n: nat :: n < |h| ==> (Justified(h + [x], n) <==> Justified(h, n))
  {
    var h' := h + [x];
    assert forall m :: 0 <= m < |h| ==> h'[m] == h[m];
    forall n: nat | n <= |h|
      ensures ConnectedBefore(h', n) <==> ConnectedBefore(h, n)
    {
      if ConnectedBefore(h, n) {
        var c: nat :| c < n && h[c].kind.Connect? && forall m :: c < m < n ==> !h[m].kind.Boot?;
        assert h'[c].kind.Connect?;
      }
      if ConnectedBefore(h', n) {
        var c: nat :| c < n && h'[c].kind.Connect? && forall m :: c < m < n ==> !h'[m].kind.Boot?;
        assert h[c].kind.Connect?;
        assert forall m :: c < m < n ==> h[m] == h'[m];
      }
    }
    forall n: nat, i: nat | n <= |h|
      ensures OpenLoss(h', n, i) <==> OpenLoss(h, n, i)
    {
      assert forall m :: i < m < n ==> h[m] == h'[m];
    }
    forall n: nat | n < |h|
      ensures Justified(h', n) <==> Justified(h, n)
    {
      if Justified(h, n) {
        var i: nat :| OpenLoss(h, n, i) && h[i].at + LOG_FREEZE_DELAY_SEC <= h[n].at;
        assert OpenLoss(h', n, i);
      }
      if Justified(h', n) {
        var i: nat :| OpenLoss(h', n, i) && h'[i].at + LOG_FREEZE_DELAY_SEC <= h'[n].at;
        assert OpenLoss(h, n, i);
      }
    }
  }

  /** Whether the boot has seen a connect, after one more stamp. */
  lemma ConnectedAfter(h: seq<Stamp>, x: Stamp)
    ensures ConnectedBefore(h + [x], |h| + 1)
       <==> x.kind.Connect? || (!x.kind.Boot? && ConnectedBefore(h, |h|))
  {
    var h', n := h + [x], |h|;
    PrefixStable(h, x);
    if x.kind.Connect? {
      assert h'[n].kind.Connect?;
    } else if !x.kind.Boot? && ConnectedBefore(h, n) {
      var c: nat :| c < n && h'[c].kind.Connect? && forall m :: c < m < n ==> !h'[m].kind.Boot?;
      assert forall m :: c < m < n + 1 ==> !h'[m].kind.Boot?;
    }
    if ConnectedBefore(h', n + 1) && !x.kind.Connect? {
      var c: nat :| c < n + 1 && h'[c].kind.Connect? && forall m :: c < m < n + 1 ==> !h'[m].kind.Boot?;
      assert h'[n] == x && c != n;
      assert ConnectedBefore(h', n);
    }
  }

  /** Anything but a loss closes the open one; a loss keeps it, or opens one if the boot has connected
      and the previous stamp was not a loss. */
  lemma OpenAfter(h: seq<Stamp>, x: Stamp, i: nat)
    requires h != []
    ensures OpenLoss(h + [x], |h| + 1, i)
       <==> x.kind.Loss? && (OpenLoss(h, |h|, i) || (i == |h| && !h[i - 1].kind.Loss? && ConnectedBefore(h, |h|)))
  {
    PrefixStable(h, x);
    var h', n := h + [x], |h|;
    assert h'[n] == x && h'[n - 1] == h[n - 1];
    if x.kind.Loss? && OpenLoss(h, n, i) {
      assert OpenLoss(h', n, i);
      assert forall m :: i < m < n + 1 ==> h'[m].kind.Loss?;
    }
    if OpenLoss(h', n + 1, i) && i < n {
      assert h'[n].kind.Loss?;
      assert OpenLoss(h', n, i);
    }
  }

  lemma DueAfter(core: Core, now: nat, h: seq<Stamp>, core': Core, k: Kind)
    requires ScheduleInv(core, now, h)
    requires !k.Loss? ==> core'.due == None
    requires k.Loss? && core.due.Some? ==> core'.due == core.due
    requires k.Loss? && core.due.None? ==>
               core'.due == if core.everConnected then Some(now + LOG_FREEZE_DELAY_SEC) else None
    ensures DueIsRight(h + [Stamp(k, now)], core'.due)
  {
    var x := Stamp(k, now);
    var h', n := h + [x], |h|;
    if core'.due.None? {
      forall i: nat
        ensures !OpenLoss(h', |h'|, i)
      {
        OpenAfter(h, x, i);
      }
    } else if core.due.Some? {
      var i: nat :| OpenLoss(h, n, i) && core.due.value == h[i].at + LOG_FREEZE_DELAY_SEC;
      OpenAfter(h, x, i);
      assert h'[i] == h[i];
    } else {
      OpenAfter(h, x, n);
      assert h'[n].at == now;
    }
  }

  lemma FiresAfter(core: Core, now: nat, h: seq<Stamp>, k: Kind)
    requires ScheduleInv(core, now, h)
    requires k.Fire? ==> core.due.Some? && core.due.value <= now
    ensures var h' := h + [Stamp(k, now)];
            forall m: nat :: m < |h'| && h'[m].kind.Fire? ==> Justified(h', m)
  {
    var x := Stamp(k, now);
    var h', n := h + [x], |h|;
    PrefixStable(h, x);
    forall m: nat | m < |h'| && h'[m].kind.Fire?
      ensures Justified(h', m)
    {
      if m < n {
        assert h'[m] == h[m];
      } else {
        var i: nat :| OpenLoss(h, n, i) && core.due.value == h[i].at + LOG_FREEZE_DELAY_SEC;
        assert OpenLoss(h', n, i) && h'[i] == h[i];
      }
    }
  }

  /** One stamp, given how the core's flags move with it. */
  lemma StampKeeps(core: Core, now: nat, h: seq<Stamp>, core': Core, k: Kind)
    requires ScheduleInv(core, now, h)
    requires core'.everConnected == (k.Connect? || (!k.Boot? && core.everConnected))
    requires core'.scheduled == core'.due.Some?
    requires k.Loss? && core'.everConnected ==> core'.scheduled
    requires !k.Loss? ==> core'.due == None
    requires k.Loss? && core.due.Some? ==> core'.due == core.due
    requires k.Loss? && core.due.None? ==>
               core'.due == if core.everConnected then Some(now + LOG_FREEZE_DELAY_SEC) else None
    requires k.Fire? ==> core.due.Some? && core.due.value <= now
    ensures ScheduleInv(core', now, h + [Stamp(k, now)])
  {
    ConnectedAfter(h, Stamp(k, now));
    DueAfter(core, now, h, core', k);
    FiresAfter(core, now, h, k);
  }

  lemma CutKeepsSchedule(c: Core, now: nat, h: seq<Stamp>)
    requires ScheduleInv(c, now, h) && c.due.Some? && c.due.value <= now
    ensures ScheduleInv(BOOTED, now, h + [Stamp(Fire, now)] + [Stamp(Boot, now)])
  {
    StampKeeps(c, now, h, Fired(c), Fire);
    StampKeeps(Fired(c), now, h + [Stamp(Fire, now)], BOOTED, Boot);
  }

  lemma CoreStepKeepsSchedule(c: Core, now: nat, h: seq<Stamp>, e: Event)
    requires ScheduleInv(c, now, h)
    requires e.WorkFires? || e.WorkCut? ==> c.due.Some? && c.due.value <= now
    ensures ScheduleInv(CoreAfter(c, now, e), now, HistoryAfter(h, now, e))
  {
    match e
    case WifiUp => StampKeeps(c, now, h, Connected(c), Connect);
    case WifiDown => StampKeeps(c, now, h, WifiLost(c, now), Loss);
    case NetDown => StampKeeps(c, now, h, Lost(c, now), Loss);
    case WorkFires(_, _, _) => StampKeeps(c, now, h, Fired(c), Fire);
    case WorkCut(_, _) => CutKeepsSchedule(c, now, h);
    case DnsDoneCut(_, _, _) => StampKeeps(c, now, h, BOOTED, Boot);
    case PowerLoss(_) => StampKeeps(c, now, h, BOOTED, Boot);
    case _ =>
  }

  lemma {:induction false} RunKeepsSchedule(s: Sys, es: seq<Event>)
    requires Sane(s) && ScheduleInv(s.core, s.now, s.history) && Runs(s, es)
    ensures var t := Final(s, es); ScheduleInv(t.core, t.now, t.history)
    decreases |es|
  {
    if es != [] {
      CoreStepKeepsSchedule(s.core, s.now, s.history, es[0]);
      RunKeepsSchedule(Step(s, es[0]), es[1..]);
    }
  }

  lemma InitSchedule(s: Sys)
    requires Init(s)
    ensures ScheduleInv(s.core, s.now, s.history)
  {
  }

  /** Two captures of one boot are at least ten seconds apart. */
  lemma CapturesApart(h: seq<Stamp>, a: nat, b: nat)
    requires Chronological(h) && a < b < |h| && h[a].kind.Fire? && Justified(h, b)
    ensures h[a].at + LOG_FREEZE_DELAY_SEC <= h[b].at
  {
    var i: nat :| OpenLoss(h, b, i) && h[i].at + LOG_FREEZE_DELAY_SEC <= h[b].at;
    assert a != i && !(i < a);
  }

  /** Over every run: the guard is set exactly while the work is pending; the work is pending exactly
      while a loss is open, and is due ten seconds after that first loss, however many losses follow;
      every capture answers such a loss, after a connect of its own boot and with no connect in
      between; captures are at least ten seconds apart. */
  lemma CapturesFollowLosses(s: Sys, es: seq<Event>)
    requires Init(s) && Runs(s, es)
    ensures var t := Final(s, es);
            var h := t.history;
            && t.core.scheduled == t.core.due.Some?
            && DueIsRight(h, t.core.due)
            && (forall n: nat :: n < |h| && h[n].kind.Fire? ==> Justified(h, n))
            && (forall a: nat, b: nat :: a < b < |h| && h[a].kind.Fire? && h[b].kind.Fire? ==>
                                           h[a].at + LOG_FREEZE_DELAY_SEC <= h[b].at)
  {
    InitSchedule(s);
    RunKeepsSchedule(s, es);
    var h := Final(s, es).history;
    forall a: nat, b: nat | a < b < |h| && h[a].kind.Fire? && h[b].kind.Fire?
      ensures h[a].at + LOG_FREEZE_DELAY_SEC <= h[b].at
    {
      CapturesApart(h, a, b);
    }
  }

  /** The guard is cleared when the work runs, so a second loss notification without any reconnect is
      captured again: captures are not one per disconnect. */
  lemma SecondCaptureWithoutReconnect(s: Sys, w: WriteEnv, st: C.Stats)
    requires Init(s)
    ensures var fire := WorkFires(w, st, w);
            var es := [WifiUp, WifiDown, Tick(10), fire, NetDown, Tick(10), fire];
            && Runs(s, es)
            && (var h := Final(s, es).history;
                && |h| == 6 && h[3].kind.Fire? && h[5].kind.Fire?
                && h[4].kind.Loss?)
  {
    var fire := WorkFires(w, st, w);
    var es := [WifiUp, WifiDown, Tick(10), fire, NetDown, Tick(10), fire];
    var s1 := Step(s, WifiUp);
    var s2 := Step(s1, WifiDown);
    var s3 := Step(s2, Tick(10));
    var s4 := Step(s3, fire);
    var s5 := Step(s4, NetDown);
    var s6 := Step(s5, Tick(10));
    var s7 := Step(s6, fire);
    RunsOne(s6, es[6..]);
    RunsOne(s5, es[5..]);
    RunsOne(s4, es[4..]);
    RunsOne(s3, es[3..]);
    RunsOne(s2, es[2..]);
    RunsOne(s1, es[1..]);
    RunsOne(s, es);
  }
}
