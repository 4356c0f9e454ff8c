/** Connectivity bookkeeping of the Memfault core: when a lost connection is captured to flash, and
    when the capture is read back. */
module CaptureCore {
  import opened Bytes
  import opened NorFlash
  import L = LogState
  import C = CdrState

  const LOG_FREEZE_DELAY_SEC: nat := 10

  /** The upload thread: waiting on its semaphore, or waiting for the DNS resolver. */
  datatype Upload = Waiting | Resolving

  /** The static variables of the module and its delayable work item (`due` when pending). */
  datatype Core = Core(wifiConnected: bool, everConnected: bool, scheduled: bool,
                       due: Option<nat>, uploadSem: bool, thread: Upload)

  const BOOTED := Core(false, false, false, None, false, Waiting)

  /** WIFI_STA_CONNECTED: cancels a pending capture and wakes the upload thread. */
  function Connected(c: Core): Core {
    c.(wifiConnected := true, everConnected := true, scheduled := false, due := None, uploadSem := true)
  }

  /** Either loss notification: the guard lets only the first one schedule the work, and scheduling a
      pending work item would leave its deadline alone anyway. */
  function Lost(c: Core, now: nat): Core {
    if c.everConnected && !c.scheduled
    then c.(scheduled := true, due := if c.due.Some? then c.due else Some(now + LOG_FREEZE_DELAY_SEC))
    else c
  }

  /** WIFI_STA_DISCONNECTED also clears the connected flag; NETWORK_NOT_READY does not. */
  function WifiLost(c: Core, now: nat): Core {
    Lost(c.(wifiConnected := false), now)
  }

  function Fired(c: Core): Core {
    c.(scheduled := false, due := None)
  }

  /** Button 1 short press while connected asks for an upload. */
  function Clicked(c: Core): Core {
    if c.wifiConnected then c.(uploadSem := true) else c
  }

  datatype WifiMsg = StaConnected | StaDisconnected | OtherWifi
  datatype NetMsg = NetNotReady | OtherNet

  class MemfaultCore {
    var wifiConnected: bool
    var logFreezeScheduled: bool
    var networkEverConnected: bool
    var uploadSem: bool
    var workDue: Option<nat>
    var thread: Upload

    ghost function View(): Core
      reads this
    {
      Core(wifiConnected, networkEverConnected, logFreezeScheduled, workDue, uploadSem, thread)
    }

    constructor ()
      ensures View() == BOOTED
    {
      wifiConnected, logFreezeScheduled, networkEverConnected := false, false, false;
      uploadSem, workDue, thread := false, None, Waiting;
    }

    /** k_work_schedule: does nothing to a pending item. */
    method Schedule(now: nat)
      modifies this`workDue
      ensures workDue == if old(workDue).Some? then old(workDue) else Some(now + LOG_FREEZE_DELAY_SEC)
    {
      if workDue.None? {
        workDue := Some(now + LOG_FREEZE_DELAY_SEC);
      }
    }

    /** memfault_wifi_listener */
    method WifiListener(msg: WifiMsg, now: nat)
      modifies this
      ensures View() == match msg
                        case StaConnected => Connected(old(View()))
                        case StaDisconnected => WifiLost(old(View()), now)
                        case OtherWifi => old(View())
    {
      match msg {
        case StaConnected =>
          wifiConnected := true;
          networkEverConnected := true;
          logFreezeScheduled := false;
          workDue := None;
          uploadSem := true;
        case StaDisconnected =>
          wifiConnected := false;
          if networkEverConnected && !logFreezeScheduled {
            logFreezeScheduled := true;
            Schedule(now);
          }
        case OtherWifi =>
      }
    }

    /** memfault_network_listener */
    method NetworkListener(msg: NetMsg, now: nat)
      modifies this
      ensures View() == match msg
                        case NetNotReady => Lost(old(View()), now)
                        case OtherNet => old(View())
    {
      if msg.NetNotReady? {
        if networkEverConnected && !logFreezeScheduled {
          logFreezeScheduled := true;
          Schedule(now);
        }
      }
    }

    /** log_freeze_work_fn, started by the expired work item: a failed log persist does not keep the
        statistics from being persisted. */
    method LogFreezeWork(logArea: FlashArea, state: Option<L.Snapshot>, logOpenFault: bool,
                         cdr: C.CdrSource, cdrArea: FlashArea, stats: C.Stats, cdrOpenFault: bool)
      requires workDue.Some?
      requires cdr.Valid()
      requires logArea.cells.Length % PAGE_SIZE == 0 && cdrArea.cells.Length % PAGE_SIZE == 0
      requires logArea != cdrArea && logArea.cells != cdrArea.cells
      requires cdr.blob != logArea.cells && cdr.blob != cdrArea.cells
      modifies this, logArea`budget, logArea.cells, cdr, cdr.blob, cdrArea`budget, cdrArea.cells
      ensures View() == Fired(old(View()))
      ensures cdr.Valid()
      ensures logArea.cells[..] == L.PersistImage(old(logArea.cells[..]), state, logOpenFault, old(logArea.budget), logArea.torn)
      ensures cdrArea.cells[..] == C.PersistImage(old(cdrArea.cells[..]), stats, cdrOpenFault, old(cdrArea.budget), cdrArea.torn)
    {
      workDue := None;
      logFreezeScheduled := false;
      var _ := L.PersistNow(logArea, state, logOpenFault);
      var _ := cdr.PersistToFlash(cdrArea, stats, cdrOpenFault);
    }

    /** on_connect up to the upload: skipped altogether while a coredump waits to be sent. */
    method OnConnect(coredumpHeld: bool, logArea: FlashArea, ring: L.LogRing?, logFaults: L.ReadFaults,
                     cdr: C.CdrSource, cdrArea: FlashArea, cdrFaults: C.ReadFaults, left: seq<byte>)
      returns (logErr: Option<int>, cdrErr: Option<int>)
      requires cdr.Valid()
      requires logArea.cells.Length % PAGE_SIZE == 0 && cdrArea.cells.Length % PAGE_SIZE == 0 && logArea.cells.Length > 0
      requires logArea != cdrArea && logArea.cells != cdrArea.cells
      requires cdr.blob != logArea.cells && cdr.blob != cdrArea.cells
      requires {logArea.cells, cdrArea.cells, cdr.blob} !! L.RingArrays(ring)
      requires ring != null ==> ring.context != ring.storage
      modifies logArea`budget, logArea.cells, cdr, cdr.blob, cdrArea`budget, cdrArea.cells, L.RingArrays(ring)
      ensures cdr.Valid() && View() == old(View())
      ensures coredumpHeld ==>
                && logErr == None && cdrErr == None
                && logArea.cells[..] == old(logArea.cells[..]) && cdrArea.cells[..] == old(cdrArea.cells[..])
      ensures !coredumpHeld ==>
                && logErr == Some(L.RestoreCode(old(logArea.cells[..]), L.LiveSizes(ring), logFaults))
                && logArea.cells[..] == L.RestoreImage(old(logArea.cells[..]), L.LiveSizes(ring), logFaults, old(logArea.budget))
                && cdrErr == Some(C.RestoreCode(old(cdrArea.cells[..]), cdrFaults))
                && cdrArea.cells[..] == C.RestoreImage(old(cdrArea.cells[..]), cdrFaults, old(cdrArea.budget))
      ensures ring != null ==>
                L.Contents(ring) == if logErr == Some(0) || logErr == Some(-L.EIO)
                                    then L.Loaded(old(logArea.cells[..]), old(L.Contents(ring)), logFaults, left)
                                    else old(L.Contents(ring))
      ensures logErr == Some(0) ==>
                ring != null && L.Stored(old(logArea.cells[..])) == Some(L.Snapshot(ring.context[..], ring.storage[..]))
      ensures cdrErr == Some(0) ==> cdr.ready && C.StoredBlob(old(cdrArea.cells[..])) == Some(cdr.Blob())
    {
      if coredumpHeld {
        return None, None;
      }
      var le := L.RestoreOnConnect(logArea, ring, logFaults, left);
      var ce := cdr.RestoreFromFlash(cdrArea, cdrFaults, left);
      return Some(le), Some(ce);
    }
  }
}
