# A verified model of the Memfault Wi-Fi firmware

This project models the parts of the firmware that carry protocol, crash-safety and
decoding logic, and proves what they guarantee. `dafny verify dfyconfig.toml` checks it all
(Dafny 4.11).

| file | what it models |
|---|---|
| `Bytes.dfy`, `Words.dfy` | bytes, little-endian words, the bitwise AND of NOR programming; 32-bit counters |
| `NorFlash.dfy` | page erase and byte program steps, a cut after any step, the flash-area calls |
| `Commit.dfy` | the shared commit sequence: erase, payload, header last |
| `LogState.dfy` | persisting and restoring the Memfault log ring |
| `CdrState.dfy` | the statistics recording: collection, chunked reading, flash copy |
| `OneShot.dfy` | the record of which persist attempt a restored value came from |
| `CaptureCore.dfy` | the core's listeners, the delayed capture work, the connect handler |
| `CaptureRun.dfy` | whole runs: connects, losses, timers, uploads, power loss at any flash step |
| `OtaTriggers.dfy` | the OTA flag-and-semaphore hand-off, every atomic access one step |
| `MqttBackoff.dfy`, `MqttEcho.dfy`, `MqttConnect.dfy` | reconnect delay, echo test and ledger, connect attempts |
| `FwStats.dfy`, `CTypes.dfy`, `StructText.dfy` | the statistics decoder, the C types it has to agree with, and its struct-body parser |
| `CoredumpStorage.dfy` | the flash backend for coredumps |
| `HttpsClient.dfy` | send and receive loops, status line, the client thread and its request ledger |

## How hardware and environment enter

- A flash operation is a sequence of atomic steps: one page erase, or one byte program that ANDs
  the value in. Pages are erased one after the other from the start. `FlashArea.budget` says how many
  steps complete before the next fault; power loss and an error return both leave the image after that
  many steps. A byte whose programming was cut may hold any value whatever, which is more than the
  hardware can do. A page erase is atomic.
- Flash, read, open and erase faults, the ring contents, the driver's answer to a statistics request,
  time, DNS, `send` and `recv` results and all callbacks are parameters or events. Every result is for
  all of them.
- Error returns of the flash driver are all written as `-EIO`.
- Persist and restore do not overlap. The code has no lock between the system work queue and the
  upload thread; this is assumed.
- A failed flash read may have put any bytes into its buffer already; they are the parameter `left`.
- MQTT callbacks may land between any two steps of a publish (`MqttEcho`) or of a connection attempt
  (`MqttConnect`, where every single access of the state is a step). A callback itself, and an
  increment of a counter shared between threads, is one step.
- The Wi-Fi listener of the HTTPS client may strike between any two steps of its thread.

## Where code and documentation differ

The model follows the code.

- The restore ignores the result of its erase (`app_memfault_log_state_restore.c:205`). The snapshot is
  gone afterwards if and only if that erase completed its first page (`LogState.RestoreIsOneShotIff`).
  Where it did not, the same snapshot can be restored again (`CaptureRun.FailedEraseRepeats`), and
  everywhere else each snapshot is restored at most once (`CaptureRun.RestoredOnceInOrder`).
- The capture is described as once per disconnect. The guard is cleared when the work runs, so a second
  loss notification without a reconnect is captured again
  (`CaptureRun.SecondCaptureWithoutReconnect`).
- The backoff comment announces 300 s for the seventh retry; it is 240 s. At retry 35 the shifted word is
  zero and the delay collapses to nothing (`MqttBackoff.BackoffFollowsIntentIff`). From retry 36 on
  the shift is undefined in C.
- The echo timeout is described as firing exactly once per silence. It never fires before the first
  echo, nor in a silence whose third publish fails, nor when an echo arrives while the third message is
  being sent (`MqttEcho.TimeoutIff`).
- `mqtt_do_connect` tests the connection state twice and marks it before it calls the library, so
  connect calls are not always separated by a write of DISCONNECTED. There are exactly two race
  windows: a write of DISCONNECTED between the write of CONNECTING and the call, and an accepted
  CONNACK between the two tests of an attempt that waits on the call before it. Throughout a run from
  reset the calls are and would stay serialised if and only if no step falls into a window
  (`MqttConnect.SerialisedIffRaceFree`); each window is hit by a whole run from reset
  (`DropBeforeCall`, `AcceptBetweenTests`).
- An echo that overtakes the return of its own publish is counted as a mismatch
  (`MqttEcho.FreshEchoIff`, `MqttEcho.EarlyEchoMismatches`).
- The coredump erase loop stops at `erase_size` instead of `offset + erase_size`, so it covers the
  requested range only from offset zero (`CoredumpStorage.EraseCoversRequestIff`).
- The reported MQTT score (total minus failures) is not the number of matched echoes once a publish,
  a subscription or an echo has failed or timed out (`MqttEcho.ScoreIsMatchesIff`).

## Model

| member | source | states |
|---|---|---|
| `Commit.WriteBlob` | src/modules/app_memfault/core/app_memfault_log_state_restore.c:118-140 | payload in two adjacent writes, header last; the first failed write ends it, and the flash is the exact cut of that step sequence |
| `Commit.CutCommit` | src/modules/app_memfault/core/app_memfault_log_state_restore.c:111-145 | a commit cut after any step is untouched, has an erased header, or has the whole payload behind a header prefix |
| `LogState.PersistNow` | src/modules/app_memfault/core/app_memfault_log_state_restore.c:78-150 | result code and flash image for every state, partition size and fault position |
| `LogState.LoadRing` | src/modules/app_memfault/core/app_memfault_log_state_restore.c:197-202 | both ring areas overwritten from flash; after a failed read exactly what is overwritten, partly overwritten and untouched |
| `LogState.RestoreOnConnect` | src/modules/app_memfault/core/app_memfault_log_state_restore.c:152-246 | result code, erased flash, and on result 0 a ring equal to the stored snapshot; ring untouched on refusal, spoilt exactly as the failed read left it on a read error |
| `LogState.HeaderRoundTrip` | src/modules/app_memfault/core/app_memfault_log_state_restore.c:68-76 | the 16 header bytes read back as the fields they were written from |
| `LogState.BadLastByteRejected` | src/modules/app_memfault/core/app_memfault_log_state_restore.c:185-202 | while the last header byte is not its final value nothing can be restored |
| `LogState.TornHeader` | src/modules/app_memfault/core/app_memfault_log_state_restore.c:133-145 | every strict header prefix is rejected whatever the torn byte holds |
| `LogState.PersistIsCrashAtomic` | src/modules/app_memfault/core/app_memfault_log_state_restore.c:104-145 | over any previous content and any cut: old image, nothing readable, or exactly the new snapshot, and exactly when each |
| `LogState.RestoreSucceedsIff` | src/modules/app_memfault/core/app_memfault_log_state_restore.c:159-211 | result 0 exactly when a readable snapshot of the live sizes is stored and no access fails |
| `LogState.UnreadableIsRefused` | src/modules/app_memfault/core/app_memfault_log_state_restore.c:170-195 | an unreadable image yields -ENOENT or -ENOSPC and nothing else |
| `LogState.RestoreIsOneShotIff` | src/modules/app_memfault/core/app_memfault_log_state_restore.c:204-211 | after a restore the snapshot is gone exactly when the ignored erase completed a page |
| `LogState.RefusedIff` | src/modules/app_memfault/core/app_memfault_log_state_restore.c:159-182 | -ENOENT exactly when area or header cannot be read or no good header, byte by byte, is there |
| `LogState.RestoreAnswers` | src/modules/app_memfault/core/app_memfault_log_state_restore.c:184-211 | over an image: -EINVAL exactly without a ring, -ENOSPC exactly for other sizes, -EIO exactly for an unreadable area, 0 otherwise |
| `LogState.ReadImageIsGone` | src/modules/app_memfault/core/app_memfault_log_state_restore.c:184-211 | whatever the ring, one completed page erase and the image is gone, even if it was of no use |
| `LogState.LeftInPlaceIff` | src/modules/app_memfault/core/app_memfault_log_state_restore.c:159-211 | the partition is left alone exactly when area or header cannot be read, no good header is there or the erase completes no page |
| `LogState.PersistAnswers` | src/modules/app_memfault/core/app_memfault_log_state_restore.c:78-150 | each result code of a persist, exactly when, and what it means for the flash |
| `LogState.LoadedIs` | src/modules/app_memfault/core/app_memfault_log_state_restore.c:197-202 | what a failed read leaves of ring and snapshot, area by area |
| `LogState.HeaderFieldsIff` | src/modules/app_memfault/core/app_memfault_log_state_restore.c:170-190 | the checked header fields are accepted for given sizes exactly when they hold those bytes |
| `LogState.StoredIff` | src/modules/app_memfault/core/app_memfault_log_state_restore.c:164-202 | a partition is taken for a snapshot exactly when it holds that snapshot's image byte by byte |
| `LogState.PersistThenRestore` | src/modules/app_memfault/core/app_memfault_log_state_restore.c:78-246 | persist followed by restore gives the snapshot back |
| `CdrState.CdrSource.HasCdr` | src/modules/app_memfault/cdr/app_memfault_nrf70_fw_stats_cdr.c:67-75 | a recording is announced exactly when ready, with its true size between 1 and 1024 |
| `CdrState.CdrSource.ReadData` | src/modules/app_memfault/cdr/app_memfault_nrf70_fw_stats_cdr.c:77-90 | one chunk of the blob at the given offset, or false at its end; the read offset follows |
| `CdrState.CdrSource.MarkRead` | src/modules/app_memfault/cdr/app_memfault_nrf70_fw_stats_cdr.c:92-98 | the recording is dropped |
| `CdrState.CollectedIs` | src/modules/app_memfault/cdr/app_memfault_nrf70_fw_stats_cdr.c:123-170 | a recording exists exactly if the driver delivers something, and is as much of its front as fits 1024 bytes |
| `CdrState.CdrSource.Collect` | src/modules/app_memfault/cdr/app_memfault_nrf70_fw_stats_cdr.c:100-177 | the blob is a prefix of the statistics, all of them or 1024 bytes; ready exactly on success, old data gone either way |
| `CdrState.CdrSource.PersistToFlash` | src/modules/app_memfault/cdr/app_memfault_nrf70_fw_stats_cdr.c:200-269 | result code, flash image and RAM state for every answer of the driver and every fault position |
| `CdrState.ReadSize` | src/modules/app_memfault/cdr/app_memfault_nrf70_fw_stats_cdr.c:277-293 | the header check, with -ENOENT in exactly the source's cases |
| `CdrState.CdrSource.RestoreFromFlash` | src/modules/app_memfault/cdr/app_memfault_nrf70_fw_stats_cdr.c:271-313 | result code, erased flash, and on result 0 the stored blob ready for upload; buffer untouched on refusal, and spoilt under an unchanged ready flag by a failed read |
| `CdrState.BadTopByteRejected` | src/modules/app_memfault/cdr/app_memfault_nrf70_fw_stats_cdr.c:288-293 | a torn size word exceeds the 1024 limit and is refused |
| `CdrState.TornHeader` | src/modules/app_memfault/cdr/app_memfault_nrf70_fw_stats_cdr.c:252-264 | a header cut before its size word is complete is refused; a cut in the unchecked tail is accepted with the whole blob |
| `CdrState.PersistIsCrashAtomic` | src/modules/app_memfault/cdr/app_memfault_nrf70_fw_stats_cdr.c:228-264 | over any previous content and any cut: old image, nothing readable, or exactly the collected blob |
| `CdrState.RestoreSucceedsIff` | src/modules/app_memfault/cdr/app_memfault_nrf70_fw_stats_cdr.c:277-304 | result 0 exactly when a readable blob is stored and no access fails |
| `CdrState.RestoreIsOneShotIff` | src/modules/app_memfault/cdr/app_memfault_nrf70_fw_stats_cdr.c:295-304 | after a restore the blob is gone exactly when the ignored erase completed a page |
| `CdrState.RefusedIff` | src/modules/app_memfault/cdr/app_memfault_nrf70_fw_stats_cdr.c:277-293 | -ENOENT exactly when area or header cannot be read or no good header, byte by byte, is there |
| `CdrState.RestoreAnswers` | src/modules/app_memfault/cdr/app_memfault_nrf70_fw_stats_cdr.c:295-304 | over an image: -EIO exactly for an unreadable blob, 0 otherwise, and one completed page erase takes it away |
| `CdrState.LeftInPlaceIff` | src/modules/app_memfault/cdr/app_memfault_nrf70_fw_stats_cdr.c:277-304 | the partition is left alone exactly when area or header cannot be read, no good header is there or the erase completes no page |
| `CdrState.PersistAnswers` | src/modules/app_memfault/cdr/app_memfault_nrf70_fw_stats_cdr.c:200-269 | each result code of a persist, exactly when, and what it means for the flash |
| `CdrState.StoredIff` | src/modules/app_memfault/cdr/app_memfault_nrf70_fw_stats_cdr.c:190-196 | a partition is taken for a blob exactly when it holds that blob's image byte by byte |
| `CdrState.ReadAllIsPrefix` | src/modules/app_memfault/cdr/app_memfault_nrf70_fw_stats_cdr.c:77-90 | consecutive reads of any sizes deliver a prefix: nothing invented, repeated or skipped |
| `CdrState.ReadAllEndsIff` | src/modules/app_memfault/cdr/app_memfault_nrf70_fw_stats_cdr.c:82-84 | the whole blob has been delivered exactly when the next read says false |
| `CdrState.ReadAllIsComplete` | src/modules/app_memfault/cdr/app_memfault_nrf70_fw_stats_cdr.c:77-90 | enough reads of positive sizes deliver the whole blob |
| `CaptureCore.MemfaultCore.WifiListener` | src/modules/app_memfault/core/app_memfault_core.c:231-260 | the core's new state for each Wi-Fi message |
| `CaptureCore.MemfaultCore.NetworkListener` | src/modules/app_memfault/core/app_memfault_core.c:269-282 | the core's new state for each network message |
| `CaptureCore.MemfaultCore.LogFreezeWork` | src/modules/app_memfault/core/app_memfault_core.c:69-85 | guard cleared, both partitions persisted, the second one whether or not the first failed |
| `CaptureCore.MemfaultCore.OnConnect` | src/modules/app_memfault/core/app_memfault_core.c:143-170 | both restores in order, none while a coredump waits, and what each delivered |
| `CaptureRun.RestoredOnceInOrder` | src/modules/app_memfault/core/app_memfault_core.c:143-170 | over every run with power loss anywhere: each restored snapshot and blob is in full that of the latest attempt that reached its erase, and attempts are restored in strictly increasing order |
| `CaptureRun.FailedEraseRepeats` | src/modules/app_memfault/core/app_memfault_log_state_restore.c:204-206 | a whole run from reset in which both ignored erases fail outright and the same snapshot and the same blob are restored twice |
| `CaptureRun.CaptureIsDelivered` | src/modules/app_memfault/core/app_memfault_core.c:143-162 | a completed capture survives reboots, reconnects, DNS waits that end without Wi-Fi, connects held back by a coredump and restores that cannot read the header, and is what the next undisturbed restore returns |
| `CaptureRun.StatsAreDelivered` | src/modules/app_memfault/core/app_memfault_core.c:143-170 | the front of the fetched statistics, up to 1024 bytes, comes back in the same way; it also survives power loss in the log persist and in the log restore |
| `CaptureRun.FlagsFollow` | src/modules/app_memfault/core/app_memfault_core.c:231-282 | over every run: the connected flag is set exactly while Wi-Fi is up, the semaphore exactly while an upload is asked for and not begun, and the thread waits for DNS exactly within a round |
| `CaptureRun.NothingRestoredOffline` | src/modules/app_memfault/core/app_memfault_core.c:143-148 | a DNS wait that ends after an unanswered Wi-Fi loss, or while a coredump waits, restores nothing and touches neither partition |
| `CaptureRun.CapturesFollowLosses` | src/modules/app_memfault/core/app_memfault_core.c:231-282 | over every run: guard set exactly while work is pending, due ten seconds after the first open loss, captures only for such losses and at least ten seconds apart |
| `CaptureRun.CapturesApart` | src/modules/app_memfault/core/app_memfault_core.c:54-72 | two captures are at least ten seconds apart |
| `CaptureRun.SecondCaptureWithoutReconnect` | src/modules/app_memfault/core/app_memfault_core.c:57-72 | a second loss without reconnect is captured again |
| `OtaTriggers.ContextNamesFlags` | src/modules/app_memfault/ota/app_memfault_ota_triggers.c:34-53 | the context string names exactly the set flags |
| `OtaTriggers.Triggers.Notify` | src/modules/app_memfault/ota/app_memfault_ota_triggers.c:120-143 | run alone, a notify sets its flag and leaves the semaphore given |
| `OtaTriggers.Triggers.ConsumeTriggerContext` | src/modules/app_memfault/ota/app_memfault_ota_triggers.c:34-53 | swaps the flags out and names exactly them |
| `OtaTriggers.HandOffIsSafe` | src/modules/app_memfault/ota/app_memfault_ota_triggers.c:81-143 | under every interleaving: each consume names exactly the sources set since the previous one, set flags are covered, checks never outnumber calls |
| `OtaTriggers.NoTriggerLost` | src/modules/app_memfault/ota/app_memfault_ota_triggers.c:31-53 | when all is quiet every trigger ever set was taken and named by the first consume after it |
| `OtaTriggers.ManualMeansAlreadyTaken` | src/modules/app_memfault/ota/app_memfault_ota_triggers.c:38-40 | "manual" is reported only when an earlier consume took the caller's flag |
| `OtaTriggers.ConsumerDrains` | src/modules/app_memfault/ota/app_memfault_ota_triggers.c:87-112 | with no call in flight the consumer's current round and at most one more clear everything |
| `OtaTriggers.DelaysIff` | src/modules/app_memfault/ota/app_memfault_ota_triggers.c:90-106 | the thread waits before a check exactly when, since the last one, a connect was notified and no button was pressed |
| `OtaTriggers.DelayedCheckNamesConnect` | src/modules/app_memfault/ota/app_memfault_ota_triggers.c:90-108 | the check after such a wait names the connect |
| `MqttBackoff.ShiftRanges` | src/modules/app_mqtt_client/app_mqtt_client.c:45-47 | where the wrapped shift is exact, above the cap, and zero |
| `MqttBackoff.BackoffFollowsIntentIff` | src/modules/app_mqtt_client/app_mqtt_client.c:40-48 | the delay is the capped doubling exactly up to retry 34, and zero at 35 |
| `MqttBackoff.IntendedShape` | src/modules/app_mqtt_client/app_mqtt_client.c:33-38 | the capped doubling is monotone within 5 to 300 s and reaches 300 at retry 8 |
| `MqttEcho.EchoRoundTrip` | src/modules/app_mqtt_client/app_mqtt_client.c:170-176 | every 32-bit counter printed, truncated to 15 bytes and parsed is itself |
| `MqttEcho.StrtoulReads` | src/modules/app_mqtt_client/app_mqtt_client.c:175-176 | blanks before and anything after a number are ignored, a minus sign negates on 32 bits, a number that does not fit saturates |
| `MqttEcho.OnlyFifteenBytes` | src/modules/app_mqtt_client/app_mqtt_client.c:170-176 | only the first 15 bytes of a payload count |
| `MqttEcho.StateFollows` | src/modules/app_mqtt_client/app_mqtt_client.c:101-147 | over every run the client is connected exactly since an accepted CONNACK nothing has ended, and connecting exactly since an attempt nothing has answered |
| `MqttEcho.NetworkFollows` | src/modules/app_mqtt_client/app_mqtt_client.c:535-559 | over every run the network flags are what the notifications made of them |
| `MqttEcho.MarksMean` | src/modules/app_mqtt_client/app_mqtt_client.c:165-207 | every echo, every refused subscription, every missed interval after the first network-up, and no other event, is counted as one |
| `MqttEcho.MismatchIff` | src/modules/app_mqtt_client/app_mqtt_client.c:185-196 | an echo of n mismatches exactly when the last published counter is neither 0 nor n |
| `MqttEcho.PromptEchoesMatch` | src/modules/app_mqtt_client/app_mqtt_client.c:165-196 | a run whose echoes carry the last published number counts no mismatch |
| `MqttEcho.Ledger` | src/modules/app_mqtt_client/app_mqtt_client.c:90-98 | over every run the three counters are the sums of what happened modulo 2^32 |
| `MqttEcho.ScoreIsMatchesIff` | src/modules/app_mqtt_client/app_mqtt_client.c:194-205 | total minus failures is the number of matches exactly when send errors and timeouts cancel |
| `MqttEcho.FailuresCanExceedTotal` | src/modules/app_mqtt_client/app_mqtt_client.c:198-207 | a failed subscription alone puts failures above total |
| `MqttEcho.FreshEchoIff` | src/modules/app_mqtt_client/app_mqtt_client.c:307-327 | the echo of the newest message is a mismatch exactly when an earlier message was handed over and the newest has not been |
| `MqttEcho.EarlyEchoMismatches` | src/modules/app_mqtt_client/app_mqtt_client.c:307-327 | a run from reset in which a true echo overtakes its own publish and is counted as a mismatch |
| `MqttEcho.TimeoutIff` | src/modules/app_mqtt_client/app_mqtt_client.c:307-340 | wherever callbacks land, a silence test counts a timeout exactly when three attempts were made since the last echo and an attempt preceded that echo |
| `MqttEcho.EchoBetweenTimeouts` | src/modules/app_mqtt_client/app_mqtt_client.c:330-340 | at most one timeout per silence |
| `MqttEcho.TimeoutsBounded` | src/modules/app_mqtt_client/app_mqtt_client.c:330-340 | three attempts for every timeout |
| `MqttEcho.PublishedAloneIs` | src/modules/app_mqtt_client/app_mqtt_client.c:292-343 | what an uninterrupted publish does to every variable |
| `MqttEcho.MqttClient.OnConnack` | src/modules/app_mqtt_client/app_mqtt_client.c:101-114 | the state after an accepted or refused connection |
| `MqttEcho.MqttClient.OnDisconnect` | src/modules/app_mqtt_client/app_mqtt_client.c:144-147 | the state after a disconnect callback |
| `MqttEcho.MqttClient.RecordMissedInterval` | src/modules/app_mqtt_client/app_mqtt_client.c:383-388 | a missed interval counts once in both counters if the network was ever seen |
| `MqttEcho.MqttClient.OnPublish` | src/modules/app_mqtt_client/app_mqtt_client.c:165-196 | the variables after an echo of any payload |
| `MqttEcho.MqttClient.OnSuback` | src/modules/app_mqtt_client/app_mqtt_client.c:198-207 | the variables after a subscription answer |
| `MqttEcho.MqttClient.PublishMessage` | src/modules/app_mqtt_client/app_mqtt_client.c:292-343 | run without a callback in between, a publish that is skipped, fails or succeeds is its four steps in a row |
| `MqttEcho.MqttClient.NotifyConnected` | src/modules/app_mqtt_client/app_mqtt_client.c:535-546 | the variables after a network-up notification |
| `MqttEcho.MqttClient.NotifyDisconnected` | src/modules/app_mqtt_client/app_mqtt_client.c:548-559 | the variables after a network-down notification |
| `MqttConnect.SerialisedIffRaceFree` | src/modules/app_mqtt_client/app_mqtt_client.c:241-290 | for every interleaving from reset: connect calls are, and at every moment would stay, serialised by a write of DISCONNECTED if and only if no step falls into one of the two race windows |
| `MqttConnect.RaceStepIff` | src/modules/app_mqtt_client/app_mqtt_client.c:241-290 | out of a secure state no step repeats a call, and exactly the race steps lead to an exposed state |
| `MqttConnect.SafeIff` | src/modules/app_mqtt_client/app_mqtt_client.c:241-290 | the client thread, left alone, keeps its calls serialised exactly from the states that are not exposed |
| `MqttConnect.RaceFreeCallsAreSerialised` | src/modules/app_mqtt_client/app_mqtt_client.c:241-290 | without a race step all calls are serialised |
| `MqttConnect.RaceStepBites` | src/modules/app_mqtt_client/app_mqtt_client.c:241-290 | the first race step of any run can be carried on, by the client thread alone, to a repeated call |
| `MqttConnect.ReachCall` | src/modules/app_mqtt_client/app_mqtt_client.c:245-282 | the undisturbed way from any point of an attempt whose tests pass to its one call |
| `MqttConnect.StateIsLastWritten` | src/modules/app_mqtt_client/app_mqtt_client.c:101-147 | in every interleaving the state is what was written last, and a thread at rest under CONNECTING waits for the answer to a call the library accepted |
| `MqttConnect.FailureFreesClient` | src/modules/app_mqtt_client/app_mqtt_client.c:258-287 | after every failed setup and every failed call DISCONNECTED is written and the thread alone reaches another call |
| `MqttConnect.LossFreesClient` | src/modules/app_mqtt_client/app_mqtt_client.c:548-559 | a network loss that finds the client connected leaves it disconnected |
| `MqttConnect.CallsSerialisedUnlessRaced` | src/modules/app_mqtt_client/app_mqtt_client.c:241-290 | in every interleaving each repeated call follows a call made over a state already DISCONNECTED, or had read CONNECTING at its first test and CONNECTED at its second |
| `MqttConnect.AcceptBetweenTests` | src/modules/app_mqtt_client/app_mqtt_client.c:245-256 | a whole run from reset: an accepted CONNACK between the two tests, and calls that are not serialised |
| `MqttConnect.DropBeforeCall` | src/modules/app_mqtt_client/app_mqtt_client.c:256-282 | a whole run from reset: a disconnect between the write of CONNECTING and the call, and calls that are not serialised |
| `MqttConnect.SerialisedIff` | src/modules/app_mqtt_client/app_mqtt_client.c:241-290 | calls are serialised exactly when no two of them are adjacent in the record |
| `FwStats.UnpackPackOne` | script/nrf70_fw_stats_parser.py:76-96 | each format character decodes what it encodes over its whole range |
| `FwStats.UnpackPack` | script/nrf70_fw_stats_parser.py:119-125 | unpacking a packed field list gives the values back in order |
| `FwStats.AllWordsSize` | script/nrf70_fw_stats_parser.py:157-159 | an all-unsigned-int section takes four bytes a field |
| `FwStats.UmacSectionsAreWords` | script/nrf70_fw_stats_parser.py:154-206 | in the four UMAC sections field i is the little-endian word at byte 4i, whatever its declared type |
| `CTypes.TableIsRight` | script/nrf70_fw_stats_parser.py:74-96 | every listed integer type gets a format of its own size and sign, nested structs and unknown types an unsigned word |
| `CTypes.SectionFieldIs` | script/nrf70_fw_stats_parser.py:107-206 | in every section of every blob field i is the two's complement number behind the fields before it, as wide and as signed as its C type in the PHY and LMAC sections, an unsigned word in the others |
| `CTypes.FirmwareRoundTrip` | script/nrf70_fw_stats_parser.py:98-212 | for any declarations of the six structs and any values of their types, a blob laid out by C sizes decodes to the six titles, the declared names and exactly those values |
| `FwStats.ReportOfPacked` | script/nrf70_fw_stats_parser.py:105-212 | packed sections, wherever they stand, are reported with their names and exactly their values |
| `FwStats.StatsRoundTrip` | script/nrf70_fw_stats_parser.py:98-212 | a blob of packed sections and any trailing bytes decodes to the packed values |
| `FwStats.ReportIsContiguous` | script/nrf70_fw_stats_parser.py:105-212 | for any blob the consumed regions are in order, back to back and inside it, whatever is skipped |
| `FwStats.ReportOneMore` | script/nrf70_fw_stats_parser.py:105-212 | a section is printed exactly if its struct is known and it fits behind those printed before it, whatever was skipped |
| `FwStats.BuildFormat` | script/nrf70_fw_stats_parser.py:110-117 | the format string of a field list (`CTypes.TableIsRight` says that it fits the types) |
| `FwStats.ReadOne` | script/nrf70_fw_stats_parser.py:119-127 | one section is read if present and short enough, skipped otherwise |
| `FwStats.ParseSections` | script/nrf70_fw_stats_parser.py:105-212 | the pass over the sections, its report and its final offset |
| `FwStats.ParseStats` | script/nrf70_fw_stats_parser.py:98-212 | the same for the six sections of the real layout |
| `StructText.ReadLine` | script/nrf70_fw_stats_parser.py:52-70 | the zero or one fields a line adds |
| `StructText.ParseStructFields` | script/nrf70_fw_stats_parser.py:47-72 | the field list of a struct body |
| `StructText.ParseBodyBySplit` | script/nrf70_fw_stats_parser.py:50-53 | stripping the whole body first never changes the result |
| `StructText.JoinIsSpaced` | script/nrf70_fw_stats_parser.py:68-69 | the type text is the words with one blank between each two |
| `StructText.BeforeIs` | script/nrf70_fw_stats_parser.py:57-61 | a comment mark cuts a line at its first occurrence |
| `StructText.HiddenParses` | script/nrf70_fw_stats_parser.py:52-70 | a line with no semicolon before its comment declares nothing |
| `StructText.ParseDecl` | script/nrf70_fw_stats_parser.py:57-70 | a declaration line yields its type words and name, whatever follows the semicolon; a single word yields nothing |
| `StructText.ParseUndoesWriting` | script/nrf70_fw_stats_parser.py:47-72 | for any layout of declarations, blank lines, comments and commented-out code the parser returns exactly the declared fields in order |
| `CoredumpStorage.BoundsCheckIff` | src/modules/app_memfault/core/app_memfault_flash_coredump_storage.c:35-41 | the 32-bit bounds check is right exactly unless the sum wraps to something small |
| `CoredumpStorage.EraseCoversRequestIff` | src/modules/app_memfault/core/app_memfault_flash_coredump_storage.c:67-71 | the loop covers the requested range exactly when it starts at zero or is empty |
| `CoredumpStorage.Storage.Read` | src/modules/app_memfault/core/app_memfault_flash_coredump_storage.c:43-53 | the partition bytes, or false outside it |
| `CoredumpStorage.Storage.Erase` | src/modules/app_memfault/core/app_memfault_flash_coredump_storage.c:55-74 | exactly the visited pages become 0xFF and nothing else changes |
| `CoredumpStorage.Storage.BufferedWrite` | src/modules/app_memfault/core/app_memfault_flash_coredump_storage.c:76-90 | the block is programmed in place, nothing outside the partition changes |
| `CoredumpStorage.Storage.CoredumpRead` | src/modules/app_memfault/core/app_memfault_flash_coredump_storage.c:92-100 | zeroes once cleared, the partition before that |
| `CoredumpStorage.Storage.Clear` | src/modules/app_memfault/core/app_memfault_flash_coredump_storage.c:102-121 | a successful clear zeroes the first word and sets the flag; a failed one leaves the flag |
| `CoredumpStorage.WrittenIsProgrammed` | src/modules/app_memfault/core/app_memfault_flash_coredump_storage.c:87-88 | a block write is the byte-by-byte program sequence |
| `CoredumpStorage.BlocksReadBack` | src/modules/app_memfault/core/app_memfault_flash_coredump_storage.c:76-90 | blocks at separate offsets read back exactly, in any order and number, each that was blank where it was written |
| `CoredumpStorage.SavedReadsBack` | src/modules/app_memfault/core/app_memfault_flash_coredump_storage.c:43-90 | after an erase of any size from the start, over any content, all separate blocks below that size read back and nothing past the erased pages changes |
| `CoredumpStorage.ClearedWordSticks` | src/modules/app_memfault/core/app_memfault_flash_coredump_storage.c:102-121 | a cleared word stays zero under any further writes |
| `HttpsClient.RecvInto` | src/modules/app_https_client/app_https_client.c:312-318 | one recv: error, or the delivered bytes stored behind the earlier ones |
| `HttpsClient.Receive` | src/modules/app_https_client/app_https_client.c:310-319 | terminates for any peer, never overruns, and leaves exactly the delivered bytes at the front |
| `HttpsClient.FindCrlf` | src/modules/app_https_client/app_https_client.c:331-332 | the first CRLF of the NUL-terminated text, or none |
| `HttpsClient.TakeStatusLine` | src/modules/app_https_client/app_https_client.c:323-340 | the first line cut to 63 bytes, a function of this request's bytes only |
| `HttpsClient.StatusLineUnique` | src/modules/app_https_client/app_https_client.c:331-340 | the received bytes determine the status line |
| `HttpsClient.StatusLineIs` | src/modules/app_https_client/app_https_client.c:323-340 | the line up to the first CRLF that ends within 2047 bytes with no NUL before it, cut to 63 bytes, or nothing |
| `HttpsClient.LedgerBalances` | src/modules/app_https_client/app_https_client.c:204-212 | over every run of thread and listener, total counts each request carried out and each interval lost, failures the lost intervals and the exchanges some step of which failed |
| `HttpsClient.ScoreIsSuccesses` | src/modules/app_https_client/app_https_client.c:344-356 | total minus failures is the number of exchanges carried out in full, modulo 2^32 |
| `HttpsClient.SeenOnceReady` | src/modules/app_https_client/app_https_client.c:491-503 | the seen-network guard is open whenever the network is up or the thread is past its semaphore |
| `HttpsClient.LoopExitIsRecorded` | src/modules/app_https_client/app_https_client.c:390-471 | every exit of the request loop and every wake-up without a once-seen network is recorded, and a request goes uncounted exactly when the network went between the loop's test and its own |
| `HttpsClient.SendHead` | src/modules/app_https_client/app_https_client.c:297-306 | the send loop ends with the whole request out or on the first error |
| `HttpsClient.SentAllIff` | src/modules/app_https_client/app_https_client.c:297-306 | the request is out exactly if some number of calls without an error takes all its bytes |
| `HttpsClient.DrainOfPieces` | src/modules/app_https_client/app_https_client.c:310-319 | any pieces that fit are delivered in order when the peer closes and lost on an error |
| `HttpsClient.DrainOfTooMuch` | src/modules/app_https_client/app_https_client.c:310-319 | of more than fits the front is kept |
| `HttpsClient.OneFailureIsEnough` | src/modules/app_https_client/app_https_client.c:240-317 | any one failed step fails the request, and if none fails it succeeds |
| `HttpsClient.ReadyFollows` | src/modules/app_https_client/app_https_client.c:399-408 | over every run the network counts as up exactly if no loss and no failed provisioning followed the last notification |
| `HttpsClient.RoundsGoThrough` | src/modules/app_https_client/app_https_client.c:384-460 | with the network up the thread gets to a request that is counted; after failed provisioning its next wake-up counts a lost interval |
| `HttpsClient.Client.NotifyConnected` | src/modules/app_https_client/app_https_client.c:491-503 | the client's variables after a network-up notification |
| `HttpsClient.Client.NotifyDisconnected` | src/modules/app_https_client/app_https_client.c:505-510 | the client's variables after a network-down notification |
| `HttpsClient.Client.WakeUp` | src/modules/app_https_client/app_https_client.c:385-398 | an interval without network is recorded, otherwise the thread goes on to prepare |
| `HttpsClient.Client.TestLoop` | src/modules/app_https_client/app_https_client.c:459-471 | the loop goes on while the network is up, and its end is recorded |
| `HttpsClient.Client.RecordMissedInterval` | src/modules/app_https_client/app_https_client.c:391-397 | a missed interval counts once in both counters if the network was ever seen |
| `HttpsClient.Client.Perform` | src/modules/app_https_client/app_https_client.c:240-340 | each of the six exits raises the failure flag, which ends up set exactly unless every step went through; then the status line is that of the bytes received |
| `HttpsClient.Client.SendHttpRequest` | src/modules/app_https_client/app_https_client.c:214-356 | a skipped request counts nothing; otherwise one request is counted, and one failure exactly unless the exchange succeeded |

## Left out

- Sockets, TLS, DNS, certificates, the MQTT library, uploads and FOTA: only their results appear, as parameters or events.
- The Memfault ring's internal format, its trigger flag, log flushing and the restore marker line: context and storage are opaque bytes.
- The DNS wait of the upload thread is one event with a nondeterministic outcome; its 300 s bound is not stated.
- A page erase interrupted in the middle of a page is not modelled.
- Running-while-cancelling corner cases of the delayable work item.
- The OTA connect delay is a state of the thread without a duration, and the periodic check changes nothing.
- MqttEcho.TimeoutIff: stated for runs with fewer than 2^32 publish attempts, as the counters wrap beyond that.
- `app_mqtt_client_publish`, which sends arbitrary payloads on the echo topic.
- MqttBackoff.BackoffFollowsIntentIff: does not cover retries from 36 on, where the C shift is undefined.
- FwStats.UnpackPackOne: floats and doubles are carried as their bit patterns.
- The regular expression that finds struct bodies in the header file, command line and file handling of the script.
- CoredumpStorage.Storage.Read: not stated for a range whose 32-bit sum wraps to something small, the one case in which the bounds check is wrong (`CoredumpStorage.BoundsCheckIff`) and the source leaves the partition.
- CoredumpStorage.Storage.Erase: the same.
- CoredumpStorage.Storage.BufferedWrite: the same.
- CoredumpStorage.Storage.CoredumpRead: the same, while nothing has been cleared.
- HttpsClient.SendHead: covers every finite list of `send` results and then a timeout; a peer that accepts zero bytes for ever, with which the source would not end, is not modelled.
- The DNS wait and first delay of the HTTPS thread are one step; `https_client_running`, which nothing clears, is not modelled.
- MQTT and HTTPS counters that two threads increment at the same instant: an increment is one step.
- Wi-Fi and memory metrics, platform time, the network event shim, UX, buttons and LEDs: flat branching with only easy claims.
