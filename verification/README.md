# ShellSpan backend: a verified model

A Dafny model of the stateful core of the ShellSpan desktop client's Rust backend, of the icon script and of
the terminal transport benchmark, with proofs of what these parts promise over all inputs, all runs and all
interleavings. `dafny verify dfyconfig.toml` checks the whole project.

How the model is laid out:

- `SftpPool.dfy`, `SingleFlight.dfy`, `SingleFlightRuns.dfy`, `SingleFlightSharing.dfy`,
  `SingleFlightOutcomes.dfy`: the pool of SFTP connections and the single-flight connect protocol. The pool's operations work in place on its maps and are
  proved against functions of the pool's value. The protocol runs any number of callers over those functions,
  one lock-protected step at a time; panics, aborts, deadlines and invalidations are steps anybody may choose.
- `Utf8.dfy`, `OutputBuffer.dfy`, `SessionLoop.dfy`, `LocalWorker.dfy`, `LocalWorkerScripts.dfy`: one theory of incremental UTF-8
  decoding, and the remote and the local terminal worker built on it. A worker's surroundings are finite
  scripts of what the network, the clock, the flags and the channels do.
- `SessionCommands.dfy`, `Wakeups.dfy`: the command coalescer and the two wakeup protocols.
- `Bridges.dfy`, `PortForwards.dfy`: the byte pumps, and the manager of port-forward operations together with
  its workers.
- `DirectoryRequests.dfy`, `ReadCancellation.dfy`, `FrontendStorage.dfy`: bounded registries, and draft commits
  with their index columns.
- `Png.dfy`, `IconContainers.dfy`, `TerminalPayload.dfy`, `KnownHosts.dfy`, `LogReader.dfy`: parsers, printers
  and the resumable log reader.

Text that Rust keeps as a `String` is represented by its UTF-8 bytes where its length or its bytes matter, and
as a sequence of characters elsewhere.

Where the code does less than one might expect, the model follows the code and says exactly when:

- Coalescing a batch twice can change it. This happens exactly when empty writes stand between two resizes
  (`SessionCommands.CoalesceIdempotentIff`).
- Commands dequeued in the round in which the controller disconnects are never written
  (`SessionLoop.SshSession.Run`).
- The local worker drops gated output when the user closes the session before the gate was observed open, even
  if the view had become ready by then (`LocalWorker.Worker.Run`).
- The jump-host bridge stops reading one side as soon as the other has ended (`Bridges.BridgeChannelTcp`).
- A cancelled port forward can show as running again when it reports ready late
  (`PortForwards.LateReadyKeepsFlag`).
- A log with an ill-formed byte can have a character split between two reads
  (`LogReader.ContentsAreDecodingIff`, `LogReader.IllFormedLogSplitsCharacter`).
- Removing an endpoint from a known-hosts line can leave a host field that is empty, turns the line into a
  comment, or reads as a marker (`KnownHosts.RewrittenLineIff`, `KnownHosts.LeftoverBecomesComment`).
- An ICO size byte is ambiguous beyond 256 pixels (`IconContainers.SizeByteIsExactIff`).

## Model

| member | source | states |
|---|---|---|
| `SftpPools.SftpPool.LookUp` | src-tauri/src/sftp_pool.rs:199-237 | one lookup evicts exactly the idle entries, touches the hit, and asks for a probe exactly when the last verification is too old |
| `SftpPools.SftpPool.SettleProbe` | src-tauri/src/sftp_pool.rs:237-249 | a probe refreshes or removes an entry only if it still holds the probed connection |
| `SftpPools.SftpPool.BeginConnection` | src-tauri/src/sftp_pool.rs:287-307 | the claim is a follower of the slot in flight, or the leader of a new pending slot |
| `SftpPools.SftpPool.FinishConnect` | src-tauri/src/sftp_pool.rs:309-356 | publication, slot outcome and release of the key, in that order, and only by the generation that owns the key |
| `SftpPools.SftpPool.DropGuard` | src-tauri/src/sftp_pool.rs:96-135 | a dropped guard fails a pending slot and frees only its own claim |
| `SftpPools.SftpPool.ReleaseTimedOut` | src-tauri/src/sftp_pool.rs:358-408 | a follower that gave up frees the key only if its own slot still holds it |
| `SftpPools.WaitConnect` | src-tauri/src/sftp_pool.rs:358-408 | the wait ends at the first poll that decides: own abort, then outcome, then the deadline of a minute |
| `SftpPools.LookupMeans` | src-tauri/src/sftp_pool.rs:206-226 | exactly the entries used in the last five minutes stay, only the looked-up one is touched, and it is trusted exactly if it was verified in the last thirty seconds |
| `SftpPools.ProbeMeans` | src-tauri/src/sftp_pool.rs:237-249 | a probe refreshes or drops the connection that was probed and no other, even under the same key |
| `SftpPools.PublishMeans` | src-tauri/src/sftp_pool.rs:251-285 | publishing does nothing without ownership or after an error; otherwise the key has a connection, the one that was there before or the new one, which is also the result |
| `SftpPools.ClaimMeans` | src-tauri/src/sftp_pool.rs:287-307 | a free key gets one new pending slot, a claimed key gets nothing |
| `SftpPools.FinishMeans` | src-tauri/src/sftp_pool.rs:309-356 | finishing resolves the slot to the result, a dropped guard fails a pending slot, and both free the key only while this slot holds it |
| `SingleFlight.NextInv` | src-tauri/src/connection.rs:95-127 | every step of every caller keeps the protocol invariant: a claimed key points at a pending slot, every pending slot has its one live leader, every caller agrees with its slot |
| `SingleFlightRuns.ClaimsAreLed` | src-tauri/src/sftp_pool.rs:287-356 | in every reachable state claims point at pending slots of their key, and pending slots correspond one to one to unfinished leaders |
| `SingleFlightRuns.OutcomeIsFinal` | src-tauri/src/sftp_pool.rs:309-356 | over any run a slot leaves pending at most once and never changes again |
| `SingleFlightRuns.NextSlotStable` | src-tauri/src/sftp_pool.rs:96-135 | only the leader of a slot resolves it, by finishing or by dropping its guard |
| `SingleFlightRuns.OneOutcome` | src-tauri/src/sftp_pool.rs:309-408 | leader and followers of one slot end with one outcome; after a panic every follower gets the abort error |
| `SingleFlightRuns.DisplacedNeverPublishes` | src-tauri/src/sftp_pool.rs:443-462 | once its slot is displaced, nothing a leader does at any later time, dropping its guard after it finished included, puts a connection into the pool or frees the claim of a replacement |
| `SingleFlightRuns.RunsAreShort` | src-tauri/src/connection.rs:95-127 | whatever the interleaving, each caller takes at most twelve steps |
| `SingleFlightRuns.NobodyIsStranded` | src-tauri/src/sftp_pool.rs:96-135 | while some caller is not done some caller can go on without panic, abort or deadline, so no follower waits for ever |
| `SingleFlightRuns.FaultsArePossible` | src-tauri/src/connection.rs:95-127 | in every reachable state an unresolved leader may panic, a waiting caller may be aborted or time out, and a handshake may end with any result |
| `SingleFlightRuns.AtMostOneHandshake` | src-tauri/src/connection.rs:95-127 | with no failure, abort of a handshake, timeout, eviction or invalidation, no key is handshaken twice, however the callers interleave: counted by the log and by the handshakes that end or are under way |
| `SingleFlightRuns.MissMeansFirst` | src-tauri/src/connection.rs:133-141 | a leader whose recheck misses is the first to handshake its key: the second lookup is what makes the handshake unique |
| `SingleFlightSharing.OneConnectionPerKey` | src-tauri/src/sftp_pool.rs:251-271 | in the same runs all callers of a key that end with a connection end with the same one, the pooled one |
| `SingleFlightOutcomes.OutcomesHaveSources` | src-tauri/src/connection.rs:115-127 | over any run, every connection or error that a caller ends with, a slot resolves to or the pool holds was in the pool for that key at the start, or was the result of a handshake for that key, or is the abort error of a panic for that key; only a caller itself can end with its own abort or timeout |
| `SingleFlightOutcomes.HandshakeReachesAll` | src-tauri/src/sftp_pool.rs:328-408 | whatever the handshake of a leader returns reaches the leader and everybody on its slot: an error as it is, a connection as it is or as the one pooled before; only after a panic does a follower get the abort error instead |
| `Utf8.WellFormedByWidth` | src-tauri/src/lib.rs:134-160 | the incremental check accepts exactly the nine rows of Table 3-7 (section 3.9 of the Unicode Standard; section 4 of RFC 3629) |
| `Utf8.StepCharIff` | src-tauri/src/lib.rs:134-160 | a buffer starts with a character exactly when that prefix is well-formed |
| `Utf8.StepIncompleteIff` | src-tauri/src/lib.rs:134-160 | a buffer is kept back exactly when all of it is a proper prefix of a well-formed sequence |
| `Utf8.StepInvalidIsMaximalSubpart` | src-tauri/src/lib.rs:146-151 | what one U+FFFD replaces is the maximal ill-formed subpart |
| `Utf8.ChunkingIndependent` | src-tauri/src/lib.rs:134-182 | for every split of every input, decoding chunk by chunk and flushing gives the one-shot lossy decoding |
| `Utf8.KeptIsStartOfCharacter` | src-tauri/src/lib.rs:152-155 | what stays pending is empty or the start of a character, at most three bytes |
| `Utf8.DrainedValid` | src-tauri/src/lib.rs:134-160 | decoded text is valid UTF-8 whatever the input |
| `Utf8.CheckFindsStep` | src-tauri/src/lib.rs:136-155 | the error length is that of the ill-formed subpart, or absent exactly at an unfinished character |
| `OutputBuffers.OutputBuffer.DrainDecodedOutput` | src-tauri/src/lib.rs:134-160 | the drain loop ends, appends exactly the decided text and keeps exactly the undecided bytes |
| `OutputBuffers.OutputBuffer.FlushPendingOutput` | src-tauri/src/lib.rs:167-182 | the flush emits the pending text and the lossy decoding of the pending bytes in at most one nonempty chunk |
| `OutputBuffers.ConservesFlush` | src-tauri/src/lib.rs:167-182 | emitted text plus the flush is the lossy decoding of everything read |
| `SessionCommands.CoalesceSessionCommands` | src-tauri/src/session.rs:779-829 | the loop computes the coalesced batch: same meaning, never longer, no empty write |
| `SessionCommands.CoalesceKeepsMeaning` | src-tauri/src/session.rs:779-829 | bytes, binary chunks, last-of-adjacent resizes and closes reach the remote end in the same order before and after |
| `SessionCommands.SameMeaningConcat` | src-tauri/src/session.rs:779-829 | meaning is a congruence, so batches may be coalesced separately |
| `SessionCommands.ScanShape` | src-tauri/src/session.rs:779-829 | no empty write, no two writes in a row, never more commands than came in |
| `SessionCommands.CoalesceNormalIff` | src-tauri/src/session.rs:779-829 | the result has no adjacent writes or resizes exactly when the batch hides no resize behind empty writes |
| `SessionCommands.NormalFormUnique` | src-tauri/src/session.rs:779-829 | each meaning has at most one normal form |
| `SessionCommands.CoalesceIdempotentIff` | src-tauri/src/session.rs:779-829 | a second pass changes nothing exactly when the batch hides no resize behind empty writes |
| `SessionCommands.CoalesceNotIdempotent` | src-tauri/src/session.rs:796-810 | a resize, an empty write and a resize: the batch on which a second pass does change the result |
| `SessionLoop.WriteAllNonblocking` | src-tauri/src/session.rs:1217-1252 | over partial writes and retries the channel has accepted a prefix, each byte once and as many as the answers allow, and the write fails exactly at the first answer that gives up |
| `SessionLoop.WriteEndCause` | src-tauri/src/session.rs:1217-1252 | a write fails only at an error, a zero write or a failed wait, and is unfinished only if there is none |
| `SessionLoop.WriteEndIff` | src-tauri/src/session.rs:1217-1252 | a write completes exactly if some number of answers that let it go on accept all its bytes, and fails only where an answer does not let it go on |
| `SessionLoop.ResizePtyNonblocking` | src-tauri/src/session.rs:1254-1287 | the resize is retried until the first answer that is not retryable |
| `SessionLoop.UpToCloseMeaning` | src-tauri/src/session.rs:1033-1054 | coalescing never moves a command across a close: what is sent before it means what the batch says before it |
| `SessionLoop.ApplyCommands` | src-tauri/src/session.rs:1033-1054 | application ends at the first close or the first write that does not complete; the channel got the trace of all commands, or up to the close, or a trace broken off inside one command |
| `SessionLoop.ApplyEndsAtFirst` | src-tauri/src/session.rs:1033-1054 | a batch ends at its first close or incomplete write, as that one says, and without one all of it is applied |
| `SessionLoop.RoundExitIff` | src-tauri/src/session.rs:1000-1117 | for each exit of a turn, the events that cause it: a failed control step, a gone controller, a close or failed or waiting write, the end or failure of the read, and in an idle turn a failed keepalive or a failed wait; a keepalive that was sent ends nothing |
| `SessionLoop.HarmlessGoesOn` | src-tauri/src/session.rs:1000-1117 | a turn without a close, a gone controller, an end of the stream or a failing operation never ends the loop, unless a write is still waiting |
| `SessionLoop.SshSession.RunRound` | src-tauri/src/session.rs:997-1117 | one turn: the gate opens at a ready view, after five seconds or beyond a million bytes and stays open, bytes are read exactly by a turn that goes on, the exit is the one its causes determine, output is conserved, and what the channel got is nothing, all or a broken-off part of the batch |
| `SessionLoop.SshSession.Flush` | src-tauri/src/session.rs:931-966 | after the final flush the view has the lossy decoding of the initial output and all bytes read |
| `SessionLoop.SshSession.Run` | src-tauri/src/session.rs:931-1117 | for every run and every exit the emitted text is the lossy decoding of everything read, nothing is emitted before the gate opens except by the final flush, the loop ends in the first round with an exit and never in harmless ones, and the input sent means what was dequeued, up to a trace broken off inside the last batch when the transport fails |
| `SessionLoop.SshSession.ReleaseStartupOutput` | src-tauri/src/session.rs:1008-1019 | the gate opens exactly at a ready view, after five seconds or beyond a million held bytes, never closes, and opening it emits all that was held |
| `LocalWorker.Worker.MainTurn` | src-tauri/src/commands.rs:815-924 | one turn of the local loop takes the received chunk and then up to 63 queued ones, in this order, exactly if it reads, conserves output, and leaves the loop exactly at a close, a lost controller or a child exit |
| `LocalWorker.Worker.MainLoop` | src-tauri/src/commands.rs:815-924 | a run of turns takes exactly the bytes that arrive, opens the gate exactly under the release rule for the text decoded so far, and is left exactly at a close, a lost controller or a child exit |
| `LocalWorker.Worker.ReleaseStartupOutput` | src-tauri/src/commands.rs:90-102 | startup output is released exactly when not paused and ready, timed out or over the limit |
| `LocalWorker.Worker.WaitForReaderAndChild` | src-tauri/src/commands.rs:932-962 | after the main loop, exactly the bytes that arrive until reader and child have ended or the watchdog fires are collected, and the wait ends exactly then |
| `LocalWorker.Worker.DecodeRest` | src-tauri/src/commands.rs:973-982 | the final decode conserves, and opens the gate exactly if it yields text for a ready view |
| `LocalWorker.Worker.WaitForGate` | src-tauri/src/commands.rs:987-1024 | the first turn that releases, closes or abandons decides, and the wait goes on exactly while none does |
| `LocalWorker.Worker.Release` | src-tauri/src/commands.rs:973-1034 | after the last byte: all text is emitted exactly if the gate is or comes open, and none otherwise |
| `LocalWorker.Worker.Run` | src-tauri/src/commands.rs:802-1035 | for every script: what is dequeued is exactly what arrives in the loop, during the wait and in the queue; a session given up by its user or controller never waits at the gate, one whose child exited waits exactly if output is left and no turn and not the final decode has opened it; and at termination the emitted text is the lossy decoding of all of it or empty, empty despite data only if the session was given up before the gate opened |
| `LocalWorkerScripts.ArrivingInOrder` | src-tauri/src/commands.rs:833-905 | the bytes taken by the main loop are, in order, those of the received chunk and up to 63 queued ones of each turn that takes place unpaused before the reader has ended |
| `LocalWorkerScripts.LeavingIff` | src-tauri/src/commands.rs:847-924 | the loop is left at the first close, lost controller or child exit, and otherwise not at all |
| `LocalWorkerScripts.LiveIff` | src-tauri/src/commands.rs:816-832 | the gate is open after the main loop exactly if an unpaused turn saw the view ready, five seconds gone, or more than a million bytes of text decoded from what was read before it |
| `LocalWorkerScripts.ReaderClosedIff` | src-tauri/src/commands.rs:912-916 | the reader has ended exactly if an unpaused turn that took place saw it end |
| `LocalWorkerScripts.LateBytesInOrder` | src-tauri/src/commands.rs:926-972 | after the main loop the chunks that come in while the wait goes on and the reader has not ended are taken in order, and then, unless the reader has ended, all that is queued; the wait is over exactly at a timeout or when reader and child have both ended |
| `LocalWorkerScripts.GateDecidedAt` | src-tauri/src/commands.rs:987-1024 | the first turn at the gate that opens it or gives it up decides, and opening comes before giving up |
| `LocalWorkerScripts.GateWaitsIff` | src-tauri/src/commands.rs:987-1024 | the wait at the gate goes on exactly while no turn decides |
| `RemoteWakeups.NextInv` | src-tauri/src/models.rs:1914-1927 | every step of senders and worker keeps: from seeing the queue empty to polling, a queued command has a byte in the pipe or a sender on its way, and the pipe is never overfull |
| `RemoteWakeups.NoLostWakeup` | src-tauri/src/session.rs:422-450 | whenever the worker polls with a command queued the poll returns at once or a sender is about to wake it, though a full pipe drops wakeups |
| `RemoteWakeups.RestMeansNoWork` | src-tauri/src/session.rs:1316-1350 | a worker at rest with no sender in between has an empty queue |
| `RemoteWakeups.PollAgainOnlyAfterEmpty` | src-tauri/src/session.rs:1021-1031 | between two polls the worker has seen its queue empty |
| `RemoteWakeups.CommandsConserved` | src-tauri/src/models.rs:1914-1927 | over any run no command is lost or taken twice |
| `RemoteWakeups.DrainTakes` | src-tauri/src/session.rs:441-449 | emptying the pipe takes one read for every 256 bytes or part of them, and no more |
| `LocalWakeups.NextInv` | src-tauri/src/models.rs:1929-1939 | every step of setters and worker keeps: a stale reading has a notification in the channel or a setter on its way |
| `LocalWakeups.NoLostNotification` | src-tauri/src/models.rs:1867-1893 | a worker selecting on a stale flag finds a notification or a setter is about to send one, though a full channel drops it |
| `LocalWakeups.RestMeansCurrent` | src-tauri/src/commands.rs:816-846 | a worker at rest with no setter in between acts on the current flags |
| `Bridges.Direction.Refill` | src-tauri/src/port_forward.rs:668-690 | a refill happens only into an empty buffer and sees the end of the source exactly at its end |
| `Bridges.Direction.Forward` | src-tauri/src/port_forward.rs:690-706 | delivered bytes followed by the unsent slice remain the bytes read; accepting nothing is an error |
| `Bridges.Pump` | src-tauri/src/port_forward.rs:664-735 | one direction of one round keeps conservation and half-close, overlooks no failing read, write or end, fails exactly at the first of them, and otherwise makes exactly the moves the ends allow |
| `Bridges.BridgeScopedConnection` | src-tauri/src/port_forward.rs:652-744 | a normal return means both streams were delivered in full and both ends passed on once, last and only after everything before them; and the first round that is cancelled, late, failing or complete decides how the bridge ends |
| `Bridges.BrokenNeedsCause` | src-tauri/src/port_forward.rs:664-735 | the bridge breaks only in a round past the deadline or with a failing operation |
| `Bridges.MovingBridgeCompletes` | src-tauri/src/port_forward.rs:664-742 | when nothing blocks, fails or is cancelled for as many rounds as the longer direction has bytes and ends left, the bridge completes |
| `Bridges.BridgeChannelTcp` | src-tauri/src/connection.rs:784-876 | a drained return means everything that was read was delivered and one side had ended; no half-close is sent; and the first round that is stopped, failing or drained decides how the bridge ends |
| `Bridges.JumpBrokenNeedsCause` | src-tauri/src/connection.rs:805-870 | the jump bridge breaks only in a round with a failing read or write |
| `Bridges.MovingJumpCompletes` | src-tauri/src/connection.rs:810-876 | when nothing blocks, fails or stops for as many rounds as the shorter source and the buffers need, the jump bridge completes |
| `Bridges.JumpPump` | src-tauri/src/connection.rs:813-863 | a direction whose buffer is empty reads whenever the source can move and neither side has ended, one whose buffer is not empty delivers whenever the destination accepts, once either side has ended nothing more is read, and the turn fails exactly at its first failing read or write, none of which it overlooks |
| `Bridges.CopyCounted` | src-tauri/src/port_forward.rs:1038-1070 | the copy ends at the first failing read or write or at the end of the source; the counter never runs ahead of the delivered bytes, lags by at most one buffer, and is exact at a normal end |
| `Bridges.ForwardRetries` | src-tauri/src/port_forward.rs:1055-1068 | forwarding passes over the answers that ask to retry, and the next one decides how it goes on |
| `Bridges.MovingCopyCompletes` | src-tauri/src/port_forward.rs:1038-1070 | when reads and writes move for as long as the source has bytes left, the copy completes |
| `DirectoryRequests.DirectoryRequestRegistry.RegisterAt` | src-tauri/src/directory_request_registry.rs:45-97 | registration in place is the transition the lemmas below are about, with every error and generation case |
| `DirectoryRequests.NewerTakesOver` | src-tauri/src/directory_request_registry.rs:66-79 | a greater request id is granted a live flag of its own and recorded, and every other flag of the key is superseded or held by nobody |
| `DirectoryRequests.SameRequestShares` | src-tauri/src/directory_request_registry.rs:62-65 | the recorded id again shares the live flag and starts the retention window anew |
| `DirectoryRequests.FirstRequest` | src-tauri/src/directory_request_registry.rs:80-95 | a key without an entry gets a live flag exactly if fewer than 1024 entries survive reclaiming |
| `DirectoryRequests.RefusedIff` | src-tauri/src/directory_request_registry.rs:45-84 | refused are exactly keys that are empty or longer than 256 bytes, id zero, and new keys for a full table; an invalid request changes nothing |
| `DirectoryRequests.DirectoryRequestRegistry.ReclaimExpired` | src-tauri/src/directory_request_registry.rs:99-110 | reclaiming keeps exactly the entries that are recent or still held |
| `DirectoryRequests.ReclaimInv` | src-tauri/src/directory_request_registry.rs:99-110 | reclaiming forgets no entry whose flag somebody holds |
| `DirectoryRequests.NewestWins` | src-tauri/src/directory_request_registry.rs:45-110 | after any run, all live flags held for one key are one flag of one request |
| `DirectoryRequests.LiveIsNewest` | src-tauri/src/directory_request_registry.rs:45-110 | after any run, a live flag held for a key is that of the greatest request id granted since the key entered the table |
| `DirectoryRequests.SupersededForEver` | src-tauri/src/directory_request_registry.rs:66-79 | a superseded flag stays superseded and keeps its request |
| `DirectoryRequests.LateOlderRequestIsSuperseded` | src-tauri/src/directory_request_registry.rs:61-62 | within the retention window an older request of the same key is superseded from the start |
| `DirectoryRequests.RegistrationIsRemembered` | src-tauri/src/directory_request_registry.rs:61-96 | every live grant starts that window |
| `DirectoryRequests.BoundedTable` | src-tauri/src/directory_request_registry.rs:80-84 | the table never exceeds 1024 keys |
| `ReadCancellation.Registry.RememberTombstone` | src-tauri/src/models.rs:1109-1134 | the eviction loop removes the oldest entries and only the tombstones they still stand for |
| `ReadCancellation.Registry.RegisterRead` | src-tauri/src/models.rs:1136-1153 | registration consumes a waiting cancel and cancels a duplicate |
| `ReadCancellation.Registry.CancelRead` | src-tauri/src/models.rs:1155-1173 | a cancel sets the active flag or leaves one tombstone |
| `ReadCancellation.Registry.RemoveRead` | src-tauri/src/models.rs:1175-1205 | only the current registration is removed, leaving a completed tombstone |
| `ReadCancellation.RegisterMeans` | src-tauri/src/models.rs:1136-1153 | a registration gets a new flag, set exactly if a cancel was waiting, uses up the tombstone, cancels the registration it replaces and no other |
| `ReadCancellation.SetOnlyByCancel` | src-tauri/src/models.rs:1136-1205 | a flag is set by a cancel of the active registration that has it or by its replacement, and by nothing else |
| `ReadCancellation.CancelledForGood` | src-tauri/src/models.rs:1136-1205 | over any run a flag that is set stays set |
| `ReadCancellation.ActiveCancelObserved` | src-tauri/src/models.rs:1155-1164 | a cancel of an active read is seen by it in every later state |
| `ReadCancellation.ReachableStates` | src-tauri/src/models.rs:1108-1205 | in every reachable state active and tombstoned names are disjoint, each tombstone is queued under its own generation, and both are bounded by 1024, across wrap-around of the generation counter |
| `ReadCancellation.EarlyCancelObservedIff` | src-tauri/src/models.rs:1136-1173 | a cancel that arrives before its registration is observed exactly when fewer than 1024 tombstones were made in between |
| `ReadCancellation.LateCancelNotCarriedOver` | src-tauri/src/models.rs:1155-1205 | a cancel after completion does not cancel a later read of the same name while the tombstone lasts |
| `ReadCancellation.FinishedReadIgnoresLateCancel` | src-tauri/src/models.rs:1155-1205 | after a read has been removed, whatever cancels of it come in late, the next read of the same name starts uncancelled as long as fewer than 1024 tombstones were made in between |
| `ReadCancellation.StaleRemoveIsIgnored` | src-tauri/src/models.rs:1175-1190 | removing an outdated registration changes nothing after any run |
| `PortForwards.PortForwardManager.Register` | src-tauri/src/port_forward.rs:81-128 | registration succeeds exactly when the id is new and no active operation has the same profile and rule |
| `PortForwards.PortForwardManager.Cancel` | src-tauri/src/port_forward.rs:130-143 | the flag is set, and an active operation becomes stopping |
| `PortForwards.PortForwardManager.CancelEvery` | src-tauri/src/port_forward.rs:145-159 | exactly the active operations are cancelled |
| `PortForwards.CancelMeans` | src-tauri/src/port_forward.rs:130-143 | cancelling sets the flag and makes a starting or running operation stopping; a finished one keeps its record |
| `PortForwards.CancelAllMeans` | src-tauri/src/port_forward.rs:145-159 | cancelling all does this to exactly the active operations |
| `PortForwards.PortForwardManager.PruneFinished` | src-tauri/src/port_forward.rs:211-229 | above 200 entries exactly max(200, active) stay, every active one among them, and the removed ones stopped first |
| `PortForwards.PrunedMeans` | src-tauri/src/port_forward.rs:211-229 | up to 200 entries nothing is removed, beyond that only finished ones, which stopped no later than the finished ones that stay |
| `PortForwards.NextInv` | src-tauri/src/port_forward.rs:257-363 | every step of callers and workers keeps status, worker phase and cancel flag consistent and rules exclusive |
| `PortForwards.StepMeans` | src-tauri/src/port_forward.rs:257-363 | each update of a worker sets exactly its own fields, and a step about one operation leaves every other alone |
| `PortForwards.OneActivePerRule` | src-tauri/src/port_forward.rs:80-230 | over any interleaving at most one operation per profile and rule is active, and stopping implies the flag |
| `PortForwards.FinishedForGood` | src-tauri/src/port_forward.rs:257-363 | a set flag never clears, and a stopped or failed operation never changes again |
| `PortForwards.LateReadyKeepsFlag` | src-tauri/src/port_forward.rs:298-303 | a stopping operation may report running late, but its flag stays set |
| `FrontendStorages.ValidateChecks` | src-tauri/src/frontend_storage.rs:234-242 | the loop accepts exactly valid, distinct, bounded checks and collects their revisions; each error names a defect that is there |
| `FrontendStorages.ValidateDraft` | src-tauri/src/frontend_storage.rs:89-126 | the field checks accept exactly the valid drafts: valid keys, a revision from 1 to the largest safe integer, at most a MiB of text, an accepted image envelope and a consistent operation; each error names a defect that is there |
| `FrontendStorages.ValidateWrites` | src-tauri/src/frontend_storage.rs:243-262 | the loop accepts exactly distinct valid writes that advance a checked revision by one and fit when encoded; each error names a defect that is there |
| `FrontendStorages.ValidateDeletes` | src-tauri/src/frontend_storage.rs:263-268 | the loop accepts exactly checked deletions of owners mutated once; each error names a defect that is there |
| `FrontendStorages.KeyOkIff` | src-tauri/src/frontend_storage.rs:81-87 | a key is valid exactly if its UTF-8 encoding has 1 to 512 bytes and no character of it is a control character |
| `FrontendStorages.Utf8WidthIsEncoded` | src-tauri/src/frontend_storage.rs:81-87 | lengths count the bytes of the UTF-8 encoding, which is well-formed (section 3 of RFC 3629) |
| `FrontendStorages.AdmissibleIff` | src-tauri/src/frontend_storage.rs:230-268 | a commit is admissible exactly if it is small and valid, checks no owner twice, mutates each owner at most once and only if it checks it, and writes the revision after the checked one |
| `FrontendStorages.Transaction` | src-tauri/src/frontend_storage.rs:269-296 | a transaction yields the whole new table or an error |
| `FrontendStorages.FrontendStorage.Commit` | src-tauri/src/frontend_storage.rs:230-296 | all or nothing: success exactly if the commit is admissible, unconflicted and no statement of the transaction fails, and then it is applied in full; any error leaves the table alone and says why |
| `FrontendStorages.RevisionStep` | src-tauri/src/frontend_storage.rs:274-295 | a success raises each written revision by exactly one, removes the deleted owners and touches no other |
| `FrontendStorages.ReadsBackWritten` | src-tauri/src/frontend_storage.rs:283-291 | what was written is what a later read decodes, under its owner, with its revision and its index columns |
| `FrontendStorages.RevisionCountsWrites` | src-tauri/src/frontend_storage.rs:230-296 | over any run the stored revision is the number of successful writes since the last deletion |
| `FrontendStorages.NoLostUpdate` | src-tauri/src/frontend_storage.rs:274-295 | two commits that check one owner at the same revision, the first writing it, cannot both succeed unless it was deleted in between |
| `FrontendStorages.ReachableInv` | src-tauri/src/frontend_storage.rs:286-289 | in every reachable table the revision, session and origin columns agree with the stored draft |
| `FrontendStorages.SelectedIsFullScan` | src-tauri/src/frontend_storage.rs:201-226 | reading by index column selects what examining every stored draft would |
| `FrontendStorages.FrontendStorage.Read` | src-tauri/src/frontend_storage.rs:177-228 | in such tables a valid read succeeds with exactly the full-scan result |
| `Png.Unfilter` | scripts/regen-windows-icon.py:110-138 | the in-place loops compute the left-to-right reconstruction for all five filters |
| `Png.ReconstructedAt` | scripts/regen-windows-icon.py:110-138 | each reconstructed byte is the coded byte plus its prediction from the bytes before it, modulo 256 |
| `Png.PredictMeans` | scripts/regen-windows-icon.py:110-133 | the prediction of each filter: nothing, left, up, the rounded-down mean of left and up, or Paeth |
| `Png.PaethNearest` | scripts/regen-windows-icon.py:122-133 | Paeth is whichever of left, up and up-left is nearest to left + up - up-left, ties in that order (section 6.6 of RFC 2083) |
| `Png.ReconstructFilter` | scripts/regen-windows-icon.py:110-138 | reconstruction inverts each filter modulo 256, Average and Paeth included (section 6 of RFC 2083) |
| `Png.ReadRowsInverts` | scripts/regen-windows-icon.py:107-138 | whatever filter each row uses, the rows come back |
| `Png.ScanEncoded` | scripts/regen-windows-icon.py:92-104 | scanning encoded chunks sees exactly those chunks in order (section 3.2 of RFC 2083) |
| `Png.ChunkLayout` | scripts/regen-windows-icon.py:152-158 | a chunk is its big-endian length, its type, its body and the checksum of type and body |
| `Png.GatherMeans` | scripts/regen-windows-icon.py:92-104 | a header chunk gives the size if it is long enough and says eight bits and RGBA, a data chunk adds its body, any other chunk is skipped |
| `Png.DecodePng` | scripts/regen-windows-icon.py:87-138 | the chunk and row loops compute the specified decoding, with its error cases |
| `Png.DecodesEveryLayout` | scripts/regen-windows-icon.py:87-138 | any file with a header, image data split over chunks and other chunks anywhere decodes to its image |
| `Png.RoundTrip` | scripts/regen-windows-icon.py:149-165 | decoding an encoded RGBA image gives the same size and rows, for every image that can be encoded |
| `Png.EncodedLayout` | scripts/regen-windows-icon.py:149-165 | the written file is the signature, a header with width before height, one data chunk and the end chunk, at these positions |
| `Png.SizeOfEncoded` | scripts/regen-windows-icon.py:141-146 | reading just the size of an encoded image gives its width and height |
| `IconContainers.BuildIco` | scripts/regen-windows-icon.py:294-320 | every directory entry delimits exactly its own blob, the blobs tile the tail, the largest comes first; there is no file exactly when a field overflows |
| `IconContainers.IcoBytes` | scripts/regen-windows-icon.py:294-320 | an ICO file byte by byte: the header with the number of entries, and in each entry the size twice, one plane, 32 bits, and the length and offset of its blob |
| `IconContainers.SizeByteIsExactIff` | scripts/regen-windows-icon.py:309-311 | the size byte determines the size exactly for sizes 1 to 256 |
| `IconContainers.BuildIcns` | scripts/regen-windows-icon.py:323-328 | the entries of the file can be read back in order; there is no file exactly when a length overflows |
| `IconContainers.IcnsEntryLayout` | scripts/regen-windows-icon.py:326-327 | an ICNS entry is its type, its length with the eight bytes before the blob, and the blob |
| `TerminalPayload.EmitBytes` | src-tauri/examples/terminal_transport_baseline.rs:336-357 | the nested loops emit the two markers around the wrapped payload |
| `TerminalPayload.ChunkIsItsLines` | src-tauri/examples/terminal_transport_baseline.rs:343-352 | a chunk is its full lines of 80 and the rest, each ended by CR LF |
| `TerminalPayload.PayloadChunks` | src-tauri/examples/terminal_transport_baseline.rs:340-353 | the payload is written in chunks of 8192 bytes, so no line crosses from one to the next |
| `TerminalPayload.StripTerminalControls` | src-tauri/examples/terminal_transport_baseline.rs:365-408 | the scanner loop computes the seven-state scan |
| `TerminalPayload.ScanConcat` | src-tauri/examples/terminal_transport_baseline.rs:365-408 | scanning a concatenation scans its parts in turn |
| `TerminalPayload.ControlIsInvisible` | src-tauri/examples/terminal_transport_baseline.rs:381-404 | every complete control sequence leaves nothing and returns to the ground state: CSI up to its final byte, OSC up to BEL or ESC backslash, the string sequences up to ESC backslash, any other one up to its last byte |
| `TerminalPayload.ControlIff` | src-tauri/examples/terminal_transport_baseline.rs:381-404 | these sequences are exactly what takes the scanner from an escape back to the ground state |
| `TerminalPayload.PlainByte` | src-tauri/examples/terminal_transport_baseline.rs:381-386 | outside of sequences every byte is let through except control characters |
| `TerminalPayload.InsertedControlsAreStripped` | src-tauri/examples/terminal_transport_baseline.rs:365-408 | control sequences inserted anywhere into a text do not change what is shown |
| `TerminalPayload.FoundIff` | src-tauri/examples/terminal_transport_baseline.rs:359-363 | a position is found exactly when it is the first occurrence |
| `TerminalPayload.ValidateIff` | src-tauri/examples/terminal_transport_baseline.rs:410-432 | validation accepts exactly the outputs whose first begin marker is followed by the expected payload and the end marker |
| `TerminalPayload.RejectedIff` | src-tauri/examples/terminal_transport_baseline.rs:410-432 | each rejection occurs exactly when there is no begin marker, no end marker after it, a payload of that other length, or a foreign byte in one of the expected length |
| `TerminalPayload.EmittedIsAccepted` | src-tauri/examples/terminal_transport_baseline.rs:336-432 | for every size the emitted output is accepted with its full length, with any control sequences inserted anywhere |
| `LogReader.ReadFile` | src-tauri/src/log_reader.rs:49-127 | no cursor makes the read step outside the file; the chunk is the specified one, and the next cursor has the identity, length and time of the file and the last 64 bytes before it |
| `LogReader.ResetIff` | src-tauri/src/log_reader.rs:74-93 | a cursor is given up exactly for another file, a shorter file, an inconsistent cursor, an unchanged length without the same modification time, or other bytes before the cursor |
| `LogReader.ReadStartsAt` | src-tauri/src/log_reader.rs:70-127 | a read that resets returns the file from its start, any other one from the cursor |
| `LogReader.CompleteIff` | src-tauri/src/log_reader.rs:100-110 | of the bytes read only the start of a character after valid text is left for the next read |
| `LogReader.ReadsUpToEnd` | src-tauri/src/log_reader.rs:95-127 | whatever the file and the cursor, the next cursor is within three bytes of the end or the cap |
| `LogReader.CompleteIsBoundary` | src-tauri/src/log_reader.rs:100-110 | after valid text a read of a prefix of valid text ends at valid text again, leaving at most three bytes |
| `LogReader.NextRead` | src-tauri/src/log_reader.rs:70-127 | a cursor that follows an appended log is resumed and follows it again |
| `LogReader.GrownFileResetsIff` | src-tauri/src/log_reader.rs:74-83 | a cursor of a grown file is given up exactly when the length is unchanged and the modification time changed or is missing |
| `LogReader.ReadsFollowLog` | src-tauri/src/log_reader.rs:49-127 | over any run of reads of an append-only log of valid text only the first resets, the contents are the file up to the cursor, and the cursor is within three bytes of the end or the cap |
| `LogReader.SplitDecodeIff` | src-tauri/src/log_reader.rs:105-109 | decoding two stretches separately is decoding them together exactly when the first does not end inside a character that the second continues, and otherwise gives more text |
| `LogReader.TwoReadsIff` | src-tauri/src/log_reader.rs:70-127 | the same for a first and a resumed second read, at the cursor between them |
| `LogReader.ContentsAreDecodingIff` | src-tauri/src/log_reader.rs:49-127 | over any run of reads of an append-only log with any bytes the contents are the decoding of the file up to the cursor exactly when no read ends inside a character that the next continues |
| `LogReader.IllFormedLogSplitsCharacter` | src-tauri/src/log_reader.rs:105-109 | a log with an ill-formed byte on which two reads return something else than the decoding of the file |
| `KnownHosts.SplitJoin` | src-tauri/src/known_hosts.rs:344-357 | splitting undoes joining |
| `KnownHosts.WordsJoin` | src-tauri/src/known_hosts.rs:333-358 | the words of a joined line are its nonempty fields |
| `KnownHosts.FilterKnownHostsLine` | src-tauri/src/known_hosts.rs:327-359 | the loop over the patterns computes the filtered line, with its error cases |
| `KnownHosts.PlainPattern` | src-tauri/src/known_hosts.rs:361-367 | a pattern in the clear matches exactly the endpoint it spells |
| `KnownHosts.HashedPattern` | src-tauri/src/known_hosts.rs:368-393 | a hashed pattern has an error for each way of being malformed, and a well-formed one matches as the digest of its salt, its expected value and the endpoint says |
| `KnownHosts.RetainExact` | src-tauri/src/known_hosts.rs:343-350 | retained are exactly the patterns that do not match, as often and in order; filtering them again retains all |
| `KnownHosts.RewrittenLineIff` | src-tauri/src/known_hosts.rs:357-358 | the rewritten line reads as the same line with the remaining patterns exactly when these read as a host field |
| `KnownHosts.FilteredLine` | src-tauri/src/known_hosts.rs:327-359 | a filtered line has no matching pattern, all others in order, the same marker, key and comment, and filtering is idempotent, under that condition |
| `KnownHosts.UntouchedLine` | src-tauri/src/known_hosts.rs:351-353 | a line none of whose patterns match is handed on as it is, but for the space around it |
| `KnownHosts.RemovedIff` | src-tauri/src/known_hosts.rs:328-356 | a line disappears exactly when it is blank, a comment, or all its patterns match |
| `KnownHosts.ErrorIff` | src-tauri/src/known_hosts.rs:338-345 | a line is an error exactly when it has too few fields or a malformed pattern |
| `KnownHosts.LeftoverBecomesComment` | src-tauri/src/known_hosts.rs:357-358 | a line on which the condition fails: filtering twice loses its entry |
| `KnownHosts.ReadExcludingEndpoint` | src-tauri/src/known_hosts.rs:305-325 | the loop loads the filtered lines up to the first error and counts them, saturating at 32 bits |
| `KnownHosts.LoadedConcat` | src-tauri/src/known_hosts.rs:305-325 | lines are loaded in order, up to the first error |
| `KnownHosts.FilteringTwice` | src-tauri/src/known_hosts.rs:305-325 | filtering a whole file twice is filtering it once, and no loaded pattern matches |

## Left out

- Sockets, libssh2, PTYs, poll, threads, timers and event emission: their results are parameters, scripts or
  steps. Liveness beyond `SingleFlightRuns.RunsAreShort`,
  `SingleFlightRuns.NobodyIsStranded`, `Bridges.MovingBridgeCompletes`, `Bridges.MovingJumpCompletes` and
  `Bridges.MovingCopyCompletes` is not stated.
- Memory ordering of relaxed atomics and poisoned locks: every lock-protected section is one step, in one order.
- Identity of shared objects: connect slots and flags are numbered, and a clone count stands for the reference
  count of a directory-request flag.
- SHA-256, HMAC, Base64, zlib, CRC and JSON: parameters. Decompression is assumed to invert compression and
  JSON decoding to invert encoding; nothing is assumed of the digest comparison.
- The agent runtime, the terminal broker and the observers of raw output: calls into them change nothing here,
  and emitted text is recorded before any filtering they do.
- SftpPools.SftpPool.LookUp: the health probe between lookup and its outcome is a separate step, and the
  connection objects themselves are numbers.
- LogReader.ReadFile: one read sees one state of the file; a file that shrinks during the read is not modelled.
- FrontendStorages.FrontendStorage.Read: the order of the returned drafts, by key, is not modelled.
- FrontendStorages.FrontendStorage.Commit: the image envelope check is a parameter, and a draft's agent request
  is represented by its session id and an opaque rest.
- KnownHosts.ReadExcludingEndpoint: splitting the file into lines is done by the caller, and whether libssh2
  accepts a line is a parameter.
- PortForwards.PortForwardManager.Register: the name, kind and mode of a rule are not kept; error texts and
  their categories are numbers.
- Bridges.CopyCounted: the two threads that run one copy each, and the shutdowns around them, are not modelled.
- The preflight recorder, the progress trackers, the downsampling weights, the blocked-host and field
  validation, and the session manager's close and commit-ready operations would add only easy members.
- Image resampling, circular masks and the choice of icon sizes in the icon script.
- Redaction, remote health, keychain access, menus, the database of profiles and the user interface.
