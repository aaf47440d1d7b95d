# A verified model of agent-keepalive

agent-keepalive keeps coding-agent sessions visible and attached on long-lived hosts. This project models
the parts of it that carry promises over time and proves those promises for all inputs, schedules and runs.

- **The Claude discovery supervisor** (`ClaudeProvider`, `ClaudePayloads`, `TargetPaths`, `RecordStore`,
  `SupervisorSpec`, `SupervisorRuns`, `SupervisorDiscovery`, `SupervisorPayloads`, `SupervisorStore`,
  `DiscoverySupervisor`). A tick meets arbitrary
  observations: a clock, a discovery result per root, the job directories, a state for every job file.
  `SupervisorSpec.TickKey` says what a tick does to one session; the class
  `DiscoverySupervisor.ClaudeDiscoverySupervisor` updates its maps and its store in place and is proved to do
  exactly that to every session of every root at once, whatever the order of roots and ids. It remembers its
  history of observations, and `Valid()` says that every root and every session is where that history puts it,
  so the theorems about histories hold of the object after any number of ticks: nothing is removed or marked
  without evidence, everything due is removed, a retired session stays hidden, a store written only on change
  agrees with one written always, a tick stores what job file and entry say, a crash between any two writes leaves nothing to the next supervisor. Every
  call that can raise may do so here, too: `Sound()` holds wherever an exception can leave a tick, and from there
  the cleanup at the end of a run leaves no session record.
- **WebSocket framing** (`WebSocketFrames`, `WebSocketReader`, `WebSocketEvents`, `WebSocketPeer`, `WebSocketClient`),
  sections 5.1 to 5.5 of RFC 6455. The network is a stream of bytes and a script of what each `recv` does: hand over some
  bytes, time out, or report the end. Reading under any script is compared with decoding the stream at once, and
  with the frames a server has put into it.
- **The JSON-RPC client** (`RpcProtocol`, `RpcRuns`, `RpcClient`), section 5 of JSON-RPC 2.0. Calling threads and
  the reader thread are interleaved atomic steps; the theorems are about every interleaving. Reading the
  next id and incrementing it are three steps, because the code does not lock them. The object runs a whole
  request with arbitrary steps of the other threads in between.
- **Durations** (`Durations`) and **the keeper with its activity tracker** (`Activity`, `KeeperLoop`,
  `KeeperPromises`).

`ClaudePayloads`, `SupervisorPayloads` and `KeeperPromises` say what is computed once more in terms of what comes
in: the raw job file and discovery output, notifications, times. Wire formats are given as bytes and bits.

Times are real numbers, bytes are numbers below 256, JSON values are a datatype. SHA-256, ISO timestamps and
path resolution are given functions (`ClaudeProvider.Host`); the digest is only assumed to be hexadecimal and to
tell the configured roots apart. A client-side loop that the code runs in one method is sometimes split over
two methods here, to keep each proof small.

Where the code does not do what one could expect of it, the model follows the code and says exactly when the
expectation is met:

- `live_entry_available` of a stored record can be out of date: `LiveFlagCanBeStale`, `LiveFlagIsCurrentIff`,
  `SignatureIgnoresEntryIff`.
- A masked frame of length 0 whose key is late leaves the key in the stream: `LateKeyIsLeftBehind`,
  `ScheduleIndependentIff`.
- Section 5.4 of RFC 6455 allows control frames between the fragments of a message. The code takes the final bit
  of a ping there for that of the message, so a ping cuts a text off and the rest of it is lost; a pong
  raises; and a close is returned in place of the text: `TextIsReassembledIff`, `TextFromTheServer`,
  `RestOfTextIsLost`, `BinaryIsSkippedIff`.
- Overlapping request-id allocations give two calls one id, and one of them never an answer:
  `OverlapLosesAReply`, `IdsAreDistinctIff`.
- The activity tracker alone can forget the end of an activity after `thread/closed`: `TrackerAloneIsNotSafe`,
  `BoundSurvivesIff`. The keeper stops before that can matter: `DetachIsSafe`.
- A printed zero duration is not accepted when parsed: `PrintThenParseIff`.

`_apply_status` in `activity.py` branches on whether a status comes from a snapshot, but both branches assign the
same value; the model has one branch.

## Model

| member | source | states |
|---|---|---|
| ClaudeProvider.ShortSessionId | src/agent_keepalive/providers/claude.py:495-500 | an id is found exactly in full UUIDs and 8-digit ids, and it is 8 hexadecimal digits that begin the text |
| ClaudeProvider.ValidationAgreesWithExtraction | src/agent_keepalive/providers/claude.py:539-555 | an entry passes validation exactly when its id can be extracted, `cwd` and `status` are strings or null or absent, and `cwd` holds no null character |
| ClaudePayloads.EntryIdIs | src/agent_keepalive/claude_supervisor.py:185-195 | the id of an entry is that of the first of three keys with a non-empty string |
| ClaudeProvider.AuthoritativeIff | src/agent_keepalive/providers/claude.py:339-409 | a discovery counts as success or empty exactly when the command exited with 0 and printed nothing or an array of valid entries; its entries are the printed objects in order, and failures carry none |
| ClaudeProvider.ReadJobState | src/agent_keepalive/providers/claude.py:456-492 | missing means no file, ok means a small readable object of the right shape and holds that object with the short id, anything else is invalid |
| ClaudePayloads.JobIsUsableIff | src/agent_keepalive/providers/claude.py:456-492 | exactly which parsed files are usable, by the types and contents of their values |
| ClaudePayloads.ShortSessionIdIff | src/agent_keepalive/providers/claude.py:495-500 | an id is found exactly in eight hexadecimal digits and in five groups of them with dashes, and is the first group |
| ClaudePayloads.StatusIs | src/agent_keepalive/providers/claude.py:258-310 | the status of a present session by its payloads, and exactly when it is "active", "blocked", "state_invalid" or "state_missing" |
| ClaudePayloads.OverIff | src/agent_keepalive/providers/claude.py:266-268 | exactly when a present session is terminal, by its payloads |
| ClaudePayloads.FieldsAre | src/agent_keepalive/providers/claude.py:256-297 | every other field of the snapshot, by the payloads |
| ClaudeProvider.TerminalIff | src/agent_keepalive/providers/claude.py:241-310 | exactly when a present session is shown as terminal; a malformed or absent job file never is |
| TargetPaths.SafeTargetId | src/agent_keepalive/paths.py:42-43 | every character is kept or becomes an underscore, in place |
| TargetPaths.SessionFileIs | src/agent_keepalive/paths.py:35-43 | the record file of a session is named after its short id and the digest of its root |
| TargetPaths.SessionFilesAreDistinct | src/agent_keepalive/paths.py:35-43 | two supervised sessions with one record file have the same short id and the same root digest |
| TargetPaths.SessionFileIsNotOther | src/agent_keepalive/claude_supervisor.py:49-50 | a session's record file is never that of `all` or of any target of another length |
| RecordStore.StateStore.Save | src/agent_keepalive/state.py:136-139 | one file changes, to the record given, and the change is logged; or it raises and nothing changes |
| RecordStore.StateStore.Load | src/agent_keepalive/state.py:141-146 | the record of the file, or none |
| RecordStore.StateStore.Remove | src/agent_keepalive/state.py:148-153 | one file goes, if it was there; or it raises and nothing changes |
| RecordStore.StateStore.List | src/agent_keepalive/state.py:155-162 | exactly the stored records of the provider, one per file |
| SupervisorSpec.UniqueRoots | src/agent_keepalive/claude_supervisor.py:73 | every given root once and no other |
| SupervisorSpec.HistoryStep | src/agent_keepalive/claude_supervisor.py:156-160 | a longer history is one refresh of the root and one pass over the session more |
| SupervisorRuns.InvariantHolds | src/agent_keepalive/claude_supervisor.py:261-274 | in every run a managed record has a lifecycle, a retired session has no record, a remembered signature describes the stored record, and that of a missing session says "disappeared" |
| SupervisorRuns.PresentKeepsInvariant | src/agent_keepalive/claude_supervisor.py:305-361 | after a sighting the session is retired or its record describes this snapshot, even if nothing was saved |
| SupervisorRuns.WriteOnChangeRefinesWriteAlways | src/agent_keepalive/claude_supervisor.py:305-389 | in every run the store written on change equals a store written always, in every field but `live_entry_available` |
| SupervisorRuns.LiveFlagIsOfFirstSighting | src/agent_keepalive/claude_supervisor.py:334-361 | in every run `live_entry_available` says what it was at the first sighting of the unbroken series with this signature |
| SupervisorRuns.LiveFlagIsCurrentIff | src/agent_keepalive/claude_supervisor.py:334-361 | after any history the flag is current exactly when the cache held an entry at that first sighting just if it holds one now |
| SupervisorRuns.SignatureIgnoresEntryIff | src/agent_keepalive/claude_supervisor.py:291-346 | exactly when an entry that fades from the cache, or appears, leaves the signature as it is, by what job and entry say |
| SupervisorRuns.LiveFlagCanBeStale | src/agent_keepalive/claude_supervisor.py:171-197 | a history of two ticks, one discovery interval apart, after which the stored flag is wrong |
| SupervisorRuns.RemovalNeedsEvidence | src/agent_keepalive/claude_supervisor.py:222-274 | a record is lost only after a grace period of absence that began and ended under authoritative discoveries, or of being terminal with nothing else seen |
| SupervisorRuns.TickRemovesOnlyWithEvidence | src/agent_keepalive/claude_supervisor.py:222-274 | the same for a tick of the supervisor and its whole history of observations |
| SupervisorRuns.MissingSinceWitness | src/agent_keepalive/claude_supervisor.py:239-250 | `missing_since` is the time of an authoritative tick since which the session was always absent |
| SupervisorRuns.TerminalSinceWitness | src/agent_keepalive/claude_supervisor.py:266-273 | `terminal_since` is the time of a terminal sighting with no non-terminal one since |
| SupervisorRuns.FailedDiscoveriesProveNothing | src/agent_keepalive/claude_supervisor.py:247-248 | any number of failed or malformed discoveries changes neither record nor timers of an absent session |
| SupervisorRuns.MissingIsShown | src/agent_keepalive/claude_supervisor.py:239-242 | in every run, while a session counts as missing its record says "disappeared", and it has been absent since an authoritative discovery |
| SupervisorRuns.AbsenceKeepsIdentity | src/agent_keepalive/claude_supervisor.py:363-382 | while a session is absent its record keeps its identity, activity times, directory and last live status |
| SupervisorRuns.ChangesAreCounted | src/agent_keepalive/claude_supervisor.py:305-381 | in every run the event count of a record starts at 1 and grows by one with each change of the record |
| SupervisorRuns.AbsentSessionIsRemoved | src/agent_keepalive/claude_supervisor.py:243-244 | a known session absent for the grace period, authoritatively at both ends, has no record |
| SupervisorRuns.TerminalSessionIsRetired | src/agent_keepalive/claude_supervisor.py:266-271 | a session found terminal at both ends of the grace period, never otherwise and never absent for a disappearance grace period meanwhile, is retired and has no record |
| SupervisorRuns.RetirementNeedsEvidence | src/agent_keepalive/claude_supervisor.py:269-271 | a session is retired only after a terminal grace period, and loses its record |
| SupervisorRuns.RetiredStaysHidden | src/agent_keepalive/claude_supervisor.py:261-265 | a retired session has no record until it is first found non-terminal |
| SupervisorRuns.SightingIsShown | src/agent_keepalive/claude_supervisor.py:261-274 | every non-terminal sighting is stored on the same tick, also the one that ends a retirement |
| SupervisorRuns.NoInterference | src/agent_keepalive/claude_supervisor.py:215-274 | the state of a session depends on the observations of its own root and job only, not on the other roots |
| SupervisorDiscovery.CacheHoldsLastEntries | src/agent_keepalive/claude_supervisor.py:184-197 | the cache maps exactly the ids that occur, each to its last entry |
| SupervisorDiscovery.ValidatedEntriesAreCached | src/agent_keepalive/claude_supervisor.py:183-197 | the cache of a validated discovery holds exactly the ids printed, each with the last object printed under it |
| SupervisorDiscovery.CalledIff | src/agent_keepalive/claude_supervisor.py:171-182 | the command is run at first and then exactly when an interval has passed since its last run, and absence is trusted exactly after a last run that succeeded |
| SupervisorDiscovery.CacheAgreesWithHistory | src/agent_keepalive/claude_supervisor.py:181-197 | the cache is that of the most recent successful discovery, empty before the first, untouched by failures |
| SupervisorDiscovery.CallsAreSpaced | src/agent_keepalive/claude_supervisor.py:171-180 | n discovery calls of a root span at least n - 1 intervals, whatever the clock does, and after every tick the last is less than one interval old |
| SupervisorDiscovery.CallsOfARootAreBounded | src/agent_keepalive/claude_supervisor.py:171-180 | one root is discovered at most once per started interval |
| SupervisorDiscovery.TotalCallsAreBounded | src/agent_keepalive/claude_supervisor.py:156-176 | all discovery calls are at most roots times started intervals, however many sessions there are |
| SupervisorPayloads.TickStores | src/agent_keepalive/claude_supervisor.py:215-361 | every tick that finds a session stores what its job file and its last discovered entry say, field by field, unless it is retired, which it is not if it is not over |
| SupervisorPayloads.RemovalIsJustified | src/agent_keepalive/claude_supervisor.py:222-274 | a tick takes a record away only after a grace period of neither job file nor entry, trusted at both ends, or of being over |
| SupervisorPayloads.AbsenceRemoves | src/agent_keepalive/claude_supervisor.py:239-244 | a known session without job file and entry for that long has no record |
| SupervisorPayloads.EndRetires | src/agent_keepalive/claude_supervisor.py:266-271 | a session seen over for the terminal grace period is retired and has no record |
| SupervisorPayloads.RetirementLasts | src/agent_keepalive/claude_supervisor.py:261-265 | a retired session has no record as long as job file and entry do not show it otherwise |
| SupervisorStore.CrashThenRestart | src/agent_keepalive/claude_supervisor.py:82-84 | after a crash between any two changes and a restart, what is left besides `all` was there before and unmanaged, and all such records outside session files are |
| SupervisorStore.ReplayLeavesAftermath | src/agent_keepalive/claude_supervisor.py:326-333 | at every moment a changed session file holds a managed record and every other file is as it was |
| DiscoverySupervisor.ClaudeDiscoverySupervisor.RemoveStale | src/agent_keepalive/claude_supervisor.py:82-84 | exactly the managed Claude records are dropped, and the supervisor is where the empty history puts it |
| DiscoverySupervisor.ClaudeDiscoverySupervisor.Create | src/agent_keepalive/claude_supervisor.py:70-117 | no roots is an error, repeated roots count once, exactly the managed Claude records are gone, and the history is empty |
| DiscoverySupervisor.ClaudeDiscoverySupervisor.RefreshDiscoveryIfDue | src/agent_keepalive/claude_supervisor.py:171-197 | the root is refreshed as specified and no other root is touched |
| DiscoverySupervisor.ClaudeDiscoverySupervisor.ListJobIds | src/agent_keepalive/claude_supervisor.py:276-289 | the ids of the directory names that are session ids |
| DiscoverySupervisor.ClaudeDiscoverySupervisor.CandidateIds | src/agent_keepalive/claude_supervisor.py:216-221 | exactly the ids listed, cached or known |
| DiscoverySupervisor.ClaudeDiscoverySupervisor.WriteSnapshotRecord | src/agent_keepalive/claude_supervisor.py:305-361 | lifecycle and record of this session become those of the specification, nothing else changes |
| DiscoverySupervisor.ClaudeDiscoverySupervisor.WriteDisappearedRecord | src/agent_keepalive/claude_supervisor.py:363-389 | an existing record is marked and the short signature remembered, nothing else changes |
| DiscoverySupervisor.ClaudeDiscoverySupervisor.RemoveLifecycle | src/agent_keepalive/claude_supervisor.py:391-396 | record and lifecycle go, and the session is retired if it was terminal |
| DiscoverySupervisor.ClaudeDiscoverySupervisor.AdmitPresent | src/agent_keepalive/claude_supervisor.py:250-273 | when a present session's record is to be written, and what becomes of it otherwise |
| DiscoverySupervisor.ClaudeDiscoverySupervisor.RefreshSession | src/agent_keepalive/claude_supervisor.py:226-274 | one pass of the loop makes the step of this session and touches no other session's state or file |
| DiscoverySupervisor.ClaudeDiscoverySupervisor.RefreshRootRecords | src/agent_keepalive/claude_supervisor.py:215-274 | in any order of ids, every session of the root makes its step and no other session changes |
| DiscoverySupervisor.ClaudeDiscoverySupervisor.Tick | src/agent_keepalive/claude_supervisor.py:156-169 | the history of every root and session grows by this observation, and the own record says whether any session is active; or it raises in a sound state |
| DiscoverySupervisor.ClaudeDiscoverySupervisor.StoredAndReported | src/agent_keepalive/claude_supervisor.py:156-169 | after a tick the record on disk says of every session seen what its payloads say, and the supervisor is active if one of them is not over |
| DiscoverySupervisor.ClaudeDiscoverySupervisor.ManagedMeansKnown | src/agent_keepalive/claude_supervisor.py:261-264 | wherever a tick can be cut short, every managed record in the store is of a session with a lifecycle |
| DiscoverySupervisor.ClaudeDiscoverySupervisor.RemoveSessionRecords | src/agent_keepalive/claude_supervisor.py:407-410 | from wherever a tick was cut short, no managed record is left and no other kind of file changes |
| DiscoverySupervisor.ClaudeDiscoverySupervisor.Shutdown | src/agent_keepalive/claude_supervisor.py:151-154 | from wherever a tick was cut short, only records from before the run that no supervisor managed are left, and the own record only after an error |
| DiscoverySupervisor.ClaudeDiscoverySupervisor.Run | src/agent_keepalive/claude_supervisor.py:122-154 | whatever raises in preflight, in a tick or between two, the cleanup leaves that, unless it raises itself |
| WebSocketFrames.PackRoundTrip | src/agent_keepalive/ws.py:139-144 | packing a number in network byte order and unpacking gives it back |
| WebSocketFrames.MaskTwice | src/agent_keepalive/ws.py:131-134 | masking undoes itself, section 5.3 of RFC 6455 |
| WebSocketFrames.XorBit | src/agent_keepalive/ws.py:131-134 | masking is exclusive or: each bit is the sum of the two bits modulo 2 |
| WebSocketFrames.EncodedBytes | src/agent_keepalive/ws.py:130-146 | the bytes of a sent frame, one by one: first two, length in network byte order, mask, and each payload byte under its mask byte |
| WebSocketFrames.EncodeThenDecode | src/agent_keepalive/ws.py:128-146 | an encoded frame is decoded to itself, final, with exactly the rest of the stream left |
| WebSocketFrames.DecodeAllEncoded | src/agent_keepalive/ws.py:128-179 | decoding a stream that begins with encoded frames gives those frames and then the rest |
| WebSocketFrames.StreamRoundTrip | src/agent_keepalive/ws.py:128-179 | every sequence of frames comes back as it was sent |
| WebSocketFrames.EncodingIsShortest | src/agent_keepalive/ws.py:137-144 | no masked byte string for the same frame is shorter, section 5.2 of RFC 6455 |
| WebSocketReader.PullExactReadsPrefix | src/agent_keepalive/ws.py:197-214 | bytes are read in order without loss, and a result of nothing has consumed nothing |
| WebSocketReader.PullFrameProgress | src/agent_keepalive/ws.py:148-151 | a result of no frame has consumed no byte |
| WebSocketReader.FrameIsDecoded | src/agent_keepalive/ws.py:148-179 | a frame returned under any schedule is the first frame of the stream, and exactly its bytes are gone |
| WebSocketReader.LateKeyIsLeftBehind | src/agent_keepalive/ws.py:168-179 | a schedule under which the key of a masked empty frame stays in the stream |
| WebSocketReader.ScheduleIndependentIff | src/agent_keepalive/ws.py:148-179 | a stream is read independently of the schedule exactly when its first frame is not masked and empty |
| WebSocketReader.FramesAreAPrefix | src/agent_keepalive/ws.py:148-179 | under any chunks, timeouts and end the frames read are a prefix of those of the stream read at once, and as long as no call raised the others are all still in the stream |
| WebSocketReader.WireRoundTrip | src/agent_keepalive/ws.py:128-214 | frames sent are read back exactly and with nothing left over, whatever the chunks |
| WebSocketEvents.PullEventIsFaithful | src/agent_keepalive/ws.py:76-114 | a call of `recv_event` returns the next event of the stream or leaves it to the next call, with exactly the pongs due |
| WebSocketEvents.EventsAreAPrefix | src/agent_keepalive/ws.py:76-114 | under any schedule the events returned and the pongs sent are prefixes of those of the stream read at once, and as long as no call raised the others are all still to come |
| WebSocketEvents.FrameMeans | src/agent_keepalive/ws.py:88-114 | what a single frame between two messages is, by the number of its opcode |
| WebSocketEvents.QuietIsNothing | src/agent_keepalive/ws.py:84-86 | a timeout or the end of the stream between two messages returns nothing, sends nothing and consumes nothing |
| WebSocketEvents.TextIsReassembledIff | src/agent_keepalive/ws.py:97-114 | a fragmented text is one event with all its bytes, and the stream stands behind it, exactly when no ping, pong or close is among the fragments |
| WebSocketEvents.PingCutsText | src/agent_keepalive/ws.py:99-106 | a ping among the fragments is answered and ends the text there, leaving its rest in the stream |
| WebSocketEvents.PongBreaksText | src/agent_keepalive/ws.py:99-110 | a pong as the first control frame among the fragments raises |
| WebSocketEvents.CloseEndsText | src/agent_keepalive/ws.py:107-108 | a close as the first control frame among the fragments is returned and the text so far is lost |
| WebSocketEvents.RestOfTextIsLost | src/agent_keepalive/ws.py:95-114 | of a text with pings in it the events are the part before the first ping and then those after the message; all pings are answered |
| WebSocketEvents.BinaryIsSkippedIff | src/agent_keepalive/ws.py:95-113 | a fragmented binary message disturbs no event after it, and its pings are answered, exactly when no pong or close is among its fragments |
| WebSocketEvents.EndInsideBinary | src/agent_keepalive/ws.py:89-110 | the first pong or close inside a binary message is an event, except that a pong raises unless it comes first or right after a ping |
| WebSocketEvents.PatientEvent | src/agent_keepalive/ws.py:76-114 | when the bytes keep coming, one call returns the next event of the stream, or raises if the frames break the code's rules |
| WebSocketEvents.TextMessageArrives | src/agent_keepalive/ws.py:76-114 | whatever the chunks, one call returns what the first control frame among the fragments makes of a text, or all of it if there is none |
| WebSocketPeer.ServerEncodesRight | src/agent_keepalive/ws.py:148-179 | the bytes a server sends, one by one, section 5.2 of RFC 6455 |
| WebSocketPeer.ServerStreamIsDecoded | src/agent_keepalive/ws.py:148-179 | the unmasked bytes a server makes of any frames, final or not, in any of the three length forms, are decoded to those frames and can be read under any schedule |
| WebSocketPeer.ServerFramesAreRead | src/agent_keepalive/ws.py:148-214 | what a server sends is read back exactly under any chunks; with any timeouts and end it is a beginning, and no frame is lost as long as no call raised |
| WebSocketPeer.ServerEventsAreRead | src/agent_keepalive/ws.py:76-114 | the same of events and pongs |
| WebSocketPeer.TextFromTheServer | src/agent_keepalive/ws.py:76-114 | from the bytes a server sends, one call returns a fragmented text whole exactly when no control frame is among its fragments, and otherwise what the first of them leaves |
| WebSocketClient.UnixWebSocket.Close | src/agent_keepalive/ws.py:116-126 | a close frame goes out once, and nothing is sent or read afterwards |
| WebSocketClient.UnixWebSocket.SendFrame | src/agent_keepalive/ws.py:128-146 | if connected, the bytes of the frame as a client has to send it, under some mask, are appended to the wire |
| WebSocketClient.UnixWebSocket.PeerDecodesWhatWasSent | src/agent_keepalive/ws.py:64-74 | the peer decodes exactly the frames sent |
| WebSocketClient.UnixWebSocket.RecvExact | src/agent_keepalive/ws.py:197-214 | the loop over chunks does what the specification of reading does |
| WebSocketClient.UnixWebSocket.RecvFrame | src/agent_keepalive/ws.py:148-179 | frame or exception and what is left of the stream are those of the specification |
| WebSocketClient.UnixWebSocket.RecvFragments | src/agent_keepalive/ws.py:97-111 | the inner loop ends as specified and has sent one pong per ping |
| WebSocketClient.UnixWebSocket.RecvEvent | src/agent_keepalive/ws.py:76-114 | the event is the specified one and one pong per ping was sent, same payload, in order |
| RpcRuns.InvHolds | src/agent_keepalive/rpc.py:41-64 | the invariant of tables, ledger, ids and closing holds after every interleaving |
| RpcRuns.AtMostOneItem | src/agent_keepalive/rpc.py:118-137 | at most one item is ever put into a response queue, so the reader's put never blocks |
| RpcRuns.AnswersAreCorrelated | src/agent_keepalive/rpc.py:48-64 | a call that returns a result was given it by exactly one message, with its id and that result, an error by one with that error and no result, or it was pending when the reader failed |
| RpcRuns.IdsAreDistinctIff | src/agent_keepalive/rpc.py:85-88 | request ids are distinct exactly when no two allocations overlapped |
| RpcRuns.NoReplyIsLost | src/agent_keepalive/rpc.py:118-129 | without overlap the result or error of a response that arrives while its call waits is delivered to that call |
| RpcRuns.OrphanStays | src/agent_keepalive/rpc.py:44-54 | a call that waits with nothing put, in no table and in nobody's hands gets no item in any continuation |
| RpcRuns.OverlapLosesAReply | src/agent_keepalive/rpc.py:85-88 | an interleaving of two calls after which the only reply goes to the second and the first never gets one, whatever follows |
| RpcRuns.RoutingConserves | src/agent_keepalive/rpc.py:118-130 | notifications are exactly the non-responses in order, and everything put into a queue is accounted for by messages and closing |
| RpcRuns.FateIsDecidedOnArrival | src/agent_keepalive/rpc.py:118-130 | the result or error of a response is delivered to the call pending under its id when it arrives, and dropped just if there is none then; anything else becomes a notification |
| RpcRuns.GivingUpMeansNothingCame | src/agent_keepalive/rpc.py:49-54 | a call times out only if it has been given nothing |
| RpcRuns.ClosingIsComplete | src/agent_keepalive/rpc.py:108-137 | every call pending at the swap gets exactly the closed item, one closing notification comes last, later table entries began before the error |
| RpcRuns.LateCallsAreRefused | src/agent_keepalive/rpc.py:42-43 | a request begun after the error is published never gets further |
| RpcClient.JsonRpcClient.Request | src/agent_keepalive/rpc.py:41-64 | with any steps of other threads in between the request ends, refused if the error was published, with the result or the error of the one message with its id or with the closing, and after a timeout with nothing in the table |
| RpcRuns.OthersKeepCall | src/agent_keepalive/rpc.py:41-64 | a call stays where it is while others make any steps |
| RpcClient.JsonRpcClient.CheckOpen | src/agent_keepalive/rpc.py:42-43 | refuses exactly when the closed error is set, as the protocol's step |
| RpcClient.JsonRpcClient.RegisterCall | src/agent_keepalive/rpc.py:45-47 | the call is pending under its id, as the protocol's step |
| RpcClient.JsonRpcClient.TakeReply | src/agent_keepalive/rpc.py:49-50 | the call ends with the item of its queue, as the protocol's step |
| RpcClient.JsonRpcClient.ForgetCall | src/agent_keepalive/rpc.py:51-54 | the entry under the id goes, as the protocol's step |
| RpcClient.JsonRpcClient.DispatchMessage | src/agent_keepalive/rpc.py:118-130 | the message is routed as the protocol's step does |
| RpcClient.JsonRpcClient.PutReplyItem | src/agent_keepalive/rpc.py:125-128 | the put is always possible, and is the protocol's step |
| RpcClient.JsonRpcClient.FailPending | src/agent_keepalive/rpc.py:132-137 | with any steps of the callers in between, every call that was pending at the swap has been given exactly the closed item, and no other call anything |
| Durations.ParseDuration | src/agent_keepalive/timeparse.py:18-38 | the scanning loop computes the meaning of the text, with its four errors |
| Durations.FormatDuration | src/agent_keepalive/timeparse.py:41-59 | prints days, hours, minutes and seconds without zero components, a negative duration as zero |
| Durations.TextIs | src/agent_keepalive/timeparse.py:41-59 | the printed text, component by component, by numbers |
| Durations.ScanText | src/agent_keepalive/timeparse.py:18-59 | the printed text scans to the seconds printed |
| Durations.TokenWeighs | src/agent_keepalive/timeparse.py:9-15 | a number counts for seconds, or with its letter for 1, 60, 3600 or 86400 of them |
| Durations.NothingElseIsRead | src/agent_keepalive/timeparse.py:25-31 | only digits, the four letters and spaces are accepted, beginning with a digit |
| Durations.SpacesAreDropped | src/agent_keepalive/timeparse.py:8 | which ASCII characters are spaces, and that they are skipped |
| Durations.CaseIsIgnored | src/agent_keepalive/timeparse.py:19 | the letters count in either case, and nothing else is changed into one |
| Durations.Outcomes | src/agent_keepalive/timeparse.py:18-38 | which of the four errors a text gives, or its seconds |
| Durations.PrintThenParseIff | src/agent_keepalive/timeparse.py:18-59 | printing and parsing gives a duration back exactly when it is positive and fits |
| Durations.ScanIsAdditive | src/agent_keepalive/timeparse.py:25-34 | one text after another scans to the sum, when no digit of the one meets a digit of the other |
| Durations.ParsingIsAdditive | src/agent_keepalive/timeparse.py:18-38 | the same for whole texts with any spaces between, case and outer spaces ignored |
| Activity.ThreadActivityTracker.SetStatus | src/agent_keepalive/activity.py:153-179 | the fields become those of the specified status change |
| Activity.ThreadActivityTracker.NoteThreadSnapshot | src/agent_keepalive/activity.py:60-74 | the fields become those of the specified snapshot |
| Activity.ThreadActivityTracker.Note | src/agent_keepalive/activity.py:76-123 | the fields become those of the specified notification, and the result says whether it was for this thread |
| KeeperLoop.Keeper.Run | src/agent_keepalive/runner.py:79-146 | the run ends at the first turn with a reason; the record is kept only after an error, and the thread is left only on a signal or the timeout |
| KeeperLoop.ActivityStaysPast | src/agent_keepalive/activity.py:97-121 | while a loaded thread is not active, its times are at or after the end of all its activity |
| KeeperLoop.DetachIsSafe | src/agent_keepalive/runner.py:79-112 | exit on the idle timeout means neither active nor unloaded, and a whole timeout since the thread was last tracked as active |
| KeeperPromises.WorkIsRespected | src/agent_keepalive/runner.py:79-112 | exit on the idle timeout means that every turn or item heard to start, and every change to active, was followed by another status a whole timeout before |
| KeeperPromises.IdleThreadIsLeft | src/agent_keepalive/runner.py:104-112 | a run is over once a thread got another status and nothing changed it for a whole timeout |
| KeeperPromises.IdleFromTheStart | src/agent_keepalive/runner.py:104-112 | the same of a thread that was inactive when attached |
| KeeperPromises.UnknownThreadIsLeftIff | src/agent_keepalive/providers/base.py:74-82 | a thread whose status is not known is left exactly a timeout after its last sign of activity |
| KeeperPromises.EndingIsExplained | src/agent_keepalive/runner.py:79-116 | why a run ends: the first signal, broken connection or unloading, in this order, or else the timeout |
| KeeperPromises.StatusIsNoted | src/agent_keepalive/activity.py:153-179 | all that a change of status sets, by the notification |
| KeeperPromises.WorkIsNoted | src/agent_keepalive/activity.py:105-117 | all that a started turn or item and a close set |
| KeeperPromises.EventIsNoted | src/agent_keepalive/activity.py:76-123 | which notifications are counted, and which count as activity |
| KeeperLoop.TrackerAloneIsNotSafe | src/agent_keepalive/activity.py:105-110 | after a close in the middle of an activity the tracker alone would detach too early |
| KeeperLoop.BoundSurvivesIff | src/agent_keepalive/activity.py:76-121 | in every run of the tracker, over all notifications after an activity, exactly when the tracker alone keeps its end in sight: no close in the middle of it with a later change of status and no activity in between |

## Left out

- WriteOnChangeRefinesWriteAlways: does not cover `live_entry_available` (see LiveFlagIsCurrentIff) nor `state_age_seconds`, `updated_at`, `started_at`, pid and log path, which carry the clock or the process.
- SafeTargetId: treats as alphanumeric ASCII letters and digits only.
- ParseDuration: works on ASCII text; Python's limit on the digits of one number is not modelled.
- ParsingIsAdditive: says nothing of texts glued together digit to digit, which the code reads as one number.
- DetachIsSafe: starts at a successful attach; retrying an attach and its delays are not modelled.
- NoReplyIsLost: stops at the swap of the pending table; calls registered after it are never answered.
- Tick: leaves out the event count, the number of visible sessions and the discovery summary of the supervisor's own record.
- List: says nothing of the order, which is that of the file names.
- `seconds_until_detach` of the tracker, on which nothing in the keeper depends.
- Keeper.Run: a failing ping, a failing poll other than a closed connection, and a signal during the exit are not modelled.
- Lifecycles and records are values in maps that the supervisor reassigns, not objects, so aliasing of a lifecycle is not captured.
- Run: starts at the `try`; waiting between ticks, signal handlers and what preflight reports are left out.
- The transition counter and logging.
- What is in an unreadable or damaged record file (loading it raises), and other writers of session records; a write is atomic.
- NaN and infinities in job files, and resolving paths of configured roots.
- The WebSocket handshake, UTF-8 decoding of text, and errors of `sendall`.
- Messages that are no JSON objects, error objects that are no dictionaries, consuming notifications, and joining the reader thread.
- The single-session Claude keeper, the record codec, the command line, process recovery and log files: straight-line or I/O.
