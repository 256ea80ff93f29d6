# OutRelay verification model

This project models the parts of OutRelay whose correctness spans whole runs, and proves what they
promise: the stream-resume protocol, the watch/broadcast protocol of the policy and registry
servers, the registry's store, the ORP frame codec and stream automaton, and the latency histogram.
`dafny verify dfyconfig.toml` checks everything.

How the model is laid out:

- **Stream resume** (`lib/resume`). `RingSpec` is the ring of sent bytes as a value, `RingBuffers` the
  same ring as heap code over a backing array, `Endpoints` and `ResumeState` one end of a stream as a
  value and as an object. `ResumeProtocol` connects two ends: a run is any list of writes, reads,
  checkpoints emitted and received (late, repeatedly, out of order, or never), disconnects, resume
  reports, splices and retransmissions. `ResumeInterleaving` splits one end at its atomic operations.
- **Watch and broadcast** (`pkg/policy`, `pkg/registry`). `WatchHub` is the hub both servers share: a
  run is any interleaving of joins, broadcasts, handler passes, cancellations and removals.
  `WatchServers` is the same as code. `Policies`, `PolicyWatch`, `PolicyRuns` and `PolicyServers` put
  the policy table and its RPCs in front of it, with commit and broadcast, and list and register, as
  separate steps. `RegistryWatch`, `RegistryRuns` and `RegistryServers` do the same for the registry,
  with select, delete, store and each broadcast as separate steps.
- **Registry store** (`pkg/registry/store`). `RegistryStore` takes each SQL statement as a function on
  a table with its PRIMARY KEY and UNIQUE constraints; `RegistryHistory` runs whole call histories.
- **ORP** (`lib/orp`). `Frames` is the codec on byte sequences, `FrameIO` the code that fills a buffer
  and pulls from a reader, `StreamFsm` the automaton and its language.
- **Histogram** (`lib/observe`). `Histograms`.

An action that is not possible in a state leaves the state unchanged, so statements about runs
quantify over every list of actions.

Where code and comment disagree, the model follows the code:

- `Discard` returns before its shrink step when the position is at or below the tail
  (lib/resume/ringbuffer.go:172), although lib/resume/resume_test.go:187 says the shrink path still runs
  there. Repeating a discard is idle if and only if the position is within the head or the capacity is
  already at its minimum; above the head every repeat halves the capacity again
  (`RepeatedDiscardIsIdle`).
- lib/orp/frame.go:164-166 says a short header read gives an unexpected EOF. That holds for a reader
  that ends with io.EOF; a reader's own unexpected EOF is returned bare even before the first byte, and
  so is, before the first byte, an error that wraps io.EOF; any other error is wrapped
  (`BareEofIffBoundary`).
- `OnCheckpointFromPeer` keeps "newer" positions only, but compares and stores in separate steps, so two
  handlers can move PeerAckPos back (`RacingHandlersGoBack`). `GoingBackIsExact` says, as an
  equivalence, from which states that can happen.
- pkg/policy/server.go:146-147 says registering before the snapshot send loses no update. A rule
  committed and broadcast between the listing (line 134) and the registration (line 148) is lost
  (`ListRegisterGapLosesRule`), and so is the effect of two broadcasts of one rule that overtake each
  other (`ReorderedBroadcastsKeepDeadRule`). `ConvergenceIsExact` states when a cache is right, as an
  equivalence in every reachable state; `WaitingIsExact` states which client discipline keeps broadcasts
  in order, as an equivalence; `CacheConverges` and `WaitingClientsConverge` put the two together.
- `RegisterService` returns the id it derived rather than the stored one. For requests from the
  server the two are equal (`ValidTenantsNeverCollide`); without the tenant pattern, which the server
  does not check, a registration can be refused because another pair has the same derived id
  (`RefusedIffIdCollides`, `SlashInTenantCollides`).
- `DeregisterAgent` selects, deletes and broadcasts in separate steps, and `RegisterService` stores and
  broadcasts in separate steps. `LogReplayIsExact` says, as an equivalence in every reachable state, when
  every schedule of the RPCs in progress ends with a broadcast log that replays the table;
  `KeepingClearIsExact` says which overlaps callers must avoid, as an equivalence over runs; and
  `FailoverLosesBinding` is a failover, after any history, that leaves watchers without a stored binding.

## Model

| member | source | states |
|---|---|---|
| `RingSpec.NewFixed` | lib/resume/ringbuffer.go:56-66 | a fresh ring whose capacity cannot move; non-positive capacities become the default |
| `RingSpec.NewAdaptive` | lib/resume/ringbuffer.go:74-90 | a fresh ring starting at its minimum; bounds normalised and clamped |
| `RingSpec.WriteKeepsSuffix` | lib/resume/ringbuffer.go:97-128 | whatever the capacity does, a write keeps exactly the last maxCap bytes of what was held and written |
| `RingSpec.DiscardMoves` | lib/resume/ringbuffer.go:168-193 | a discard moves the tail to the position, clipped to the head, never back, and changes no byte that stays |
| `RingSpec.ClosedForm` | lib/resume/ringbuffer.go:97-193 | after any run the contents are Written[Tail..Head] with Tail the larger of the discard mark and Head - maxCap, and minCap <= cap <= maxCap, len <= cap |
| `RingSpec.BytesFromClosedForm` | lib/resume/ringbuffer.go:147-162 | after any run a read fails exactly below that tail and otherwise returns every byte from the position to the head |
| `RingSpec.AdaptiveRefinesFixed` | lib/resume/ringbuffer.go:68-193 | an adaptive ring agrees with a fixed ring of its maximum capacity on head, tail, contents and every BytesFrom answer, over every run |
| `RingSpec.CreditStep` | lib/resume/ringbuffer.go:104-112 | every operation keeps 2 * freed - copied at least zero and large enough to pay for the next shrink |
| `RingSpec.AmortisedShrink` | lib/resume/ringbuffer.go:168-193 | over any run all shrinks together copy at most twice the bytes Discard freed |
| `RingSpec.ResizeHysteresis` | lib/resume/ringbuffer.go:21-24 | a write that does not fit grows to min(max(2 * cap, needed), maxCap); a discard that leaves less than a quarter held shrinks to max(cap/2, minCap); nothing else moves the capacity; a grow leaves the ring at least half full, a shrink at most half full |
| `RingSpec.RepeatedDiscardIsIdle` | lib/resume/ringbuffer.go:168-193 | repeating a discard changes nothing, capacity included, if and only if the position is within the head or the capacity is at its minimum; otherwise the repeat halves the capacity |
| `RingBuffers.RingBuffer.Fixed` | lib/resume/ringbuffer.go:56-66 | the heap object starts as the fixed ring value |
| `RingBuffers.RingBuffer.Adaptive` | lib/resume/ringbuffer.go:74-90 | the heap object starts as the adaptive ring value |
| `RingBuffers.RingBuffer.Write` | lib/resume/ringbuffer.go:97-128 | grow, trim and in-place or reallocating append compute the ring function |
| `RingBuffers.RingBuffer.Head` | lib/resume/ringbuffer.go:131-135 | reads the head of the ring value, which `RingSpec.ClosedForm` shows to count every byte written |
| `RingBuffers.RingBuffer.Tail` | lib/resume/ringbuffer.go:138-142 | smallest position still held |
| `RingBuffers.RingBuffer.BytesFrom` | lib/resume/ringbuffer.go:147-162 | the answer is a fresh array equal to the specified bytes, or the eviction error |
| `RingBuffers.RingBuffer.Discard` | lib/resume/ringbuffer.go:168-193 | re-slicing and shrinking compute the ring function |
| `RingBuffers.SnapshotSurvives` | lib/resume/ringbuffer.go:144-162 | bytes handed out are unchanged by any later run of writes and discards on the same ring |
| `ResumeState.State.constructor` | lib/resume/stream.go:40-46 | a new stream has a fresh fixed ring and zero counters |
| `ResumeState.State.OnWrite` | lib/resume/stream.go:60-66 | pushes through the ring and counts; an empty write does nothing |
| `ResumeState.State.OnRead` | lib/resume/stream.go:69-74 | counts delivered bytes; non-positive counts do nothing |
| `ResumeState.State.OnCheckpointFromPeer` | lib/resume/stream.go:80-86 | PeerAckPos becomes the larger position; a newer one moves the tail to it, clipped to the head, and an older one moves nothing |
| `ResumeState.State.ResumePayload` | lib/resume/stream.go:90-92 | the sent and received counts |
| `ResumeState.State.RetransmitFrom` | lib/resume/stream.go:99-101 | a fresh copy of the ring from the peer's position, or the eviction error |
| `Endpoints.EndpointClosedForm` | lib/resume/stream.go:60-101 | over every list of calls on a new endpoint: Sent and Received count the bytes, PeerAck is the largest position acknowledged, and the ring is the window of what was written above it, clipped to what was written when it arrived |
| `Endpoints.RetransmitClosedForm` | lib/resume/stream.go:90-101 | after every list of calls a retransmission returns everything written from the position on or fails exactly below the tail, and the resume payload carries the true counts |
| `ResumeProtocol.NextKeepsInv` | lib/resume/stream.go:60-101 | every protocol step, disconnects and splices included, keeps: counters equal history lengths, the ring is the window above the acknowledged position, acks never exceed what was delivered, a live lane holds exactly the undelivered bytes |
| `ResumeProtocol.CheckpointFrees` | lib/resume/stream.go:80-86 | a checkpoint that arrives is remembered if newer, and everything below it is freed |
| `ResumeProtocol.CheckpointRoundTrip` | lib/resume/stream.go:69-86 | a published and taken checkpoint leaves the sender holding nothing the receiver has |
| `ResumeProtocol.ExactlyOnceDelivery` | lib/resume/stream.go:60-101 | in every run, in both directions, delivered bytes are a prefix of written bytes and on a live lane delivered ++ in flight is the whole history; resume payloads carry the true counts |
| `ResumeProtocol.ResumabilityIsExact` | lib/resume/stream.go:94-101 | in every reachable state retransmission succeeds if and only if sent - peer received <= the ring's maximum capacity, and then returns exactly the missing bytes |
| `ResumeProtocol.LostIsForever` | lib/resume/ringbuffer.go:26-30 | once a cut, drained direction has a gap above maxCap, no continuation ever delivers another byte on it |
| `ResumeProtocol.RecoveryIsExact` | api/orp/v1/orp.proto:78-90 | from any reachable state with both directions down and drained, some continuation delivers everything written if and only if both gaps fit their rings |
| `ResumeInterleaving.CountersAgree` | lib/resume/stream.go:60-86 | at every atomic step of a writer, a reader and any number of racing handlers: SentPos trails Head by exactly the chunk in progress and Tail <= max(largest position ever acknowledged, Head - maxCap) |
| `ResumeInterleaving.TailBehindAck` | lib/resume/stream.go:60-86 | with one handler at a time, Tail <= max(PeerAckPos, Head - maxCap) at every intermediate step |
| `ResumeInterleaving.AckNeverDecreases` | lib/resume/stream.go:80-86 | with one handler at a time PeerAckPos never decreases along a run |
| `ResumeInterleaving.StepsAreTheCall` | lib/resume/stream.go:60-86 | the atomic steps of a call, uninterrupted, are the call |
| `ResumeInterleaving.GoingBackIsExact` | lib/resume/stream.go:80-86 | from any state, some schedule of the handlers already loaded lowers PeerAckPos if and only if a handler about to store is behind the counter or behind another handler about to store |
| `ResumeInterleaving.RacingHandlersGoBack` | lib/resume/stream.go:80-86 | it happens for any two positions of what was written: both handlers load, the newer stores first, the older second |
| `WatchHub.GapFreeWatch` | pkg/registry/server.go:165-248 | in every interleaving, received ++ queued is exactly the matching broadcasts since joining; for an evicted watcher exactly those before the first that did not fit |
| `WatchHub.DropIsVisible` | pkg/registry/server.go:187-192 | a stream that ends as dropped has sent everything up to the event that did not fit and nothing after |
| `WatchHub.EvictedIsTold` | pkg/registry/server.go:161-200 | an evicted watcher whose sends succeed always reaches the error, having been sent all it was owed |
| `WatchHub.DeliveredWasAskedFor` | pkg/registry/server.go:225-248 | every live event a client was sent was broadcast after it joined, for its tenant and one of its names |
| `WatchHub.AskedForIsOwed` | pkg/registry/server.go:225-248 | conversely, for every filter: every broadcast a watcher asked for while in the map was sent, is queued, or is the one whose Send failed |
| `WatchHub.DropsIffFull` | pkg/registry/server.go:238-247 | a watcher is dropped exactly when it asked for the broadcast with 64 events waiting |
| `WatchHub.HandlersLeave` | pkg/registry/server.go:172-223 | cancelling a handler or failing its Send ends its loop, and leaving takes its watcher out of the map with the channel closed |
| `WatchHub.ChannelLifecycle` | pkg/policy/server.go:198-235 | no interleaving sends on or closes a closed channel; a channel is open exactly while its watcher is in the map, is closed at most once and by the time its handler is gone, and never holds more than 64 events |
| `WatchServers.WatchServer.AddWatcher` | pkg/policy/server.go:204-208 | takes the hub's join step under a fresh id |
| `WatchServers.WatchServer.RemoveWatcher` | pkg/policy/server.go:210-217 | takes the hub's leave step; closes the channel only if still in the map |
| `WatchServers.WatchServer.Broadcast` | pkg/policy/server.go:219-235 | the loop over registered watchers takes the hub's publish step for all of them |
| `WatchServers.WatchServer.TrySend` | pkg/registry/server.go:228-247 | filter, then send without blocking or drop and close, for one watcher |
| `WatchServers.WatchServer.Drain` | pkg/registry/server.go:183-199 | the handler loop, sends succeeding, ends having sent the snapshot and exactly the broadcasts owed, has returned if and only if the watcher was thrown out, and touches no other watcher |
| `Policies.AddChangesOneRule` | pkg/policy/server.go:46-92 | AddPolicy commits exactly for a complete rule with a decision and a free id; it then stores the rule as asked for under its own id, or the generated one if it has none, and changes that one rule of one tenant's view |
| `Policies.AddErrors` | pkg/policy/server.go:46-79 | each error of AddPolicy, if and only if its own condition holds and no earlier one |
| `Policies.StoredColumns` | pkg/policy/server.go:65-75 | what each column of a stored rule holds |
| `Policies.ReadsBackAs` | pkg/policy/server.go:237-300 | a stored rule reads back as itself, unknown enum values becoming ALLOW, ALLOWED and SPLICE, with the time of the insert |
| `Policies.RemoveChangesOneRule` | pkg/registry/store/sqlite.go:302-312 | RemovePolicy reports true exactly when its tenant has the rule, removes only that, and affects no other tenant |
| `Policies.StoredFaithfully` | pkg/policy/server.go:237-300 | storing and re-reading a rule returns it, creation time aside, if and only if its enums are known values |
| `Policies.SnapshotGivesView` | pkg/policy/server.go:133-172 | the snapshot events of a listing fold to exactly the tenant's rules |
| `PolicyWatch.CommitMovesView` | pkg/registry/store/sqlite.go:282-312 | an insert or delete moves each tenant's view exactly as the last change to each rule says |
| `PolicyWatch.NextKeepsInv` | pkg/policy/server.go:46-235 | every commit, broadcast, listing, registration and handler step keeps the table, the commit history, the broadcast log and the listings in agreement |
| `PolicyWatch.ConvergenceIsExact` | pkg/policy/server.go:46-235 | in every reachable state a drained watcher caches exactly the tenant's rules if and only if, rule by rule, the last change it heard of is what is stored, or it heard of none and the rule is stored as it was when listed |
| `PolicyWatch.OrderedConvergenceIsExact` | pkg/policy/server.go:46-235 | with in-order broadcasts, known enums and nothing in progress, that is: each rule was announced since it registered or is stored as it was when listed |
| `PolicyWatch.CacheConverges` | pkg/policy/server.go:131-196 | it does so whenever no change committed after its listing was broadcast before its registration |
| `PolicyRuns.WaitingClientsStayInOrder` | pkg/policy/server.go:46-115 | clients with at most one RPC per rule in progress get in-order broadcasts |
| `PolicyRuns.ReorderIsExact` | pkg/policy/server.go:46-115 | at any point of a run in order so far, the broadcasts in progress can put a rule out of order if and only if two RPCs on one rule overlap |
| `PolicyRuns.WaitingIsExact` | pkg/policy/server.go:46-115 | clients have at most one RPC per rule in progress throughout a run if and only if at no point of it could the broadcasts in progress have put a rule out of order |
| `PolicyRuns.WaitingClientsConverge` | pkg/policy/server.go:46-235 | for such clients the listing gap is the only way a cache can be wrong |
| `PolicyRuns.ListRegisterGapLosesRule` | pkg/policy/server.go:134-148 | a concrete run, for any valid rule, after which a live drained watcher never learns of a stored rule |
| `PolicyRuns.ReorderedBroadcastsKeepDeadRule` | pkg/policy/server.go:66-92 | a concrete run in which two broadcasts of one rule swap and the cache keeps a deleted rule |
| `PolicyRuns.EveryStreamIsShaped` | pkg/policy/server.go:156-195 | every policy stream is a prefix of ADDED* SNAPSHOT_END (ADDED or REMOVED)* at every moment |
| `PolicyServers.PolicyServer.AddPolicy` | pkg/policy/server.go:46-94 | validates, inserts and broadcasts under one id, the rule's own or the generated one, and returns it; or fails with the matching error and no effect |
| `PolicyServers.PolicyServer.RemovePolicy` | pkg/policy/server.go:96-115 | deletes within the tenant and broadcasts only if a row went away |
| `PolicyServers.PolicyServer.ListPolicies` | pkg/registry/store/sqlite.go:317-337 | all and only the tenant's rows, each once, in creation order |
| `PolicyServers.PolicyServer.Watch` | pkg/policy/server.go:131-148 | registers with the snapshot of its own listing |
| `RegistryStore.RegisterLookup` | pkg/registry/store/sqlite.go:150-170 | a registration changes its own pair to the new binding, keeping a stored id, and no other pair |
| `RegistryStore.RegisterRefused` | pkg/registry/store/sqlite.go:150-170 | a registration is refused if and only if its pair is unbound and its id is taken; otherwise that id is returned |
| `RegistryStore.DeleteLookup` | pkg/registry/store/sqlite.go:232-238 | a delete unbinds exactly the pairs belonging to the agent on that relay |
| `RegistryStore.RegionNeverMatters` | pkg/registry/store/sqlite.go:181-204 | in a table with UNIQUE(tenant, name) the region-preferring query returns the one row of the pair for every caller region |
| `RegistryStore.DerivedIdInjective` | pkg/registry/store/sqlite.go:151-154 | tenant/name identifies the pair when tenants contain no slash |
| `RegistryStore.ValidTenantHasNoSlash` | lib/identity/name.go:57-63 | the tenant pattern excludes slashes |
| `RegistryHistory.TableAfterInv` | pkg/registry/store/sqlite.go:37-47 | after every call history the key constraints hold and each row's id is derived from its pair |
| `RegistryHistory.RefusedIffIdCollides` | pkg/registry/store/sqlite.go:150-170 | a complete registration is refused if and only if its derived id already belongs to another pair |
| `RegistryHistory.ValidTenantsNeverCollide` | pkg/registry/store/sqlite.go:150-170 | with well-formed tenants registration always succeeds and returns the stored row's id |
| `RegistryHistory.SlashInTenantCollides` | pkg/registry/server.go:48-72 | two pairs that differ only in where a slash falls: the second is refused |
| `RegistryHistory.LastWriterWins` | pkg/registry/store/sqlite.go:150-239 | after every history a pair resolves if and only if some registration of it is the latest and not cleared by a deregistration matching its agent and relay, and then to that registration |
| `RegistryHistory.LateDeregisterIsHarmless` | pkg/registry/store/sqlite.go:206-239 | a deregistration naming another relay than the standing registration leaves the binding alone |
| `RegistryWatch.DeregisterMirrored` | pkg/registry/server.go:91-115 | the broadcasts of the selected rows, replayed, remove exactly what the delete removes |
| `RegistryWatch.SplitDeregisterIsExact` | pkg/registry/store/sqlite.go:209-239 | with other calls between select and delete, the replay is right if and only if the pairs selected are the pairs deleted among those still bound |
| `RegistryRuns.NextKeepsInv` | pkg/registry/server.go:48-248 | every statement, broadcast, join and handler step keeps the key constraints, the hub invariant and at most one broadcast per pair and RPC |
| `RegistryRuns.LogReplayIsExact` | pkg/registry/server.go:48-115 | in every reachable state, every schedule of the RPCs in progress ends with a log that replays exactly the services table if and only if each broadcast still to come tells what its pair will be bound to and the log is right about every other pair |
| `RegistryRuns.StoreIsExact` | pkg/registry/server.go:60-86 | starting a registration keeps that so if and only if no deregistration of its agent and relay is between select and delete and no other broadcast about its pair is still to come that says anything else |
| `RegistryRuns.SelectIsExact` | pkg/registry/store/sqlite.go:209-239 | starting a deregistration keeps that so if and only if no registration of a selected pair has its broadcast still to come |
| `RegistryRuns.KeepingClearIsExact` | pkg/registry/server.go:48-115 | every RPC of a run starts clear of those in progress in that sense if and only if at no point of the run could the RPCs in progress have finished with a log that does not replay the table |
| `RegistryRuns.LogReplaysTable` | pkg/registry/server.go:48-115 | for callers that keep clear, the log replays exactly the table whenever no RPC is in progress |
| `RegistryRuns.SerialCallersKeepClear` | pkg/registry/server.go:48-115 | RPCs run one at a time keep clear, whatever watchers do |
| `RegistryRuns.WatcherConverges` | pkg/registry/server.go:161-200 | in any interleaving, a drained watcher that folds its events onto a copy right at joining holds exactly the stored bindings if and only if the log is right on the names it asked for |
| `RegistryRuns.EveryEventIsSourced` | pkg/registry/server.go:76-112 | every event a watcher is sent tells of a call: a DEREGISTER names the id, agent and relay of a row the call selected, a REGISTER the binding the call stored |
| `RegistryRuns.HistoryRuns` | pkg/registry/server.go:48-115 | every call history can be run one call at a time, and leaves its table and a log that replays it |
| `RegistryRuns.FailoverLosesBinding` | pkg/registry/store/sqlite.go:209-239 | after any history in which a pair stands for an agent on one relay, a registration of it through another relay between the select and the delete of the old relay's deregistration leaves the new binding stored and the replayed log without one |
| `RegistryServers.Store.RegisterService` | pkg/registry/store/sqlite.go:150-170 | upsert on (tenant, name), or the primary-key error with no effect |
| `RegistryServers.Store.ResolveService` | pkg/registry/store/sqlite.go:181-204 | succeeds if and only if the pair is bound, with its row field for field and its relay's endpoint, first in the query's order |
| `RegistryServers.Store.DeregisterAgent` | pkg/registry/store/sqlite.go:209-239 | returns each matching row once and deletes exactly those |
| `RegistryServers.Store.UpsertRelay` | pkg/registry/store/sqlite.go:242-256 | a later lookup of any pair on that relay answers the new endpoint; the answer for every other pair is as before |
| `RegistryServers.AnswerNamesStanding` | pkg/registry/store/sqlite.go:181-204 | after any history of calls and relay adverts, a lookup answers the standing registration and the endpoint its relay advertised last |
| `RegistryServers.RegistryServer.RegisterService` | pkg/registry/server.go:48-87 | validate, store, then broadcast, as the two steps of a run; succeeds exactly when accepted |
| `RegistryServers.RegistryServer.DeregisterAgent` | pkg/registry/server.go:91-115 | select, delete, then one broadcast per removed row, as the steps of a run |
| `RegistryServers.RegistryServer.Resolve` | pkg/registry/server.go:122-142 | one provider if and only if the pair is bound; after any history it is the standing registration's agent, relay, address and time, with the endpoint its relay advertised last or "" |
| `Frames.WordOfBits` | lib/orp/frame.go:143-162 | the header word shifted and masked together on 16 bits is, as a number, the word the codec writes |
| `Frames.BitsOfWord` | lib/orp/frame.go:177-182 | the version and type shifted and masked out of a 16-bit header word are, as numbers, the fields the codec reads |
| `Frames.RoundTrip` | lib/orp/frame.go:143-201 | an encodable frame followed by anything parses back to itself and leaves the rest |
| `Frames.WireIsLaidOut` | lib/orp/frame.go:154-160 | the big-endian layout of every field |
| `Frames.EncodeMarshals` | lib/orp/frame.go:143-162 | the contract of `FrameIO.MarshalBinary`, of the function it computes |
| `Frames.StreamRoundTrip` | lib/orp/frame.go:143-201 | any sequence of encodable frames parses back to itself and ends at a clean EOF |
| `Frames.StreamEncodingInjective` | lib/orp/frame.go:143-162 | different frame sequences have different encodings |
| `Frames.PrefixFree` | lib/orp/frame.go:143-162 | no encoding is a proper prefix of another |
| `Frames.ParseIsSound` | lib/orp/frame.go:164-201 | for every byte string, a successful parse consumed the frame's own encoding up to the two reserved bits |
| `Frames.TruncationNeverParses` | lib/orp/frame.go:188-193 | no strict prefix of an encoding yields a frame |
| `Frames.BareEofIffBoundary` | lib/orp/frame.go:164-175 | bare EOF if and only if the reader ended cleanly with no byte of a frame; bare unexpected EOF if and only if it ended cleanly inside a header or reported an unexpected EOF itself before the header was complete; wrapped if and only if another error cut the header short, an error wrapping io.EOF included unless no byte was read |
| `Frames.PayloadOutcomes` | lib/orp/frame.go:184-193 | past the header: too large, payload cut short with each reader error, or a frame, each if and only if the length field and the bytes left say so |
| `FrameIO.MarshalBinary` | lib/orp/frame.go:143-162 | succeeds if and only if every field is in range, with the documented layout, and the bytes parse back to the frame whatever follows; each error if and only if its field is the first out of range |
| `FrameIO.ReadFull` | lib/orp/frame.go:169-193 | the contract ParseFrame relies on: exactly n bytes, or all there were and why reading stopped, for every way of cutting the bytes into pieces |
| `FrameIO.ParseFrame` | lib/orp/frame.go:167-201 | outcome, wrapping of errors and remaining bytes depend only on the bytes and how they end |
| `FrameIO.ParseAll` | lib/orp/frame.go:164-201 | parsing until the first error gives the frames and the error of the bytes, however they are cut |
| `FrameIO.StreamComesBack` | lib/orp/frame.go:143-201 | any frames, concatenated and handed over in any pieces, come back as they were and end at a bare EOF |
| `StreamFsm.StreamFSM.Apply` | lib/orp/stream.go:89-96 | follows the table; a refused event reports failure and leaves the state |
| `StreamFsm.AcceptsOnlyLanguage` | lib/orp/stream.go:98-139 | whatever events arrive, the accepted ones form a prefix of Open (Accept Splice?)? Fin Fin, followed only by resets |
| `StreamFsm.AcceptsWholeLanguage` | lib/orp/stream.go:98-139 | every such word is accepted in full |
| `StreamFsm.SplicedIffHistory` | lib/orp/stream.go:106-139 | spliced if and only if the accepted history is exactly Open, Accept, Splice |
| `StreamFsm.ClosedForGood` | lib/orp/stream.go:106-139 | at most five accepted events other than resets; closed is absorbing |
| `Histograms.BucketsSumToSamples` | lib/observe/metric.go:75-85 | the bucket counts add up to the number of samples |
| `Histograms.DefaultBoundsAreDecades` | lib/observe/metric.go:39-50 | the default buckets are the decades from a microsecond to ten seconds |
| `Histograms.UpToIsAtMost` | lib/observe/metric.go:52-54 | with increasing bounds the buckets up to i hold exactly the samples not above bound i |
| `Histograms.Histogram.Observe` | lib/observe/metric.go:75-85 | adds the sample to the history its counts, sum and total describe |
| `Histograms.Scan` | lib/observe/metric.go:120-134 | the scan always stops, at the first bucket whose running count reaches the rank |
| `Histograms.Histogram.Quantile` | lib/observe/metric.go:111-135 | the rank is floor(n * q); with increasing bounds the answer is the least bound that at least that many samples do not exceed, else the mean rounded towards zero; 0 for q outside (0, 1) or no samples |

## Left out

- The agent's reconnect driver is not in the repository; the resume step follows the contract in api/orp/v1/orp.proto:78-90, with the receiver's position fixed once reported.
- Integer width: positions, counters and durations are unbounded integers.
- Header bit operations are written as division and remainder on integers; `Frames.WordOfBits` and `Frames.BitsOfWord` relate them to shifts and masks on 16-bit words.
- RingBuffers.RingBuffer.Write: the written slice is passed by value, so a caller that overwrites its slice during the call is not modelled.
- Histograms.Histogram.Quantile: the rank is computed over the reals, without float64 rounding, and samples are recorded one after another.
- RegistryRuns.WatcherConverges: tenants are non-empty, because the events a watcher of all tenants is sent do not say which tenant they are about.
- PolicyWatch.ConvergenceIsExact: tenants are non-empty, because a watcher with an empty tenant lists and subscribes to different sets of rules.
- The agents table, heartbeats and the audit table: writes that nothing modelled reads back.
- lib/transport, pkg/pki, lib/identity beyond the tenant pattern, lib/resume/streamid.go, the generated protobuf code, commands and tools: wrappers over libraries, clocks, randomness or I/O.
- Store failures, logging and gRPC errors: a failed statement is an RPC without effect, a failed Send is a handler exit.
- Counters, gauges and the metric registry of lib/observe are not modelled.
