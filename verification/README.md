# Verified models of the MeshCore MQTT broker

Dafny models of the parts of the broker whose promises quantify over whole runs or over
all inputs, with proofs of those promises. `dafny verify dfyconfig.toml` checks the project.

| file | models |
|---|---|
| `Forwarding.dfy`, `StopPromise.dfy`, `BridgeOutcomes.dfy`, `TargetBridge.dfy` | the target bridge: every atomic operation of the producers, the worker and `stop` as one step; what `stop` promises; what becomes of a message and why; and the bridge's own code as a class whose primitives perform those steps |
| `WriteTracking.dfy` | the QoS 0 write tracker and the connection that feeds it |
| `WebSocket.dfy`, `WebSocketLaws.dfy` | the WebSocket limiter on bytes, and RFC 6455 (sections 5.2, 5.4, 5.5) as its reference |
| `Retained.dfy`, `RetainedLaws.dfy` | the retained-message store with its deadline index, against a map that never purges and against the calls alone |
| `StatusGuard.dfy`, `StatusGuardLaws.dfy`, `StatusVerdicts.dfy` | the stale-status guard, its runs, its verdicts and evictions read off the history |
| `Notification.dfy`, `NotificationLaws.dfy` | the bounded error notification, its shrinking loop and its JSON |
| `Topics.dfy`, `TextLaws.dfy`, `Policy.dfy`, `PolicyLaws.dfy`, `PublishRules.dfy`, `DeliveryRules.dfy` | topic parsing, publish authorisation, routing, delivery, denial routing, and each of them said of characters and topic levels |
| `UploadQueue.dfy`, `UploadRuns.dfy`, `ReuploadLaws.dfy`, `CooldownLaws.dfy`, `VerdictLaws.dfy`, `NodeTableLaws.dfy`, `NodeTableRuns.dfy` | the upload queue of the MeshCore.io runtime, its interleavings, its memory of accepted uploads, its cooldowns and claims, every verdict read off the log, the size of its node table |
| `Ingress.dfy`, `DedupLaws.dfy`, `IngressRuns.dfy`, `IngressLaws.dfy` | the ingress queue, its digest table, its interleavings, and what is taken and handed out read off the actions |
| `Runtime.dfy` | the runtime's critical sections as methods on the shared state |
| `Common.dfy`, `IndexMaps.dfy` | shared vocabulary and sequences; insertion-ordered maps |

The machines (`Forwarding`, `WriteTracking`, `UploadRuns`, `IngressRuns`) have a state, actions and
`Next`; a `Run` is any sequence of enabled actions, so a statement about a run is about every
interleaving. Fields called history are read by no step.

## Assumptions

- Clock readings never go back in lock order. Many are taken before the lock, so two callers could pass it in the
  other order: src/meshcore_io/runtime.rs:120, 221, 438, 510, 549 and 573, src/mqtt/broker/retained.rs:122, 138 and 162,
  and src/mqtt/broker/status_guard.rs:47.
- Times are unbounded naturals; `now` plus a constant does not overflow 64 bits. `usize` is 64 bits.
- The bridge's atomics are sequentially consistent steps, and `stop` does not reach its deadline: the run
  in which it aborts the worker (src/target_mqtt/forwarding.rs:206-209) is not one of the runs.
- The MQTT client's request channel is a FIFO of 1,000 requests (src/target_mqtt/connection.rs:15, 40 and 60): a send
  completes at once while there is room, and a waiting one as soon as there is. Each Outgoing event reports the
  oldest request, and `Written` takes it out of the channel in the same step. In the client a request leaves the
  bounded channel before its event is reported, so one more than 1,000 can be outstanding. A run of `WriteTracking`
  is a stretch without a poll error or `stop`, both of which drain the tracker.
- A SHA-256 digest stands for the message it was taken of. What parsing JSON or a date finds, whether a
  topic filter matches, what the remote side answers, and drawn jitter are parameters.
- The timestamp of a notification has 24 characters, which `to_rfc3339_opts` gives for years 0 to 9999.

## Findings

- `WriteTracker::remove` is documented to remove "the front entry" (src/target_mqtt/tracker.rs:29-31). It is
  always the back one (`FailedEntryIsLast`), and the front one only when there is no other.
- `RumqttTarget::publish` is documented as safe to abandon (src/target_mqtt/connection.rs:136-140). It is while
  the channel has room (`AlignedWhileThereIsRoom`). A caller that gives up while its send waits in front of the full
  channel leaves an entry behind that shifts every later callback by one: `AbandonedUnsentMisleads` builds such a run
  for every capacity, `PairingExact` says exactly when a callback is right. No callback is ever completed before its
  own publish was written; it is late by exactly the callers before it that gave up (`NeverTooEarly`).
- `stop` is documented to let the worker process every offered message (src/target_mqtt/forwarding.rs:198-199).
  Since the stopping flag is set first, none of the messages still queued reaches the sink, at most the one whose check
  the worker had already passed (`StopSilencesTheSink`); they are drained as dropped (`StopDropsTheQueue`).
  `QueuedMessageIsLost` is a run that loses one with the sink connected; `PromiseHoldsExactly` says that the promise
  is kept exactly when there was nothing left to process, `PromiseKeptByAll` for which states every continuation keeps it.
- Sweeps never change which message counts as a repeat, but they can turn "queue full" into an
  acceptance, in exactly one case (`SweepChangesOnlyFull`).
- The reupload distance is cut to 32 bits (src/meshcore_io/runtime.rs:451). The validated range of at most a day
  loses nothing; `DistanceIsExact` names all settings that lose nothing.
- The hour of cooldown written at admission never outlives the job it was written for: completion and drop clear it,
  so in admission it only decides whether a second advert of a queued node is called "cooldown" or "duplicate"
  (`CooldownOnlyWhileQueued`). For that hour it also keeps the record of a queued node through sweeps.
- Completion inserts node records without trimming. The table then exceeds its cap exactly when it was full and the
  job's own record was gone, or when it exceeded it already (`CompletionOverflows`); never by more than the jobs
  completed since it was within the cap (`OverflowIsCompletions`), nor by more than one job less than the queue may hold
  (`TableIsBounded`). One worker is enough to meet that bound as soon as retries are delayed at all, as by default; without
  a delay it is met with a worker for each job (`TableBoundIsMet`). For every number of workers the table can overflow
  exactly when the queue may hold two jobs (`OverflowNeedsTwoJobs`). The next admission of a node not on record then
  evicts more than the one record it makes room for (`AdmissionEvicts`).

## Model

| member | source | states |
|---|---|---|
| Forwarding.StepKeepsInv | src/target_mqtt/forwarding.rs:97-194 | every atomic step of any thread keeps the slot count, the census of messages, and the send, receive and delivery order |
| Forwarding.SendsNeverFail | src/target_mqtt/forwarding.rs:113-137 | in every interleaving `pending` is the slots held by producers plus queued messages plus the worker's, at most the limit; `try_send` never finds the channel full and no decrement wraps |
| Forwarding.Conservation | src/target_mqtt/forwarding.rs:104-161 | offers equal dropped plus successful plus pending, up to exactly the threads between two counter updates |
| Forwarding.CountedOnce | src/target_mqtt/forwarding.rs:109-161 | a message that has been counted is never counted again |
| Forwarding.CountersAreCensus | src/target_mqtt/forwarding.rs:109-161 | the two counters are exactly the numbers of messages that ended dropped and successful |
| Forwarding.DrainedCountsEveryOffer | src/target_mqtt/forwarding.rs:140-146 | once the worker has exited and all producers returned, nothing is pending and every offer was counted exactly once |
| Forwarding.DeliveredInSendOrder | src/target_mqtt/forwarding.rs:140-171 | the sink gets messages in `try_send` order, none twice, and every message counted successful, also across the race with `stop` |
| Forwarding.LogsGrow | src/target_mqtt/forwarding.rs:140-171 | sends and deliveries are only appended, so their final order is the order in which they happened |
| Forwarding.StopSilencesTheSink | src/target_mqtt/forwarding.rs:163-200 | after the stopping flag is set no offer is taken in, and the sink gets at most the one message that had already passed its stopping check |
| Forwarding.StopDropsTheQueue | src/target_mqtt/forwarding.rs:163-200 | once drained, every message not handed over is counted dropped, and so is every message that had not passed its check when the flag was set |
| Forwarding.PromiseHoldsExactly | src/target_mqtt/forwarding.rs:198-200 | what was unchecked when the flag was set still reaches the sink if and only if there was none: nothing queued, just received, or sent afterwards by a producer already under way |
| StopPromise.PromiseKeptByAll | src/target_mqtt/forwarding.rs:194-200 | in every drained continuation what was unchecked at the flag still reaches the sink if and only if, when it was set, nothing was queued or just received and no producer could still send |
| Forwarding.QueuedMessageIsLost | src/target_mqtt/forwarding.rs:194-200 | for every limit there is a run in which a message queued before `stop` is drained as dropped while the sink is connected |
| Forwarding.StepShrinks | src/target_mqtt/forwarding.rs:109-179 | every step of a producer under way or of the worker lowers the bound on the steps left; the steps of `stop` leave it |
| Forwarding.DrainIsBounded | src/target_mqtt/forwarding.rs:140-146 | after the flag is set the work still done is bounded by what was under way then |
| Forwarding.DrainNeverStuck | src/target_mqtt/forwarding.rs:140-146 | with the sender gone some step of work can be taken until all is drained |
| Forwarding.StopDrains | src/target_mqtt/forwarding.rs:194-200 | a run after `stop` that can work no further has drained: worker exited, producers returned, nothing pending, every offer counted once |
| BridgeOutcomes.ContentsAsOffered | src/target_mqtt/forwarding.rs:97-137 | in every run whatever the bridge carries or has handed over is an offer with its topic, payload and retain flag unchanged |
| BridgeOutcomes.OutcomesAreJustified | src/target_mqtt/forwarding.rs:109-179 | a message is counted as dropped only if the sink was not connected or did not take it, the limit was reached, or the bridge was stopping, and as successful only if the sink took it |
| TargetBridges.ForwardedPublishes | src/target_mqtt/forwarding.rs:215-227 | of the publishes the policy accepts, exactly those on status, packets or neighbors in any case are forwarded |
| TargetBridges.TargetTopicsExactly | src/target_mqtt/forwarding.rs:215-227 | a topic is forwarded if and only if it reads meshcore, some level, the own key in any case, and one of the three words in any case |
| TargetBridges.TargetBridge.constructor | src/target_mqtt/forwarding.rs:62-90 | a new bridge is the machine's initial state |
| TargetBridges.TargetBridge.TryReserve | src/target_mqtt/forwarding.rs:113-119 | a slot is taken exactly when fewer than the limit are |
| TargetBridges.TargetBridge.TrySend | src/target_mqtt/forwarding.rs:134-137 | with a slot held the send succeeds and appends the message |
| TargetBridges.TargetBridge.OfferPublishWithRetain | src/target_mqtt/forwarding.rs:97-138 | a message is ignored, counted as dropped with no slot kept, or queued last with one slot taken |
| TargetBridges.TargetBridge.SendReserved | src/target_mqtt/forwarding.rs:124-138 | with a slot held, the message is queued, or slot and message are given up when the sender is gone |
| TargetBridges.TargetBridge.EnsureReady | src/target_mqtt/forwarding.rs:173-179 | ready exactly when not stopping and connected, the flag read first |
| TargetBridges.TargetBridge.Publish | src/target_mqtt/forwarding.rs:163-171 | the sink is reached exactly when ready, and the publish succeeds exactly when it answers well in time |
| TargetBridges.TargetBridge.Forward | src/target_mqtt/forwarding.rs:148-161 | exactly one counter goes up; the sink is reached only while connected and not stopping |
| TargetBridges.TargetBridge.WorkerTurn | src/target_mqtt/forwarding.rs:141-146 | the oldest message is taken, counted once, its slot released |
| TargetBridges.TargetBridge.WorkerLoop | src/target_mqtt/forwarding.rs:141-146 | everything queued is counted exactly once and every slot it held is released |
| TargetBridges.TargetBridge.Stop | src/target_mqtt/forwarding.rs:194-200 | admission closes before the queue; what is queued stays for the worker; a second call does nothing |
| WriteTracking.StepKeepsInv | src/target_mqtt/connection.rs:76-142 | every submission, failure, abandonment and event keeps tracker and channel in the relation below |
| WriteTracking.AlignedUnlessAbandonedUnsent | src/target_mqtt/connection.rs:116-142 | unless a caller gave up before its request entered the channel, the tracker is the channel plus the submission in progress at its back, and each event completes the callback of the publish it wrote |
| WriteTracking.PairingExact | src/target_mqtt/connection.rs:76-82 | the k-th event completes the right callback if and only if no caller of a registration up to the k-th gave up before its request entered the channel |
| WriteTracking.NeverTooEarly | src/target_mqtt/connection.rs:76-82 | in every run a completed callback belongs to a caller that gave up unsent, or its own publish was written, as many events before as registrations up to it were given up |
| WriteTracking.AbandonedUnsentMisleads | src/target_mqtt/connection.rs:136-141 | for every capacity there is a run that fills the channel, in which a waiting caller gives up and the write of the next publish completes its entry instead of its own |
| WriteTracking.AlignedWhileThereIsRoom | src/target_mqtt/connection.rs:116-142 | as long as no submission meets a full channel, whoever gives up, tracker and channel stay aligned and each event completes its own callback |
| WriteTracking.GivesUpWhenFull | src/target_mqtt/connection.rs:125-129 | a caller can give up before its request entered the channel only when the channel is full |
| WriteTracking.FailedEntryIsLast | src/target_mqtt/tracker.rs:29-34 | the entry of a failed submission is the last one, and withdrawing it removes exactly that one |
| WriteTracking.WriteTracker.Submit | src/target_mqtt/tracker.rs:25-27 | the entry goes to the back |
| WriteTracking.WriteTracker.Remove | src/target_mqtt/tracker.rs:32-34 | all entries with the id go, the others keep their order |
| WriteTracking.WriteTracker.PopFront | src/target_mqtt/tracker.rs:36-38 | the front entry, or none |
| WriteTracking.WriteTracker.Drain | src/target_mqtt/tracker.rs:40-42 | all entries in order, none left |
| WriteTracking.RumqttTarget.BeginPublish | src/target_mqtt/connection.rs:117-124 | a fresh id is registered at the back of the tracker |
| WriteTracking.RumqttTarget.FinishSend | src/target_mqtt/connection.rs:125-135 | the request is in the channel, or exactly its own entry is withdrawn |
| WriteTracking.RumqttTarget.AbandonSend | src/target_mqtt/connection.rs:123-129 | dropping the future while its send waits frees the submit lock and leaves the entry |
| WriteTracking.RumqttTarget.OnOutgoing | src/target_mqtt/connection.rs:76-82 | an event always finds an entry, the one of the request written exactly when no registration up to it was abandoned unsent |
| WriteTracking.RumqttTarget.FailAll | src/target_mqtt/connection.rs:84-89 | a poll error or `stop` fails every waiting callback, in order |
| WebSocket.PrefixedReader.PollRead | src/frontend/websocket.rs:81-95 | a poll takes some next bytes of prefix followed by stream, at least one when there are any |
| WebSocket.PrefixedReader.ReadExact | src/frontend/websocket.rs:116-117 | reading n bytes over any polls gives the next n bytes, and fails exactly when fewer are left |
| WebSocket.CopyPayload | src/frontend/websocket.rs:192-200 | the chunk loop copies the whole payload, or the whole chunks of a cut one |
| WebSocket.CopyFrame | src/frontend/websocket.rs:112-201 | one frame is forwarded whole and judged once, or the copy ends with the bytes the reference names |
| WebSocket.CopyFramesLimited | src/frontend/websocket.rs:100-203 | for every input, limit, prefix split and poll sizes, the output is the prefix of the input that the reference scan gives, and `copied` is its length |
| WebSocketLaws.ForwardedWithinLimit | src/frontend/websocket.rs:97-99 | in what is forwarded of any input, every data message, summed over its fragments with control frames in between, is within the limit |
| WebSocketLaws.RefusedFrameIsWithheld | src/frontend/websocket.rs:141-182 | no byte of a refused frame is forwarded: the output is whole frames, and the frame after them is refused for the reason that it and the message they leave open give |
| WebSocketLaws.ReasonExactly | src/frontend/websocket.rs:141-182 | each refusal has exactly one of five reasons, given by opcode, size, limit and the open message |
| WebSocketLaws.ClosedForwardsAll | src/frontend/websocket.rs:112-116 | when the client closes between frames everything it sent was forwarded |
| WebSocketLaws.CutForwards | src/frontend/websocket.rs:184-200 | when the client breaks off inside a frame, all frames before it were forwarded, and of it nothing before its header and mask were complete and otherwise those and all whole pieces of 8 KiB |
| WebSocketLaws.SerializedHead | src/frontend/websocket.rs:117-139 | the header of a frame serialised with any of the three length encodings, masked or not, reads back as that frame's |
| WebSocketLaws.BigEndianInverse | src/frontend/websocket.rs:124-135 | reading an extended length inverts writing it |
| WebSocketLaws.ForwardedExactlyWhenLegal | src/frontend/websocket.rs:100-203 | a serialised sequence of frames is forwarded byte for byte if and only if its fragmentation is legal and every message is within the limit |
| Retained.RefinesNaive | src/mqtt/broker/retained.rs:39-171 | after every history of sets, clears, reads and time steps the store shows what a map that never purges shows, and has the same high-water mark |
| Retained.LiveLater | src/mqtt/broker/retained.rs:40-57 | purging now never hides anything that is alive later, nor the reverse |
| RetainedLaws.VisibleExactly | src/mqtt/broker/retained.rs:39-131 | after any calls in order a topic is visible with a value if and only if its last client set carried that non-empty value and had no expiry interval or one that has not passed; the deadline is stamp plus interval |
| RetainedLaws.CountExactly | src/mqtt/broker/retained.rs:161-166 | the count is the number of topics so visible |
| RetainedLaws.PeakExactly | src/mqtt/broker/retained.rs:111-114 | the high-water mark is the largest number of entries stored at any time of the history |
| RetainedLaws.PrecedesExactly | src/mqtt/broker/retained.rs:28-28 | topics are ordered by the first character that differs, a beginning first |
| Retained.PagesCoverTheListing | src/mqtt/broker/retained.rs:133-159 | at a fixed time pages of any positive limit give every topic once in order, all but the last full, `has_more` false only on the last |
| Retained.ListingIsUnique | src/mqtt/broker/retained.rs:28-28 | the sorted order of a set of topics is unique, so a page is determined |
| Retained.MemoryRetainStorage.PurgeExpired | src/mqtt/broker/retained.rs:40-57 | exactly the expired entries go, the index stays exactly the deadlines of the entries, and the check inside the loop is never false |
| Retained.MemoryRetainStorage.Set | src/mqtt/broker/retained.rs:85-118 | broker-owned messages change nothing, an empty payload clears, any other replaces the value and sets the deadline to stamp plus interval; the index stays exact |
| Retained.MemoryRetainStorage.Get | src/mqtt/broker/retained.rs:120-131 | the live matching topics with their values, each once, sorted |
| Retained.MemoryRetainStorage.Count | src/mqtt/broker/retained.rs:161-166 | the number of live topics |
| Retained.MemoryRetainStorage.GetAllPaginated | src/mqtt/broker/retained.rs:133-159 | a page of the sorted live topics with values and remaining lifetimes, and whether there is more |
| StatusGuards.SweepKeepsInv | src/mqtt/broker/status_guard.rs:64-78 | a sweep keeps the order a duplicate-free list of exactly the guarded keys |
| StatusGuards.EvictOnce | src/mqtt/broker/status_guard.rs:100-105 | one eviction suffices, the order is never empty then, and the key just accepted stays |
| StatusGuards.StatusGuard.constructor | src/mqtt/broker/status_guard.rs:38-44 | an empty guard of the given capacity |
| StatusGuards.StatusGuard.SweepIfDue | src/mqtt/broker/status_guard.rs:61-78 | at most once a minute, records received 48 hours ago or more go |
| StatusGuards.StatusGuard.EvictToCapacity | src/mqtt/broker/status_guard.rs:100-105 | the loop evicts the oldest inserted key at most once, and the accepted status stays on record |
| StatusGuards.StatusGuard.AcceptStatusAt | src/mqtt/broker/status_guard.rs:50-107 | a status is accepted exactly when no greater timestamp of its upper-cased key is on record; the new state is given in full |
| StatusGuardLaws.ReachableInv | src/mqtt/broker/status_guard.rs:50-107 | every run keeps the order, the records backed by accepted statuses, what must be remembered, and monotone timestamps |
| StatusGuardLaws.RunsStayOrdered | src/mqtt/broker/status_guard.rs:79-105 | in every run: no duplicates, exactly the guarded keys, within capacity, the accepted status on record; a key is on record exactly while an accepted status of it was neither swept nor evicted, and for that long, however old, timestamps never decrease |
| StatusGuardLaws.RejectionIsJustified | src/mqtt/broker/status_guard.rs:79-88 | every rejection has an accepted status of the same key with a strictly greater timestamp received less than 48 hours and 60 seconds before |
| StatusGuardLaws.OlderStatusIsRejected | src/mqtt/broker/status_guard.rs:6-8 | conversely an older status is rejected while a newer accepted one is under 48 hours old and its key was not evicted |
| StatusVerdicts.VerdictExactly | src/mqtt/broker/status_guard.rs:50-107 | in every run a status is refused if and only if the last one accepted of its key, not evicted since and not 48 hours old at the last sweep, has a greater timestamp |
| StatusVerdicts.EvictedIsOldest | src/mqtt/broker/status_guard.rs:97-105 | in every run the key evicted has been on record without a break for longer than every key that stays |
| ObserverErrors.Notification | src/mqtt/errors.rs:85-122 | the loop ends with the first draft in the shrinking order that fits in 768 bytes, and never with the fallback text |
| ObserverErrors.ShrinkValue | src/mqtt/errors.rs:125-134 | a part of more than eight characters becomes its first half and dots, a shorter one goes |
| ObserverErrors.ShrinkRequired | src/mqtt/errors.rs:136-143 | a message of more than 32 characters is halved, a shorter one left alone |
| ObserverErrors.ShrinkLightens | src/mqtt/errors.rs:113-114 | every shortening makes the draft lighter, so the loop ends |
| ObserverErrors.EscapedBytes | src/mqtt/errors.rs:109-109 | JSON escaping takes at most six bytes a character |
| ObserverErrors.SmallDraftFits | src/mqtt/errors.rs:116-120 | with topic and IATA gone a message of at most 32 characters fits whatever its characters, so the fallback is unreachable |
| ObserverErrors.AlwaysSettles | src/mqtt/errors.rs:101-121 | some draft in the shrinking order fits, for every message, topic and IATA |
| NotificationLaws.NotificationReadsBack | src/mqtt/errors.rs:102-109 | every notification is a JSON object that reads back as exactly its fields |
| NotificationLaws.StringRoundTrip | src/mqtt/errors.rs:109-109 | an escaped string reads back as itself, whatever follows |
| NotificationLaws.NotificationShape | src/mqtt/errors.rs:85-143 | a notification that fits is unchanged; otherwise IATA is touched only once the topic is gone, the message only once both are, and what is left begins like the original |
| NotificationLaws.ShrinksNoMoreThanNeeded | src/mqtt/errors.rs:85-143 | topic, then IATA, then message give up no more than they must: each is the first of its halvings that fits in 768 bytes, and topic or IATA is missing only if not even a halving of at most eight characters fitted |
| NotificationLaws.NotificationSays | src/mqtt/errors.rs:86-109 | decoding the bytes gives an object with code, message, topic, IATA and time each under its own name, absent parts left out, and nothing else |
| NotificationLaws.Utf8RoundTrip | src/mqtt/errors.rs:109-109 | decoding the UTF-8 bytes of a text gives the text back |
| Topics.JoinOfSplit | src/mqtt/policy/topics.rs:9-9 | joining the levels gives the topic back |
| Topics.SplitOfJoin | src/mqtt/policy/topics.rs:30-30 | splitting joined levels gives them back when none contains a slash |
| Topics.CanonicalRoundTrip | src/mqtt/policy/topics.rs:8-58 | parsing a canonical topic gives back the parse it was built from |
| Topics.CanonicalFormDecides | src/mqtt/policy/topics.rs:53-58 | two topics have the same canonical form exactly when they parse alike |
| TextLaws.CasesExact | src/mqtt/policy/topics.rs:19-19 | changing case changes ASCII letters and nothing else |
| TextLaws.CaseDecides | src/mqtt/policy/topics.rs:24-24 | two texts compare equal in either case exactly when they differ at most in the case of ASCII letters |
| TextLaws.CanonicalIataExact | src/mqtt/policy/topics.rs:24-28 | an IATA is read as `test` if it spells that in any case, and else as its capitals |
| TextLaws.TrimExact | src/mqtt/policy/topics.rs:18-18 | trimming cuts off exactly the leading and trailing white space, and leaves nothing exactly of blank text |
| TextLaws.BadPartExact | src/mqtt/policy/topics.rs:10-14 | a level is refused exactly when it is blank or holds a wildcard |
| TextLaws.ParseExact | src/mqtt/policy/topics.rs:8-34 | which topics are read, and what is read off their levels: the IATA trimmed and in canonical case, the key in capitals, the rest as it stands |
| PublishRules.ObserverAcceptedExactly | src/mqtt/policy/publish.rs:89-297 | an observer's publish is accepted if and only if the levels of its topic, its ownership, IATA, size and content allow it |
| PublishRules.SubscriberDecisionExactly | src/mqtt/policy/publish.rs:35-87 | an admin may publish exactly serial commands of at most 4096 bytes on allowed IATAs, other subscribers nothing; the code and topic of every denial, without IATA or close |
| PublishRules.ObserverDecisionExactly | src/mqtt/policy/publish.rs:89-297 | every decision on an observer's publish in full: the canonical topic and retain flag when accepted, else code, topic, IATA and whether the connection is closed, by the first objection to its levels, ownership, size and content |
| PublishRules.TokenExact | src/mqtt/policy/publish.rs:276-292 | a serial response has the required shape exactly when it is three non-empty pieces of base64url text with dots between them |
| PolicyLaws.AcceptedIsStable | src/mqtt/policy/publish.rs:27-201 | an accepted publish is republished on the canonical topic with its retain flag, and resubmitting it there is accepted unchanged |
| PolicyLaws.AcceptedShape | src/mqtt/policy/publish.rs:112-173 | an accepted observer publish is on its own key, owned, and not on a reserved subtopic |
| PolicyLaws.RootIsFourthPart | src/mqtt/policy/topics.rs:30-42 | the subtopic root publishing checks is the level routing checks |
| PolicyLaws.ObserverPublishVisibility | src/mqtt/policy/delivery.rs:5-46 | what an observer may publish is deliverable to no observer, to every admin, and to any other subscriber exactly when it is not a serial response |
| PolicyLaws.AdminCommandReach | src/mqtt/policy/delivery.rs:17-46 | an accepted admin command reaches exactly the observer named in its topic, while its connection owns the key, and of the subscribers exactly the admins |
| DeliveryRules.DeliveredExactly | src/mqtt/policy/delivery.rs:28-46 | delivery for every principal and topic: admins everything, other subscribers what is neither $SYS nor internal nor serial nor an observer error, an observer its own error channel and, while it owns its key, its command channel |
| DeliveryRules.RoutedExactly | src/mqtt/policy/delivery.rs:5-26 | routing allows exactly what delivery to an owner allows |
| PolicyLaws.DenialIataShape | src/mqtt/broker/notifications.rs:95-118 | for every denial the routing IATA is `test` or three capitals |
| DeliveryRules.DenialIataExactly | src/mqtt/broker/notifications.rs:95-118 | a denial is announced under its own IATA if that is `test` or three letters, else under that of its topic, else under XXX |
| PolicyLaws.NotificationParses | src/mqtt/broker/notifications.rs:40-40 | for every denial and 64-hex key the notification topic parses to that key, that IATA and `error` |
| PolicyLaws.NotificationReach | src/mqtt/policy/delivery.rs:17-46 | a denial notification is deliverable to exactly the observer it is about, owner or stale, and of the subscribers to exactly the admins |
| UploadQueue.BackoffIsExact | src/meshcore_io/runtime.rs:558-567 | the saturating computation is exactly the base doubled for each earlier attempt, capped at 300000; jitter is drawn from exactly the values under 1000 and at most a quarter of it; its zero branch is dead |
| UploadRuns.StepKeepsInv | src/meshcore_io/runtime.rs:437-638 | every admission, claim, post, settlement and sweep keeps the invariant of queue and workers |
| UploadRuns.QueueStaysConsistent | src/meshcore_io/runtime.rs:437-622 | in every run: ids ascend, one job per node, at most the cap, ids given out are queued, completed or dropped, node records plus jobs within both caps, at most the node cap right after an enqueue, and each row in processing held by exactly one worker with an equal snapshot |
| UploadRuns.PostsAreBounded | src/meshcore_io/runtime.rs:527-546 | a job is posted at most max(retries allowed, 1) times, the attempt-limit branch is dead, a settling worker always finds its row |
| UploadRuns.ClaimsWaitOutTheDelay | src/meshcore_io/runtime.rs:509-525 | a job whose n-th attempt failed is not claimed again before the exact delay has passed |
| UploadRuns.AdmitKeepsQueue | src/meshcore_io/runtime.rs:458-488 | admission keeps the queue invariant and leaves the node table within its cap |
| UploadRuns.HeldRow | src/meshcore_io/runtime.rs:551-557 | what a worker settles is a stored row in processing, found by its id, within its attempts |
| ReuploadLaws.StepKeepsMemory | src/meshcore_io/runtime.rs:440-604 | every step keeps what must be remembered of accepted uploads |
| ReuploadLaws.AcceptedUploadsAreSpaced | src/meshcore_io/runtime.rs:440-463 | of two accepted uploads of a node the later was admitted in between; within 72 hours and unless the record was evicted its advert is newer by the reupload distance, sweeps or not |
| ReuploadLaws.AcceptsAscend | src/meshcore_io/runtime.rs:572-604 | an accepted job is newer than every acceptance of its node still remembered, so a record never goes back |
| ReuploadLaws.SweepMemory | src/meshcore_io/queue.rs:48-51 | a sweep forgets no unexpired acceptance |
| CooldownLaws.StepKeepsCooldowns | src/meshcore_io/runtime.rs:479-620 | every step, eviction, completion, drop and sweep included, keeps cooldowns tied to queued jobs |
| CooldownLaws.NextDueIsUnique | src/meshcore_io/runtime.rs:512-521 | whenever some row is due, exactly one is next by (next attempt, id) |
| CooldownLaws.NewJobIsDue | src/meshcore_io/runtime.rs:472-478 | right after an enqueue there is a row to claim |
| VerdictLaws.StepStaysExact | src/meshcore_io/runtime.rs:437-638 | every step keeps a node's record exactly what the log stands for: its last upload for 72 hours and the admission of its queued job for an hour, unless evicted since; nothing else is ever written |
| VerdictLaws.VerdictExactly | src/meshcore_io/runtime.rs:440-485 | in every run the verdict on an advert follows from log and queued jobs: duplicate if and only if the last upload, under 72 hours old and not evicted since, is as new or within the distance, or a job is queued; then cooldown, full, or let in |
| VerdictLaws.CooldownOnlyWhileQueued | src/meshcore_io/runtime.rs:440-485 | in every run a node is cooling down only while a job of it is queued; without one the verdict is duplicate if and only if such an upload blocks it, and otherwise depends on the room in the queue alone |
| VerdictLaws.SettledExactly | src/meshcore_io/runtime.rs:527-622 | an answered job stays queued if and only if the answer asks for a retry and fewer posts than allowed were made; it then waits the doubled delay and at most a quarter of it and less than a second more; no other job is touched |
| VerdictLaws.ClaimedExactly | src/meshcore_io/runtime.rs:509-525 | a claim takes the due row least in (next attempt, id), with as many attempts as it was posted |
| VerdictLaws.PendingIsDue | src/meshcore_io/runtime.rs:472-478 | a row never tried is due from the moment of its admission |
| VerdictLaws.SweptExactly | src/meshcore_io/runtime.rs:631-638 | after a sweep a node is on record if and only if it cools down for a queued job or its last upload is under 72 hours old, not evicted since |
| VerdictLaws.CountersExactly | src/meshcore_io/runtime.rs:465-622 | the three counters are the uploads answered for good, given up after the last allowed post, and adverts that only the full queue held back |
| NodeTableLaws.StepKnows | src/meshcore_io/runtime.rs:437-638 | every step keeps the nodes on record or queued within the cap and one less than the jobs the queue may hold |
| NodeTableLaws.TableIsBounded | src/meshcore_io/runtime.rs:472-488 | in every run there are at most that many node records |
| NodeTableLaws.CompletionOverflows | src/meshcore_io/runtime.rs:582-604 | a completion leaves the table over its cap if and only if it was over already, or was full and lacked the job's record |
| NodeTableLaws.OverflowIsCompletions | src/meshcore_io/runtime.rs:582-604 | since any moment within the cap, such as an enqueue, the table grew past it by at most the jobs completed since |
| NodeTableLaws.AdmissionEvicts | src/meshcore_io/runtime.rs:479-488 | an admission evicts exactly the records over the cap once the new one is in; for a node not on record that is more than one exactly when the table was over before |
| NodeTableRuns.TableBoundIsMet | src/meshcore_io/runtime.rs:472-604 | given enough different nodes some run reaches the bound, with any number of workers when retries are delayed, and without a delay with one for each job the queue may hold |
| NodeTableRuns.OneWorkerOverflows | src/meshcore_io/runtime.rs:479-488 | with a single worker: the oldest node is posted again, a new one evicts it, its completion overflows the table |
| NodeTableRuns.OverflowNeedsTwoJobs | src/meshcore_io/runtime.rs:465-488 | for every number of workers the table can exceed its cap if and only if the queue may hold two jobs |
| ReuploadLaws.DistanceIsExact | src/meshcore_io/runtime.rs:448-451 | the distance enforced is the configured one exactly for the settings the 32-bit cast does not change in effect |
| Ingress.DigestSeparates | src/meshcore_io/runtime.rs:121-126 | what is hashed determines topic and payload |
| DedupLaws.SweepDropsPrefix | src/meshcore_io/runtime.rs:635-635 | a sweep of the digest table removes exactly the expired rows, and they are a prefix |
| DedupLaws.RecordReflects | src/meshcore_io/runtime.rs:133-144 | recording a message, replacing an expired row and evicting at the cap included, keeps the table true to the history of acceptances |
| DedupLaws.QueryReflects | src/meshcore_io/runtime.rs:133-136 | a digest is a repeat for the table if and only if it is one for that history |
| IngressRuns.SweepsNeverChangeRepeats | src/meshcore_io/runtime.rs:127-144 | two runs with the same offers that found room took the same messages and agree on every later repeat, whenever they swept, even when the cap evicts |
| IngressRuns.RepeatsAreHistory | src/meshcore_io/runtime.rs:133-144 | what was taken and what counts as a repeat follow from the offers by the history rule alone |
| IngressRuns.TableStaysSorted | src/meshcore_io/runtime.rs:139-144 | in every run the table lists expiries in ascending order, within its cap, and a sweep cuts off exactly a prefix |
| IngressRuns.AttemptsAreBounded | src/meshcore_io/runtime.rs:249-281 | a message is processed at most five times, never twice at once nor within a second of a failure, and the worker always finds it again |
| IngressRuns.EveryMessageIsAccountedFor | src/meshcore_io/runtime.rs:145-156 | each accepted message is queued, finished by the worker, or was swept out a day or more after it was taken, never two of these, and the queue stays within its cap |
| IngressRuns.SweepChangesOnlyFull | src/meshcore_io/runtime.rs:128-136 | a sweep changes the verdict on an offer if and only if the queue was full and expired messages made room |
| IngressRuns.StepKeepsInv | src/meshcore_io/runtime.rs:116-283 | every offer, claim, settlement and sweep keeps the ingress invariant |
| IngressLaws.MessagesAreAsOffered | src/meshcore_io/runtime.rs:145-156 | in every run a queued message has the topic, payload and time of the offer that got its id, expires a day later, and is due at that moment or a second after its last failure |
| IngressLaws.ClaimPossibleExactly | src/meshcore_io/runtime.rs:220-231 | a claim is possible if and only if nothing is in work and some unexpired message is due |
| IngressLaws.ClaimExactly | src/meshcore_io/runtime.rs:220-240 | the message handed out is the earliest offered of those, as it was offered |
| IngressLaws.SettleExactly | src/meshcore_io/runtime.rs:250-281 | a settled message stays if and only if it may be tried again and fewer than four attempts failed before; no other is touched |
| IngressLaws.OfferTakenExactly | src/meshcore_io/runtime.rs:116-144 | an offer is taken if and only if the queue has room and none of the last 50,000 messages taken is the same within the deduplication window; otherwise nothing changes |
| IngressLaws.SweepExactly | src/meshcore_io/runtime.rs:631-635 | a sweep keeps exactly the messages in work or unexpired, in order, and the unexpired digests |
| IngressLaws.ReadTopicsExactly | src/meshcore_io/ingress.rs:55-58 | the topics read are exactly meshcore, two levels, and status or packets, with or without more levels |
| Runtime.RuntimeState.constructor | src/meshcore_io/runtime.rs:50-62 | both queues start empty |
| Runtime.RuntimeState.OfferPublish | src/meshcore_io/runtime.rs:116-159 | a relevant message is taken exactly when there is room and its digest has no unexpired record; the entry put last is given field by field, and the table is that of `Ingress.Offer` |
| Runtime.RuntimeState.TrimDedup | src/meshcore_io/runtime.rs:142-144 | the trim loop leaves the newest 50,000 digests |
| Runtime.RuntimeState.TrimNodes | src/meshcore_io/runtime.rs:486-488 | the trim loop leaves the newest 50,000 node records |
| Runtime.RuntimeState.ClaimIngress | src/meshcore_io/runtime.rs:220-240 | the first message that is unexpired, due and not in work is marked and returned, and nothing changes when there is none |
| Runtime.RuntimeState.SettleIngress | src/meshcore_io/runtime.rs:250-281 | the message leaves, or returns with one more attempt and a delay |
| Runtime.RuntimeState.AdmitJob | src/meshcore_io/runtime.rs:437-492 | the verdict by record, cooldown, queued job and room; the new row field by field; the new state, the trim loop included, is that of `UploadQueue.Admit` |
| Runtime.RuntimeState.NextDue | src/meshcore_io/runtime.rs:512-521 | the due row least in (next attempt, id), or none exactly when none is due |
| Runtime.RuntimeState.ClaimJob | src/meshcore_io/runtime.rs:509-525 | that row goes into processing with one more attempt and a copy is returned; otherwise nothing changes |
| Runtime.RuntimeState.ProcessJob | src/meshcore_io/runtime.rs:527-546 | each answer of the poster leads to completion, retry or drop as the machine has it |
| Runtime.RuntimeState.Reschedule | src/meshcore_io/runtime.rs:548-570 | the row returns for a retry after backoff and jitter |
| Runtime.RuntimeState.Complete | src/meshcore_io/runtime.rs:572-604 | the row leaves, the acceptance is recorded or the cooldown cleared |
| Runtime.RuntimeState.Drop | src/meshcore_io/runtime.rs:606-622 | the row leaves and its node's cooldown is cleared |
| Runtime.RuntimeState.SweepState | src/meshcore_io/runtime.rs:631-638 | exactly expired messages that are not being processed, expired digests and dead node records go |
| Runtime.DropOneMore | src/meshcore_io/runtime.rs:142-144 | dropping the oldest entry one at a time reaches the trimmed map |

## Left out

- Sockets, TLS, HTTP client and server, header reading and timeouts, broker hooks and sessions, heartbeat and health check: input and output around the models.
- Signatures, hashing, base64, JWT claims and request signing: cryptography.
- JSON and date parsing, radio normalisation and the payload filter for limited subscribers: library behaviour or floating point; their outcomes are parameters.
- The prose of denials: `Policy.Denial` keeps code, topic, IATA and whether to close.
- What `process_ingress` finds out about a message: the outcome is a parameter of `IngressRuns`; a job it admits is an admission of `UploadRuns`.
- Observer radio states and `stats`: each follows from reading one function.
- Topic-filter matching of the retained store: the MQTT library does it (src/mqtt/broker/retained.rs:121 and 128), and `Get` holds for any predicate on topics.
- Loading and validation of configuration: fields are checked against ranges one by one; where a result depends on such a range it is a condition of the lemma, as the reupload distance in `DistanceIsExact`, or at least one worker and one queued upload in `OverflowNeedsTwoJobs`.
- Subscriber connection sets and observer ownership maps: ownership is an input of the policy, as in the code.
- The runs after shutdown begins: workers then leave rows in processing behind, as the process is ending.
- Each `retry_at` test reads the monotonic clock anew in the code; the model reads it once per claim.
- TargetBridges.TargetBridge.WorkerLoop: covers the messages queued when it starts; messages arriving meanwhile are covered by the machine's runs.
- WriteTracking.RumqttTarget.FailAll: what the client library does with requests left in its channel after an error is not visible here, so runs stop there.
- Retained.MemoryRetainStorage.PurgeExpired: the deadline index is a set with its least element, not a tree.
