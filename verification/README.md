# JD-Relay: a model of the channel, the agent and the work orders

JD-Relay connects a Python Forwarder, which talks to DingTalk and keeps the work orders, with C++
Agents, which run Jenkins builds. This project models the logic between them that keeps state or
handles bytes, and proves what it guarantees over all inputs and all interleavings.

The model is arranged as the program is:

* `Common`: Option, Result, bytes, joining. `Utf8`: text as bytes.
* The encrypted channel. `Base64` is the line-broken encoding; `Envelope` the message types and the text that
  is signed; `ReplayGuard` the timestamp window and the nonce cache, with its purge in both languages;
  `Primitives` the cryptographic library as functions with stated laws (`Handshake.AssumptionsAreMet` has a
  library and a run that meet all of them at once); `Codec` the pipeline of both codecs and what a hostile
  network can make of it; `Handshake` the handshake and what an honest session delivers;
  `Authentication` what either end demands of it and what a session says about the other end; `Dispatch`
  the receive loops of both ends; `Traffic` both ends of a session with all messages between them; `Acknowledgement` what an undisturbed
  session acknowledges.
* The registry. `AgentManager` is the class with its two maps; `AgentHandler` the life of the connections
  as interleaved steps.
* The agent's builds. `BuildTracker` has the map under its mutex and the polling loop; `BuildProtocol` the
  poll threads and the message callback as interleaved steps; `BuildResults` what their results say.
* WebSocket frames. `Frames` is the buffer codec, `RawWebSocket` the chunk-assembling receive loop,
  `StreamFrames` the codec of the blocking server.
* Work orders. `WorkOrder` is the state machine and the operations on it, `Approval` the callback that
  settles an approval row and its order, `TokenCache` the access token shared by concurrent callers.

Code that changes state is modelled by classes and loops, each proved equal to a function of the old
state; what the system promises is then proved about runs of those functions. Clocks, random bytes,
Jenkins' and DingTalk's answers, the order of a hash table and the sizes of socket reads are
parameters, so every theorem holds for all of them. Steps that are not possible when their turn comes are
skipped, so every list of steps is a run.

## Where a promise fails

These are lemmas with a concrete or general counterexample; most come with the exact condition under
which the promise holds.

* Builds are tracked by number alone, while Jenkins numbers them per job. The map is exact throughout a run
  if and only if every build is started under a number that is not in it (`TracksExactly`). A trigger can
  get two results, and a verdict that its build never asked for, exactly after a start under a number whose
  older build is still polled, or has asked for a review and not yet marked its entry
  (`TwoResultsExactly`, `UnsafeStartExactly`; `CollisionBreaksTracker` is a run).
* A review verdict is taken exactly when a build of the issue has asked and is marked; one that arrives
  between the request and the mark is dropped, and the build waits for another
  (`ReviewTakenExactly`, `EarlyVerdictIsLost`).
* `check_and_record` says that an accepted nonce was not seen before. With a clock that never goes back it can
  accept the very same message twice exactly when that message was dated later than its own record
  (`AcceptedAgainExactly`); `AcceptedExactly` gives the verdict for every clock. The codec never calls it: it
  only records, so it never accepts a nonce twice, and its cache has one entry for every message it ever
  accepted (`CodecNeverForgets`), where docs/security.md:29 states a bound of 10,000.
* Connections whose agent id is "" or "<unknown>" are never removed from the registry
  (`EmptyAfterCloseExactly`), and an old connection that closes late hides a live one with the same id
  (`ReachableExactly`, `LateCloseHidesLive`).
* A signed text with separators inside its fields can be read as another envelope; exactly which envelopes
  are safe is `UnambiguousExactly`. Everything `encrypt` produces is. A signed handshake can be read as an
  envelope exactly when the agent id has a numeric segment in certain places
  (`HandshakeReadsAsEnvelopeExactly`); it harms exactly if that envelope opens under the session's key
  (`HarmlessTextExactly`). The handshake authenticates an agent id exactly when it has no separator
  (`IdAuthenticatedExactly`).
* A poll that times out reports ABORTED, which the Forwarder refuses as unknown: such an order stays in
  BUILDING, which only a SUCCESS or FAILED result leaves (`AgentResultAccepted`,
  `BuildingIsLeftOnlyByResult`).
* Cancelling a caller frees the token lock while its worker thread is still fetching. Two fetches run at
  once exactly when a caller then takes the lock and finds the cache stale (`SingleFlightExactly`); all
  other cancellations are harmless. An empty token is fetched again at once (`FetchesExactlyWhenDue`).
* `_recv_frame` reads a masking key whether or not there is one: on complete frames it agrees with
  `decode_frame` exactly when the frame is masked or ends with its header (`WholeReadsAgreeExactly`), and on
  masked ones exactly when no header read is cut short (`MaskedAgreesExactly`). A stream that breaks off
  inside a header can yield an empty frame (`BrokenStreamExactly`).
* `RawWebSocket.recv` drops whatever a read brings beyond the frame it completes (`ReadOneFrame`,
  `SpanningReadLosesFrame`).
* An order can be approved by one callback and closed by a later "refuse" without a pending row
  (`TwoChangesHappen`).

Where the documents and the code differ, the code is modelled: there is no ABORTED state and a second
review starts from APPROVED (docs/architecture.md:143-149 and docs/phase3-summary.md:28-31 draw both
otherwise; forwarder/app/state.py:30-69); base64 has line breaks, where the written description of
the protocol has a single line (forwarder/app/crypto/base64.py:18-24); `trigger_build` also starts from
FAILED, which its comment does not list (forwarder/app/services/relay.py:131-141); the Agent parses the error reply of a
handshake, which lacks three fields, before it could look at the status, so its "rejected" branch is
never taken for this Forwarder (agent/protocol/include/jd_relay/protocol/handshake.h:80-89).

## Model

| member | source | states |
|---|---|---|
| Base64.RoundTrip | forwarder/app/crypto/base64.py:18-31 | decoding undoes encoding for every byte string, the empty one included |
| Base64.ScanEncoded | forwarder/app/crypto/base64.py:27-31 | encoded data is read back whatever follows it: a padded text ends there, an unpadded one is followed by the reading of the rest |
| Base64.LettersDecodeExactly | forwarder/app/crypto/base64.py:27-31 | a text of the alphabet alone decodes if and only if it consists of groups of four, and then it encodes what it decodes to |
| Base64.DecodeSkipsForeign | forwarder/app/crypto/base64.py:27-31 | the decoder skips blanks and characters outside the alphabet, and raises for those beyond ASCII |
| Base64.EncodedShape | forwarder/app/crypto/base64.py:18-24 | every line but the last has 64 characters, the last 1 to 64, and the length is 4*ceil(n/3) + max(1, ceil(4*ceil(n/3)/64)) |
| Base64.EncodeHasNoBar | forwarder/app/crypto/base64.py:18-24 | no output contains the field separator |
| Base64.EncodeInjective | forwarder/app/crypto/base64.py:18-24 | different bytes have different texts |
| Utf8.DecodesExactly | forwarder/app/ws/raw_ws.py:203-211 | bytes decode to a text if and only if they are its encoding |
| Envelope.ParseExactlyInvertsToString | forwarder/app/crypto/envelope.py:11-27 | a text parses to a type if and only if it is that type's name |
| Envelope.IntToStringInjective | agent/crypto/src/envelope.cpp:28-37 | decimal printing of timestamps loses nothing |
| Envelope.PrintsDecimal | forwarder/app/crypto/envelope.py:57 | a printed timestamp is an optional minus and digits that read back in base 10 as the number |
| Envelope.TwinsSignTheSame | agent/crypto/src/envelope.cpp:28-37 | the joined Python payload and the concatenated C++ one are the same text, field by field |
| Envelope.PayloadUnambiguous | forwarder/app/crypto/envelope.py:50-63 | an envelope without separators in its fields shares its signed text with no other envelope, whatever that one contains |
| Envelope.UnambiguousExactly | agent/crypto/src/envelope.cpp:28-37 | the signed text identifies an envelope if and only if separators occur at most in msg_id and no segment after one reads as a number |
| Envelope.BarInLastFields | forwarder/app/crypto/envelope.py:50-63 | a separator in any field from nonce to tag gives a second envelope with the same signed text |
| Envelope.NumberInMsgId | forwarder/app/crypto/envelope.py:50-63 | a numeric segment after a separator in msg_id gives a second envelope with the same signed text |
| Envelope.ReadsAsEnvelopeExactly | forwarder/app/crypto/envelope.py:50-63 | a text is the signing payload of some envelope if and only if a segment of it, with one or more before and five or more after, is a number |
| ReplayGuard.Guard.IsWithinWindow | forwarder/app/crypto/replay_guard.py:28-32 | the answer is membership in the closed window around the clock read; a message dated before or beyond it is refused |
| ReplayGuard.Guard.CheckAndRecord | forwarder/app/crypto/replay_guard.py:43-59 | accepts exactly fresh messages; the new cache is the recorded and, over the limit, purged one |
| ReplayGuard.Guard.PurgeExpired | forwarder/app/crypto/replay_guard.py:61-68 | keeps exactly the entries that have not expired |
| ReplayGuard.Guard.PurgeInPlace | agent/crypto/src/replay_guard.cpp:55-64 | erasing one by one, in any order, leaves exactly what the Python purge leaves |
| ReplayGuard.CacheInvariant | forwarder/app/crypto/replay_guard.py:34-68 | over every run with a forward clock, a seen nonce that is gone had expired, and a cached one expires no earlier than its first record allows |
| ReplayGuard.PurgingKeepsVerdicts | forwarder/app/crypto/replay_guard.py:43-68 | purging gives the verdict of a cache that never forgets for every message not dated after the first record of its nonce; a nonce accepted again comes with a later date |
| ReplayGuard.AcceptedAgainExactly | agent/crypto/src/replay_guard.cpp:33-64 | some continuation accepts the same message again if and only if it was dated after its own record and is still in the window when the accepting call returns |
| ReplayGuard.CacheBound | forwarder/app/crypto/replay_guard.py:54-59 | after an accepting call the cache has at most 10,000 entries or only unexpired ones, and only a cache that grew beyond 10,000 forgets anything |
| ReplayGuard.CachedExactly | forwarder/app/crypto/replay_guard.py:38-68 | whatever the clock does, a nonce is cached if and only if it was recorded and no purge since its newest record read a time beyond that record's expiry |
| ReplayGuard.AcceptedExactly | forwarder/app/crypto/replay_guard.py:43-59 | whatever the clock does, a check accepts if and only if the timestamp is at most the window before or after the clock read and the nonce is not kept in that sense |
| ReplayGuard.BackwardClockReplays | forwarder/app/crypto/replay_guard.py:43-68 | with a clock that steps back the verdicts differ: a concrete message is accepted twice |
| Codec.CryptoCodec.Encrypt | forwarder/app/crypto/codec.py:66-105 | the step-by-step envelope is the specified one: metadata, sealed fields, signature over the other seven |
| Codec.CryptoCodec.Decrypt | forwarder/app/crypto/codec.py:109-169 | the verdict of window, nonce, signature and cipher in that order; the nonce is recorded if and only if the message is accepted |
| Codec.VerdictExactly | forwarder/app/crypto/codec.py:123-169 | when each answer is given, exactly: outside the window, replay, bad signature, bad cipher, an exception, or acceptance with which plaintext |
| Codec.AcceptedArrived | forwarder/app/crypto/codec.py:123-169 | over every run, each accepted message arrived inside the window at its own clock read, signed by the peer over the seven fields and sealed under the session's key |
| Codec.UuidShape | agent/crypto/src/base64.cpp:102-117 | a message id has 36 characters and no separator |
| Codec.UuidIs | agent/crypto/src/base64.cpp:102-117 | a message id is its bytes in hexadecimal with dashes before bytes 4, 6, 8 and 10, with the version and variant bits set |
| Codec.UuidInjective | agent/crypto/src/base64.cpp:102-117 | two ids are the same if and only if the other 122 random bits are |
| Codec.EncryptedIsBarFree | forwarder/app/crypto/codec.py:82-102 | no signed field of an encrypted envelope contains the separator |
| Codec.CipherOutcomeOf | forwarder/app/crypto/codec.py:141-162 | a sealed message opens to its plaintext under the session's key and is rejected under any other |
| Codec.AcceptedWasSent | agent/crypto/src/crypto_codec.cpp:67-115 | an accepted envelope whose signed text came from the peer is one the peer sent in this session, with its type and plaintext; handshake texts and other sessions cannot stand in for it |
| Codec.RunIsTraceable | forwarder/app/crypto/codec.py:109-169 | on every run accepted nonces are distinct and every accepted message has an origin at the peer |
| Codec.InjectiveAgreement | forwarder/app/crypto/codec.py:109-169 | whatever the network reorders, repeats, drops, alters or invents and whatever the clocks read, accepted messages map one to one into the peer's messages |
| Codec.CodecNeverForgets | forwarder/app/crypto/codec.py:164-165 | the codec's cache only grows and has one entry for each accepted message |
| Handshake.HonestHandshake | forwarder/app/ws/agent_handler.py:182-244 | when both sides follow the protocol both get a session, with one key and each other's signing key |
| Authentication.SessionExactly | forwarder/app/ws/agent_handler.py:192-244 | a session is opened if and only if the init is complete, its key loads and signed agent_id, ECDH key and itself, and 32 bytes are derived; the session's peer is that key |
| Authentication.ReplyExactly | forwarder/app/ws/agent_handler.py:206-233 | ERROR is answered exactly to an init that its own loadable key did not sign, OK exactly to one that it signed and whose ECDH key is readable, with the Forwarder's keys and signature |
| Authentication.RefusedExactly | forwarder/app/ws/agent_handler.py:247-268 | each refusal, exactly: invalid JSON, the first missing member, wrong type, bad base64, bad signature, unreadable key |
| Authentication.AgentSessionExactly | agent/ws_client/src/ws_client.cpp:146-182 | the Agent opens a session if and only if the reply is complete and OK, its key loads and signed ECDH key and itself, and 32 bytes are derived |
| Authentication.ForwarderAuthenticates | forwarder/app/ws/agent_handler.py:192-244 | over every run in which signatures of owned keys verify only on texts signed before, a session under an owned key means that its owner signed an init joining to the session's id and ECDH key, and that very pair if the id has no separator |
| Authentication.IdAuthenticatedExactly | forwarder/app/ws/agent_handler.py:202-205 | a signed init determines the agent id and the key if and only if the id has no separator |
| Authentication.AgentAuthenticates | agent/protocol/include/jd_relay/protocol/handshake.h:64-67 | the Agent's session likewise means that the owner of the Forwarder's key signed a reply with the session's ECDH key, or an init whose id and key join to it |
| Handshake.RefusalReachesAgent | agent/ws_client/src/ws_client.cpp:146-182 | a Forwarder without a session leaves the Agent without one, unless it had answered OK before its derived key turned out to have the wrong size, which takes an Agent key altered on the way |
| Handshake.HandshakeReadsAsEnvelopeExactly | agent/protocol/include/jd_relay/protocol/handshake.h:29-67 | a handshake text reads as an envelope if and only if a later segment of the agent id, with two or more after it, is a number; a reply never does |
| Handshake.HandshakeTextsAreHarmless | forwarder/app/ws/agent_handler.py:202-209 | so the handshakes of all other agent ids, with any number of separators, meet what InjectiveAgreement assumes of them |
| Handshake.HarmlessTextExactly | forwarder/app/crypto/codec.py:142-162 | signing a text outside the session leaves agreement intact, whatever arrives on its signature, if and only if the text is no sealed message of the session |
| Handshake.GenuineVerdict | forwarder/app/crypto/codec.py:109-169 | the peer's own envelope inside the window is accepted with its plaintext unless its nonce is known, and then rejected as a replay |
| Handshake.ExactDelivery | forwarder/app/crypto/codec.py:66-169 | genuine messages with distinct nonces, delivered in any order and with repeats, come out as exactly the deliveries without later repeats |
| Handshake.FirstVisitsShape | forwarder/app/crypto/codec.py:123-169 | that list names every delivered message once and no other |
| Handshake.GenuineRunIsHonest | forwarder/app/crypto/codec.py:66-169 | every delivery of genuine messages in any order and with any repeats meets what InjectiveAgreement assumes of a run |
| Handshake.GenuineRunDelivers | forwarder/app/crypto/codec.py:66-169 | the receiver of that run is the one that ExactDelivery describes |
| Handshake.HonestSessionDelivers | agent/ws_client/src/ws_client.cpp:112-185 | handshake and exact delivery together, in both directions |
| Dispatch.React | agent/ws_client/src/ws_client.cpp:212-236 | the effects of one accepted message are the specified ones, and its type is known exactly when it parses |
| Dispatch.IoLoop | forwarder/app/ws/agent_handler.py:108-155 | the loop's effects, its end and its nonce cache are those of the specification, for every inbox |
| Dispatch.StoppedForGood | forwarder/app/ws/agent_handler.py:108-155 | what comes after the frame that ended a loop changes nothing |
| Dispatch.TurnEndsExactly | forwarder/app/ws/agent_handler.py:114-126 | which frame ends which loop, exactly; a rejected message changes nothing, and one of unknown type has no effect |
| Dispatch.RunsOnExactly | agent/ws_client/src/ws_client.cpp:199-209 | a loop runs on if and only if no frame so far ended it |
| Dispatch.DispatchIsExact | forwarder/app/ws/agent_handler.py:108-155 | the callback sees exactly the accepted messages that are neither ACK nor HEARTBEAT, in order, and there is exactly one ACK for each accepted HEARTBEAT or BUILD_TRIGGER and no other |
| Dispatch.TriggersAreAckedFirst | agent/ws_client/src/ws_client.cpp:226-236 | directly before the callback of an accepted BUILD_TRIGGER stands the ACK of that very message, under its own id |
| Dispatch.LoopServesRun | agent/ws_client/src/ws_client.cpp:189-238 | on an honest channel no accepted message has an unknown type, so the Agent's loop does not end because of one, and both loops receive what the codec accepts |
| Dispatch.CallbacksWereSent | forwarder/app/ws/agent_handler.py:108-155 | end to end, the callback's calls map one to one into what the peer sent, whatever the network does |
| Traffic.TrafficDrains | agent/ws_client/src/ws_client.cpp:212-231 | over every run, hostile or not, deliveries plus what is in flight never exceed what users sent and the network invented, counting 2 for a HEARTBEAT or BUILD_TRIGGER and 1 for the rest |
| Traffic.DeliveryLightens | forwarder/app/ws/agent_handler.py:128-147 | every single delivery makes that measure smaller |
| Traffic.LoadMovesExactly | forwarder/app/ws/agent_handler.py:128-147 | what each step does to that measure, exactly |
| Traffic.BothEndsAccount | forwarder/app/ws/agent_handler.py:108-155 | exact dispatch holds for both ends of every two-ended run |
| Acknowledgement.TraceBalances | forwarder/app/ws/agent_handler.py:128-147 | in an undisturbed session, for every choice of messages by type, id and plaintext, what a side was sent, automatic ACKs included, is in flight to it or accepted by it |
| Acknowledgement.EveryRequestIsAcknowledged | agent/ws_client/src/ws_client.cpp:212-231 | once an undisturbed session has drained: for every kind of ACK text, a side has accepted as many requests answered so as were sent to it, and their sender holds as many such ACKs, besides those users sent by hand |
| Acknowledgement.TriggerIsAcknowledgedOnce | agent/ws_client/src/ws_client.cpp:226-231 | then exactly one ACK names the message id of each BUILD_TRIGGER, when ids are not reused, ACK texts tell ids apart and users send no such ACK by hand |
| AgentManager.Manager.AddAgent | forwarder/app/ws/agent_manager.py:47-67 | registers the agent and routes all its projects to it, or nothing after a stop |
| AgentManager.Manager.RemoveAgent | forwarder/app/ws/agent_manager.py:69-80 | removes the agent and exactly the routes that lead to it |
| AgentManager.Manager.GetByProject | forwarder/app/ws/agent_manager.py:88-93 | the agent at the end of the project's route, if any |
| AgentManager.AgentHistory | forwarder/app/ws/agent_manager.py:47-86 | an agent is registered if and only if there was no stop_all and no removal follows its newest registration, with that registration's information |
| AgentManager.RouteHistory | forwarder/app/ws/agent_manager.py:47-93 | a route exists if and only if there was no stop_all and the agent of the last declaration was not removed since, and leads to it |
| AgentManager.RegistryRefinesHistory | forwarder/app/ws/agent_manager.py:88-93 | looking up a project gives what the history of calls says, for every history |
| AgentManager.RoutesNeverDangle | forwarder/app/ws/agent_manager.py:47-80 | every route leads to a registered agent |
| AgentManager.StoppedForever | forwarder/app/ws/agent_manager.py:127-131 | after a stop the registry stays empty whatever is called |
| AgentHandler.RegistryIsHistory | forwarder/app/ws/agent_handler.py:55-177 | the registry of a run is that of the calls its connections made, so the history theorems apply |
| AgentHandler.LeavingExactly | forwarder/app/ws/agent_handler.py:169-172 | leaving takes the id and all routes to it off the registry, registered or not, unless the id is "" or "<unknown>" |
| AgentHandler.RegisteringExactly | forwarder/app/ws/agent_handler.py:88-89 | registering makes the agent reachable by id and by each project, through this connection |
| AgentHandler.ShutdownIsFinal | forwarder/app/ws/agent_manager.py:127-131 | after a shutdown nobody is registered, whatever connections do |
| AgentHandler.NoDeadRegistrations | forwarder/app/ws/agent_handler.py:55-177 | in every interleaving a registered send callback belongs to a connection that has not completed its cleanup, unless its id is one the cleanup skips |
| AgentHandler.EmptyAfterCloseExactly | forwarder/app/ws/agent_handler.py:169-177 | when all connections have closed both maps are empty if and only if the registry was stopped or none of them registered as "" or "<unknown>" |
| AgentHandler.EmptyNameStaysRegistered | forwarder/app/ws/agent_handler.py:169-172 | a concrete run in which a closed connection stays registered |
| AgentHandler.ReachableExactly | forwarder/app/ws/agent_handler.py:89-172 | an agent's messages reach a connection if and only if the registry was not stopped and the last call about that agent was its registration by that connection |
| AgentHandler.LateCloseHidesLive | forwarder/app/ws/agent_handler.py:169-172 | a concrete run in which an old connection closes late and a registered, live one with the same id cannot be reached |
| BuildTracker.ActiveBuilds.MarkWaiting | agent/tools/agent_main.cpp:262-268 | the map afterwards: that entry waits for its review, if it is still there |
| BuildTracker.ActiveBuilds.TakeWaiting | agent/tools/agent_main.cpp:360-384 | finds and removes a waiting build of the issue if and only if there is one, whatever the order of the hash table |
| BuildTracker.PollBuild | agent/tools/agent_main.cpp:203-234 | for every interval, zero included: the result is the first final reply, or ABORTED when the loop ends at a stop or the deadline without one; with a positive interval and a clock that advances by it per sleep, at most ceil(timeout/interval) queries |
| BuildTracker.SleepingEnds | agent/tools/agent_main.cpp:203-226 | with a positive interval and such a clock the loop does end |
| BuildProtocol.AtMostOneResultEver | agent/tools/agent_main.cpp:182-507 | over every interleaving in which no build is started under a number that a running thread can still mark, no trigger gets two results and a verdict is attached only to a build whose own thread asked |
| BuildProtocol.TwoResultsExactly | agent/tools/agent_main.cpp:239-272 | after a step, some continuation with safe starts only gives a trigger two results if and only if the step was an unsafe start, and likewise some such continuation attaches a verdict to a build whose own thread never asked |
| BuildProtocol.UnsafeStartExactly | agent/tools/agent_main.cpp:239-272 | while the map is exact, a start is unsafe if and only if the build tracked under its number is still polled or has asked and not yet marked |
| BuildProtocol.TracksExactly | agent/tools/agent_main.cpp:182-507 | the map holds exactly the unfinished builds and those awaiting review at every moment of a run if and only if every build of the run is started under a number not in the map |
| BuildProtocol.EveryTriggerHasOneFate | agent/tools/agent_main.cpp:182-507 | at every moment each trigger has its result, still awaits it, or was given up in a listed step, and exactly one of these |
| BuildProtocol.OwedCanBePaid | agent/tools/agent_main.cpp:182-507 | while a trigger's result is still to come, some continuation sends it |
| BuildProtocol.ExactlyOneResult | agent/tools/agent_main.cpp:182-507 | when all builds have ended, every trigger has exactly one result, or none if and only if it was given up in one of the listed steps; with fresh numbers the map is empty |
| BuildResults.ResultsAreTruthful | agent/tools/agent_main.cpp:216-301 | in every run whatever, even when numbers collide, every result names the issue of its own trigger message |
| BuildResults.PollSays | agent/tools/agent_main.cpp:207-234 | a poll thread says SUCCESS if and only if the first final reply does, FAILED and NOT_BUILT likewise, and ABORTED if that reply does or none is final |
| BuildResults.ResultsAreProduced | agent/tools/agent_main.cpp:216-301 | in every run whatever, each result was sent by a step of its own and says what that step calls for: the poll's outcome, the failed trigger, or the build's status after its review with the verdict |
| BuildResults.VerdictsAreTaken | agent/tools/agent_main.cpp:350-411 | in every run whatever, the verdict in a result came in a message that named the build's issue and took that very build |
| BuildResults.StatusesAreFinal | agent/tools/agent_main.cpp:216-301 | in every run whatever, a result that follows no review is SUCCESS, FAILED, ABORTED or NOT_BUILT, whatever Jenkins replies |
| BuildProtocol.StartKeepsTrackingExactly | agent/tools/agent_main.cpp:492-495 | starting a build keeps the map exact if and only if its number is not in it |
| BuildProtocol.FreshRunTracks | agent/tools/agent_main.cpp:182-507 | with fresh numbers the map is exact and all starts are safe, in every reachable state |
| BuildProtocol.ReviewTakenExactly | agent/tools/agent_main.cpp:357-384 | a verdict is taken if and only if some build of the issue has asked, is marked, and had no verdict yet |
| BuildProtocol.EarlyVerdictIsLost | agent/tools/agent_main.cpp:258-268 | a concrete run in which no verdict is taken between the request and the mark, and the build waits for one afterwards |
| BuildProtocol.MainLoopAsks | agent/tools/agent_main.cpp:538-560 | the main loop's own review request can come at any time and disturbs no build |
| BuildProtocol.CollisionBreaksTracker | agent/tools/agent_main.cpp:159-161 | a concrete run with one number for two builds that violates both promises |
| Frames.EncodeFrame | forwarder/app/ws/raw_ws.py:80-96 | the assembled bytes are the server frame of section 5.2 of RFC 6455 that EncodeIsShortest and DecodeWire speak of |
| Frames.EncodedHeader | forwarder/app/ws/raw_ws.py:82-87 | a server frame is final, unmasked and has its opcode's number |
| Frames.DecodeFrame | forwarder/app/ws/raw_ws.py:99-140 | incomplete, invalid or the frame, as specified, for every buffer |
| Frames.DecodesExactly | forwarder/app/ws/raw_ws.py:99-140 | for every buffer: it raises if and only if the opcode is unknown, and gives a frame if and only if the header says that opcode and that length and the buffer carries that payload, unmasked bit by bit |
| Frames.Unmask | forwarder/app/ws/raw_ws.py:135-138 | the in-place loop applies the key to every byte |
| Frames.XorIsBitwise | forwarder/app/ws/raw_ws.py:137-138 | exclusive or is the bitwise sum without carry |
| Frames.MaskedIsBitwise | forwarder/app/ws/raw_ws.py:135-138 | each bit of a masked byte is the payload's, turned over where byte i mod 4 of the key has a 1 |
| Frames.MaskedTwice | forwarder/app/ws/raw_ws.py:135-138 | masking is its own inverse |
| Frames.BigEndianRoundTrip | forwarder/app/ws/raw_ws.py:116-121 | lengths survive their byte form |
| Frames.DecodeWire | forwarder/app/ws/raw_ws.py:99-140 | a frame of any opcode, payload and masking choice followed by anything decodes to its opcode and payload |
| Frames.PrefixIncomplete | forwarder/app/ws/raw_ws.py:99-140 | no proper prefix of a frame decodes to anything |
| Frames.DecodeStable | forwarder/app/ws/raw_ws.py:99-140 | an answer does not change when more bytes arrive |
| Frames.EncodeIsShortest | forwarder/app/ws/raw_ws.py:80-96 | no bytes that decode to this frame are fewer than those encode_frame gives |
| RawWebSocket.Socket.Recv | forwarder/app/ws/raw_ws.py:180-206 | the returned text, the unread bytes, what is written and whether it closes are as specified, for every sequence of reads; bytes that are not UTF-8 raise |
| RawWebSocket.ReadOneFrame | forwarder/app/ws/raw_ws.py:180-206 | one frame in any cuts has the effect of the frame in one piece, and whatever the last read brings beyond it is dropped, for every frame, cut and surplus |
| RawWebSocket.EndInsideFrame | forwarder/app/ws/raw_ws.py:184-187 | a stream or read that ends before the frame does closes the connection, without a message |
| RawWebSocket.UnknownOpcodeRaises | forwarder/app/ws/raw_ws.py:108 | an unknown opcode raises as soon as two bytes are there |
| RawWebSocket.RecvIgnoresCuts | forwarder/app/ws/raw_ws.py:180-206 | control frames and then a data frame, in any cuts: one PONG a PING, in order and with its payload, then the data |
| RawWebSocket.TextArrivesExactly | forwarder/app/ws/raw_ws.py:203-211 | recv returns a text if and only if the frame carries that text's UTF-8 bytes, whatever the cuts |
| RawWebSocket.SpanningReadLosesFrame | forwarder/app/ws/raw_ws.py:198-202 | the outcome of reads of which the last spans into another frame is what it would be if the surplus had never been sent |
| RawWebSocket.TextAfterPingIsLost | forwarder/app/ws/raw_ws.py:198-202 | so a frame that comes in one read with a PING is never returned |
| StreamFrames.SendFrame | forwarder/app/ws/manual_server.py:288-298 | below 65536 bytes the sent bytes are those of encode_frame; above, the length overflows |
| StreamFrames.RecvPayload | forwarder/app/ws/manual_server.py:321-326 | reads of any sizes give exactly the payload and leave the rest, or nothing when the stream ends |
| StreamFrames.RecvFrame | forwarder/app/ws/manual_server.py:301-331 | answer and remaining stream as specified, whatever the sizes of all reads, header and key included; a key that was cut short raises when the payload needs more of it |
| StreamFrames.RefinesDecode | forwarder/app/ws/manual_server.py:301-331 | on a masked frame whose header reads are whole it answers as decode_frame does and consumes exactly that frame |
| StreamFrames.WholeReadsAgreeExactly | forwarder/app/ws/manual_server.py:301-331 | with whole header reads, on every buffer with a complete frame, the two decoders agree if and only if the frame is masked or the buffer ends with its header |
| StreamFrames.MaskedAgreesExactly | forwarder/app/ws/manual_server.py:301-331 | on every complete masked frame the two decoders agree if and only if no header read is cut short |
| StreamFrames.CutKeyExactly | forwarder/app/ws/manual_server.py:320-331 | a masking key that is cut short raises exactly when the payload is longer than what there is of it |
| StreamFrames.StreamRefinesBuffer | forwarder/app/ws/manual_server.py:301-331 | on a concatenation of masked frames repeated receiving gives decode_frame's answers frame by frame |
| StreamFrames.BrokenStreamExactly | forwarder/app/ws/manual_server.py:310-326 | a broken stream yields an empty frame if and only if the length that could be read is zero |
| StreamFrames.UnmaskedIsMisread | forwarder/app/ws/manual_server.py:320-329 | an example of an unmasked frame on which they differ |
| TokenCache.TokenService.TryCached | forwarder/app/services/dingtalk.py:73-79 | the cached token is offered exactly while it has more than 300 seconds left |
| TokenCache.ServedExactly | forwarder/app/services/dingtalk.py:73-84 | the cached token is given if and only if the newest grant has one and more than 300 of its expire_in seconds, or of 7200, are left |
| TokenCache.OneFetchAtATime | forwarder/app/services/dingtalk.py:76-82 | at most one caller fetches; fetches in flight beyond it are those of cancelled callers |
| TokenCache.CancellingExactly | forwarder/app/services/dingtalk.py:76-82 | a waiting caller that is cancelled leaves no trace, a fetching one only its worker |
| TokenCache.TurnsExactly | forwarder/app/services/dingtalk.py:76-79 | time never goes back, and the free lock goes to a waiting caller and to nobody else |
| TokenCache.SecondFetchExactly | forwarder/app/services/dingtalk.py:76-82 | a step makes it two fetches at once if and only if a caller takes the lock with a stale cache while a cancelled caller's worker is still fetching |
| TokenCache.SingleFlightExactly | forwarder/app/services/dingtalk.py:76-82 | at most one fetch is in flight throughout a run if and only if no step of the run does that |
| TokenCache.CancellationOverlapsFetches | forwarder/app/services/dingtalk.py:76-82 | a concrete run with two fetches in flight after a cancellation |
| TokenCache.FetchesExactlyWhenDue | forwarder/app/services/dingtalk.py:73-82 | a caller that gets the lock fetches if and only if nothing was granted, or the newest grant has no token or at most 300 seconds left |
| TokenCache.FetchesAreSpaced | forwarder/app/services/dingtalk.py:73-84 | when the newest grant carries a token and lasts at least E seconds, a fetch starts at least E - 300 seconds after it was made |
| TokenCache.FetchesBounded | forwarder/app/services/dingtalk.py:73-84 | k + 1 successful fetches, of which the first k grants are such, take at least k * (E - 300) seconds |
| TokenCache.ReturnedTokensAreFresh | forwarder/app/services/dingtalk.py:73-86 | every returned token was granted, and had more than 300 seconds left when checked if and only if its grant lasts longer than that |
| WorkOrder.DraftRunLength | forwarder/app/state.py:30-69 | a run from DRAFT with r retries has at most 7 + 2r transitions |
| WorkOrder.RunLength | forwarder/app/state.py:30-69 | the same bound from every state, with that state's own budget |
| WorkOrder.EntersExactly | forwarder/app/state.py:30-69 | the table read backwards: from which states each state is entered |
| WorkOrder.LongestRun | forwarder/app/state.py:30-69 | from every state that can retry, and for every number of retries, the bound is reached |
| WorkOrder.BoundIsReached | forwarder/app/state.py:30-69 | the bound from DRAFT is the least one for every r |
| WorkOrder.ApprovalComesFirst | forwarder/app/state.py:30-69 | BUILDING comes after APPROVED and, after a second review, after SECOND_APPROVED; a second review happens at most once |
| WorkOrder.ClosedIsTheEnd | forwarder/app/state.py:55-92 | CLOSED is reachable from every state and is the only terminal one |
| WorkOrder.OperationsTakeExactlyTheEdges | forwarder/app/services/relay.py:51-268 | some operation moves an order from one state to another if and only if the table has that edge |
| WorkOrder.ReachesExactly | forwarder/app/services/relay.py:51-268 | an operation moves an order into a state if and only if the table has the edge and the operation, its text and its service are those that lead there |
| WorkOrder.FailsExactly | forwarder/app/services/relay.py:51-268 | when an operation raises StateError and when RelayError |
| WorkOrder.ResultStateExactly | forwarder/app/services/relay.py:186-191 | a build status is understood if and only if it spells SUCCESS or FAILED, in any mixture of cases |
| WorkOrder.BuiltOnlyAfterAgree | forwarder/app/services/relay.py:104-268 | over every run of operations an order is approved only by an "agree" after it was submitted, and built only then and, after a sensitive change, by an "agree" to the second review |
| WorkOrder.AgentResultAccepted | forwarder/app/services/relay.py:167-197 | of the statuses a poll thread can send, exactly SUCCESS and FAILED move a building order |
| Approval.Session.HandleApprovalFinish | forwarder/app/api/dingtalk.py:92-151 | row, order and outcome after the assignments and the commit or rollback are as specified |
| Approval.AllOrNothing | forwarder/app/api/dingtalk.py:122-151 | a callback makes a legal transition and settles the pending row, or changes nothing; other rows and orders are never touched |
| Approval.CommitsExactly | forwarder/app/api/dingtalk.py:128-144 | it commits if and only if the order knows the transition the answered review asks for; the new state and the row's answer |
| Approval.AnswersExactly | forwarder/app/api/dingtalk.py:129-144 | the four answers: in which state each commits and which state it gives |
| Approval.RaisesExactly | forwarder/app/api/dingtalk.py:110-120 | it raises if and only if the order has two pending rows |
| Approval.AgreeIsIdempotent | forwarder/app/api/dingtalk.py:92-151 | a repeated "agree" changes nothing |
| Approval.AtMostTwoChanges | forwarder/app/api/dingtalk.py:92-151 | any callbacks for any orders, interleaved in any way, change the state of each order at most twice |
| Approval.TwoChangesHappen | forwarder/app/api/dingtalk.py:129-144 | a concrete order that is approved and then closed |

## Left out

- BuildTracker.PollBuild: supposes that the loop ends at some test, which the source does not ensure for a zero interval; SleepingEnds shows it for a positive one.
- BuildProtocol.AtMostOneResultEver: supposes safe starts, because the code does not ensure them; TwoResultsExactly says what an unsafe one leads to.
- Codec.InjectiveAgreement: assumes ideal signatures and cipher, that the peer's key signs only envelopes and handshake texts, that the peer's other sessions use other keys, and that no signed handshake text is itself a sealed message of the session; HarmlessTextExactly shows that the last cannot be weakened.
- Acknowledgement.EveryRequestIsAcknowledged: assumes fresh nonces, deliveries inside the window and no losses; TrafficDrains and BothEndsAccount need none of this.
- Frames.EncodeFrame: covers payloads below 2^64 bytes; struct.pack fails above.
- RawWebSocket.RecvIgnoresCuts: covers reads that do not span two frames; SpanningReadLosesFrame says what the others do.
- StreamFrames.RecvFrame: reads that fail with a socket error are not modelled, only reads that give fewer bytes or none.
- WorkOrder.OperationsTakeExactlyTheEdges: upper-casing is that of ASCII letters; Python also maps some other letters, such as the long s, into them.
- Handshake.HonestHandshake: the handshake is one exchange of records; a JSON field of another type than text is not modelled.
- The C++ base64 of OpenSSL is taken to agree with the Python one; on text that is not base64 the C++ decoder returns what it can, where the Agent's loop is modelled as rejecting the message.
- The two codecs are one class: they differ only in how they report malformed text, which Dispatch separates.
- Signed text is a sequence of characters; Utf8.DecodesExactly shows that its bytes say the same. Lone surrogates, which a Python string may hold and which cannot be encoded, do not occur.
- Timestamps and clocks are unbounded integers; the 64-bit limit of the C++ side is not modelled.
- JSON printing and parsing, HTTP, the WebSocket upgrade, TLS and the sockets themselves.
- AES-GCM, ECDSA, ECDH, SHA-1 and random bytes beyond the stated laws.
- Reconnect and backoff of the Agent, log texts, hex encoding, key files and configuration.
- The exceptions of Jenkins and JSON libraries inside the poll thread, and its return when no Jenkins is configured.
- The Agent's main loop beyond the review requests it sends on its own; which issue such a request names is arbitrary here.
- The threads of ManualWsServer, the admin API, list and count of the registry, and DingTalk signatures, approval creation and messages.
- Approval rows' times and the case of two orders with one number.
