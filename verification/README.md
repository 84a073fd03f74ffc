# A verified model of the PQC gateway

The gateway takes messages from a TCP client, agrees a key with a receiver in a hybrid post-quantum
handshake over a multi-homed SCTP association, and relays the messages in encrypted frames, while a
monitor thread decides which of two network paths the association uses. This project models that logic in
Dafny 4.11 and proves what it keeps. `dafny verify dfyconfig.toml` checks everything.

## How it is laid out

| file | models |
|---|---|
| `Bytes`, `Sockets` | bytes, network byte order, a stream socket whose reads and writes move an arbitrary number of bytes, `read_exact` and `write_exact` |
| `Crypto` | the primitives as functions with laws (X25519 commutes, decapsulation inverts encapsulation, a signature verifies, opening inverts sealing), the KEM levels and `select_kem` |
| `Handshake` | both handshake roles as scripts: the next action as a function of the bytes read and the number written; transcripts and their decoders |
| `HandshakeCode` | the same roles as code over a socket, with early returns and buffers, proved to stop exactly where the scripts stop |
| `Exchange`, `HandshakePair` | two scripts over bounded channels and the application data after them: deadlock, termination, outcome, stream position; the handshake as an instance |
| `HandshakeAgreement`, `HandshakeEmbedding` | any number of sessions over a network that may do anything, with ideal signatures; faithful handshakes as such runs |
| `Framing`, `Relay` | length-prefixed frames, the AEAD envelope, the gateway's streaming loop, the receiver's loop |
| `TransportPolicy`, `PathMonitor`, `PathTheorems`, `PathSerial`, `PathMonitorCode` | the policy functions; the monitor and session threads as events, one per lock region or kernel call; what all runs keep; what uncut ticks keep; the process as code, whose every step is such an event |
| `Metrics`, `MetricsLog` | the sliding window of flow features, the loss window, the bandwidth average; what several sessions record in them |
| `Gateway` | classification, handshake and relay put together |
| `Text`, `MetricLine`, `LogParser`, `LabelMap` | the metric line between C and Python, the log parser's fold, label normalisation |

## Hypotheses

- `Crypto.Lawful` states the laws of the primitives; `Crypto.LawsAreConsistent` gives functions that obey
  them all and keep distinct secrets apart. Lengths are those of section 8 of FIPS 203 and section 4 of
  FIPS 204. HKDF (section 2 of RFC 5869) is any function of its key material, salt and info.
- In `HandshakeAgreement` a non-empty signature that verifies under an identity in `honest` was made by some session
  holding that identity, at or before that moment. The network is otherwise free. Sessions may share
  identities, also across the two roles.
- `PathSerial` assumes uncut ticks and one session at a time, not that the kernel accepts a switch; every
  theorem of `PathMonitor` and `PathTheorems` is about all interleavings.
- In `PathMonitor` a new association's kernel primary is the first address given to `sctp_connectx`.
- `Metrics` computes over the reals, with a square root known by its law. Time stamps are not assumed to be
  in order.
- A call into OpenSSL or liboqs, or an allocation, that fails for no reason in its arguments is an input:
  the first one of a handshake is `HandshakeCode.Fault`, elsewhere a flag.
- In `Relay.StreamLoop` other sessions record in the shared metrics before and after each of the loop's
  sends, any number of times; which records are whose is part of the statement.
- What the kernel, the two models, the clock, the random generator and the environment answer is part of
  the events, or a choice left open in a method.

## Where the code departs from its documentation

The model follows the code.

- `README.md:95-101` of the repository has the AI verdict choose the KEM level. In the code only the
  data classification does (`Gateway.CompletedSessionKeepsItsStrength`).
- `README.md:170-175` has a HIGH verdict move traffic to the secondary path. In the code it throttles
  (`TransportPolicy.WhenActionsAreTaken`, `PathTheorems.VerdictsDoNotChoosePaths`).
- `transport_policy.h:30` calls the primary down when it is inactive. The monitor also passes an unknown
  state as down.
- The floor test compares level bytes. The unassigned bytes 3 to 255 pass it and run as ML-KEM-512:
  `HandshakePair.UnassignedLevelRun` is a run in which both sides return 0 with one, and
  `HandshakeAgreement.ResponderIsWeakIff` says exactly when a responder runs under ML-KEM-768. Strength
  theorems are about levels that `select_kem` gave.
- `sctp_gateway.c:162` says an association stays registered for the whole flow. A second flow ends that:
  `PathMonitor.SecondFlowTakesTheMonitor` is such a run and `PathMonitor.StaysRegisteredIff` says when it holds.
- An association is meant to span both addresses from the start (`multihoming.c:85-88`). The two are read
  in separate lock regions: `PathTheorems.OneAddressTwice` is a run that connects to one address twice and
  `PathTheorems.AssociationSpansBothPathsIff` says when they differ.
- `metrics.h:47-51` calls the utilisation a percentage. The caller casts the byte count of a flow to 32
  bits: `Metrics.NegativeUtilisation` is an input that makes it negative, and `Metrics.FlowUtilisationIff`
  says, after any history, when a flow does.
- `path_monitor.c:62-68` expects a descriptor that was closed during a tick to fail its query. Its number
  can be in use again: `PathTheorems.SwitchMovesAnother` is a run whose switch moves another flow's
  association, and `PathTheorems.SwitchMovesTheMeantIff` says when a switch moves the one it was decided
  for.
- The result of `switch_primary_path` is ignored. `PathSerial.RejectedSwitchSplits` is a run after which the
  kernel sends on the primary and the flag names the secondary; `PathSerial.KernelPathMatchesFlagIff` says
  when they agree: exactly after an even number of rejected calls in a row.

## Main results

- Agreement over any network, both ways and one to one: `HandshakeAgreement.InitiatorAgreement`,
  `ResponderAgreement`, `AgreementIsInjective`. The key is made of both secrets:
  `InitiatorSessionKey`, `ResponderSessionKey`, `Handshake.EqualKeysEqualSecrets`.
- The handshake over bounded channels: `HandshakePair.HandshakeNeverDeadlocks`, `HandshakeTerminates`,
  `HandshakeRunsToTheEnd`, `HandshakeOutcome`, `CompletedHandshakeIsSynchronised`. The code runs it:
  `HandshakeCode.InitiatorHandshake`, `ResponderHandshake`.
- Transcripts: `Handshake.HelloDecodes`, `FullDecodes`, `RolesAreSeparated`.
- The relay: `Relay.StreamLoop`, `ReceiveLoop`, `RelayDelivers`, and end to end `Gateway.EndToEnd`,
  `FlowGetsThrough`; frames by themselves: `Framing.CutStream`, `ReadAllIsExact`.
- Strength: `PathTheorems.OnlyCriticalSessionsAreRaised`, `StrengthDependsOnlyOnClassification`, `Gateway.CompletedSessionKeepsItsStrength`,
  `AuthenticatedSessionKeepsItsStrength`, `HandshakeAgreement.ResponderIsWeakIff`.
- The monitor over all interleavings: `PathMonitor.RegisteredFdIsNeverClosed`, `StaysRegisteredIff`,
  `PathTheorems.CauseOfFailover`, `CauseOfRestore`, `FailoverIsSticky`, `SwitchesOfATick`,
  `VerdictsDoNotChoosePaths`, `SwitchMovesTheMeantIff`. The code is the machine:
  `PathMonitorCode.Process.Turn`, `SessionStep`, `TurnExtendsRun`; a turn by itself: `UncutTurn`.
- Kernel and flag: `PathSerial.KernelPathMatchesFlagIff`.
- Metrics: `Metrics.FlowWindow.GetWindowFeatures`, `FeaturesInPlainTerms`, `OnePassVariance`,
  `LossWindow.GetPacketLossPct`,
  `LossMovesByAtMostOne`, `BandwidthEma.Update`, `WeightsSum`, `FlowUtilisationIff`.
- Text: `MetricLine.LineRoundTrip`, `ParsesIff`, `ValidateMeetsClip`, `LogParser.SessionsConcat`,
  `FoldIsSessions`, `LastMatchWins`, `LabelMap.NormalizeIsJoinedWords`, `VisibleCharactersSurvive`.

The other rows of the table below are the steps and the parts these are made of. Definitions that many
statements share have small lemmas beside them that fix their values by literals.

## Model

| member | source | states |
|---|---|---|
| Bytes.BigEndianDecodes | gateway/frame.h:20-37 | reading back a length written in network order gives the length, for every 32-bit value |
| Bytes.BigEndianIsOnto | gateway/frame.h:20-37 | every four bytes are the network-order form of the length they decode to |
| Bytes.BigEndianOrder | gateway/frame.h:20-37 | the most significant byte comes first: lengths are ordered as their four bytes are from the left |
| Sockets.ReadExact | gateway/pqc_handshake.c:31-40 | for every chunking: success exactly when the stream still holds n bytes, which are then in the buffer and gone from the stream; the rest of the buffer is untouched; a failure uses the stream up |
| Sockets.WriteExact | gateway/pqc_handshake.c:42-51 | for every chunking: success exactly when the stream takes all the bytes; a failure leaves a proper prefix written and a stream that takes no more |
| Crypto.SelectKem | gateway/crypto_policy.c:6-20 | never below the floor, and ML-KEM-1024 exactly for critical data |
| Crypto.OnlyCriticalRaises | gateway/crypto_policy.c:22-28 | the file's token, or without one the variable, gives level 2 exactly when it is the word critical in any letter case, and level 1 otherwise |
| Crypto.SizesOfLevels | gateway/pqc_handshake.c:165-173 | key and ciphertext sizes of every level byte |
| Handshake.HelloDecodes | gateway/pqc_handshake.c:333-339 | the decoder of T_i returns some fields exactly when they are well-formed and encode to that string, so equal T_i have equal fields |
| Handshake.FullDecodes | gateway/pqc_handshake.c:363-370 | the same for T_r |
| Handshake.RolesAreSeparated | gateway/pqc_handshake.h:40-43 | no byte string is both a T_i and a T_r |
| Handshake.KeysAgree | gateway/pqc_handshake.c:379-401 | the initiator's key from a responder's reply to its T_i is the responder's key |
| Handshake.InitiatorKeyIsHybrid | gateway/pqc_handshake.c:256-275 | a returned key is HKDF, with the fixed salt and info, of the X25519 secret of the reply's first 32 bytes followed by what the rest decapsulates to |
| Handshake.ResponderKeyIsHybrid | gateway/pqc_handshake.c:256-275 | the same for the responder, with the secret it encapsulated to the key in T_i |
| Handshake.EqualKeysEqualSecrets | gateway/pqc_handshake.c:243-251 | under an injective HKDF two returned keys are equal only if both secrets are, so neither secret alone determines the key |
| Handshake.EqualKeysEqualSecretsAcross | gateway/pqc_handshake.c:243-251 | the same of an initiator and a responder |
| Handshake.BlockAfter | gateway/pqc_handshake.c:64-72 | what a block reader holds after a header and some bytes: refused over the cap, waiting, or complete with exactly the announced bytes |
| HandshakeCode.PqcAuth.constructor | gateway/pqc_auth.c:28-48 | the identity is what the key files load to: enabled exactly when the signature object exists and the files hold 4032 and 1952 bytes; otherwise no key is kept |
| HandshakeCode.SendSigBlock | gateway/pqc_handshake.c:56-62 | the length in network order and then the signature; on failure a proper prefix of that |
| HandshakeCode.RecvSigBlock | gateway/pqc_handshake.c:64-72 | success exactly when a block within the cap arrives whole; it reads the block and not a byte more, and only the header if the length is refused |
| HandshakeCode.SignAndSend | gateway/pqc_handshake.c:97-114 | the block over the transcript's signature, or the empty block when authentication is off; nothing when a signature is due and cannot be made |
| HandshakeCode.RecvAndVerify | gateway/pqc_handshake.c:124-161 | success exactly when the buffer can be had, a whole block arrived and, with authentication on, it is not empty and verifies under the pinned key |
| HandshakeCode.InitiatorHandshake | gateway/pqc_handshake.c:288-427 | from the key files on: writes only its flight, reads a byte only when the script asks for one, reads nothing before the flight is out, and returns 0 with the hash of both secrets, or -1 where the script refuses, where the stream ends under it, or at the exact point where an internal call fails |
| HandshakeCode.ResponderHandshake | gateway/pqc_handshake.c:437-574 | the same for the responder; it writes only after accepting T_i, and then only its flight |
| HandshakeCode.InitiatorFollowedItsScript | gateway/pqc_handshake.c:341-401 | the ways the initiator's code can end are exactly the ends of its script, and every byte read was asked for |
| HandshakeCode.ResponderFollowedItsScript | gateway/pqc_handshake.c:444-559 | the same for the responder |
| HandshakeCode.OutcomeOfIdentities | gateway/pqc_auth.c:28-48 | the outcome below for two processes with any valid identities, enabled or not |
| HandshakePair.ReadBlockOfPrefix | gateway/pqc_handshake.c:56-72 | on any prefix of a sent block the receiver waits for no more than the rest, and on the whole it holds the signature |
| HandshakePair.ResponderOnPrefix | gateway/pqc_handshake.c:444-551 | on any prefix of the initiator's flight the responder reads no further than its end or refuses; at the end it answers exactly when it accepts |
| HandshakePair.InitiatorOnPrefix | gateway/pqc_handshake.c:355-401 | on any prefix of the responder's flight the initiator reads no further than its end; at the end it returns the responder's key exactly when it accepts |
| HandshakePair.HandshakeNeverDeadlocks | gateway/pqc_handshake.c:341-376 | for every channel size from one byte up, every chunking and every earlier failure, some side can move until both have returned |
| HandshakePair.HandshakeTerminates | gateway/pqc_handshake.c:31-51 | a run makes at most 2·(T_i + reply) + 4·(longest block) + 2 handshake moves |
| HandshakePair.HandshakeRunsToTheEnd | gateway/pqc_handshake.c:437-574 | from any point there is a continuation without faults in which both sides return |
| HandshakePair.HandshakeOutcome | gateway/pqc_handshake.c:116-161 | with matching pinned keys, for the four settings of the two enabled flags: the responder returns 0 unless it demands a signature that is not made, the initiator exactly when the flags are equal, with equal keys |
| HandshakePair.OutcomeOfKeyFiles | gateway/pqc_handshake.c:116-161 | the same in terms of the key files each process finds; only two complete pairs have to belong together |
| HandshakePair.UnassignedLevelRun | gateway/pqc_handshake.c:165-173 | without key files there is a handshake at level byte 3 in which both sides return 0 although it is weaker than the floor |
| HandshakePair.CompletedHandshakeIsSynchronised | gateway/pqc_handshake.c:56-72 | when both return 0 they hold one key and one level that passes the floor test, each has read exactly what the other wrote, and what the receiver has read since, with what is in the channel, is exactly what the gateway has written since |
| Exchange.StepKeepsInv | gateway/pqc_handshake.c:31-51 | each channel always holds exactly what was written and not yet read, neither side reads past the other's flight, and every failure goes back to a refusal or a fault |
| Exchange.NoDeadlock | gateway/pqc_handshake.c:31-51 | two matched scripts over bounded channels always have a fault-free move until both have returned |
| Exchange.Terminates | gateway/pqc_handshake.c:31-51 | the moves of a run are bounded by the bytes to write and read |
| Exchange.RunsToTheEnd | gateway/pqc_handshake.c:31-51 | every run extends, without a new fault, to one in which both sides have returned |
| Exchange.Outcome | gateway/pqc_handshake.c:124-161 | in a fault-free finished run each result depends on acceptance alone |
| Exchange.StreamsAreSynchronised | gateway/pqc_handshake.c:56-72 | a side that has returned 0 has read exactly its peer's flight, whatever the other does; a finished initiator knows that the responder has written all of its own |
| Exchange.AppDataGetsThrough | gateway/sctp_gateway.c:187-208 | once both have returned, any data at all can be carried through a channel of any size |
| HandshakeAgreement.InitiatorAgreement | gateway/pqc_handshake.c:363-401 | over any network and any number of sessions: an initiator that demands a signature of an honest identity and returns 0 shares T_r and key with a responder session holding that identity, at its own level, which clears the floor |
| HandshakeAgreement.ResponderAgreement | gateway/pqc_handshake.c:491-502 | a responder that demands a signature of an honest identity and returns 0 has the T_i of an initiator session holding that identity, level included |
| HandshakeAgreement.ResponderIsWeakIff | gateway/pqc_handshake.c:455-462 | over any network a responder that returns 0 has run below ML-KEM-768 exactly when its level byte is above 2 |
| HandshakeAgreement.AgreementIsInjective | gateway/pqc_handshake.h:40-46 | with distinct X25519 keys no two sessions of a role agree with the same partner |
| HandshakeAgreement.EqualTranscriptsEqualKeys | gateway/pqc_handshake.c:380-401 | sessions with the same T_r bytes have the same T_i, the same reply and the same key |
| HandshakeAgreement.InitiatorSessionKey | gateway/pqc_handshake.c:379-401 | over any network the key an initiator returns is made of both secrets |
| HandshakeAgreement.ResponderSessionKey | gateway/pqc_handshake.c:504-559 | the same for a responder |
| HandshakeAgreement.WorldStepKeepsInv | gateway/pqc_handshake.c:116-161 | each step of any session keeps every accepted signature backed by a session that signed |
| HandshakeEmbedding.FaithfulRunIsAWorldRun | gateway/pqc_handshake.c:341-376 | every handshake over faithful channels, in all four settings of the enabled flags, is a run of the many-session world, ideal signatures included |
| HandshakeEmbedding.AuthenticatedRunExists | gateway/pqc_handshake.c:437-574 | for every authenticated pair that pins each other and clears the floor there is a world run in which both return 0 with one key |
| HandshakeEmbedding.AuthenticatedPairExists | gateway/pqc_auth.c:39-48 | there is such a pair, with distinct keys and identities of the right size |
| Framing.FrameWrite | gateway/frame.h:18-28 | the frame is written whole, or a proper prefix of it and the stream takes no more |
| Framing.FrameRead | gateway/frame.h:31-44 | success exactly when a frame within the cap arrives whole; the payload is in the buffer and the stream stands after the frame |
| Framing.CutStream | gateway/frame.h:31-44 | on a stream cut anywhere repeated reads give exactly the messages whose frames arrived whole |
| Framing.WholeFramesIff | gateway/frame.h:31-44 | the first k frames arrived whole exactly when the cut is not before their end |
| Framing.FramesRoundTrip | gateway/frame.h:18-44 | on an uncut stream they give every message |
| Framing.ReadAllIsExact | gateway/frame.h:31-44 | on any stream at all, what was read framed again is exactly what was consumed, and the rest is not a frame |
| Relay.EnvelopeOpens | gateway/crypto_layer.c:55-73 | an envelope is IV, ciphertext and tag at their offsets, 28 bytes longer than its message, and opens to it |
| Relay.EnvelopesFitBuffers | gateway/sctp_gateway.c:187-208 | messages have at most 1023 bytes and envelopes at most 1051, within the 1024 and 2048 of the two programs |
| Relay.EncryptGcm | gateway/crypto_layer.c:26-79 | IV, ciphertext and tag within the caller's buffer, exactly when there is a key and an IV and no call into OpenSSL fails |
| Relay.DecryptGcm | gateway/crypto_layer.c:90-142 | success exactly when there is a key, the envelope opens and no call into OpenSSL fails; plaintext and terminating zero fit the buffer |
| Relay.StreamLoop | gateway/sctp_gateway.c:187-208 | the counted messages concatenated are the first total_bytes of the client's stream, all of it on a clean close; the wire carries their envelopes framed in order and at most part of one more frame; whatever other sessions record in between, the loop's own records in the shared metrics are a success and the next packet by turns, and at the end the outcome of the last send |
| Relay.StreamTurn | gateway/sctp_gateway.c:190-207 | one turn counts the buffer's message and records the outcome, and then refills the buffer and records the packet, or breaks off with part of a frame written |
| Relay.LossAfterFlow | gateway/sctp_gateway.c:195-200 | the loss after a flow whose window was filled meanwhile, in points: the failures other sessions recorded in it, and one more if this flow broke off and that is still in it |
| Relay.LossAfterLoneFlow | gateway/sctp_gateway.c:195-200 | when no other session records meanwhile: a clean flow of a hundred messages leaves no loss, one that breaks off behind ninety-nine leaves one percent |
| Relay.ReceiveLoop | gateway/sctp_receiver.c:53-69 | the messages are the envelopes that open among the frames of the stream, in order, less those on which OpenSSL fails, and the counter is their number |
| Relay.OpenAllOfEnvelopes | gateway/crypto_layer.c:90-142 | the envelopes of a flow open to its messages, in order, less those on which OpenSSL fails |
| Relay.RelayDelivers | gateway/sctp_receiver.c:56-68 | wherever the wire is cut, the receiver delivers exactly the counted messages whose frames arrived whole, less those on which OpenSSL fails |
| Relay.RelayDeliversAll | gateway/sctp_receiver.c:56-68 | when all of it arrives and no call fails, every counted message is delivered |
| Gateway.EndToEnd | gateway/sctp_gateway.c:164-208 | after a completed handshake the receiver, with its own key and from where its handshake stopped, delivers exactly the first messages of the gateway's flow whose frames it has read or can still read whole, for flows of any length |
| Gateway.FlowGetsThrough | gateway/sctp_gateway.c:187-208 | from any such point the run can be carried on until every message of the flow is recovered, however small the channel |
| Gateway.CompletedSessionKeepsItsStrength | gateway/sctp_gateway.c:141-168 | a session that completes runs at both ends at the level its classification chose, whatever else happened, never below ML-KEM-768 |
| Gateway.CompletedSessionSendsItsKemKey | gateway/sctp_gateway.c:141-168 | and the ML-KEM key the receiver read has 1568 bytes if the session found the word critical, 1184 otherwise |
| Gateway.AuthenticatedSessionKeepsItsStrength | gateway/sctp_gateway.c:141-168 | the same over any network when the initiator demands an honest signature |
| PathMonitor.RegisteredFdIsNeverClosed | gateway/path_monitor.c:230-243 | in every interleaving a non-negative active_fd is open and belongs to a session that has registered and not unregistered |
| PathMonitor.RegisteredIffUntouched | gateway/path_monitor.c:230-243 | the watched session stays the watched one exactly as long as no session registers or unregisters |
| PathMonitor.StaysRegisteredIff | gateway/sctp_gateway.c:162 | a streaming session is the monitored one exactly when no session has registered or unregistered since it did |
| PathMonitor.SecondFlowTakesTheMonitor | gateway/sctp_gateway.c:149-162 | a run in which a streaming flow is no longer the monitored one |
| PathMonitor.StreamingSince | gateway/sctp_gateway.c:162-211 | a session still streaming has not changed since it registered |
| PathTheorems.TickInvStep | gateway/path_monitor.c:52-202 | every event keeps what the thread knows at each point of its loop |
| PathTheorems.SwitchesOfATick | gateway/path_monitor.c:141-202 | a tick switches at most twice; twice only with enforcement on, the second being the early failover and the first a restore unless a reset cut in |
| PathTheorems.RestoreThenFailoverKeepsFlag | gateway/path_monitor.c:163-202 | a restore and an early failover in one tick leave the flag set, as the tick found it |
| PathTheorems.SawPrimary | gateway/path_monitor.c:61-70 | the primary state the thread acts on is the one the kernel gave in the same tick |
| PathTheorems.SawReplies | gateway/path_monitor.c:86-105 | the verdict and network state it acts on are those the models gave in the same tick |
| PathTheorems.CauseOfFailover | gateway/path_monitor.c:129-202 | every 0 to 1 change of on_secondary: the tick saw the secondary available and the primary inactive or in an unnamed state, or a predicted failure with enforcement on |
| PathTheorems.CauseOfRestore | gateway/path_monitor.c:163-169 | every 1 to 0 change: a consumed reset request, or a tick that saw LOW and an active primary |
| PathTheorems.ResetClears | gateway/path_monitor.c:261-266 | a reset request clears the flag at once |
| PathTheorems.FailoverIsSticky | gateway/path_monitor.h:36-43 | with no reset and no such tick, on_secondary stays set |
| PathTheorems.StopEndsTheTicks | gateway/path_monitor.c:225-228 | after a stop the thread begins at most one more tick |
| PathTheorems.AssociationSpansBothPathsIff | gateway/sctp_gateway.c:151-154 | the two addresses of a new association differ exactly when the flag was the same at both reads |
| PathTheorems.OneAddressTwice | gateway/sctp_gateway.c:151-154 | a run in which an association is made with the configured primary as both addresses, just as it has failed |
| PathTheorems.SwitchMovesTheMeantIff | gateway/path_monitor.c:55-70 | an accepted switch moves the association of exactly one session; that is the one whose descriptor the tick looked up if and only if that session has not closed it since |
| PathTheorems.SwitchMovesAnother | gateway/path_monitor.c:138-150 | a run in which a tick decides for one association and its accepted switch moves another |
| PathTheorems.VerdictsDoNotChoosePaths | gateway/transport_policy.c:12-28 | exchanging HIGH, MEDIUM and empty verdicts in any run gives a run with the same flag, switch calls and kernel throughout |
| PathTheorems.StrengthDependsOnlyOnClassification | gateway/sctp_gateway.c:141-143 | two runs in which a session finds the same classification, and anything else different, other sessions and every order included, give it the same KEM level |
| PathTheorems.LevelIsItsClassification | gateway/sctp_gateway.c:38-51 | at every point of a run a session has the level its own classification selected, and none before it |
| PathTheorems.OnlyCriticalSessionsAreRaised | gateway/sctp_gateway.c:38-51 | in every run a session has level 2 exactly when the token it found, the file's before the variable's, is the word critical in any letter case, else level 1 |
| PathTheorems.LevelsClearTheFloor | gateway/crypto_policy.c:6-20 | in every run the level of a session was selected by an earlier classification of its own and is not below the floor |
| PathSerial.KernelPathMatchesFlagIff | gateway/path_monitor.c:141-202 | between uncut ticks the kernel primary of a registered association is the address on_secondary names exactly when the number of switch calls rejected in a row is even |
| PathSerial.RejectedSwitchSplits | gateway/path_monitor.c:141-147 | a run with one rejected failover after which the two differ |
| PathSerial.KernelPathMatchesFlag | gateway/path_monitor.c:141-202 | so always, when the kernel accepts every switch |
| PathSerial.SerialDoubleSwitch | gateway/path_monitor.c:163-202 | an uncut tick that switches twice restores and then fails over, and keeps the flag |
| PathMonitorCode.DriveIsTicked | gateway/path_monitor.c:55-202 | the machine's tick, if nothing cuts into it, in closed form: flag, kernel paths and switch calls |
| PathMonitorCode.UncutTurn | gateway/path_monitor.c:52-202 | flag, switch calls and kernel after a turn nothing cuts into, for every flag and all answers: failover on INACTIVE or UNKNOWN, restore on LOW and ACTIVE, then the enforced predictions, and nothing else |
| PathMonitorCode.Process.SessionStep | gateway/sctp_gateway.c:141-211 | each lock region and kernel call of a session thread, by the functions of path_monitor.c, changes shared state and locals exactly as the machine's event |
| PathMonitorCode.Process.Turn | gateway/path_monitor.c:52-209 | one turn of the loop, with any events of other threads between its steps, changes shared state and locals and calls the switch exactly as the machine does |
| PathMonitorCode.TurnExtendsRun | gateway/path_monitor.c:52-209 | a run followed by a turn, however cut into, is a run, so what all runs keep holds of the code |
| Metrics.FlowWindow.RecordPacket | gateway/metrics.c:172-181 | the ring keeps holding the most recent packets of all those ever recorded |
| Metrics.FlowWindow.WindowIsLast | gateway/metrics.c:194-203 | the slots visited by the modular index are exactly the last min(n, 256) packets, oldest first |
| Metrics.FlowWindow.Accumulate | gateway/metrics.c:199-211 | the loop's sums are the sum of the gaps, the sum of their squares and the bytes of the window |
| Metrics.FlowWindow.GetWindowFeatures | gateway/metrics.c:183-226 | the six features of the last min(n, 256) packets by their definitions, all zero below two packets; the deviation squared is the mean squared deviation |
| Metrics.FeaturesInPlainTerms | gateway/metrics.c:194-225 | the six features over the last 256 of all packets, by products: span, mean gap, deviation, mean size and rates per second |
| Metrics.FewPackets | gateway/metrics.c:189-193 | below two packets all six are zero |
| Metrics.SumsAreSums | gateway/metrics.c:199-217 | the sums used there are additive and give one item's own value |
| Metrics.OnePassVariance | gateway/metrics.c:214-217 | mean of squares less square of mean is the mean squared deviation and never negative |
| Metrics.MeanGapTimesGapsIsSpan | gateway/metrics.c:197-225 | the flow duration is the sum of the gaps and the mean gap times their number |
| Metrics.ByteRateIsPacketRateTimesSize | gateway/metrics.c:222-224 | byte rate is packet rate times mean packet size |
| Metrics.LossWindow.RecordSendResult | gateway/metrics.c:65-72 | the ring keeps holding the most recent outcomes of all those ever recorded |
| Metrics.LossWindow.GetPacketLossPct | gateway/metrics.c:74-86 | times the number of outcomes in the window, at most 100, it is 100 times the places in the window that hold a failure; 0 if there are none |
| Metrics.LossCountsFailures | gateway/metrics.c:74-86 | the same of every history |
| Metrics.LossIsAPercentage | gateway/metrics.c:74-86 | for every history that is between 0 and 100 |
| Metrics.LossMovesByAtMostOne | gateway/metrics.c:58-86 | once the window is full one more outcome moves it by at most one point |
| Metrics.BandwidthEma.Update | gateway/metrics.c:119-126 | the average stays the closed form of all accepted samples; an elapsed time that is not positive is ignored |
| Metrics.BandwidthEma.UtilPct | gateway/metrics.c:128-135 | the utilisation of that closed form |
| Metrics.EndFlow | gateway/sctp_gateway.c:216-220 | the end of a flow adds the sample of its cast byte count, with 1 ms for an elapsed time that is not positive |
| Metrics.WeightsSum | gateway/metrics.c:114-124 | the weights of n samples sum to 1 - 0.7^n |
| Metrics.AverageIsBounded | gateway/metrics.c:119-126 | the average lies between any bounds on the samples that include zero |
| Metrics.UtilisationPct | gateway/metrics.c:128-135 | the average as a percentage of 1000000 bytes a second, capped at 100; non-negative exactly when the average is |
| Metrics.UtilisationIsAPercentage | gateway/metrics.c:128-135 | with no negative sample it is between 0 and 100 |
| Metrics.FlowUtilisationIff | gateway/sctp_gateway.c:216-220 | after any history the end of a flow leaves the utilisation non-negative exactly when 300 times its byte count, cast to 32 bits, and 0.7 times average times elapsed milliseconds sum to no less than zero |
| Metrics.FlowsWithinIntAreAPercentage | gateway/sctp_gateway.c:216-220 | flows whose byte counts modulo 2^32 are below 2^31 keep it between 0 and 100 |
| Metrics.NegativeUtilisation | gateway/sctp_gateway.c:220 | a first flow of 2^31 bytes makes it negative |
| Metrics.ToInt32Is | gateway/sctp_gateway.c:220 | the cast gives the 32-bit number congruent to the byte count |
| MetricLine.LineFitsBuffer | gateway/sctp_gateway.c:129-132 | six values of at most 38 digits before the point, 37 after a minus sign, fit the 256 bytes, so the line is written whole |
| MetricLine.RoundedIsNear | gateway/sctp_gateway.c:129-132 | the number a field shows is within half a hundredth of the value, and equal to it exactly when that is whole hundredths |
| MetricLine.LineRoundTrip | ai_module/features.py:63-68 | for values of either sign the Python side recovers in order the six numbers the line shows |
| MetricLine.ParsesIff | ai_module/features.py:63-68 | a line is accepted exactly when it has six comma-separated fields and each is a number, and gives these in order |
| Text.StripOnlyTakesSpace | ai_module/features.py:65 | stripping takes all space from both ends and nothing else |
| MetricLine.InRangeStaysInRange | ai_module/features.py:71-78 | features in range when printed raise no warning when read |
| MetricLine.Validate | ai_module/features.py:71-78 | warns about exactly the features out of range, in order |
| MetricLine.Clip | ai_module/features.py:81-87 | each value clamped to its range, at most six of them |
| MetricLine.Clamp | ai_module/features.py:84-86 | in range, unchanged exactly when it was, otherwise an end of the range |
| MetricLine.ValidateMeetsClip | ai_module/features.py:71-87 | six values have no warning exactly when clipping changes nothing, and clipped values have none |
| LogParser.ParseSessions | java_dashboard/analytics-engine/src/main/java/com/pqcgateway/analytics/LogParser.java:43-85 | the loop returns one record for each segment that starts at a session header |
| LogParser.FoldIsSessions | java_dashboard/analytics-engine/src/main/java/com/pqcgateway/analytics/LogParser.java:55-82 | the fold over the seven locals equals the segmentation |
| LogParser.SessionsConcat | java_dashboard/analytics-engine/src/main/java/com/pqcgateway/analytics/LogParser.java:43-85 | parsing two logs joined at a header is joining their parses |
| LogParser.OneRecordPerHeader | java_dashboard/analytics-engine/src/main/java/com/pqcgateway/analytics/LogParser.java:58-82 | there are as many records as headers |
| LogParser.LastMatchWins | java_dashboard/analytics-engine/src/main/java/com/pqcgateway/analytics/LogParser.java:55-82 | record k field by field: the identifier of header k, and for each other field what the last line of its kind in that segment carries, or 0 or UNKNOWN if there is none |
| LogParser.SegmentsAreTheLog | java_dashboard/analytics-engine/src/main/java/com/pqcgateway/analytics/LogParser.java:55-82 | the segments in order are the whole log but for the lines before its first header |
| LabelMap.NormalizeIsJoinedWords | ai_module/label_map.py:39-49 | the substitutions and the strip give the words of the ASCII-filtered label joined by single blanks |
| LabelMap.NormalizeIsIdempotent | ai_module/label_map.py:39-49 | normalising twice is normalising once |
| LabelMap.VisibleCharactersSurvive | ai_module/label_map.py:39-49 | by code point: the ASCII characters that are not space survive, all and in order, with single blanks between them only |
| LabelMap.SeverityOfWords | ai_module/label_map.py:15-58 | which words, joined by blanks, have which severity, label by label; all others are refused |
| LabelMap.SameWordsSameSeverity | ai_module/label_map.py:39-58 | labels with the same words have the same severity, or are refused alike |

## Left out

- Sockets, `sctp_connectx`, heartbeats, environment and file reading: byte channels and answers in events stand for them.
- OpenSSL and liboqs internals: only their laws, and that any call may fail.
- Opening and reading the key files: `KeyFiles` is what was found in them.
- PathSerial.KernelPathMatchesFlagIff: speaks of the moments between ticks; inside a tick the kernel is switched before the flag is stored, so the two differ for that step.
- MetricLine.LineRoundTrip: infinities, not-a-number and the sign of a negative zero are not modelled, nor is what `float()` accepts beyond plain decimals.
- LogParser.ParseSessions: lines arrive classified by the first pattern that finds a match; the regular expressions and number overflow are not modelled.
- Floating-point rounding in `metrics.c`: the statistics are over the reals.
- Bytes a kernel retransmits or reorders below the stream, and a path change the kernel makes by itself.
- The report at the end of a session, the jitter, inter-arrival and throughput values, logging and timing: single assignments with nothing to relate.
- Key wiping, freeing and the unlocked session counter.
- The dashboards, the Spring server, the metrics store, the training, data and simulation scripts and the LLM files.
- `parsePathEvents` and `known_labels`: easy members beside the ones proved.
