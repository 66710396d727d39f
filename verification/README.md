# Verified model of the protocol and state code

A Dafny 4.11 model of the stateful TypeScript code of this repository, with proofs of what that
code promises. `dafny verify dfyconfig.toml` checks all of it.

Each source file becomes one module (the store and the hooks of the idempotency plugin share one), and
where the source updates objects in place the module has a class whose methods follow the source
statement by statement. A method is proved equal to a function on the object's abstract value
(`View()`), and the promises are lemmas about that function: over one call, over pairs of calls that
undo each other, and over every run.

* **Secure UDP.** `Crypto` holds the cryptography as a record of functions with the laws that are
  needed of it (Diffie-Hellman commutes on genuine key pairs, authenticated decryption succeeds
  exactly on what was sealed). `CipherState`, `SymmetricState` and `HandshakeState` are the Noise XX
  machine (Noise Protocol Framework, revision 34); `NoiseAgreement`, `NoiseKeys` and `ChannelBinding`
  are its theorems. `ReplayFilter` and `NoiseSession` are the transport session; `DatagramLink` puts two
  sessions and a hostile network together. `PeerTable` is the server's table as a state machine over
  its events, `PeerTableSafety` and `PeerTableTheorems` its invariants over every run,
  `PeerTableAgreement` what an honest client gets from it, `PeerTableCap` which sessions the cap
  costs, `PeerTableAge` which peers the sweep does, `PeerTablePending` when the pending cap is passed,
  `PeerTableLifetime` how long a handshake lasts, `PeerTableClosing` what closing a session does,
  `PeerTableDelivery` and `PeerTableSending` what a server delivers and sends over a whole run, and
  `SecureUdp` the server object.
  `ReplayWindow` is the nonce ring of the pre-shared-key datagrams.
* **Time-driven stores.** `CircuitBreaker`, `RateLimiter`, `Idempotency` (with `IdempotencySafety`)
  and `ResponseCache`, over `OrderedMap`, a JavaScript `Map` as an insertion-ordered sequence with
  unique keys. The clock is an integer that each event carries.
* **Parsers and printers.** `Multipart`, `IpFilter` (with `Bits`, `Text`, `IpTokens`,
  `IpFilterTheorems`, `IpLiterals` and `CidrTheorems`), `SseFormat` and `SseChannel` (with the
  client's parser of section 9.2.6 of the WHATWG HTML Standard), and `JsonSchema`, `JsonErrors`,
  `JsonSerialize` and `JsonPruning` over `JsonText` (JSON text and a reader for it).

## What the code does that its comments do not say

* A peer that completes a re-handshake is added to `established` a second time
  (ts/net/secure-udp.ts:151-154), so the counter drifts upward. `CountersAreAccurate` gives the drift,
  `CapIsExact` what the cap does with the counter as it is, and `CapBitesEarly` a run in which a
  session is evicted although there is room for it. Peers re-handshaking on a live session are never
  evicted as pending (line 103), so `pending` can pass `maxPending`, the promised maximum (line 43):
  `CapIsPassedExactly` says when, `RehandshakesPassTheCap` gives a run in which it does, and
  `HalfOpenIsBounded` and `NewcomerMeetsTheBound` how far it goes.
* A handshake datagram sets `lastSeen` (ts/net/secure-udp.ts:149) before anyone is authenticated.
  For a peer with a session and no handshake in progress it does so if and only if the datagram has
  the size of a first message (`SizeRefreshesIdle`), so anyone who sends from its address keeps its
  session from being swept (`AnyoneKeepsASessionAlive`).
* `close` on a session handle forgets whoever is at the handle's address (ts/net/secure-udp.ts:84-86),
  so a handle that outlived its session closes its successor's: `OldHandleClosesTheSuccessor`.
* The breaker says that a single probe decides a half-open episode
  (plugins/circuit-breaker/src/breaker.ts:22-24). One probe is let out, but the next result of any
  call decides: `EpisodeEndsAtNextResult`, and `OldCallDecides` for a run.
* The idempotency store says it can never pass its ceiling (plugins/idempotency/src/store.ts:37-38,
  95-96), but `complete` makes no room: `CeilingHoldsUnless` says exactly when an event passes it,
  `CeilingOverRuns` by how much at most over a run, and `CeilingCanBePassed` gives one that does.
* A fixed window admits up to `2 * max - 1` hits in an interval of one window length, never
  `2 * max`; both the bound and that it is met are proved.
* The IPv6 parser checks that an embedded dotted quad is last in its half of the text, not in the
  text, so it takes `1.2.3.4::` and `1.2.3.4::5`, which section 2.2 of RFC 4291 does not allow.
  `Rfc4291Exactly` says for every text taken whether it has one of the RFC's forms.
* The response cache calls itself least-recently-written (plugins/cache/src/store.ts:35-36) but drops
  the least recently used key, as the comment at line 56 says. `OnlyHitsBreakWriteOrder` says which
  events make the two differ, `DropsLeastWritten` that without them they do not, and
  `HitSavesTheOlderWrite` gives a run in which the older write stays.
* A fixed-window count is a position in the window only while the key's bucket is neither reset nor
  dropped for room: `PositionIffUndisturbed`. Whoever can send other keys can have it dropped, and in
  a store for one key `EvictionRefillsTheBudget` admits any number of hits at one moment.
* `serialize` reads declared properties through the prototype chain (ts/http/schema.ts:238), while
  validation looks at own properties only. A declared optional property named like an inherited one
  (`constructor`, `toString`, ...) is written for an object that does not have it:
  `SerializationPreservesValidity` says exactly when the text denotes the pruned value, and
  `InheritedNameBreaksValidity` and `InheritedNameBreaksJson` give the inputs.

## Model

| member | source | states |
|---|---|---|
| Crypto.LawfulSuiteExists | ts/net/noise/cipher-state.ts:31-59 | the laws assumed of the cryptography can all hold at once, so no theorem below is vacuous |
| ByteStrings.Uint64IsCanonical | ts/net/noise-session.ts:59-70 | eight bytes read as a counter and written back are the same eight bytes |
| ByteStrings.BytesAreBigEndian | ts/net/noise-session.ts:59-60 | a counter is written with its most significant byte first |
| CipherStates.DecryptInvertsEncrypt | ts/net/noise/cipher-state.ts:31-59 | decrypting accepts a text as a plaintext exactly when encrypting that plaintext in the same state gives that text, both states then advance alike, and a keyed text is 16 bytes longer |
| CipherStates.CipherState.EncryptWithAd | ts/net/noise/cipher-state.ts:31-42 | result and new counter of `Encrypt`: pass-through without a key, an error at the reserved counter, one counter per message |
| CipherStates.CipherState.DecryptWithAd | ts/net/noise/cipher-state.ts:45-59 | result and new counter of `Decrypt`; a failure leaves the counter alone |
| CipherStates.OpenInvertsSeal | ts/net/noise/cipher-state.ts:68-89 | at an explicit counter a text opens as a plaintext if and only if it is what sealing that plaintext gives under the same key, counter and data, and a keyed text is 16 bytes longer |
| CipherStates.CipherState.DecryptAt | ts/net/noise/cipher-state.ts:68-78 | returns a plaintext exactly when the text is what sealing it at that counter with that data gives |
| CipherStates.CipherState.EncryptAt | ts/net/noise/cipher-state.ts:80-89 | what it makes opens at that counter with that data as the plaintext, and is 16 bytes longer under a key |
| SymmetricStates.SymmetricState.DoMixKey | ts/net/noise/symmetric-state.ts:39-43 | chaining key and cipher key are the two outputs of HKDF on the old chaining key and the input, the cipher starts at counter 0 and the transcript hash is kept |
| SymmetricStates.SymmetricState.DoEncryptAndHash | ts/net/noise/symmetric-state.ts:50-54 | encrypts under the transcript hash and then absorbs the ciphertext |
| SymmetricStates.SymmetricState.DoDecryptAndHash | ts/net/noise/symmetric-state.ts:56-60 | decrypts under the transcript hash and then absorbs the ciphertext; a failure absorbs nothing |
| SymmetricStates.SymmetricState.DoSplit | ts/net/noise/symmetric-state.ts:63-66 | two new cipher objects, distinct, with the two transport keys |
| HandshakeStates.HandshakeState.DoWriteMessage | ts/net/noise/handshake-state.ts:68-90 | message, state and transport of `WriteMessage`, including the state a failed token leaves behind |
| HandshakeStates.HandshakeState.DoReadMessage | ts/net/noise/handshake-state.ts:94-117 | payload, state and transport of `ReadMessage`, including every error and the partly advanced state it leaves |
| HandshakeStates.HandshakeState.DoMixDh | ts/net/noise/handshake-state.ts:119-139 | which pair of keys each token mixes, by role |
| HandshakeStates.HandshakeState.DoFinish | ts/net/noise/handshake-state.ts:141-158 | the transport pair, swapped for the responder; the ephemeral is dropped |
| HandshakeStates.FinishedForgets | ts/net/noise/handshake-state.ts:141-158 | the end that hands out transport keys has no ephemeral key left, and zeros where the remote keys were |
| NoiseAgreement.SealThenOpen | ts/net/noise/symmetric-state.ts:50-60 | what one symmetric state encrypts, an equal one decrypts, and both end equal |
| NoiseAgreement.DhTokenMirrors | ts/net/noise/handshake-state.ts:119-139 | the two ends compute the same secret for every DH token although they use different halves of the keys |
| NoiseAgreement.TokensMirror | ts/net/noise/handshake-state.ts:75-85 | any token list both ends can run, written by one and read by the other, leaves their symmetric states equal and returns the rest of the message untouched |
| NoiseAgreement.FirstTwoMessages | ts/net/noise/handshake-state.ts:66-117 | the first two messages are accepted exactly when they fit the message limit, whatever the third is |
| NoiseAgreement.XxAgreement | ts/net/noise/handshake-state.ts:66-158 | for all genuine keys, prologues and payloads: the three relayed messages are all accepted if and only if the payloads fit, and then both ends have each other's payloads and static keys, equal handshake hashes and swapped-equal keys |
| NoiseKeys.XxIsSpelledOut | ts/net/noise/handshake-state.ts:66-158 | for all genuine keys and payloads that fit, the three messages, the handshake hash and both ends' transport keys are what the XX pattern spells out with hash, HKDF, DH and AEAD alone: ee, es and se mixed in that order into the padded protocol name, and every sealed field under its key, its counter and the transcript before it |
| NoiseKeys.SecondSpelled | ts/net/noise/handshake-state.ts:68-90 | msg2 of any responder in that state: its ephemeral key, its static key sealed under ee, the payload under es |
| NoiseKeys.ThirdSpelled | ts/net/noise/handshake-state.ts:68-90 | msg3 of any initiator in that state: its static key sealed under es at counter 1, the payload under se, and the transport keys split off |
| ChannelBinding.ChainBinds | ts/net/noise/symmetric-state.ts:45-47 | equal transcript hashes come from equal transcripts, unless two inputs hashed in these runs collide |
| ChannelBinding.PiecesRejoin | ts/net/noise/handshake-state.ts:98-114 | the pieces of a message that enter the transcript are the whole message |
| ChannelBinding.FinishedHash | ts/net/noise/handshake-state.ts:141-158 | the handshake hash of a finished end, in either role, is the hash chain over its prologue and the three messages |
| ChannelBinding.HandshakeHashBinds | ts/net/noise/handshake-state.ts:31-34 | two finished ends, honest or not to each other, have equal handshake hashes if and only if they had the same prologue and saw the same three messages, barring a collision in these runs |
| ReplayFilters.ReplayFilter.DoCheck | ts/net/noise-session.ts:18-31 | the pruning loop and the three tests amount to `Check` on the set and the high-water mark |
| ReplayFilters.CheckRefines | ts/net/noise-session.ts:18-31 | one check answers as an unbounded memory would: true exactly when the counter is new and less than 1024 behind the highest, although pruning uses the old mark |
| ReplayFilters.FilterRefinesHistory | ts/net/noise-session.ts:13-31 | the same for every sequence of checks |
| ReplayFilters.StoredIsBounded | ts/net/noise-session.ts:15-31 | after any sequence of checks at most 2 * 1024 counters are stored |
| ReplayFilters.BoundIsAttained | ts/net/noise-session.ts:15-31 | a sequence after which exactly 2 * 1024 are stored |
| NoiseSessions.NoiseSession.DoSeal | ts/net/noise-session.ts:52-63 | datagram and counter of `Seal`; the reserved counter is refused |
| NoiseSessions.NoiseSession.DoOpen | ts/net/noise-session.ts:67-81 | plaintext and filter of `Open`: only an authenticated datagram reaches the filter |
| DatagramLink.GenuineArrival | ts/net/noise-session.ts:67-81 | a datagram of the peer is delivered, under its own counter and with its own plaintext, exactly when it was not delivered before and the highest delivered counter is less than 1024 ahead |
| DatagramLink.EmittedDatagramsDiffer | ts/net/noise-session.ts:52-63 | no two datagrams of a session are equal |
| DatagramLink.OpenedIsEmitted | ts/net/noise-session.ts:67-81 | a datagram that opens as what an end sealed under that number is byte for byte that end's datagram |
| DatagramLink.ComesFromPeer | ts/net/noise-session.ts:67-81 | when nothing opens but what one of the two ends sealed, what authenticates at an end was emitted by the other, never that end's own datagram sent back |
| DatagramLink.RunKeepsSound | ts/net/noise-session.ts:34-82 | under any interleaving of sends and of arrivals that reorder, duplicate, drop, reflect or inject: counters never repeat, what is delivered was sealed by the peer under that counter, and at most once |
| DatagramLink.SessionsAreSafe | ts/net/noise-session.ts:34-82 | the same from two new sessions on paired transports with a key for each direction |
| DatagramLink.HandshakeThenSessions | ts/net/noise/handshake-state.ts:141-158 | the sessions a relayed XX handshake produces have that safety, so handshake and transport compose |
| PeerTable.EvictionKeepsOthers | ts/net/secure-udp.ts:129-146 | making room brings no unknown key into the table and leaves a known peer that has no handshake where it was |
| PeerTableTheorems.OnlyOldestHalfOpenGoes | ts/net/secure-udp.ts:101-109 | making room removes a peer if and only if the pending cap is reached and it is the oldest half-open one; every other, re-handshaking or not, keeps its record |
| PeerTableSafety.StepBounded | ts/net/secure-udp.ts:89-205 | every event (datagram, sweep, send, close of a session or of the server) keeps the accounting and the bounds |
| PeerTableSafety.RunBounded | ts/net/secure-udp.ts:89-205 | every run keeps them |
| PeerTableTheorems.CountersAreAccurate | ts/net/secure-udp.ts:91-109 | in every reachable state `pending` is the number of peers with a handshake in progress, every stored peer has a handshake or a session, and `established` is the number of sessions plus the re-handshakes completed since the last close |
| PeerTableTheorems.HalfOpenIsBounded | ts/net/secure-udp.ts:128-166 | in every reachable state first handshakes number at most max(1, maxPending), and `pending` at most max(maxPending, R + 1) with R peers re-handshaking |
| PeerTablePending.CapIsPassedExactly | ts/net/secure-udp.ts:128-168 | in every state with exact accounting an event takes `pending` past the cap, or further past it, if and only if a peer with no handshake in progress sends an acceptable first message while re-handshakes alone reach the cap; it then rises by one |
| PeerTablePending.NewcomerMeetsTheBound | ts/net/secure-udp.ts:129-137 | when that peer is unknown, the bound of R + 1 with R peers re-handshaking is met |
| PeerTablePending.RehandshakesPassTheCap | ts/net/secure-udp.ts:138-146 | a run of a server for one handshake: two clients with sessions re-handshake at once and `pending` is 2, and a newcomer makes it 3 |
| PeerTableTheorems.SessionsAreCapped | ts/net/secure-udp.ts:150-157 | sessions never exceed max(maxSessions, 1 + the largest R so far); without re-handshakes max(1, maxSessions), and then both counters are exact |
| PeerTableCap.CapIsExact | ts/net/secure-udp.ts:150-157 | in every state an event that opens a session leaves the others' sessions unchanged and in order while the count stays within the cap, and otherwise costs exactly the earliest-inserted one at rest; the opened one stays |
| PeerTableCap.EarliestSessionIsEvicted | ts/net/secure-udp.ts:113-120 | in a run without re-handshakes such an event keeps every other session while that makes no more than maxSessions, and otherwise costs exactly the earliest-inserted one |
| PeerTableCap.OpenedEstablishes | ts/net/secure-udp.ts:147-158 | a datagram opens a session only by completing a handshake its peer already had in the table |
| PeerTableCap.CapBitesEarly | ts/net/secure-udp.ts:151-155 | with room for two sessions, an honest client that has handshaken twice is alone in the table and loses its session to the next client |
| PeerTableAge.RefreshesIffRead | ts/net/secure-udp.ts:147-167 | for a peer with a session, a handshake datagram sets `lastSeen` if and only if the handshake it is fed to reads it, and the session stays unless a new one is completed |
| PeerTableAge.SizeRefreshesIdle | ts/net/secure-udp.ts:138-149 | with no handshake in progress that is decided by the datagram's size alone, and the session never changes |
| PeerTableAge.AnyoneKeepsASessionAlive | ts/net/secure-udp.ts:147-149 | in every reachable state a session with no handshake in progress that is due to be swept outlives the sweep if and only if a handshake datagram sent in its peer's name in between has the size of a first message |
| PeerTableAge.TimerSweepsIffOld | ts/net/secure-udp.ts:187-193 | the timer keeps a peer, as it is, if and only if it was seen within the session's lifetime |
| PeerTableTheorems.UnauthenticatedInputKeepsSessions | ts/net/secure-udp.ts:128-168 | a handshake datagram that completes no handshake leaves every live session in the table, unreplaced and in order, also at the pending cap |
| PeerTableTheorems.NewcomerIsAdmitted | ts/net/secure-udp.ts:129-137 | an unknown address is in the table and answered after its first datagram if and only if that datagram is an acceptable first message, however full the table is |
| PeerTableTheorems.StepAwaits | ts/net/secure-udp.ts:147-167 | between events every handshake in the table has been answered and awaits the third message, and only a peer already re-handshaking completes a re-handshake |
| PeerTableTheorems.SweepKeeps | ts/net/secure-udp.ts:187-193 | deleting while iterating removes exactly the peers last seen before the cutoff and keeps the order |
| PeerTableTheorems.RunReaches | ts/net/secure-udp.ts:122-205 | every state a run leads to meets the invariant the theorems above start from |
| PeerTableAgreement.ClientIsAuthenticated | ts/net/secure-udp.ts:122-169 | an honest client at any address without a handshake in progress, known or not and also at both caps, gets the second message behind the tag 1 in answer to its first; and whenever its handshake is still in the table, its third opens a session there that is the other end of its own, under its own public key, and the cap does not evict it |
| PeerTableAgreement.RejectedTransportChangesNothing | ts/net/secure-udp.ts:171-178 | a transport datagram that delivers nothing changes nothing in the table, not even `lastSeen` |
| PeerTableAgreement.SealedIsDelivered | ts/net/secure-udp.ts:171-178 | a datagram sealed by the other end is delivered exactly when its counter passes that session's replay filter, and then only that peer's filter and `lastSeen` change |
| PeerTableLifetime.HandshakeOutlives | ts/net/secure-udp.ts:101-109 | over any run in which nothing comes from its address, nobody closes it and it is not old enough to sweep, a handshake in progress stays in the table if it is a re-handshake, or if fewer than `maxPending` handshakes go after it, counting those the run asks room for |
| PeerTableLifetime.OldestOutlivesExactly | ts/net/secure-udp.ts:129-137 | against a run of newcomers the oldest half-open peer is left if and only if the handshakes in progress and the newcomers together are within the cap |
| PeerTableLifetime.HonestClientGetsIn | ts/net/secure-udp.ts:122-169 | from first datagram to session: an honest client gets its paired session over any such run, if the server knows it or fewer than `maxPending` re-handshakes and newer handshakes are in its way |
| PeerTableDelivery.RunIsConsistent | ts/net/secure-udp.ts:122-205 | every event of a server (handshakes, re-handshakes, deliveries, sends, sweeps, evictions, closings) keeps each session's filter a memory of exactly what was delivered to that session |
| PeerTableDelivery.DeliveriesAreLogged | ts/net/secure-udp.ts:171-178 | what that memory is of is exactly what the server hands to `onMessage` |
| PeerTableDelivery.NothingIsDeliveredTwice | ts/net/secure-udp.ts:122-205 | over every run of a server no session is delivered a counter twice, so a datagram is delivered twice only if it authenticates in two different sessions |
| PeerTableDelivery.NewIsDelivered | ts/net/secure-udp.ts:171-178 | after every run a datagram sealed by the other end of the session at its address is delivered if and only if its counter was not delivered to that session before and is less than 1024 behind all that were |
| PeerTableSending.EverySendHasItsOwnCounter | ts/net/secure-udp.ts:79-83 | over every run of a server, through deliveries, re-handshakes, sweeps, evictions and closings, and on handles whose peer was dropped too: the k-th datagram a session sends is the tag 2, k in eight bytes, and the plaintext sealed under k with the session's sending key, so no two share a counter |
| PeerTableSending.SendsAreLogged | ts/net/noise-session.ts:52-63 | none is missing: a send adds one datagram with its plaintext unless the reserved counter is reached |
| PeerTableClosing.CloseForgetsTheAddress | ts/net/secure-udp.ts:84-97 | closing removes the peer at the address and no other, keeps the others' order and records, and gives back `pending` if the record had a handshake and `established` if it had a session |
| PeerTableClosing.ClosedIsSilent | ts/net/secure-udp.ts:171-173 | after a close, over any run in which no handshake from the address completes, a transport datagram from there delivers nothing and changes nothing |
| PeerTableClosing.OldHandleClosesTheSuccessor | ts/net/secure-udp.ts:84-86 | a run: a client handshakes at an address, and a close on any handle for that address removes it |
| SecureUdp.SecureUdpServer.DoForget | ts/net/secure-udp.ts:91-97 | the record at the key goes from the map, the others stay in order, and each counter it held is given back |
| SecureUdp.SecureUdpServer.DoEvictOldestPending | ts/net/secure-udp.ts:101-109 | the loop drops the first half-open record of the map order, and no other |
| SecureUdp.SecureUdpServer.DoEvictOldestSession | ts/net/secure-udp.ts:113-120 | the loop drops the first settled session that is not the exception |
| SecureUdp.SecureUdpServer.DoAdmit | ts/net/secure-udp.ts:129-146 | new record, renewed record or neither, with the room made for it and the counter |
| SecureUdp.SecureUdpServer.DoFeed | ts/net/secure-udp.ts:147-167 | reads, establishes or answers, and abandons on any fault, on a shared mutable record |
| SecureUdp.SecureUdpServer.DoOnDatagram | ts/net/secure-udp.ts:122-179 | the whole table and the reply of one datagram, as the state machine has it; one that is empty or has another tag is ignored |
| SecureUdp.SecureUdpServer.DoSweep | ts/net/secure-udp.ts:187-193 | the table after the interval's sweep |
| SecureUdp.SecureUdpServer.DoSend | ts/net/secure-udp.ts:79-83 | the datagram is the tag, the session's counter and the plaintext sealed under it; the shared record's counter moves by one, in the table or not, and at the reserved counter it is refused |
| SecureUdp.SecureUdpServer.DoClose | ts/net/secure-udp.ts:199-205 | an empty table and zero counters |
| ReplayWindows.ReplayWindow.constructor | ts/net/secure-datagram.ts:61-64 | an empty ring of max(1, max) slots |
| ReplayWindows.ReplayWindow.Accept | ts/net/secure-datagram.ts:67-76 | refused exactly when the nonce is among the last `max` accepted ones; the set is exactly those, and never larger than `max` |
| ReplayWindows.RingAdvances | ts/net/secure-datagram.ts:70-74 | writing at the head and advancing it keeps the ring the last `max` accepted nonces, oldest at the head |
| ReplayWindows.ReplaysAreFarApart | ts/net/secure-datagram.ts:50-76 | over any run a nonce is accepted again only after `max` others |
| CircuitBreaker.Breaker.DoAllow | plugins/circuit-breaker/src/breaker.ts:46-61 | admission and new state of `OnAllow` |
| CircuitBreaker.Breaker.DoSuccess | plugins/circuit-breaker/src/breaker.ts:69-76 | new state of a success in any state, late ones included |
| CircuitBreaker.Breaker.DoFailure | plugins/circuit-breaker/src/breaker.ts:78-92 | new state of a failure in any state, late ones included |
| CircuitBreaker.Breaker.CooldownSeconds | plugins/circuit-breaker/src/breaker.ts:64-67 | zero exactly when a call would be let through or a probe is out; otherwise the least whole number of seconds that covers the cooldown |
| CircuitBreaker.BreakerRefinesJournal | plugins/circuit-breaker/src/breaker.ts:46-118 | over every interleaving the fields agree with a journal of outcomes: failures and total count what was recorded outside half-open since the window restarted, and probing holds exactly in half-open |
| CircuitBreaker.CooldownIsRespected | plugins/circuit-breaker/src/breaker.ts:104-109 | after opening at t, whatever follows, no call is admitted before t + resetTimeoutMs |
| CircuitBreaker.OneProbePerEpisode | plugins/circuit-breaker/src/breaker.ts:46-61 | in every reachable state a half-open breaker admits nobody: the one admitted call is the one that made it half-open |
| CircuitBreaker.EpisodeEndsAtNextResult | plugins/circuit-breaker/src/breaker.ts:69-82 | a half-open episode outlasts any number of refused calls and ends with the next success or failure, whichever call that belongs to |
| CircuitBreaker.OldCallDecides | plugins/circuit-breaker/src/breaker.ts:69-82 | a run in which the result of a call admitted before the breaker opened closes or reopens it while the probe is out |
| CircuitBreaker.TripsExactlyAtThreshold | plugins/circuit-breaker/src/breaker.ts:78-92 | in every reachable closed state an event opens the breaker if and only if it is a failure after which the journal's window has at least the minimum of outcomes and its share of failures is at least the threshold |
| OrderedMap.DeleteIsExact | plugins/cache/src/store.ts:69-71 | deleting a key of a `Map` removes it and no other |
| OrderedMap.PutIsExact | plugins/ratelimiter/src/store.ts:46-47 | setting a key of a `Map` changes it and no other, and grows the map exactly when it was absent |
| OrderedMap.KeepIsExact | plugins/ratelimiter/src/store.ts:65-70 | a sweep keeps exactly the live keys |
| OrderedMap.FitIsExact | plugins/ratelimiter/src/store.ts:74-81 | capacity eviction changes no surviving key |
| RateLimiter.MemoryStore.DoHit | plugins/ratelimiter/src/store.ts:41-54 | table and answer of `Hit` |
| RateLimiter.MemoryStore.DoCapacityEvict | plugins/ratelimiter/src/store.ts:74-81 | expired keys go first, then the oldest, until there is room |
| RateLimiter.HitIsExact | plugins/ratelimiter/src/store.ts:41-54 | a hit puts exactly the next count of its window in the table, changes no other key except by dropping it, and keeps the ceiling |
| RateLimiter.HitAnswersItsWindow | plugins/ratelimiter/src/store.ts:41-54 | a hit is answered with the count and the end of the window that is running, which it does not prolong, or of a new one |
| RateLimiter.SweepIsExact | plugins/ratelimiter/src/store.ts:65-70 | the sweep forgets exactly the windows that have ended |
| OrderedMap.EvictedIffOld | plugins/ratelimiter/src/store.ts:74-81 | after capacity eviction a key is left if and only if it is live and fewer than maxKeys live ones, itself among them, are no older |
| RateLimiter.ExpiredThenOldestGo | plugins/ratelimiter/src/store.ts:44-47 | so a new window at the ceiling costs the expired keys and the oldest live ones, and no others |
| RateLimiter.TableIsBounded | plugins/ratelimiter/src/store.ts:72-81 | no run passes max(1, maxKeys) keys |
| RateLimiter.CountsArePositions | plugins/ratelimiter/src/store.ts:41-54 | for a key not reset or evicted, every answered count is the hit's position in its window, whenever sweeps run and whatever other keys do |
| RateLimiter.PositionIffUndisturbed | plugins/ratelimiter/src/store.ts:41-58 | for a key whose window is running, a later hit in that window is counted at its position if and only if the bucket was neither reset nor dropped in between |
| RateLimiter.EvictionRefillsTheBudget | plugins/ratelimiter/src/store.ts:74-81 | for every n and every limit of at least 1, a store for one key admits n hits on a key at a single moment when another key is hit in between |
| RateLimiter.AtMostTwiceMax | plugins/ratelimiter/src/rate-limit.ts:108 | at most 2 * max - 1 hits are admitted in any half-open interval of one window length |
| RateLimiter.StoreAdmitsAtMostTwiceMax | plugins/ratelimiter/src/store.ts:28-82 | the same of the store itself, from empty, among all other keys' traffic |
| RateLimiter.StoreMeetsTheBound | plugins/ratelimiter/src/store.ts:28-82 | from an empty store of any ceiling, a run of one key's hits in time order of which exactly 2 * max - 1 are admitted in one window length |
| RateLimiter.TwiceMaxLessOneIsMet | plugins/ratelimiter/src/rate-limit.ts:108 | for every max of at least 1 and window of at least 2 ms, a run of hits in time order in which exactly 2 * max - 1 are admitted in such an interval |
| Idempotency.MemoryStore.DoBegin | plugins/idempotency/src/store.ts:54-65 | table and answer of `Begin` |
| Idempotency.MemoryStore.DoCapacityEvict | plugins/idempotency/src/store.ts:97-104 | expired slots first, then the oldest |
| Idempotency.IdempotencyPlugin.DoPreHandler | plugins/idempotency/src/idempotency.ts:43-69 | the hook's decision, the store and the reservations after it |
| Idempotency.IdempotencyPlugin.DoOnSend | plugins/idempotency/src/idempotency.ts:71-104 | the store and the reservations after a response; below 500 the slot holds the response's own status, content type, body and headers but cookies |
| IdempotencySafety.BeginIsExact | plugins/idempotency/src/store.ts:54-65 | `begin` answers new exactly when no live slot has the key, then reserves it and leaves every other slot as it was or drops it; otherwise it changes nothing |
| IdempotencySafety.OnSendIsExact | plugins/idempotency/src/idempotency.ts:71-104 | a completion records the response under the owner's fingerprint, a server error frees the key, and no other key is touched |
| IdempotencySafety.AtMostOneOwner | plugins/idempotency/src/idempotency.ts:43-104 | in every interleaving in which no reservation expires or is evicted before its owner finishes, no two requests own one key, and every owner's reservation is in the store |
| IdempotencySafety.WhoRuns | plugins/idempotency/src/idempotency.ts:43-69 | a keyed request runs the handler if and only if no live slot has its key; while another owns the key it is answered 409 for the same parameters and 422 for others |
| IdempotencySafety.ExpiredReservationIsTakenTwice | plugins/idempotency/src/store.ts:56-63 | without that premise it fails: a request that outlives its lock shares the key with the next |
| IdempotencySafety.CompletionRecords | plugins/idempotency/src/idempotency.ts:71-104 | after a response below 500 the record stands until its time; after a server error the key is free |
| IdempotencySafety.RecordIsReplayed | plugins/idempotency/src/idempotency.ts:51-68 | as long as the record lives, every later request with its key gets that record for the same fingerprint and 422 for any other, whatever else happens |
| IdempotencySafety.RetryGetsTheResponse | plugins/idempotency/src/idempotency.ts:71-104 | after an owner's response below 500, every later request with its key, while the record lives, is answered with that status, content type, body and headers (cookies excepted) when its fingerprint is the owner's, and with 422 when not |
| IdempotencySafety.OnlyCookiesAreSkipped | plugins/idempotency/src/idempotency.ts:82-85 | what a replay leaves out is cookies, in any case and wherever they stand, and no other header |
| IdempotencySafety.WithoutAKey | plugins/idempotency/src/idempotency.ts:43-49 | a request that does not participate or has no key changes nothing and runs, or gets 400 when a key is required of it |
| IdempotencySafety.SweepIsExact | plugins/idempotency/src/store.ts:86-93 | the sweep forgets exactly the slots that have expired |
| IdempotencySafety.CeilingHoldsUnless | plugins/idempotency/src/store.ts:67-73 | an event keeps the store within max(1, maxKeys) if and only if it is not the completion of a dropped reservation into a full store |
| IdempotencySafety.CeilingOverRuns | plugins/idempotency/src/store.ts:54-73 | over every run the ceiling is passed by at most one slot for each such completion |
| IdempotencySafety.ExpiredThenOldestGo | plugins/idempotency/src/store.ts:62-63 | a new reservation at the ceiling costs the expired keys and the oldest live ones, and no others |
| IdempotencySafety.CeilingCanBePassed | plugins/idempotency/src/store.ts:67-73 | with room for one key, any two keyed requests and the first one's response leave two slots |
| ResponseCache.MemoryStore.DoGet | plugins/cache/src/store.ts:48-58 | entry and order after a get: expired entries go, hits move to the newest place |
| ResponseCache.MemoryStore.DoSet | plugins/cache/src/store.ts:60-67 | order after a set, with the oldest dropped past the cap |
| ResponseCache.MemoryStore.DoEvict | plugins/cache/src/store.ts:78-83 | deleting while iterating removes exactly the expired entries |
| ResponseCache.CacheAgreesWithHistory | plugins/cache/src/store.ts:37-84 | over every run map order is order of last use, every entry is the latest set for its key, and the size is within the cap |
| ResponseCache.HitIsLatestAndFresh | plugins/cache/src/store.ts:48-58 | a hit is the most recent set for the key and not expired, and a miss means there is none or it expired |
| ResponseCache.SweepAndDeleteAreExact | plugins/cache/src/store.ts:69-83 | the sweep forgets exactly the expired entries and a delete its key; no other changes |
| ResponseCache.OnlyTheLeastRecentlyUsedGoes | plugins/cache/src/store.ts:60-67 | a set drops another key only after `max` other distinct keys were used since that key's last use |
| ResponseCache.OnlyHitsBreakWriteOrder | plugins/cache/src/store.ts:48-83 | an event breaks the agreement of map order with the order of last writes if and only if it is a hit on an entry that is not the newest |
| ResponseCache.DropsLeastWritten | plugins/cache/src/store.ts:60-67 | after any run without such a hit, what a set drops past the cap was written before everything that stays |
| ResponseCache.HitSavesTheOlderWrite | plugins/cache/src/store.ts:48-67 | in a store for two, a hit on the entry written first makes the next set drop the one written after it |
| Bits.AndMask | plugins/ip-filter/src/cidr.ts:91-94 | and-ing with p ones above q zeros clears exactly the low q bits |
| Bits.OrIsPlus | plugins/ip-filter/src/cidr.ts:27 | or-ing into the bits a shift freed is adding |
| Text.JoinSplit | plugins/ip-filter/src/cidr.ts:20 | splitting loses nothing and leaves no separator in a part |
| Text.SplitJoin | plugins/ip-filter/src/cidr.ts:20 | splitting joined parts gives the parts back |
| IpFilter.DoParseV4 | plugins/ip-filter/src/cidr.ts:19-30 | the loop over octets computes `ParseV4` |
| IpFilter.DoParseV6 | plugins/ip-filter/src/cidr.ts:32-75 | halves, groups, padding and the folding loop compute `ParseV6` |
| IpFilterTheorems.QuadIsPositional | plugins/ip-filter/src/cidr.ts:19-30 | four parts joined by dots parse exactly when each is one to three digits of at most 255, to the base-256 positional value, below 2^32 |
| IpFilterTheorems.ParsedV4IsQuad | plugins/ip-filter/src/cidr.ts:19-30 | conversely, whatever parses is such a quad |
| IpFilterTheorems.V6TextIsPositional | plugins/ip-filter/src/cidr.ts:32-75 | every full, compressed or dotted-tail text, with or without a zone, parses exactly when its groups are well formed and number eight, or at most seven around a "::", to the base-65536 positional value, below 2^128 |
| IpFilterTheorems.ParsedV6IsText | plugins/ip-filter/src/cidr.ts:32-75 | conversely, whatever parses is such a text |
| IpTokens.OctetIs | plugins/ip-filter/src/cidr.ts:23-26 | a part of a quad is taken exactly when it is one to three decimal digits for at most 255, to that value |
| IpTokens.HexGroupIs | plugins/ip-filter/src/cidr.ts:49-51 | a group is taken exactly when it is one to four hexadecimal digits, to that value |
| IpTokens.NumeralIs | plugins/ip-filter/src/cidr.ts:104-106 | a prefix length, an octet and a group are the positional value of their digits |
| IpTokens.GroupsAre | plugins/ip-filter/src/cidr.ts:38-56 | a run without a dotted quad has exactly one group for each token, or none if one is malformed |
| IpTokens.QuadIsLast | plugins/ip-filter/src/cidr.ts:44-48 | a dotted quad that ends a run stands for the two halves of its value |
| IpTokens.QuadNowhereElse | plugins/ip-filter/src/cidr.ts:45 | and is refused anywhere else in the run |
| IpLiterals.TrimStrips | plugins/ip-filter/src/cidr.ts:79 | trimming removes exactly the white space around a text |
| IpLiterals.QuadLiteral | plugins/ip-filter/src/cidr.ts:78-89 | a dotted quad, with any white space around it, is the IPv4 address of its positional value |
| IpLiterals.V6Literal | plugins/ip-filter/src/cidr.ts:78-89 | every IPv6 text with any zone and white space around it is the address of its positional value p, collapsed to IPv4 exactly when p / 2^32 is 0xffff, and no address when its groups are malformed |
| IpLiterals.ParsedV6Literal | plugins/ip-filter/src/cidr.ts:78-89 | conversely, every literal with a colon that parses is such a text with that value |
| IpLiterals.ParsedQuadLiteral | plugins/ip-filter/src/cidr.ts:78-89 | and every one without is such a quad |
| IpLiterals.MappedCollapses | plugins/ip-filter/src/cidr.ts:84 | an IPv6 text is an IPv4 address if and only if its first five groups are zero and its sixth ffff, in any spelling, and then of its last two groups |
| IpLiterals.MappedQuad | plugins/ip-filter/src/cidr.ts:84 | "::ffff:" before any dotted quad is the same address as the quad |
| IpLiterals.Rfc4291Exactly | plugins/ip-filter/src/cidr.ts:32-70 | every text of the RFC's forms is taken, and a text that is taken has one of those forms if and only if no dotted quad stands before a "::" |
| IpLiterals.ShapeIsUnique | plugins/ip-filter/src/cidr.ts:35-41 | the text decides its halves and tokens, so that is a property of the text |
| IpLiterals.QuadBeforeCompressionIsTaken | plugins/ip-filter/src/cidr.ts:44-48 | every run that ends in a dotted quad, followed by "::" and any run that fits, is taken and is not of the RFC's forms |
| CidrTheorems.ParsedCidrIs | plugins/ip-filter/src/cidr.ts:97-112 | a block's text parses exactly when the address before "/" and the prefix length after it do, to that family and length, with the base the start of the aligned block the address is in |
| CidrTheorems.InParsedCidr | plugins/ip-filter/src/cidr.ts:97-120 | from text to membership: an address is in the block if and only if it is of the family of the address in the text and in the same stretch of 2^(bits - prefix) addresses |
| CidrTheorems.InCidrIsInterval | plugins/ip-filter/src/cidr.ts:115-120 | membership holds exactly when the family is the same and base <= ip < base + 2^(bits - prefix) |
| CidrTheorems.NestedOrDisjoint | plugins/ip-filter/src/cidr.ts:97-120 | any two blocks of one family are nested or disjoint |
| Multipart.BufferIndexOf | ts/http/forms.ts:54 | the first occurrence at or after a place, or -1 |
| Multipart.CutNext | plugins/multipart-storage/src/parser.ts:30-40 | the part cut at a place and where the scan goes on, or the end |
| Multipart.Parts | plugins/multipart-storage/src/parser.ts:18-52 | what the generator yields is the parts of the scan, in order, each with the name, file name and content type that stand in its header text and the data as cut |
| Multipart.ParseMultipart | ts/http/forms.ts:45-90 | the fields are exactly the names of the parts without a file name, each with the decoded data of the last part of that name, and the files are the other parts in order with their data |
| Multipart.SameFiles | ts/http/forms.ts:58-88 | the two implementations agree on every body: the form's files are exactly the yielded parts that have a file name |
| Multipart.SeparatorDoesNotOverlap | plugins/multipart-storage/src/parser.ts:21-23 | a separator whose boundary has no CR cannot begin inside itself |
| Multipart.DataEnds | plugins/multipart-storage/src/parser.ts:38-40 | data is cut at its own end exactly when it does not contain the separator |
| Multipart.HeaderEnds | plugins/multipart-storage/src/parser.ts:33-36 | header text is cut at its own end exactly when it has no blank line in it and does not end in CRLF |
| Multipart.ScanShifts | plugins/multipart-storage/src/parser.ts:29-51 | what a scan finds does not depend on what stands before it |
| Multipart.RoundTrip | plugins/multipart-storage/src/parser.ts:18-52 | for every parts, epilogue, boundary without CR and preamble that does not bring the first boundary forward: scanning the serialized body returns exactly those parts in order if and only if every part's header and data can be carried |
| Multipart.FormRoundTrip | ts/http/forms.ts:45-90 | parsing a form serialized from fields and files gives back exactly those, a later field over an earlier one of the same name, if every part can be carried |
| SseFormat.FormatEvent | plugins/sse/src/format.ts:13-25 | the frame built line by line is `Frame` |
| SseFormat.OneLineExact | plugins/sse/src/format.ts:28-30 | what is removed from a name or an id is every CR, LF and NUL and no other character, wherever it stands |
| SseFormat.SplitNormalises | plugins/sse/src/format.ts:23 | splitting data into lines and joining them with LF turns each CRLF, lone CR and LF into one LF, and nothing else, for every text |
| SseFormat.ParseFrame | plugins/sse/src/format.ts:13-30 | a standard client that reads a frame dispatches exactly the sent event, each of its line breaks as one LF and its name and id without CR, LF and NUL, and is ready for the next |
| SseFormat.ParseComment | plugins/sse/src/sse.ts:56 | a comment dispatches nothing and changes nothing, whatever its text |
| SseFormat.LfDataIsUnchanged | plugins/sse/src/format.ts:22-24 | data whose only line break is LF is received as it was sent |
| SseChannel.ChannelObject.DoPush | plugins/sse/src/channel.ts:18-28 | resolves the waiting pull, or buffers and drops the oldest past the maximum |
| SseChannel.ChannelObject.DoNext | plugins/sse/src/channel.ts:42-49 | the oldest buffered value, the end, or a wait |
| SseChannel.ChannelObject.DoClose | plugins/sse/src/channel.ts:30-38 | ends a waiting pull, once |
| SseChannel.RunSorts | plugins/sse/src/channel.ts:7-57 | over any interleaving with one consumer every pushed value is delivered, dropped or buffered, exactly one of them; the values the promises were resolved with are the delivered ones, in order; the buffer is the latest values and within its maximum |
| SseChannel.OnlyOverflowDrops | plugins/sse/src/channel.ts:25-26 | the buffer fails to grow, and so loses a value, once for each push into a full buffer and never else |
| SseChannel.ClosedDrains | plugins/sse/src/channel.ts:18-49 | a closed channel ignores what is pushed, hands out what it buffers in order, and then the end |
| SseChannel.CloseEndsTheWait | plugins/sse/src/channel.ts:30-38 | closing leaves no pull waiting |
| SseChannel.FramesParse | plugins/sse/src/format.ts:13-30 | parsing concatenated frames is receiving the messages one by one |
| SseChannel.SseEndToEnd | plugins/sse/src/channel.ts:7-57 | for every sequence of events and comments and any interleaving of push, next and close: parsing the frames the channel handed out yields the events of the messages taken, in order, and only overflow is missing |
| JsonText.JsonRoundTrip | ts/http/schema.ts:259-260 | `JSON.stringify` text is read back as the value it was written for, every escape included |
| JsonText.LawfulNumeralsExist | ts/http/schema.ts:256 | the law assumed of number printing can be met |
| JsonSchema.PatternCache.Compile | ts/http/schema.ts:16-24 | a cached or new pattern is the same compiled pattern, and the cache never passes 1024 entries |
| JsonSchema.Check | ts/http/schema.ts:94-128 | pushes exactly `Errors` onto the shared list, in order |
| JsonSchema.CheckObject | ts/http/schema.ts:141-168 | required, then declared, then undeclared properties, on the shared list |
| JsonSchema.CheckArray | ts/http/schema.ts:170-178 | every item's errors under its index |
| JsonSchema.CheckString | ts/http/schema.ts:180-207 | length, pattern with the input cap, and format errors |
| JsonSchema.CheckNumber | ts/http/schema.ts:209-224 | type, integer and range errors |
| JsonSchema.NoErrorsMeansConforming | ts/http/schema.ts:88-224 | the list is empty if and only if the value conforms, a relation without paths, messages or order: no custom message hides or invents an error |
| JsonErrors.ErrorsAreExact | ts/http/schema.ts:88-224 | the reported errors are exactly the problems that name a fault of the value, or of a declared property or an item in it: under that value's own path, in the schema's own words where it has them, and none is missing |
| JsonErrors.LengthIsUtf16 | ts/http/schema.ts:185-192 | a string's length counts UTF-16 units |
| JsonErrors.IntegersAreWhole | ts/http/schema.ts:214 | an integer is a whole number and no other |
| JsonSchema.Validate | ts/http/schema.ts:88-92 | the errors of a value, and that none means it conforms |
| JsonSerialize.DoSerialize | ts/http/schema.ts:227-262 | the text of `Serialize` for every schema and value |
| JsonSerialize.SerializeObject | ts/http/schema.ts:232-246 | the loop with its `first` flag writes the declared pairs with commas between them |
| JsonSerialize.SerializeDenotes | ts/http/schema.ts:227-262 | for every schema and value the text is read as the value `Seen`, or is no JSON when there is none |
| JsonSerialize.LawfulEngineExists | ts/http/schema.ts:227-262 | the laws assumed of the runtime can be met by one whose objects inherit `constructor` |
| JsonPruning.PrunedConforms | ts/http/schema.ts:226-262 | the pruned value of a valid value is valid under the same schema if and only if every property required of it is declared |
| JsonPruning.DeclaredForEveryValue | ts/http/schema.ts:226-262 | a schema that declares all it requires meets that condition for every value |
| JsonPruning.SeenIsOwn | ts/http/schema.ts:237-244 | for a valid value the text denotes the pruned value if and only if no missing declared property has an inherited name, at any depth |
| JsonPruning.SerializesAgain | ts/http/schema.ts:226-262 | serializing the pruned value writes the same text, for every schema and value |
| JsonPruning.SerializationPreservesValidity | ts/http/schema.ts:226-262 | for a valid value, from the text: it denotes the pruned value if and only if no missing declared property has an inherited name; that value is valid again if and only if every property required of it is declared; and serializing it changes nothing |
| JsonPruning.InheritedNameBreaksValidity | ts/http/schema.ts:238 | an optional number with an inherited name is written as null for an object without it, and the result is not valid |
| JsonPruning.InheritedNameBreaksJson | ts/http/schema.ts:238 | an untyped one is written as a word that is no JSON |

## Left out

- The native engine and the app, TCP, UDP and WebSocket layers over it: foreign calls whose contract the repository does not show.
- Real cryptography: AES-GCM, HKDF, SHA-256 and X25519 are functions with laws; memory is not wiped beyond what `FinishedForgets` says, and the test-only fixed ephemeral is not modelled. An ephemeral is a parameter of each write.
- Unforgeability and the absence of hash collisions are hypotheses about the run at hand (`UnforgedRun`: what opens was sealed under that key and number by one of the two ends; `NoCollision`), not laws of the suite: as laws over all byte strings they would be unsatisfiable. So is that the two directions of a session have different keys, which HKDF makes of one chaining key.
- Aliasing below a peer record: `PeerRecord` is a mutable object shared by the table and its handles, but the handshake and the session in it are values; the objects `HandshakeState` and `NoiseSession` are proved equal to those values.
- The client side of secure UDP (`connectSecureUdp`): retransmission, duplicate first messages and liveness.
- Callbacks (`onSession`, `onMessage`, the breaker's hooks) neither throw nor re-enter.
- One call reads the clock once, where the source may read it twice; timers are events of the run.
- `sealDatagram`, `openDatagram` and `keysEqual` of ts/net/secure-datagram.ts, which only compute values.
- Regular expressions over header text, UTF-8 decoding, schema patterns and formats: uninterpreted functions. A field name such as `__proto__` is an ordinary name here.
- `parseForm` and URL-encoded forms. `CutNext` is written once for the two loops, which spell it out alike.
- The rate limiter's headers and key function, the idempotency fingerprint and the header that marks a replay, the Redis and memcached stores, and a store write that fails.
- StoreAdmitsAtMostTwiceMax: for a key that is never reset or capacity-evicted while its window runs and a constant window, as `KeyUndisturbed` says; EvictionRefillsTheBudget shows there is no bound otherwise.
- HonestClientGetsIn: for runs in which no datagram comes from the client's address: a handshake datagram in its name that is not its third message abandons the handshake (ts/net/secure-udp.ts:161-166).
- NothingIsDeliveredTwice: whether a datagram can authenticate in two sessions is a question of their keys, and those are what HKDF makes of the handshakes.
- EverySendHasItsOwnCounter: a handle of a dropped peer sends in the session its record held then; one whose record got a new session sends in that.
- RetryGetsTheResponse: while the record neither expires nor is capacity-evicted, as `RecordLives` says.
- ErrorsAreExact: which errors there are, not how often each or in what order; `Check` has the list itself.
- AtMostOneOwner: for runs in which no reservation expires or is evicted before its owner finishes; ExpiredReservationIsTakenTwice shows the bound fails otherwise.
- RecordIsReplayed: while the record neither expires nor is capacity-evicted, as `RecordLives` says.
- XxAgreement: for key pairs that are genuine, that is, whose public halves belong to their private halves.
- NestedOrDisjoint: for blocks as `parseCidr` builds them (`ParsedCidrIs`).
- SSE events whose data is an object, heartbeats, a retry of 10^21 or more (printed with an exponent), the byte order mark a stream may start with, and more than one consumer of a channel. An early `return` of the consumer is `close`.
- Numbers in JSON are reals for which a printing law is assumed; NaN, infinities, `undefined` and functions as inputs are not modelled, and a value is never the very object a schema lists in its `enum`. Half surrogate escapes are not read.
- Schema messages as text: an error is the custom text, or a path and a fault. A per-property required message is looked up as an own property.
- `__proto__` as a declared property, whose inherited value is an object and not a function.
