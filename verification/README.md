# Howm in Dafny

A model of the stateful core of Howm, a peer-to-peer node, with proofs of what it is for:

- **Capability negotiation (P2P-CD).** Two nodes swap an OFFER and a CONFIRM, each filters
  through its own trust gate, and each ends with an active set and one scope per capability.
  `Scope`, `Negotiation`, `Agreement` and `ScopeExchange` hold the algebra; `Session` holds the session class and
  the two exchange procedures; `Protocol` puts two endpoints on two FIFO byte channels, in every
  interleaving and with either side able to stop at any step; `ProtocolResults` states what both
  sides end with, `Procedures` that the two procedures are the machine's node on every connection, and
  `Identity` whose permissions the outcome rests on. The messages really travel as bytes: `Cbor` is a byte encoder and decoder,
  `Codec` and `Wire` map messages to it, `WireSamples` spells some out, `ScopeForm` says which scopes it writes
  alike, `Transport` frames them.
- **Permissions.** `Access` is the group database with its recursive query, `AccessRuns` what every
  run of operations keeps, `AccessHistory` what is in the tables told from the operations alone,
  `Trust` the database used as the trust gate of a session.
- **Reachability and addresses.** `Monitor` is the WireGuard poll loop, `Addresses` the allocator.
- **Notifications and limits.** `Notifications`, and the two rate limiters `PushLimits` and
  `ApiLimits` against the bound of `RateLimits`, over `Windows`.
- **Tokens.** `Tokens` prints and parses invites and accept tokens, `Invites` issues and redeems
  them, `InviteRuns` says what any run of that gives, over `Text` and `Decimal`.
- **Messages and voice rooms.** `Conversations` and `Rooms`.
- Filters of all of these are held against `Selecting`, which says by places what a filtered list is.

Code that changes fields in place is a class or a loop here, proved against a function of its
inputs or old state; the theorems are about those functions, about runs, and about the machine.

## Conventions

- Time, fresh UUIDs, drawn keys and the bytes a peer sends are parameters. Hash-set and hash-map
  iteration picks any element, so results hold for every order.
- A Rust `String` on the wire is its UTF-8 bytes (`Str`), which is also what Rust compares;
  text tokens are `string`.
- A Rust error is `Err`, `Refused(..)` or `false`; its text is not modelled.
- `hide` statements only keep definitions out of a proof.

## Where the code differs from what one would expect

- The wire keeps extension keys below 3 apart from the limits only on the sending side: a scope
  with such a key is read back differently (`Codec.ScopeDecodes`), the two peers may then hold
  different key sets (`ProtocolResults.ScopeAgreement`), two different manifests can share a hash
  (`PersonalHash.LimitKeyCollision`; exactly when, `ScopeForm.WrittenAlike` and
  `PersonalHash.HashIgnoresForm`), and the "sorted keys" of the hash input need not be sorted
  (`PersonalHash.HashInputOrdered`). Each is stated with its exact condition on the declarations.
- The gate is asked about the peer id inside the remote's OFFER, not about the peer the session is
  for. Under a given gate the active names pass for the session's peer when that peer may have all
  that the claimed id may, and a name, short enough to frame, that only the claimed id may have can
  end up active (`Identity.GateDecides`); under every gate they pass exactly when the OFFER claims
  that peer's id (`Identity.ClaimDecides`; over database runs, `Trust.ActiveForSessionPeer`).
- Text, boolean and byte-string parameters are taken from the side that reconciles, so the two
  peers keep different values unless they declared the same one (`Scope.ReconcileCommutes`,
  `ScopeExchange.HeldScopesEqual`).
- A CapabilityMsg with a type between 1 and 5 is not read back as one (`Wire.MessageRoundTrip`).
- `transition` called directly can make a session Active with nothing agreed
  (`SessionRuns.DirectActivation`); the exchanges cannot.
- Pruning looks only at the front of the notification buffer, and its clock is the system's. After a
  step back a poll can return an expired entry standing behind an unexpired one
  (`Notifications.ClockStepBack`), or miss one that is unexpired again. The buffer is right over a
  whole run exactly when every operation moves the clock steadily (`Notifications.RunExact`); a clock
  that never steps back always does.
- The push limiter pops in the same way, and a step back can let one push too many through
  (`PushLimits.ClockStepBack`); exactly when it counts as the full history does, `PushLimits.RunExact`;
  exactly when the bound holds, `PushLimits.BoundedRun`; what holds under any clock,
  `PushLimits.HighWaterBound`.
- The API limiter reads the instant of a call before it takes the lock (node/daemon/src/api/auth_layer.rs:64-65), so a
  call can reach the bucket after a later one has purged it. Then more than the limit can pass
  within one window (`ApiLimits.OvertakenPasses`). It counts as the full history does exactly when
  nothing a purge drops comes back into the next window (`ApiLimits.RunExact`), which calls in the
  order of their instants always meet; exactly when every window holds no more than the limit,
  `ApiLimits.BoundedRun`; what holds in any order, `ApiLimits.HighWaterBound`.
- Replacing a group's rules is not atomic: a rejected update still drops the old rules and keeps the
  rows before the repeated name (`Trust.ReplacedRules`).
- Removing a peer from all groups leaves it the default tier (`Trust.RemovedPeerKeepsDefault`).
- Paging by `sent_at` skips messages when a page ends between two of the same millisecond, and never
  shows a message with a time of zero or less (`Conversations.PagingComplete`).
- A creator that invites itself is both member and invitee (`Rooms.CreatedDisjoint`).

## Model

| member | source | states |
|---|---|---|
| `Scope.Reconcile` | node/p2pcd-types/src/scope.rs:101-131 | the loop over the union of both key sets gives what reconciling has to (loosest limits within both, shared values met, others as declared) in whatever order it visits the keys |
| `Scope.TighterIsLoosest` | node/p2pcd-types/src/scope.rs:150-158 | the limit chosen allows exactly what both limits allow, 0 meaning no limit |
| `Scope.RestrictSelects` | node/p2pcd-types/src/scope.rs:161-178 | array filtering keeps exactly the elements the other side has, each place once and in order |
| `Scope.MergesOnly` | node/p2pcd-types/src/scope.rs:101-178 | one scope only has the loosest limits within both, every key of either, shared numbers and arrays met and other values as the reconciling side declares them, and reconciling returns it |
| `Scope.ReconcileDefault` | node/p2pcd-types/src/scope.rs:101-178 | a scope that declares nothing leaves the other as it is |
| `Scope.ValueFixpoint` | node/p2pcd-types/src/scope.rs:161-178 | a second round on one value changes nothing, and reconciling a value with itself is the identity |
| `Scope.RestrictTwice` | node/p2pcd-types/src/scope.rs:161-178 | array intersection is associative, order and repetitions included |
| `Scope.RestrictIsAll` | node/p2pcd-types/src/scope.rs:161-178 | array intersection keeps everything exactly when the other side has every element |
| `Scope.ReconcileFixpoint` | node/p2pcd-types/src/scope.rs:101-178 | (X⊗Y)⊗(Y⊗X) = X⊗Y for all scopes: the CONFIRM round is a fixpoint |
| `Scope.ReconcileIdempotent` | node/p2pcd-types/src/scope.rs:101-178 | X⊗X = X |
| `Scope.ValueAssociative` | node/p2pcd-types/src/scope.rs:161-178 | value reconciliation associates exactly when the first two have one type or the third leaves the first alone |
| `Scope.ReconcileAssociative` | node/p2pcd-types/src/scope.rs:101-178 | scope reconciliation associates exactly under that condition at every key all three declare |
| `Scope.ReconcileCommutes` | node/p2pcd-types/src/scope.rs:101-178 | both orders give one scope exactly when every shared key holds numbers, equal restrictions or equal values |
| `Scope.ReconcileSharedView` | node/p2pcd-types/src/scope.rs:101-178 | both orders always share limits, numbers, one-sided extensions and array contents |
| `Scope.ReconcileNeverLooser` | node/p2pcd-types/src/scope.rs:150-158 | reconciling never loosens a finite limit or number that was there |
| `Messages.FirstNamedSorted` | node/p2pcd-types/src/lib.rs:69-71 | the capability sort is stable: the first declaration of a name stays the first |
| `Messages.SortedCapabilitiesUnique` | node/p2pcd-types/src/lib.rs:69-71 | with distinct names two lists sort alike exactly when they hold the same declarations |
| `Messages.MatchesByRoles` | node/p2pcd-types/src/wire.rs:87-96 | roles match exactly when one side offers what the other wants, and two that do both are both mutual |
| `Sorting.SortStable` | node/p2pcd-types/src/lib.rs:69-71 | what sorts together stays in the order it was in |
| `Prelude.StrLeIsLexicographic` | node/p2pcd-types/src/lib.rs:69-71 | names are ordered by their first differing byte, a prefix before its extensions |
| `Cbor.ValueRoundTrip` | node/p2pcd-types/src/cbor.rs:17-25 | every value tree decodes from its bytes, followed by anything, to itself and that rest |
| `Cbor.PrefixFree` | node/p2pcd-types/src/cbor.rs:17-25 | no proper prefix of an encoding decodes |
| `Cbor.EncodeInjective` | node/p2pcd-types/src/cbor.rs:17-25 | different value trees have different bytes |
| `Cbor.HeadLayout` | node/p2pcd-types/src/cbor.rs:17-25 | an item begins with its major type and its argument in the shortest of the five forms (section 3 of RFC 8949) |
| `Cbor.SimpleItems` | node/p2pcd-types/src/cbor.rs:17-25 | false, true and null are the bytes F4, F5 and F6 and nothing else |
| `Cbor.Examples` | node/p2pcd-types/src/cbor.rs:17-25 | integers, texts, byte strings and simple values as in appendix A of RFC 8949 |
| `Cbor.NestedExamples` | node/p2pcd-types/src/cbor.rs:17-25 | small arrays and maps as in appendix A of RFC 8949 |
| `Codec.MapGet` | node/p2pcd-types/src/cbor.rs:28-109 | the lookup loops return the first entry under the key whose value has the wanted type |
| `Codec.DecodeScope` | node/p2pcd-types/src/cbor.rs:138-165 | the loop collects exactly the convertible entries above key 2, later ones winning, beside the two limits |
| `Codec.ScopeValueRoundTrip` | node/p2pcd-types/src/cbor.rs:167-191 | every scope value, arrays nested to any depth, decodes to itself |
| `Codec.ScopeDecodes` | node/p2pcd-types/src/cbor.rs:117-165 | what any scope, whatever its keys, is read back as |
| `Codec.ScopeRoundTrip` | node/p2pcd-types/src/cbor.rs:117-165 | a scope survives exactly when all its extension keys are 3 or above |
| `Wire.CapDecodes` | node/p2pcd-types/src/cbor.rs:195-261 | a declaration decodes to itself with its scope as received |
| `Wire.ManifestDecodes` | node/p2pcd-types/src/cbor.rs:268-350 | a manifest decodes to itself with its declarations sorted and as received |
| `Wire.ReceivedManifestIsSorted` | node/p2pcd-types/src/cbor.rs:268-350 | nothing but the declaration order is lost exactly when every scope key is 3 or above |
| `Wire.DecodeParams` | node/p2pcd-types/src/cbor.rs:581-593 | the CONFIRM loop fails on the first bad scope, skips non-text keys and lets later entries win |
| `Wire.ParamsDecode` | node/p2pcd-types/src/cbor.rs:401-625 | a whole parameter map decodes to the map of received scopes |
| `Wire.PayloadDecodes` | node/p2pcd-types/src/cbor.rs:401-625 | every message of the six kinds decodes to its received form |
| `Wire.PayloadPrefixFails` | node/p2pcd-types/src/cbor.rs:401-625 | a cut-off payload never decodes |
| `Wire.MessageRoundTrip` | node/p2pcd-types/src/cbor.rs:401-625 | a message is read back as itself exactly when its extension keys are 3 or above, an OFFER is already sorted and a capability message has a type outside 1 to 5 |
| `WireSamples.PingPong` | node/p2pcd-types/src/wire.rs:10-17 | the bytes of a PING and a PONG |
| `WireSamples.Closes` | node/p2pcd-types/src/wire.rs:40-62 | the bytes of a CLOSE, reason by reason |
| `WireSamples.Confirms` | node/p2pcd-types/src/message_types.rs:59-71 | the bytes of a CONFIRM |
| `WireSamples.OffersManifest` | node/p2pcd-types/src/message_types.rs:7-14 | the entries of an OFFER and of its manifest |
| `WireSamples.Declares` | node/p2pcd-types/src/message_types.rs:17-24 | the bytes of a declaration, role by role |
| `WireSamples.DeclarationKeys` | node/p2pcd-types/src/message_types.rs:17-24 | which keys a declaration writes, and that key 4 is none of them |
| `WireSamples.ConfirmKeys` | node/p2pcd-types/src/message_types.rs:59-71 | where a CONFIRM carries its scopes |
| `WireSamples.Scopes` | node/p2pcd-types/src/message_types.rs:27-29 | the bytes of a scope with both limits and an extension |
| `WireSamples.CapabilityBytes` | node/p2pcd-types/src/message_types.rs:59-71 | the bytes of a capability message |
| `WireSamples.TimedMessages` | node/p2pcd-types/src/cbor.rs:510-625 | a message without a type is refused, and a PING or PONG without a timestamp |
| `WireSamples.ClosesAccepted` | node/p2pcd-types/src/cbor.rs:602-611 | a CLOSE needs its hash only; no reason is a normal one and an unknown reason an error |
| `WireSamples.ConfirmsAccepted` | node/p2pcd-types/src/cbor.rs:568-600 | a CONFIRM needs its hash and a list of texts, and a scope for each text key of its map |
| `WireSamples.ManifestsAccepted` | node/p2pcd-types/src/cbor.rs:304-350 | a manifest needs its six fields, a peer id of 32 bytes and only declarations with a name and one of the three roles |
| `WireSamples.ScopeValuesAccepted` | node/p2pcd-types/src/cbor.rs:177-191 | which items are scope values: non-negative integers, texts, booleans, byte strings and arrays |
| `WireSamples.ItemsAccepted` | node/p2pcd-types/src/cbor.rs:177-191 | inside an array what cannot be read is left out |
| `WireSamples.KeysAccepted` | node/p2pcd-types/src/cbor.rs:241-252 | and so among applicable scope keys |
| `WireSamples.OffersAccepted` | node/p2pcd-types/src/cbor.rs:558-566 | an OFFER needs a good manifest under the first entry of its key |
| `WireSamples.OthersPassedOn` | node/p2pcd-types/src/cbor.rs:520-554 | any other type is passed on with its payload bytes, or with what is left of the map |
| `ScopeForm.WrittenAlike` | node/p2pcd-types/src/cbor.rs:117-136 | two scopes are written alike exactly when they are equal, or both put every extension after their limits and differ only in calling a number under key 1 or 2 a limit or an extension |
| `ScopeForm.ScopeKeysAscend` | node/p2pcd-types/src/cbor.rs:117-136 | the written keys ascend exactly when no extension comes under or before a limit that is written |
| `PersonalHash.SameHashInput` | node/p2pcd-types/src/cbor.rs:268-302 | two manifests of any shape have one hash input exactly when version, peer and algorithm match and the sorted declarations differ at most in the form of their scope |
| `PersonalHash.AlikeMeansEqual` | node/p2pcd-types/src/cbor.rs:117-136 | with extension keys of 3 and above only equal declarations are written alike |
| `PersonalHash.LimitKeyCollision` | node/p2pcd-types/src/cbor.rs:117-136 | a limit and an extension under its key give two manifests one hash input |
| `PersonalHash.HashInputIs` | node/p2pcd-types/src/cbor.rs:356-365 | what is hashed is the encoding with a sequence number of zero and no hash |
| `PersonalHash.HashIgnores` | node/p2pcd-types/src/cbor.rs:356-365 | with distinct names and keys of 3 and above the hash ignores exactly sequence number, hash field and declaration order |
| `PersonalHash.HashIgnoresForm` | node/p2pcd-types/src/cbor.rs:356-365 | with distinct names the hash ignores exactly sequence number, hash field, declaration order and which form a scope is declared in |
| `PersonalHash.ScopeOrdered` | node/p2pcd-types/src/cbor.rs:117-136 | an encoded scope has ascending keys exactly when no extension comes under or before a limit it carries |
| `PersonalHash.HashInputOrdered` | node/p2pcd-types/src/cbor.rs:356-365 | every map of a hash input has strictly ascending integer keys exactly when all its scopes do |
| `PersonalHash.KeyOrderIsByteOrder` | node/p2pcd-types/src/cbor.rs:111-113 | ascending integer keys are ascending encoded keys (section 4.2.1 of RFC 8949) |
| `BigEndian.FromBeToBe` | node/p2pcd-types/src/cbor.rs:371-399 | the big-endian length prefix reads back |
| `Transport.ReceiveEncoded` | node/p2pcd/src/transport.rs:74-104 | a sent message arrives as received with the rest of the stream untouched, or is refused exactly when over 1 MiB |
| `Transport.DecodeEncoded` | node/p2pcd-types/src/cbor.rs:371-399 | `decode` alone reads back every message of up to 64 MiB and refuses larger ones |
| `Transport.ReaderTask` | node/p2pcd/src/transport.rs:166-205 | the reader loop delivers every frame up to the first bad or incomplete one |
| `Transport.DecodeWaits` | node/p2pcd-types/src/cbor.rs:371-399 | decoding waits for more exactly while the header or a payload within 64 MiB is not all there |
| `Transport.ReceiveWaits` | node/p2pcd/src/transport.rs:74-104 | receiving waits exactly while the header or a payload within 1 MiB is not all there |
| `Transport.FailureLeaves` | node/p2pcd/src/transport.rs:74-104 | a failed receive leaves what follows the header of an oversized frame, what follows a bad one, and nothing of an incomplete one |
| `Transport.StreamRoundTrip` | node/p2pcd/src/transport.rs:166-205 | concatenated frames come apart into exactly the messages sent and the untouched remainder |
| `Negotiation.ComputeIntersection` | node/p2pcd-types/src/scope.rs:190-225 | the nested loops with their skips and break collect one name per local declaration with a counterpart that passes, sorted |
| `Negotiation.IntersectionMember` | node/p2pcd-types/src/scope.rs:190-225 | a name is active exactly when both declare it in matching roles and the local gate lets it pass or it is the heartbeat |
| `Negotiation.ActiveByRoles` | node/p2pcd-types/src/scope.rs:190-225 | a name is active exactly when a declaration of it on one side offers what one on the other wants and it is the heartbeat's or the gate lets it pass |
| `Negotiation.ActiveSetsAreSorted` | node/p2pcd-types/src/scope.rs:190-225 | active sets are in the order of names |
| `Negotiation.DeclaredScopeIs` | node/p2pcd/src/session.rs:362-384 | the first declaration of a name gives its scope; one without a scope, or none, declares nothing |
| `Negotiation.MatchesSymmetric` | node/p2pcd-types/src/wire.rs:87-96 | role matching is the same seen from either side |
| `Negotiation.ReconcileParams` | node/p2pcd/src/session.rs:362-384 | one reconciled scope per active name, from the first declaration of the name on each side |
| `Negotiation.ReconcileConfirmParams` | node/p2pcd/src/session.rs:387-399 | one scope per agreed name, missing parameters standing for the default |
| `Negotiation.ConfirmedWithout` | node/p2pcd/src/session.rs:387-399 | a scope the other CONFIRM does not carry leaves ours as it is |
| `Negotiation.AgreedMembers` | node/p2pcd/src/session.rs:402-407 | the agreed set holds exactly the names in both sets |
| `Negotiation.KeepSelects` | node/p2pcd/src/session.rs:402-407 | our names that are theirs too, each as often as ours and in our order, before the sort |
| `Agreement.ReceivedIntersection` | node/p2pcd-types/src/scope.rs:190-225 | a manifest gives the same intersection before and after the wire |
| `Agreement.ReceivedDeclaredScope` | node/p2pcd/src/session.rs:362-384 | both peers read the same declaration of a repeated name, because the sort is stable |
| `Agreement.FinalSetMember` | node/p2pcd/src/session.rs:402-424 | a name is agreed exactly when both declare it in matching roles and both gates pass it |
| `Agreement.AgreedByRoles` | node/p2pcd/src/session.rs:402-424 | a name is agreed exactly when a declaration of it on one side offers what one on the other wants and it is the heartbeat's or both gates let it pass |
| `Agreement.SameNames` | node/p2pcd/src/session.rs:402-424 | both sides agree on the names for all manifests and gates |
| `Agreement.SameSequence` | node/p2pcd/src/session.rs:402-424 | both hold the same sequence exactly when each agreed name has equally many matched declarations on both sides |
| `Agreement.DistinctSameSequence` | node/p2pcd/src/session.rs:402-424 | with distinct names both hold the same sequence |
| `Session.P2pcdTransport.Send` | node/p2pcd/src/transport.rs:58-71 | a send appends one frame or changes nothing |
| `Session.P2pcdTransport.Recv` | node/p2pcd/src/transport.rs:74-104 | a receive takes exactly one frame off the stream, or fails and leaves what the failed read has not consumed |
| `Session.Session.constructor` | node/p2pcd/src/session.rs:104-117 | a new session for a known peer is PeerVisible with nothing agreed |
| `Session.TransitionsAre` | node/p2pcd/src/session.rs:65-83 | a session advances by one stage, closes from any stage while open, and reopens from the start |
| `Session.Session.Transition` | node/p2pcd/src/session.rs:120-138 | the state changes exactly along the allowed graph, is recorded, and nothing else changes |
| `Session.Session.Finalize` | node/p2pcd/src/session.rs:411-424 | the fields are set in every state; the end state follows emptiness of the set, and is an error where the graph forbids it |
| `Session.Session.RunInitiatorExchange` | node/p2pcd/src/session.rs:156-240 | the procedure does to session, recorded states and connection what the exchange function says, on every path and error |
| `Session.Session.RunResponderExchange` | node/p2pcd/src/session.rs:251-334 | the same for the responder's order of steps |
| `Session.Session.SendClose` | node/p2pcd/src/session.rs:337-347 | the state becomes Closed when allowed, whether or not the send works; a send that works is a CLOSE with the local hash and the reason |
| `Session.ExchangeWrites` | node/p2pcd/src/session.rs:156-334 | an agreed exchange has written the OFFER and a CONFIRM with the local hash, the intersection and a scope for each name, or no map when there is none |
| `Session.InitiatorIsClosed` | node/p2pcd/src/session.rs:218-226 | a CLOSE in place of the CONFIRM ends an initiator with its reason, the manifest kept and nothing agreed |
| `Session.ResponderIsClosed` | node/p2pcd/src/session.rs:280-298 | the same for a responder |
| `Session.FailedExchange` | node/p2pcd/src/session.rs:156-334 | an exchange that fails leaves the session exchanging with nothing recorded; one begun in another state than visible changes nothing |
| `Session.ExchangeIsSound` | node/p2pcd/src/session.rs:156-334 | whatever bytes the remote sends, an agreed session holds only names both declare that pass the local gate for the id the remote claims, one scope each, no declared limit loosened |
| `Identity.GateDecides` | node/p2pcd/src/session.rs:203-217 | for a fixed gate the active names pass for the session's peer when that peer may have all the claimed id may, and every name of up to 1,000,000 bytes that only the claimed id may have is the active set of an exchange that ends agreed |
| `Identity.ClaimDecides` | node/p2pcd-types/src/scope.rs:210-216 | over all gates, sides, manifests and bytes the active names pass for the session's peer exactly when the OFFER claims that peer's id |
| `Identity.ClaimedLink` | node/p2pcd/src/session.rs:90-117 | a connection, within the frame cap, on which a session with any peer ends active on any name of up to 1,000,000 bytes that the gate lets the claimed id have |
| `SessionRuns.ExchangeEnds` | node/p2pcd/src/session.rs:156-334 | an exchange never ends in Denied |
| `SessionRuns.HistoryIsPath` | node/p2pcd/src/session.rs:65-83 | over every run of transitions, exchanges and closes the states form a path in the allowed graph, and only a direct request reaches Denied |
| `SessionRuns.RunSession` | node/p2pcd/src/session.rs:120-138 | the states a session records over any operations are exactly the run's history, and a path in the allowed graph |
| `SessionRuns.RunsAreMatched` | node/p2pcd/src/session.rs:411-424 | over every run, direct transitions included, the parameters are those of the active set |
| `SessionRuns.StepConsistent` | node/p2pcd/src/session.rs:120-138 | after any run a direct transition keeps a consistent session consistent exactly when it does not enter Active on an empty set or None on a non-empty one |
| `SessionRuns.DirectActivation` | node/p2pcd/src/session.rs:120-138 | three direct transitions make a session Active with an empty active set |
| `SessionRuns.ExchangeIsConsistent` | node/p2pcd/src/session.rs:411-424 | every exchange leaves Active with a non-empty set, None with an empty one, and parameters for exactly its names |
| `SessionRuns.RunsAreConsistent` | node/p2pcd/src/session.rs:120-347 | so does every run whose Active and None come from exchanges |
| `Protocol.NextKeepsInv` | node/p2pcd/src/session.rs:156-334 | each step of either side, and each crash, keeps both nodes on the script and the channels holding exactly what was sent and not read |
| `Protocol.RunKeepsInv` | node/p2pcd/src/session.rs:156-334 | so does every interleaving with any faults |
| `ProtocolResults.NamesAgreement` | node/p2pcd/src/session.rs:156-424 | whenever both have finalized they are in one end state with the same names, exactly those both declare and both gates pass, and in one order exactly when matched declarations count equal |
| `ProtocolResults.SequenceAgreement` | node/p2pcd/src/session.rs:156-424 | with distinct names the active sets are the same sequence |
| `ScopeExchange.HeldScopeIs` | node/p2pcd/src/session.rs:362-399 | two rounds over the wire settle the limits and leave the extensions of the first round |
| `ScopeExchange.HeldLimitsAgree` | node/p2pcd/src/session.rs:362-399 | both sides settle on the same rate limit and ttl, whatever else they declare |
| `ScopeExchange.HeldSharedView` | node/p2pcd/src/session.rs:362-399 | numbers, one-sided extensions and array contents agree exactly when the declarations under keys below 3 do |
| `ScopeExchange.HeldScopesEqual` | node/p2pcd/src/session.rs:362-399 | both hold one scope exactly when the declarations agree at every key |
| `ScopeExchange.HeldIsReconciled` | node/p2pcd/src/session.rs:362-399 | with keys of 3 and above the second round changes nothing |
| `ScopeExchange.HeldMeets` | node/p2pcd/src/session.rs:362-399 | for any declarations a side ends with the loosest limits within both as read off the wire, and its own keys and the peer's above the limits', shared values met |
| `ScopeExchange.HeldMerges` | node/p2pcd/src/session.rs:362-399 | with extension keys of 3 and above a side ends with what reconciling the two declarations has to be |
| `ProtocolResults.FinalScope` | node/p2pcd/src/session.rs:203-240 | a finalized side holds the two-round scope of every agreed name |
| `ProtocolResults.ScopeAgreement` | node/p2pcd/src/session.rs:156-424 | over every run both end with a scope per name and equal limits; shared view and equality hold exactly under the stated conditions on the declarations |
| `ProtocolResults.HeldOverRuns` | node/p2pcd/src/session.rs:156-424 | over every run each side holds the loosest limits within both as read off the wire, and every key either may know of, shared values met |
| `ProtocolResults.WireSafeScopes` | node/p2pcd/src/session.rs:156-424 | with keys of 3 and above each side holds its own reconciliation of the two declarations |
| `ProtocolResults.CleanStep` | node/p2pcd/src/session.rs:156-334 | without faults a step completes one action and never meets an unexpected message |
| `ProtocolResults.NoDeadlock` | node/p2pcd/src/session.rs:156-334 | while both run and are not both final, one of them can move |
| `ProtocolResults.CrashStops` | node/p2pcd/src/session.rs:156-334 | a side that stops before it is final takes no further step and leaves its view, the channels and the other side alone |
| `ProtocolResults.CleanRunCounts` | node/p2pcd/src/session.rs:156-334 | a fault-free run has completed as many actions as it has steps, at most eight |
| `ProtocolResults.Completion` | node/p2pcd/src/session.rs:156-334 | a fault-free run to the end finalizes both exactly when all four messages fit a frame, in eight steps |
| `ProtocolResults.FinalOnlyIfFits` | node/p2pcd/src/session.rs:156-334 | with any faults both finalize only if all four messages fit |
| `ProtocolResults.ExchangeMatchesMachine` | node/p2pcd/src/session.rs:156-334 | each procedure, given the peer's two messages, ends in the machine's final view having written its own two |
| `Procedures.ExchangeFollowsMachine` | node/p2pcd/src/session.rs:156-334 | on every connection, whatever bytes arrive, wherever they break off and however many sends succeed, a procedure ends with the view and the bytes written of the machine's node, and succeeds exactly when that node finalized or was closed |
| `Access.AccessDb.Open` | node/access/src/db.rs:23-31 | opening seeds whatever was stored |
| `Access.AccessDb.SeedBuiltInGroups` | node/access/src/schema.rs:161-225 | three groups with their parents and rules are added where missing |
| `Access.AccessDb.UpsertGroup` | node/access/src/schema.rs:227-248 | an existing group only gains a missing parent |
| `Access.AccessDb.SeedCapabilityRules` | node/access/src/schema.rs:250-263 | missing rules are added as allowing, existing ones kept |
| `Access.AccessDb.InsertRules` | node/access/src/db.rs:449-466 | rows are stored up to the first that breaks uniqueness |
| `Access.AccessDb.CreateGroup` | node/access/src/db.rs:193-217 | the new tables, and success exactly for a new id with rows that all fit |
| `Access.AccessDb.UpdateGroup` | node/access/src/db.rs:220-269 | the new tables on every path: missing, built-in, renamed, rules replaced wholly or in part |
| `Access.AccessDb.DeleteGroup` | node/access/src/db.rs:272-291 | a custom group goes with its rules and memberships and its children lose their parent; built-ins are refused |
| `Access.AccessDb.AssignPeerToGroup` | node/access/src/db.rs:348-372 | exactly that membership is added, or an error for a group that is not there |
| `Access.AccessDb.RemovePeerFromGroup` | node/access/src/db.rs:375-393 | exactly that membership goes |
| `Access.AccessDb.RemovePeerFromAllGroups` | node/access/src/db.rs:396-410 | exactly that peer's memberships go, and are counted |
| `Access.CollectMemberGroups` | node/access/src/db.rs:54-71 | the recursive query ends on any parent links, cyclic ones too, with exactly the groups reachable from the peer's and the default group |
| `Access.AccessDb.ResolvePermission` | node/access/src/db.rs:54-88 | Allow exactly when some reachable group has an allowing rule |
| `Access.ReachesUnfold` | node/access/src/db.rs:58-70 | a group reaches itself and what its parent reaches |
| `AccessRuns.InsertedRows` | node/access/src/db.rs:449-466 | a run of inserts adds exactly the rows before the first repeated name and changes no other |
| `AccessRuns.AllRowsFit` | node/access/src/db.rs:449-466 | all rows are stored exactly when no name repeats or is already there |
| `AccessRuns.SeedIdempotent` | node/access/src/schema.rs:161-263 | seeding a database with its tiers in place changes nothing |
| `AccessRuns.SeededEmpty` | node/access/src/schema.rs:161-263 | a fresh database has the three tiers, sound foreign keys and nothing else |
| `AccessRuns.NextKeepsInv` | node/access/src/db.rs:193-410 | every operation, failed ones included, keeps foreign keys, built-in tiers and flat custom groups |
| `AccessRuns.RunKeepsInv` | node/access/src/db.rs:193-410 | so does every run from a fresh database |
| `AccessRuns.MemberGroupsAre` | node/access/src/db.rs:54-71 | the groups that count for a peer: its tier and those below, and its custom groups |
| `AccessRuns.GrantedAre` | node/access/src/db.rs:54-88 | the permission of a database that keeps the invariant, tier by tier |
| `Access.EditedIs` | node/access/src/db.rs:220-269 | an update changes the fields given and no others |
| `Access.UpsertedIs` | node/access/src/schema.rs:227-248 | a missing built-in group is added, one that is there at most gets the parent it lacks |
| `AccessHistory.GroupsAre` | node/access/src/db.rs:193-291 | over any run the groups are the built-in ones and those created and not deleted since |
| `AccessHistory.MembershipsAre` | node/access/src/db.rs:348-410 | over any run a peer belongs to a group exactly when it was assigned there while the group stood, and neither removed nor the group deleted since |
| `AccessHistory.RulesAre` | node/access/src/db.rs:193-269 | over any run a custom group allows exactly what the rows last given to it do, up to their first repeated name |
| `AccessHistory.PermissionIs` | node/access/src/db.rs:54-88 | after any run the query grants exactly what the operations entitle the peer to, told from the operations alone |
| `AccessHistory.AssigningGrants` | node/access/src/db.rs:348-372 | assigning a peer to a group grants it exactly what the groups reachable from there allow besides, and others nothing |
| `AccessHistory.FriendsAreGranted` | node/access/src/db.rs:348-372 | after any run, assigning a peer to friends grants it each of the friends' names |
| `AccessHistory.CreatedAllows` | node/access/src/db.rs:193-217 | a group just created allows exactly what its rows do before the first repeated name |
| `AccessHistory.FreshGroups` | node/access/src/schema.rs:161-225 | the three built-in groups of a fresh database, with names, texts and parents |
| `AccessHistory.FeedAndRelay` | node/access/src/schema.rs:161-263 | friends may have the feed but not the relay, trusted peers both, strangers neither |
| `Trust.PermissionOverRuns` | node/access/src/schema.rs:161-263 | after any run a peer is granted the default tier, friends or trusted if assigned there or above, and its custom groups' rules, and nothing else |
| `Trust.TiersNest` | node/access/src/schema.rs:161-225 | default, friends, trusted: after any run a peer of a higher tier is granted whatever a lower one is |
| `Trust.MembershipsNeverRevoke` | node/access/src/db.rs:54-88 | adding memberships never revokes, on any tables |
| `Trust.RemovedPeerKeepsDefault` | node/access/src/db.rs:396-410 | a peer removed from all groups keeps exactly the default tier |
| `Trust.DeletingIsLeaving` | node/access/src/db.rs:272-291 | for each peer, deleting a custom group grants what leaving it would |
| `Trust.ReplacedRules` | node/access/src/db.rs:257-265 | after a rule update, accepted or not, the group allows exactly what the rows before the first repeated name allow |
| `Trust.PassesMeansGranted` | node/p2pcd-types/src/scope.rs:190-225 | the heartbeat's bypass of the gate never exceeds the database's grant |
| `Trust.ActiveMeansGranted` | node/daemon/src/p2pcd/engine/mod.rs:479-482 | over every run of the protocol between two nodes with any database histories, a finalized name is active exactly when both declare it and each database grants it to the id the other manifest claims |
| `Trust.ActiveMeansEntitled` | node/daemon/src/p2pcd/engine/mod.rs:479-482 | over runs of both databases and of the protocol, a name is active exactly when one side offers what the other wants and each user's operations entitle the id the other's manifest claims |
| `Trust.ActiveForSessionPeer` | node/daemon/src/p2pcd/engine/session_runner.rs:60-67 | over every run each database grants the session's peer every active name exactly when it grants it each agreed name besides the claimed id, and always when the claim is true |
| `Trust.ClaimedStrangersGetDefault` | node/daemon/src/p2pcd/engine/mod.rs:479-482 | if either manifest claims an id without memberships at the other node, only default-tier names become active |
| `Monitor.WgPeerMonitor.Observe` | node/daemon/src/wireguard.rs:588-609 | the event and the new set depend on freshness and the set only, never on the stored handshake |
| `Monitor.WgPeerMonitor.ObserveAll` | node/daemon/src/wireguard.rs:588-609 | after the lines of a dump each listed peer is reachable by its last line, and the events fold to the change |
| `Monitor.WgPeerMonitor.RemoveUnlisted` | node/daemon/src/wireguard.rs:611-622 | exactly the unlisted peers go, one event each |
| `Monitor.WgPeerMonitor.Poll` | node/daemon/src/wireguard.rs:558-624 | after a poll the reachable set is what the dump shows; a failed dump changes nothing |
| `Monitor.DistinctDump` | node/daemon/src/wireguard.rs:558-624 | with distinct keys, a peer is reachable exactly for 180 seconds after the handshake its line shows |
| `Monitor.FreshMeans` | node/daemon/src/wireguard.rs:588-594 | a peer is fresh for 180 seconds after its last handshake, and one that never had any is not |
| `Monitor.FreshSetIs` | node/daemon/src/wireguard.rs:558-624 | the last line of a peer decides, and makes it reachable exactly for 180 seconds after the handshake it shows |
| `Monitor.ReplayAlternates` | node/daemon/src/wireguard.rs:558-624 | in events that fold, each peer's alternate between Visible and gone, and it is reachable after an odd number |
| `Monitor.RunMonitor` | node/daemon/src/wireguard.rs:558-624 | over any readings the set is what the last dump showed, the events fold to it and alternate per peer |
| `Addresses.AddressBook.AssignNextAddress` | node/daemon/src/wireguard.rs:774-803 | the two-octet search ends with the least free address from 0.2 to 255.255, or fails exactly when all are taken |
| `Addresses.AddressBook.ReclaimAddress` | node/daemon/src/wireguard.rs:807-819 | exactly that address is dropped |
| `Addresses.CandidateInjective` | node/daemon/src/wireguard.rs:774-803 | different octets print as different addresses |
| `Addresses.FirstCandidates` | node/daemon/src/wireguard.rs:774-803 | addresses count up by the last octet and then the third |
| `Addresses.FirstAssigned` | node/daemon/src/wireguard.rs:774-803 | the first address of an empty book is 100.222.0.2 |
| `Addresses.WithoutSelects` | node/daemon/src/wireguard.rs:807-819 | reclaiming takes out that address wherever it stands and keeps the others in order |
| `Addresses.FullWhenCapacity` | node/daemon/src/wireguard.rs:774-803 | a well-kept list never exceeds 65534 entries and is full exactly when assignment fails |
| `Addresses.RunBook` | node/daemon/src/wireguard.rs:774-819 | over any run of assign and reclaim the list has no duplicates, and a run shorter than 65534 operations is never refused |
| `Addresses.ReclaimedIsNext` | node/daemon/src/wireguard.rs:774-819 | a reclaimed address is the next one exactly when no lower one is free |
| `Notifications.NotificationBuffer.Push` | node/daemon/src/notifications.rs:92-113 | under any clock: prune the front, evict the oldest if full, append with the next id; an exact buffer stays exact exactly when the clock moves steadily |
| `Notifications.NotificationBuffer.Poll` | node/daemon/src/notifications.rs:116-124 | under any clock: the entries left after pruning that are newer than `since`; from an exact buffer the live ones |
| `Notifications.NotificationBuffer.Prune` | node/daemon/src/notifications.rs:138-148 | under any clock: popping off the front; it leaves the live part of the history exactly when the clock moves steadily |
| `Notifications.PruneExact` | node/daemon/src/notifications.rs:138-148 | an exact buffer is exact after pruning exactly when nothing expired stands behind a kept entry and nothing expired comes alive again |
| `Notifications.PushExact` | node/daemon/src/notifications.rs:92-113 | the same for prune, evict and push, for what stays in the window |
| `Notifications.RunExact` | node/daemon/src/notifications.rs:92-148 | over any run under any clock the buffer is the unexpired part of the last 50 pushes throughout exactly when every operation moves the clock steadily |
| `Notifications.MonotoneIsSteady` | node/daemon/src/notifications.rs:92-148 | a clock that never steps back moves steadily in every run |
| `Notifications.SteadyPolls` | node/daemon/src/notifications.rs:116-124 | in a steady run every poll is the one the full history calls for |
| `Notifications.RunTail` | node/daemon/src/notifications.rs:92-148 | under any clock the buffer is a tail of the push history of at most 50 |
| `Notifications.PollContents` | node/daemon/src/notifications.rs:116-124 | a push is called for exactly when it is among the last 50, unexpired and newer than `since` |
| `Notifications.PollSelects` | node/daemon/src/notifications.rs:116-124 | a poll of a right buffer is what the newest fifty hold from the last 60 seconds and after the mark, each once and in order |
| `Notifications.PrunedLeaves` | node/daemon/src/notifications.rs:138-148 | under any clock, entries over 60 seconds old leave the front up to the first that is not |
| `Notifications.AfterPushIs` | node/daemon/src/notifications.rs:92-113 | a push prunes, drops the oldest entry of a list of fifty, and appends |
| `Notifications.PollIsSuffix` | node/daemon/src/notifications.rs:116-124 | in order of time a poll is a suffix of the push history: nothing reordered, repeated or skipped |
| `Notifications.RunBuffer` | node/daemon/src/notifications.rs:92-148 | the buffer over any run under any clock; in steady runs, and so under a clock that does not go back, every poll is computed from the full history |
| `Notifications.ClockStepBack` | node/daemon/src/notifications.rs:138-148 | pushes at 100 s and at 30 s after a step back, polled at 95 s: both come back, though the second expired 5 s before |
| `Notifications.IdInjective` | node/daemon/src/notifications.rs:100-102 | different counters give different ids |
| `Windows.PopStale` | node/daemon/src/notifications.rs:138-148 | the loop pops exactly the stale front, in any order of stamps |
| `Windows.RecentSelects` | node/daemon/src/api/auth_layer.rs:69 | filtering keeps exactly what is stamped at the cutoff or later, each place once and in order |
| `Windows.PoppedIsRecent` | node/daemon/src/notifications.rs:138-148 | popping the front is filtering exactly when nothing stale stands behind something recent |
| `Windows.PoppedAlwaysRecent` | node/daemon/src/notifications.rs:138-148 | popping filters at every cutoff exactly when the stamps are in order |
| `Windows.PopExact` | node/daemon/src/notifications.rs:138-148 | a queue exact at one cutoff is exact at the next, after popping, exactly when the move leaves nothing stale behind and makes nothing recent again |
| `Windows.RecentThenRecent` | node/daemon/src/api/auth_layer.rs:69 | filtering at one cutoff and then at another is filtering at the second exactly when nothing the first drops is recent again |
| `PushLimits.PushRateLimiter.CheckAndRecord` | node/daemon/src/notifications.rs:172-187 | under any clock times out of the window leave the front up to the first that is not, and a push is allowed exactly when fewer than the limit are left; in steady runs exactly when fewer than the limit of the acceptances are in the window; other keys are untouched |
| `RateLimits.WindowBound` | node/daemon/src/notifications.rs:172-187 | counting by the full history, no window of time holds more than the limit of a key's acceptances, over every run and in whatever order the request times come |
| `RateLimits.OrderedBound` | node/daemon/src/notifications.rs:172-187 | with request times in order, any limit + 1 consecutive acceptances span more than the window, or at least the window |
| `RateLimits.BoundedIsAnyWindow` | node/daemon/src/notifications.rs:172-187 | for times in order the bound on consecutive acceptances is the bound on every window |
| `RateLimits.AcceptKeepsBound` | node/daemon/src/notifications.rs:172-187 | one more acceptance keeps the bound exactly when the one `limit` places back is out of its window |
| `RateLimits.AllowsSpan` | node/daemon/src/notifications.rs:172-187 | with no acceptance in the future, one more is allowed exactly when fewer than the limit lie between the ends of the window |
| `RateLimits.DecisionsByWindow` | node/daemon/src/notifications.rs:172-187 | deciding by the full history lets a request through exactly when fewer than the limit of its key's requests let through before are in its window, in any order of times |
| `RateLimits.ByWindowOnly` | node/daemon/src/notifications.rs:172-187 | only one list of decisions does that |
| `PushLimits.HighWaterBound` | node/daemon/src/notifications.rs:172-187 | under any clock, a key let through once more than the limit has had a request more than a window after the first of those acceptances |
| `PushLimits.RunExact` | node/daemon/src/notifications.rs:172-187 | over any run under any clock the limiter passes and stores what the full history says exactly when the key's requests move its clock steadily |
| `PushLimits.SteadyBound` | node/daemon/src/notifications.rs:172-187 | steady requests keep the bound on consecutive acceptances |
| `PushLimits.SteadyWindows` | node/daemon/src/notifications.rs:172-187 | in a steady run exactly the full history's acceptances pass, and no window of time holds more than the limit |
| `PushLimits.BoundedRun` | node/daemon/src/notifications.rs:172-187 | over any run under any clock the bound holds exactly when each request let through comes a window after the acceptance `limit` places back |
| `PushLimits.MonotoneIsSteady` | node/daemon/src/notifications.rs:172-187 | a clock that never steps back is steady for every key |
| `PushLimits.ClockStepBack` | node/daemon/src/notifications.rs:172-187 | limit 2 in a window of 10: requests at 0, 1, 100 and then 5 all pass, which breaks the bound |
| `RateLimits.KeysAreIndependent` | node/daemon/src/notifications.rs:172-187 | what one key gets is what it would get alone |
| `PushLimits.RunPushLimiter` | node/daemon/src/notifications.rs:172-187 | the popping limiter over any run under any clock; when every key is steady, and so under a clock that does not go back, a push passes exactly when fewer than the limit passed before it within its window |
| `ApiLimits.RateLimiter.Check` | node/daemon/src/api/auth_layer.rs:63-78 | for a call with any instant: the bucket keeps exactly the times in the window and the call is allowed exactly when fewer than the limit are kept; when nothing dropped has come back that is the full history's decision; other keys are untouched |
| `ApiLimits.RunExact` | node/daemon/src/api/auth_layer.rs:63-78 | over any run, instants in any order, each request is decided on exactly what the full history counts if and only if nothing a purge drops is in the window of the key's next request |
| `ApiLimits.MonotoneIsGone` | node/daemon/src/api/auth_layer.rs:63-78 | calls in the order of their instants drop nothing that comes back |
| `ApiLimits.GoneBound` | node/daemon/src/api/auth_layer.rs:63-78 | when nothing dropped comes back, exactly the full history's acceptances pass and no window of time holds more than the limit |
| `ApiLimits.BoundedRun` | node/daemon/src/api/auth_layer.rs:63-78 | over any run, instants in any order, no window holds more than the limit exactly when each request let through finds room in every window that holds it |
| `ApiLimits.HighWaterBound` | node/daemon/src/api/auth_layer.rs:63-78 | in any order a request passes only with fewer than the limit acceptances since the latest cutoff so far |
| `ApiLimits.OvertakenPasses` | node/daemon/src/api/auth_layer.rs:63-78 | limit 2 in a window of 100: calls reaching the bucket at 1, 2, 103 and then 100 all pass, though 1, 2 and 100 lie in one window |
| `ApiLimits.RunApiLimiter` | node/daemon/src/api/auth_layer.rs:63-78 | the limiter over any run, instants in any order; when nothing dropped comes back for any key, and so when calls come in the order of their instants, a call passes exactly when fewer than the limit passed before it within its window |
| `Decimal.UnsignedRoundTrip` | node/daemon/src/invite.rs:112-131 | printed ports and times parse back |
| `Decimal.DigitIs` | node/daemon/src/invite.rs:112-131 | the ten digits as characters |
| `Decimal.PrintHasNoZeros` | node/daemon/src/invite.rs:112-131 | no leading zeros |
| `Decimal.ParseMeans` | node/daemon/src/invite.rs:199-200 | a plain number is read by its digits, with a plus sign or without, and refused above the maximum |
| `Decimal.ParseRefuses` | node/daemon/src/invite.rs:199-200 | no empty text, lone sign or other character is read |
| `Decimal.ParseI32Means` | node/daemon/src/invite.rs:184-188 | signed numbers are read within 32 bits on either side |
| `Decimal.I32RoundTrip` | node/daemon/src/invite.rs:184-188 | printed strides parse back, negative ones too |
| `Text.SplitNJoin` | node/daemon/src/invite.rs:150 | joining what `splitn` gives is the text again, for all texts |
| `Text.JoinSplitNExact` | node/daemon/src/invite.rs:150 | n joined fields come apart into themselves exactly when all but the last are free of the separator |
| `Text.CsvRoundTrip` | node/daemon/src/invite.rs:190-194 | a list reads back exactly when no entry has a comma and it is not one empty entry |
| `Tokens.AddressCsvRoundTrip` | node/daemon/src/invite.rs:159-166 | address lists read back, given that address text does |
| `Tokens.EndpointPort` | node/daemon/src/invite.rs:218-222 | the port is what follows the last colon, hosts with colons included; without a colon the default port is used |
| `Tokens.LastColonDecides` | node/daemon/src/invite.rs:168-222 | what follows the last colon is the port if it is a number of 16 bits, and 41641 stands in otherwise |
| `Tokens.InviteRoundTrip` | node/daemon/src/invite.rs:112-216 | an invite reads back exactly when its five texts hold no bar and its relay list is expressible |
| `Tokens.InviteText` | node/daemon/src/invite.rs:112-131 | the twelve fields of an invite in their order |
| `Tokens.AcceptText` | node/daemon/src/accept.rs:40-70 | the nine fields of an accept token in their order |
| `Tokens.NatWords` | node/daemon/src/invite.rs:177-187 | the four kinds of NAT by their words, and no others |
| `Tokens.DecodeRefuses` | node/daemon/src/invite.rs:143-157 | an invite is refused exactly when it has fewer than seven fields or no port or expiry among them |
| `Tokens.CutRoundTrip` | node/daemon/src/invite.rs:144-216 | a payload cut to its first 7 to 12 fields gives the shared fields and the documented defaults |
| `Tokens.AcceptRoundTrip` | node/daemon/src/accept.rs:40-116 | an accept token reads back exactly when the two keys and the address hold no bar; the last key may |
| `Invites.InviteStore.Generate` | node/daemon/src/invite.rs:53-139 | refused exactly when the identity, the endpoint or the address space does not allow an invite; otherwise the least free address, the pending entry, and a payload that decodes to the invite exactly when its texts allow |
| `Invites.EndpointIs` | node/daemon/src/invite.rs:72-74 | the override, else the node's own endpoint, else an unroutable one |
| `Invites.UnroutableMeans` | node/daemon/src/invite.rs:76-83 | only endpoints that begin with 0.0.0.0 are unroutable |
| `Invites.UnissuableMeans` | node/daemon/src/invite.rs:64-83 | without a key or an address nothing is issued; with both, an IPv6 address or a routable endpoint is enough |
| `Invites.InviteStore.ConsumeByPsk` | node/daemon/src/invite.rs:225-243 | the first match leaves the list, and is returned unless expired |
| `InviteRuns.RunInvites` | node/daemon/src/invite.rs:53-243 | over any run of issuing, redeeming and reclaiming, the log of what the store does answers every operation by the specification, and the list and the book hold what the log leaves |
| `InviteRuns.Conserved` | node/daemon/src/invite.rs:53-243 | over any run the invites issued are those on the list and those taken off it, each as often |
| `InviteRuns.WaitingAreOpen` | node/daemon/src/invite.rs:225-243 | over any run in which no key is drawn twice, the list holds exactly the invites issued that nobody has tried to redeem since |
| `InviteRuns.RedeemedExactly` | node/daemon/src/invite.rs:225-243 | over any run in which no key is drawn twice, a request is granted an invite exactly when it names the key of one issued before, not expired, that nobody has tried to redeem since |
| `InviteRuns.RedeemedOnce` | node/daemon/src/invite.rs:225-243 | over any run in which no key is drawn twice, no key is redeemed twice |
| `InviteRuns.HeldAreDistinct` | node/daemon/src/wireguard.rs:774-819 | over any run the addresses issued and not reclaimed since are distinct addresses of the subnet |
| `Conversations.MessageDb.InsertMessage` | capabilities/messaging/src/db.rs:129-146 | a new id is appended, a known one refused |
| `Conversations.MessageDb.DeleteMessage` | capabilities/messaging/src/db.rs:370-392 | exactly the sender's own sent message goes |
| `Conversations.WithoutIdSelects` | capabilities/messaging/src/db.rs:370-392 | deleting keeps every other row in order |
| `Conversations.MessageDb.MarkRead` | capabilities/messaging/src/db.rs:332-345 | reading leaves unread only what was sent later, nothing if all of it was sent by then; the total falls by what the conversation held and no other conversation changes |
| `Conversations.NothingUnread` | capabilities/messaging/src/db.rs:310-328 | a conversation has nothing unread exactly when nothing received was sent after its marker |
| `Conversations.TotalAfterRead` | capabilities/messaging/src/db.rs:332-365 | moving one marker changes the total by the change of that conversation's count |
| `Conversations.UnreadCounts` | capabilities/messaging/src/db.rs:310-328 | the number of rows of the conversation received after the marker |
| `Conversations.TotalCounts` | capabilities/messaging/src/db.rs:350-365 | the number of rows received after their conversation's marker, or after 0 without one |
| `Conversations.MessageDb.GetConversation` | capabilities/messaging/src/db.rs:176-215 | asking for one row too many gives the page and whether there is a next one; a page is stored messages of that conversation sent after the cursor, in order of time |
| `Conversations.OfConversationSelects` | capabilities/messaging/src/db.rs:183-190 | a conversation is the stored rows that name it, each as often as stored and in the order stored |
| `Conversations.AfterLists` | capabilities/messaging/src/db.rs:183-190 | the query lists the rows of the conversation sent after the cursor in order of time, equal times in the order stored |
| `Conversations.AfterHolds` | capabilities/messaging/src/db.rs:183-190 | it holds each row of the conversation sent after the cursor as often as stored, and no other |
| `Conversations.RecentSort` | capabilities/messaging/src/db.rs:183-190 | filtering by cursor before or after the stable sort is the same |
| `Conversations.ReadIsPages` | capabilities/messaging/src/db.rs:176-215 | following the cursor cuts pages from the sorted history |
| `Conversations.PagingComplete` | capabilities/messaging/src/db.rs:176-215 | the pages are the whole conversation in order exactly when all times are positive and no page ends between equal times |
| `Conversations.CompleteHoldsAll` | capabilities/messaging/src/db.rs:176-215 | following the cursor yields the conversation in order exactly when it yields each of its rows as often as stored |
| `Conversations.PagingCompleteAlways` | capabilities/messaging/src/db.rs:176-215 | they are for every page size exactly when times are positive and distinct |
| `Conversations.NothingTwice` | capabilities/messaging/src/db.rs:176-215 | no message of the conversation is shown more often than it is stored and none of another at all, whatever the times |
| `Conversations.TotalIsSum` | capabilities/messaging/src/db.rs:350-365 | the total unread count is the sum of the per-conversation counts |
| `Rooms.RoomStore.CreateRoom` | capabilities/voice/src/state.rs:96-123 | a room with its creator as only member |
| `Rooms.RoomStore.ReceiveInvite` | capabilities/voice/src/bridge.rs:117-149 | a placeholder for an unknown room, an added invitation for a known one |
| `Rooms.RoomStore.JoinRoom` | capabilities/voice/src/state.rs:148-180 | the outcome in the source's order of checks |
| `Rooms.RoomStore.LeaveRoom` | capabilities/voice/src/state.rs:183-197 | the member goes, and the room with its last member |
| `Rooms.RoomStore.CloseRoom` | capabilities/voice/src/state.rs:200-212 | only the creator removes a room |
| `Rooms.RoomStore.InvitePeers` | capabilities/voice/src/state.rs:215-228 | each peer that is neither invited nor member is added once |
| `Rooms.RoomStore.SetMute` | capabilities/voice/src/state.rs:231-245 | exactly the first such member's flag changes |
| `Rooms.RoomStore.CleanupStaleRooms` | capabilities/voice/src/state.rs:248-258 | exactly the empty rooms past the timeout go |
| `Rooms.RoomStore.CleanupExpiredInvites` | capabilities/voice/src/state.rs:264-279 | exactly the rooms past the timeout lose their invitations, and the number returned is how many there were |
| `Rooms.RoomStore.RemovePeerFromAll` | capabilities/voice/src/state.rs:282-305 | the two passes leave what leaving every room would, and report each affected room once with its flag |
| `Rooms.JoinAdds` | capabilities/voice/src/state.rs:148-180 | without overlap a join succeeds exactly for an invitee or placeholder with room left, and always adds the peer and uses up the invitation |
| `Rooms.JoinIs` | capabilities/voice/src/state.rs:148-180 | who is refused and why, and the room a join leaves |
| `Rooms.EmptiesWhen` | capabilities/voice/src/state.rs:183-197 | a departure destroys a room exactly when nobody else is in it |
| `Rooms.WithoutMemberSelects` | capabilities/voice/src/state.rs:183-197 | leaving takes out the peer's entries and keeps the others in order |
| `Rooms.StaleMeans` | capabilities/voice/src/state.rs:248-258 | an empty room goes from the timeout after its creation on; one created in the future wraps around |
| `Rooms.ExpiredMeans` | capabilities/voice/src/state.rs:264-279 | invitations expire once more than the timeout has passed since the room was created |
| `Rooms.CreatedDisjoint` | capabilities/voice/src/state.rs:96-123 | a new room keeps invitees and members apart exactly when the creator does not invite itself |
| `Rooms.WithInvitesKeeps` | capabilities/voice/src/state.rs:215-228 | inviting adds exactly the non-members and keeps invitees and members apart |
| `Rooms.WithInvitesAdds` | capabilities/voice/src/state.rs:215-228 | inviting appends the peers that are neither invited nor members, each at its first mention and in that order |
| `Rooms.LeaveEachIs` | capabilities/voice/src/state.rs:183-197 | leaving rooms one by one, in any order, comes to the same with the same flags |
| `Rooms.RemoveIsLeaving` | capabilities/voice/src/state.rs:282-305 | removing a peer everywhere is leaving each of its rooms in turn, flags included |
| `Rooms.RunRooms` | capabilities/voice/src/state.rs:96-305 | over any run members are distinct and within the limit, invitees and members stay apart without self-invitation, and only rooms received from elsewhere are stored empty |

## Left out

- SHA-256, base64 and the token prefixes: the model stops at the hash input and at the text inside a token.
- Cbor.ValueRoundTrip: does not model the nesting limit of the `ciborium` decoder, which is not in this repository; arrays nested past it are written by the library and refused when read, where the model reads them back, so the model is the more permissive one there.
- Wire.MessageRoundTrip: the same nesting limit; a scope with arrays nested past it is not read back.
- The `ciborium` decoder also accepts floats, tags, other simple values and indefinite lengths; the byte model covers the definite-length forms the encoder writes and refuses the rest, so there the model is the stricter one.
- The `ciborium` decoder refuses text that is not UTF-8; the byte model takes any bytes as text, so there the model is the more permissive one.
- Sockets, timers and async tasks: a connection is the bytes still to arrive, the bytes written and the sends left before it is lost; a timeout is a failed receive.
- Session.P2pcdTransport.Send: does not model a write that fails half-way; a send appends its whole frame or nothing.
- Logging, `last_activity` timestamps and the `Option` around the transport of a session.
- Restarting a node: the protocol machine runs one exchange per session.
- Peer capability notifications, the heartbeat, mux, blob and relay handlers that follow an activation.
- The legacy intersection and the deprecated trust policy.
- The engine's permission cache: the gate asks the database directly.
- SQLite itself: tables are maps, sets and sequences; equal sort keys keep insertion order, as the index on conversation and time gives.
- The `rate_limit` and `ttl` columns returned beside `MAX(allow)`: ties pick an arbitrary row.
- Schema migrations: a database is fresh or already at the current version.
- Group listing order, creation times and `assigned_by`.
- JSON and file persistence of peers, pending invites and addresses, and what happens when a file does not parse.
- Reading and writing of the WireGuard dump, and key generation.
- Addresses.AddressBook.AssignNextAddress: does not model the overflow panic of a debug build; arithmetic wraps, as the search's own `octet4 == 0` check expects.
- The 64-bit wrap of notification ids after 2^64 pushes.
- ApiLimits.RateLimiter.Check: does not model the panic of `Instant` subtraction when the clock is younger than the window.
- Conversations.MessageDb.GetConversation: does not take a negative limit, which panics in the source; the API clamps limits to 1 to 100.
- Message bodies' previews, delivery status updates and the conversation list.
- `connection_candidates` of both token modules.
- IPv6 text: addresses are any type whose text reads back and holds neither separator.
- HTTP routes, process supervision, mDNS and the user interface.
