# Post-Urbit core, modelled and proved in Dafny

Post-Urbit is a personal node written in Rust. This project models the parts of
`post-urbit-core` whose correctness is hard to see by reading: two distributed protocols
(the double ratchet and the operation sync), four codecs, and the components that promise
something about all their runs (the file-backed DHT, group membership, the rate limiter).

`dafny verify dfyconfig.toml` checks everything.

## How it is laid out

Where the program updates an object in place, the model has a class with the same fields,
and each method is proved equal to a function on the object's value; the theorems are about
these functions and about runs, which are lists of calls or events. Loops are loops.

| module | models | main results |
|---|---|---|
| `Ratchet` | the double ratchet, keys as free terms | state, operations, class |
| `RatchetBounds` | arbitrary headers | store and work bounds; exactly when the tighter bound holds |
| `RatchetSchedule`, `RatchetAgreement` | two parties and a network that loses and reorders | agreement, exact delivery, no key twice |
| `RatchetSecrecy` | an exposed state | forward secrecy and break-in recovery, exactly |
| `RatchetSessions` | two sessions | which secrets two sessions share, exactly |
| `SyncStore`, `SyncMerkle`, `SyncExchange` | store, Merkle root, exchange | closure, exact acyclicity, root equality, exact success, convergence and its failure |
| `SyncCbor` | deterministic CBOR | decoding undoes encoding, exact acceptance, order independence |
| `OrSet` | observed-remove set | convergence under any merges |
| `Encoding` | Crockford base32 | round trips, both ways |
| `Dht` | file-backed DHT | exact lifetimes, a restart cannot be noticed |
| `Puse` | message envelope | exact acceptance, round trips |
| `RateLimiter` | request limits | exact acceptance, rates over any span of any run |
| `MailboxUrl` | percent-encoding, paths | fixed points, meaning kept |
| `Group` | membership updates | replay, roles over all runs |
| `Stun` | STUN response | first address read |

Cryptography is symbolic. Every key derivation is a free constructor, a Diffie-Hellman
output is an unordered pair of private keys, hashes are free constructors too, and signature
checks are predicates. Clocks and random draws are parameters.

The two parties of `RatchetSchedule` run under three assumptions, which are the protocol's
own: private keys drawn are new, the responder processes the initial message before anything
else, and a header that was answered is not delivered again (the code does not refuse one).
A header whose call reported an error may be delivered again, and no assumption is made
about earlier errors.

## Where the code does not do what one would expect

The members named say what fails and exactly when it holds.

- One `ratchet_decrypt` call can loop more often than the store had room for: a DH key that
  is seen again restarts its chain and overwrites stale entries (`WorkWithinRoomFails`). It
  stays within the room exactly when nothing stale is overwritten (`WorkWithinRoomExactly`);
  `max_skip` steps bound it always (`DecryptBounded`).
- The operation store replaces a stored record by another that is accepted under its id
  (`AddKeepsRecordsExactly`), since nothing checks that an id belongs to its record, and so
  operations can come to depend on themselves (`CycleWhenAnIdRecurs`). An addition closes such a
  cycle exactly if one of its dependencies is, or depends on, its own id (`AddAcyclicExactly`);
  under a new id it never does.
- Replicas do not converge in general, although spec/03-messaging-sync/sync-protocol.md:19
  says so: operations are sent by timestamp, and one stamped before its dependency is refused
  at every attempt, however the replicas pull from one another (`LateDependencyNeverArrives`,
  `NeverConverges`). `ExchangeExactly` and `CatchesUpExactly` give the condition.
- CBOR integers outside the 64-bit arguments are cast, so every value with one inside collides
  with another (`OutOfRangeCollides`); values in range never do (`PrefixFree`), and
  `EncodeAlikeExactly` says which values do.
- Base32 decoding accepts strings that are no encoding of anything: superfluous characters and
  non-zero left-over bits (`SuperfluousCharacterAccepted`, `LeftoverBitsAccepted`).
  `EncodeUndoesDecodeExactly` says which strings come back.
- Percent-normalisation turns a byte from 0x80 on into two, so it is idempotent and keeps the
  octets for exactly the ASCII strings (`WideByteGrows`, `IdempotentExactly`, `OctetsKeptExactly`). Its one
  caller lets only ASCII through (mailbox.rs:237).
- Putting a DHT value again does not extend its life (`RefreshIsLost`, `LifetimeExactly`), while
  spec/00-shared/layer-integration.md:686 calls a put of the same bytes a refresh.
- A DHT value whose creation time plus lifetime does not fit in 64 bits expires at once
  (`OverflowingPutIsLost`, `PutAnsweredExactly`), with wrapping addition as in a release build; a debug build panics.
- A cleanup can leave an expired value on disk, in two ways: a repeated put drops it from the
  cache without writing the file (`CleanupCanLeaveExpired`), or a restart finds all values of a
  file expired and does not load it (`RestartCanLeaveExpired`, `StaleFileStays`). Exactly then the
  cleanup sees no change (`CleanupPurgesExactly`). No answer shows it (`EveryRunShowsHistory`).
- A restart forgets the values of the empty key (`EmptyKeyIsLost`), and of no other
  (`RestartKeepsAnswersExactly`); every caller in the repository uses 32-byte keys.
- A limit of n requests a minute lets 2n through within a minute across a window's end
  (`LimitIsNotSliding`). It never lets more through, and no more than n through a minute in which
  no window opens (`RatesLimited`); 2n is what it guarantees, exactly (`DoubleIsExact`).
- Group updates that arrive after newer ones are lost (`LateUpdateLost`), so replicas can part
  (`OrderMatters`, `ReplicasPart`), while spec/03-messaging-sync/group-messaging.md:302 promises
  the same state to all members. `NothingLostExactly` says when a replica loses nothing, and
  `ReplicasAgree` that what took effect decides the state.
- `GroupState::new` panics for a valid creator shorter than eight bytes; the model reports
  `ShortCreator` there.
- A STUN response with both kinds of address yields whichever comes first, while the comment at
  nat.rs:279 calls the masked one preferred (`PlainFirstWins`).

The documents differ from the code in further places, and the model follows the code:
spec/03-messaging-sync/double-ratchet.md:284 lets one more key be stored (`>` where the code
has `>=`) and, at 269, saves the previous chain length on receiving where the code does it on
sending; sync-protocol.md:408 sorts map keys shortest first where the code compares bytes;
sync-protocol.md:394 queues an operation whose dependency is missing where the code ends the
batch; group-messaging.md:297 lets the smaller suffix win a tie where in the code the greater
one takes effect last.

## Model

| member | source | states |
|---|---|---|
| Ratchet.InitialSecretsAgree | post-urbit-core/src/ratchet.rs:34-122 | initiator and responder derive the same root and chain key, in whichever order each names the two identities |
| Ratchet.KdfInitialExactly | post-urbit-core/src/ratchet.rs:34-60 | root and chain key are the same exactly for the same two Diffie-Hellman outputs, each in its place, and the same two identities in either order |
| Ratchet.RatchetState.InitialMessageKey | post-urbit-core/src/ratchet.rs:227-243 | in place: hands out the first key of the sending chain and moves the chain one step, or reports that there is none |
| Ratchet.RatchetState.InitialReceiveMessageKey | post-urbit-core/src/ratchet.rs:245-255 | in place: the matching step on the current receiving chain |
| Ratchet.RatchetState.RatchetEncrypt | post-urbit-core/src/ratchet.rs:257-291 | in place: the fields, header and key that `Encrypt` gives, which `SenderAdvances` places in the key schedule |
| Ratchet.RatchetState.SkipUntil | post-urbit-core/src/ratchet.rs:326-367 | in place: the loop both skip sites share stops where `SkipTo` stops and takes as many steps; a stop at a full store keeps what was stored |
| Ratchet.RatchetState.RatchetDecrypt | post-urbit-core/src/ratchet.rs:293-367 | in place: result, whole new state (also after an error) and number of loop steps are those of `Decrypt`, about which the theorems below speak |
| RatchetBounds.DecryptWalks | post-urbit-core/src/ratchet.rs:293-367 | both loops of one call are a single walk over the keys ahead of the header; the call succeeds exactly when the walk reaches the end and the header's chain exists |
| RatchetBounds.WantedLength | post-urbit-core/src/ratchet.rs:293-367 | how many keys a header makes a call skip: the rest of the current chain up to `pn` for another DH key, plus those before `n` on its own chain |
| RatchetBounds.DecryptBounded | post-urbit-core/src/ratchet.rs:293-367 | for any header at all, the store stays within `max_skip` and both loops together take at most `max_skip` steps |
| RatchetBounds.StoreBoundedInEveryRun | post-urbit-core/src/ratchet.rs:227-367 | after any sequence of calls with any headers, errors included, at most `max_skip` keys are stored |
| RatchetBounds.WorkWithinRoomExactly | post-urbit-core/src/ratchet.rs:293-367 | the steps of a call stay within `max_skip` minus the keys stored before it if and only if none of the keys that fit would overwrite a stored one |
| RatchetBounds.WorkWithinRoomFails | post-urbit-core/src/ratchet.rs:293-367 | a reachable state and header for which that tighter bound fails: 100 steps with room for 99 |
| RatchetSchedule.SenderAdvances | post-urbit-core/src/ratchet.rs:257-291 | sending keeps a party on the schedule, starting the next chain of it when needed, and its header and key are those of the scheduled place |
| RatchetSchedule.DeliverKeeps | post-urbit-core/src/ratchet.rs:293-367 | receiving a genuine header keeps the party on the schedule whatever the result, and a success yields the sender's key |
| RatchetSchedule.RunKeepsInv | post-urbit-core/src/ratchet.rs:227-367 | every interleaving of sends, losses, reorderings and deliveries preserves the invariant of the whole system |
| RatchetAgreement.EveryRunOnSchedule | post-urbit-core/src/ratchet.rs:245-367 | in every run, for either party: each receiving chain key is the `chain_index`-th iterate of the key its peer's sending chain started from, each stored key lies behind its chain and is the message key its id names, and each passed key is stored or was handed out |
| RatchetAgreement.AgreementInEveryRun | post-urbit-core/src/ratchet.rs:227-367 | in every run the key a receiver was given for a header is the key its sender drew with it, late messages of old chains included |
| RatchetAgreement.DeliveryInEveryRun | post-urbit-core/src/ratchet.rs:293-367 | in every run an unanswered header succeeds with the sender's key exactly when that key is stored or the keys to skip fit in the store; otherwise the call reports too many skipped, and the header can be delivered again |
| RatchetAgreement.NoKeyTwiceInEveryRun | post-urbit-core/src/ratchet.rs:293-367 | in every run different messages were given different keys |
| RatchetSecrecy.EveryRunConsumes | post-urbit-core/src/ratchet.rs:293-367 | in every run a key that was handed out is behind its chain and not stored |
| RatchetSecrecy.ForwardSecrecyExactly | post-urbit-core/src/ratchet.rs:227-367 | in every run, whoever gets hold of all of a party's secrets and of every Diffie-Hellman output but that of the identity keys can work out the key of a message sent to that party if and only if the party was not given that key yet |
| RatchetSecrecy.SentKeysForgotten | post-urbit-core/src/ratchet.rs:257-291 | nor can they work out the key of any message the party sent itself |
| RatchetSecrecy.BreakInRecoveryExactly | post-urbit-core/src/ratchet.rs:257-348 | in every run that goes on after a party's state and private key were exposed, the key of a message sent to that party, before or after, can be worked out from them if and only if the message is on a chain up to the one that answers the exposed key and its key had not been handed out: every later chain is safe again |
| RatchetSecrecy.SentRecoveryExactly | post-urbit-core/src/ratchet.rs:257-291 | the same for the messages the exposed party sends: a key can be worked out if and only if it is drawn after the exposure from the sending chain the party still had |
| RatchetSessions.SessionSecretsEqualExactly | post-urbit-core/src/ratchet.rs:34-122 | two sessions start from the same root, or chain key, if and only if they agree on the identity keys, on the ephemeral key with the responder's, and on the identities |
| RatchetSessions.NewEphemeralNewAgreement | post-urbit-core/src/ratchet.rs:95-122 | a new ephemeral key with the same responder makes another agreement |
| RatchetSessions.SessionsShareNothing | post-urbit-core/src/ratchet.rs:34-367 | any two runs of two sessions that differ in any of these: no root, chain key or stored key held in the one is held in the other, and no message key is drawn or handed out in both |
| SyncStore.Store.AddOperation | post-urbit-core/src/sync.rs:343-356 | in place: the record is stored exactly when its signature checks and its dependencies are stored; otherwise nothing changes and the first failing check is reported |
| SyncStore.Store.AllOperations | post-urbit-core/src/sync.rs:362-364 | every stored record once, in an order left open |
| SyncStore.RefusalExactly | post-urbit-core/src/sync.rs:343-356 | an operation is accepted if and only if its signature checks and all it depends on is stored; a bad signature is reported first |
| SyncStore.EveryStoreVerified | post-urbit-core/src/sync.rs:343-356 | in no reachable store is there an operation whose signature does not check |
| SyncStore.BatchKeepsClosed | post-urbit-core/src/sync.rs:580-598 | a batch keeps the store dependency-closed and forgets no id, wherever it stops; if it goes through, everything it acknowledged is stored |
| SyncStore.AddKeepsRecordsExactly | post-urbit-core/src/sync.rs:343-356 | an addition keeps every stored record if and only if it is refused, its id is new, or it brings the record that is stored |
| SyncStore.BatchKeepsRecords | post-urbit-core/src/sync.rs:580-598 | if an id determines its record, a batch keeps every stored record as it is |
| SyncStore.EveryStoreClosed | post-urbit-core/src/sync.rs:343-356 | every reachable store is dependency-closed, failed batches included |
| SyncStore.EveryStoreAcyclic | post-urbit-core/src/sync.rs:343-356 | if an id determines its record, the dependencies of every reachable store have a topological numbering |
| SyncStore.NoCycle | post-urbit-core/src/sync.rs:343-356 | then no chain of dependencies leads back to its start |
| SyncStore.CycleWhenAnIdRecurs | post-urbit-core/src/sync.rs:343-356 | without that assumption three accepted additions form a cycle |
| SyncStore.InsertionAcyclicExactly | post-urbit-core/src/sync.rs:349-354 | storing a record whose dependencies are stored, under a new id or over an old record, leaves a store without cycles if and only if none of its dependencies is, or depends on, that id |
| SyncStore.AddAcyclicExactly | post-urbit-core/src/sync.rs:343-356 | so an addition keeps a store without cycles if and only if it is refused or closes none, and one under a new id never closes any |
| SyncStore.EveryAdditionAcyclicExactly | post-urbit-core/src/sync.rs:343-356 | in a run of additions no store on the way has a cycle if and only if none that was accepted closed one |
| Sorting.Sorts | post-urbit-core/src/sync.rs:195-213 | sorting by a strict order, of operations or of encoded keys, rearranges into ascending order |
| SyncMerkle.OrderedInOrder | post-urbit-core/src/sync.rs:195-213 | sorting distinct operations gives a strictly ascending list of just these operations |
| SyncMerkle.BeforeIsStampOrder | post-urbit-core/src/sync.rs:195-213 | that order is the byte order of milliseconds and logical counter, both big-endian, then origin, then id |
| SyncMerkle.EnumerationsAgree | post-urbit-core/src/sync.rs:195-213 | the order in which the hash map yields its records does not change the sorted list |
| SyncMerkle.ComputeMerkleRoot | post-urbit-core/src/sync.rs:167-193 | the padding and pairing loops compute the root the theorems speak about |
| SyncMerkle.RootIsTree | post-urbit-core/src/sync.rs:167-193 | the pairing loops give the root of the lowest full binary tree with room for the operations: leaf hashes of the ids in operation order from left to right, then empty leaves |
| SyncMerkle.PaddedRootInjective | post-urbit-core/src/sync.rs:175-192 | padding to a power of two loses nothing: leaf lists with equal roots are equal |
| SyncMerkle.RootsEqualExactly | post-urbit-core/src/sync.rs:167-213 | with a collision-free hash, two lists of distinct operations have equal roots exactly when they hold the same ids |
| SyncExchange.EqualRootsExactly | post-urbit-core/src/sync.rs:548-560 | two compatible stores have equal roots exactly when they are equal, so the early exit is sound |
| SyncExchange.SyncSession.Request | post-urbit-core/src/sync.rs:540-546 | the request carries the root of the store, however the map is enumerated |
| SyncExchange.SyncSession.HandleRequest | post-urbit-core/src/sync.rs:548-560 | an offer of nothing for an equal root, of all ids in order otherwise; an error for another document |
| SyncExchange.OfferExactly | post-urbit-core/src/sync.rs:215-220 | an offer for another root names exactly the stored ids, each once, in the order of their stamps: an operation with an earlier clock reading comes first |
| SyncExchange.SyncSession.HandleOffer | post-urbit-core/src/sync.rs:562-567 | asks for the offered ids that are not stored, in order; rejects ids of the wrong length |
| SyncExchange.SyncSession.HandleAccept | post-urbit-core/src/sync.rs:569-578 | sends the stored operations asked for, in order, or reports the first bad id |
| SyncExchange.SyncSession.HandleOperations | post-urbit-core/src/sync.rs:580-598 | in place: stores operations up to the first that fails and keeps what it stored |
| SyncExchange.Pull | post-urbit-core/src/sync.rs:540-598 | the four messages between two sessions have the effect of `Exchange` on the receiver's store |
| SyncExchange.ExchangeExactly | post-urbit-core/src/sync.rs:381-404 | an exchange succeeds if and only if each missing operation depends only on stored operations or on ones sorted before it; then the receiver holds exactly the union and acknowledged exactly what it lacked, otherwise it reports a missing dependency |
| SyncExchange.CausalIsDeliverable | post-urbit-core/src/sync.rs:195-213 | that condition holds whenever the sender's store is dependency-closed and its operations sort after their dependencies |
| SyncExchange.TwoExchangesConverge | post-urbit-core/src/sync.rs:540-598 | pulling once each way leaves two such stores equal to their union, with equal roots, and never fails |
| SyncExchange.HybridClocksConverge | post-urbit-core/src/sync.rs:540-598 | so do two closed stores in which every operation is stamped by a later milliseconds and logical counter than everything it depends on |
| SyncExchange.StoppedStaysStopped | post-urbit-core/src/sync.rs:580-598 | an exchange that stops leaves a store for which the next one stops as well |
| SyncExchange.NeverConverges | post-urbit-core/src/sync.rs:540-598 | without the condition no interleaving of pulls in both directions brings a replica up to date: its next pull fails like the first |
| SyncExchange.CatchesUpExactly | post-urbit-core/src/sync.rs:540-598 | some interleaving of pulls brings a replica all the other has if and only if what it misses is deliverable, and then its first pull does |
| SyncExchange.LateDependencyNeverArrives | post-urbit-core/src/sync.rs:195-213 | a store that the code accepts and that never reaches an empty peer, however the two pull from one another: an operation stamped before the one it depends on |
| SyncCbor.EncodeMajor | post-urbit-core/src/sync.rs:468-484 | appends a head in the shortest form, the one that `HeadReadsBack` reads |
| SyncCbor.HeadReadsBack | post-urbit-core/src/sync.rs:468-484 | a head reader written from RFC 8949, section 3, reads back major type and argument, whatever follows |
| SyncCbor.HeadPrefixFree | post-urbit-core/src/sync.rs:468-484 | a head determines its major type, its argument and where it ends |
| SyncCbor.ReadsBack | post-urbit-core/src/sync.rs:412-466 | so does a reader of whole items for every value in range, however deeply nested, with whatever comes behind it: decoding undoes encoding |
| SyncCbor.DecodeCbor | post-urbit-core/src/sync.rs:99-108 | reads an item and takes it only if it encodes back to the very same bytes |
| SyncCbor.DecodedExactly | post-urbit-core/src/sync.rs:99-108 | the decoder accepts exactly the encodings of values in range, and returns these values |
| SyncCbor.PrefixFree | post-urbit-core/src/sync.rs:406-466 | encodings of values in range are prefix-free and injective, however deeply nested |
| SyncCbor.EncodeInto | post-urbit-core/src/sync.rs:412-466 | appends the encoding of a value, which does not depend on the order map entries are visited in; names the cause of each error |
| SyncCbor.EncodeMap | post-urbit-core/src/sync.rs:442-459 | the same for maps: keys are written in the order of their encodings, whatever order they were met in |
| SyncCbor.EncodesExactly | post-urbit-core/src/sync.rs:412-466 | a value can be encoded exactly when it holds no float or tag and no map in it has two keys that encode alike |
| SyncCbor.InRangeNeverCollides | post-urbit-core/src/sync.rs:449-453 | for values in range the duplicate-key error is unreachable |
| SyncCbor.OutOfRangeCollides | post-urbit-core/src/sync.rs:412-466 | every value that can be encoded with an integer beyond the 64-bit arguments anywhere inside, map keys included, encodes exactly like another value, the one with its integers cast, which is in range if the lengths are |
| SyncCbor.CastEncodesSame | post-urbit-core/src/sync.rs:420-427 | casting every integer inside a value to 64 bits leaves its encoding as it is |
| SyncCbor.EncodeAlikeExactly | post-urbit-core/src/sync.rs:406-466 | two values that can be encoded, with lengths within 64 bits, encode alike if and only if they agree once their integers are cast, whatever is appended to the encodings |
| OrSet.MergeCommutes | post-urbit-core/src/sync.rs:643-656 | merging is commutative |
| OrSet.MergeAssociates | post-urbit-core/src/sync.rs:643-656 | merging is associative |
| OrSet.MergeIdempotent | post-urbit-core/src/sync.rs:643-656 | merging a replica with itself changes nothing |
| OrSet.ReplicasConverge | post-urbit-core/src/sync.rs:621-675 | replicas that absorbed the same adds and removes, in any order, with any duplication and any pattern of merges, are in the same state |
| OrSet.VisibleExactly | post-urbit-core/src/sync.rs:658-675 | a value is reported exactly when some add of it is named by no remove in its history |
| OrSet.AddSurvivesMerge | post-urbit-core/src/sync.rs:643-675 | an add whose tag no remove named stays visible through every merge |
| OrSet.ORSet.Insert | post-urbit-core/src/sync.rs:629-631 | in place: the state that `Add` gives |
| OrSet.ORSet.Delete | post-urbit-core/src/sync.rs:633-641 | in place: the state that `Remove` gives; no tags, no change |
| OrSet.ORSet.MergeFrom | post-urbit-core/src/sync.rs:643-656 | in place: the state that `Merge` gives, the other replica untouched |
| OrSet.ORSet.CurrentValues | post-urbit-core/src/sync.rs:658-675 | the nested loops report exactly the values with an unremoved tag |
| Encoding.EncodeBase32 | post-urbit-core/src/encoding.rs:21-43 | reading bit by bit gives the five-bit groups of the zero-padded bit string |
| Encoding.DecodeBase32 | post-urbit-core/src/encoding.rs:45-61 | the 32-bit shift buffer, whose top bits fall off, gives the complete bytes of the bit string, or the error for a bad character |
| Encoding.DecodeUndoesEncode | post-urbit-core/src/encoding.rs:21-61 | decoding undoes encoding for every byte string |
| Encoding.EncodingIsNumeral | post-urbit-core/src/encoding.rs:21-43 | the encoding is the data as one big-endian number, with fewer than five zero bits behind it, written in base 32 |
| Encoding.AlphabetAscends | post-urbit-core/src/encoding.rs:81-101 | the characters are the digits and the letters but i, l, o and u, valued in ascending order |
| Encoding.EncodeUndoesDecodeExactly | post-urbit-core/src/encoding.rs:21-61 | encoding undoes decoding if and only if there is no superfluous character and the bits left over are zero |
| Encoding.SuperfluousCharacterAccepted | post-urbit-core/src/encoding.rs:45-61 | "0" decodes, although no bytes encode to it |
| Encoding.LeftoverBitsAccepted | post-urbit-core/src/encoding.rs:45-61 | "01" and "00" decode alike |
| Encoding.IdsAreTwentyBytes | post-urbit-core/src/encoding.rs:21-79 | a valid 32-character id decodes to 20 bytes that encode to it again |
| Encoding.TwentyBytesAreIds | post-urbit-core/src/encoding.rs:21-79 | 20 bytes encode to a valid 32-character id that decodes to them: a bijection |
| Encoding.ValidatorExact | post-urbit-core/src/encoding.rs:63-101 | the validator accepts exactly the non-empty strings the decoder accepts |
| Encoding.ValidateBase32 | post-urbit-core/src/encoding.rs:63-79 | the validation loop, with its two errors |
| Dht.FileDht.PutValue | post-urbit-core/src/dht.rs:288-318 | in place: cache and disk after a put, the disk untouched by a duplicate |
| Dht.FileDht.GetValues | post-urbit-core/src/dht.rs:320-346 | in place: answer, cache and disk after a query that drops expired values |
| Dht.FileDht.CleanupExpired | post-urbit-core/src/dht.rs:252-275 | in place: every cached record loses its expired values, on disk too, and the count is the number of values removed |
| Dht.FileDht.constructor | post-urbit-core/src/dht.rs:139-184 | a start from disk loads the unexpired values of every file it reads back, all but the empty key's, and leaves the files alone |
| Dht.EveryRunShowsHistory | post-urbit-core/src/dht.rs:139-346 | after every run of puts, queries, cleanups and restarts, the cache shows the unexpired, deduplicated put history of every key, now and at any later time, and so does the disk for every key that is read back |
| Dht.QueriesAnswerHistory | post-urbit-core/src/dht.rs:320-346 | a query answers that history, in order |
| Dht.LifetimeExactly | post-urbit-core/src/dht.rs:68-75 | through any run, a value put where it was not answered is answered until, and including, the second its lifetime ends, for good with a lifetime of zero, and never if the end does not fit in 64 bits; putting it again before then does not extend it |
| Dht.RefreshIsLost | post-urbit-core/src/dht.rs:304-309 | a run in which a value that was put again in good time is gone when its first lifetime ends |
| Dht.PutAppends | post-urbit-core/src/dht.rs:288-318 | a put adds its value behind the answers there were, unless it is among them or its lifetime does not fit |
| Dht.RepeatedPutInvisible | post-urbit-core/src/dht.rs:304-309 | putting a value that is answered changes no later answer of any key |
| Dht.RestartInvisible | post-urbit-core/src/dht.rs:139-184 | a restart at any point of a run changes no later answer, for any key but the empty one |
| Dht.RestartKeepsAnswersExactly | post-urbit-core/src/dht.rs:151-174 | a restart keeps the answers for a key if and only if the key is not empty or there were none |
| Dht.ReadBackExactly | post-urbit-core/src/dht.rs:133-163 | the file of a key, its hex digits and `.json`, is read back under that key if and only if the key is not empty, and no two keys share a file |
| Dht.EmptyKeyIsLost | post-urbit-core/src/dht.rs:133-156 | a value of the empty key is gone after a restart: its file is called `.json`, a name without an extension |
| Dht.CleanupInvisible | post-urbit-core/src/dht.rs:252-275 | a cleanup changes no answer from then on |
| Dht.CleanupPurgesExactly | post-urbit-core/src/dht.rs:252-275 | for every key, cached or not: after a cleanup nothing cached is expired, and the file holds expired values exactly if it did before while the cache held none of them |
| Dht.QueryPurgesExactly | post-urbit-core/src/dht.rs:320-346 | a query leaves expired values in the file of its key exactly if it saw none in the cache, and touches no other key |
| Dht.PutPurgesExactly | post-urbit-core/src/dht.rs:288-318 | a put leaves expired values in the file of its key exactly if they were there and the value was answered already, or its own lifetime does not fit, and touches no other key |
| Dht.CleanupCanLeaveExpired | post-urbit-core/src/dht.rs:252-309 | a run after which an expired value stays on disk through a cleanup that reports nothing removed |
| Dht.StaleFileStays | post-urbit-core/src/dht.rs:252-346 | a wholly expired file of a key the cache does not hold stays as it is through any queries, cleanups and restarts; only a put of its key replaces it |
| Dht.RestartCanLeaveExpired | post-urbit-core/src/dht.rs:166-174 | such a file is what a restart leaves when all values of a key have expired |
| Dht.AnswersDistinct | post-urbit-core/src/dht.rs:304-309 | no value is answered twice |
| Dht.PutAnsweredExactly | post-urbit-core/src/dht.rs:68-75 | a put value is answered at once unless its expiry time does not fit in 64 bits; then exactly if it was there already |
| Dht.OverflowingPutIsLost | post-urbit-core/src/dht.rs:68-75 | a value put with an expiry time beyond 64 bits is not answered |
| Dht.OnlyExpiryRemoves | post-urbit-core/src/dht.rs:288-346 | later events of any kind remove an answered value only by its expiry, or by a restart when its file is not read back |
| Puse.ParseUndoesBuild | post-urbit-core/src/messaging.rs:37-105 | every extension that can be built is parsed back unchanged; only a group extension of iteration zero cannot be built |
| Puse.BuildUndoesParse | post-urbit-core/src/messaging.rs:37-105 | what the extension parser accepts is exactly what building its result gives |
| Puse.ValidExactly | post-urbit-core/src/messaging.rs:349-384 | what passes as an extension is whatever can be built, and anything within a kilobyte of an unknown type |
| Puse.EncodePuseHeader | post-urbit-core/src/messaging.rs:107-127 | appending field by field gives the header layout, or the error of the extension |
| Puse.DecodePuse | post-urbit-core/src/messaging.rs:132-251 | the cursor stays inside the buffer on every input, and result or error are those of `DecodeEnvelope` |
| Puse.DecodeUndoesEncodeExactly | post-urbit-core/src/messaging.rs:107-251 | of the envelopes the encoder can write, the decoder returns unchanged exactly those with matching flags, an honest ciphertext length and at most a megabyte |
| Puse.EncodeUndoesDecode | post-urbit-core/src/messaging.rs:132-251 | what the decoder accepts is legal and is the encoding of what it returned |
| Puse.AcceptedExactly | post-urbit-core/src/messaging.rs:132-251 | the accepted strings are the encodings of legal envelopes, one each |
| Puse.DecodeInjective | post-urbit-core/src/messaging.rs:132-251 | no two accepted strings decode alike |
| Puse.BuildPuseEnvelope | post-urbit-core/src/messaging.rs:289-312 | a built envelope carries the true ciphertext length, and the signature covers all bytes before it |
| RateLimiter.NetworkManager.CheckRequest | post-urbit-core/src/network.rs:104-181 | in place: outcome, bucket and overrides after a check; a refusal charges nothing |
| RateLimiter.NetworkManager.RecordResponse | post-urbit-core/src/network.rs:118-201 | in place: the same for the bytes of a response |
| RateLimiter.NetworkManager.EnsureRolled | post-urbit-core/src/network.rs:203-226 | in place: creates the bucket and rolls over each window that has run out |
| RateLimiter.LimitsExact | post-urbit-core/src/network.rs:132-155 | a count is below an effective limit exactly when it is below the default and below the override, if there is one; no override touches the byte limit |
| RateLimiter.CheckExactly | post-urbit-core/src/network.rs:158-226 | in every run a request is accepted if and only if what the pair was granted since its last minute and its last day opened, this very call included, leaves room for it under the default limits, the override in force and the byte limit |
| RateLimiter.RespondExactly | post-urbit-core/src/network.rs:183-201 | in every run a response is accepted if and only if the bytes granted to the pair since its last day opened, this very call included, and its own are at most 100 MiB; it is charged its bytes and no request, and nothing when refused |
| RateLimiter.WindowsLast | post-urbit-core/src/network.rs:214-226 | a minute that a call opens lasts sixty seconds from its second reading of the clock, and a day a day |
| RateLimiter.LastSettingsCount | post-urbit-core/src/network.rs:94-155 | the overrides in force are those last set for the application, with nothing left of earlier ones |
| RateLimiter.RatesLimited | post-urbit-core/src/network.rs:132-226 | overrides included: if the checks of a pair inside a minute, wherever it starts, met limits of at most n, that minute holds at most 2n accepted requests, and at most n if no window opens inside it; likewise for days and bytes |
| RateLimiter.RatesBounded | post-urbit-core/src/network.rs:158-226 | in every run, whatever overrides are set and when: counters never pass the default limits, any minute holds at most 200 accepted requests, any day at most 20,000 and at most twice 100 MiB |
| RateLimiter.CounterExact | post-urbit-core/src/network.rs:158-226 | in every run the counters of a pair are exactly what was accepted for it since its last minute and its last day opened |
| RateLimiter.LimitIsNotSliding | post-urbit-core/src/network.rs:214-226 | for every limit n up to 100 there is a run in which 2n requests pass within two seconds |
| RateLimiter.DoubleIsExact | post-urbit-core/src/network.rs:158-226 | so a bound on every minute of every run under a limit of n holds if and only if it is at least 2n |
| RateLimiter.NetworkManager.SetAppLimits | post-urbit-core/src/network.rs:94-102 | in place: replaces all overrides of one application and nothing else |
| RateLimiter.PairsAreIsolated | post-urbit-core/src/network.rs:158-201 | a pair's bucket is the same as if no other application or domain had ever called |
| MailboxUrl.NormalizePercentEncoding | post-urbit-core/src/mailbox.rs:190-225 | the index loop computes the normal form or the first error |
| MailboxUrl.NormalizeSpells | post-urbit-core/src/mailbox.rs:190-225 | normalising spells out the meaning of a string, its tokens after percent-decoding |
| MailboxUrl.RefusedExactly | post-urbit-core/src/mailbox.rs:190-225 | a string is refused if and only if a percent sign in it is not followed by two hex digits |
| MailboxUrl.UnreservedExactly | post-urbit-core/src/mailbox.rs:182-184 | the unreserved characters are those of RFC 3986, section 2.3 |
| MailboxUrl.HexExactly | post-urbit-core/src/mailbox.rs:200-217 | hex digits are read in either case and written in upper case |
| MailboxUrl.IdempotentExactly | post-urbit-core/src/mailbox.rs:190-225 | normalising twice is normalising once for exactly the ASCII strings |
| MailboxUrl.OctetsKeptExactly | post-urbit-core/src/mailbox.rs:190-225 | normalising keeps the percent-decoded octets for exactly the ASCII strings |
| MailboxUrl.WideByteGrows | post-urbit-core/src/mailbox.rs:219-222 | a byte from 0x80 on becomes two, and four when normalised again, and decodes to something else |
| MailboxUrl.AlikeExactly | post-urbit-core/src/mailbox.rs:182-225 | two spellings normalise alike exactly when they differ at most in hex case and in escaping unreserved bytes |
| MailboxUrl.CanonicalizePath | post-urbit-core/src/mailbox.rs:268-284 | the path part with its trailing-slash loop |
| MailboxUrl.CanonicalPathExactly | post-urbit-core/src/mailbox.rs:268-284 | the canonical form of a path is its normal form without the slashes at its end, and a single slash where nothing else is left |
| MailboxUrl.CanonicalIsFixed | post-urbit-core/src/mailbox.rs:268-284 | the paths that canonicalisation leaves as they are, as the token check requires of the path of its URL, are exactly the normalised ones without a trailing slash |
| MailboxUrl.CanonicalPathIdempotent | post-urbit-core/src/mailbox.rs:268-284 | canonicalising always reaches such a path, and doing it again changes nothing |
| Group.GroupState.New | post-urbit-core/src/group.rs:150-168 | a group with its creator as owner, or the reason there is none |
| Group.GroupState.ApplyUpdate | post-urbit-core/src/group.rs:170-263 | in place: outcome and whole new state; any refused or stale update leaves the state as it was |
| Group.AppliedExactly | post-urbit-core/src/group.rs:170-255 | an update takes effect if and only if it is for the group, carries a version its actor may use, is newer than the last, names a target where one is needed and comes from a member that the role table of the specification entitles to it (or that removes itself) |
| Group.NothingLostExactly | post-urbit-core/src/group.rs:170-263 | a replica loses none of the updates it is sent if and only if they come in strictly increasing order, from above the last it knows, and each is entitled to when it comes |
| Group.RolesAfter | post-urbit-core/src/group.rs:222-257 | an update that takes effect changes at most its target's role: who is already a member keeps the role when added again, and only members are promoted or demoted |
| Group.TotalPreorder | post-urbit-core/src/group.rs:292-308 | the order of updates is a total preorder; ties are exactly agreement in clock, suffix, actor and action |
| Group.NewerExactly | post-urbit-core/src/group.rs:292-308 | the higher clock decides, then the greater suffix, then the greater actor, then the action's name |
| Group.ClocksNeverFall | post-urbit-core/src/group.rs:170-179 | in every run the clocks of the updates that take effect never fall, and of equal clocks the greater suffix comes later |
| Group.HigherClockTakesEffect | post-urbit-core/src/group.rs:170-263 | an entitled update with a higher clock than the last takes effect |
| Group.VersionIsLast | post-urbit-core/src/group.rs:258-261 | the version of a group is that of the last update that took effect |
| Group.TakenIncreasing | post-urbit-core/src/group.rs:170-179 | in every run the updates that take effect are strictly increasing |
| Group.Replay | post-urbit-core/src/group.rs:170-263 | the state is a replay of just these updates, all of which take effect again |
| Group.RedeliveryChangesNothing | post-urbit-core/src/group.rs:175-179 | delivering again anything that took effect changes nothing and is no error |
| Group.LateUpdateLost | post-urbit-core/src/group.rs:175-179 | after a newer update an older one has no effect |
| Group.OrderMatters | post-urbit-core/src/group.rs:170-263 | so two replicas that see the same two updates in different orders end with different members |
| Group.ReplicasPart | post-urbit-core/src/group.rs:150-263 | in every group that can be created two updates of its creator, delivered in different orders, leave two replicas with different members |
| Group.ReplicasAgree | post-urbit-core/src/group.rs:170-263 | replicas at which the same updates took effect end equal, whatever else they were sent and in whatever order |
| Group.LosslessReplicasAgree | post-urbit-core/src/group.rs:170-263 | so replicas that lose none of the same updates end equal |
| Group.OnlyCreatorOwns | post-urbit-core/src/group.rs:150-263 | in every reachable group the only possible owner is the creator, and no one is a moderator |
| Group.AdminsWerePromoted | post-urbit-core/src/group.rs:215-218 | every administrator was promoted by an update that took effect and whose actor was owner then |
| Group.AdminsOwedToCreator | post-urbit-core/src/group.rs:150-263 | from a group's creation on, that actor is the creator |
| Group.NoOwnerNoNewAdmins | post-urbit-core/src/group.rs:215-218 | once no owner remains there is never one again, and the administrators only get fewer |
| Group.VersionRoundTrips | post-urbit-core/src/group.rs:277-290 | a clock and an eight-byte suffix without dots are read back as they were joined |
| Group.DecimalVersion | post-urbit-core/src/group.rs:277-290 | a number written in decimal is read back as the clock of a version, exactly if it fits 64 bits |
| Group.ValidVersionExactly | post-urbit-core/src/group.rs:266-290 | the versions an actor may use are exactly a 64-bit clock, spelled 0 if it is zero, a dot, and the actor's first eight bytes |
| Group.FirstVersionValid | post-urbit-core/src/group.rs:150-153 | the version a group starts with is one its creator may use |
| Stun.ParseStunResponse | post-urbit-core/src/nat.rs:241-293 | terminates and reads inside the buffer on every input |
| Stun.ParseReadsFirstAddress | post-urbit-core/src/nat.rs:264-293 | of a well laid out response the first mapped address of either kind is read, whatever padding, transaction and trailing bytes are |
| Stun.AddressesReadBack | post-urbit-core/src/nat.rs:296-357 | the mask is undone, and a plain address is read as it is |
| Stun.MaskExactly | post-urbit-core/src/nat.rs:296-330 | a bit of a masked host or port is set exactly where host and magic cookie, or port and the cookie's high half, differ |
| Stun.AnswerUnderstood | post-urbit-core/src/nat.rs:241-357 | a response with an address, masked or plain, behind any other attributes yields that address |
| Stun.PlainFirstWins | post-urbit-core/src/nat.rs:279-284 | a plain address in front of a masked one is returned, so the masked one is not preferred |
| Stun.NothingReadBeyondLength | post-urbit-core/src/nat.rs:253-293 | on any bytes, what lies behind the declared length is never looked at |

## Left out

- Ratchet.RatchetState.RatchetEncrypt: message indices are unbounded, so the overflow of the 32-bit counters after 2^32 messages on one chain is not modelled.
- Ratchet.InitialSecretsAgree: HKDF, HMAC and X25519 are free terms, so low-order points and collisions do not exist here.
- RatchetSecrecy.ForwardSecrecyExactly: secrets are those of the state; message keys that were handed out are the caller's to forget, and private keys that were replaced are covered by giving away their Diffie-Hellman outputs.
- RatchetSecrecy.BreakInRecoveryExactly: the exposed private key is that of the state; identity keys are not part of the state, and the exposed key is taken to be neither an identity key nor one drawn again later (the record of a run already excludes the latter once the party has sent). The same holds for SentRecoveryExactly. Whoever holds the state does not also send messages in the party's name.
- Ratchet.RatchetState.RatchetDecrypt: the code does not reject replayed or forged headers, so no agreement is claimed for them; only the bounds cover them.
- SyncStore.Store.AddOperation: signature checking is a predicate on records; the code checks the signature over the stored id and does not recompute the id, so that an id determines its record is an assumption of the theorems that need it.
- SyncExchange.Pull: the record codec (serde over CBOR) is a pair of functions assumed to round-trip where a theorem needs it, and the depth field of a request, which the handlers ignore, is dropped.
- SyncMerkle.ComputeMerkleRoot: SHA-256 is collision-free by construction, and the sort is an insertion sort with the same order, in `Sorting`, instead of the library's.
- SyncCbor.EncodeInto: floats, tags and other kinds are one constructor, since the encoder refuses them all; text is its UTF-8 bytes.
- SyncCbor.DecodeCbor: the parsing library is replaced by a reader written from RFC 8949; whether text is well-formed UTF-8, the library's nesting limit, and which error is reported are not modelled.
- SyncCbor.PrefixFree: needs integers and lengths within 64 bits; integers beyond collide, as `OutOfRangeCollides` shows, and lengths beyond do not fit in memory.
- Encoding.DecodeBase32: strings are character sequences; a character beyond ASCII is one bad character instead of several bad bytes, with the same error.
- Dht.EveryRunShowsHistory: one clock reading per call, calls that do not overlap, file writes that are atomic and succeed, and a clock that never goes back.
- Puse.BuildPuseEnvelope: encryption is done before the call, and signing is a function.
- RateLimiter.RatesBounded: a request's time is the clock reading that placed it in its window, and the lookup of overrides and the check are one step.
- MailboxUrl.CanonicalIsFixed: covers the path of the URL that the token check compares; its scheme, host and port come out of `Url::parse`.
- MailboxUrl.CanonicalizePath: scheme, host, port and userinfo are checked by `Url::parse` and the code around it, which is not part of this model.
- Group.GroupState.New: the panic on a short creator is an error value.
- Stun.ParseStunResponse: IPv6 addresses are errors, as in the code; the request, the sockets and the NAT-type detection are not part of this model.
- Stun.AddressesReadBack: exclusive or is defined on integers bit by bit instead of on machine words.
- `MemoryDht`, sender keys, the PURL relay codec, mailbox tokens and bearer tokens, HTTP execution and host blocking: they would add easy members or consist of opaque library calls.
- The identity, application, runtime, HTTP, logging and shell code: chains of checks around libraries that are not modelled.
