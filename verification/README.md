# burndrop, modelled and proved in Dafny

burndrop moves secrets between a human and an agent through one-time slots on a relay: a drop
carries a secret from a page to the agent, a reveal carries one back. This project models the
parts of it that are hard to get right and proves what they are for:

- **The relay's slot store.** `Slots` is an abstract machine of one-time slots; a call of a
  store is one step, so any interleaving of clients is a sequence of steps. `SlotRuns`,
  `ExactlyOnce` and `LazyExpiry` prove what holds over whole runs: the life cycle, the limits,
  that a ciphertext is handed out at most once, that sweeping is invisible. `MemoryStore` is
  the in-memory store on heap objects (slots, arrays, a binary heap of timers, counters, the
  channels of long polls); `RedisStore` is the Redis store as hashes, two sorted sets and two
  counters worked on by scripts. Each method is proved to make exactly the machine's step, and
  `StoreEquivalence` runs both side by side. `SlotLaws` says of every call, from the slot's
  fields alone, exactly when it succeeds, what it answers and what it leaves. `SharedSweep` is a
  Redis sweep as it runs, script by script among other clients' calls. `Handlers` adds the
  relay's buffers and responses.
- **The agent's side.** `DropProtocol` and `Agents` follow a drop from request to stored secret
  with idealised cryptography, and `DropJourney` runs one through relay, page and agent;
  `Redactor` is the multi-pattern rewrite of outgoing text; `Manager`, `Dotenv` and `Keychain`
  are the stores of secrets.
- **The codecs.** `Base64Url` (RFC 4648 sections 5 and 3.5, both TypeScript versions),
  `Padding` (ISO/IEC 7816-4), `Envelopes`, `Utf8`, `Escaping` and `Links` with `LinkLaws`
  and `LinkTexts` (RFC 3986 section 2.1 in the form-style variant).

`dafny verify dfyconfig.toml` checks everything.

## Conventions

Times are integers, 0 or None for a time that is not set; a call takes the clock readings it
makes as arguments. In the memory store calls may read the clock twice, and both readings are
arbitrary unless a statement says otherwise. Texts and secret values outside the relay are
sequences of bytes with one `char` per byte; UTF-8 is explicit (`Utf8`). JSON, standard base64,
the sealed box, the authenticated cipher and SHA-256 are records of functions with a `Lawful`
predicate saying what is assumed of them, which `Assumptions` shows to be consistent;
randomness, fresh ids and tokens are arguments. Ids that were used are not assumed to stay
unused: statements about a slot speak of the time since its last creation.

Some promises hold only under a condition. The model follows the code, and the condition is proved:

- `load(save(load(x)))` equals `load(x)` if and only if every text value is UTF-8 and no kept line
  ends in a carriage return (`Dotenv.SaveLoadSame`); `Dotenv.BadByteLost` and
  `Dotenv.CarriageReturnLost` are files that show both failures.
- Removing a name from the redactor also forgets forms another name had registered later
  (`Redactor.RemoveForgetsShared`).
- If forms have no brackets, nothing registered survives redaction if no marker holds a form
  (`Redactor.NothingSurvives`); exactly, if it survives in no form's own redaction
  (`Redactor.NothingSurvivesIff`).
- The two stores reply alike as long as each call on a slot comes before the end of its grace
  period and only tombstones are dropped, after it (`StoreEquivalence.RunsAgree`). A later call
  tells them apart exactly if Redis has dropped the slot and memory has not swept it yet
  (`StoreEquivalence.StepsAgreeExactly`, `StoreEquivalence.LateCallDiffers`).
- Lazy expiry is eager expiry if and only if nothing is limited
  (`LazyExpiry.LazyIsEagerIffUnlimited`).
- A keychain record is written but cannot be read if and only if it is longer than a thousand
  chunks (`Keychain.Keychain.Put`, `Keychain.FitsInPieces`). With chunks of 2000 bytes that takes
  two million bytes, which only metadata can have; `Assumptions.TooManyPieces` is such a record.
  From contiguous chunks a put leaves stale ones exactly if there were more than a thousand.
- The script that removes one id is a removal step if and only if the slot's grace is over
  (`RedisStore.Redis.RemoveScript`).
- The key expiry set on a Redis hash keeps the counters exact only if the slot is a tombstone
  by then (`RedisStore.Redis.KeyExpires`, `StoreEquivalence.SweptBeforeDropped`).

## Model

| member | source | states |
|---|---|---|
| SlotRuns.StepFollows | internal/relay/types.go:29-55 | one call moves a slot along a documented edge only, never changes kind, creation or expiry time, never changes a terminal slot, and removes it only by a sweep after its grace |
| SlotRuns.StepWellFormed | internal/relay/types.go:138-151 | every call keeps: terminal slots hold no ciphertext, commitment or token; a created drop holds no ciphertext; only drops are uploaded or fetched, only reveals opened |
| SlotRuns.RunWellFormed | internal/relay/types.go:138-151 | the same in every state of every run from an empty store |
| SlotRuns.RunFollows | internal/relay/types.go:29-55 | over any stretch of a run in which an id is not created anew, its slot keeps kind and times, moves only forward through the life cycle, and once terminal is frozen |
| SlotRuns.RevokeHandlerKind | internal/relay/handlers.go:258-286 | the revoke endpoint's separate status and revoke calls act on the same kind of slot whatever happens between them, unless the id is created anew |
| SlotRuns.StepWithinLimits | internal/relay/memory.go:56-70 | no call of any kind exceeds a limit on live slots or stored bytes that is set |
| SlotRuns.RunWithinLimits | internal/relay/store.go:57-62 | live slots and stored bytes stay within the non-zero limits in every state of every run |
| Slots.WithDefaults | internal/relay/store.go:64-72 | an unset grace becomes positive, which the exactness of the counters rests on |
| Slots.BytesWithout | internal/relay/memory.go:15-23 | the stored bytes are the sum over the slots in whatever order they are taken out |
| Slots.CreatedCounts | internal/relay/memory.go:56-79 | a new slot adds one to the live slots and its ciphertext to the bytes |
| Slots.FilledCounts | internal/relay/memory.go:101-135 | an accepted upload adds exactly its length, although nothing is subtracted, since a created drop held none |
| Slots.TombstoneCounts | internal/relay/memory.go:94-99 | a live slot that becomes a tombstone leaves both counts by exactly its share |
| Slots.TombstoneIsEmpty | internal/relay/memory.go:285-289 | removing a tombstone changes neither count, so a bare delete is right for it |
| Slots.StoredCounts | internal/relay/memory.go:56-79 | storing a slot counts it rightly, whatever slot it is, if and only if it is live |
| Slots.RefilledCounts | internal/relay/memory.go:124-128 | adding an upload's length without taking off the old is right if and only if the slot held nothing |
| Slots.LiveWithout | internal/relay/redis_store.go:162-164 | losing a live slot without releasing it leaves the live count one too high |
| SlotLaws.CountsExactly | internal/relay/memory.go:299-303 | live slots are those created or uploaded; the stored bytes are the sum of the ciphertext lengths |
| SlotLaws.SeenExactly | internal/relay/memory.go:82-99 | a slot is usable exactly while it is created or uploaded and its expiry lies ahead; from its expiry on a live slot is seen as expired and empty |
| SlotLaws.CreateExactly | internal/relay/memory.go:56-79 | a creation succeeds if and only if the id is free and there is room for one more slot and for its bytes, and then the slot is stored as it is; else the store is full |
| SlotLaws.UploadExactly | internal/relay/memory.go:101-135 | an upload succeeds if and only if its slot is a drop, usable, empty, its upload token and commitment match and there is room; then exactly ciphertext, state and upload time change; else the first test that fails gives the error |
| SlotLaws.FetchExactly | internal/relay/memory.go:137-164 | a fetch delivers if and only if its slot is a drop, usable, uploaded, and its fetch token matches; it delivers the stored ciphertext with its upload time and leaves a fetched tombstone; else the first test that fails gives the error |
| SlotLaws.OpenExactly | internal/relay/memory.go:166-190 | the same for an open: a usable reveal and its reveal token; what it was created with, and its creation time |
| SlotLaws.RevokeExactly | internal/relay/memory.go:192-210 | a revocation succeeds if and only if the slot is usable and the token is one of its two; a refused one leaves the slot as lazy expiry left it |
| SlotLaws.StatusExactly | internal/relay/memory.go:212-220 | a status query reports kind, state and times, expired once the expiry has come |
| SlotLaws.SweepExactly | internal/relay/memory.go:274-297 | after a sweep exactly the slots within their grace are left, those that had run out as expired tombstones, the others as they were; the count is of both |
| SlotLaws.ExpireExactly | internal/relay/redis_store.go:229-240 | one id of a sweep: expired if and only if it had run out |
| SlotLaws.RemoveExactly | internal/relay/redis_store.go:242-255 | one id of a sweep: removed if and only if its grace is over |
| SlotLaws.DefaultsExactly | internal/relay/store.go:64-72 | an unset grace is a day, every other option stays as given |
| SlotLaws.DropDelivers | internal/relay/store.go:10-35 | a drop created, uploaded to and fetched before its expiry, with the right tokens and room, is reported as uploaded and delivers the uploaded bytes once, leaving a tombstone and all other slots alone |
| SlotLaws.RevealDelivers | internal/relay/store.go:10-35 | a reveal created and opened before its expiry delivers what it was created with |
| ExactlyOnce.LiveSlotExplained | internal/relay/store.go:10-35 | every live slot in every run is exactly what its creation and its one accepted upload made it |
| ExactlyOnce.DeliveredIsStored | internal/relay/store.go:10-35 | what a successful fetch or open returns is byte for byte the one accepted upload (or the created ciphertext), with the reading token, before expiry, with no other event between |
| ExactlyOnce.ClosedUntilCreated | internal/relay/store.go:10-35 | after a delivery or a revocation nothing is delivered unless the id is created anew in between |
| ExactlyOnce.AtMostOnce | internal/relay/store.go:10-35 | over any interleaving of any clients at most one fetch or open of a slot returns a ciphertext |
| LazyExpiry.SweptRunAlike | internal/relay/memory.go:82-99 | with a clock that does not run back and no limits, a run and the run without its sweeps give every timely call on a slot the same results |
| LazyExpiry.SweepsAreInvisible | internal/relay/store.go:14-15 | two runs that differ only in where they sweep answer every call on a slot before the end of its grace alike |
| LazyExpiry.LiveLimitShows | internal/relay/memory.go:62-64 | with any limit on live slots a run of as many creations shows that a sweep makes room: two runs differing in one sweep answer a timely call differently |
| LazyExpiry.ByteLimitShows | internal/relay/memory.go:65-67 | the same with any limit on stored bytes |
| LazyExpiry.LazyIsEagerIffUnlimited | internal/relay/store.go:14-15 | for every positive grace, where a store sweeps can be told by no timely caller of any run if and only if nothing is limited |
| SweepProgress.SweepIsDone | internal/relay/memory.go:274-297 | expiring and removing due slots in any order ends, once nothing is due, in exactly the swept slots, with exactly the overdue expired and the stale removed |
| SweepProgress.SweepIsComplete | internal/relay/memory.go:274-297 | a sweep leaves no live slot overdue and none past its grace, leaves every other slot untouched, and repeating it changes nothing |
| ExpiryHeap.FirstIsLeast | internal/relay/memory.go:36-54 | the root of the timer heap is no later than any other timer |
| ExpiryHeap.Push | internal/relay/memory.go:47 | pushing keeps the heap order and adds exactly the entry |
| ExpiryHeap.Pop | internal/relay/memory.go:48-54 | popping returns the least entry and keeps the order of the rest, which holds exactly the others |
| Timers.RemovalMeetsTombstone | internal/relay/memory.go:280-294 | when a removal timer is first in the heap its slot is already a tombstone, since the expiry timer of the id leaves before it |
| Timers.NothingDue | internal/relay/memory.go:279 | when the first timer is not due, no slot is overdue or past its grace |
| MemoryStore.Slot.Tombstone | internal/relay/types.go:138-151 | zeroes the slot's buffer in place and leaves state, times and nothing else, as the slot machine has it |
| MemoryStore.Slot.StateError | internal/relay/types.go:122-135 | the error carries the state and the time it was entered |
| MemoryStore.Copy | internal/relay/memory.go:68-69 | the store's copy of a buffer is a fresh array with the same bytes |
| MemoryStore.Memory.constructor | internal/relay/memory.go:26-32 | an empty store with defaults applied satisfies the invariant |
| MemoryStore.Memory.Get | internal/relay/memory.go:82-91 | finds a slot after lazy expiry of that slot and changes no other |
| MemoryStore.Memory.Expire | internal/relay/memory.go:94-99 | expires one live slot, keeping counters, waiters and all other slots |
| MemoryStore.Memory.Notify | internal/relay/memory.go:265-272 | wakes exactly the channels waiting on an id |
| MemoryStore.Memory.Create | internal/relay/memory.go:56-79 | reply and new state are those of the slot machine; counters, timers, waiters and disjoint buffers stay consistent |
| MemoryStore.Memory.Upload | internal/relay/memory.go:101-135 | the same for an upload; the caller's buffer is copied, never kept |
| MemoryStore.Memory.Fetch | internal/relay/memory.go:137-164 | the same for a fetch, with two clock readings; the returned buffer has left the store's footprint |
| MemoryStore.Memory.Open | internal/relay/memory.go:166-190 | the same for an open |
| MemoryStore.Memory.Revoke | internal/relay/memory.go:192-210 | the same for a revocation by either token |
| MemoryStore.Memory.Status | internal/relay/memory.go:212-220 | the same for a status query, which may expire the slot |
| MemoryStore.Memory.Register | internal/relay/memory.go:222-239 | the first half of Wait: answers at once unless the slot is in the named state and a timeout is given, and then parks a new channel |
| MemoryStore.Memory.Unregister | internal/relay/memory.go:249-262 | the second half of Wait: takes the channel out and reports the state then |
| MemoryStore.Memory.NoLostWakeUp | internal/relay/memory.go:222-272 | in every state between any steps, a parked poll on a live state whose channel is empty has its slot there in exactly that state; as soon as the slot differs or is gone the channel is full |
| MemoryStore.Memory.Remove | internal/relay/memory.go:285-290 | deleting a slot and its waiter set is only done to a tombstone and keeps every other invariant |
| MemoryStore.Memory.Fire | internal/relay/memory.go:279-295 | one timer of a sweep, stale timers included, makes the progress the slot machine's sweep allows |
| MemoryStore.Memory.SweepDue | internal/relay/memory.go:274-297 | the pop loop ends, and state and returned count are those of the slot machine's sweep: all expired plus all removed |
| MemoryStore.Memory.Stats | internal/relay/memory.go:299-303 | the running counters equal the number of live slots and the sum of stored ciphertext lengths |
| RedisStore.EncodedInjective | internal/relay/redis_store.go:342-353 | comparing encoded token hashes in scripts decides as comparing the hashes does |
| RedisStore.Redis.Get | internal/relay/redis_store.go:123-137 | the script prelude's lookup with lazy expiry does to hash, sets and counters what the slot machine does to the slot |
| RedisStore.Redis.Retire | internal/relay/redis_store.go:102-121 | release then tombstone moves a live slot to its final state in hash, live set and counters together |
| RedisStore.Redis.Create | internal/relay/redis_store.go:147-166 | reply and state are those of the slot machine; hash, sorted sets and counters stay in correspondence |
| RedisStore.Redis.Upload | internal/relay/redis_store.go:169-183 | the same for an upload |
| RedisStore.Redis.Fetch | internal/relay/redis_store.go:186-197 | the same for a fetch, decoded as the store method returns it |
| RedisStore.Redis.Open | internal/relay/redis_store.go:200-210 | the same for an open |
| RedisStore.Redis.Revoke | internal/relay/redis_store.go:213-220 | the same for a revocation |
| RedisStore.Redis.Status | internal/relay/redis_store.go:223-227 | the same for a status query |
| RedisStore.Redis.ExpireScript | internal/relay/redis_store.go:229-240 | is the machine's step of expiring one id, at any time between any other steps; a finished id always leaves the set |
| RedisStore.Redis.RemoveScript | internal/relay/redis_store.go:242-255 | deletes a slot, live or not, with the counters right; it is the machine's step of removing one id if and only if the slot's grace is over or there is none |
| RedisStore.RangeByScore | internal/relay/redis_store.go:442 | a batch holds the first due members by score and name, each once, all of them if it is not full |
| RedisStore.Redis.SweepSet | internal/relay/redis_store.go:437-460 | undisturbed, the batch loop ends and leaves no due member, across any number of batches and stale members |
| RedisStore.Redis.Sweep | internal/relay/redis_store.go:427-432 | undisturbed, both passes together are the machine's sweep, with its count |
| SharedSweep.RowAges | internal/relay/redis_store.go:437-460 | over any calls of others a slot that is not created anew keeps its expiry and does not come back to life |
| SharedSweep.SharedSet | internal/relay/redis_store.go:437-460 | with finitely many calls of other clients and other sweeps, any of them before any range query and any script, and a clock reading per script, the batch loop ends and nothing the pass was for still needs it |
| SharedSweep.Sweep | internal/relay/redis_store.go:427-432 | such a sweep is a run of single-id steps among the others' calls; what was overdue when it began is expired or gone, what was past its grace is gone, and it counts what its scripts touched |
| SharedSweep.SweepExtendsRun | internal/relay/redis_store.go:427-432 | a store that is where a run led is afterwards where that run and the sweep's lead, so every law of runs holds across it |
| SharedSweep.HalfDoneSweepInvisible | internal/relay/store.go:14-15 | without limits a run with the scripts of a sweep anywhere among its calls answers timely calls as any run of the same calls does, wherever that one sweeps |
| RedisStore.ListedWithout | internal/relay/redis_store.go:102-107 | the set of live ids stays right when a hash goes away if and only if the slot was a tombstone |
| RedisStore.Redis.KeyExpires | internal/relay/redis_store.go:162-164 | a hash the server drops at its time is a removal step of the machine; the counters and the live set stay exact if and only if the slot was a tombstone |
| StoreEquivalence.AgreeCounts | internal/relay/redis_store.go:98-107 | dropped tombstones count nowhere: live ids and bytes of the two stores are equal |
| StoreEquivalence.StepsAgree | internal/relay/store.go:10-53 | a call on agreeing stores that both have its id or neither has gets the same reply from both and leaves them agreeing; so does a dropped tombstone |
| StoreEquivalence.StepsAgreeExactly | internal/relay/store.go:10-53 | agreeing stores reply alike to a call if and only if both have its id or neither has, or it is a creation Redis refuses too |
| StoreEquivalence.CallMemory | internal/relay/memory.go:56-220 | every call of the memory store, on its heap objects, is one step of the slot machine |
| StoreEquivalence.CallRedis | internal/relay/redis_store.go:342-387 | every call of the Redis store is one step of the slot machine at one clock reading |
| StoreEquivalence.DeliverThen | internal/relay/memory.go:156-163 | after a fetch or open and any calls that follow, the store is where those calls lead and the array handed out still holds the delivered bytes |
| StoreEquivalence.RunsAgree | internal/relay/store.go:10-53 | if the clock does not run back, hashes are dropped only after the grace period and as tombstones, and each call on a slot comes before the end of its grace period, both stores' replies agree one by one (sweep counts aside) and the slots agree in the end |
| StoreEquivalence.LateCallDiffers | internal/relay/redis_store.go:162-164 | the first call that is not timely can tell the stores apart: a concrete run in which memory reports the expired tombstone and Redis knows nothing |
| StoreEquivalence.RunBoth | internal/relay/store.go:10-53 | running any such events on both stores gives exactly those replies and slots, and equal counters |
| StoreEquivalence.SweptBeforeDropped | internal/relay/redis_store.go:162-164 | a dropped hash is a tombstone whenever a sweep, or its script on that id, ran at or after the slot's expiry |
| Handlers.AcceptedCiphertexts | internal/relay/handlers.go:344-367 | with the strict codec of the TypeScript versions, a ciphertext field is accepted exactly if it encodes bytes within the bounds: the length prefilter refuses nothing else |
| Handlers.RefusedCiphertexts | internal/relay/handlers.go:344-367 | what is not accepted is refused as empty, too long, not base64url or too short, by what it decodes to |
| Handlers.FieldLengths | internal/relay/handlers.go:105-115 | ids and tokens are exactly 22 digits for 16 bytes, commitments 43 for 32 |
| Handlers.UploadTells | internal/relay/handlers.go:100-127 | the response to an upload is told by the slot's fields: not found, gone with the state and time it ended, bad token, already uploaded, commitment mismatch, store full, or uploaded, in this order |
| Handlers.FetchTells | internal/relay/handlers.go:129-153 | the same for a fetch: not uploaded while the drop is empty, else its ciphertext |
| Handlers.OpenTells | internal/relay/handlers.go:192-211 | the same for an open |
| Handlers.RevokeTells | internal/relay/handlers.go:258-286 | a revocation through the endpoint of one kind answers not found for the other kind and changes nothing but lazy expiry; else it follows the slot's fields |
| Handlers.Revoke | internal/relay/handlers.go:258-286 | the two calls of the revoke endpoint, undisturbed, on the memory store |
| Handlers.CreateDrop | internal/relay/handlers.go:65-98 | refuses a malformed commitment and a full store, and otherwise adds an empty drop under the commitment, whose upload token is for uploads and whose fetch token for fetches |
| Handlers.Upload | internal/relay/handlers.go:100-127 | checks in order, then one upload step; zeroing the handler's buffer afterwards alters no stored copy |
| Handlers.CreateReveal | internal/relay/handlers.go:155-190 | the same for a reveal's ciphertext |
| Handlers.Fetch | internal/relay/handlers.go:129-153 | the response encodes the delivered bytes and the store stays as the fetch left it although the buffer is zeroed |
| Handlers.Open | internal/relay/handlers.go:192-211 | the same for an open |
| Handlers.Deliver | internal/relay/handlers.go:147-152 | the response is made before the buffer is zeroed, and all of it is zeroed |
| Base64Url.DecodeEncode | sdk/typescript/src/base64url.ts:23-73 | decoding an encoding gives back every byte string |
| Base64Url.EncodeDecode | sdk/typescript/src/base64url.ts:45-73 | whatever is accepted is the one encoding of what it decodes to |
| Base64Url.EncodeInjective | sdk/typescript/src/base64url.ts:23-39 | no two byte strings share an encoding |
| Base64Url.RefusedExactly | sdk/typescript/src/base64url.ts:40-73 | a text is refused if and only if no bytes encode to it; the error is for its length, else for a character outside the alphabet, else for left-over bits |
| Base64Url.AlphabetExactly | sdk/typescript/src/base64url.ts:12 | the 64 digits by their codes, those of section 5 of RFC 4648 |
| Base64Url.SameBits | sdk/typescript/src/base64url.ts:23-39 | each three bytes and their four digits are the same number of 24 bits |
| Base64Url.NextDigitUnmasked | web/src/base64.ts:41-52 | an accumulator that wraps around in 32 bits and keeps stale bits still yields the right byte and pending bits |
| Base64Url.DecodeWeb | web/src/base64.ts:31-59 | the drop page's loop, which never masks its accumulator, returns what the bits of the digits say, with the same errors in the same order |
| Base64Url.DecodeSdk | sdk/typescript/src/base64url.ts:45-73 | the SDK's loop with a masked accumulator returns the same on every string |
| Base64Url.EncodeWeb | web/src/base64.ts:11-27 | the drop page's encoder writes the six bits of each position |
| Base64Url.EncodeSdk | sdk/typescript/src/base64url.ts:23-39 | so does the SDK's, without masking its first digit |
| Padding.Pad | internal/crypto/crypto.go:153-159 | the buffer loop writes data, marker and zeros to the next block |
| Padding.Unpad | internal/crypto/crypto.go:164-180 | the backward scan returns what the specification says, or refuses |
| Padding.UnpadPad | internal/crypto/crypto.go:153-180 | unpadding a padded byte string gives it back, for every block size |
| Padding.PadUnpad | internal/crypto/crypto.go:164-180 | whatever is accepted is the padding of what is returned |
| Padding.PaddedExactly | internal/crypto/crypto.go:153-159 | padded data is the data, a byte 0x80 and zeros, the next multiple of the block above its length |
| Padding.PaddedSize | internal/crypto/crypto.go:35-51 | a plaintext within the limit pads to a whole number of blocks, at most one more than the limit |
| Padding.EncodedWithinPrefilter | internal/relay/handlers.go:349 | for every limit, bytes within it have an encoding the length prefilter lets through |
| Envelopes.SecretRoundTrip | internal/crypto/envelope.go:136-154 | the bytes of a secret come back whether they were kept as text or base64url |
| Envelopes.SecretExactly | internal/crypto/envelope.go:143-163 | a secret travels as text if and only if it is UTF-8 whose only controls are tab, line feed and return |
| Envelopes.AsciiNameExactly | internal/crypto/envelope.go:165-180 | an ASCII name is valid if and only if it has 1 to 100 printable characters and no space at either end |
| Envelopes.AsciiTextExactly | internal/crypto/envelope.go:182-197 | an ASCII text is valid if and only if it has at most 200 characters, printable but for line feeds |
| Envelopes.StoredNameIsValid | internal/crypto/envelope.go:165-180 | every name the agent's stores accept can stand in an envelope |
| Envelopes.ValidRefuses | internal/crypto/envelope.go:57-102 | a valid envelope has version 1, a known kind and format, a secret that can be read; a drop has a fingerprint and a retention, a reveal nothing but its name |
| Envelopes.CommitmentExactly | internal/crypto/crypto.go:195-198 | a commitment is 43 digits that decode to the digest of the key |
| Envelopes.SealedExactly | internal/crypto/crypto.go:215-228 | sealing fails if and only if the envelope is malformed or longer than 64 KiB |
| Envelopes.CommitmentInjective | internal/crypto/crypto.go:195-198 | different keys have different commitments |
| Envelopes.OpenSeal | internal/crypto/crypto.go:215-244 | what was sealed to a key opens with it to the same envelope, through padding and the size check |
| Envelopes.DecryptEncrypt | internal/crypto/crypto.go:247-276 | what was encrypted for a reveal decrypts to the same envelope |
| Envelopes.RevealAADInjective | internal/crypto/envelope.go:214-226 | the additional data tells name and copy flag apart, newlines in the name included |
| Envelopes.RevealAADLooks | internal/crypto/envelope.go:220-226 | the additional data letter by letter |
| Envelopes.CiphertextSizes | internal/crypto/crypto.go:215-259 | every sealed envelope is 48 and every encrypted one 40 bytes more than whole blocks of 256, and at most 65840 and 65832 bytes; both pass the prefilter at the default limits |
| DropProtocol.SealedIsReceived | internal/agent/agent.go:415-494 | an envelope sealed to the request's key yields exactly the typed bytes if all shown fields match the request, and a rejection otherwise |
| DropProtocol.AcceptedKeyIsOurs | internal/agent/agent.go:138-160 | in any run, an upload the relay accepts with the commitment of a key was made with the requester's key |
| DropProtocol.FingerprintExactly | internal/crypto/crypto.go:182-189 | a fingerprint is the first eight bytes of the key's digest as lower-case hexadecimal digits, in groups of four |
| DropProtocol.PageEnvelopeExactly | cmd/burndrop/cmd_human.go:68-70 | the envelope of a page holds what it showed, the fingerprint of the key it seals to, and the typed bytes |
| DropProtocol.PageCanSeal | cmd/burndrop/cmd_human.go:68-73 | with display fields from a valid link the envelope is valid whatever was typed, and is sealed if and only if it is at most 64 KiB |
| DropProtocol.ReceiveExactly | internal/agent/agent.go:433-456 | bytes are accepted if and only if the ciphertext opens to a drop's envelope with the request's name, purpose, retention and storage, no other fingerprint, and these bytes |
| DropProtocol.EndToEnd | internal/agent/agent.go:349-494 | in any run, a fetch of a slot an honest page filled gets the typed bytes or a rejection, exactly by whether the page showed the request's fields |
| DropProtocol.OneUpload | internal/relay/memory.go:101-135 | a slot accepts at most one upload, after its creation |
| DropProtocol.AtMostOneStores | internal/agent/agent.go:415-473 | across any concurrent fetchers at most one gets something to store |
| Agents.ResponsesTell | internal/relay/handlers.go:312-341 | what the agent takes for gone, or for a final state, is what the relay's response says |
| Agents.RevokeTellsState | internal/agent/agent.go:704-719 | the state a revoke reports is the state the slot is in afterwards, or expired if the relay does not know it; it reports none exactly if the slot is usable and the token is neither of its two |
| Agents.GoneIsFinal | internal/agent/agent.go:415-426 | a fetch of a drop is told that it is gone if and only if the drop is no longer usable, and then by the state the slot has for good |
| Agents.BlankExactly | internal/agent/agent.go:145 | an ASCII purpose is blank if and only if it is all white space |
| Agents.GoodWishExactly | internal/agent/agent.go:138-155 | a wish is refused if and only if its name or purpose is malformed or blank, or its retention is neither of two words nor a date to come |
| Agents.RequestedExactly | internal/agent/agent.go:160-185 | a request remembers each thing it was asked and given under its own name; its slot is an empty drop under the commitment of the fresh key, with the upload token's hash for uploads and the fetch token's for fetches |
| Agents.LinkShowsRequest | internal/agent/agent.go:138-195 | a page opened with the link as it was built reads the slot's id, its upload token, the request's key and relay, and shows the request's fields |
| Agents.LinkLeadsToRelay | sdk/typescript/src/link.ts:473-484 | a page that opens a request's link talks to the agent's relay, whichever origin serves the page |
| Agents.UnalteredLinkDelivers | internal/agent/agent.go:138-195 | from link to secret: if the relay accepted the upload of an honest page opened with that link, the fetch that gets a ciphertext gets exactly the typed bytes |
| Agents.NoLinkIsRevoked | internal/agent/agent.go:180-184 | a request without a link leaves its slot revoked |
| Agents.Agent.Request | internal/agent/agent.go:138-195 | refuses exactly bad input, a relay's refusal and a link that cannot be built, in that order, and otherwise returns the link, remembers the request with its key and tokens, and has a slot whose two token hashes are those of upload and fetch token |
| Agents.StoredIsFound | internal/agent/agent.go:415-473 | a stored status means a lookup of the requested name finds the received bytes, unless a session entry shadows it |
| Agents.StatusesExactly | internal/agent/agent.go:349-473 | each status comes of exactly its answers of the long poll and the fetch; the request is forgotten exactly for a final status, and only a stored one changes stores or redactor |
| Agents.StoredAsRequested | internal/agent/agent.go:457-465 | what is stored has the name, purpose, retention, sendable flag and fingerprint of the request, source drop, the expiry its retention implies, and goes to the layer its retention names; the value is registered with the redactor |
| Agents.SentOnlyIfAsked | internal/agent/agent.go:522-538 | until its date a secret that came through a request may be sent on if and only if the request said so |
| Agents.ChoiceExactly | internal/agent/agent.go:349-360 | a named request is that one; without a name it has to be the only one |
| Agents.Agent.FetchUploaded | internal/agent/agent.go:415-473 | status, stores, redactor and remembered requests after every answer to the fetch |
| Agents.Agent.Fetch | internal/agent/agent.go:349-413 | status, stores, redactor and remembered requests for every request named or the only one, every answer of the long poll and every answer to the fetch |
| Agents.Agent.CanSend | internal/agent/agent.go:519-538 | tells a missing name, a record of the agent's own and a secret not marked sendable, without changing anything |
| Agents.Agent.Revoke | internal/agent/agent.go:672-702 | a request or a sent reveal is told its final state and forgotten, unless it is unknown or the relay's answer was inconclusive; nothing else is |
| DropJourney.Submit | cmd/burndrop/cmd_human.go:60-79 | a page reads its link, seals to the key in it what was typed and what it shows, and makes one upload with the link's token and that key's commitment |
| DropJourney.Collect | internal/agent/agent.go:349-473 | status query, fetch with the remembered token and what the agent makes of both, on the relay's memory store |
| DropJourney.SubmittedIsReceived | internal/agent/agent.go:415-494 | what a page seals for a valid link with the request's key and fields is sealed if it fits and accepted with the typed bytes |
| DropJourney.Journey | internal/agent/agent.go:138-473 | from request to store at one relay: if the link is short enough, the envelope fits, the relay has room and upload and collection come before the expiry, the secret is stored byte for byte as requested, registered with the redactor, the request is forgotten, and the slot is a fetched tombstone with every other slot as it was |
| Redactor.Replace | internal/agent/redact.go:96-99 | the replacement loop equals leftmost, non-overlapping replacement |
| Redactor.PassKeepsOut | internal/agent/redact.go:95-100 | a pass removes its own form and brings in no bracket-free form that its marker does not hold |
| Redactor.NothingSurvives | internal/agent/redact.go:88-102 | if forms have no brackets and no marker holds a form of an earlier or the same pass, no registered form is left in the output, for any list of forms |
| Redactor.CleanTextUnchanged | internal/agent/redact.go:92-101 | a text without any form is returned as it is |
| Redactor.OneOccurrence | internal/agent/redact.go:95-100 | in the place of the only occurrence of a form stands its name in brackets, and what is around it stays |
| Redactor.RedactIsIdempotent | internal/agent/redact.go:88-102 | redacting twice is redacting once |
| Redactor.OneFormSurvives | internal/agent/redact.go:95-100 | for one bracket-free form, nothing survives in any text if and only if the form is not part of its own marker |
| Redactor.RedactAround | internal/agent/redact.go:95-100 | without brackets in forms, redaction works on either side of a bracket by itself |
| Redactor.NothingSurvivesIff | internal/agent/redact.go:88-102 | for any registered list without brackets, no form survives in any text if and only if none survives in what becomes of the forms themselves: a finite test |
| Redactor.BracketsCanSurvive | internal/agent/redact.go:95-100 | without the bracket hypothesis it fails: a concrete form that a later marker completes |
| Redactor.SortLongestSorts | internal/agent/redact.go:71-72 | the forms are sorted longest first and none is lost or added |
| Redactor.SortLongestIsStable | internal/agent/redact.go:71-72 | forms of one length keep their order |
| Redactor.AddedForms | internal/agent/redact.go:37-73 | after Add every long enough candidate is registered once, and what was registered keeps its name |
| Redactor.AddExactly | internal/agent/redact.go:29-73 | values of less than six bytes change nothing; else the new forms are exactly the value and its encodings of at least six bytes that no name had registered |
| Redactor.WholeValueRedacted | internal/agent/redact.go:71-72 | a text that is a registered form becomes that form's marker, not a marker inside of it |
| Redactor.RemoveForgetsShared | internal/agent/redact.go:76-86 | removing a name also forgets the forms another name shares with it: of the other's forms exactly those stay that were not registered under the removed name first |
| Redactor.Redactor.Add | internal/agent/redact.go:37-73 | the loop over candidates, with its set of seen texts, registers what the specification says |
| Redactor.Redactor.Remove | internal/agent/redact.go:76-86 | keeps exactly the forms under other names, in order |
| Redactor.Redactor.Redact | internal/agent/redact.go:89-102 | the loop over forms applies every pass in order, and under the hypotheses leaves no form |
| Utf8.RuneIsEncoded | internal/storage/dotenv.go:240 | what is read as a rune is the UTF-8 form of one scalar value |
| Utf8.EncodedIsRune | internal/storage/dotenv.go:240 | and every scalar value's form is read as that rune |
| Utf8.SanitizeFixed | internal/storage/dotenv.go:237-260 | reading runes and writing them back changes a text exactly if it is not UTF-8, and once only |
| Dotenv.UnquoteQuote | internal/storage/dotenv.go:237-292 | unquoting a quoted value gives it back exactly if it is UTF-8, else with each bad byte replaced |
| Dotenv.QuotedLooks | internal/storage/dotenv.go:235-260 | the quoted form of each special character, letter by letter |
| Dotenv.PlainQuoted | internal/storage/dotenv.go:235-260 | any other ASCII text stands between the quotes as it is |
| Dotenv.UnquotedRefuses | internal/storage/dotenv.go:262-292 | a missing quote, a backslash at the end and an unknown escape are refused |
| Dotenv.EnvKeyExactly | internal/storage/dotenv.go:126-137 | a variable is the name in upper case with an underscore for each punctuation mark; two names share one if and only if they differ in nothing but case and punctuation |
| Dotenv.SavedText | internal/storage/dotenv.go:207-233 | the text of a saved file: the other lines, the marker with the metadata, the variable with its quoted value |
| Dotenv.NewRecordExactly | internal/storage/dotenv.go:318-326 | a record keeps the metadata it is given with name, backend and size filled in, and is text if and only if the value is UTF-8 whose only controls are tab, line feed and return |
| Dotenv.Quote | internal/storage/dotenv.go:237-260 | the loop over runes writes the escapes of each |
| Dotenv.Unquote | internal/storage/dotenv.go:262-292 | the loop over bytes undoes escapes, with the same errors |
| Dotenv.LinesJoin | internal/storage/dotenv.go:165-168 | the scanner gives back lines that hold no newline and end in no carriage return |
| Dotenv.FeedKeeps | internal/storage/dotenv.go:168-195 | every step of the line loop keeps: the kept lines replay to themselves, entries sit under their own valid names |
| Dotenv.ParsePrint | internal/storage/dotenv.go:156-233 | a saved file reads back with every kept line and entry, text values written rune by rune |
| Dotenv.ReloadBounded | internal/storage/dotenv.go:165-168 | every save takes one carriage return off the kept lines that end in most |
| Dotenv.SaveLoadSame | internal/storage/dotenv.go:156-233 | for any text, load, save and load again is load if and only if every text value is UTF-8 and no kept line ends in a carriage return |
| Dotenv.SecondSaveSame | internal/storage/dotenv.go:156-233 | if no kept line ends in one, a second save never changes anything |
| Dotenv.BadByteLost | internal/storage/dotenv.go:237-292 | a file with the byte 0xFF in a quoted value, which comes back as U+FFFD |
| Dotenv.NoCarriageReturns | internal/storage/dotenv.go:165-168 | in a file without carriage returns the scanner strips nothing |
| Dotenv.CarriageReturnLost | internal/storage/dotenv.go:165-168 | with them a kept line can lose one at every save: a concrete file |
| Dotenv.MarkerAndLine | internal/storage/dotenv.go:168-195 | a marker and the line behind it are an entry if and only if that line is the name's variable with a quoted value that decodes; otherwise both lines are kept |
| Dotenv.MarkersDropped | internal/storage/dotenv.go:169-175 | a marker at the end of the file, or followed by another, is dropped |
| Dotenv.PutKeepsKeysDistinct | internal/storage/dotenv.go:327-331 | putting a name keeps the environment variables of entries distinct if and only if the clash check passes |
| Dotenv.Dotenv.Load | internal/storage/dotenv.go:156-200 | the line loop with its pending marker computes the parsed file |
| Dotenv.Dotenv.Save | internal/storage/dotenv.go:207-233 | the print loop writes the kept lines, then the entries in name order |
| Dotenv.Dotenv.Put | internal/storage/dotenv.go:307-337 | the error cases in order; on success the file is the one printed with the new record, which reads back with it and with every other entry, and with the same lines if no kept line ends in a carriage return |
| Dotenv.EntriesReadBack | internal/storage/dotenv.go:156-233 | whatever becomes of the other lines, every printed entry reads back under its name |
| Dotenv.Dotenv.Get | internal/storage/dotenv.go:339-354 | returns what the file holds under the name |
| Dotenv.Dotenv.Delete | internal/storage/dotenv.go:356-371 | the file is the one printed without exactly that entry, or the error says why not |
| Dotenv.PutThenGet | internal/storage/dotenv.go:307-354 | put fails in exactly its error cases; otherwise, in any file, get returns the value and its metadata, for text and bytes alike; other entries are unchanged if they are UTF-8, and other lines if none ends in a carriage return |
| Storage.ParseRetention | internal/storage/backend.go:99-115 | no expiry exactly for the two unlimited policies; a date only if it is later than now |
| Storage.RetentionExactly | internal/storage/backend.go:99-115 | a policy is accepted if and only if it is one of the two words or names a date later than now, which is then the expiry |
| Storage.NameIsFileName | internal/storage/backend.go:55-63 | a valid name holds no path separator and no double dot, so it leads nowhere as a file name |
| Storage.NamesLook | internal/storage/backend.go:50-63 | names that are accepted and names that are refused, at both ends of the length |
| Storage.ValidNameIsText | internal/storage/backend.go:55-63 | a valid name is ASCII without the characters that separate keys, lines and chunks |
| Names.SortedNames | internal/storage/index.go:107-120 | the sorted names are exactly the given ones, strictly increasing |
| Names.IncreasingIsSorted | internal/storage/index.go:118 | there is only one increasing sequence of them |
| Names.LessExactly | internal/storage/index.go:118 | names are ordered by their first difference, a prefix first |
| Manager.Index.List | internal/storage/index.go:107-120 | lists all entries by name |
| Manager.Store.Put | internal/storage/memory.go:32-49 | stores value and metadata under the name, with name, backend and size filled in |
| Manager.PutErrorExactly | internal/storage/manager.go:35-49 | a put is refused if and only if the name is malformed, the value longer than 64 KiB, or the policy no policy or its date not to come |
| Manager.StoredExactly | internal/storage/manager.go:41-69 | what a put stores, field by field: its expiry is the date of its policy, or none for the two others |
| Manager.PutExactly | internal/storage/manager.go:50-69 | a put changes one layer at one name |
| Manager.LookupExactly | internal/storage/manager.go:74-99 | a lookup finds the session's entry if there is one, else the persistent one, unless its date has come |
| Manager.GetExactly | internal/storage/manager.go:74-99 | a get deletes an entry whose date has come from the layer it is in and changes nothing else |
| Manager.DeleteExactly | internal/storage/manager.go:130-147 | a delete takes the name, and only it, from both layers |
| Manager.PurgeExactly | internal/storage/manager.go:179-209 | a purge leaves exactly the entries whose date has not come, as they were |
| Manager.KeptUntilItsDate | internal/storage/manager.go:35-99 | in any history a persistent secret that is not put or deleted again, nor shadowed, is found up to its date and never from then on, or for good if it has none |
| Manager.Manager.Put | internal/storage/manager.go:35-70 | the session or the persistent layer gets the item, index and backend stay equal, with the error cases in order; the expiry is the date of an until policy and none otherwise |
| Manager.Manager.Get | internal/storage/manager.go:74-99 | returns what the two-layer lookup finds and deletes what it finds expired, from index and backend together |
| Manager.Manager.Stat | internal/storage/manager.go:103-126 | finds exactly what Get finds, with the same metadata |
| Manager.Manager.Delete | internal/storage/manager.go:130-147 | removes a name from both layers and the index; not found only if it was in neither |
| Manager.Manager.PurgeExpired | internal/storage/manager.go:179-209 | removes exactly the expired entries of both layers and counts them |
| Manager.Manager.List | internal/storage/manager.go:151-176 | is exactly the set of names a lookup finds, with their metadata, in order, after the purge |
| Manager.SessionHistory | internal/storage/manager.go:35-70 | a session entry is the latest one put since the last delete, and never expires |
| Manager.PersistentHistory | internal/storage/manager.go:74-99 | a persistent entry is the latest one put since the last delete, unless it has expired |
| Manager.LookupHistory | internal/storage/manager.go:74-126 | after any history a lookup finds the latest session put if any, else the latest persistent put unless expired |
| Manager.SessionShadowsLaterPut | internal/storage/manager.go:56 | a session entry goes on shadowing a persistent put made after it |
| Keychain.AtoiItoa | internal/storage/keychain.go:101 | a chunk count is read back from its header, if it fits an int |
| Keychain.ChunkUserInjective | internal/storage/keychain.go:106 | a chunk key tells name and number, since names hold no hash sign |
| Keychain.ChunkUserLooks | internal/storage/keychain.go:106 | chunk keys letter by letter |
| Keychain.ChunksFit | internal/storage/keychain.go:93-100 | no piece is longer than the chunk size, and all but the last are as long |
| Keychain.ReadExactly | internal/storage/keychain.go:108-138 | a name reads as the record under it, or as the record of its pieces if their count is 1 to 1000 and all are there; else it is missing or corrupt |
| Keychain.ConcatChunks | internal/storage/keychain.go:93-100 | the pieces of a record put together are the record |
| Keychain.ChunkCount | internal/storage/keychain.go:93 | the rounded-up division counts the pieces |
| Keychain.ChunkAt | internal/storage/keychain.go:95 | piece i is where the loop's bounds say |
| Keychain.OtherNames | internal/storage/keychain.go:75-154 | operations on one name leave every other name as tidy as it was and reading the same |
| Keychain.LeftOver | internal/storage/keychain.go:157-167 | of chunks contiguous from 0, deletion up to the first gap leaves exactly those past a thousand |
| Keychain.FitsInPieces | internal/storage/keychain.go:93-119 | a record takes at most a thousand pieces if and only if it is no longer than a thousand times the chunk size |
| Keychain.Keychain.DeleteChunks | internal/storage/keychain.go:157-167 | deletes exactly the chunks before the first gap, at most a thousand |
| Keychain.Keychain.Put | internal/storage/keychain.go:75-102 | under the name stands the record if it fits a chunk, else the header with the number of pieces, each under its number; it can be read back exactly if there are at most a thousand; then, from any contiguous chunks whatever the header said, no stale one is left if and only if there were at most a thousand |
| Keychain.Keychain.Get | internal/storage/keychain.go:108-138 | reads a whole record, or its pieces by the header, with the corrupt cases |
| Keychain.Keychain.Delete | internal/storage/keychain.go:140-154 | from contiguous chunks nothing of the name is left if and only if there were none, or a header and at most a thousand; other names are untouched |
| Escaping.QueryEscape | sdk/typescript/src/link.ts:171-192 | the loop over bytes writes the escape of each |
| Escaping.QueryUnescape | sdk/python/src/burndrop/link.py:331-356 | the Python loop decodes to the bytes the escapes stand for, if they are UTF-8 |
| Escaping.ReplaceThenDecode | sdk/typescript/src/link.ts:195-201 | the TypeScript version, replacing plus signs first, decodes the same |
| Escaping.UnescapeEscape | sdk/typescript/src/link.ts:171-201 | unescaping an escaped text gives it back exactly if it is UTF-8 |
| Escaping.EscapeByteExactly | sdk/typescript/src/link.ts:171-192 | letters, digits and four marks stand for themselves, a plus sign for a space, and any other byte is a percent sign and two upper-case hexadecimal digits of its value |
| Escaping.HexValueExactly | sdk/python/src/burndrop/link.py:331-356 | hexadecimal digits of either case are read |
| Escaping.EscapedSeparable | sdk/typescript/src/link.ts:171-192 | an escaped text is ASCII and holds no separator |
| Escaping.ParseFields | sdk/python/src/burndrop/link.py:363-379 | the loop over parts accepts and reads what the specification says |
| Escaping.ReadEncodedParts | sdk/typescript/src/link.ts:328-351 | reading written fields gives each key its value and no other key |
| Escaping.FieldsRoundTrip | sdk/typescript/src/link.ts:203-205 | parsing the fragment of written fields gives them back |
| Links.NormalizeIdempotent | sdk/typescript/src/link.ts:87-165 | a normalized origin is normalized already and is a scheme and an authority only |
| LinkLaws.NormalizedIsPlain | sdk/typescript/src/link.ts:80-86 | a normalized origin is in lower case, and http only for this machine |
| LinkLaws.SameOrigin | sdk/typescript/src/link.ts:80-86 | for every host name, writing the default port or a trailing slash gives the same origin |
| LinkLaws.SplitBuilt | sdk/typescript/src/link.ts:297-326 | a built link is split into the origin, path and fragment it was made of |
| LinkLaws.DropRoundTrip | sdk/typescript/src/link.ts:256-273 | parsing a built drop link gives the link and the normalized page origin, for every valid link with a normalized relay within the length limit |
| LinkLaws.RevealRoundTrip | sdk/typescript/src/link.ts:276-294 | the same for reveal links, with and without salt |
| LinkLaws.ParsedIsValid | sdk/typescript/src/link.ts:393-450 | whatever parses is valid and has normalized origins |
| LinkLaws.RebuiltParsesSame | sdk/typescript/src/link.ts:440-450 | an accepted link, built again, parses to the same |
| LinkTexts.DropText | sdk/typescript/src/link.ts:256-273 | a drop link letter by letter: the page's origin, /drop, and behind the # version, id, upload token, key, name, purpose, storage, retention and a relay if it has one, each under its key |
| LinkTexts.RevealText | sdk/typescript/src/link.ts:276-294 | a reveal link likewise |
| LinkTexts.DropBuiltExactly | sdk/typescript/src/link.ts:208-258 | a drop link is built if and only if tokens are 16 bytes, the key 32, the texts valid, the retention a policy and the origins origins |
| LinkTexts.RevealBuiltExactly | sdk/typescript/src/link.ts:232-278 | a reveal link likewise, with a salt of 16 bytes or none |
| LinkTexts.FieldsExactly | sdk/typescript/src/link.ts:328-351 | a fragment is read if and only if it has version 1 and only known, readable fields, each once; it gives each its value and no other key |
| LinkTexts.ParsedStrict | sdk/typescript/src/link.ts:297-450 | what parses has no query and no user, a known path, and fields that say the whole link, each under its key |
| LinkTexts.LocalOrigin | sdk/typescript/src/link.ts:80-165 | plain http is accepted for localhost with any port, 80 being left out |

## Left out

- HTTP routing, CORS, JSON bodies, authentication, rate limits and logging of the relay.
- The waiter cap of the relay: its check and its count are separate steps, so no bound holds.
- Redis as a server: scripts are atomic steps and no call to it fails; numbers are not formatted as text, and the polling loop of its Wait and its Stats are not modelled.
- The Close and dump methods of the memory store.
- Memory store calls at a time value of zero, which the Redis store would read as unset.
- RedisStore.Redis.Sweep: is the sweep no one disturbs, as one step at one clock reading; SharedSweep.Sweep is the one among other clients. It requires that no id is the empty string, since the source's check for a stuck loop would stop such a sweep at once; ids are 22 characters.
- RedisStore.Redis.SweepSet: is one pass of the undisturbed sweep; SharedSweep.SharedSet is the one among other clients.
- StoreEquivalence.CallRedis: takes a sweep as one step, as the memory store's is; with limits set the equivalence of the two stores says nothing while a Redis sweep is half done.
- SharedSweep.SharedSet: takes finitely many calls of others, without which a sweep need not end.
- SharedSweep.Sweep: assumes that ids created meanwhile were never scheduled before, as random ids are not; other relays' sweeps come between its scripts as a whole.
- MemoryStore.Memory.Create: requires a slot in state created with no ciphertext if it is a drop, as both callers pass; the source stores any slot it is given, and Slots.StoredCounts and Slots.RefilledCounts say for which its counters stay right.
- RedisStore.Redis.Create: requires the same.
- Cryptographic primitives; that altered additional data or a wrong key fails to decrypt is not assumed, so nothing is stated about it.
- Go's base64 decoder, which skips newlines even in strict mode: `Handlers` and `Envelopes` use the strict codec of the TypeScript versions.
- Agents.Agent.Fetch: takes the answers of the relay as arguments instead of calling it, as other clients act in between.
- Agents.Agent.Request: saving the pending record always succeeds, the record is kept apart from the secrets, the link is built as the TypeScript version builds it, and clamping and defaults of the time to live are not modelled.
- DropJourney.Journey: calls the relay's store as the handlers do, without HTTP and ciphertext fields, and a status query stands for the long poll; nothing else happens at the relay in between (DropProtocol.EndToEnd and Agents.UnalteredLinkDelivers are about any run).
- DropJourney.Collect: is about a request that is named.
- Agents.Agent.Revoke: takes the relay's answer as an argument; what puts reveals among those sent is not modelled.
- Agents.BlankExactly: is about ASCII texts; other white space counts as the model's predicate Space has it.
- Envelopes.AsciiNameExactly: is about ASCII names, and AsciiTextExactly about ASCII texts.
- Sending a secret on, after the check of Agents.Agent.CanSend; the relay client's retries, audit events and messages of the agent.
- Which encodings of a value the redactor derives; they are an argument of Add. Locks and RedactBytes.
- Dotenv.Dotenv.Load: has no limit on the length of a line; the git checks are one Boolean, and writing the file always succeeds.
- Dotenv.Dotenv.Delete: says that the entry is gone when the file is read again only if no kept line ends in a carriage return, since stripping one can make an entry of a kept line.
- Manager.Store.Put: works on values, so zeroing of old values in place is not modelled; every persistent backend is taken to be such a map.
- Failing backends, index files and credential stores, and crashes between two writes.
- The vendor backends, the age vault, and the disjointness of secret names from internal ones.
- Links.NormalizeIdempotent: treats an origin as bytes, so it holds of the source for ASCII origins only.
- LinkLaws.DropRoundTrip: names are UTF-8, which the TypeScript version checks and the Go version does not; the messages of link errors are not modelled, and the date of a retention is a predicate on ASCII texts.
- The Go and Python versions of origins and of splitting a link; the drop page's own code, the browser extension, the command line and the server for models.
