# Tuck in Dafny

A model of the core of Tuck, a secrets manager written in Go, with proofs of what its
algorithms and state machines promise over all inputs and all runs.

| files | part of Tuck | main results |
|---|---|---|
| Gf256, GfPowers, Lagrange, Shamir, BelowThreshold, ShamirSeal | secret sharing and the Shamir seal | the tables are the field of section 4.2 of FIPS 197; any k distinct shares give the secret; exactly what fewer than k shares leave open; runs of submissions unseal exactly once |
| Text, Crypto, PathCodec, PathListing, Storage, BarrierSpec, Barrier, BarrierSession | the encryption barrier | refines a plain map over all runs; key rotation is crash-consistent after every single write |
| Lease, LeaseSafety, LeaseTheorems, LeaseLiveness | leader election on a lease | no live takeover in any interleaving; at most one leader under an exact timing condition; exactly when an attempt acquires or renews |
| AuditChain, AuditRing, AuditDispatcher, AuditFile, AuditMeaning, AuditTail | the audit log | exactly which lists and files verify; tamper evidence, window and tail of the ring, streaming verification |
| KvPaths, KvCustom, KvSpec, KvStore, KvLedger, KvRuns, KvLaws | versioned secrets | refine an append-only history; every call survives a cut after any storage step; what callers see, in calls and replies only |
| Reachability, Identity, IdentityMeaning | group policies | the search returns exactly the membership closure: the policies at the end of every way up |
| TokenSpec, TokenTree, TokenRuns, TokenLife | tokens | exactly which tokens a tree revocation removes, for all storage failures and over all runs; how long a token lives |
| Glob, GlobMeaning, GlobBlocks, GlobComment, PolicyAcl | access control | exact meaning of patterns, and exactly when it is the documented one; deny overrides, order is irrelevant |
| WrappingSpec, Wrapping, WrappingRuns | response wrapping | single use; every capsule is accounted for |
| Namespace, NamespaceViews | namespaces | each behaves as a store of its own |
| RateLimit | rate limiting | window bound; when cleanups go unnoticed |

Wrappers and Sequences hold what the parts share. `dafny verify dfyconfig.toml` checks everything.

## Conventions

- Objects whose methods update fields are classes, loops are loops, and storage is `Storage.Store`, whose calls
  may fail unless it is `reliable`. Its ghost `trace` lists the state after every successful write, that is,
  every state a crash can leave behind. A failed call changes nothing.
- Token operations are told instead which storage calls go through while they run. An operation makes a storage call on
  one key once, a tree revocation because tokens form a tree; those that look things up first and then again are told twice.
- Methods that run under a mutex are one step. The lease protocol is a state machine whose steps interleave.
- Ciphers, HMAC, SHA-256, base64 and JSON are function-valued parameters. What is assumed of them stands in
  `Crypto.Lawful`, `AuditChain.CollisionFree` and `ShamirUnseal.RoundTrips`: opening what was sealed returns the plaintext,
  encodings (section 5 of RFC 4648 for path segments) are injective and slash-free, hashes are injective and
  never the genesis hash. Where a law says that something does not open, it requires `Crypto.Authentic`: what was sealed
  with one associated text opens with no other.
- Lemmas carry `{:induction false}` where Dafny would add an induction hypothesis of its own; every induction is in a body.
- Clocks, fresh ids, keys, nonces and polynomial coefficients are parameters or unconstrained choices.

## Where code and documentation disagree

The model follows the code.

- The comment at internal/policy/policy.go:110-112 gives "**" any text and "*" any text without a slash. `globMatch` leaves its
  "*" loop at a slash before it tries the rest of the pattern, so that a "*" directly before a "/" never matches; it takes a
  "**" that is neither last nor before a "/" for two single ones; and it lets "**/" stand for nothing. `GlobComment.FollowsCommentIff`
  says for exactly which patterns code and comment agree on every text.
- Lease times are stored with microsecond precision, so RenewPeriod plus two API rounds below LeaseDuration is not quite
  enough for a single leader: 999 ns are missing. `LeaseTheorems.AtMostOneLeader` and
  `LeaseTheorems.OverlapWithoutSafeTiming` give the exact condition. The length of a round is an assumption on the environment:
  nothing in the code bounds an API call (the client at internal/operator/kube.go:40-43 has no timeout).
- `DeleteNamespace` does not validate its name. internal/api/namespaces.go:79-82 promises that no other namespace is touched;
  `Namespaces.SharesPrefixIff` says for exactly which names that fails, and no valid name is among them. The comment at
  internal/core/core.go:1771-1772 says that data stays in storage; the code wipes it.
- `RevokeTokenTree` is said to revoke all descendants (internal/core/core.go:711-712), but drops the errors of all calls but the
  last, so that on failing storage success speaks for the token itself only. `TokenSpec.RevokesAllIff` says for exactly which
  failures no descendant is left, and `TokenSpec.ListingFailsExample` gives one that leaves a child alive.
- `RotateDataKey` with re-encryption is said to rewrite every entry (internal/barrier/barrier.go:475-480). An entry that was stored
  past the barrier stops it, and internal/core/core.go:301 stores one in cluster mode; the new key is active by then.
  `Barriers.Barrier.RotateDataKey` gives the exact condition, `Barriers.SealMetaStopsRotation` the entry.
- `RevokeTokenByAccessor` leaves the token in its parent's children index, so a later tree revocation can still reach that
  token's children.

## Model

| member | source | states |
|---|---|---|
| `Shamir.Tables.constructor` | internal/shamir/shamir.go:25-44 | the loop fills exp and log with the powers of 3 of the field of section 4.2 of FIPS 197 and their exponents, over all 255 non-zero bytes and with no index out of range |
| `GfPowers.NoShorterPeriod` | internal/shamir/shamir.go:25-44 | 3 is primitive: no power of 3 below the 255th is 1 |
| `GfPowers.EveryByteIsAPower` | internal/shamir/shamir.go:25-44 | every non-zero byte is a power of 3, so the log table covers them all |
| `GfPowers.LogOfPower` | internal/shamir/shamir.go:25-44 | log and exp are inverse to each other |
| `Gf256.FipsExamples` | internal/shamir/shamir.go:25-52 | the examples of section 4.2 of FIPS 197: {57}*{83} is {c1} and {57}*{13} is {fe} |
| `Gf256.MulAddLeft` | internal/shamir/shamir.go:46-52 | field multiplication (shift and reduce by 0x11b) distributes over XOR |
| `GfPowers.MulCommutes` | internal/shamir/shamir.go:46-52 | field multiplication commutes |
| `GfPowers.MulAssociates` | internal/shamir/shamir.go:46-52 | field multiplication is associative |
| `GfPowers.NoZeroDivisors` | internal/shamir/shamir.go:46-52 | a product is zero only if a factor is |
| `Shamir.Tables.GfMul` | internal/shamir/shamir.go:46-52 | the table look-up is field multiplication, zero operands included |
| `Shamir.Tables.GfDiv` | internal/shamir/shamir.go:54-64 | the table look-up is field division: the quotient times the divisor is the dividend |
| `Shamir.EvalPoly` | internal/shamir/shamir.go:68-79 | Horner's loop evaluates the polynomial |
| `Shamir.Split` | internal/shamir/shamir.go:88-135 | the parameter errors in the order of the source; otherwise share i is the point i+1 and the value of every byte's polynomial there |
| `Shamir.RefusedIff` | internal/shamir/shamir.go:88-165 | exactly which parameters and which shares are refused, and with which error: a split goes through for every non-empty secret with 1 <= k <= n <= 255 |
| `Lagrange.WeightsSumToOne` | internal/shamir/shamir.go:168-192 | for any distinct points the Lagrange weights at 0 sum to 1 |
| `Lagrange.InterpolatesAtZero` | internal/shamir/shamir.go:168-192 | interpolation at 0 through any distinct points, at least as many as coefficients, gives the constant coefficient |
| `Shamir.InterpolateColumn` | internal/shamir/shamir.go:168-192 | the inner loops compute that interpolation |
| `Shamir.Combine` | internal/shamir/shamir.go:140-194 | the errors for no, too short, uneven or duplicate shares in the order of the source, otherwise the interpolation of every byte |
| `Shamir.AnyThresholdSharesCombine` | internal/shamir/shamir.go:88-194 | for every non-empty secret, 1 <= k <= n <= 255 and any coefficients, the split is not refused and any k or more distinct shares in any order combine to the secret |
| `BelowThreshold.Fit` | internal/shamir/shamir.go:68-79 | through any points at distinct places there is a polynomial with as many coefficients, and one with more whose leading coefficient is not zero |
| `BelowThreshold.SameLead` | internal/shamir/shamir.go:68-79 | two polynomials that agree in as many distinct places as they have coefficients have the same leading one |
| `BelowThreshold.ByteLeftOpen` | internal/shamir/shamir.go:88-135 | for one byte: k-1 points leave open exactly the values other than their interpolation at 0, because the leading coefficient is never zero; fewer points leave open all |
| `BelowThreshold.OneShareLess` | internal/shamir/shamir.go:88-135 | any k-1 distinct shares could be shares of exactly those secrets of their length that differ in every byte from what combining them gives |
| `BelowThreshold.FewerSharesTellNothing` | internal/shamir/shamir.go:88-135 | fewer than k-1 distinct shares could be shares of every secret of their length |
| `ShamirUnseal.ShamirSeal.AcceptShard` | internal/seal/shamir.go:134-184 | one submission: rejections change nothing, a new share is buffered, the k-th one combines and sets done |
| `ShamirUnseal.ShamirSeal.Reset` | internal/seal/shamir.go:197-205 | the buffer is empty and a new round may start |
| `ShamirUnseal.UnsealRun` | internal/seal/shamir.go:134-184 | any run of submissions of genuine shares, repeated and mixed with undecodable input, returns the key exactly once if k distinct shares are among them and never otherwise |
| `ShamirUnseal.InitSharesUnseal` | internal/seal/shamir.go:90-118 | k distinct shares as Init encodes them, in any order, return the root key |
| `PathCodecs.EncodeKey` | internal/barrier/paths.go:73-91 | the segment loop computes the path encryption |
| `PathCodecs.DecodeKey` | internal/barrier/paths.go:96-119 | the segment loop computes its partial inverse, failing on any segment that does not open |
| `PathCodecs.DecodeEncode` | internal/barrier/paths.go:73-119 | decoding an encoded key gives the key back, for every key, empty segments included |
| `PathCodecs.EncodeInjective` | internal/barrier/paths.go:73-91 | different keys are stored under different names |
| `PathCodecs.EncodeStaysOutside` | internal/barrier/paths.go:73-91 | a stored name is under "barrier/" exactly when the key is |
| `PathCodecs.MovedSegmentFails` | internal/barrier/paths.go:40-119 | with an ideal cipher, a stored segment does not open under another parent |
| `PathCodecs.ScanMissesNothing` | internal/barrier/paths.go:130-160 | the encrypted directory of a prefix, even one ending in a partial segment, begins the stored name of every key with that prefix |
| `PathListing.ListedExactly` | internal/barrier/paths.go:130-160 | decoding and filtering the scan gives exactly the keys with the prefix, each once, if every scanned name is some key's stored name |
| `PathListing.ListEncrypted` | internal/barrier/paths.go:130-160 | on healthy storage fails exactly when a scanned name does not decode; the result is sorted and, if the scan comes across nothing stored past the codec, exactly the logical keys with the prefix |
| `BarrierSpec.SealedEntryOpens` | internal/barrier/barrier.go:428-461 | what sealEntry writes carries the active version and openEntry returns the plaintext |
| `Crypto.SealedShape` | internal/barrier/barrier.go:338-364 | sealed data is as long as nonce, plaintext and a 16-byte tag, begins with the nonce, whose top bit is clear where the suite wants that, and with an ideal cipher opens with no other associated text |
| `BarrierSpec.FormatMeans` | internal/barrier/barrier.go:300-336 | entries are bound to their keys from format 1 on, keys have versions from 2 on and paths are encrypted from 3 on; a store without metadata has none of it |
| `BarrierSpec.MovedEntryOpensIff` | internal/barrier/barrier.go:428-461 | with an ideal cipher, an entry moved to another key opens there if and only if the store does not bind entries to their keys |
| `BarrierSpec.Prefix32RoundTrip` | internal/barrier/barrier.go:428-447 | the four version bytes, most significant first, read back as the version |
| `BarrierSpec.PersistLoads` | internal/barrier/barrier.go:380-425 | a persisted keyring loads again with the same root key |
| `Barriers.Barrier.Initialize` | internal/barrier/barrier.go:92-142 | unknown suites, bad keys and existing stores are refused; a failure never makes the store count as initialised; success gives an empty store of the newest format for the root key, in which nothing was stored past the barrier |
| `Barriers.Barrier.Unseal` | internal/barrier/barrier.go:146-191 | the keyring in memory is the one the key unwraps from disk; a key that unwraps none, or a failing backend, changes nothing |
| `Barriers.Barrier.Seal` | internal/barrier/barrier.go:195-207 | keys are gone from memory, disk and contents unchanged |
| `Barriers.Barrier.Get` | internal/barrier/barrier.go:225-241 | the value the plain map holds, or the sealed error |
| `Barriers.Barrier.Put` | internal/barrier/barrier.go:244-256 | the plain map is updated, or the sealed error; a failing backend changes nothing |
| `Barriers.Barrier.Delete` | internal/barrier/barrier.go:259-266 | the key leaves the plain map, or the sealed error |
| `Barriers.Barrier.List` | internal/barrier/barrier.go:287-294 | unless the listing comes across something stored past the barrier: exactly the keys of the plain map with the prefix, each once, sorted when paths are encrypted |
| `Barriers.Barrier.Rekey` | internal/barrier/barrier.go:271-283 | the new root key opens the same contents; on failure the old one still does |
| `Barriers.Barrier.ReencryptLocked` | internal/barrier/barrier.go:521-559 | every intermediate disk state opens every entry to its old plaintext; on success no entry is left under an old key and the count is the number of entries that were |
| `Barriers.Barrier.RotateDataKey` | internal/barrier/barrier.go:481-518 | after every single write, on every return path, the persisted keyring and the current root key recover the whole old contents; on success with re-encryption only the active key remains and every entry carries it; on healthy versioned storage it succeeds if and only if no re-encryption is asked for or every entry outside "barrier/" that does not carry the new version opens |
| `Barriers.DropRepresents` | internal/barrier/barrier.go:511-517 | once every entry is current, dropping the other keys changes no answer |
| `Barriers.StoredOpens` | internal/barrier/barrier.go:428-461 | when nothing was stored past the barrier, which every operation leaves so, every entry opens, so that no rotation gets stuck |
| `Barriers.SealMetaStopsRotation` | internal/core/core.go:290-305 | core/seal-meta, stored past the barrier in cluster mode, stops every rotation with re-encryption unless its first four bytes happen to name a key of the keyring or the next one |
| `BarrierSession.RunSession` | internal/barrier/barrier.go:146-294 | any run of Put, Get, Delete, List, Rekey, RotateDataKey, Seal and Unseal with the current root key, over any store, answers as an unencrypted map while unsealed and with the sealed error while sealed; only a listing that comes across something stored past the barrier, and a rotation with re-encryption of a store that holds any, may fail on healthy storage, and such a listing is not promised to be exact; on healthy storage every other rotation succeeds exactly on versioned stores |
| `LeaseSafety.InvStep` | internal/operator/leader.go:133-160 | every step of every replica, and every late or lost write, keeps the protocol invariant |
| `LeaseTheorems.NoLiveTakeover` | internal/operator/leader.go:133-207 | in every interleaving, when the stored holder changes, now is later than the last renewal by more than the whole seconds of the lease |
| `LeaseLiveness.AcquiresIff` | internal/operator/leader.go:133-207 | whatever other replicas do meanwhile short of writing, an attempt of a replica that does not lead stores the lease if and only if there is none, it has no holder, it is its own, or more than its whole seconds have gone by since its last renewal; what is stored: holder, duration, both times in whole microseconds, and a transition count that goes up exactly if the holder changes |
| `LeaseLiveness.AcquiredLeads` | internal/operator/leader.go:133-207 | and once that is stored and answered, the replica leads |
| `LeaseLiveness.RenewsIff` | internal/operator/leader.go:164-229 | a leader renews if and only if the lease is there and its own, and steps down otherwise; a renewal sets the renewal time and the duration and keeps the time of acquisition and the transition count |
| `LeaseLiveness.RenewedLeads` | internal/operator/leader.go:164-229 | and once that is stored and answered, it still leads |
| `LeaseTheorems.TransitionsCountHolderChanges` | internal/operator/leader.go:133-160 | LeaseTransitions is the initial count plus the number of holder changes, as an int32 |
| `LeaseSafety.TimedStep` | internal/operator/leader.go:164-207 | with safe timing every step keeps each leader's lease unexpired and every rival write bound to be rejected |
| `LeaseTheorems.AtMostOneLeader` | internal/operator/leader.go:164-207 | if RenewPeriod plus two rounds plus 999 ns is at most the whole-second duration, two replicas never lead at once |
| `LeaseTheorems.OverlapWithoutSafeTiming` | internal/operator/leader.go:164-229 | and if not, some run has two leaders at once: the condition is exact |
| `AuditChain.VerifyEntries` | internal/audit/verify.go:38-74 | the loop reports that verdict, for any anchor; what the verdict means is stated by the four rows of AuditMeaning |
| `AuditMeaning.VerifiesIff` | internal/audit/verify.go:38-74 | for every anchor, a list verifies if and only if every record has the hash of its own contents, names the hash of the record before, follows it by number unless one of the two has none, and the first one names the anchor if there is one |
| `AuditMeaning.BreaksAtTheReported` | internal/audit/verify.go:38-74 | otherwise the reported record is the first that breaks the list, and exactly when each reason is given |
| `AuditMeaning.Reported` | internal/audit/verify.go:38-74 | how many records were looked at and how many of them have no number, the hash the unbroken part ends in, and whether it starts at genesis |
| `AuditMeaning.SameHeadSameEnd` | internal/audit/verify.go:38-74 | without an anchor, of two lists that verify and end in the same hash one is an end of the other |
| `AuditChain.SameHeadSameChain` | internal/audit/verify.go:38-74 | two lists that verify from genesis and end in the same hash are identical, length included, also when one is empty |
| `AuditDispatcher.Logger.Write` | internal/audit/audit.go:127-148 | a sealed record is written verbatim, an unsealed one is chained; nothing is written when hashing or the writer fails, but after a failing writer the hash has moved on |
| `AuditDispatcher.Dispatcher.constructor` | internal/audit/dispatcher.go:47-85 | the chain that ends in the file, whose earlier records may have been rotated away, goes on where it ended, and an empty file starts a new one; the window holds the end of the part that is read back, and the buffer has the default size for a size below 1 |
| `AuditDispatcher.Dispatcher.Log` | internal/audit/dispatcher.go:87-106 | the record is numbered, linked and hashed once; the ring holds the end of the chain, and so does the file unless its writer fails |
| `AuditDispatcher.ChainPartVerifies` | internal/audit/verify.go:38-74 | every suffix of a chain verifies without an anchor |
| `AuditDispatcher.ChainVerifies` | internal/audit/verify.go:38-74 | a whole chain verifies from genesis |
| `AuditDispatcher.Dispatcher.VerifyMemory` | internal/audit/dispatcher.go:131-133 | succeeds in every reachable state, and reports the dispatcher's head |
| `AuditDispatcher.Dispatcher.Head` | internal/audit/dispatcher.go:115-119 | the hash and number of the newest record |
| `AuditDispatcher.PresentedLogIsTheLog` | internal/audit/verify.go:38-74 | a list presented with the dispatcher's head hash that verifies from genesis is the log |
| `AuditRing.Ring.Append` | internal/audit/ring.go:51-65 | the window slides by one record |
| `AuditRing.Ring.Snapshot` | internal/audit/ring.go:75-89 | the last min(n, capacity) appended records, oldest first |
| `AuditRing.Ring.After` | internal/audit/ring.go:94-112 | the first max records behind the cursor, and a gap exactly when a non-zero cursor's successor was overwritten |
| `AuditRing.Ring.Window` | internal/audit/ring.go:123-131 | size, capacity, oldest and newest number of the window |
| `AuditRing.HoldsAfterAppend` | internal/audit/ring.go:51-65 | the slots behind the write position hold the window after every append |
| `AuditFile.VerifyFile` | internal/audit/verify.go:82-147 | an error when the file cannot be opened, otherwise the verdict of the whole list of lines; empty, oversized, undecodable and unreadable lines included |
| `AuditFile.VerifyLines` | internal/audit/verify.go:89-147 | the constant-memory loop reports that verdict |
| `AuditMeaning.FileVerifiesIff` | internal/audit/verify.go:89-147 | a file verifies if and only if every line that is not empty decodes, every record has the hash of its own contents and is joined to the one before |
| `AuditMeaning.FileBreaksAtTheReported` | internal/audit/verify.go:89-147 | otherwise the first line that breaks it is reported, as too large, undecodable or unreadable if it is, and else by the number of its record |
| `AuditFile.PairVerdict` | internal/audit/verify.go:121-144 | checking a record behind its verified predecessor finds exactly its own fault |
| `AuditFile.StreamingAgrees` | internal/audit/verify.go:38-147 | on decoded lists both verifiers agree in all fields when intact, and in all but the legacy count when broken; the legacy difference is stated |
| `AuditTail.PollFaithful` | internal/api/audit_log.go:317-341 | one pass of the tail loop reports the next numbers, after a gap event exactly when it jumps |
| `AuditTail.PollCatchesUp` | internal/api/audit_log.go:317-341 | a pass that does not fill its batch has reached the newest record |
| `AuditTail.TailIsFaithful` | internal/api/audit_log.go:317-341 | whatever windows of the log the passes see, a tail from a non-zero cursor sees every later number once and in order, or a gap event before the jump |
| `AuditTail.RingWindowIsEnd` | internal/audit/dispatcher.go:76-106 | the window of a dispatcher, restarted or not, is such an end of its log |
| `KvStore.Normalize` | internal/kvv2/store.go:244-270 | oldest is the smallest tracked version, 0 if there is none; nothing else changes |
| `KvStore.Evict` | internal/kvv2/store.go:223-241 | exactly the versions at or below current - max_versions are dropped and reported; max_versions 0 drops none |
| `KvStore.WriteKeepsInterval` | internal/kvv2/store.go:176-241 | after a write the tracked versions are again one interval ending at the new version, and no longer than max_versions |
| `KvStore.WriteTracks` | internal/kvv2/store.go:176-241 | exactly which versions are tracked after a write, and with which flags |
| `KvPaths.CleanTwice` | internal/kvv2/store.go:704-710 | cleaning a path twice is cleaning it once |
| `KvPaths.SharedKeysIff` | internal/kvv2/store.go:704-710 | two paths share a metadata key exactly when they clean to one name, and data keys only for the same version of it; no metadata key is a data key |
| `KvStore.Kv.Write` | internal/kvv2/store.go:176-218 | cas required before cas mismatch; success appends to the history and is read back; evicted data is gone; every storage state in between shows the old or the new history and misses no referenced data |
| `KvStore.Kv.Read` | internal/kvv2/store.go:275-304 | a value returned is the one written under that number, never a destroyed one; version 0 is the newest; never written, hidden, destroyed and missing are told apart |
| `KvSpec.ReadableIff` | internal/kvv2/store.go:275-304 | on complete storage a version reads back exactly when it is tracked and neither deleted nor destroyed |
| `KvStore.Kv.SoftDelete` | internal/kvv2/store.go:308-322 | only the listed, undestroyed versions are hidden; all data stays |
| `KvStore.Kv.Undelete` | internal/kvv2/store.go:325-337 | only the listed, undestroyed versions are shown again |
| `KvStore.UndeleteRestores` | internal/kvv2/store.go:308-337 | undelete takes back a soft delete exactly when none of the listed versions was deleted before |
| `KvStore.Kv.Destroy` | internal/kvv2/store.go:341-354 | the data of the listed versions is gone and their metadata says so; whatever fails and after every single storage step, only listed versions can have lost their data and the metadata is the old or the new one |
| `KvStore.ReadsWhileDestroying` | internal/kvv2/store.go:275-354 | in every state a destruction can leave behind, versions that are not listed read as before and no other bytes come back |
| `KvStore.Kv.UpdateMetadata` | internal/kvv2/store.go:385-433 | out-of-range max_versions and bad custom metadata are refused; otherwise exactly the given settings change and custom metadata is merged or replaced, creating empty metadata where there was none |
| `KvCustom.Merge` | internal/kvv2/store.go:403-423 | replacing starts from nothing; a null value removes its key, any other sets it, all other keys stay |
| `KvCustom.ValidateCustom` | internal/kvv2/store.go:435-463 | accepts exactly the maps within the limits on number, key length, value length and characters |
| `KvStore.Kv.DeleteAll` | internal/kvv2/store.go:466-479 | the data and the metadata are gone, on healthy storage every key of the path, and the history starts over; whatever fails and after every single storage step, only tracked versions can have lost their data and the metadata is the old one or none |
| `KvStore.ReadsWhileDeleting` | internal/kvv2/store.go:275-479 | in every state a deletion can leave behind no other bytes come back |
| `KvLedger.ReadMirrors` | internal/kvv2/store.go:275-304 | on complete storage a read answers from the metadata and the history alone |
| `KvRuns.Run` | internal/kvv2/store.go:176-479 | in any run over failing storage: a cas value succeeds once between deletions of its path, every value read was written under its number since the last deletion, and a destroyed version is not read again; on healthy storage every reply is that of a ledger of metadata and written values, and exactly the data of the referenced versions is stored |
| `KvLaws.WriteReplies` | internal/kvv2/store.go:176-218 | in any run on healthy storage: a write without a cas value is refused if the mount or the last update that spoke of it requires one; with one it is refused unless the value is the number of versions written since the last deletion; otherwise it writes the next version |
| `KvLaws.UpdateReplies` | internal/kvv2/store.go:385-463 | an update is refused if and only if its version limit is not from 0 to 1000, or it touches custom metadata and what the updates so far leave is more than 64 entries or has a key not of 1 to 128 bytes, a value over 512 bytes, or text that is not printable |
| `KvLaws.ReadAgain` | internal/kvv2/store.go:176-479 | two reads of a version are answered alike if no call in between lists it, overtakes it by the version limit, or deletes the secret |
| `KvLaws.ReadChanged` | internal/kvv2/store.go:176-479 | and if one does, exactly what becomes of the answer: a soft delete hides, an undelete shows again, a destruction and an eviction take away, for a write the new version is readable |
| `KvLaws.HiddenThenShown` | internal/kvv2/store.go:308-337 | a soft delete and a later undelete give the same bytes back |
| `KvLaws.WrittenThenRead` | internal/kvv2/store.go:176-304 | what was written is read back under the number the write gave |
| `KvLaws.NewestRead` | internal/kvv2/store.go:275-304 | a read of version 0 is a read of the newest one |
| `KvLaws.ReadOutside` | internal/kvv2/store.go:275-304 | before the first write, and only then, a read finds no secret; a version never written is not found |
| `KvRuns.RunPaths` | internal/kvv2/store.go:176-479 | the same for paths that still have to be cleaned: what counts is the name a path stands for |
| `Identity.BreadthFirst` | internal/identity/identity.go:480-516 | terminates on every group graph and visits exactly the upward membership closure of the start groups |
| `Identity.ResolveEntityPolicies` | internal/identity/identity.go:456-528 | no duplicates; exactly the own policies and those of every group in the closure; nothing for a missing or disabled entity; own policies only when groups cannot be listed |
| `Identity.ResolveExternalGroupPolicies` | internal/identity/identity.go:534-605 | no duplicates; exactly the policies of the closure of the aliased groups |
| `IdentityMeaning.EntityInheritsIff` | internal/identity/identity.go:456-528 | an entity inherits a policy if and only if there is a way up, each stored group a member of the next, from a group that lists the entity to one that has the policy |
| `IdentityMeaning.ExternalInheritsIff` | internal/identity/identity.go:534-605 | external names give a policy if and only if there is such a way from a group that one of them is an alias of, or that has such a group, stored or not, as a member |
| `Reachability.ClosedHolds` | internal/identity/identity.go:491-514 | a set closed under the links holds everything its members reach |
| `TokenSpec.OrphanOptionWins` | internal/core/core.go:598-614 | an orphan option anywhere in the list makes an orphan without parent; options change nothing else |
| `TokenTree.Core.CreateToken` | internal/core/core.go:616-625 | the token is stored with the lifetime and terms its options say, and its accessor and children entries as far as storage goes along, or nothing is; while nothing fails the indexes stay exact |
| `TokenTree.Core.PutToken` | internal/token/store.go:37-58 | the three key spaces after a put, for any storage calls that fail; only a failure to store the token is reported |
| `TokenTree.Core.Children` | internal/token/store.go:61-76 | exactly the children the index records and that can be read |
| `TokenTree.Core.DeleteToken` | internal/token/store.go:105-118 | the token, its accessor entry and its entry under its parent are gone, each if storage goes along, and nothing else; success means the token is gone |
| `TokenTree.Core.PurgeCubbyhole` | internal/cubbyhole/cubbyhole.go:88-98 | exactly the entries of that token that can be deleted are gone |
| `TokenTree.Core.RenewToken` | internal/core/core.go:678-709 | missing, expired and non-renewable tokens are refused; otherwise the new expiry follows period, requested time and cap, and no index entry moves |
| `TokenTree.Core.PutCubbyhole` | internal/cubbyhole/cubbyhole.go:59-65 | one entry of the authenticated token is set, so only live tokens ever have data |
| `TokenTree.Core.RevokeToken` | internal/core/core.go:627-630 | one token, its accessor and its cubbyhole, each if storage goes along |
| `TokenTree.Core.RevokeTokenByAccessor` | internal/core/core.go:659-666 | the same by accessor, except that the entry under the parent stays; the state and the answer for any storage calls that fail |
| `TokenTree.Core.RevokeTokenTree` | internal/core/core.go:713-722 | terminates; the state afterwards and the answer for any storage calls that fail: what the index entries that can be listed and read reach from the token is removed as far as it can be deleted, and success means that the token's own record could be; while nothing fails exactly the subtree goes |
| `TokenTree.Core.RunGC` | internal/core/core.go:1345-1354 | exactly the expired tokens that can be listed and deleted go, and then the expired wrapped responses; nothing is done when tokens cannot be listed |
| `TokenTree.Core.ListExpired` | internal/token/store.go:157-175 | exactly the expired tokens, without those that cannot be read |
| `Reachability.CutOffIff` | internal/core/core.go:713-722 | in a tree, what is below a node is cut off if and only if a link on the way to it is missing |
| `Reachability.BranchesApart` | internal/core/core.go:713-722 | the walk over a tree comes to no token twice, so that no storage call is made twice |
| `TokenSpec.NoCycles` | internal/core/core.go:616-625 | creation links never lead back to where they started |
| `TokenSpec.SubtreeAfter` | internal/core/core.go:713-722 | losing entries of whole subtrees first loses nothing of the next one |
| `TokenSpec.HealthyClears` | internal/token/store.go:105-118 | while nothing fails, exactly the given tokens go with their accessors, index entries and cubbyholes |
| `TokenSpec.LostIff` | internal/core/core.go:713-722 | a tree revocation removes a token if and only if the walk gets to it and its record can be deleted |
| `TokenSpec.RevokesAllIff` | internal/core/core.go:711-722 | no live token of the subtree is left if and only if every entry on the way to one can be listed and read and its record deleted; no other failure matters |
| `TokenSpec.ListingFailsExample` | internal/core/core.go:711-722 | if only the listing of the children of p fails, revoking p succeeds and leaves its child alive |
| `TokenSpec.SurvivesIff` | internal/core/core.go:711-722 | with exact indexes, a live token created under the revoked one survives if and only if its record cannot be deleted or a creation link on the way is broken |
| `TokenSpec.LiveDescendantsRemoved` | internal/core/core.go:711-722 | while nothing fails, every token that descends from the revoked one through parent links of live tokens is gone |
| `TokenSpec.OnlyDescendantsRemoved` | internal/core/core.go:711-722 | a token is removed only if it was created under the revoked one, whatever storage calls fail |
| `TokenSpec.OrphanSurvives` | internal/core/core.go:596-603 | revoking any other token leaves an orphan, its accessor and its cubbyhole alone, whatever storage calls fail |
| `TokenRuns.Run` | internal/core/core.go:616-722 | any run of creations, renewals, revocations, revocations by accessor, tree revocations, collections and cubbyhole writes, with any storage calls failing, goes through the states of a pure state machine |
| `TokenRuns.ReachableStates` | internal/core/core.go:616-722 | in every reachable state no index entry is wrong, whatever fails; while nothing fails the indexes are exact and only live tokens have cubbyhole data |
| `TokenRuns.NothingLeftBehind` | internal/core/core.go:627-722 | in a run without failures neither an accessor nor cubbyhole data outlives its token, however it went |
| `TokenLife.TokenIs` | internal/core/core.go:544-709 | in any run without failures, a live token has the parent, orphan mark, renewability, cap and period its creation options say, the last one of a kind winning, and the expiry its creation and renewals leave |
| `TokenLife.Collected` | internal/core/core.go:1345-1354 | a collection takes a token if and only if it is past that expiry |
| `TokenLife.Refused` | internal/core/core.go:678-709 | a renewal is refused as invalid if and only if the token is past its expiry, and otherwise as not renewable if and only if it was not created renewable |
| `TokenLife.NeverRenewed` | internal/core/core.go:616-625 | a token never renewed lives for the time it was created with, for ever if that is not positive |
| `TokenLife.NeverPastTheCap` | internal/core/core.go:678-709 | however often it is renewed, a token with a cap and no period does not outlive the cap, unless it was created to |
| `TokenLife.LivesForItsPeriod` | internal/core/core.go:678-709 | a renewal of a token with a period lasts exactly that period, whatever was asked for and whatever the cap |
| `TokenRuns.HistoryIs` | internal/core/core.go:616-722 | the links and removals the invariants speak of are those the calls of the run made |
| `TokenRuns.SurvivorsIff` | internal/core/core.go:711-722 | after any run without failures, a live token created under the revoked one survives a tree revocation if and only if its record cannot be deleted, or a token on the way was removed in the run other than by accessor, or an entry on the way cannot be listed or read |
| `Glob.GlobMatch` | internal/policy/policy.go:118-157 | terminates and decides the strict token semantics: a "*" is never followed by a slash in the text |
| `Glob.MatchesIffSplit` | internal/policy/policy.go:113-157 | a text matches exactly when it splits into pieces, one for each token |
| `GlobMeaning.StarSlashMatchesNothing` | internal/policy/policy.go:118-157 | a pattern with a "*" directly before a "/" matches no text at all |
| `GlobMeaning.MeansItsTokensIff` | internal/policy/policy.go:118-157 | the code matches exactly the texts the tokens stand for if and only if one pass over the pattern finds no "*" that a slash can follow too late |
| `GlobBlocks.MeansItsTokensByBlocks` | internal/policy/policy.go:118-157 | the same condition block by block: no "*/", and a "*" directly before a "**" needs a "**/" before the first "*" of its block and no literal slash after it |
| `GlobComment.FollowsCommentIff` | internal/policy/policy.go:110-157 | the code does what its comment says on every text if and only if the pattern has no "*/" and has "**" only as its last two characters and not behind another "*" |
| `GlobComment.MiddleStarExample` | internal/policy/policy.go:110-157 | by the comment a/*/b matches a/x/b; the code says no |
| `GlobComment.DoubleBeforeLetterExample` | internal/policy/policy.go:110-157 | by the comment **a matches x/a; the code says no |
| `GlobComment.DoubleWithSlashExample` | internal/policy/policy.go:110-157 | by the comment **/x does not match x; the code says yes |
| `PolicyAcl.Allowed` | internal/policy/policy.go:92-108 | exactly: no matching rule denies and some matching rule grants |
| `PolicyAcl.PermittedIff` | internal/policy/policy.go:92-108 | open if and only if some matching rule, wherever it stands, has the bit asked for and none that matches has the deny bit, 16 |
| `PolicyAcl.RootMayDoAll` | internal/policy/policy.go:66-108 | the root policy opens every path to reading, writing, deleting and listing, and to nothing else |
| `PolicyAcl.OneCapability` | internal/policy/policy.go:15-108 | each of the four capabilities opens a path to itself alone |
| `PolicyAcl.OrderDoesNotMatter` | internal/policy/policy.go:92-108 | the whole decision depends only on the set of rules, not on their order or grouping |
| `Wrapping.Wrapper.Wrap` | internal/wrapping/wrapping.go:137-184 | a record with the capped lifetime, at most 24 hours, and one more wrapped capsule |
| `Wrapping.Wrapper.Unwrap` | internal/wrapping/wrapping.go:191-225 | the payload wrapped under this token, once; the record is gone before it is returned; expired ones are removed and counted as expired |
| `Wrapping.Wrapper.Lookup` | internal/wrapping/wrapping.go:228-258 | succeeds exactly for live records without touching them; expired ones are removed and counted |
| `Wrapping.Wrapper.RevokeKey` | internal/wrapping/wrapping.go:273-299 | the record goes, counted as expired or as revoked, unreadable ones as revoked |
| `Wrapping.Wrapper.Scan` | internal/wrapping/wrapping.go:312-337 | exactly the expired records go; exactly the readable ones left are returned |
| `Wrapping.Wrapper.RevokeByAccessor` | internal/wrapping/wrapping.go:369-393 | success removes one live capsule with that accessor which the caller may touch and counts it as revoked; failure removes only expired ones, and means that no live capsule has the accessor or that one which has it may not be touched |
| `Wrapping.Wrapper.Bump` | internal/wrapping/wrapping.go:429-439 | counters are loaded once, raised by one and stored |
| `WrappingSpec.DropBalances` | internal/wrapping/wrapping.go:191-337 | dropping a record with any counter keeps wrapped = unwrapped + expired + revoked + live |
| `WrappingSpec.WrapBalances` | internal/wrapping/wrapping.go:137-184 | so does a new record counted as wrapped |
| `WrappingRuns.Run` | internal/wrapping/wrapping.go:126-439 | in any run with restarts: a capsule is promised for what was asked for, 5 minutes if that is 0 and 24 hours at most; no payload goes out twice and each is what was wrapped under its token, whatever fails; on healthy storage an unwrap, a lookup and a revocation go through if no call took or may have taken the capsule and it has not expired, and are refused if one took it or it has; the counters for wrapping, unwrapping and revoking are the numbers of calls that did so, and all four balance |
| `Namespaces.ValidateName` | internal/namespace/namespace.go:140-154 | accepts exactly the valid names, which are never empty, never root and free of tildes |
| `Namespaces.PrefixesDisjoint` | internal/namespace/namespace.go:172-177 | for distinct valid names no key of one is under the prefix of the other |
| `Namespaces.SharesPrefixIff` | internal/namespace/namespace.go:172-177 | an unvalidated name shares its prefix with another namespace exactly when it has a tilde and is a valid name once tildes are slashes |
| `Namespaces.OverlapIsEquality` | internal/namespace/namespace.go:172-177 | two prefixes have no key in common or are the same |
| `Namespaces.TildeExample` | internal/namespace/namespace.go:172-177 | a~b is no namespace, yet has the prefix of a/b |
| `NamespaceViews.View.Get` | internal/barrier/view.go:23-29 | the value under the view's own key |
| `NamespaceViews.View.Put` | internal/barrier/view.go:31-33 | one key of the view is set |
| `NamespaceViews.View.Delete` | internal/barrier/view.go:35-37 | one key of the view is removed |
| `NamespaceViews.View.List` | internal/barrier/view.go:39-52 | exactly the view's keys with the prefix, each once, relative to the view |
| `NamespaceViews.Interleave` | internal/barrier/view.go:23-52 | whatever other namespaces do in between and whatever fails, each answers every call as if it had a store to itself that saw its successful calls |
| `NamespaceViews.DeleteNamespace` | internal/core/core.go:1773-1795 | root is refused; success removes the record and exactly the keys under the prefix; every namespace whose prefix differs is untouched |
| `RateLimit.Limiter.Allow` | internal/ratelimit/ratelimit.go:51-71 | always true and without effect when disabled; otherwise the answer and the new bucket of one step, whose laws are the rows below |
| `RateLimit.Limiter.Cleanup` | internal/ratelimit/ratelimit.go:74-83 | exactly the buckets not refilled for longer than ttl go |
| `RateLimit.Run` | internal/ratelimit/ratelimit.go:51-83 | a limiter answers as one independent bucket for each key |
| `RateLimit.WindowBound` | internal/ratelimit/ratelimit.go:51-71 | in any window of length T one key is allowed at most burst + rate*T requests, lasting cleanups included |
| `RateLimit.BurstAtOnce` | internal/ratelimit/ratelimit.go:51-71 | of requests a key makes at once for the first time exactly the first burst are allowed |
| `RateLimit.RefillsAtTheRate` | internal/ratelimit/ratelimit.go:51-71 | after a burst and a pause the n-th request is allowed if and only if n is at most burst and at most rate times the pause |
| `RateLimit.SafeTtlIff` | internal/ratelimit/ratelimit.go:74-83 | cleanups change no answer in any run if and only if rate*ttl is at least burst |

## Left out

- RotateDataKey: the 32-bit version counter is assumed below its last value, where the source would wrap around to 0.
- RunSession: keys under "barrier/" are left out of the runs, and the counter has room for one rotation per operation. What was stored past the barrier, such as core/seal-meta, is there from the start.
- Split: coefficients are given; the loop that draws again while the leading one is zero, which ends only with probability one, is not modelled.
- AcquiresIff: an attempt during which no write arrives; LeaseDuration in seconds is an int, not an int32.
- TokenIs: runs without storage failures, with clocks past the zero time.
- EntityInheritsIff: no two stored groups have the same id, which is their storage key; `Identity.ResolveEntityPolicies` is stated without that.
- OneShareLess: which secrets are possible, not how likely they are.
- RevokeByAccessor: when several capsules share an accessor the source takes whichever its map yields first, and so does the model.
- CreateToken: ids and accessors are fresh, in runs too; names, policies and the counting of uses are not part of the token.
- RevokeTokenTree: different tokens have different storage keys (SHA-256 is not modelled).
- Evict: the evicted versions are deleted in no particular order; the source sorts them first.
- UpdateMetadata: authors and time stamps.
- ValidateCustom: which byte strings are valid UTF-8 is a parameter, and one error stands for all texts.
- AuditDispatcher.Logger.Write: a failing writer is taken to leave no part of a line behind.
- AuditDispatcher.Dispatcher.constructor: nothing was written through its logger yet; the file it continues holds the end of a chain and decodes, with a last record of less than 64 KiB; how many records the part that is read back holds is a parameter; the counters are not repopulated.
- Allow: tokens and time are real numbers, not floating point.
- Overwriting keys in memory with zeros, and aliasing of byte slices.
- Counters and sequence numbers are unbounded where the source uses uint64.
- Core.RotateKey and the seal material it overwrites before the rekey.
- TrackUse and use-count limits under races.
- The audit sinks, statistics, filters and file rotation.
- HTTP handlers, CLI, web UI, Raft, Kubernetes calls, LDAP, JWT, AppRole, transit and GOST code: plumbing or separate subsystems.
- Listing of wrapped capsules and KV paths, token roles, mounts and configuration: they would only add easy members.
