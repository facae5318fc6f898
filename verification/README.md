# FerroGate, modelled and proved

A Dafny model of the parts of FerroGate whose correctness rests on more than one
function: the transparency log and its Merkle proofs, the write-once store under
crashes, host-call authentication, quorum co-signing, short-path renewal over the
replicated store, issuer-seed establishment, the anchor queue, RIM generations, and
the TPM and JSON parsers in front of them. `dafny verify dfyconfig.toml` checks all
of it.

How the pieces are modelled:

- Hashes, signatures and codecs are function-valued parameters, so every result holds
  for all of them. Nothing is assumed injective: where security rests on collision
  resistance the result is "or here is a collision", and a function computes the
  colliding pair. The exceptions are stated as `requires`: the head codecs of the log
  and of the queue decode what they encode and no proper prefix of it (`GoodCodecs`,
  `QueueCodecs`), and no two SVIDs issued in the run at hand have one digest
  (`CollisionFree`).
- Objects the source updates in place are classes (`LocalDiskWormStore`, `AuditLog`,
  `ReplayCache`, `HostRateLimiter`, `RimStore`, `AnchorQueue`, `Reader`), and loops are
  loops; each method is proved against a function on values, and the results over
  whole runs are about those functions.
- Concurrent calls are interleaved steps of a state machine. Every file write may fail
  to open, tear or succeed; a replicated write may be applied and still answer an
  error. Cluster reads are linearizable and conditional writes atomic.
  `RotateCall` and `SeedLoop` run the code of one call or node with other steps between
  its store accesses and prove that the result is a run of the machine.
- Clocks, randomness, leadership, renewal decisions and anchor answers are inputs.
  `NoReplay`, `RateBound` and the results on waits take `now` as nondecreasing in lock
  order; `NoReplayBeforeExpiry` and `RateBoundAnyClock` do not.

Where the code does something else than its documentation or its reader expects, the
model follows the code:

- `QuoteInfo::parse` is documented to reject other attestation types and looks at neither
  type nor magic (`CertifyParses`); the verifier checks both right after it, and the two
  together accept exactly the quotes (`GenuineQuoteIff`).
- `AnchorQueue::pending` is documented to skip malformed entries. One fails the whole
  listing, for good (`ListingSucceedsIff`, `UnreadableForever`), and a time cut after a
  digit is no failure at all but a wrong time (`CutTimeIsListed`).
- Nothing enqueued is lost (`NoHeadIsLost`), but an entry whose receipt or copy in dead is
  already there holds up all behind it (`WedgedForever`). An interrupted mark or quarantine
  leaves one, and so does enqueueing again after a quarantine, with no fault involved
  (`MarkWedgesIff`, `QuarantineWedgesIff`, `RequeuedIsWedged`).
- A head file of the log torn by a crash stays the newest of its kind, and no later resume
  succeeds (`DownForever`); a process that outlives it heals it (`PublishingHeals`).
- `AuditLog::append` is documented to leave tree and store in step. A leaf that landed
  without being acknowledged stalls the log until a restart, which adopts it, torn or not
  (`AppendStallsIff`, `StalledUntilDown`, `HeadCoversStoreIff`, `RestartAdopts`).
- An accepted document is remembered for `now < t0 + 600` and stays fresh up to and
  including `issued_at + 300`, so one issued at t0 + 300 is accepted again at t0 + 600
  (`NoReplay`, `AcceptedTwiceInTheWindow`).
- With a clock that steps back, the rate bound goes by the spread of the host's own readings as
  long as its bucket is kept (`RateBoundAnyClock`). At the tracking limit another host's later
  reading can drop it (`DroppedByAnotherClock`).
- The documentation of `verify_inclusion` says acceptance implies a tree with that leaf and
  root. That rests on the node hash reaching every digest (`AcceptedMeansATree`), as one
  expects of SHA3-384 and nobody has shown; `AcceptedMeansATreeIff` says what holds without
  it, and against the root of a real tree `InclusionSound` needs nothing.

## Model

| member | source | states |
|---|---|---|
| `Merkle.LargestPow2Below` | crates/ferro-audit/src/merkle.rs:54-61 | the loop returns the power of two k with k < n <= 2k, for every n >= 2 |
| `MerkleVerify.VerifyInclusion` | crates/ferro-audit/src/merkle.rs:206-240 | the bit-shifting loop accepts exactly the proofs whose recursion over the tree shape gives the root; both loops terminate, the inner one because it starts with fn = sn > 0 |
| `MerkleVerify.VerifyConsistency` | crates/ferro-audit/src/merkle.rs:245-299 | the bit-shifting loop accepts exactly the proofs whose recursion over the tree shape gives both roots, for every pair of sizes and every proof, old size 0, equal sizes and powers of two included |
| `MerkleVerify.AlignOld` | crates/ferro-audit/src/merkle.rs:272-277 | the first shift loop of the consistency verifier keeps what the proof claims about both roots, and ends at 0 exactly for a power of two |
| `MerkleProofs.InclusionComplete` | crates/ferro-audit/src/merkle.rs:152-169 | the generated audit path of every leaf of every list is accepted |
| `MerkleProofs.InclusionSound` | crates/ferro-audit/src/merkle.rs:206-240 | acceptance against the root of D means leaf = D[i] and that the proof is the generated path, or an explicit pair of colliding node-hash inputs |
| `MerkleProofs.RootBindsLeaves` | crates/ferro-audit/src/merkle.rs:140-148 | equal roots of equally long lists mean equal lists, or an explicit node-hash collision |
| `MerkleProofs.ConsistencyComplete` | crates/ferro-audit/src/merkle.rs:173-198 | the generated consistency proof is accepted for every 1 <= m <= n, power of two or not |
| `MerkleProofs.ConsistencySound` | crates/ferro-audit/src/merkle.rs:245-299 | acceptance of any proof between mth(A) and mth(B) means that A is the first m leaves of B and the proof is the generated one, or an explicit node-hash collision |
| `MerkleTrees.AcceptedMeansATree` | crates/ferro-audit/src/merkle.rs:200-240 | for a node hash that reaches every digest, acceptance means a tree of n leaves with that leaf and root exists, at every index and size: the documented reading |
| `MerkleTrees.AcceptedMeansATreeIff` | crates/ferro-audit/src/merkle.rs:200-240 | for any node hash and any accepted proof, that tree exists if each listed sibling is the root of some tree of its size; and from any such tree the siblings have theirs, or a collision is computed |
| `MerkleTrees.OntoIsNeeded` | crates/ferro-audit/src/merkle.rs:43-51 | the reading does rest on the node hash: there is one, not reaching every digest, for which it fails at every index and size with a sibling of more than one leaf |
| `AuditStore.LocalDiskWormStore.WriteNew` | crates/ferro-audit/src/store.rs:160-172 | create-new semantics under an open failure, a torn write or success: no existing file ever changes, and Ok means the whole content is there |
| `AuditStore.LocalDiskWormStore.AppendLeaf` | crates/ferro-audit/src/store.rs:176-185 | leaf, then leaf hash, each write-once; the error of the first write that fails |
| `AuditStore.LocalDiskWormStore.RecordHead` | crates/ferro-audit/src/store.rs:187-203 | one write-once file per tree size in the directory of the head kind |
| `AuditStore.LocalDiskWormStore.ReadLatestIn` | crates/ferro-audit/src/store.rs:136-157 | the directory scan finds the largest tree size present, foreign names ignored, whatever the listing order |
| `AuditLog.AuditLog.Open` | crates/ferro-audit/src/log.rs:85-148 | resume: replays stored leaves in order until the first gap, reads both newest heads, and refuses a head that is unreadable, larger than the tree or of another root |
| `AuditLog.AuditLog.Append` | crates/ferro-audit/src/log.rs:167-175 | stores first, extends the tree only on success, answers the index |
| `AuditLog.AuditLog.ProduceHead` | crates/ferro-audit/src/log.rs:179-228 | signs the current size and root, records the head before it becomes the latest; plain and co-signed |
| `AuditLog.AuditLog.ProveInclusion` | crates/ferro-audit/src/log.rs:244-265 | succeeds exactly for an index below the size, and the proof it returns is accepted by the verifier |
| `AuditLog.AuditLog.ProveConsistency` | crates/ferro-audit/src/log.rs:274-294 | succeeds exactly for 1 <= old size <= size, and the proof it returns is accepted against the root of that prefix |
| `AuditRuns.StepKeeps` | crates/ferro-audit/src/log.rs:85-228 | every append, head production, crash and restart, with any write failing or torn, keeps: tree = hashes of the first stored leaves, at most one stored leaf beyond it, acknowledged leaves stored, recorded heads of the right root |
| `AuditRuns.RunKeeps` | crates/ferro-audit/src/log.rs:85-228 | that invariant in every state of every run from the empty store |
| `AuditRuns.AppendOnly` | crates/ferro-audit/src/log.rs:85-192 | between any two points of a run the stored leaves only grow, no file changes and acknowledgements persist |
| `AuditRuns.AckedForever` | crates/ferro-audit/src/log.rs:167-175 | an acknowledged index holds its event in the store forever, and its hash in the tree whenever a log is open |
| `AuditAppend.AppendSucceedsIff` | crates/ferro-audit/src/log.rs:167-175 | in any state of any run an append is acknowledged exactly when both files can be written and no stored leaf lies beyond the tree |
| `AuditAppend.AppendStallsIff` | crates/ferro-audit/src/log.rs:167-175 | an append that fails leaves such a leaf exactly when its leaf file was begun |
| `AuditAppend.StalledUntilDown` | crates/ferro-audit/src/log.rs:162-175 | with such a leaf no append succeeds until the process goes down: tree, stored leaves and acknowledgements stay |
| `AuditAppend.HeadCoversStoreIff` | crates/ferro-audit/src/log.rs:162-192 | a published head covers exactly the leaves the store reflects, as documented, exactly when there is no such leaf; else all but that one |
| `AuditAppend.RestartAdopts` | crates/ferro-audit/src/log.rs:89-98 | every later restart that succeeds has whatever landed of it, torn or whole, in its tree |
| `AuditAppend.TornLeafRun` | crates/ferro-audit/src/log.rs:85-175 | a run whose first append tears, is not acknowledged, and is leaf 0 after the restart |
| `AuditRuns.PublishedSizesIncrease` | crates/ferro-audit/src/store.rs:187-203 | two heads of one kind published in a run have strictly increasing sizes, so no size gets two |
| `AuditRuns.RecordedHeadsConsistent` | crates/ferro-audit/src/log.rs:179-228 | any two readable recorded heads of sizes 1 <= m <= n, of either kind, verify as consistent |
| `AuditRuns.ResumeSucceedsIff` | crates/ferro-audit/src/log.rs:85-148 | a restart from any state of any run succeeds exactly when every stored leaf and both newest heads can be read and the newest head file of each kind is absent or whole, and then recovers every stored leaf |
| `AuditRuns.ResumeRefusedIff` | crates/ferro-audit/src/log.rs:100-131 | over any disk content that can be read, resume answers divergence exactly when the newest head is of more leaves than are stored or of another root than the leaves it covers, and a body error exactly when its body does not decode |
| `AuditLatest.LatestHeads` | crates/ferro-audit/src/log.rs:100-148 | in every state of every run with an open log, the slot of each head kind holds the head last published in that kind or, since a restart, the newest recorded one of that kind, and is empty when there is none |
| `AuditLatest.PublishedHead` | crates/ferro-audit/src/log.rs:179-228 | a published head carries the size, the root (zeros for an empty tree) and the timestamp the caller gave, and the signer's signatures; it is recorded, held in its own slot and returned; the other slot stays |
| `AuditLatest.AcknowledgedAppend` | crates/ferro-audit/src/log.rs:167-175 | an acknowledged append in any run has the next index, leaves exactly its two files with the event and its hash, and ends the tree with that hash |
| `AuditRestart.DownForever` | crates/ferro-audit/src/log.rs:85-148 | from a state that is down over a torn newest head, every later state of every run is down with the same files: no restart ever succeeds |
| `AuditRestart.PublishingHeals` | crates/ferro-audit/src/log.rs:179-228 | a head that is published is the newest of its kind and whole, so a process that outlives a torn head heals it with its next head |
| `AuditRestart.TornSizeRefused` | crates/ferro-audit/src/store.rs:160-203 | until an append moves the log on, no head can be published at a size whose file is torn |
| `AuditRestart.TornHeadRun` | crates/ferro-audit/src/log.rs:179-192 | a run of three operations whose last state is down for good |
| `AuditRestart.HealedRun` | crates/ferro-audit/src/log.rs:179-192 | a run in which the torn head is outlived, an append and a head follow, and a restart succeeds |
| `AuditRuns.ResumeDetectsDivergence` | crates/ferro-audit/src/log.rs:89-131 | on any disk content, if the newest head commits to leaves d and resume succeeds, the stored leaves start with d, or a leaf-hash or node-hash collision is exhibited |
| `RateLimiter.HostRateLimiter.constructor` | crates/cmis/src/host_auth.rs:629-638 | zero calls or period count as one; capacity, refill and cost fit u64 for every u32 pair |
| `RateLimiter.HostRateLimiter.Check` | crates/cmis/src/host_auth.rs:661-680 | drops full buckets above the tracking limit, refills, spends, or answers the wait |
| `RateLimiter.ProductFits` | crates/cmis/src/host_auth.rs:629-638 | capacity never overflows u64 |
| `RateLimiter.RefilledExact` | crates/cmis/src/host_auth.rs:652-657 | the saturating refill is min(capacity, units + elapsed * refill) exactly |
| `RateLimiter.RateBound` | crates/cmis/src/host_auth.rs:652-680 | over every trace with a nondecreasing clock and every host: admitted * period <= calls * period + calls * T on every interval, whatever other hosts do |
| `RateAnyClock.RateBoundAnyClock` | crates/cmis/src/host_auth.rs:652-680 | under any clock, steps back included: the same bound with T the spread of the host's own readings, for calls between which its bucket is not dropped |
| `RateAnyClock.KeptBelowTheLimit` | crates/cmis/src/host_auth.rs:661-672 | no bucket is dropped while fewer hosts are tracked than the limit |
| `RateAnyClock.DroppedByAnotherClock` | crates/cmis/src/host_auth.rs:661-672 | at the limit it is otherwise: a trace in which another host's later reading drops a bucket, and the host is admitted twice in one second at one call in ten |
| `RateLimiter.ForgettingIsUnobservable` | crates/cmis/src/host_auth.rs:661-672 | with any tracking limit the limiter answers every call of every trace like one that never drops a bucket |
| `RateLimiter.RefusalsCostNothing` | crates/cmis/src/host_auth.rs:661-680 | refused retries leave the level at what it would have been without them |
| `RateLimiter.NextAfterWait` | crates/cmis/src/host_auth.rs:673-680 | after Err(w), the first later call not preceded by an admitted one is admitted exactly when it comes at now + w or later |
| `RateLimiter.NoneBeforeWait` | crates/cmis/src/host_auth.rs:673-680 | after Err(w), every call of that host before now + w is refused |
| `ReplayCache.ReplayCache.constructor` | crates/cmis/src/host_auth.rs:554-561 | empty cache, lowest floor, capacity at least one |
| `ReplayCache.ReplayCache.Prune` | crates/cmis/src/host_auth.rs:563-571 | drops exactly the leading expired entries; the key set stays the keys of the queue |
| `ReplayCache.ReplayCache.Seen` | crates/cmis/src/host_auth.rs:573-576 | after pruning, answers whether the key is held or the document is at or below the floor |
| `ReplayCache.ReplayCache.Insert` | crates/cmis/src/host_auth.rs:579-598 | prunes, refuses a known document, evicts from the front raising the floor until there is room, and appends |
| `HostAuth.LookKeeps` | crates/cmis/src/host_auth.rs:563-576 | a look-up forgets no document whose expiry is ahead of every reading so far |
| `HostAuth.InsertKeeps` | crates/cmis/src/host_auth.rs:579-598 | an insertion, evictions included, forgets no live document, remembers the new one, and succeeds only if none of that key and time was live |
| `HostAuth.StepKeeps` | crates/cmis/src/host_auth.rs:465-522 | every step of every call, under any clock readings, keeps keys distinct, the cache within capacity and all accepted documents remembered until some lock holder reads a time past their expiry |
| `HostAuth.NoReplayBeforeExpiry` | crates/cmis/src/host_auth.rs:475-522 | in every interleaving under any clock, one document accepted twice means that some call that held the replay lock had read a time at or past the earlier reading plus 600 seconds (or the largest time) |
| `HostAuth.AcceptedTwiceAfterALateReading` | crates/cmis/src/host_auth.rs:563-571 | and such a reading suffices: a call for any other document that reads that time makes the first one acceptable again |
| `HostAuth.NoReplay` | crates/cmis/src/host_auth.rs:475-522 | in every interleaving in which the replay lock is taken in clock order, one document accepted twice means its two times are exactly the window apart (the two ends of its freshness window), or the clock sits at its maximum |
| `HostAuth.AcceptedTwiceInTheWindow` | crates/cmis/src/host_auth.rs:563-571 | whenever a document is still fresh at its own entry's expiry, a run exists that accepts it twice: the boundary of the previous row is exact |
| `HostAuth.CacheAlwaysOrdered` | crates/cmis/src/host_auth.rs:546-598 | in every state of every run the queue has distinct keys and is within capacity, and with the lock taken in clock order it is sorted by expiry |
| `HostAuthRefusal.RefusalsAreJustified` | crates/cmis/src/host_auth.rs:538-598 | in any interleaving under any clock, a call refused as a replay has its nonce accepted from its host by another call, or as many documents as the cache holds were accepted and one is at least as new (or bears the earliest time an i64 has) |
| `HostAuthRate.InterleavedRateBound` | crates/cmis/src/host_auth.rs:498-509 | the rate bound for the interleaved calls of a node, with the limiter lock taken in clock order: from one limiter step to another, passed * period <= calls * period + calls * T for every host |
| `HostAuth.Authenticate` | crates/cmis/src/host_auth.rs:465-522 | accepts only a document that names the SVID's host, lies within 300 seconds of the reading and is bound; answers each of those three refusals exactly when it is the first to fail, a rate refusal with the limiter's wait; and, run alone, ends where the interleaved steps end |
| `HostAuthChecks.AnswersTell` | crates/cmis/src/host_auth.rs:465-522 | in every interleaving, the phase of every call says what its own fields are: past the checks or accepted only with the same host, within 300 seconds and bound; each refusal by a check exactly for its cause; a rate refusal only for a limited call and with the wait the limiter answered |
| `HostAuthChecks.RefusedByCheckIff` | crates/cmis/src/host_auth.rs:465-484 | a call that has taken a step is refused by one of the three checks exactly when it fails one, by the first it fails |
| `HostAuthChecks.ReplaySpendsNothing` | crates/cmis/src/host_auth.rs:485-510 | in every interleaving, a call that looks its document up when another call has had it accepted, no reading being 600 seconds past that one, is refused as a replay there and then, and none of its steps touches the limiter |
| `Cosign.NewKeyset` | crates/ferro-audit/src/cosign.rs:224-244 | built exactly for distinct kids and 1 <= threshold <= count, with every key; else the first repeated kid is reported, and the threshold only when there is none |
| `Cosign.NewQuorumSigner` | crates/ferro-audit/src/cosign.rs:142-156 | built exactly for distinct kids and 1 <= threshold <= count; a bad threshold is reported first, else the first repeated kid |
| `Cosign.Sign` | crates/ferro-audit/src/cosign.rs:181-201 | succeeds exactly when every signer does, with the signatures in order; else names the first that failed |
| `Cosign.VerifyCosigned` | crates/ferro-audit/src/cosign.rs:275-304 | accepts exactly when the body decodes and some set of at least threshold kids has each an entry that decodes, parses and verifies over the body under its listed key; the quorum error comes first and counts all who signed |
| `Cosign.EndorserIff` | crates/ferro-audit/src/cosign.rs:282-296 | a kid counts exactly when it is listed and some entry under it decodes, parses and verifies over the body bytes under its key |
| `Cosign.DeadKeyNeverEndorses` | crates/ferro-audit/src/cosign.rs:282-296 | a listed kid whose key verifies nothing over the body never counts |
| `Cosign.OnlyCountingSignaturesMatter` | crates/ferro-audit/src/cosign.rs:275-304 | order, duplicates, unknown kids and junk signatures never change the answer |
| `Cosign.QuorumsIntersect` | crates/ferro-audit/src/cosign.rs:275-304 | two accepted artefacts share at least 2 * threshold - N endorsing kids |
| `Cosign.NoSplitView` | crates/ferro-audit/src/cosign.rs:275-304 | for two accepted heads of one tree size without forgeries: if fewer listed kids than that have signed two bodies of the size, the heads are the same body |
| `Cosign.SplitViewAtTheBound` | crates/ferro-audit/src/cosign.rs:275-304 | and the bound cannot be lowered: with signers that can sign, exactly max(0, 2 * threshold - N) equivocators suffice for two accepted heads of one size that differ |
| `Cosign.SignedArtefactVerifies` | crates/ferro-audit/src/cosign.rs:181-201 | what the quorum signer returns is accepted exactly by the keysets under which at least threshold of its signers sign validly |
| `Rim.ReservedIffSpelling` | crates/ferro-attest/src/rim.rs:46-48 | the reserved test holds exactly for the name in any ASCII case between any white space |
| `Rim.RimStore.Approve` | crates/ferro-attest/src/rim.rs:159-165 | refuses exactly a spelling of the reserved id, changing nothing; else maps this digest to the policy and no other |
| `Rim.RimStore.LookupAt` | crates/ferro-attest/src/rim.rs:170-183 | the manual approval of the digest; else the policy of the newest generation with not_before <= now < not_after that lists it; none exactly when there is none |
| `Rim.RimStore.Apply` | crates/ferro-attest/src/rim.rs:207-237 | refuses reserved ids, empty windows and versions that do not increase, in that order, changing nothing; else appends, drops the oldest beyond six, and reports version, retained and dropped |
| `Rim.MatchIsListed` | crates/ferro-attest/src/rim.rs:170-183 | the generation looked up is the last one that is active and lists the digest; none when there is none |
| `Rim.LookupNeverReserved` | crates/ferro-attest/src/rim.rs:159-183 | after any sequence of apply and approve no look-up at any time answers a reserved id |
| `Rim.VersionsIncrease` | crates/ferro-attest/src/rim.rs:207-237 | the versions ever accepted strictly increase |
| `Rim.RetainedAreTheLastApplied` | crates/ferro-attest/src/rim.rs:207-237 | the retained generations are the last at most six accepted, in order |
| `Rotation.StepKeeps` | crates/cmis/src/service.rs:809-923 | every step of every attestation, renewal and RIM change, with failed and half-failed store writes, keeps the invariant on store, issued SVIDs, calls in flight and swaps, as long as no two issued SVIDs have one digest |
| `Rotation.RotationIsLinear` | crates/cmis/src/state.rs:770-815 | in every interleaving each SVID is renewed from at most once, and the record swapped in differs only in its bundle from the record the decision read |
| `RotationStore.StoreIsLastWritten` | crates/cmis/src/state.rs:677-694 | in every run the stored record of a subject is the one last written: by the last applied attestation of it or the last swap that took effect, whole |
| `RotationStore.RecordIsStored` | crates/cmis/src/service.rs:590-602 | in every run, an attestation whose write is applied leaves under its subject exactly the record an earlier attestation event of that call brought, until the next write for that subject |
| `RotationStore.MintedWasAttested` | crates/cmis/src/service.rs:565-602 | a record on its way to the store is one that an attestation of that subject brought |
| `RotationStore.RenewalRun` | crates/cmis/src/service.rs:809-923 | a run from attestation to renewal exists, and ends with the attested record under the new SVID |
| `Rotation.RenewedWasStored` | crates/cmis/src/service.rs:897-923 | every bundle a renewal returns was in the store before |
| `Rotation.TierIntegrity` | crates/cmis/src/service.rs:565-574 | an SVID reads as host-key tier exactly when it descends, through any number of renewals, from a host-key attestation |
| `RotateCall.Cmis.DecideRenewal` | crates/cmis/src/service.rs:854-892 | the record read decides only if readable, present, holding the presented SVID and not due for attestation; each refusal has its own error |
| `RotateCall.Cmis.FetchCurrent` | crates/cmis/src/state.rs:776-796 | the swap goes on exactly with a readable record that still holds the presented SVID, and with that record |
| `RotateCall.Cmis.SwapIfUnchanged` | crates/cmis/src/state.rs:797-815 | Replaced only if the store still held the fetched record, and then only its bundle changed |
| `RotateCall.Cmis.ReplaceBundleIfCurrent` | crates/cmis/src/state.rs:770-815 | Replaced exactly when the record holds the presented SVID at the fetch, is unchanged at the swap and the answer comes back, whatever other calls do in between; then the new SVID is stored |
| `RotateCall.Cmis.Rotate` | crates/cmis/src/service.rs:843-923 | with any steps of other calls between its store accesses, the call is a run of the machine; it returns an SVID exactly when every check and store access succeeds, and this call has then stored it |
| `RotateCall.UndisturbedSucceedsIff` | crates/cmis/src/service.rs:843-923 | with no other call in between, that is: a host-key SVID that the stored record holds, a decision to renew, a new SVID and no failure |
| `RotateCall.LeadsIsRun` | crates/cmis/src/service.rs:843-923 | whatever such calls lead to is a state of a run, so the results above hold of it |
| `IssuerSeed.SetOnce` | crates/cmis/src/main.rs:167-215 | the shared seed, once set, never changes, in every run of any number of nodes |
| `IssuerSeed.Agreement` | crates/cmis/src/main.rs:167-215 | any two nodes that return, at any times, return the same 32 bytes, and these are some node's candidate: the seed on its disk at the start or one it minted |
| `IssuerSeed.ProposesIff` | crates/cmis/src/main.rs:180-193 | a node that read no seed proposes exactly as leader or past its deadline, the seed on its disk if there is one of 32 bytes, a minted one only without; a disk seed of another length is an error |
| `IssuerSeed.CompareAndSetIff` | crates/cmis/src/main.rs:194-209 | the compare-and-set sets only an empty register and only to the candidate, and the node returns exactly when told it won; a failed answer may hide either outcome |
| `IssuerSeed.SetterKeepsItsDiskSeed` | crates/cmis/src/main.rs:181-197 | in every run the register, when it is first set, is set by a node's compare-and-set to the seed on that node's disk, or to one it minted as leader or past its deadline if its disk had none |
| `IssuerSeed.DisksMirrorTheSeed` | crates/cmis/src/main.rs:246-272 | in every run a disk holds what it held at the start or the cluster's seed, and the latter once the mirror is written |
| `IssuerSeed.LoserReturnsNext` | crates/cmis/src/main.rs:206-209 | a node whose compare-and-set lost returns the cluster seed at its next successful read |
| `SeedLoop.ResolveClusterSeed` | crates/cmis/src/main.rs:167-215 | the loop itself, with other nodes' steps before every store access, returns only the seed the register holds, keeps a seed already set and adopts it on its first successful read; when its own compare-and-set wins it returns the seed on its disk, a minted one only without, from a turn as leader or past the deadline; an undisturbed turn over an empty register proposes exactly then |
| `SeedLoop.EstablishSeed` | crates/cmis/src/main.rs:180-209 | the proposing turn: nothing but the phase changes unless leader or past the deadline; the seed established is the disk's or else the minted one, and a disk seed of another length is the error |
| `SeedLoop.LeadsIsRun` | crates/cmis/src/main.rs:167-215 | whatever the loop leads to is a state of a run of the cluster |
| `AnchorFiles.NoHeadIsLost` | crates/ferro-audit/src/anchor.rs:174-261 | a head whose enqueue answered true is, after any later operations each cut short at any file operation, whole in pending, or receipted, or whole in dead |
| `AnchorFiles.HeldForever` | crates/ferro-audit/src/anchor.rs:174-261 | the same for any size already held, over every run |
| `AnchorService.ServiceIsRun` | crates/ferro-audit/src/anchor.rs:174-375 | every state of a service of enqueues and drains, each cut short anywhere, is the state of a run of operations, so all results on runs hold of it |
| `AnchorService.NoHeadIsLostInService` | crates/ferro-audit/src/anchor.rs:174-375 | over services: a head whose enqueue answered true is held for good |
| `AnchorService.WholePassInService` | crates/ferro-audit/src/anchor.rs:350-375 | at any point of a service, a whole pass without faults over a queue that can be listed empties it up to the first transient failure exactly when nothing before that is stuck for its answer, and leaves the rest as it was |
| `AnchorFiles.MarkHolds` | crates/ferro-audit/src/anchor.rs:237-250 | marking, interrupted anywhere, loses no size |
| `AnchorFiles.QuarantineHolds` | crates/ferro-audit/src/anchor.rs:254-261 | quarantine, interrupted anywhere, loses no size |
| `AnchorDrain.DrainSucceedsIff` | crates/ferro-audit/src/anchor.rs:350-375 | a drain answers Ok exactly when every move up to the first transient failure can be made; its three counts are those of the moves |
| `AnchorDrain.DrainMovesPrefix` | crates/ferro-audit/src/anchor.rs:350-375 | exactly the entries before the first transient failure move, each to receipts or dead as answered, and no file of another size changes |
| `AnchorDrain.DrainLeavesSuffix` | crates/ferro-audit/src/anchor.rs:350-375 | when removals succeed, what is pending afterwards is exactly the rest of the ascending list, unchanged |
| `AnchorDrain.DrainSettles` | crates/ferro-audit/src/anchor.rs:350-375 | with removals succeeding, a pass over a queue that can be listed is Ok exactly when the moves up to the first transient failure can be made, and any later listing is the rest of the first |
| `AnchorListing.ListingSucceedsIff` | crates/ferro-audit/src/anchor.rs:194-233 | after any run of operations cut short anywhere, the queue can be listed exactly when no pending head file is short and every one has a time file with at least one digit; an entry that fails is not skipped, it fails all |
| `AnchorListing.ListingRightIff` | crates/ferro-audit/src/anchor.rs:194-233 | the listing is what was enqueued, times included, exactly when moreover every time file holds the whole text of its own enqueue's time |
| `AnchorListing.CutTimeIsListed` | crates/ferro-audit/src/anchor.rs:186-225 | a time file cut after a digit is listed with a time at most a tenth of the real one, so the backlog age is wrong |
| `AnchorListing.StaleTimeIsListed` | crates/ferro-audit/src/anchor.rs:174-261 | a time file that could not be removed is listed with the next head enqueued at that size |
| `AnchorListing.FalseMeansHeldIff` | crates/ferro-audit/src/anchor.rs:174-192 | after any run, an enqueue that answers false leaves the head held exactly when the pending file is that head and whole, or the receipt is complete, or the head is complete in dead |
| `AnchorStuck.CalmFalseIsHeld` | crates/ferro-audit/src/anchor.rs:174-192 | without faults and with one head to a size, an enqueue that answers false always leaves the head held |
| `AnchorListing.CutHeadIsNotHeld` | crates/ferro-audit/src/anchor.rs:180-190 | a head file cut short makes the retry answer false with the head held nowhere |
| `AnchorStuck.UnreadableForever` | crates/ferro-audit/src/anchor.rs:194-233 | an entry that cannot be read stays so over any later enqueues and drains, crashes included: every listing fails and nothing pending ever leaves |
| `AnchorStuck.EnqueueBreaksIff` | crates/ferro-audit/src/anchor.rs:174-192 | after any run, an enqueue of a new size leaves such an entry exactly when it began its head file, and not both the head is whole and there is then a time file with a digit (its own, or one left over) |
| `AnchorStuck.WedgedForever` | crates/ferro-audit/src/anchor.rs:237-261 | an entry whose receipt, or copy in dead, is already there stays pending over any later enqueues and drains, with every head of a larger size, unless the log gives its head the one other final answer |
| `AnchorStuck.WedgedDrainFails` | crates/ferro-audit/src/anchor.rs:350-375 | every drain that reaches such an entry and gets that answer fails |
| `AnchorStuck.MarkWedgesIff` | crates/ferro-audit/src/anchor.rs:237-250 | marking leaves such an entry exactly when the receipt file was begun and the pending head not removed |
| `AnchorStuck.QuarantineWedgesIff` | crates/ferro-audit/src/anchor.rs:254-261 | quarantine leaves one exactly when the copy in dead was begun and the pending head not removed |
| `AnchorStuck.RequeuedIsWedged` | crates/ferro-audit/src/anchor.rs:174-192 | and with no fault at all a head enqueued again after its quarantine is one |
| `AnchorStuck.DrainSucceedsUnlessWedged` | crates/ferro-audit/src/anchor.rs:350-375 | after any run, a pass without faults over a queue that can be listed is Ok exactly when no entry before the first transient failure is stuck for its answer |
| `AnchorStuck.CalmQueueWorks` | crates/ferro-audit/src/anchor.rs:174-375 | in runs without faults or crashes every listing is right, and a pass fails exactly at a head quarantined before, enqueued again and refused for good again |
| `Decimal.CutText` | crates/ferro-audit/src/anchor.rs:191-225 | a decimal time cut short is refused exactly when no digit is left of it, and else parses as another time |
| `AnchorDrain.AnchorQueue.WriteNew` | crates/ferro-audit/src/anchor.rs:378-390 | create-new semantics under an open failure, a torn write or success |
| `AnchorDrain.AnchorQueue.Enqueue` | crates/ferro-audit/src/anchor.rs:174-192 | already queued or anchored answers false, else head then time |
| `AnchorDrain.AnchorQueue.MarkAnchored` | crates/ferro-audit/src/anchor.rs:237-250 | receipt first, then both removals, whose failure is ignored |
| `AnchorDrain.AnchorQueue.QuarantineEntry` | crates/ferro-audit/src/anchor.rs:254-261 | head and reason into dead first, then both removals |
| `AnchorDrain.AnchorQueue.ListPending` | crates/ferro-audit/src/anchor.rs:199-233 | lists exactly the pending sizes in ascending order with head and time, or the first error |
| `AnchorDrain.AnchorQueue.BacklogSeconds` | crates/ferro-audit/src/anchor.rs:278-284 | now minus the least enqueue time, None when nothing is pending |
| `AnchorDrain.AnchorQueue.SubmitAll` | crates/ferro-audit/src/anchor.rs:353-372 | the loop submits in order, moves what has a final answer, and stops at a transient failure or an error |
| `AnchorDrain.AnchorQueue.DrainOnce` | crates/ferro-audit/src/anchor.rs:350-375 | with removals succeeding: Ok exactly when the moves up to the first transient failure can be made, then the counts are those of the moves, what is left is the rest of the list, and the age is that of the rest |
| `Tpm.QuoteRoundTrip` | crates/ferro-attest/src/tpm.rs:180-218 | anything laid out as a TPMS_ATTEST with a quote (section 10.12 of TCG TPM 2.0 Library Part 2), of any magic and type, parses to its fields |
| `Tpm.QuoteExact` | crates/ferro-attest/src/tpm.rs:180-218 | whatever parses has that layout, byte for byte, with the fields returned: no trailing bytes |
| `Tpm.QuoteThen` | crates/ferro-attest/src/tpm.rs:180-218 | a quote with bytes after it is refused with their number |
| `Tpm.QuotePrefix` | crates/ferro-attest/src/tpm.rs:180-218 | only such inputs are refused for trailing bytes |
| `Tpm.CutQuote` | crates/ferro-attest/src/tpm.rs:180-218 | every quote cut short, at any byte, is refused as too short: the encodings are prefix-free |
| `Tpm.SizedIff` | crates/ferro-attest/src/tpm.rs:107-132 | a sized field fails exactly for want of its big-endian size, or of the bytes it declares, with both counts |
| `Tpm.CertifyParses` | crates/ferro-attest/src/tpm.rs:178-180 | an input of another attestation type that the parser accepts, against its documentation |
| `Tpm.AnyTypeParses` | crates/ferro-attest/src/tpm.rs:178-218 | so does every type and magic |
| `Tpm.GenuineQuoteIff` | crates/ferro-attest/src/verify.rs:171-179 | parse and the two checks after it pass on exactly the encodings of quotes with the TPM-generated magic and the quote type, with their fields |
| `TpmKeys.EccRoundTrip` | crates/ferro-attest/src/tpm.rs:252-310 | the same round trip for a TPMT_PUBLIC elliptic-curve area, with and without a signing scheme |
| `TpmKeys.EccExact` | crates/ferro-attest/src/tpm.rs:252-310 | whatever parses as a key is the encoding of the key returned |
| `TpmKeys.EcdsaRoundTrip` | crates/ferro-attest/src/tpm.rs:326-346 | the same round trip for an ECDSA signature |
| `TpmKeys.EcdsaExact` | crates/ferro-attest/src/tpm.rs:326-346 | whatever parses as a signature is the encoding of the signature returned |
| `TpmReader.Reader.TakeBytes` | crates/ferro-attest/src/tpm.rs:94-101 | the cursor advances over exactly the bytes returned, and not at all on error |
| `TpmReader.Reader.Tpm2b` | crates/ferro-attest/src/tpm.rs:122-132 | size-prefixed bytes; a declared size beyond the buffer is its own error |
| `TpmReader.ParseQuoteInfo` | crates/ferro-attest/src/tpm.rs:180-218 | the cursor loop computes the parse the two quote lemmas are about |
| `TpmReader.ParseEccPublic` | crates/ferro-attest/src/tpm.rs:252-310 | the cursor reader computes the parse the two key lemmas are about |
| `TpmReader.ParseEcdsaSignature` | crates/ferro-attest/src/tpm.rs:326-346 | the cursor reader computes the parse the two signature lemmas are about |
| `PcrDigest.SelectedIndices` | crates/ferro-attest/src/tpm.rs:162-174 | the nested loop lists the indices the next two rows describe |
| `PcrDigest.IndexIff` | crates/ferro-attest/src/tpm.rs:162-174 | an index is listed exactly when its bitmap bit is set and it is below 256 |
| `PcrDigest.BitIsWeight` | crates/ferro-attest/src/tpm.rs:166 | bit i of a byte is its digit of weight 2^i |
| `PcrDigest.SelectedIff` | crates/ferro-attest/src/verify.rs:234-250 | an index is hashed exactly when its bit is set in some selection of the SHA-384 bank; other banks add nothing |
| `PcrDigest.SelectedInOrder` | crates/ferro-attest/src/verify.rs:234-250 | the indices of one list of selections come before those of the next |
| `PcrDigest.IndicesAscending` | crates/ferro-attest/src/tpm.rs:162-174 | the listed indices strictly ascend |
| `PcrDigest.RecomputePcrDigest` | crates/ferro-attest/src/verify.rs:234-250 | the digest is over the values of all indices of the SHA-384 selections in order, exists exactly when all were reported, and the error names the first that was not |
| `PcrDigest.OnlySelectedMatter` | crates/ferro-attest/src/verify.rs:234-250 | values of other indices never enter the digest |
| `PcrDigest.DigestBinds` | crates/ferro-attest/src/verify.rs:234-250 | one digest for two reports means the same selected values exactly when their lengths agree, or the hashed texts are a SHA-384 collision |
| `PcrDigest.LengthsAreNotBound` | crates/ferro-attest/src/verify.rs:28-50 | two reports of different lengths with one digest: nothing fixes the lengths |
| `JsonDepth.JsonNesting` | crates/ferro-appid/src/elf.rs:231-254 | the byte loop computes the scan the next row is about |
| `JsonDepth.DepthIsNesting` | crates/ferro-appid/src/elf.rs:231-254 | for every value and every text of it, with white space, escapes and brackets inside strings, the scanned depth is the nesting of its arrays and objects |
| `JsonDepth.BoundDescriptor` | crates/ferro-appid/src/elf.rs:208-213 | cuts at the first NUL and refuses exactly when the scanned depth exceeds the bound |
| `JsonDepth.DescriptorBounded` | crates/ferro-appid/src/elf.rs:208-213 | a NUL-padded JSON value reaches the parser exactly when it nests no deeper than the bound |

## Left out

- Ed25519, ML-DSA, P-256, SHA-2 and SHA-3, base64, CBOR and JSON codecs: parameters, as above.
- `usize` and `u64` widths of leaf indices and tree sizes: unbounded here; u64, u32 and i64 arithmetic is modelled where it saturates or could overflow (rate limiter, replay expiry, windows).
- Rotation: attestation is modelled on values, one step for issuing and one for the `record` write, because its interest is the interleaving; update in place is shown for the renewal call only.
- IssuerSeed: the seed mirror file is "disk copy := seed"; its temporary file and rename are not modelled.
- HostAuth.Authenticate: starts at step 6, with the SVID, the document and its signature already verified and the binding check an input; the first five steps are verification by library code.
- RotateCall.Cmis.Rotate: an SVID the issuer mints is new; a repeated one is answered like an issuer failure.
- AnchorDrain.AnchorQueue.DrainOnce: runs to its end; a crash inside a drain is `AnchorStuck.DrainCut`.
- TpmReader.ParseQuoteInfo: allocation before the selection loop (capacity from the count field) is not modelled.
- JsonDepth.DepthIsNesting: the texts cover every legal JSON text and more (any bytes without quotes and brackets stand for a scalar); which texts the JSON library accepts afterwards is not modelled.
- `PcrSet` is a map value; its insert and get are map operations.
- The RIM lock, log lock and store locks: one operation at a time.
- Certificate revocation publishing, fleet manifests, the ceremony, permission and event names, gRPC, TLS, pinning and server plumbing: would only add easy members.
- `ferro-harden`, the machine-identity backends, and the PE, Mach-O, plist, dpkg and ELF-section readers of `ferro-appid`: operating-system behaviour or bounds checks.
