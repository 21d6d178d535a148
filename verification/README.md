# Model of the EVM transaction wallet

A Dafny model of a wallet library that hands out account nonces locally, signs and encodes
transactions, sends each to several endpoints at once, and recovers when a transaction gets stuck.
What makes that hard is that it must be right while nothing is certain: threads race on the nonce
counter, endpoints answer in any order or not at all, and bytes that were refused by one endpoint may
be alive in another. The project states what the library keeps in spite of that and proves it.

`dafny verify dfyconfig.toml` checks everything.

## How it is organised

| Files | What they model |
|---|---|
| `Nonce` | `NonceTracker` and its guards as classes, refined against an abstract allocator: a floor and the set of outstanding nonces |
| `Interleaving`, `InterleavingSafety`, `InterleavingRuns`, `InterleavingSyncs`, `InterleavingAlone`, `InterleavingLimits` | the same tracker as a machine with one step per atomic access, its invariant, what every run promises, that syncs take effect in every run, what each operation does when nothing interrupts it, and where the promises stop |
| `Ownership`, `OwnershipSafety`, `OwnershipHistory`, `OwnershipStranded` | the send paths of the wallet as a machine over tracker, ledger and endpoints, each endpoint with a hidden bit: it may hold the bytes; and when the moves of a task give its nonce back |
| `Rlp`, `Transactions`, `TransactionLayout`, `TransactionEncoding` | RLP, the three transaction types with a decoder, where each field stands in their bytes, and the hand-written encoder over a mutable buffer |
| `Fees`, `Ledger`, `Replacement` | fee bumps with saturation, the in-flight ledger against its event log, and the cancelling of a stuck nonce |
| `Collecting`, `Broadcast`, `Endpoints`, `Strategies` | fan-out with arbitrary completion order, the verdict on a failed broadcast, client sharing, and the four broadcast strategies |
| `Text`, `Redaction`, `Verdicts`, `Phrases`, `NonceParsing` | string operations, URL redaction, classification of errors, the phrases that decide it, and parsing of nonce-too-low messages |
| `GasCache` | concurrent callers of the cached gas price |
| `Wallet` | the wallet's sign and send methods and the preheated context, one call at a time |
| `Words` | 64- and 256-bit words and facts about finite sets |

## What came out

* **Reservations under concurrency.** In every interleaving no nonce is issued while outstanding, and
  whenever the gap lock is free the memory is the canonical form of the abstract allocator. Handing out
  the *least* free nonce is a sequential property only: `GapCanBePassedOver` is a run in which a stale
  read of `gap_count` skips a gap, and `IssuesLeastFreeIff` says exactly when a nonce fetched from the
  counter is the least free one, whatever the lock holder is in the middle of. The counter wraps after
  the last 64-bit nonce, and uniqueness ends there: `WrapBreaksUniqueness` and `OwnedAboveIsReissued`.
* **Syncs and rewinds.** A `sync_forward` that has returned holds in every run: until a rewind succeeds
  or the counter wraps, nothing below the chain's nonce is issued (`SyncTakesEffect`), and without
  rewinds the floor is the largest of the initial nonce and of the syncs that have stored theirs
  (`FloorIsLargestSync`). After `recover_stalled` has rewound, the chain's nonce is the next one, even if
  the counter had wrapped before (`RecoverStalled`, `RewoundNonceIsNext`).
* **Live nonces.** A nonce that some endpoint may hold is never handed out again, for any answers in any
  order, and no refused nonce leaks: a concluded broadcast may give its nonce back exactly when it went
  to some endpoint and every answer was a definitive refusal (`ReturnEnabledIff`), and any new task can
  then be handed it (`ReturnFreesNonce`). The matching claim about the ledger is false when calls interleave: `send_signed` and its
  relatives give a refused nonce back to the tracker (`src/wallet.rs:1697`) before they mark it released
  (`src/wallet.rs:1698-1699`), and another call can reserve, sign and broadcast it in between.
  `LateMarkHidesLiveNonce` is such a run. `LiveNonceIsReleasedIff` gives the exact condition, and
  `LiveNonceIsNeverReleased` the claim for runs whose marks come in time.
* **Stalled heads.** The comment at `src/wallet.rs:1944-1948` says that an unresolved lowest nonce is in
  flight and cannot be handed out by a concurrent signing. It is so exactly when the nonce is not a
  stray (`UnresolvedIsFreeIff`): one returned while its record was unresolved, or reported from outside
  while nobody owned it, and since then neither reserved, marked released, mined nor forgotten.
  `AbandonedLooksStranded` makes one: a preheated context that is dropped after signing frees its nonce
  and leaves the ledger entry unresolved, and with a higher nonce outstanding the replacement's other
  guards pass too. `UnresolvedIsOutstanding` is the comment for runs without such a drop and without
  reports, other than of mining, of nonces that their owner has not recorded; all that is left there is
  a nonce whose release is being recorded.
* **Trying by priority.** `new` keeps its list as given, and it tries the best endpoint first,
  whatever they answer, exactly when that list is sorted (`TriedInOrderIff`); the builder and
  `add_endpoint` sort it.
* **Legacy chain ids.** The signer writes the chain id into `v` in one 64-bit word. It can be read back
  exactly when that word does not wrap (`ChainIdOfVIff`), and then broadcast bytes determine it.
* **Definitive refusals.** For a single RPC error and for a broadcast aggregate, a definitive refusal
  never asks for a nonce resync. For `AllEndpointsRejectedDefinitively` it can, and `DefinitiveSyncIff`
  says when. The library itself never constructs that variant, so its send paths never see it; only
  a caller that builds it and asks the classifiers can.
* **Fee bumps.** `bump_u256` is the exact ceiling if and only if the product leaves room to round
  (`BumpIsCeilingIff`); past that it is capped, and at the top of the range it lowers the fee
  (`BumpCanLower`).

## Model

| member | source | states |
|---|---|---|
| Nonce.TopIsTight | src/nonce.rs:228-251 | the counter is minimal above the outstanding nonces exactly when it is the floor or sits right above one of them |
| Nonce.CanonicalUnique | src/nonce.rs:22-37 | equal floors and outstanding sets are stored identically, whatever the history |
| Nonce.CanonicalExists | src/nonce.rs:22-37 | every abstract allocator has a stored form, found by collapsing from above |
| Nonce.StoredNextIsLeastFree | src/nonce.rs:78-84 | the first gap, or else the counter, is the one least free nonce |
| Nonce.ReturnUndoesIssue | src/nonce.rs:99-103 | giving the least free nonce back restores the state; keeping it makes every later one larger |
| Nonce.NonceTracker.constructor | src/nonce.rs:41-49 | a fresh tracker has the given floor and nothing outstanding |
| Nonce.NonceTracker.ReserveNextNonce | src/nonce.rs:191-202 | issues the least free nonce and nothing else; says exactly when the counter wraps |
| Nonce.NonceTracker.GetAndIncrement | src/nonce.rs:57-60 | the same, counting one more pending transaction |
| Nonce.NonceTracker.Reserve | src/nonce.rs:64-68 | the same, under a fresh held guard |
| Nonce.NonceTracker.EffectiveNextNonce | src/nonce.rs:78-84 | returns the nonce the next reservation issues: the least free one, the first gap or else the counter |
| Nonce.NonceTracker.DecrementPending | src/nonce.rs:253-259 | the pending count never goes below zero |
| Nonce.NonceTracker.Release | src/nonce.rs:99-103 | returns exactly that nonce, for any number at all, and counts one fewer pending |
| Nonce.NonceTracker.RecycleNonce | src/nonce.rs:204-226 | whichever of its three branches is taken, the stored form of the allocator without that nonce results |
| Nonce.NonceTracker.CollapseTopGaps | src/nonce.rs:228-251 | restores the canonical form after the counter was lowered over one nonce |
| Nonce.NonceTracker.SyncForward | src/nonce.rs:134-153 | raises floor and counter to the chain's nonce and never lowers them, keeps what is outstanding, and reports whether the counter moved |
| Nonce.NonceTracker.RecoverStalled | src/nonce.rs:172-189 | rewinds exactly when the chain is behind; then floor and counter are the chain's nonce, it is the one least free nonce, and exactly the outstanding nonces below it stay outstanding |
| Nonce.ReservedNonce.MarkBroadcasting | src/nonce.rs:307-313 | only a held guard starts broadcasting |
| Nonce.ReservedNonce.Commit | src/nonce.rs:316-324 | only a held or broadcasting guard commits; nothing is returned |
| Nonce.ReservedNonce.Release | src/nonce.rs:330-337 | only a held guard returns its nonce; otherwise the tracker is untouched |
| Nonce.ReservedNonce.ReleaseRejectedBroadcast | src/nonce.rs:347-354 | only a broadcasting guard returns its nonce this way |
| Nonce.ReservedNonce.Drop | src/nonce.rs:357-377 | dropping returns a held nonce and leaves a broadcasting one outstanding |
| InterleavingSafety.StepKeepsInv | src/nonce.rs:134-251 | every atomic access of every operation, by any task, keeps the invariant of the shared memory; that each operation takes effect is in the rows below |
| InterleavingRuns.NeverIssuedTwice | src/nonce.rs:191-202 | in any interleaving the nonce being issued is not outstanding and no live guard has it |
| InterleavingRuns.LiveGuardsAreDistinct | src/nonce.rs:64-68 | no two live guards share a nonce, nor does a live guard share one with a settled guard |
| InterleavingRuns.FreeLockIsCanonical | src/nonce.rs:134-251 | while the gap lock is free the memory is canonical and its outstanding nonces are those of the guards |
| InterleavingRuns.PendingCountIsExact | src/nonce.rs:253-259 | `pending_count` is the number of guards held, broadcasting, or dropped while broadcasting |
| InterleavingRuns.SettledNonceNeverReissued | src/nonce.rs:316-377 | a committed nonce, or one dropped while broadcasting, is never issued again by any continuation |
| InterleavingRuns.GuardSettlesOnce | src/nonce.rs:291-377 | each guard reaches `confirm` or `release` at most once in its life |
| InterleavingRuns.GuardReturns | src/nonce.rs:330-377 | a guard released, or dropped before its broadcast, comes to rest only once its nonce is back |
| InterleavingRuns.GuardKeeps | src/nonce.rs:316-377 | a guard committed, or dropped while broadcasting, keeps its nonce until a rewind succeeds |
| InterleavingRuns.NoDeadlock | src/nonce.rs:134-251 | while a task has an access to make, some task can make one |
| InterleavingSyncs.SyncTakesEffect | src/nonce.rs:134-153 | in any interleaving, once a sync has returned and until a rewind succeeds or the counter wraps, floor and counter are at or above its nonce and nothing below it is issued |
| InterleavingSyncs.FloorIsLargestSync | src/nonce.rs:139-139 | without a rewind the floor is the largest of the initial nonce and the nonces of exactly those syncs that have stored theirs, among them all that returned |
| InterleavingAlone.ReserveTakesLeastFree | src/nonce.rs:191-202 | a reservation that nothing interrupts, between any other operations, issues the least free nonce and leaves the floor alone |
| InterleavingAlone.SyncAlone | src/nonce.rs:134-153 | a sync that nothing interrupts drops the gaps below the chain's nonce and raises floor and counter to it |
| InterleavingAlone.RewindAlone | src/nonce.rs:172-189 | a rewind that nothing interrupts changes nothing unless the chain is behind, and then starts over at its nonce |
| InterleavingAlone.RewoundNonceIsNext | src/nonce.rs:172-189 | after such a rewind the next reservation gets the chain's nonce, and only nonces below it stay outstanding |
| InterleavingLimits.IssuesLeastFreeIff | src/nonce.rs:191-202 | a popped gap is the least free nonce; a fetched counter is exactly when it is not below the floor and no free nonce waits below it, whoever holds the lock |
| InterleavingLimits.FetchIsLeastFreeIff | src/nonce.rs:191-202 | the same for each point at which the lock holder can be: release, collapse with its nonce in limbo, sync and rewind |
| InterleavingLimits.GapCanBePassedOver | src/nonce.rs:193-201 | a reachable step that issues a nonce above a free one |
| InterleavingLimits.WrapBreaksUniqueness | src/nonce.rs:201-201 | a reachable step that issues an outstanding nonce, after the counter has wrapped |
| InterleavingLimits.OwnedAboveIsReissued | src/nonce.rs:201-201 | outstanding nonces at or above the counter occur only after a wrap, and from an idle state without gaps each of them can be issued again |
| OwnershipSafety.SettlingIsRight | src/rpc/batch.rs:156-194 | when all endpoints have answered definitively none is left that may hold the bytes |
| OwnershipSafety.StepKeepsInv | src/wallet.rs:1555-1747 | every step of every send path keeps: live nonces are outstanding, with one owner each; that refused nonces come back is in `OwnershipHistory` |
| OwnershipSafety.LiveNonceNeverReissued | src/wallet.rs:1687-1720 | in every run no reservation returns a nonce that some endpoint may hold |
| OwnershipSafety.LiveNonceStaysOwned | src/wallet.rs:1659-1671 | once live, a nonce stays outstanding under the same owner for the rest of the run |
| OwnershipSafety.LiveNonceIsReleasedIff | src/wallet.rs:1696-1700 | the ledger calls a live nonce released exactly when its mark came after it was reserved again |
| OwnershipSafety.LiveNonceIsNeverReleased | src/wallet.rs:1696-1700 | when every mark precedes the next reservation of its nonce, the ledger never calls a live nonce released |
| OwnershipSafety.LateMarkHidesLiveNonce | src/wallet.rs:1696-1700 | a run in which it does |
| OwnershipHistory.ReturnEnabledIff | src/wallet.rs:1687-1720 | in every run a task may return its nonce exactly when its last move was a failed signing, an abandoned context, or the conclusion of a broadcast to at least one endpoint that all refused definitively |
| OwnershipHistory.ConcludedHeardAll | src/rpc/batch.rs:156-194 | a broadcast is concluded only once every endpoint it went to has answered |
| OwnershipHistory.ConfirmEnabledIff | src/wallet.rs:1690-1694 | a task may confirm its nonce exactly when its last move was an acceptance |
| OwnershipHistory.ReturnFreesNonce | src/wallet.rs:1696-1700 | the return frees just the nonce reserved, any new task can be handed it, and the task goes on to mark it released unless nothing was to be marked |
| OwnershipHistory.MovesAreRecorded | src/wallet.rs:1555-1577 | signing starts a record only where there is none or a released one, an acceptance is recorded, and no other move touches the ledger |
| OwnershipStranded.UnresolvedIsFreeIff | src/wallet.rs:1944-1954 | in every run a nonce is unresolved and free exactly when it is a stray, by what happened to it |
| OwnershipStranded.UnresolvedIsOutstanding | src/wallet.rs:1944-1954 | in runs that make no stray on purpose, an unresolved nonce is outstanding unless its mark is on its way |
| OwnershipStranded.AbandonedLooksStranded | src/wallet.rs:982-984 | a run after which the next reservation returns an unresolved nonce that the counter is past |
| Rlp.BigEndianRoundTrip | src/transaction.rs:189-204 | the shortest big-endian form of an integer determines it and has no leading zero |
| Rlp.ValueRoundTrip | src/transaction.rs:500-507 | a string without leading zero is the shortest form of its value |
| Rlp.WidthIff | src/transaction.rs:207-217 | an integer takes at most k bytes exactly when it is below 256 to the k |
| Rlp.BigEndianDigits | src/transaction.rs:189-204 | every byte of an integer is its digit to base 256, the most significant first |
| Rlp.StringLayout | src/transaction.rs:63-89 | a string is itself if it is one byte below 128, and otherwise follows its length, in one byte or in the long form from 56 bytes on |
| Rlp.ListLayout | src/transaction.rs:63-89 | a list is the length of its payload, in the same two forms, and its payload |
| Rlp.DecodeInverts | src/transaction.rs:63-89 | decoding an encoded item gives the item and what followed it, at any nesting |
| Rlp.DecodeAllInverts | src/transaction.rs:470-481 | decoding the payload of a list gives its items |
| Rlp.EncodeInverts | src/transaction.rs:63-89 | only the encoding of an item decodes to it |
| Rlp.EncodeIsInjective | src/transaction.rs:63-89 | items with the same encoding are equal |
| Rlp.EncodeAllSnoc | src/transaction.rs:470-481 | writing one more item appends its encoding and adds its size |
| Transactions.ScalarIsMinimal | src/transaction.rs:500-507 | a canonical signature scalar is the shortest form of the 32-byte number |
| Transactions.ScalarInverts | src/transaction.rs:500-507 | padding a canonical scalar restores the 32 bytes |
| Transactions.AccessItemsInvert | src/transaction.rs:470-481 | access lists of any size and nesting are decoded exactly |
| Transactions.FirstByteTellsType | src/transaction.rs:317-320 | the first broadcast byte tells the three types apart |
| Transactions.DecodeSignedInverts | src/transaction.rs:220-241 | decoding the broadcast bytes gives the signature and every field that is in them, for all three types; which field stands where is in `TransactionLayout` |
| Transactions.ChainIdOfVIff | src/signer.rs:157-162 | the chain id can be read back from `v` exactly when the word did not wrap |
| Transactions.DecodeWithChainIdInverts | src/signer.rs:157-162 | with the chain id read from `v`, decoding gives every field of all three types |
| Transactions.SignerBytesAreInjective | src/transaction.rs:530-536 | equal bytes from the signer come from the same transaction, chain id included |
| Transactions.SignedBytesAreInjective | src/transaction.rs:530-536 | equal broadcast bytes, whoever signed, come from the same signature and the same transaction up to a legacy chain id |
| Transactions.SignedBytesInvert | src/transaction.rs:530-536 | bytes decode only if they are the broadcast form of what they decode to |
| Transactions.SigningBytesAreInjective | src/transaction.rs:511-517 | equal signing bytes come from the same transaction, its chain id included |
| TransactionLayout.Eip1559Signed | src/transaction.rs:285-343 | type byte 2 and a list of twelve: chain id, nonce, tip, max fee, gas limit, recipient, value, data, access list, v, r, s |
| TransactionLayout.Eip1559ToSign | src/transaction.rs:285-302 | type byte 2 and a list of the first nine of these |
| TransactionLayout.Eip2930Signed | src/transaction.rs:382-437 | type byte 1 and a list of eleven: chain id, nonce, gas price, gas limit, recipient, value, data, access list, v, r, s |
| TransactionLayout.Eip2930ToSign | src/transaction.rs:382-398 | type byte 1 and a list of the first eight of these |
| TransactionLayout.LegacySigned | src/transaction.rs:220-241 | a list of nine: nonce, gas price, gas limit, recipient, value, data, v, r, s |
| TransactionLayout.LegacyToSign | src/transaction.rs:187-205 | a list of nine: the same six fields, chain id, zero, zero |
| TransactionLayout.AccessIsHeld | src/transaction.rs:470-481 | an access list is a list of pairs, each an address and the list of its keys, in order |
| TransactionEncoding.UintLengthIsSize | src/transaction.rs:207-217 | the computed length of an integer is the number of bytes written |
| TransactionEncoding.ItemLengthIsSize | src/transaction.rs:91-97 | the computed lengths of an access-list item, payload and whole, are the numbers of bytes written |
| TransactionEncoding.ItemsLengthIsSize | src/transaction.rs:484-487 | the computed length of an access list is the number of bytes written |
| TransactionEncoding.CommonLengthIsSize | src/transaction.rs:304-314 | the computed lengths of the shared fields add up to the bytes written, for all three types |
| TransactionEncoding.SigningLengthIsSize | src/transaction.rs:207-217 | the header of a signing list announces exactly its payload |
| TransactionEncoding.SignedLengthIsSize | src/transaction.rs:345-350 | the header of a signed list announces exactly its payload |
| TransactionEncoding.SignedLengthIsExact | src/transaction.rs:243-253 | the number of broadcast bytes is known before any is written |
| TransactionEncoding.CanonicalScalarBytes | src/transaction.rs:500-507 | the scan finds the scalar without its leading zeros |
| TransactionEncoding.Buffer.PutTo | src/transaction.rs:449-457 | an absent recipient is written as the empty string |
| TransactionEncoding.Buffer.PutAccessItem | src/transaction.rs:63-89 | both headers of an item announce what is then written |
| TransactionEncoding.Buffer.PutAccessList | src/transaction.rs:470-481 | the header of an access list announces what is then written |
| TransactionEncoding.Buffer.PutLegacyFields | src/transaction.rs:187-200 | writes exactly the planned fields of a legacy transaction, in order |
| TransactionEncoding.Buffer.PutEip2930Fields | src/transaction.rs:382-398 | writes exactly the planned fields of an access-list transaction, in order |
| TransactionEncoding.Buffer.PutEip1559Fields | src/transaction.rs:285-302 | writes exactly the planned fields of a dynamic-fee transaction, in order |
| TransactionEncoding.Buffer.EncodeForSigning | src/transaction.rs:162-170 | yields the signing bytes whatever the reused buffer held |
| TransactionEncoding.EncodeSigned | src/transaction.rs:317-343 | yields the broadcast bytes of all three types, whose layout is that of `TransactionLayout` |
| Fees.BumpIsCeilingIff | src/transaction.rs:29-36 | the bump is the least fee at least `bps` above, exactly when the product leaves room to round |
| Fees.BumpInFigures | src/transaction.rs:29-36 | in figures: a ceiling division by ten thousand while the product fits, and else the cap |
| Fees.BumpIsMonotone | src/transaction.rs:29-36 | a larger fee or bump never bumps to less, saturated or not |
| Fees.BumpRaisesIff | src/transaction.rs:29-36 | a non-zero bump raises a non-zero fee exactly below the cap |
| Fees.BumpCanLower | src/transaction.rs:29-36 | a fee that a bump lowers |
| Fees.BumpedReplaces | src/transaction.rs:574-584 | exactly dynamic-fee transactions are bumped; the result differs in its two fees only, keeps their order, and raises each to the least fee that outbids it, or to the cap where the product does not fit |
| Fees.CancelOutbids | src/wallet.rs:499-511 | a cancel outbids network and stranded transaction in both fees, with the least fees that do |
| Fees.CancelIsMonotone | src/wallet.rs:499-511 | dearer bases never give a cheaper cancel, and the max fee covers the tip |
| Ledger.LastRestartIs | src/inflight.rs:147-161 | the current attempt started at creation or at the last signature that followed a release |
| Ledger.ReleasedIff | src/inflight.rs:187-204 | a nonce is released exactly when the last thing that happened to it was its release |
| Ledger.UnresolvedIff | src/inflight.rs:231-246 | a nonce is resolved exactly when it was released last, or mined and only signed since |
| Ledger.FeesAreLargest | src/inflight.rs:134-168 | a record holds the largest max fee and the largest tip ever signed at its nonce |
| Ledger.AttemptIs | src/inflight.rs:147-161 | a record's age and acceptances are those since creation or the last signature after a release |
| Ledger.HashesAre | src/inflight.rs:134-168 | a record holds every hash signed or reported at its nonce, and the reason of a last release |
| Ledger.ResignDescribes | src/inflight.rs:134-168 | a signature keeps the record in step with its events: maxima of all fees, restart only from released |
| Ledger.UpdateDescribes | src/inflight.rs:248-273 | an update keeps the record in step, counting acceptances of the current attempt |
| Ledger.MarkDescribes | src/inflight.rs:187-221 | a release or a commit keeps the record in step, touching only status and reason |
| Ledger.InflightNonceLedger.PruneOldRecords | src/inflight.rs:290-297 | what is left is the highest 256 nonces, unchanged |
| Ledger.InflightNonceLedger.RecordSigned | src/inflight.rs:134-168 | the records agree with the extended log, up to eviction of the lowest |
| Ledger.InflightNonceLedger.Update | src/inflight.rs:248-273 | the same for an update |
| Ledger.InflightNonceLedger.MarkReleased | src/inflight.rs:187-204 | the same for a release, without eviction |
| Ledger.InflightNonceLedger.MarkCommitted | src/inflight.rs:206-221 | the same for a commit, without eviction |
| Ledger.InflightNonceLedger.PruneConsumed | src/inflight.rs:227-229 | exactly the nonces below the chain's are forgotten |
| Ledger.InflightNonceLedger.LowestUnresolvedAtOrAbove | src/inflight.rs:231-238 | the least nonce whose log leaves it unresolved, with its age, or none |
| Ledger.InflightNonceLedger.UnresolvedCount | src/inflight.rs:240-246 | counts the tracked nonces whose log leaves them unresolved |
| Ledger.TrimmedIsUnique | src/inflight.rs:290-297 | the limit and evicting the lowest determine what is kept |
| Ledger.LowNewcomerIsEvicted | src/inflight.rs:290-297 | a full ledger drops a newly recorded nonce that is lower than all it holds |
| Ledger.SurvivorGrows | src/inflight.rs:134-168 | a nonce that outlives the evictions after an operation on it has exactly that step more in its life |
| Ledger.EvictedAgain | src/inflight.rs:248-273 | a nonce that one operation could not keep in a full ledger is not kept by the next |
| Replacement.HeadIsCandidateIff | src/wallet.rs:1949-1954 | the head is the candidate exactly when its own log leaves it unresolved |
| Replacement.StallReplacer.ReplaceStalledNonce | src/wallet.rs:1915-2037 | a cancel is recorded exactly when the chain stands at the head, the head is unresolved, 30 seconds old and below the counter, no cancel of it is younger than 3 seconds, prices are known, and an endpoint accepts it; otherwise the fee basis is unchanged; without saturation the recorded fees are those of a cancel over all that was signed there |
| Replacement.StallReplacer.FindStranded | src/wallet.rs:1949-1963 | finds the record of a head that is unresolved and old enough, and refuses any other |
| Replacement.StallReplacer.PrepareCancel | src/wallet.rs:1920-2002 | a cancel is prepared exactly when every guard admits it, with the fees of a cancel over the nonce's record |
| Replacement.StallReplacer.RecordCancel | src/wallet.rs:2013-2020 | whatever the ledger has become meanwhile, a nonce that is still tracked has exactly the cancel and its acceptance more in its life |
| Replacement.CallRecordsCancel | src/wallet.rs:1982-2018 | what an accepted call records is a cancel over the record of its nonce |
| Replacement.CancelOutbidsAll | src/wallet.rs:1982-1989 | a cancel outbids every fee its nonce was ever signed with by the larger of the bump asked for and 1250 basis points |
| Replacement.CancelOutbidsBoth | src/wallet.rs:1982-1989 | in figures, for both fees at once |
| Replacement.ChainGrows | src/wallet.rs:1982-1989 | fees each of which outbids the one before it multiply by the product of the bumps |
| Replacement.CancelsEscalate | src/wallet.rs:1982-2020 | the cancels in one life multiply both fees by the product of their bumps, whatever happens in between |
| Replacement.CallsEscalate | src/wallet.rs:1915-2037 | successive accepted calls multiply both fees by the product of their bumps, with any other ledger traffic between them and within them |
| Replacement.CallsMultiply | src/wallet.rs:1982-2020 | so k accepted calls multiply both fees by at least 1.125 to the k, in figures: 11250 to the k over 10000 to the k |
| Replacement.CancelsOccur | src/wallet.rs:1982-2020 | a concrete life with a cancel, so the claims about cancels are about something |
| Collecting.CollectBroadcast | src/rpc/batch.rs:149-195 | succeeds exactly when an endpoint accepts; a failure holds one verdict per endpoint |
| Collecting.FailureCoversAll | src/rpc/batch.rs:185-194 | the verdicts of a failure are those of the endpoints, no more and no fewer |
| Broadcast.BroadcastTransaction | src/rpc/batch.rs:100-147 | the error is definitive exactly when there are endpoints and each refuses definitively |
| Broadcast.RefusedDefinitivelyIff | src/error/broadcast.rs:25-42 | an endpoint refused definitively exactly when its error is no transport failure and its redacted text is definitive |
| Broadcast.FailureIsDefinitiveIff | src/wallet.rs:407-418 | one ambiguous endpoint anywhere makes the aggregate ambiguous |
| Broadcast.NoEndpointsIsAmbiguous | src/rpc/batch.rs:105-107 | the error of an empty fleet is not definitive |
| Endpoints.FirstUsesAreDistinct | src/rpc/batch.rs:31-57 | each request target is kept once and none is lost |
| Endpoints.FirstUsesAreInOrder | src/rpc/batch.rs:31-57 | the targets come in the order of their first uses |
| Endpoints.SharingPrimary | src/rpc/batch.rs:31-57 | one client per target in first-named order; fails exactly when a needed client cannot be made |
| Strategies.BroadcastRace | src/broadcast.rs:545-600 | a hash exactly when some endpoint accepts; otherwise every error is reported |
| Strategies.BroadcastToAll | src/broadcast.rs:603-642 | the hash of the first acceptor in order, and complete counts |
| Strategies.BroadcastPriority | src/broadcast.rs:645-672 | contacts exactly the prefix of the list that ends at the first acceptor |
| Strategies.TriedInOrderIff | src/broadcast.rs:292-318 | a list is tried best first, whatever is answered, exactly when it is sorted |
| Strategies.TransactionBroadcaster.Build | src/broadcast.rs:967-973 | the builder's list is sorted |
| Strategies.TransactionBroadcaster.AddEndpoint | src/broadcast.rs:334-338 | adding an endpoint sorts the list |
| Strategies.TransactionBroadcaster.SendByPriority | src/broadcast.rs:645-672 | over a sorted list, everything better than the last endpoint contacted was contacted and refused |
| Strategies.BroadcastPrivateFirst | src/broadcast.rs:675-716 | contacts a public endpoint only if no private one accepts; then only public errors are reported |
| Strategies.BroadcastToSubset | src/broadcast.rs:719-774 | a hash exactly when some endpoint of the subset accepts |
| Strategies.Broadcast | src/broadcast.rs:535-542 | whether a hash comes back depends on the answers, not on the strategy or the completion order; the strategy decides who is contacted and what is reported |
| Strategies.ErrorsAre | src/broadcast.rs:603-642 | errors and acceptances are counted endpoint by endpoint, in list order |
| Strategies.SortIsStable | src/broadcast.rs:967-973 | endpoints are sorted by priority, those of one priority in the order they were added |
| Redaction.HostIsPlain | src/rpc.rs:133-141 | a host contains none of the delimiters of a URL's path, query, fragment or user part |
| Redaction.HostOfUrl | src/rpc.rs:133-141 | the host of a well-formed URL is its host, without credentials and path |
| Redaction.HostOfPlainUrl | src/rpc.rs:133-141 | the same for a URL without credentials |
| Redaction.HostOfBareAddress | src/rpc.rs:133-141 | and for one without a scheme |
| Redaction.RedactUrls | src/rpc.rs:147-172 | the loop terminates with the redaction of the whole message |
| Redaction.RedactedHasNoScheme | src/rpc.rs:147-172 | the result contains none of the four schemes in any case, across splices too |
| Redaction.SchemelessIsKept | src/rpc.rs:147-172 | text without a scheme passes unchanged |
| Redaction.RedactIsIdempotent | src/rpc.rs:147-172 | redacting twice is redacting once |
| Redaction.NoUrlIsLeft | src/rpc.rs:147-172 | the four schemes by name: none is left, and text without them is untouched |
| Redaction.FirstUrlShrinks | src/rpc.rs:147-172 | the text before the first URL is kept, the URL becomes its host, and the rest is redacted in turn |
| Verdicts.VerdictHidesUrls | src/error/broadcast.rs:25-42 | no verdict text carries a URL scheme |
| Verdicts.JoinedTextSays | src/error/broadcast.rs:129-139 | the joined text says a phrase exactly when one rejection does: nothing matches across the join |
| Verdicts.AggregateSyncIff | src/error/broadcast.rs:127-149 | pending exactly when a rejection says too low, latest exactly when none does and one says too high |
| Verdicts.AggregateIgnoresOrder | src/error/broadcast.rs:127-149 | the order of the verdicts changes neither the resync nor the definitiveness |
| Verdicts.DefinitiveSyncIff | src/wallet.rs:407-461 | a definitive error asks for a resync only as the one unconditional variant, with a drift text; which texts are definitive is in `Phrases` |
| Verdicts.DefinitiveYetSynced | src/wallet.rs:409-411 | an error that is both |
| Phrases.RpcErrorDefinitiveIff | src/wallet.rs:427-461 | an RPC error is definitive exactly when its text holds none of the thirteen ambiguous phrases and one of the nine definitive ones, or passes the pre-check, all phrases spelled out |
| Phrases.DefinitiveByKind | src/wallet.rs:408-427 | five kinds of error are never definitive, three always, and the others go by their text like an RPC error |
| Phrases.AggregateDefinitiveByTexts | src/wallet.rs:412-419 | a failed broadcast is definitive exactly when it has verdicts and each is a rejection whose text is definitive |
| Phrases.ClassOfIff | src/error/broadcast.rs:25-104 | an endpoint's failure is one of transport exactly for a network error, a timeout, or a forwarder's text that no node phrase outranks, all phrases spelled out |
| Phrases.VerdictDefinitiveIff | src/error/broadcast.rs:25-42 | a verdict is definitive exactly when its error is no transport failure and its redacted text is definitive |
| Phrases.SingleSyncIff | src/error/broadcast.rs:127-149 | a single error asks for the pending nonce when it says too low, else for the latest when it says too high |
| Phrases.RpcSyncIff | src/error/broadcast.rs:127-149 | for an RPC error that goes by its own text |
| NonceParsing.ArbitrumRoundTrip | src/error.rs:16-38 | parsing inverts the Arbitrum printer under any wrapper; states beyond 64 bits give none |
| NonceParsing.GethRoundTrip | src/error.rs:16-46 | parsing inverts the geth printer under any wrapper; numbers beyond 64 bits give none |
| NonceParsing.MarkerIsLast | src/error.rs:22-26 | the last marker is the printer's own, whatever the wrapper says |
| NonceParsing.ParsedMeans | src/error.rs:16-53 | a nonce is read only from what follows the last marker, only in one of the two forms, and is the printed number |
| GasCache.OneFetchAtATime | src/wallet.rs:1254-1271 | at most one fetch of this path is in flight, by the holder of the lock |
| GasCache.MissIff | src/wallet.rs:1311-1323 | a read misses exactly when every write is at least a lifetime old |
| GasCache.FetchStartsIff | src/wallet.rs:1258-1263 | a fetch starts exactly when no write is younger than the lifetime |
| GasCache.ServedIsFresh | src/wallet.rs:1311-1323 | a cached price served is the latest written and younger than the lifetime |
| GasCache.FetchesAreSpaced | src/wallet.rs:1243-1272 | k successful fetches span at least k - 1 lifetimes |
| GasCache.LifetimeIs | src/wallet.rs:141-145 | the lifetime is the duration set, else the refresh interval, else 500 ms, and never past the age limit |
| GasCache.FetchEnds | src/wallet.rs:1264-1271 | a failed fetch frees the lock and changes nothing; a price is served, and cached for just a lifetime from now |
| GasCache.FetchedIsServed | src/wallet.rs:1264-1271 | a caller that fetched a price is served that price and no other |
| GasCache.HolderCanMove | src/wallet.rs:1254-1271 | the holder of the lock can always go on |
| Wallet.PreheatedContext.MarkUsed | src/wallet.rs:232-236 | true for the first caller only |
| Wallet.PreheatedContext.ReleaseReservation | src/wallet.rs:267-274 | gives a held nonce back, and uses the context up |
| Wallet.PreheatedContext.CommitReservation | src/wallet.rs:259-265 | spends the guard without returning anything |
| Wallet.PreheatedContext.ReleaseRejectedBroadcast | src/wallet.rs:276-283 | gives a broadcasting nonce back |
| Wallet.AggregateResyncs | src/wallet.rs:1648-1657 | a too-low rejection resyncs to the pending nonce, else a too-high one to the latest, else nothing moves |
| Wallet.FastWallet.Sign | src/wallet.rs:1366-1378 | signs with the least free nonce; a failed signing leaves the allocator as it was |
| Wallet.FastWallet.RecordSignedOrRelease | src/wallet.rs:1555-1577 | either the signature is recorded or the nonce is back |
| Wallet.FastWallet.SyncNonce | src/wallet.rs:1195-1200 | raises the floor and forgets consumed nonces |
| Wallet.FastWallet.RecoverNonceError | src/wallet.rs:1648-1657 | moves the floor only as the error asks and the chain reports |
| Wallet.FastWallet.SendSigned | src/wallet.rs:1687-1720 | the nonce is given back exactly when the refusal is definitive, by the phrases of `RpcErrorDefinitiveIff`; otherwise its record is not a released one, and an acceptance is recorded |
| Wallet.FastWallet.SendSignedTo | src/wallet.rs:1687-1720 | the same, from the endpoints' own answers: one that accepts or might have keeps the nonce |
| Wallet.FastWallet.SignBatch | src/wallet.rs:2328-2330 | each request gets its own signature, with strictly increasing nonces, least free first, whatever signings fail in between |
| Wallet.FastWallet.SignWithPreheat | src/wallet.rs:1442-1498 | a context signs at most once, with at most one nonce ever bound to it |
| Wallet.FastWallet.SendWithPreheat | src/wallet.rs:2046-2066 | the nonce settles as in a plain send; kept nonces stay under a guard that returns nothing when dropped |

## Left out

- HTTP, TLS, JSON, connection warm-up, telemetry and logging: answers of endpoints, chain and clock are inputs.
- ECDSA, Keccak and key handling: signatures and hashes are opaque values, and distinct ones are not assumed to differ.
- `alloy-rlp` primitives: modelled from Appendix B of the Ethereum Yellow Paper, since their source is not part of this model.
- Weak memory: the atomics are sequentially consistent, so the interleavings are all there is to concurrency.
- Unicode lowercasing: `is_definitive_precheck_rejection` lowercases Unicode and the model lowercases ASCII; the phrases searched for are ASCII.
- Wrap-around of `pending_count` in the interleaved tracker, and overflow of the 32-bit acceptance counter: both are unbounded numbers there.
- Failure branches of the compare-and-exchange loops appear in `Interleaving` only; the classes of `Nonce` run one call at a time.
- The JSON text of `BroadcastFailed` is an opaque string; `BroadcastFailure::from_error_text` is not modelled.
- `NonceManager`, `reset_pending`, `set` and `wait_for_sync`: wrappers that add nothing to the tracker.
- `release_nonce`, `sign_with_nonce`, `sign_alternatives` and `verify_broadcast` are outside the runs of `Ownership`: they let a caller broadcast at, or return, a nonce the wallet believes is in use.
- Cancels of `replace_stalled_nonce` are outside the runs of `Ownership`, which follow the first broadcast of each nonce; `OwnershipStranded` states what such a cancel can rely on.
- `recover_stalled` is outside the runs of `Ownership`; in `Interleaving` it runs under the premise the source puts on its caller, that no guard or transaction is live at or above the chain's nonce.
- Calls of the sending methods of `Wallet` run one at a time. So do the two halves of `replace_stalled_nonce`: `PrepareCancel` reads ledger and tracker as of one moment, and nothing is assumed of what happens to the ledger between it and `RecordCancel`.
- Expiry of an evicted or pruned record: fee maxima and attempt starts speak of a nonce since its record was last removed.
- `refresh_gas_prices` appears in `GasCache` as writes at any time; its own requests are not counted among the fetches.
- The request a cancel is built from, a transfer of nothing to oneself with 21000 gas: only its nonce and fees are followed.
- `nonce_stalled`, `nonce_health_check`, request builders, RPC presets and configuration: branches without state.
- Wallet.FastWallet.SignWithPreheat: does not model how the context's preheated fees and the default gas limit fill in a request, which decides nothing about nonces.
- Wallet.FastWallet.SendSigned: does not model the semaphore wait, whose timeout is one of the errors it can be given.
- Redaction.RedactUrls: characters are Unicode scalar values rather than UTF-8 bytes, so slicing at a byte offset cannot fail.
