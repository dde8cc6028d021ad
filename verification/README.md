# Verified model of the deshredder

A Solana leader cuts each block into shreds: data shreds in FEC sets of 32, each set protected by 32 Reed-Solomon code
shreds, all 64 tied together by a Merkle root the leader signs. The program takes lossy, reordered, duplicated and
partly corrupted datagrams and hands back the leader's runs of entry bytes. This project models its core and proves
what the program is for, over whole runs:

* **Exact emission.** After every shred, the segments handed out by a slot are exactly the complete runs of the data
  shreds available so far, cut at `DATA_COMPLETE`, each once, each with its payloads in order (`SlotState.Insert`).
  The bit sets, the map of sets, early recovery and eager freeing are an optimisation of that one sentence. One
  datagram's segments come out in one fixed order (`InOrder`, `OrderUnique`), so the datagrams decide the whole output
  of a run, order included (`Replay`, `TurnsDecide`).
* **Bytes.** Which datagrams are legal shreds is stated on their bytes and numbers, both ways (`ParseDataIff`,
  `ParseCodeIff`), and so is what is hashed (`Hashing`). What a leader writes comes back field by field
  (`DataRoundTrip`), and a byte string cut over data shreds comes back as exactly that byte string (`BlockSegment`,
  `BlockComesBack`).
* **Delivery under corruption.** Call a run trusted if the first shred of each set with a valid proof is genuine and
  no shred forges the leader's tree. In every trusted run, corrupted shreds included, a data index is available
  exactly when its genuine shred was fed or 32 genuine shreds of its set were (`ThirtyTwoSuffice`). Order and
  repetition do not matter (`OrderIndependence`), recovering eagerly never hands out less than waiting
  (`EagerDominates`), and half of each set is enough for exactly the leader's segments (`HalfIsEnough`,
  `DeshredderCompleteness`).
* **Delivery in any run.** Whatever the shreds and whatever the erasure code, unless a recovery stopped half-way,
  every data shred that goes with the first root of its set is available (`MatchingIsAvailable`), and recovering makes
  every index available that waiting does (`EagerKeepsIndexes`).
* **Fidelity.** Whatever arrives, if no set took its root from a corrupted shred, every segment is the leader's byte
  for byte, or one of the shreds fed carries a hash collision with the leader's own Merkle tree (`EndToEndFidelity`,
  `DeshredderFidelity`).
* **Merkle trees.** Completeness for every number of leaves; binding for proofs of any length.
* **Scanning.** Re-scanning an entry finds the same transactions and tiles its slice; an encoded transaction comes
  back if and only if the scanner can tell its first byte from a version; what is found in the front of a segment is
  what is found in the whole (`SegmentFront`); the claimed counts cannot make a scan do more work than its bytes pay
  for.
* **The window.** The high-water mark is the largest slot handed out, live slots stay within the lookback, and nothing
  is handed out twice: exactly when that holds is `NeverRepeatsIff`.
* **Accounting.** After a run of the decoding path, every packet is in exactly one counter and every batch was output,
  a marker or undecodable (`Drive`).
* **The two threads.** In every interleaving the packets pushed, followed by those in the channel, are the packets
  received, in order, minus exactly those counted as dropped; a requested shutdown ends and leaves nothing behind.

## How the model is built

Modules follow the program's files. `Wire` holds bytes and little-endian numbers; `Merkle` and `Shreds` are
`merkle.rs` and `shred.rs`, and `WireFormat` and `Hashing` say in offsets, literal numbers and text which bytes those
accept, return and hash; `Fec` is `fec.rs`; `Segments` is the simple specification of a slot, `SlotSpec` one slot as
values and `SlotAssembly` the class of `slot.rs`; `Leader` says what an honest leader makes, `Fidelity` and `Delivery`
hold the theorems over whole runs of one slot, `Stranding` those about failing recoveries, `Example` builds an honest
slot for any hash, `HalfWay` a run that goes wrong, and `Blocks` follows a byte string from the leader's packets to
the segment; `View` specifies the scan of `view.rs`, `Scanner` holds its cursor and iterators, `Rescan`, `Prefixes`,
`Layout` and `Refusals` their theorems; `Window` is the slot window as values, `Deshredding` the class of
`deshredder.rs`, `Repetition` and `Guarantees` the theorems about it, `Tables` which answer is given when and what the
counters count, `Datagrams` two concrete packets; `Pipeline` is the step system of `pipeline.rs`; `Counters` is
`stats.rs`.

What the program updates in place is a class (`FecSet`, `SlotState`, `Deshredder`, `Cursor`, `TxIter`, `EntryIter`),
and each method is proved against a specification on values (`FecInsert`, `FecRecover`, `SlotInsert`, `Push`,
`Transaction`, `Entry`). The theorems are about those specifications, so they hold of the classes.

* The hash function is a parameter `h`. A hash into 20 bytes always has collisions, so a theorem that only says "or
  some collision exists" would say nothing. Collisions are stated between two finite sets: what was hashed to check a
  given proof, and what was hashed to build the leader's tree (`Collide`, `Forged`).
* The erasure code is a parameter `rs` that keeps the number and the lengths of the shards. Where a theorem needs
  more, `Leader.Codeword` states the contract of the library: any 32 of the 64 shards of a codeword give back its data
  shards.
* A recovery that fails may have filled some slots already, and those are not marked as received. The specification
  does the same: `taken` is what is marked, and stored shreds may be more.
* `slot + slot_lookback` and `4 * slot_lookback` wrap around at 64 bits (`Wrap`), as in a build without overflow
  checks; a build with them stops there instead.
* A code shred's FEC set index is checked for alignment only, while the slot indexes a bit set of 32768 with it. That
  it is in range is a precondition (`InRange`, `PacketOk`); for data shreds it is proved (`ParseOk`), and which
  datagrams the precondition shuts out is `OutOfRangeIff`.

## What the proofs brought to light

* A recovery that fails half-way leaves slots filled whose indexes are not received. Such an index is stranded: its
  own shred is refused as a duplicate (`DuplicateIff`), it stays stranded whatever arrives, and no segment that covers
  it is ever handed out (`StrandedForGood`). "Stored implies received" holds in a run if and only if no recovery
  stopped half-way (`NothingStrandedIff`), which a failure counter of zero guarantees (`NoFailureIsUnbroken`). A
  leader whose shreds are no codeword can cause it, and then recovering eagerly hands out less than waiting:
  `EagerCanLose` gives the run of 64 shreds.
* A legacy or v0 transaction with 128 signatures or more is never found as one, because its first byte reads as a
  version byte; with 129 it is taken for v1 (`ManySignatures`). The stated layout does not have this limit: it is the
  scanner's (`Scannable`), and exactly the encodings within it come back (`RoundTripIff`).
* The error for a proof size that does not fit can never occur: every proof size a variant byte can name leaves room
  (`EveryProofSizeFits`).
* The offset of the signatures is kept in 16 bits. It is right exactly when the signatures start below 65536
  (`SignatureOffset`). A v1 transaction with two instructions of 65535 bytes is scanned whole, and what is read as its
  signature is not it (`FarSignatureMissed`).
* The capacity trim drops the newest slots and forgets them, so one would expect it to cause repetitions. It only
  reaches slots at least its limit above the lower end of the window (`TrimIsFar`). Therefore nothing is handed out
  twice if and only if the limit exceeds the lookback, or limit and lookback together exceed 64 bits
  (`NeverRepeatsIff`). For every lookback below 2^62 that is: unless it is zero. At 2^62 the limit wraps around to
  zero and the program repeats itself (`RoomyInNumbers`); `CrampedRepeats` gives the run.
* A shred whose slot plus lookback exceeds 64 bits counts as stale as soon as the wrapped sum is below the high-water
  mark, however new the slot is (`StaleIff`): slot 2^64 - 1, with a lookback of one, once the mark is at slot 1
  (`NewestIsStale`).
* Code shreds with a FEC set index above 32736 are parsed and then out of range, and there are such datagrams of every
  slot (`OutOfRangeIff`, `OutOfRangeExists`).
* The comment on `Tree` (src/merkle.rs:54-55) says it checks recovered sets and rebuilds their proofs; `fec.rs` does
  neither, and says so (src/fec.rs:6-12). The model follows the code: recovered shreds have zero proof bytes.

## Model

| member | source | states |
|---|---|---|
| Merkle.WalkSucceedsIff | src/merkle.rs:36-52 | a walk returns a root exactly when the index is below 2 to the number of whole proof entries |
| Merkle.AppendParents | src/merkle.rs:70-74 | the inner build loop appends exactly the parents of a level, a last odd node paired with itself |
| Merkle.NewTree | src/merkle.rs:63-79 | the flat vector is all levels, leaves first, for every non-empty leaf list |
| Merkle.LastNodeIsRoot | src/merkle.rs:81-83 | the last node of the flat vector is the root of the recursive tree |
| Merkle.Tree.Proof | src/merkle.rs:85-98 | walking offsets through the flat vector collects the siblings on the path of the recursive tree |
| Merkle.ProofReproducesRoot | src/merkle.rs:39-98 | completeness: for every tree size and index, walking the extracted proof from the leaf returns the root |
| Merkle.BindSameDepth | src/merkle.rs:39-52 | a proof as long as the tree is deep that reaches the root is the extracted proof, from a node with the leaf's prefix, unless inputs collide |
| Merkle.BindTooShort | src/merkle.rs:18-52 | a proof with too few entries that reaches the root is a collision of a leaf input with a node input, or of two nodes |
| Merkle.BindTooLong | src/merkle.rs:18-52 | a proof with too many entries that reaches the root is a collision |
| Merkle.Binding | src/merkle.rs:18-98 | binding: a walk from the leaf of x that reaches the root of a power-of-two tree, with whole entries of any number, proves x is that leaf and the proof the extracted one, or something the walk hashed collides with something the tree hashed |
| Hashing.HashesAre | src/merkle.rs:18-34 | a leaf is hashed as byte 0, the text SOLANA_MERKLE_SHREDS_LEAF and its bytes; two nodes as byte 1, the text SOLANA_MERKLE_SHREDS_NODE, the first 20 bytes of the left one and those of the right one |
| Hashing.NodeAbove | src/merkle.rs:63-79 | node i of the next level is that hash of nodes 2i and 2i + 1, or of node 2i twice |
| Hashing.SmallRoots | src/merkle.rs:63-83 | the roots of trees with one, two and three leaves, written out |
| Hashing.WalkStep | src/merkle.rs:39-52 | one step of a walk: the node goes left at an even index and right at an odd one; at the end of the proof it is the root if and only if the index has come down to 0 |
| Hashing.SmallProofs | src/merkle.rs:85-98 | the proofs in trees with two and three leaves and the roots they lead to, written out |
| Shreds.EveryProofSizeFits | src/shred.rs:183-220 | no datagram is refused for its proof size |
| Shreds.ParseOk | src/shred.rs:198-308 | what parsing returns is well-formed, a prefix of the datagram, parses to itself, and a data shred's set lies inside the slot; what is accepted at all is `WireFormat.ParseDataIff` and `WireFormat.ParseCodeIff` |
| WireFormat.ParseDataIff | src/shred.rs:198-308 | a datagram is parsed as a data shred if and only if it is legal as one, a condition on its length and the numbers at fixed offsets, and then to exactly those numbers |
| WireFormat.ParseCodeIff | src/shred.rs:198-308 | the same for code shreds |
| WireFormat.ParseErrors | src/shred.rs:198-308 | which error a refused datagram gets: the first check that fails, in the order of the program |
| WireFormat.ErrorNumbers | src/shred.rs:198-308 | every error names the numbers of the datagram it was refused for |
| WireFormat.LittleEndian | src/shred.rs:166-179 | the numbers read are the sums of their bytes times powers of 256, lowest byte first |
| WireFormat.LeUnique | src/shred.rs:166-179 | bytes of one width that read as the same number are the same bytes |
| WireFormat.DataContent | src/shred.rs:347-433 | every accessor of a data shred as a byte range of the datagram: the payload is bytes 88 up to the size field; and its two flags as bits |
| WireFormat.CodeContent | src/shred.rs:347-433 | the same for code shreds, which have no payload |
| WireFormat.DataRoundTrip | src/shred.rs:198-308 | for every signature, variant, slot, index, version, set index, parent offset, flag byte, chunk and filling: what is written is accepted if and only if the fields are legal and the chunk fits, and comes back field by field with the chunk as payload |
| WireFormat.CodeRoundTrip | src/shred.rs:198-308 | the same for code shreds and every count and position |
| Shreds.RegionsTile | src/shred.rs:382-426 | for every variant, signature, shard, chained root, proof and trailer tile the packet, and the leaf covers what lies between signature and proof |
| Shreds.ShardLength | src/shred.rs:183-193 | data and code shards of one proof size and resigned flag have equal length |
| Shreds.HeadersDecide | src/shred.rs:198-308 | only the bytes from the variant to the end of the headers decide what a full-size packet parses to |
| Shreds.AgreesContent | src/shred.rs:374-415 | shreds that agree on their leaf have equal payload, shard and chained root |
| Shreds.LeafDecides | src/shred.rs:428-433 | equal leaf bytes imply equal kind, variant and headers |
| Hashing.DataShredRoot | src/shred.rs:428-443 | the root of a data shred, from the bytes of its datagram: which are the leaf, which the proof, and the position |
| Hashing.CodeShredRoot | src/shred.rs:428-443 | the same for code shreds |
| Fec.FecSet.constructor | src/fec.rs:70-81 | a new set is empty and valid |
| Fec.FecSet.CanRecoverNow | src/fec.rs:136-145 | the counters decide exactly whether the set is incomplete, has a code shred and 32 shreds in all |
| Fec.FecSet.Insert | src/fec.rs:84-122 | outcome and new set are those of the specification, in the order of its checks, and the counters stay the numbers of filled slots |
| Fec.FecSet.Store | src/fec.rs:107-121 | exactly the shred's slot is filled, code shreds are dropped when and only when the data is complete |
| Fec.FecSet.DropCode | src/fec.rs:147-150 | no code shred is left and the counter says so |
| Fec.FecSet.FillMissing | src/fec.rs:185-215 | the loop fills empty positions in order up to the first that cannot be rebuilt and reports the indexes that were missing |
| Fec.FecSet.Recover | src/fec.rs:161-218 | recovery does what the specification says, also where it fails half-way |
| Fec.RebuildShred | src/fec.rs:191-211 | a rebuilt shred that passes the checks is a well-formed data shred of the template's set at the wanted position |
| Tables.RebuiltIff | src/fec.rs:191-214 | a shard gives a shred if and only if the bytes put together are a legal data shred with the slot, version and set index of the template and the wanted index; which error it is otherwise |
| Tables.TemplateIsFirst | src/fec.rs:152-159 | the template is the first code shred there is |
| Fec.FecInsertKeepsInv | src/fec.rs:84-122 | every insert keeps positions, completeness without code shreds and root, and loses no stored shred |
| Fec.FecRecoverKeeps | src/fec.rs:161-218 | recovery completes the set and reports exactly the missing indexes, or leaves it incomplete with its code shreds; stored shreds are never lost |
| Fec.MissingIndexesAre | src/fec.rs:185-217 | the reported indexes are exactly the positions that were empty |
| Fec.MissingIndexesAscend | src/fec.rs:185-217 | they are reported in ascending order, hence without repetition |
| Segments.RunUnique | src/slot.rs:141-164 | two runs that share an index are the same run |
| Segments.RunsDisjoint | src/slot.rs:173-190 | different segments of a slot have disjoint shred ranges |
| Segments.RunsGrow | src/slot.rs:117-131 | more shreds never undo or change a segment |
| Segments.NewRunIsTouched | src/slot.rs:124-131 | a run that has just become complete contains a fresh index or starts right after one: looking there misses nothing |
| Segments.ConsistentRuns | src/slot.rs:173-190 | which of two agreeing copies of a shred was kept does not change the segments |
| Segments.OrderUnique | src/slot.rs:124-131 | segments have only one order in which the run of the shred's index comes first, the run right after it second, and the others in ascending order |
| SlotSpec.FreshFits | src/slot.rs:75-110 | one packet brings at most 32 fresh indexes, so the fixed buffer never overflows |
| SlotSpec.FreshIsShaped | src/slot.rs:96-110 | the fresh indexes are the data shred's own, then the recovered ones in ascending order |
| SlotSpec.SlotInsertKeepsInv | src/slot.rs:56-199 | every insert keeps the storage agreement and everything taken |
| SlotSpec.FreedStaysFreed | src/slot.rs:70-73 | a set whose indexes are all consumed is gone and no shred brings it back |
| SlotSpec.SlotInsertConserves | src/slot.rs:96-123 | an insert adds as many received indexes as it reports accepted data shreds and recovered ones |
| SlotAssembly.SlotState.constructor | src/slot.rs:41-51 | a new slot is valid, empty, and has emitted nothing |
| SlotAssembly.SlotState.StorageAgrees | src/slot.rs:31-39 | complete and consumed bits are received bits, and every received unconsumed index is stored in its set at its position; when a stored shred is received is `Stranding.NothingStrandedIff` |
| SlotAssembly.SlotState.SetIsConsumed | src/slot.rs:134-139 | the count decides whether all 32 indexes are consumed |
| SlotAssembly.SlotState.FindSegment | src/slot.rs:141-164 | the bounds of the run of an index if it is complete, and none only if there is no such run |
| SlotAssembly.SlotState.DataAt | src/slot.rs:166-171 | the lookup never fails for a received unconsumed index and returns the shred that was taken |
| SlotAssembly.SlotState.Concatenate | src/slot.rs:180-183 | the bytes are the payloads of the run in index order |
| SlotAssembly.SlotState.FreeSets | src/slot.rs:192-198 | looking only at the sets that overlap the run drops exactly the sets that are wholly consumed |
| SlotAssembly.SlotState.TryComplete | src/slot.rs:173-199 | emits the run of an index if it is complete and not yet emitted, at most one, and afterwards that run has been emitted |
| SlotAssembly.SlotState.TryAround | src/slot.rs:124-131 | emits the run of an index and, if that index ends a run, the run right after it, in this order, and leaves neither to be emitted |
| SlotAssembly.SlotState.Mark | src/slot.rs:117-123 | exactly the fresh indexes become received, and complete where the stored shred says so |
| SlotAssembly.SlotState.EmitFresh | src/slot.rs:124-131 | the segments appended are exactly the runs complete now and not before, each once, in the one order `OrderUnique` allows |
| SlotAssembly.Offer | src/slot.rs:80-116 | the set, the fresh indexes and every counter after offering a shred to its set and recovering at once if possible |
| SlotAssembly.SlotState.OfferToSet | src/slot.rs:75-116 | finds or creates the set; only that set changes |
| SlotAssembly.SlotState.Insert | src/slot.rs:56-132 | exact emission: new state, outcome and counters follow the specification, and the segments appended are exactly the newly complete runs, each once; after a data shred its own run comes first, then the run right after it, then the others, and after a code shred all of them, in ascending order |
| Tables.OutcomeTable | src/slot.rs:66-95 | exactly when a shred is not needed, a duplicate, refused for its proof, its root or its signature, or accepted, in terms of what the slot holds and knows |
| Tables.AcceptedReports | src/slot.rs:96-116 | an accepted shred reports as recovered what became available besides itself, and nothing where recovery is off or failed |
| Blocks.RunsAreRaw | src/slot.rs:141-164 | the runs are exactly the stretches of available datagrams of which the last alone carries DATA_COMPLETE, after one that carries it or from 0 on |
| Blocks.BlockSegment | src/slot.rs:180-190 | a byte string cut in any way over the datagrams of a run is the segment of that run, byte for byte, without what fills the packets |
| Leader.HonestRoot | src/shred.rs:435-443 | every shred of an honest set recomputes the signed root |
| Fidelity.LeaderIsGenuine | src/shred.rs:435-443 | the leader's own shreds are genuine |
| Example.HonestSlotExists | src/merkle.rs:4-7 | for every hash function an honest slot exists, 64 parsed shreds with their tree and erasure code whose data shreds are one run, so the theorems about honest slots are not empty |
| Leader.RebuildTiles | src/fec.rs:191-201 | rebuilt bytes are signature, shard, chained root, zero proof and trailer, without gap |
| Leader.RebuildAgrees | src/fec.rs:191-214 | recovery fidelity: for every proof size and resigned flag the rebuilt shred parses and agrees with the original in headers, payload, shard and chained root |
| Leader.RecoverFaithful | src/fec.rs:161-218 | a set that holds only what the leader made and can recover always does, completely, and still holds only that |
| Fidelity.RootDecides | src/fec.rs:93-106 | a shred whose proof leads to the leader's root is the leader's shred at that position, or carries a collision |
| Fidelity.AcceptedIsGenuine | src/fec.rs:84-122 | a shred accepted by a faithful set is genuine, or carries a collision |
| Fidelity.NextGenuine | src/fec.rs:84-122 | in every trusted run, whatever a set accepts next is genuine |
| Fidelity.FeedSettles | src/fec.rs:96-100 | over every run, once a shred of a set had a valid proof the set knows its root or has been consumed |
| Fidelity.InsertKeepsFaithful | src/slot.rs:56-132 | one packet keeps every stored and taken shred in agreement with the leader, or carries a collision |
| Fidelity.EndToEndFidelity | src/slot.rs:173-190 | over every run in which the first shred of each set with a valid proof is genuine, each segment is one of the leader's, or a shred fed carries a collision |
| Fidelity.FreedForGood | src/slot.rs:192-198 | over every run, a consumed set is never there again |
| Fidelity.FeedConserves | src/slot.rs:96-123 | over every run, the received indexes number the accepted data shreds plus those reported recovered |
| Delivery.RecoveryThreshold | src/fec.rs:141-145 | an incomplete set can recover exactly when 32 of its 64 positions are held |
| Delivery.StepMatches | src/fec.rs:84-145 | an honest shred leaves a set with exactly the positions fed, or with all its data once 32 were fed |
| Delivery.Delivered | src/slot.rs:56-132 | after every trusted run, what a set has delivered is determined by the genuine positions fed to it |
| Delivery.ThirtyTwoSuffice | src/fec.rs:1-12 | in every trusted run a data index is available exactly when its genuine shred was fed or at least 32 genuine positions of its set were |
| Delivery.OrderIndependence | src/slot.rs:56-132 | two trusted runs fed the same genuine positions, in any order, with any repetition and any corrupted shreds in between, hand out the same segments |
| Delivery.EagerDominates | src/slot.rs:100-116 | after every trusted run, the segments handed out without recovery are among those handed out with it, ranges and bytes alike |
| Delivery.HalfIsEnough | tests/fixtures.rs:160-181 | with 32 genuine shreds of each set, a trusted run has handed out exactly the leader's segments |
| Blocks.BlockComesBack | tests/fixtures.rs:160-181 | the byte string an honest leader cut over the data shreds of a run is handed out by every trusted run with 32 genuine shreds of each set |
| Delivery.RefusedDelivers | src/slot.rs:79-95 | a shred that is not accepted leaves everything taken as it is, even where it creates its set |
| Delivery.LeaderIsTrusted | src/merkle.rs:4-7 | every run of the leader's own shreds is trusted |
| Stranding.FailureFills | src/fec.rs:185-218 | a recovery that fails has filled a slot exactly when the first missing shred can be rebuilt and another cannot, and then it has filled the first |
| Stranding.NothingStrandedIff | src/slot.rs:111-114 | over every run, every stored data shred of a live set is received if and only if no recovery stopped half-way |
| Stranding.NoFailureIsUnbroken | src/slot.rs:111-114 | a run in which no recovery failed has none that stopped half-way |
| Stranding.DuplicateIff | src/slot.rs:66-85 | a data shred is counted as a duplicate exactly when its index was received or is stranded |
| Stranding.StrandedForGood | src/slot.rs:79-89 | whatever arrives later, a stranded index stays stranded and no segment that covers it is handed out |
| Stranding.FeedKnows | src/fec.rs:93-106 | over every run, a set that is still there knows exactly the root and signature of its first shred with a valid proof |
| Stranding.MatchingIsAvailable | src/slot.rs:79-123 | in any run, with any erasure code, unless a recovery stopped half-way, every data shred that goes with the first root of its set is available |
| Stranding.WaitingIsMatching | src/slot.rs:79-123 | without recovery exactly the indexes of those shreds are available, in any run |
| Stranding.EagerKeepsIndexes | src/slot.rs:100-116 | in any run, unless a recovery stopped half-way, recovering makes every index available that waiting does |
| HalfWay.EagerCanLose | src/fec.rs:202-214 | for every hash, a run of 64 shreds of one leader that are no codeword: index 0 is stranded, waiting hands out the whole run, recovering does not |
| View.SignatureOffset | src/view.rs:56-90 | the signature count is never cut off; the offset is right exactly when the signatures start below 65536; with one signature the slice read is inside the transaction |
| View.ScanWorkBound | src/view.rs:144-189 | whatever counts are claimed, 8 + 48 per entry + 38 per transaction found never exceed the segment, and an error is the last item |
| Rescan.TransactionLocal | src/view.rs:240-342 | scanning the same bytes anywhere else finds the same transaction and consumes as much |
| Rescan.TransactionsAgain | src/view.rs:132-142 | iterating over a copy of scanned bytes yields the same views and no error, and the slices tile the bytes |
| Rescan.RescanAgrees | src/view.rs:111-189 | for every entry found, iterating its transactions yields exactly the announced number, no error, the same views, and tiles the entry's slice |
| Layout.TransactionRoundTrip | src/view.rs:14-26 | every v1 encoding, with any of its four config values, and every legacy or v0 encoding with fewer than 128 signatures, followed by anything, is consumed exactly and reported with its version, signature count and offset |
| Layout.ConfigFits | src/view.rs:313-327 | a fee of eight bytes and three values of four, each optional: the mask that says which are there is accepted and announces as many bytes |
| Refusals.MaskRefused | src/view.rs:313-318 | exactly the masks with a bit above the fifth, or with one of the two fee bits and not the other, are refused |
| Refusals.FirstByteRefused | src/view.rs:240-256 | first bytes 0x80 and above 0x81 are unknown versions, 0x81 is scanned as v1, lower ones as legacy or v0 |
| Refusals.MessageByte | src/view.rs:258-275 | the byte behind the signatures decides between legacy, v0 and an unknown version |
| Refusals.CompactLengths | src/view.rs:224-237 | the value of a compact length of one, two and three bytes, non-minimal ones included, and the refusal of a fourth |
| Layout.ManySignatures | src/view.rs:247-255 | a legacy or v0 encoding with 128 signatures or more is refused as an unknown version, or scanned as v1 if the count is 1 modulo 128 |
| Layout.RoundTripIff | src/view.rs:14-26 | for every encoding of the stated layout: it comes back if and only if it is v1 or has fewer than 128 signatures |
| Layout.FirstSignature | src/view.rs:82-89 | the signature read from an encoding is its first signature, if there is one and it starts below 65536 |
| Layout.FarSignatureMissed | src/view.rs:334-341 | a concrete v1 transaction is scanned whole with offset 48 and one signature, and what is read as the signature is not it |
| Layout.SegmentRoundTrip | src/view.rs:14-26 | every encoded segment of such transactions, with any trailing bytes, yields its entries and no error |
| Prefixes.TransactionCut | src/view.rs:240-342 | scanning any bytes of which only the front has arrived gives the answer of the whole, error included, or reports a cut at an offset inside the front |
| Prefixes.CutTransaction | src/view.rs:240-342 | an encoded transaction cut anywhere is reported as cut, at an offset inside what is left of it |
| Prefixes.SegmentFront | src/view.rs:144-189 | scanning the front of any segment yields the first entries of the whole segment and then ends as the whole does, or with the offset of the cut |
| Scanner.Cursor.Take | src/view.rs:198-207 | takes exactly n bytes, or reports where the segment is cut and stays there; the cursor never passes the end |
| Scanner.Cursor.ShortVecLen | src/view.rs:224-237 | reads the length the specification finds, non-minimal forms included, refuses a fourth byte, and leaves the cursor where the specification says, after an error too |
| Scanner.Cursor.ScanLegacyOrV0 | src/view.rs:258-305 | finds the transaction or the error of the specification, and leaves the cursor where it says |
| Scanner.SumPayloads | src/view.rs:329-332 | the sum over the four-byte instruction headers |
| Scanner.Cursor.ScanV1 | src/view.rs:307-342 | finds the transaction or the error of the specification, truncated offset included, and leaves the cursor where it says |
| Scanner.Cursor.ScanTransaction | src/view.rs:240-256 | dispatches on the first byte as the layouts say; result and cursor are those of the specification |
| Scanner.Cursor.ScanEntry | src/view.rs:173-188 | finds the entry whose slice holds its transactions, or the first error in it, with the cursor where the scan stopped |
| Scanner.TxIter.constructor | src/view.rs:116-124 | a new iterator has the transactions of the slice still to come |
| Scanner.TxIter.Next | src/view.rs:135-141 | yields the head of what is to come, and nothing after an error |
| Scanner.EntryIter.Next | src/view.rs:163-169 | yields the head of what is to come, and nothing after an error |
| Scanner.Entries | src/view.rs:144-153 | starts an iteration over exactly the items of the segment, or reports that the count is missing |
| Window.StaleIff | src/deshredder.rs:161-169 | a shred of an accepted version is stale exactly when its window has passed, or wraps around at 64 bits and has passed then |
| Tables.AdmissionTable | src/deshredder.rs:151-169 | exactly which datagrams are invalid, of the wrong version, stale or admitted, on the numbers in their bytes |
| Datagrams.NewestIsStale | src/deshredder.rs:165-169 | a concrete datagram of the newest slot there is, with a lookback of one, is admitted at mark 0 and stale at mark 1 |
| Window.EvictSplits | src/deshredder.rs:183-188 | what the eviction keeps reaches the new slot even without wrap-around, what it drops does not reach it with wrap-around |
| Window.TrimKeepsSmallest | src/deshredder.rs:190-193 | the trim keeps the smallest keys, as many as fit, with their slots |
| Window.PushKeeps | src/deshredder.rs:142-204 | every datagram keeps: high-water mark is the largest slot handed out, live slots within the lookback, no more of them than the limit, batches handed out are the runs of the live slots; the mark never falls |
| Window.AtMostOnce | src/deshredder.rs:166-204 | over every run, two batches of one slot have disjoint shred ranges, in a roomy configuration always, in any other for slots never trimmed |
| Window.NothingTwice | src/deshredder.rs:166-204 | a datagram hands out nothing that was handed out before, under the same condition |
| Window.EvictedForGood | src/deshredder.rs:166-189 | a slot that has fallen out of the window is never admitted again, and not live unless its window wraps around |
| Window.TrimIsFar | src/deshredder.rs:190-193 | the capacity trim only removes slots at least its limit above the lower end of the window: three lookbacks above the high-water mark unless the limit wraps around |
| Tables.TrimToFour | src/deshredder.rs:190-193 | after every datagram there are at most four lookbacks of slots, as a 64-bit product; a datagram costs at most one slot, the newest there is, and then exactly that many are left |
| Window.HandedOutStaysLive | src/deshredder.rs:177-193 | a slot that has handed out a batch stays live until it is stale for good |
| Repetition.CrampedRepeats | src/deshredder.rs:190-193 | otherwise a concrete run repeats: one packet for each slot below the limit, then the same complete slot twice |
| Repetition.NeverRepeatsIff | src/deshredder.rs:166-204 | nothing is handed out twice in any run if and only if the trim's limit exceeds the lookback, or both together exceed 64 bits |
| Repetition.RoomyInNumbers | src/deshredder.rs:191 | below 2^62 the condition fails for a lookback of zero only; at 2^62 it fails |
| Datagrams.OutOfRangeIff | src/shred.rs:280-285 | exactly the code shreds whose header names a FEC set index above 32736 are parsed and then out of range |
| Datagrams.OutOfRangeExists | src/slot.rs:134-139 | there is such a datagram of every slot |
| Deshredding.Deshredder.constructor | src/deshredder.rs:85-98 | a new deshredder has no slots and high-water mark 0, and keeps the configuration, hash, erasure code and counters it was given |
| Deshredding.Deshredder.Admit | src/deshredder.rs:151-169 | the three refusals in order, each counted, nothing else changed |
| Deshredding.Deshredder.EvictBefore | src/deshredder.rs:183-188 | the loop drops exactly the slots outside the lookback |
| Deshredding.Deshredder.TrimTo | src/deshredder.rs:190-193 | the loop drops the largest keys until the bound holds |
| Deshredding.Deshredder.Drain | src/deshredder.rs:195-203 | every segment is handed out with its slot, in order, and counted |
| Deshredding.Deshredder.PushRaw | src/deshredder.rs:142-204 | slots, high-water mark, fate, batches and every counter after one datagram; the batches are distinct and in the order of their segments |
| Deshredding.Deshredder.PushDecoded | src/deshredder.rs:107-136 | as above, and what decodes to entries is output while markers and errors are counted |
| Deshredding.DecodedBalance | src/deshredder.rs:107-136 | batches are the entry batches output plus markers plus decode errors, and no other counter moves |
| Tables.DecodedCountersAre | src/deshredder.rs:107-136 | entries and transactions are those in the batches output, markers and decode errors number the batches decoded as such |
| Deshredding.Replay | src/deshredder.rs:138-204 | a run of the raw path ends in the specification's window, hands out its batches, datagram by datagram and in order, without repetition if roomy, and from zero counters every packet and batch is accounted for |
| Deshredding.TurnsDecide | src/deshredder.rs:195-203 | the datagrams of a run decide its whole output, with its order |
| Tables.CountersAre | src/deshredder.rs:142-204 | every counter is the number of datagrams of the run with its fate, and `recovered` the sum over the accepted ones |
| Deshredding.Drive | src/pipeline.rs:126-136 | the worker's loop over the decoding path: window, batches, outputs and every counter; from zero, packets are invalid, wrong version, stale, duplicate, unneeded, rejected or accepted, and batches are outputs, markers or decode errors |
| Guarantees.SlotIsFeed | src/deshredder.rs:165-204 | whatever arrives for other slots, a slot never trimmed is fed its own shreds in order, all of them until its window has passed, and has handed out exactly the runs of those, live or evicted |
| Guarantees.SlotHandsOut | src/deshredder.rs:165-204 | the batches handed out for a slot in the window are the runs of all its own shreds |
| Guarantees.LiveIsInWindow | src/deshredder.rs:166-189 | a live slot is in the window, unless its window wraps around |
| Guarantees.DeshredderOrderIndependence | tests/fixtures.rs:147-158 | two runs that gave a slot in the window the same genuine positions hand out the same segments for it, whatever the order, repetitions, corrupted shreds and other traffic |
| Guarantees.DeshredderFidelity | src/deshredder.rs:165-204 | for every slot never trimmed, only the leader's segments are handed out, or a shred carries a collision |
| Guarantees.DeshredderCompleteness | tests/fixtures.rs:183-220 | a slot that at some moment was in the window with 32 genuine shreds of each set has handed out exactly the leader's segments, whatever corrupted shreds arrived before and after |
| Pipeline.StepConserves | src/pipeline.rs:118-180 | every step of either thread keeps conservation |
| Pipeline.PipelineConserves | src/pipeline.rs:118-180 | in every interleaving, pushed packets followed by the channel are the offered packets in order minus those dropped, and dropped counts those |
| Pipeline.NothingLostAtShutdown | src/pipeline.rs:151-157 | once both threads are joined the channel is empty and received equals pushed plus dropped |
| Pipeline.DropOnlyWhenFull | src/pipeline.rs:172-177 | the dropped counter moves only when the channel is full |
| Pipeline.NothingDropped | src/pipeline.rs:160-180 | under no schedule is anything dropped as long as no more packets were received than the channel holds |
| Pipeline.RunsUntilStopped | src/pipeline.rs:160-170 | neither thread ends before a stop is requested |
| Pipeline.ShutdownBounded | src/pipeline.rs:151-180 | after a stop request the threads can take only a bounded number of steps, however they are scheduled |
| Pipeline.ShutdownProgress | src/pipeline.rs:151-180 | and they are never stuck before both have finished |

## Left out

- SHA-256 and Reed-Solomon over GF(2^8) are foreign libraries: the hash is any function, the erasure code any function with the stated contract.
- `src/entry.rs` and the claim that the scanner accepts exactly what the owned decoder accepts (src/view.rs:32-33): decoding is any function with three kinds of result.
- `src/socket.rs`, `src/fixture.rs`, the binaries, examples and benchmarks: kernel calls, file framing, printing and timing.
- Atomics and memory ordering of `src/stats.rs`: counters are natural numbers, and the pipeline is a system of atomic steps.
- A worker that panics, and the branch of the receive loop for a disconnected channel (src/pipeline.rs:176): the worker is alive until the receiver has returned.
- The taps and sinks of the pipeline: they do not touch its state.
- Leader signatures and proof of history, which the program does not verify either (src/lib.rs:39-41).
- Reference counts of `Bytes`, preallocation and log messages; accessors that nothing here reads, such as `parent_slot`.
- What the program does with a code shred whose FEC set index is out of range: a precondition. Builds with overflow checks, which stop where the model wraps around.
- Fixed-size arrays inside a set are sequences that the methods reassign, bit sets are sets of indexes, the output vector and the callback are returned sequences, and bit masks are arithmetic.
- Wrap-around of counters, which would take more than 2^64 packets.
- Guarantees.DeshredderFidelity: says nothing about a slot that the capacity trim removed and that was then started afresh; its first shred after the restart would have to be genuine again.
- Guarantees.DeshredderCompleteness: the same.
- Layout.SegmentRoundTrip: only for transactions the scanner can tell apart, fewer than 128 signatures in legacy and v0; what a segment with others is taken for is stated for one transaction only (`ManySignatures`).
