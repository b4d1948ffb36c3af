# bluedb evidence and full-text search, modelled in Dafny

Three state machines of bluedb, and the theorems their design rests on.

**The evidence chain.** One Merkle tree (section 2.1 of RFC 6962) lives in four forms: the
recursive tree hash (`Merkle`), the frontier of peaks with its carry-merge (`Frontier`), the
stored complete subtrees (`StoredProofs`), and the proofs, checked by verifiers that work on
bits of the index (`MerkleVerify`, `ConsistencyVerify`; sections 2.1.3.2 and 2.1.4.2 of
RFC 9162). One lemma carries the bit arithmetic: hashing the leaves in pairs, with a last odd
leaf promoted, keeps the root, so every shift by one is one level. `Chain`,
`ChainInvariant`, `ChainRuns` and `ChainOps` are the append, redact and delete machine on top,
`Crash` its interleavings of clients, flushes and crashes, `ReadCost` the number of records a
proof reads. `CrashOps` ties the operations to the steps of `Crash`, and `Acknowledged` is what
finished ones leave behind. `StoredEntries` is what an append stores and a read therefore proves.
`Framing` and `LeafOrder` are what the hashed bytes determine, `TamperEvidence` what an accepted
proof therefore does, and `ByteFormats` has every format byte by byte.

**The graph store.** `Graph` keeps each edge in three places through one batch with an
overlay. `Bytes` and `Keys` are the byte keys: the per-kind maps of `Store` are what one flat
ordered map holds for a tenant, and `FlatChains` carries appends over to it. `Adjacency`,
`Links` and `EntryScan` read ranges of that map; `Reachable` and `WidestPath` search over those
scans, and `GraphScan` drops a graph by them.

**The full-text index.** `Splits`, `Compaction`, `FtsIndex` and `FtsStore` are the durable
index as sequences of single blob writes, `CompactionEffect` what a compaction clears and keeps,
`SplitNames` and `SplitOrder` the names of its blobs; `FtsMeaning` shows that over every run with
crashes it means a plain map. `LiveTier` and `Seal` are the in-memory tier and its seal, `Search`,
`MergedSearch` and `FtsSearch` the ranked, filtered, merged search, `SearchExact` and
`SearchLimits` exactly when it is right, `SearchOrder` the order of its hits, `Union` the search
over both tiers.

The recursive tree hash and provers and both verifiers are compiled for the unit tests of
`merkle.rs` only (`#[cfg(test)]`): they are the reference that the served frontier, stored nodes
and storage-backed proofs are measured against.

Operations that change state are methods proved against functions on values; the theorems are
about those functions. Hashes are parameters, and the soundness theorems ask only that the
finitely many pairs hashed by the tree and by the check do not collide.

Where the code does not do what its comments say, the code is modelled:

- A keyed append that is a replay is answered without a flush, so its answer can be lost
  (`Crash.ReplayCanBeLost`; `Crash.ReplaySurvivesExactly` says exactly when).
- The leaf hash sorts edge deltas by edge and operation, so it forgets the order of different
  operations on one edge, which decides the graph (`LeafOrder.LeafHidesOrder`;
  `LeafOrder.LeafFixesEffectExactly` says exactly when it matters).
- The search comments say that the over-fetch makes up for superseded copies and that the
  newest copy is kept. It makes up for tombstoned copies only: superseded ones can crowd out
  a better hit (`MergedSearch.SupersededCopiesCrowdOut`), and an old copy can be returned while
  the newest was never fetched (`SearchLimits.StaleCopyReturned`). `SearchLimits.SearchRightExactly`
  is the exact condition.
- The union search cuts the durable hits at a hundred before it masks the covered ones, so
  covered hits use up places (`Union.CoveredCrowdOut`; exactly when, `Union.UnionRightExactly`
  and `Union.UnionAlwaysRight`).
- Split names do not always sort in creation order: once a compaction has taken the last split
  off the manifest, numbers start over (`SplitOrder.CompactionBreaksOrder`), and six digits can
  run out. `SplitOrder.NextNameIsLastExactly` and `SplitOrder.NamesSortByCreation` say exactly when.
- A create that finds its chain is answered without a flush, so the answer can be lost
  (`Acknowledged.CreateReplyCanBeLost`; exactly when, `Acknowledged.CreateReplySurvivesExactly`).
- The collector's comments call a blob that the manifest does not list safe to reclaim; but a
  split is written before the manifest lists it, so a collection whose manifest was loaded
  before an append completed deletes the new split (`FtsStore.CollectRacesAppend`; exactly when
  a collection is safe, `FtsStore.StaleCollectExactly`).
- A range read from a negative seq returns nothing (`EntryScan.RangeIsExact`), because
  negative seqs sort after the others (`Keys.EntryKeyOrder`); a page read after the largest seq
  returns that seq again (`EntryScan.FromIsExact`).
- A path over an edge of weight `i64::MIN` does not connect (`WidestPath.SmallestWeightHides`,
  and the exact condition in `WidestPath.Search`).
- The consistency verifier indexes an empty proof out of bounds (`ConsistencyVerify.PanicsExactly`).
  It is a helper of the unit tests, not served code.
- Re-indexing a tombstoned pk in the live segment leaves it hidden, and the seal then drops it
  (`Seal.ReindexedIsDropped`; exactly when, `Seal.IndexedSurvivesExactly`).

`dafny verify dfyconfig.toml` checks the project.

## Model

| member | source | states |
|---|---|---|
| `Merkle.SplitPointUnique` | crates/bluedb-evidence/src/merkle.rs:76-85 | The split point is the only power of two below `n` that is at least half of it |
| `Merkle.LargestPow2Lt` | crates/bluedb-evidence/src/merkle.rs:76-85 | The doubling loop finds the split point, for every `n >= 2` |
| `Merkle.PairUpKeepsRoot` | crates/bluedb-evidence/src/merkle.rs:90-99 | Hashing leaves in pairs, a last odd one promoted, keeps the recursive tree hash: the bridge from the recursion to the bit arithmetic |
| `Merkle.InclusionProofStep` | crates/bluedb-evidence/src/merkle.rs:156-172 | An audit path is the sibling (if any) followed by the audit path one level up, at half the index |
| `Merkle.SubproofEven` | crates/bluedb-evidence/src/merkle.rs:187-209 | A consistency subproof of an even prefix is the subproof one level up |
| `Merkle.SubproofOdd` | crates/bluedb-evidence/src/merkle.rs:187-209 | A subproof of an odd prefix is the seed leaf followed by the audit path of the last prefix leaf |
| `MerkleVerify.ChainBorderRight` | crates/bluedb-evidence/src/merkle.rs:403-408 | The border loop is its fold |
| `MerkleVerify.ChainInner` | crates/bluedb-evidence/src/merkle.rs:409-418 | The shift-and-mask loop is its fold |
| `MerkleVerify.ChainInnerRight` | crates/bluedb-evidence/src/merkle.rs:419-429 | The loop that hashes only where the index bit is set is its fold |
| `MerkleVerify.ClimbIsFolds` | crates/bluedb-evidence/src/merkle.rs:347-374 | The bit-length and popcount form of the verifier is a level-by-level climb that halves index and last leaf |
| `MerkleVerify.RootFromInclusion` | crates/bluedb-evidence/src/merkle.rs:347-374 | The verifier loop returns the climb, and rejects exactly on an index out of range or a wrong path length |
| `MerkleVerify.InclusionComplete` | crates/bluedb-evidence/src/merkle.rs:156-172 | For every leaf list and index, the recursive audit path is accepted and rebuilds the recursive root |
| `MerkleVerify.InclusionProofLength` | crates/bluedb-evidence/src/merkle.rs:347-374 | The audit path has bitlen(index xor (size-1)) + popcount(index >> inner) hashes |
| `MerkleVerify.InclusionSound` | crates/bluedb-evidence/src/merkle.rs:347-374 | An accepted path forces the leaf to be the one at the index, and the path to be the audit path, if no two hashed pairs of the tree and the check collide |
| `ConsistencyVerify.VerifyConsistency` | crates/bluedb-evidence/src/merkle.rs:431-469 | The verifier loop (trailing zeros, inner, border) returns the verdict, including its out-of-bounds panic |
| `ConsistencyVerify.PanicsExactly` | crates/bluedb-evidence/src/merkle.rs:431-469 | The verifier reads a missing first element exactly when sizes differ, the prefix is not a power of two and the proof is empty |
| `ConsistencyVerify.ConsistencyComplete` | crates/bluedb-evidence/src/merkle.rs:187-209 | For all 1 <= first <= second, the recursive consistency proof is accepted |
| `ConsistencyVerify.ConsistencySound` | crates/bluedb-evidence/src/merkle.rs:431-469 | An accepted proof against the root of the leaves forces the first root to be that of their prefix, short of a collision among the pairs hashed |
| `Frontiers.PeakCount` | crates/bluedb-evidence/src/merkle.rs:105-129 | There are popcount(size) peaks, so merging never runs out of them |
| `Frontiers.BagIsRoot` | crates/bluedb-evidence/src/merkle.rs:136-148 | Bagging the peaks of a leaf list gives its recursive tree hash |
| `Frontiers.EmittedIsExact` | crates/bluedb-evidence/src/merkle.rs:105-129 | Each node emitted by a push is a complete subtree ending at the new leaf, with the tree hash of its leaf range |
| `Frontiers.EmittedIsComplete` | crates/bluedb-evidence/src/merkle.rs:105-129 | Every complete subtree of level at least 1 ending at the new leaf is emitted |
| `Frontiers.EmittedCount` | crates/bluedb-evidence/src/merkle.rs:105-129 | A push emits as many nodes as the old size has trailing one bits |
| `Frontiers.RunEmitsOnlyNodes` | crates/bluedb-evidence/src/merkle.rs:105-129 | Over a whole run only nodes with (index+1)*2^level <= n are emitted, each with the tree hash of its range |
| `Frontiers.RunEmitsEveryNode` | crates/bluedb-evidence/src/merkle.rs:105-129 | Over a whole run every such node is emitted |
| `Frontiers.RunEmitsOnce` | crates/bluedb-evidence/src/merkle.rs:105-129 | No node is emitted twice in a run |
| `Frontiers.Frontier.PushEmit` | crates/bluedb-evidence/src/merkle.rs:105-129 | The carry-merge on the stored peaks represents one more leaf and returns exactly the emitted nodes; neither pop underflows |
| `Frontiers.Frontier.RootNow` | crates/bluedb-evidence/src/merkle.rs:136-148 | The root of the stored peaks is the recursive tree hash of all pushed leaves |
| `StoredProofs.SubtreeRootIsRoot` | crates/bluedb-evidence/src/proof.rs:22-52 | Over records that hold the leaves and nodes, the storage-backed subtree hash of any range finds every record and is the tree hash of the range |
| `StoredProofs.InclIsInclusionProof` | crates/bluedb-evidence/src/proof.rs:64-87 | The storage-backed audit path of any range is the recursive one |
| `StoredProofs.StoredSubproofIsSubproof` | crates/bluedb-evidence/src/proof.rs:106-133 | The storage-backed consistency subproof of any range is the recursive one |
| `StoredProofs.StoredProofsArePure` | crates/bluedb-evidence/src/proof.rs:54-133 | At every size up to the head, past ones included, storage-backed proofs equal the pure recursion |
| `ReadCost.SubtreeReads` | crates/bluedb-evidence/src/proof.rs:22-52 | An aligned range of width w is hashed from exactly popcount(w) records |
| `ReadCost.InclusionReads` | crates/bluedb-evidence/src/proof.rs:54-87 | An inclusion proof reads at most 2*ceil(log2 size) - 1 records |
| `ReadCost.ConsistencyReads` | crates/bluedb-evidence/src/proof.rs:91-133 | A consistency proof reads at most 2*ceil(log2 size) + 1 records |
| `Store.ApplyAllConcat` | crates/bluedb-evidence/src/chain.rs:301-312 | A batch takes effect as a whole, its operations in order |
| `Store.Database.Commit` | crates/bluedb-evidence/src/chain.rs:301-310 | A write without waiting for durability adds one batch to the log and is visible at once |
| `Store.Database.Flush` | crates/bluedb-evidence/src/chain.rs:312-312 | A flush makes every batch committed so far durable |
| `Framing.FingerprintInjective` | crates/bluedb-evidence/src/chain.rs:137-171 | The fingerprint bytes determine the list of entries, edges included |
| `Framing.LeafDetermines` | crates/bluedb-evidence/src/merkle.rs:41-73 | Two entries have the same leaf bytes exactly if type, payload, time and the sorted edges agree |
| `LeafOrder.LeafIgnoresOrder` | crates/bluedb-evidence/src/merkle.rs:36-73 | With at most one delta for each edge and operation, the order of the deltas does not change the leaf |
| `LeafOrder.LeafHidesOrder` | crates/bluedb-evidence/src/merkle.rs:48-57 | In general the leaf does not determine the order: an upsert and a delete of one edge give one leaf in both orders, with different graphs |
| `LeafOrder.PickSort` | crates/bluedb-evidence/src/merkle.rs:48-57 | The sort is stable: it keeps the order of the deltas of each edge and operation |
| `LeafOrder.SortAscends` | crates/bluedb-evidence/src/merkle.rs:48-57 | The sorted edges ascend by graph, source, destination, type and operation |
| `LeafOrder.LeafEqualExactly` | crates/bluedb-evidence/src/merkle.rs:41-73 | Two entries have one leaf exactly if they agree in type, payload, time and, for each edge and operation, in the list of deltas |
| `LeafOrder.LeafFixesEffectExactly` | crates/bluedb-evidence/src/merkle.rs:48-57 | The leaf of an entry fixes its effect on every graph exactly if for each edge all deltas have one operation, or none is a delete and no maximum exceeds the weight set last |
| `TamperEvidence.TamperEvident` | crates/bluedb-evidence/src/chain.rs:413-457 | An inclusion proof of an entry at a seq is accepted against the digest of any later time exactly if the entry has the type, payload, time and sorted edges of the one appended there and the proof is the audit path, short of two of the byte strings hashed having one hash |
| `Graph.EdgeBatch.ApplyEdgeDelta` | crates/bluedb-evidence/src/graph.rs:55-106 | One delta extends batch and overlay by the right operations and reports a change exactly if the weight or presence changes |
| `Graph.EdgeBatch.ApplyAllDeltas` | crates/bluedb-evidence/src/graph.rs:130-188 | The loop over deltas builds the batch of all of them and counts the reported changes |
| `Graph.BatchIsOneByOne` | crates/bluedb-evidence/src/graph.rs:55-106 | One batch built through the overlay gives the same store as applying the deltas one at a time |
| `Graph.BatchEffect` | crates/bluedb-evidence/src/graph.rs:55-106 | The batch makes the graph what the deltas mean as map updates (set, max, delete), and keeps both indexes describing the same edges |
| `Graph.ChangesIsEffect` | crates/bluedb-evidence/src/graph.rs:55-106 | A change is reported exactly if the graph changes |
| `Graph.UpsertEdges` | crates/bluedb-evidence/src/graph.rs:130-188 | One flushed batch; for each identity, the weight is the last listed under Set, the largest of old and listed under Max, and as before if no upsert names it; the count is that of effective changes |
| `Graph.DeleteEdges` | crates/bluedb-evidence/src/graph.rs:190-250 | Each identity that a listed edge names is gone and every other is as before; the count is the drop in the number of edges |
| `Graph.DeletesRemove` | crates/bluedb-evidence/src/graph.rs:190-250 | Deletes remove exactly the named edges, repeated names counted once |
| `Graph.MutateEdges` | crates/bluedb-evidence/src/graph.rs:252-329 | Upserts, then deletes, each as above, in one batch: a delete of the same edge wins; both counts are right |
| `GraphScan.DropBatch` | crates/bluedb-evidence/src/graph.rs:342-355 | Three prefix scans put exactly the keys under the prefixes of the graph into the batch, and count the canonical ones |
| `GraphScan.DropHolds` | crates/bluedb-evidence/src/graph.rs:336-371 | Deleting those keys drops the graph from the state of its tenant, and leaves graphs with a longer name and other tenants alone |
| `GraphScan.DropBatchEffect` | crates/bluedb-evidence/src/graph.rs:336-371 | The batch of those deletes leaves exactly the records of the other graphs, on the byte map and in the state of the tenant |
| `GraphScan.DropGraph` | crates/bluedb-evidence/src/graph.rs:336-371 | A drop scans the byte map, commits and flushes one batch, or nothing when it finds nothing, leaves exactly the other graphs, answers the number of edges dropped, and touches no other tenant |
| `Keys.HoldsOne` | crates/bluedb-evidence/src/keyspace.rs:23-28 | The byte map determines the state of a tenant |
| `Chain.AppendEffect` | crates/bluedb-evidence/src/chain.rs:187-318 | The append batch, operation by operation, takes the store to the described state |
| `Chain.NewNodesExact` | crates/bluedb-evidence/src/chain.rs:276-289 | The nodes written by appends are exactly the complete subtrees of the stored leaves |
| `Chain.SameChainOk` | crates/bluedb-evidence/src/chain.rs:187-318 | What an operation on one chain leaves alone keeps the invariant of every other |
| `ChainInvariant.AppendKeeps` | crates/bluedb-evidence/src/chain.rs:187-318 | Append keeps the invariant: verified chains hold exactly seqs 1..head with leaf hashes, frontier and nodes of their tree; plain chains only lose slots; the indexes agree |
| `ChainInvariant.CreateKeeps` | crates/bluedb-evidence/src/chain.rs:93-125 | Creating a chain keeps the invariant |
| `ChainInvariant.RedactKeeps` | crates/bluedb-evidence/src/chain.rs:494-534 | Redaction keeps the invariant, and every leaf hash |
| `ChainInvariant.HardDeleteKeeps` | crates/bluedb-evidence/src/chain.rs:536-600 | A hard delete, refused on verified chains, keeps the invariant |
| `ChainInvariant.HardDeleteEffect` | crates/bluedb-evidence/src/chain.rs:536-600 | A hard delete removes one record and, if asked, exactly the edges its deltas name, whatever each delta did |
| `ChainRuns.RunIsSound` | crates/bluedb-evidence/src/chain.rs:93-600 | The invariant holds after every run of create, append, redact, hard delete and graph writes |
| `ChainRuns.RunEvolves` | crates/bluedb-evidence/src/chain.rs:93-600 | Over every run: the mode of a chain never changes, its head never falls, no slot is filled twice, remembered answers stay, the leaves of a verified chain are only added to |
| `ChainRuns.RunKeepsSlot` | crates/bluedb-evidence/src/chain.rs:536-600 | A slot is emptied only by a hard delete of that slot |
| `ChainRuns.WriteRefusals` | crates/bluedb-evidence/src/chain.rs:93-600 | Which creates, redactions and hard deletes are refused or answered without a write, and with which error |
| `StoredEntries.AppendStores` | crates/bluedb-evidence/src/chain.rs:224-260 | An append that writes answers consecutive seqs from the head, and under each seq the type, payload, time and edges of that entry are stored as given, with its leaf hash on a verified chain; a chain that was not there is a verified one |
| `StoredEntries.AppendGraph` | crates/bluedb-evidence/src/chain.rs:236-270 | The graph after an append of one entry is what its deltas mean, and an append of two lists is an append of the first and then of the second |
| `StoredEntries.RunTruthful` | crates/bluedb-evidence/src/chain.rs:240-260 | Over every run, the leaf hash of each record not redacted is the hash of the type, payload, time and edges that the record shows |
| `StoredEntries.ReadsAreProvable` | crates/bluedb-evidence/src/chain.rs:413-457 | After any run, each record of a verified chain not redacted is provable as it is read: its inclusion proof takes the hash of what it shows to the digest |
| `ChainRuns.DigestIsRoot` | crates/bluedb-evidence/src/chain.rs:397-411 | A digest is the head with the tree hash of the stored leaf hashes, or the refusal on a plain chain |
| `ChainRuns.SoundHolds` | crates/bluedb-evidence/src/chain.rs:276-289 | In every sound store a verified chain has all the records that storage-backed proofs read |
| `ChainRuns.InclusionAnswers` | crates/bluedb-evidence/src/chain.rs:413-457 | Inclusion answers with the recursive audit path of that seq at that size, or the error its arguments call for |
| `ChainRuns.ConsistencyAnswers` | crates/bluedb-evidence/src/chain.rs:459-492 | Consistency answers with the recursive proof between the two sizes, or the error its arguments call for |
| `ChainRuns.AppendedLeafStays` | crates/bluedb-evidence/src/chain.rs:230-299 | After any later run the leaf of each appended entry of a verified chain is still at its index |
| `ChainRuns.AppendedStaysProvable` | crates/bluedb-evidence/src/chain.rs:413-457 | After any later run, each appended entry of a verified chain has an inclusion proof that the verifier accepts against the digest of then |
| `ChainRuns.DigestsStayConsistent` | crates/bluedb-evidence/src/chain.rs:459-492 | Any earlier digest is accepted by the verifier as consistent with any later one |
| `ChainRuns.RedactionIsInvisible` | crates/bluedb-evidence/src/chain.rs:494-534 | Redaction changes no digest, inclusion proof or consistency proof of any chain |
| `ChainRuns.ReplayedAppend` | crates/bluedb-evidence/src/chain.rs:210-222 | A repeated keyed append writes nothing and returns the first answer after any run; other entries under the key are refused unless fingerprints collide |
| `ChainOps.CreateChain` | crates/bluedb-evidence/src/chain.rs:93-125 | Under the lease: mode check, one batch, then flush |
| `ChainOps.AdvanceFrontier` | crates/bluedb-evidence/src/chain.rs:279-289 | Pushing the leaves on the stored frontier yields the new frontier record and the put of every emitted node |
| `ChainOps.FillEntries` | crates/bluedb-evidence/src/chain.rs:240-260 | The loop over entries puts each record at its seq, with its leaf hash on verified chains |
| `ChainOps.Append` | crates/bluedb-evidence/src/chain.rs:187-318 | Append commits at most one batch, the one of the plan, flushes it before it answers, and answers replays, conflicts and empty lists without a write |
| `ChainOps.Redact` | crates/bluedb-evidence/src/chain.rs:494-534 | Redact commits one batch and flushes it, or answers its error without a write |
| `ChainOps.HardDelete` | crates/bluedb-evidence/src/chain.rs:536-600 | Hard delete commits one batch and flushes it, or answers its error without a write |
| `Crash.TraceOk` | crates/bluedb-evidence/src/chain.rs:201-312 | Every interleaving of clients, flushes and crashes that cut the log keeps the log a run of commands and every acknowledgement durable |
| `Crash.LogIsRun` | crates/bluedb-evidence/src/chain.rs:201-312 | The state behind any log is that of a run of its commands from the empty store |
| `Crash.RecoveredIsSound` | crates/bluedb-evidence/src/chain.rs:201-312 | The state recovered from any cut that keeps what was flushed satisfies the invariant |
| `Crash.AcknowledgedSurvives` | crates/bluedb-evidence/src/chain.rs:301-317 | An append acknowledged after its flush is below the head of the recovered chain, and provable on a verified one |
| `Crash.AcknowledgedSlots` | crates/bluedb-evidence/src/chain.rs:301-317 | Its entries are in their slots, except where a later hard delete survived |
| `Crash.NoSeqTwice` | crates/bluedb-evidence/src/chain.rs:224-226 | No two acknowledged appends of a chain share a seq, across crashes |
| `Crash.AnswerKeptExactly` | crates/bluedb-evidence/src/chain.rs:210-218 | The remembered answer is in the state behind a prefix of the log exactly if that prefix holds its batch |
| `Crash.ReplaySurvivesExactly` | crates/bluedb-evidence/src/chain.rs:210-218 | In every reachable state, a remembered answer survives every crash exactly if its batch is already flushed |
| `Crash.ReplayCanBeLost` | crates/bluedb-evidence/src/chain.rs:213-218 | A replay is answered without a flush: a concrete run in which the answer is given and the append then lost |
| `Crash.AppendCanBeAcknowledged` | crates/bluedb-evidence/src/chain.rs:301-317 | A concrete run in which an append commits, flushes and is acknowledged |
| `CrashOps.OperationIsSteps` | crates/bluedb-evidence/src/chain.rs:301-312 | A completed write operation extends any run that its database mirrors by its commit and its flush, and one that only replies by nothing |
| `CrashOps.AppendIsAcknowledged` | crates/bluedb-evidence/src/chain.rs:187-318 | A completed append that wrote is among the acknowledged ones, with the answer it returned |
| `CrashOps.ChainWriteIsAcknowledged` | crates/bluedb-evidence/src/chain.rs:93-125 | A completed create, redaction or hard delete that wrote is among the acknowledged operations |
| `CrashOps.GraphWriteIsSteps` | crates/bluedb-evidence/src/graph.rs:130-371 | A completed upsert, delete, mutation or drop is a commit and a flush and is then acknowledged, or no step when its batch is empty |
| `Acknowledged.FinishedSurvives` | crates/bluedb-evidence/src/chain.rs:494-600 | In every state recovered from a crash, an acknowledged create still has its mode, the payload of an acknowledged redaction is gone and its record there unless hard-deleted, and an acknowledged hard delete left its slot empty for good |
| `Acknowledged.CreateReplySurvivesExactly` | crates/bluedb-evidence/src/chain.rs:101-108 | A create that finds its chain answers without a flush; the answer survives every crash exactly if the batch that created the chain is already flushed |
| `Acknowledged.CreateReplyCanBeLost` | crates/bluedb-evidence/src/chain.rs:101-108 | A concrete run in which that answer is given and the chain then lost |
| `Bytes.ComputePrefixUpperBound` | crates/bluedb-sql/src/keyspace.rs:407-423 | The increment-or-pop loop computes the bound |
| `Bytes.RangeIsPrefix` | crates/bluedb-sql/src/keyspace.rs:407-423 | The strings from a prefix up to its bound are exactly those that start with it |
| `Bytes.BeOrder` | crates/bluedb-evidence/src/keyspace.rs:169-173 | Big-endian bytes of one width sort like the numbers |
| `Bytes.BeRoundTrip` | crates/bluedb-evidence/src/keyspace.rs:169-178 | Big-endian bytes decode to the number |
| `Bytes.ObeOrder` | crates/bluedb-evidence/src/keyspace.rs:171-173 | Encoded weights sort like the signed weights |
| `Bytes.ObeRoundTrip` | crates/bluedb-evidence/src/keyspace.rs:176-178 | Decoding inverts the encoding of every weight |
| `Bytes.LpPrefixFree` | crates/bluedb-evidence/src/keyspace.rs:181-185 | Length-prefixed parts are prefix-free, for lengths below 2^32 |
| `Keys.KeysDistinct` | crates/bluedb-evidence/src/keyspace.rs:40-139 | Different records of any kinds and tenants have different byte keys |
| `Keys.EntryKeyOrder` | crates/bluedb-evidence/src/keyspace.rs:40-46 | Entry keys sort like their seqs exactly when the two seqs agree in sign |
| `Keys.ApplyIsOneKey` | crates/bluedb-evidence/src/keyspace.rs:40-139 | Each batch operation writes the record of one key and no other |
| `Keys.GraphPrefixExact` | crates/bluedb-evidence/src/keyspace.rs:158-166 | A key of the graph tags starts with the prefix of a graph exactly if it is of that graph and tag |
| `Keys.WriteHolds` | crates/bluedb-evidence/src/keyspace.rs:23-28 | A write on the flat byte map is the operation on the state of its tenant, and leaves the other tenants alone |
| `Keys.BatchHolds` | crates/bluedb-evidence/src/chain.rs:301-312 | A batch on the flat byte map refines the batch on the per-kind maps |
| `Keys.EachTenantAlone` | crates/bluedb-evidence/src/keyspace.rs:23-28 | However the batches of many tenants interleave, the flat map holds for each the state of its own batches alone |
| `ByteFormats.ChainKeyFormats` | crates/bluedb-evidence/src/keyspace.rs:31-70 | Entry, counter and idempotency keys at one small record each, byte by byte |
| `ByteFormats.TreeKeyFormats` | crates/bluedb-evidence/src/keyspace.rs:72-92 | Chain, frontier and node keys at one small record each, byte by byte |
| `ByteFormats.GraphKeyFormats` | crates/bluedb-evidence/src/keyspace.rs:94-139 | The three keys of an edge, byte by byte, with a positive and a negative weight |
| `ByteFormats.EdgeFormat` | crates/bluedb-evidence/src/merkle.rs:59-70 | What is hashed for an edge, byte by byte, for each operation |
| `ByteFormats.HashFormats` | crates/bluedb-evidence/src/merkle.rs:27-57 | What is hashed for a leaf, a node and a fingerprint, byte by byte |
| `ByteFormats.NameFormats` | crates/bluedb-fts/src/writer.rs:106-106 | Blob names of splits, byte by byte |
| `ByteFormats.NumberFormats` | crates/bluedb-engine/src/fts_engine.rs:770-783 | Rendered pks, byte by byte |
| `FlatChains.AppendFits` | crates/bluedb-evidence/src/chain.rs:230-299 | In a sound store every key of an append batch is within the widths of the encoding: levels below 256, indexes below 2^64 |
| `FlatChains.AppendOnFlat` | crates/bluedb-evidence/src/chain.rs:187-318 | Committing an append batch to the flat byte map is the append for its tenant, nothing for any other, and keeps the invariant |
| `Adjacency.ScanRange` | crates/bluedb-evidence/src/traverse.rs:33-40 | A range scan yields the keys of the range, ascending |
| `Adjacency.ScanAdjacency` | crates/bluedb-evidence/src/traverse.rs:25-61 | The scan loop decodes every key of the range, or ends with an error at a malformed one |
| `Adjacency.ReadLp` | crates/bluedb-evidence/src/traverse.rs:64-78 | The cursor reads one segment, or fails when the buffer is short |
| `Adjacency.DecodeEncoded` | crates/bluedb-evidence/src/traverse.rs:42-58 | The bytes after the prefix decode to the triple that wrote them |
| `Adjacency.TailDecodesExactly` | crates/bluedb-evidence/src/traverse.rs:42-78 | The bytes after the prefix decode to a neighbour exactly if they start with the bytes written for it |
| `Adjacency.KeysDecodeExactly` | crates/bluedb-evidence/src/traverse.rs:36-60 | A scan succeeds exactly if every key of it decodes, and then lists them one by one, in order |
| `Adjacency.KeyPastFloor` | crates/bluedb-evidence/src/traverse.rs:30-33 | A key is at or past the start of the scan exactly if its weight is at least the floor |
| `Adjacency.ScanIsExact` | crates/bluedb-evidence/src/traverse.rs:25-61 | On any byte map that holds a consistent graph, the scan yields without error exactly the edges of the node at or above the floor, each once, ascending by weight |
| `Adjacency.Neighbours` | crates/bluedb-evidence/src/traverse.rs:81-100 | Out- and in-neighbours are what the scan theorem says |
| `Links.Expand` | crates/bluedb-evidence/src/traverse.rs:242-245 | Out-edges, and in-edges when undirected, are exactly the links of the node |
| `EntryScan.ScanEntries` | crates/bluedb-evidence/src/chain.rs:357-381 | The scan stops at the cap before reading on, and decodes every key it reads |
| `EntryScan.ReadRange` | crates/bluedb-evidence/src/chain.rs:324-339 | A range read is the page of entries between its bounds as unsigned numbers |
| `EntryScan.ReadFrom` | crates/bluedb-evidence/src/chain.rs:344-354 | A read from a seq is the first page of later entries, at most the limit and at most 1000 |
| `EntryScan.RangeIsExact` | crates/bluedb-evidence/src/chain.rs:322-339 | A range read returns nothing for a negative `lo`; it returns exactly the entries from `lo` to `hi`, ascending, if and only if `lo >= 0` or there is no entry up to `hi` |
| `EntryScan.FromIsExact` | crates/bluedb-evidence/src/chain.rs:341-354 | The page returned is the first entries after the given seq, up to the cap, if and only if the seq is from -1 to below the largest, or there is nothing to miss below or to repeat at it |
| `EntryScan.SoundIsPositive` | crates/bluedb-evidence/src/chain.rs:224-226 | In every sound store the seqs of a chain are positive |
| `WidestPath.RelaxKeeps` | crates/bluedb-evidence/src/traverse.rs:246-252 | One relaxation keeps the search invariant, stale entries and all |
| `WidestPath.WiderIsDone` | crates/bluedb-evidence/src/traverse.rs:232-241 | A path wider than the top of the heap runs over expanded nodes only |
| `WidestPath.Pop` | crates/bluedb-evidence/src/traverse.rs:228-232 | The heap gives its greatest entry, ties by node id |
| `WidestPath.Search` | crates/bluedb-evidence/src/traverse.rs:211-258 | Terminates; connected exactly if some path avoids the smallest weight; the bottleneck is the maximum over all paths of the minimum weight; no node is expanded twice |
| `WidestPath.UsualPath` | crates/bluedb-evidence/src/traverse.rs:248-248 | Without an edge of the smallest weight, every path counts |
| `WidestPath.SmallestWeightHides` | crates/bluedb-evidence/src/traverse.rs:248-248 | With one it need not: a path over an edge of weight i64::MIN is not found |
| `Reachable.ExpandLevel` | crates/bluedb-evidence/src/traverse.rs:109-164 | Whatever the completion order of at most sixteen scans, the level is exactly the ends of the links of its nodes |
| `Reachable.Search` | crates/bluedb-evidence/src/traverse.rs:171-199 | Terminates; returns, sorted and without repeats, exactly the seeds and what paths at or above the floor reach, in the pinned view |
| `Bytes.AscendingUnique` | crates/bluedb-evidence/src/traverse.rs:196-198 | A set has one sorted list, so the result does not depend on completion order |
| `Splits.DeleteDocAt` | crates/bluedb-fts/src/tombstones.rs:119-132 | A copy is hidden after a delete exactly if it was before or is of that id and no newer than the delete |
| `Splits.MaxGeneration` | crates/bluedb-fts/src/manifest.rs:103-105 | The largest generation in the manifest, or zero |
| `Splits.NextSeq` | crates/bluedb-fts/src/writer.rs:92-109 | The minted number is above those of all appended splits in the manifest |
| `Splits.LiveAfterDelete` | crates/bluedb-fts/src/tombstones.rs:184-193 | Deleting at or above every generation hides the ids in all splits, and nothing else |
| `Compaction.Reindex` | crates/bluedb-fts/src/merge.rs:138-176 | The nested loops carry the live documents in order and collect kept and dropped ids |
| `Compaction.RunCompactor` | crates/bluedb-fts/src/merge.rs:116-249 | New split, manifest, tombstones and superseded keys are those of the specification |
| `Compaction.LivePartition` | crates/bluedb-fts/src/merge.rs:138-176 | The live copies are those carried over and those of the other splits |
| `CompactionEffect.ClearsExactly` | crates/bluedb-fts/src/merge.rs:214-239 | A tombstone is cleared exactly if the plan covers every split, some planned copy of its id was hidden and no planned copy is live; all others keep their generation and none is new |
| `CompactionEffect.CarriesInOrder` | crates/bluedb-fts/src/merge.rs:138-176 | Exactly the live documents are carried over, each once, by split and within a split by place |
| `Compaction.CompactLive` | crates/bluedb-fts/src/merge.rs:186-249 | For any subset of splits the new manifest shows the same live copies, with the old tombstones as with the new |
| `FtsIndex.EveryWrite` | crates/bluedb-engine/src/fts.rs:155-399 | At every crash point of every operation the splits the manifest names exist, and the live copies are those of before or of after; only an update has one point where old and new copies both show |
| `FtsIndex.SupersededGone` | crates/bluedb-fts/src/merge.rs:203-212 | The new manifest names nothing that is to be deleted |
| `FtsMeaning.RefinesExactly` | crates/bluedb-engine/src/fts.rs:155-214 | An operation, cut after any write, takes an index that means a map to one that means the updated map if batch ids are distinct, appended ids are not live and updates list the ids they reuse; and if not, to one that means no map |
| `FtsMeaning.RunRefines` | crates/bluedb-engine/src/fts.rs:155-399 | Over every run with crashes the live copies are exactly the plain map from ids to documents |
| `FtsMeaning.CompactionKeepsDuplicates` | crates/bluedb-fts/src/merge.rs:163-171 | Compaction does not deduplicate: two live copies of an id stay two |
| `FtsStore.Index.Append` | crates/bluedb-engine/src/fts.rs:155-168 | Split, then manifest; stops with an error at the first write that fails |
| `FtsStore.Index.Update` | crates/bluedb-engine/src/fts.rs:173-196 | Split, then manifest, then tombstones at the generation of before; stops with an error at the first write that fails |
| `FtsStore.Index.Delete` | crates/bluedb-engine/src/fts.rs:200-214 | Tombstones at the current generation, in one write, or an error |
| `FtsStore.Index.GcKeys` | crates/bluedb-fts/src/gc.rs:46-53 | Deletes the keys one by one and counts them |
| `FtsStore.Index.MaybeCompact` | crates/bluedb-engine/src/fts.rs:350-399 | If the policy fires: new split, manifest, tombstones, then the superseded blobs one by one, and the summary names the one split left and counts the old ones; else nothing |
| `FtsStore.PlanExactly` | crates/bluedb-fts/src/policy.rs:63-105 | A compaction is planned exactly if there are enough splits and either more than the limit or more tombstones than the ratio of the documents, and then of every split |
| `FtsStore.NumDocsCounts` | crates/bluedb-fts/src/policy.rs:72-80 | The documents of the ratio are all stored copies, hidden ones included |
| `FtsStore.Index.GcOrphanedSplits` | crates/bluedb-fts/src/gc.rs:73-97 | Deletes one by one, in the order of their names, and reports in that order, exactly the blobs the given manifest does not name |
| `FtsStore.StaleCollectExactly` | crates/bluedb-fts/src/gc.rs:61-68 | A collection with a manifest that may be stale leaves an index that opens exactly if that manifest names every split the current one does |
| `FtsStore.CollectRacesAppend` | crates/bluedb-fts/src/gc.rs:61-68 | With a manifest loaded before an append completed, the new split is deleted |
| `SplitNames.NamesDistinct` | crates/bluedb-fts/src/manifest.rs:59-63 | No two splits share a blob name |
| `SplitNames.NamesSortByNumber` | crates/bluedb-fts/src/writer.rs:92-109 | The padded names of the numbers below `n` sort like the numbers exactly up to a million |
| `SplitNames.LastNameExactly` | crates/bluedb-fts/src/writer.rs:106-106 | The name of a number sorts after those of all smaller ones exactly if it is below a million or all its digits but the last are nines |
| `SplitOrder.RunNumbers` | crates/bluedb-fts/src/writer.rs:92-109 | Over every run with crashes, the numbers given so far leave no gap, the next is at most one past them, and the manifest lists appended splits in ascending number |
| `SplitOrder.GenerationsCount` | crates/bluedb-fts/src/writer.rs:108-125 | Over every run with crashes the largest generation is the number of manifests written |
| `SplitOrder.NextNameIsLastExactly` | crates/bluedb-fts/src/writer.rs:89-109 | In every run the next name sorts after all before exactly if there is none, or the highest-numbered split is still listed and the next number fits as above |
| `SplitOrder.NamesSortByCreation` | crates/bluedb-fts/src/writer.rs:89-109 | The names of a run sort in the order of creation exactly if each split was written while the one before was still listed, and there are at most a million |
| `SplitOrder.FullCompactionStartsOver` | crates/bluedb-engine/src/fts.rs:155-161 | After a compaction of every split the next one is number zero again |
| `SplitOrder.CompactionBreaksOrder` | crates/bluedb-engine/src/fts.rs:155-161 | Two appends, a compaction of both and an append: the third split has the name of the first |
| `FtsStore.CollectAfterCrash` | crates/bluedb-fts/src/gc.rs:61-97 | After an operation cut at any point, collecting orphans leaves exactly the named splits with their contents, and the same live documents |
| `Decimal.ParseRender` | crates/bluedb-engine/src/fts_engine.rs:811-813 | Parsing the decimal rendering of a pk gives the pk |
| `Decimal.ParseEdges` | crates/bluedb-engine/src/fts_engine.rs:811-813 | A plus sign is accepted, numbers out of range are not, nor is a sign alone |
| `Decimal.ParseRejects` | crates/bluedb-engine/src/fts_engine.rs:811-813 | A text with anything but digits after its sign is no number |
| `LiveTier.LiveSegment.Index` | crates/bluedb-engine/src/live_segment.rs:138-156 | Supersedes the document of the pk and covers it; the tombstone set is left alone |
| `LiveTier.LiveSegment.Tombstone` | crates/bluedb-engine/src/live_segment.rs:161-181 | Removes the document, records the tombstone, covers the pk |
| `LiveTier.LiveSegment.SnapshotForSeal` | crates/bluedb-engine/src/live_segment.rs:279-343 | Closes the gate and lists each live, not tombstoned document once, after a commit and reload if needed |
| `LiveTier.LiveSegment.FinishSeal` | crates/bluedb-engine/src/live_segment.rs:347-370 | Clears documents, tombstones and covered set, and opens the gate |
| `LiveTier.LiveSegment.AbortSeal` | crates/bluedb-engine/src/live_segment.rs:374-376 | Opens the gate and changes nothing else |
| `Union.SearchLive` | crates/bluedb-engine/src/live_segment.rs:224-250 | Fetches limit + tombstones hits, drops the tombstoned ones and cuts at the limit |
| `Union.LiveSearchIsTop` | crates/bluedb-engine/src/live_segment.rs:224-226 | The over-fetch of the segment is enough: the result is the first `limit` of all hits that are not tombstoned |
| `Union.SortIsStable` | crates/bluedb-engine/src/fts_engine.rs:823-827 | The sort keeps the hits, puts the best first, and keeps the order of equal scores |
| `Union.UnionHits` | crates/bluedb-engine/src/fts_engine.rs:795-830 | The best hundred of each tier, the durable ones without covered pks, sorted by score and cut at a hundred |
| `Union.UnionDistinct` | crates/bluedb-engine/src/fts_engine.rs:785-794 | The mask makes the pks of both tiers disjoint |
| `Union.UnionRightExactly` | crates/bluedb-engine/src/fts_engine.rs:801-828 | The result is the best hundred of both tiers exactly unless the first uncovered durable hit past the fetched hundred has fewer than a hundred better ones |
| `Union.UnionAlwaysRight` | crates/bluedb-engine/src/fts_engine.rs:808-816 | It is so for all live hits exactly if every durable hit past the first hundred is covered, or none of the first hundred is |
| `Union.CoveredCrowdOut` | crates/bluedb-engine/src/fts_engine.rs:808-816 | A hundred covered hits and one uncovered: the search finds nothing |
| `LiveTier.VisibleIndex` | crates/bluedb-engine/src/live_segment.rs:138-156 | Indexing changes only its pk: to the new text, or to nothing while the pk is tombstoned |
| `LiveTier.UpdateRows` | crates/bluedb-engine/src/fts_engine.rs:678-687 | The durable update leaves other pks alone at each write and at the end holds exactly the snapshot |
| `LiveTier.DeleteRows` | crates/bluedb-engine/src/fts_engine.rs:689-694 | The durable delete hides exactly the tombstoned pks |
| `Seal.StepVisible` | crates/bluedb-engine/src/fts_engine.rs:662-708 | No snapshot, durable write, finish, abort or maintenance changes the visible rows; indexing and deleting change exactly their pk |
| `Seal.SealsInvisible` | crates/bluedb-engine/src/fts_engine.rs:662-708 | Any run of seals, aborted anywhere, retried, with maintenance between, leaves the view as it was |
| `Seal.RetryConverges` | crates/bluedb-engine/src/live_segment.rs:372-376 | After aborts, a seal that finishes leaves the durable index with exactly the rows visible before |
| `Seal.IndexedSurvivesExactly` | crates/bluedb-engine/src/live_segment.rs:138-156 | An indexed row is in the durable index after a finished seal exactly if its pk was not tombstoned since the last one |
| `Seal.ReindexedIsDropped` | crates/bluedb-engine/src/fts_engine.rs:662-708 | Delete, index again, seal: a concrete run after which the row is nowhere |
| `Seal.RunSeal` | crates/bluedb-engine/src/fts_engine.rs:672-706 | The seal as it runs, failing after any write or none, empties the segment on success, keeps it on failure, and changes no visible row |
| `Search.SortKeeps` | crates/bluedb-fts/src/search.rs:29-36 | Sorting by the hit order gives the ranking of the same hits |
| `Search.OverFetch` | crates/bluedb-fts/src/search.rs:203-207 | Fetching limit + tombstones hits leaves all live hits of a split or at least limit of them, in rank order |
| `Search.SameTop` | crates/bluedb-fts/src/search.rs:288-290 | A part that omits only hits outranked by `limit` of its own has the same first `limit` |
| `MergedSearch.Collect` | crates/bluedb-fts/src/search.rs:216-254 | The loop over splits collects the live candidates of what each returns |
| `MergedSearch.BestById` | crates/bluedb-fts/src/search.rs:259-278 | The loop computes the winner of each id, the earlier one where neither wins |
| `MergedSearch.WinnerIsOne` | crates/bluedb-fts/src/search.rs:180-184 | Of each id exactly one of the fetched candidates is kept: of the newest generation, there of the latest split, there of the highest score, and of equal ones the first |
| `SearchExact.FetchedWinnerWins` | crates/bluedb-fts/src/search.rs:180-184 | If enough is fetched, what is kept of an id is its newest copy among all live ones |
| `SearchLimits.StaleCopyReturned` | crates/bluedb-fts/src/search.rs:180-184 | If not, an older copy can be returned though a newer one is live: it was never fetched |
| `MergedSearch.SearchFiltered` | crates/bluedb-fts/src/search.rs:195-291 | The result is the first `limit` of the ranking of the winners among what was fetched |
| `SearchOrder.FilteredInOrder` | crates/bluedb-fts/src/search.rs:29-36 | Scores do not rise, and equal scores ascend by split, segment and document; if enough is fetched, the hits are of newest live copies and every newest live copy left out comes after the last hit |
| `SearchExact.SufficesIsRight` | crates/bluedb-fts/src/search.rs:186-190 | If enough is fetched, the result is the first `limit` of the newest live copies of all ids |
| `SearchLimits.SearchRightExactly` | crates/bluedb-fts/src/search.rs:180-190 | It is so for every scoring and every limit exactly if in each split with a newest copy, its other matches are at most the tombstones, and if that copy has older live ones elsewhere, all its matches are at most one more |
| `MergedSearch.FilteredIsComplete` | crates/bluedb-fts/src/search.rs:186-190 | For one scoring: with at most one live copy of an id, the result is exactly the first `limit` of all live hits |
| `MergedSearch.SupersededCopiesCrowdOut` | crates/bluedb-fts/src/search.rs:186-190 | Without it, not: a copy superseded but not tombstoned can crowd out a better hit |
| `MergedSearch.SearchPage` | crates/bluedb-fts/src/search.rs:683-717 | A page is cut from the merged ranking of offset + limit hits of each split |
| `MergedSearch.PageIsComplete` | crates/bluedb-fts/src/search.rs:673-717 | A page is the same slice of the full merge |
| `SearchOrder.PageInOrder` | crates/bluedb-fts/src/search.rs:673-717 | A page is the hits from offset on, at most limit of them, of all hits by score and, among equal scores, by split, segment and document |
| `FtsSearch.RunDistinct` | crates/bluedb-engine/src/fts.rs:155-399 | Over every allowed run each split has each id once |
| `FtsSearch.SearchIsComplete` | crates/bluedb-engine/src/fts.rs:220-243 | In every state an allowed run can reach, crashes included, the search returns the best live matches, and they are documents of the map |

## Left out

- SHA-256: `leaf_hash`, `node_hash` and the fingerprint are parameter functions; `Framing` has the bytes they hash, and `TamperEvidence` puts them together for leaves and nodes, for any hash of 32 bytes.
- Record encoding (postcard, JSON) and its decode errors: records are stored as values.
- SlateDB and object stores: batches are atomic, ordered, and made durable by a flush; a crash keeps a prefix of the log.
- Numeric widths of sizes, heads and generations: unbounded, where the code has `i64`, `usize` and `u64`; only keys, weights and pks are bounded.
- UTF-8 validity: names are any bytes, so the decode error for invalid UTF-8 is not modelled.
- Keys.BatchHolds: asks that the batch stays within 64-bit seqs, 256 levels and names below 2^32 bytes; `FlatChains.AppendFits` shows it for appends, not for the other writes.
- Reachable.Search: the pinned view is a value, so batches committed later cannot reach it by construction; reads on a replica, whose view may advance, are not modelled.
- GraphScan.DropGraph: names the record behind each key it finds, because a batch here lists records; the source deletes the key as it is.
- Store.Database.Flush: cannot fail, nor can a commit on the writer.
- Signed tree heads, the HTTP surface, authorization, high availability, and the caches.
- The split format, tantivy's index, query parsing and scoring: a split is a list of documents, a search result a ranked list with integer scores. A limit of zero is passed through.
- Parsing split names back to numbers, and ids that callers choose: an id is its kind and number.
- Size in bytes and time range of splits, retention by time or generation, and tombstones of the old format without generations (`Splits.Scoped` excludes them).
- Documents without a stored id, which make compaction and search fail.
- FtsStore.Index.GcOrphanedSplits: its deletes follow one another; writes between them are not modelled.
- FtsStore.Index.MaybeCompact: every write succeeds; a cut after any of them is a case of `FtsIndex.EveryWrite`.
- Union.UnionHits: each tier's matches are given as a ranked list, the durable one what `FtsSearch.SearchIsComplete` shows its search returns; scores that are not numbers, which the sort treats as equal, are not modelled.
- LiveTier.LiveSegment.Index: is atomic; the window in which a write has passed the gate check before a snapshot starts is not modelled, nor are blocked writers.
- Searches that load manifest and tombstones at different moments.
- The SQL, LIKE and `@@` rewrites, the collections API, the ledger, CDC and the lakehouse.
