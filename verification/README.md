# MossyMesh protocol proofs

MossyMesh is a Rust workspace of in-memory protocol libraries for offline mesh networks. This project
models the ones with deep invariants and proves what they are for. Every module carries the name of the
component it models:

- **Merkle-Patricia ledger**: `Trie`, `NodeHash`, `TrieMerge`, `Proof` (trees as values), `MemoNode`,
  `NodeOps`, `NodeReads` (nodes as objects with a hash cell, explicit-stack loops), `Ledger` (the ledger class
  and whole histories), `Budget` (what the size budget admits). Canonical shape, uniqueness of the tree for its contents, proof soundness and
  completeness, merge laws, size budget.
- **Replicated document**: `CrdtState`, `CrdtWalk`, `CrdtSync`, `CrdtDelta`, `CrdtDoc`, `CrdtLanding`,
  `CrdtTyping`, `CrdtOrder`, `CrdtHistory`, `CrdtVectors`, `CrdtNumbers`. Convergence for every order and repetition, termination and
  exactness of the tree walk, merge laws, delta sync, what edits do to the text, whole histories and runs of a
  mesh of replicas.
- **Kademlia**: `XorMetric`, `Ranking`, `Routing`, `Probing`, `FindNode`, `Network`. Bucket invariants, exactness of the
  iterative lookup (section 2.3 of the Kademlia paper), and when a lookup must reach its target.
- **Alpha-beta search**: `Search`, over an abstract game given by its rules.
- **Paged KV table**: `Recency` (a bounded recency map), `PagePool`, `Paging`, `PageRuns`, `TokenWindow`, `WindowRuns`.
- **Credits**: `HashedTimelock`, `Credits`. **Market**: `Amm`, `Twamm`, `Bridge`.
- **LoRa and BLE framing**: `Crc`, `CrcDivision`, `CrcCheck` (polynomial of section 2 of ITU-T V.41), `Fragments`, `BleRelay`.
- **Binary FEN**: `Fen`, `FenCanonical`, `FenLayout` (FEN is section 16.1 of the PGN specification).

`Common` holds the integer widths and the two wrapper types. Where the source mutates an object, the model is
a class whose methods are proved against a function on values; the theorems are about those functions and
about whole runs of them. Hash functions, SHA-256 and message-id derivation are parameters; statements that
need it carry the hypothesis that the tagged hash has no collisions. Hash-map iteration order is left open.

## Where code and documentation disagree

The model follows the code.

- Trie merge is documented to keep the lexical maximum of conflicting values (consensus/src/trie.rs:415-433);
  except between two single leaves, remote values overwrite. `TrieMerge.MaximumKeptIff` gives the exact
  condition: both nodes are leaves, or no shared key has a smaller remote value. `TrieMerge.MergeCommutes` says
  exactly when direction does not matter, `TrieMerge.DirectionDecides` gives an instance.
- `verify_proof` is documented to authenticate the proof's key, but never reads it: `Proof.KeyFieldUnchecked`,
  and `Proof.ForeignKeyAccepted` for an instance.
- `insert_char` need not land at its index, and `text_len` counts items the text does not show:
  `CrdtLanding.InsertCharLands` and `CrdtLanding.TextLenIsTextLength` give the exact conditions,
  `CrdtTyping.InsertLandsElsewhere` and `CrdtTyping.OrphanCounted` instances.
- A version vector with a gap makes `delta_since` omit operations: `CrdtDelta.DeltaEqualsMerge` (exact condition),
  `CrdtDelta.GapLosesAnInsert` (an instance); in runs without gaps it never does (`CrdtVectors.MeshDeltaIsMerge`).
- `FindNodeResult.rounds` is documented as the number of RPCs but counts rounds of up to three RPCs. For a table
  with at least two contacts the two agree if and only if k is one: `Network.RoundsAreRpcsIff`;
  `Network.RoundsAreRpcsOneByOne` covers every table, `Network.RoundsAreNotRpcs` is an instance.
- The spread cap saturates: `Twamm.CapIsExactIff` says for which references it is exact.
- A bridge that fails after some slices has moved the pool without debiting the account:
  `Bridge.BridgeFailsIff` says for which pools, amounts and slice counts, `Bridge.FewSlicesFailIff` and
  `Bridge.GuardedBridgeSucceeds` give simple cases, `Bridge.FailedBridgeMovesPool` an instance.
- A claim, refund or cancel whose payout overflows settles the escrow and loses its credits:
  `Credits.SettlementLosesCreditIff` (exact condition), `Credits.LostClaim` and `Credits.LostRefund` (instances).
- The fragment count is truncated to 16 bits: `Fragments.RoundTripIff`, `Fragments.TruncatedCountLosesData`. BLE
  payloads beyond 4080 bytes are cut: `BleRelay.CompletesWithPayload`. A late repeat blocks a BLE reassembler:
  `BleRelay.LateRepeatLocksOut`.
- Scores that announce a mate are tapered on the way up. When only checkmates score in the mate range, the score
  of a root that is searched at all is the minimax score if and only if that announces no mate
  (`Search.NegamaxSearch`): a mate in one, one ply deep, scores 29998 instead of 29999 (`Search.MateInOne`).

## Model

| member | source | states |
|---|---|---|
| `Trie.BytesToNibblesInjective` | consensus/src/trie.rs:32-39 | different byte keys have different nibble paths |
| `Trie.NibblesOfByte` | consensus/src/trie.rs:32-39 | each byte gives its high nibble, then its low one |
| `Trie.InsertCanonical` | consensus/src/trie.rs:495-681 | insertion on nibble keys never fails and keeps the canonical shape: every extension has a non-empty path over a branch, every branch at least two entries |
| `Trie.InsertLookup` | consensus/src/trie.rs:495-724 | insertion changes the lookup of exactly one key |
| `Trie.SplitLeafCanonical` | consensus/src/trie.rs:511-575 | splitting a leaf against a diverging key gives a canonical tree |
| `Trie.SplitLeafLookup` | consensus/src/trie.rs:511-575 | a split leaf answers its two keys and no others |
| `Trie.SplitExtensionCanonical` | consensus/src/trie.rs:577-643 | splitting an extension keeps the canonical shape |
| `Trie.SplitExtensionLookup` | consensus/src/trie.rs:577-643 | a split extension answers the new key and everything it answered before |
| `Trie.DivergingKeys` | consensus/src/trie.rs:47-70 | a canonical branch stores two keys that part at their first nibble |
| `Trie.CanonicalUnique` | consensus/src/trie.rs:495-724 | two canonical trees with the same lookups are structurally equal |
| `NodeHash.HashInjective` | consensus/src/ipld_codec.rs:57-101 | if the tagged hash has no collisions, equal node hashes mean equal subtrees |
| `TrieMerge.LeavesSound` | consensus/src/trie.rs:454-489 | every collected entry is stored under its path |
| `TrieMerge.LeavesComplete` | consensus/src/trie.rs:454-489 | every stored key is collected |
| `TrieMerge.InsertAllLookup` | consensus/src/trie.rs:435-451 | re-inserting a set of entries gives those keys those values and leaves all others alone |
| `TrieMerge.MergeCanonical` | consensus/src/trie.rs:409-452 | merging never fails and keeps the canonical shape |
| `TrieMerge.MergeLookup` | consensus/src/trie.rs:409-452 | after a merge every key has the remote value if there is one, except that two leaves on one path keep the lexically larger value |
| `TrieMerge.BytesLessIsLexical` | consensus/src/trie.rs:417-433 | values are compared by their first different byte, a proper prefix being smaller |
| `TrieMerge.MergeCommutes` | consensus/src/trie.rs:409-452 | the two directions of a merge give the same trie if and only if the tries agree on shared keys or both are single leaves |
| `TrieMerge.MaximumKeptIff` | consensus/src/trie.rs:409-452 | after a merge every shared key holds a value no smaller than either side's if and only if both are single leaves or no shared key has a smaller remote value |
| `TrieMerge.DirectionDecides` | consensus/src/trie.rs:409-452 | an instance: two tries of two keys that disagree on one, where each direction keeps the value of the other side |
| `TrieMerge.EstimateCoversFootprint` | consensus/src/trie.rs:375-407 | the size estimate covers node overheads, paths and values |
| `TrieMerge.InsertFootprint` | consensus/src/trie.rs:220-262 | an insertion adds at most four node overheads, the key and the value; an update changes the footprint by exactly the difference of the values |
| `Proof.VerifyProof` | consensus/src/proof.rs:70-113 | the verification loop computes the specified verdict, error cases included |
| `Proof.StepsLeadToSubtree` | consensus/src/proof.rs:70-113 | steps that hash to a node lead to the subtree whose hash they started from |
| `Proof.ProofSound` | consensus/src/proof.rs:70-113 | a proof accepted under a root has its value stored at the nibble path its steps and terminal spell |
| `Proof.KeyFieldUnchecked` | consensus/src/proof.rs:70-113 | the verdict ignores the key field; comparing the spelled path with the key makes an accepted proof bind that key |
| `Proof.ForeignKeyAccepted` | consensus/src/proof.rs:70-113 | an instance: in a one-key ledger the key's proof is accepted under any other key's name |
| `Proof.TrailCorrect` | consensus/src/trie.rs:726-838 | a trail exists exactly for stored keys, carries the value, spells the key and hashes to the root |
| `Proof.ProofComplete` | consensus/src/trie.rs:276-323 | `prove` succeeds exactly when `get` does, carries that value and verifies against the current root |
| `Proof.PresentInOrder` | consensus/src/trie.rs:292-313 | the sibling list names every present slot of a branch but the one on the path, in slot order |
| `MemoNode.FilledCellMeansMemoised` | consensus/src/trie.rs:79-172 | a node with a filled cell has every node below it filled |
| `MemoNode.SubtreeHash` | consensus/src/trie.rs:160-172 | a memoised or finished node yields the plain recursive hash of its subtree; it is missing only if the node is neither |
| `MemoNode.EmitHash` | consensus/src/trie.rs:113-137 | hashing a node whose children are hashed never takes the missing-hash path |
| `MemoNode.ComputeHash` | consensus/src/trie.rs:79-147 | the explicit-stack memoised walk terminates, equals the recursive hash, keeps filled cells and leaves every node memoised |
| `NodeOps.GetFrom` | consensus/src/trie.rs:683-724 | the iterative descent computes the recursive lookup |
| `NodeOps.InsertLeafNode` | consensus/src/trie.rs:511-575 | the node-building split represents the specified tree, touching no old cell |
| `NodeOps.InsertExtensionNode` | consensus/src/trie.rs:577-643 | likewise for extensions |
| `NodeOps.InsertBranchNode` | consensus/src/trie.rs:645-681 | likewise for branches |
| `NodeOps.InsertIntoNode` | consensus/src/trie.rs:495-509 | insertion builds the specified tree out of old subtrees with their cells and new nodes with empty ones |
| `NodeOps.CollectLeaves` | consensus/src/trie.rs:454-489 | the explicit-stack walk returns the leaves in nibble order |
| `NodeOps.MergeNodesAt` | consensus/src/trie.rs:409-452 | merging builds the specified tree from local and new nodes and keeps both sides' cells correct |
| `NodeReads.BuildProof` | consensus/src/trie.rs:726-838 | the frame-stack descent computes the recursive trail |
| `NodeReads.EstimateNodeSize` | consensus/src/trie.rs:375-407 | the explicit-stack walk computes the recursive estimate, saturating at the word size |
| `Ledger.InsertKeepsState` | consensus/src/trie.rs:220-262 | a successful insert keeps the tree canonical and the size within budget and changes one key; it fails only for an over-long key or an exceeded budget |
| `Ledger.MergeKeepsState` | consensus/src/trie.rs:346-372 | a successful merge keeps the tree canonical and the size within budget; it fails only on the budget |
| `Ledger.MergeValues` | consensus/src/trie.rs:346-372 | a successful merge gives every key its merged value |
| `Ledger.RunOk` | consensus/src/trie.rs:220-372 | over every history of inserts and merges the tree is canonical and the recorded size covers its footprint and stays within MAX_LEDGER_SIZE |
| `Budget.InsertDoneIff` | consensus/src/trie.rs:220-262 | an insertion succeeds if and only if the key has at most 512 bytes and the recorded size stays within 10,000,000, a new key adding 1024 bytes, two per key byte and the value, an update the difference of the values; refused ones report the over-long key, else the budget |
| `Budget.AffordableRun` | consensus/src/trie.rs:220-274 | over every run of insertions whose costs add up to at most 10,000,000, with keys of at most 512 bytes, none is refused, the recorded size is at most that sum, and the ledger answers like a map |
| `Budget.EstimateInFigures` | consensus/src/trie.rs:375-407 | the estimate is 256 bytes for each node and two for each byte of its path and value |
| `Budget.MergeDoneIff` | consensus/src/trie.rs:346-372 | a merge of different ledgers succeeds if and only if the estimate of the merged tree is at most 10,000,000, and records that estimate |
| `Budget.AffordableMerge` | consensus/src/trie.rs:346-452 | a merge is never refused if twice the local size and the cost of the remote entries is within the budget |
| `Ledger.RunStoresByteKeys` | consensus/src/trie.rs:220-372 | over every history only whole-byte keys within the length bound are stored |
| `Ledger.HistoryIndependence` | consensus/src/trie.rs:205-274 | two histories that answer every `get` alike hold the same tree and the same root hash |
| `Ledger.MergeEitherDirection` | consensus/src/trie.rs:346-372 | if shared keys agree or both sides are single leaves, merging in the two directions gives the same root or the same refusal; when both directions succeed, the roots are equal in no other case |
| `Ledger.MergeIsUnion` | consensus/src/trie.rs:346-372 | on ledgers that agree on shared keys a merge is the union |
| `Ledger.MerklePatriciaTrie.Get` | consensus/src/trie.rs:264-274 | `get` answers the value stored for the key |
| `Ledger.MerklePatriciaTrie.InsertKey` | consensus/src/trie.rs:220-262 | `insert` reaches the specified state, or fails and leaves the ledger unchanged |
| `Ledger.MerklePatriciaTrie.Prove` | consensus/src/trie.rs:276-323 | `prove` returns the specified proof |
| `Ledger.MerklePatriciaTrie.MergeWith` | consensus/src/trie.rs:346-372 | `merge_with` reaches the specified state, or fails and leaves the ledger unchanged; the remote never changes |
| `CrdtState.IntegrateKeepsLinks` | consensus/src/crdt.rs:319-396 | any operation, whatever its ids and parents, keeps each item listed exactly once under its parent |
| `CrdtState.IntegrateDescribed` | consensus/src/crdt.rs:319-396 | integrating an operation adds exactly it to the set of operations the state describes, whether applied, held back or ignored |
| `CrdtState.AbsorbStaleWrites` | consensus/src/crdt.rs:372-396 | map writes older than a kept write to the same key can be left out without a trace |
| `CrdtOrder.RepeatChangesNothing` | consensus/src/crdt.rs:315-395 | integrating an operation a second time changes nothing at all |
| `CrdtState.DescriptionUnique` | consensus/src/crdt.rs:319-396 | the set of operations determines items, map, deletes and children |
| `CrdtWalk.PathUnique` | consensus/src/crdt.rs:237-246 | an item is reached from the root by one path only |
| `CrdtWalk.PathDistinct` | consensus/src/crdt.rs:237-246 | a path from the root never repeats an id, even when parents elsewhere form a cycle |
| `CrdtWalk.PathBounded` | consensus/src/crdt.rs:237-246 | the walk is never deeper than the number of items |
| `CrdtWalk.WalkSound` | consensus/src/crdt.rs:237-246 | everything the walk visits hangs below where it started |
| `CrdtWalk.WalkComplete` | consensus/src/crdt.rs:237-246 | everything below where it started is visited |
| `CrdtWalk.WalkVisitsReachableOnce` | consensus/src/crdt.rs:237-246 | in every document the walk from the root visits each root-reachable item exactly once and nothing else |
| `CrdtOrder.OrderIsByPaths` | consensus/src/crdt.rs:222-258 | in every document one item comes before another if and only if it is above it, or where their paths from the root part it takes the id with the larger agent, or the same agent and the larger number |
| `CrdtSync.IntegrateNeverReorders` | consensus/src/crdt.rs:237-371 | integrating any operation leaves the old document order a subsequence of the new one |
| `CrdtSync.Convergence` | consensus/src/crdt.rs:319-421 | replicas that integrate the same uniquely named operations in any order, with any repetitions, show the same text and map |
| `CrdtOrder.LastWriterWins` | consensus/src/crdt.rs:328-395 | a key shows the value of the write with the latest wall tick, and among those of the largest agent; a key that was never written shows nothing |
| `CrdtOrder.TieGoesToLargerAgent` | consensus/src/crdt.rs:328-421 | of two first writes to a key the larger agent's shows after a merge in either direction |
| `CrdtSync.IntegrateHolds` | consensus/src/crdt.rs:319-396 | the log keeps covering all operations held, although ignored and stale ones are dropped |
| `CrdtSync.MergeHolds` | consensus/src/crdt.rs:417-421 | a merge through the log adds all operations the other document holds |
| `CrdtSync.MergeCommutes` | consensus/src/crdt.rs:417-421 | both directions of a merge show the same |
| `CrdtSync.MergeIdempotent` | consensus/src/crdt.rs:417-421 | merging twice or with oneself shows nothing new |
| `CrdtSync.MergeAssociates` | consensus/src/crdt.rs:417-421 | the grouping of merges does not show |
| `CrdtDelta.CompactMapOps` | consensus/src/crdt.rs:478-497 | compaction keeps sequence operations in order and the newest write per key |
| `CrdtDelta.DeltaOps` | consensus/src/crdt.rs:426-456 | the delta is the compaction of the log entries the remote vectors do not cover |
| `CrdtDelta.DeltaContents` | consensus/src/crdt.rs:426-497 | a delta holds uncovered entries only and misses only writes it supersedes |
| `CrdtDelta.DeltaEqualsMerge` | consensus/src/crdt.rs:426-468 | applying the delta equals merging the whole log if and only if every covered operation is already applied or superseded at the receiver |
| `CrdtDelta.GapLosesAnInsert` | consensus/src/crdt.rs:405-456 | a vector with a gap makes the delta miss an insert |
| `CrdtDoc.Doc.IntegrateOp` | consensus/src/crdt.rs:319-396 | `integrate` reaches the specified state |
| `CrdtDoc.Doc.ApplyDelta` | consensus/src/crdt.rs:463-468 | `apply_delta` integrates the operations in order |
| `CrdtDoc.Doc.Merge` | consensus/src/crdt.rs:417-421 | `merge` integrates the remote log in order |
| `CrdtDoc.Doc.DeltaSince` | consensus/src/crdt.rs:426-456 | `delta_since` returns a delta for the vectors |
| `CrdtDoc.Doc.InsertChar` | consensus/src/crdt.rs:260-276 | `insert_char` hangs a fresh id below the visible item before the index |
| `CrdtDoc.Doc.DeleteChar` | consensus/src/crdt.rs:288-295 | `delete_char` issues the operation and reaches the state that `CrdtTyping.DeleteCharRemoves` describes |
| `CrdtDoc.Doc.Write` | consensus/src/crdt.rs:297-316 | `map_set` and `map_delete` write at a new logical time |
| `CrdtDoc.LocalWriteWins` | consensus/src/crdt.rs:228-316 | a local write is newer than everything seen and takes effect |
| `CrdtDoc.LocalIdsAreNew` | consensus/src/crdt.rs:222-295 | a locally allocated id clashes with nothing seen |
| `CrdtDoc.IntegrateKeepsCounters` | consensus/src/crdt.rs:319-411 | the local counters stay ahead of every operation seen |
| `CrdtLanding.InsertCharLands` | consensus/src/crdt.rs:260-276 | in every document an insertion lands at the requested index, alone, if and only if its id is unused, no delete and no live item waits for that id, and no larger sibling shows text before it |
| `CrdtLanding.SingleAgentInsertLands` | consensus/src/crdt.rs:260-276 | with all ids below the next local one every insertion lands at its index |
| `CrdtLanding.TextLenIsTextLength` | consensus/src/crdt.rs:182-195 | `text_len` is the length of the text if and only if every live item is reachable |
| `CrdtTyping.DeleteCharRemoves` | consensus/src/crdt.rs:288-295 | in every document a deletion removes exactly the indexed visible item, if its own id is new, and nothing otherwise |
| `CrdtTyping.SingleAgentText` | consensus/src/crdt.rs:260-295 | every run of one agent's inserts and deletes shows the string the same edits give |
| `CrdtTyping.InsertLandsElsewhere` | consensus/src/crdt.rs:260-276 | an instance: next to a larger agent's character an insertion at index 0 lands at index 1 |
| `CrdtTyping.OrphanCounted` | consensus/src/crdt.rs:192-195 | an instance: an item without its parent is counted but not shown |
| `CrdtHistory.HistoryHolds` | consensus/src/crdt.rs:260-468 | after every history of local edits, received operations, deltas and merges a replica holds exactly its operations, if these are uniquely named, and is ahead of them |
| `CrdtHistory.HistoriesConverge` | consensus/src/crdt.rs:260-468 | histories with the same uniquely named operations show the same |
| `CrdtHistory.HistoryMergeCommutes` | consensus/src/crdt.rs:417-421 | merging any two histories shows the same in both directions |
| `CrdtHistory.HistoryMergeAssociates` | consensus/src/crdt.rs:417-421 | the grouping of merges of any three histories does not show |
| `CrdtHistory.HistoryMergeIdempotent` | consensus/src/crdt.rs:417-421 | merging a history twice or with itself shows nothing new |
| `CrdtHistory.HistoryDelta` | consensus/src/crdt.rs:426-468 | between any two histories a delta does what a merge does if and only if the receiver's vectors are honest |
| `CrdtVectors.HistoryLogCovered` | consensus/src/crdt.rs:340-412 | after every history a document's vectors cover everything it logs |
| `CrdtVectors.MergedTruthful` | consensus/src/crdt.rs:417-468 | taking in what amounts to a merge leaves vectors that cover only operations applied or outlived |
| `CrdtVectors.GaplessRunOk` | consensus/src/crdt.rs:222-468 | in every run of a mesh where operations travel by merges, by deltas for the receiver's own vectors, or singly after all earlier ones of their author, every replica's vectors cover only operations it has applied or outlived |
| `CrdtVectors.MeshDeltaIsMerge` | consensus/src/crdt.rs:426-468 | so in every such run every pair's vectors are honest and a delta does what a merge does |
| `CrdtHistory.HistoryWalk` | consensus/src/crdt.rs:237-246 | in every document any history reaches, missing parents and cycles included, the walk visits each root-reachable item exactly once |
| `CrdtHistory.RunOk` | consensus/src/crdt.rs:222-468 | over every run of a mesh of replicas with different agent numbers all operations stay uniquely named, refer to inserted items and are held by their authors |
| `CrdtHistory.MeshConverges` | consensus/src/crdt.rs:222-468 | in every run of a mesh replicas that hold the same operations show the same |
| `CrdtHistory.MeshLastWriterWins` | consensus/src/crdt.rs:222-468 | in every run a replica shows under each key the value of the last writer among the operations it holds |
| `CrdtNumbers.NumbersGivenOut` | consensus/src/crdt.rs:217-295 | in every run the sequence operations of an agent carry exactly the numbers 1, 2, 3, ... below its counter |
| `CrdtHistory.MergingBothWaysConverges` | consensus/src/crdt.rs:417-421 | in every run two replicas that merge each other show the same afterwards |
| `CrdtHistory.InsertLandsInMesh` | consensus/src/crdt.rs:222-276 | in every run an insertion lands at its index if and only if no larger sibling shows text before it |
| `XorMetric.XorDistance` | mesh-transport/src/kademlia_routing.rs:42-48 | the byte loop computes the bitwise distance |
| `XorMetric.LexIsNumeric` | mesh-transport/src/kademlia_routing.rs:50-54 | byte-wise comparison orders distances as big-endian numbers |
| `XorMetric.DistInjective` | mesh-transport/src/kademlia_routing.rs:40-54 | different ids are at different distances, so rankings have no ties |
| `XorMetric.MetricLaws` | mesh-transport/src/kademlia_routing.rs:40-48 | the distance is symmetric, and zero only to oneself |
| `XorMetric.IsCloser` | mesh-transport/src/kademlia_routing.rs:56-61 | `is_closer` compares the distances |
| `XorMetric.CalculateBucketIndex` | mesh-transport/src/kademlia_routing.rs:65-80 | the leading-zero loop computes the bucket index |
| `XorMetric.TopBit` | mesh-transport/src/kademlia_routing.rs:65-80 | leading zeros place a distance between two neighbouring powers of two |
| `XorMetric.BucketIndexIsLog` | mesh-transport/src/kademlia_routing.rs:63-86 | the bucket index is the floor of the base-2 logarithm of the distance; the own id goes to bucket 0 |
| `XorMetric.SameBucketIsCloser` | mesh-transport/src/kademlia_routing.rs:40-86 | a contact in the target's own bucket is strictly closer to the target than the table's owner |
| `Ranking.SortByDistance` | mesh-transport/src/kademlia_routing.rs:233-246 | sorting ranks strictly by distance and loses nobody |
| `Ranking.TakeIsNearest` | mesh-transport/src/kademlia_routing.rs:233-246 | the first k of a full ranking are the k nearest |
| `Ranking.NearestUnique` | mesh-transport/src/kademlia_routing.rs:233-246 | the k nearest ids are determined by the set |
| `Ranking.NearestOfMore` | mesh-transport/src/kademlia_routing.rs:381-389 | truncating the shortlist each round loses nothing: the k nearest of kept and new are the k nearest of all |
| `Routing.InsertKeepsTable` | mesh-transport/src/kademlia_routing.rs:161-208 | every insertion keeps contacts filed by log-distance, unique, not the own id, at most k per bucket |
| `Routing.InsertKeepsOrder` | mesh-transport/src/kademlia_routing.rs:150-208 | until the tick counter wraps, buckets stay ordered oldest first |
| `Routing.RunOldestFirst` | mesh-transport/src/kademlia_routing.rs:150-208 | over every run from an empty table, tick wrap-around included, each bucket lists its contacts in the order in which they were last stored |
| `Routing.OnlyDeadHeadsAreForgotten` | mesh-transport/src/kademlia_routing.rs:161-208 | a contact is forgotten only as the oldest of a full bucket, found dead, in favour of the new one |
| `Routing.KnownAfterInsert` | mesh-transport/src/kademlia_routing.rs:161-208 | exactly which ids an insertion leaves known: a contact that was known, or whose bucket has room, is stored; any other if and only if the bucket was never probed or last probed at least 32 ticks ago and its oldest contact answers dead, and then in its place |
| `Probing.RunStamps` | mesh-transport/src/kademlia_routing.rs:161-208 | over every run from an empty table the tick counter counts insertions and each bucket remembers the tick of its last probe |
| `Probing.NewcomersAreProbed` | mesh-transport/src/kademlia_routing.rs:161-208 | after every run from an empty table a newcomer to a full bucket is taken in if and only if the bucket never probed or did so at least 32 insertions ago, and its oldest contact answers dead |
| `Probing.FirstNewcomerIsProbed` | mesh-transport/src/kademlia_routing.rs:193-207 | the first newcomer to a full bucket is decided by the probe alone |
| `Routing.AllContacts` | mesh-transport/src/kademlia_routing.rs:233-254 | listing the buckets lists every known id once, never the own id |
| `Routing.RoutingTable.InsertWithProbe` | mesh-transport/src/kademlia_routing.rs:161-208 | `insert_with_probe` reaches the specified table and reports a change if and only if the contact is known afterwards |
| `Routing.RoutingTable.Get` | mesh-transport/src/kademlia_routing.rs:227-230 | `get` finds a contact exactly when the table knows the id |
| `Routing.RoutingTable.Closest` | mesh-transport/src/kademlia_routing.rs:233-246 | `closest` returns exactly the nearest contacts, nearest first |
| `FindNode.Values` | mesh-transport/src/kademlia_routing.rs:344-348 | the unqueried contacts of the shortlist, whatever order the map gives |
| `FindNode.BestDistance` | mesh-transport/src/kademlia_routing.rs:360-364 | the least distance on the shortlist, or all ones |
| `FindNode.AddReplies` | mesh-transport/src/kademlia_routing.rs:369-378 | a reply is folded in with the own id skipped, known contacts kept, and the first contact of each new id taken |
| `FindNode.AskPeers` | mesh-transport/src/kademlia_routing.rs:366-379 | one round's queries: shortlist, queried set and `found_exact` stay in step with all replies |
| `FindNode.Seed` | mesh-transport/src/kademlia_routing.rs:323-339 | the lookup starts from the k nearest of the local table |
| `FindNode.IterativeFindNode` | mesh-transport/src/kademlia_routing.rs:318-434 | the lookup returns exactly the k nearest ids of the table and all replies, each contact as first heard; `found_exact` holds if and only if the target is among them; below the round cap every returned contact was queried; each round asks the three nearest unasked ones of the k nearest known; `rounds` counts these rounds, or is one if nobody is asked |
| `FindNode.ImprovedGoesOn` | mesh-transport/src/kademlia_routing.rs:391-417 | a round that improved the best distance leaves somebody to ask, so the lookup goes on |
| `FindNode.HeardMeansKnown` | mesh-transport/src/kademlia_routing.rs:318-379 | there is a first-heard contact for exactly the known ids |
| `FindNode.PassedStaysOut` | mesh-transport/src/kademlia_routing.rs:381-389 | a known contact that was truncated away never competes again |
| `Network.ProgressReachesTarget` | mesh-transport/src/kademlia_routing.rs:318-434 | if the own table and every queried peer offer somebody closer than themselves, a lookup below the cap reaches the target |
| `Network.SomebodyIsAsked` | mesh-transport/src/kademlia_routing.rs:336-358 | a lookup issues no RPC if and only if the table is empty |
| `Network.RoundsInFigures` | mesh-transport/src/kademlia_routing.rs:318-358 | a round asks one to three peers, the first one as many as the table, k and three allow |
| `Network.LookupInFigures` | mesh-transport/src/kademlia_routing.rs:318-434 | a lookup takes at most 257 rounds, and one of at most 256 has asked everybody it returns |
| `Network.RoundsAreRpcsOneByOne` | mesh-transport/src/kademlia_routing.rs:309-432 | in every lookup `rounds` is the number of RPCs if and only if the table is not empty and every round asks one peer |
| `Network.RoundsAreRpcsIff` | mesh-transport/src/kademlia_routing.rs:309-432 | for a table that knows at least two contacts, whatever the peers answer, `rounds` is the number of RPCs if and only if k is one, and smaller otherwise |
| `Network.RoundsAreNotRpcs` | mesh-transport/src/kademlia_routing.rs:309-432 | an instance: with three silent contacts and room for them every lookup issues three RPCs and reports one round |
| `Network.RoundGainsABit` | mesh-transport/src/kademlia_routing.rs:318-399 | in a well-connected network every round brings the best known contact at least one bit closer |
| `Network.AskedAreMembers` | mesh-transport/src/kademlia_routing.rs:294-300 | lookups over answering tables stay inside the network |
| `Network.MembersFindEachOther` | mesh-transport/src/kademlia_routing.rs:294-434 | in a network where every member has a contact in the bucket of every other, every lookup, capped or not, finds its target |
| `Search.TaperAnswers` | engine/src/search.rs:87-92 | tapering moves a score only within what counts as the same mate announcement |
| `Search.TryMove` | engine/src/search.rs:67-84 | one more move, answered in the current window, keeps what is known about the best score and move |
| `Search.AllTried` | engine/src/search.rs:67-84 | after the loop, cut off or not, the best score answers for the minimax score in the window |
| `Search.QuietScore` | engine/src/search.rs:46-63 | without checkmates in sight minimax scores stay outside the mate range |
| `Search.CalmScore` | engine/src/search.rs:46-63 | if only checkmates score in the mate range, a minimax score is that of a checkmate or outside the range |
| `Search.RootMove` | engine/src/search.rs:25-36 | at the root a score that names no mate is the minimax score, first reached by the reported move |
| `Search.MateInOne` | engine/src/search.rs:87-92 | a mate in one is worth 29999 to plain minimax and 29998 tapered |
| `Search.TaperInFigures` | engine/src/search.rs:87-92 | a score of more than 29000 points for either side moves one point towards zero, no other moves |
| `Search.DrawInOne` | engine/src/search.rs:46-63 | a move to a drawn position is worth nothing to either side |
| `Search.Searcher.SearchMoves` | engine/src/search.rs:64-84 | the move loop with alpha updates and cutoffs, position restored, nodes within the unpruned count |
| `Search.Searcher.Negamax` | engine/src/search.rs:38-95 | for every game and window the fail-soft result answers for the minimax score; the position is restored; no more nodes than unpruned |
| `Search.NegamaxSearch` | engine/src/search.rs:25-36 | for every game, to a depth of at most 64, the score is the minimax score up to mate distance and the move keeps it unless the game is lost; without a mate announced, or without checkmates and with horizon scores within the mate bound, the score is exact and the move is the first best one; if only checkmates score in the mate range, the score is exact if and only if the root is terminal or the minimax score announces no mate; one ply deep the score is the tapered minimax score |
| `Recency.StepOk` | ai/src/paged_attention.rs:229-382 | every operation keeps a bounded recency map |
| `Recency.RecentlyUsedIsRetained` | ai/src/paged_attention.rs:251-364 | a slot keeps its last bytes until as many other slots as there are pages have been used |
| `Recency.AppendsSlide` | ai/src/paged_attention.rs:522-533 | writing slots 0, 1, 2, ... keeps exactly the last ones that fit |
| `PagePool.DetachOk` | ai/src/paged_attention.rs:235-241 | taking a slot's page puts it in limbo and removes the slot from the view |
| `PagePool.ReleaseOk` | ai/src/paged_attention.rs:366-374 | releasing a page in limbo puts it on the free list and changes nothing visible |
| `PagePool.PopFreeOk` | ai/src/paged_attention.rs:326-332 | a reused page is zeroed and unseen until mapped |
| `PagePool.GrowOk` | ai/src/paged_attention.rs:333-346 | a new page has an unused id |
| `PagePool.AttachOk` | ai/src/paged_attention.rs:242-245 | mapping a page in limbo shows its bytes in the slot |
| `PagePool.TouchOk` | ai/src/paged_attention.rs:376-382 | a touched slot becomes the youngest |
| `Paging.PagesAreMappedOrFree` | ai/src/paged_attention.rs:110-141 | pool pages are exactly the mapped ones plus the free ones |
| `Paging.VictimSlot` | ai/src/paged_attention.rs:347-364 | the page with the least stamp belongs to the least recently used slot until the clock saturates |
| `Paging.PageTable.AllocPage` | ai/src/paged_attention.rs:325-364 | allocation evicts only when every page is mapped, and then one slot: the least recently used until the clock saturates |
| `Paging.PageTable.MapSlot` | ai/src/paged_attention.rs:229-248 | `map_slot` refines the recency map; remapping never evicts |
| `Paging.PageTable.WriteSlot` | ai/src/paged_attention.rs:251-271 | `write_slot` refines the recency map; the missing-page error is unreachable |
| `Paging.PageTable.ReadSlot` | ai/src/paged_attention.rs:274-299 | `read_slot` returns the bytes last written since mapping and makes the slot the youngest |
| `Paging.PageTable.UnmapSlot` | ai/src/paged_attention.rs:302-313 | `unmap_slot` removes exactly that slot |
| `PageRuns.RunOps` | ai/src/paged_attention.rs:229-382 | every run of operations, while the clock has room, leaves the recency map of the accepted ones and answers each read from it, so every eviction takes the least recently used slot |
| `PageRuns.ReadReturnsLastWrite` | ai/src/paged_attention.rs:251-299 | a read returns what was last written, as long as fewer other slots than pages have been used since |
| `TokenWindow.AppendHolds` | ai/src/paged_attention.rs:522-533 | appending keeps the mapped slots equal to the tokens, and with a page for each token loses none |
| `TokenWindow.PagedAttention.AppendToken` | ai/src/paged_attention.rs:522-533 | `append_token` adds one token and evicts what the recency map says |
| `TokenWindow.AppendAll` | ai/src/paged_attention.rs:522-533 | every run of appends keeps exactly the last tokens that fit |
| `TokenWindow.PagedAttention.Gather` | ai/src/paged_attention.rs:546-558 | `gather` succeeds if and only if all tokens asked for are mapped and returns their concatenation; with enough pages it always succeeds; the recency map is the one after reading the tokens up to the first one gone |
| `TokenWindow.ReadsComeLast` | ai/src/paged_attention.rs:546-558 | the tokens a gather reads become the youngest, in the order read; the others keep their order |
| `TokenWindow.PagedAttention.Clear` | ai/src/paged_attention.rs:584-590 | `clear` empties the window and the table |
| `WindowRuns.PerformAll` | ai/src/paged_attention.rs:522-590 | every mixed run of appends, gathers and clears, refused ones included, reaches the specified tokens and recency map, and each gather answers from the state it meets |
| `WindowRuns.CallsAreOps` | ai/src/paged_attention.rs:522-558 | without a clear, such a run is a run of the recency map |
| `WindowRuns.TokenStays` | ai/src/paged_attention.rs:522-558 | a token just appended can be gathered as long as appends and gathers have used fewer other slots than there are pages |
| `HashedTimelock.StepsAddUp` | interop/src/htlc.rs:110-134 | sequential work adds up however it is split and stops at the requirement |
| `HashedTimelock.ChainOfSquares` | interop/src/htlc.rs:106-129 | each step squares the tip and adds its number modulo 1,000,003, until the required work is done |
| `HashedTimelock.LastByteWeighsMost` | interop/src/htlc.rs:193-197 | the seed taken from an id is little-endian |
| `HashedTimelock.FundsTerms` | interop/src/htlc.rs:184-215 | a contract is funded unless its amount is zero or its payment hash all zeros, and takes over the terms |
| `HashedTimelock.Advance` | interop/src/htlc.rs:122-129 | the loop burns exactly the steps asked for, up to the requirement |
| `HashedTimelock.Htlc.ClaimWith` | interop/src/htlc.rs:239-252 | `claim` settles only an open contract, only for a matching preimage |
| `HashedTimelock.Htlc.RefundAt` | interop/src/htlc.rs:255-267 | `refund` settles only an open contract at or after the timeout |
| `HashedTimelock.Htlc.Burn` | interop/src/htlc.rs:270-276 | `advance_vdf` works only on an open contract |
| `HashedTimelock.Htlc.Cancel` | interop/src/htlc.rs:283-295 | `vdf_cancel` settles only after the required work |
| `Credits.StepConserves` | interop/src/credits.rs:85-189 | every operation conserves free plus escrowed credits, but for a mint's amount and a payout that overflows, which needs a supply beyond u64 |
| `Credits.RunConserves` | interop/src/credits.rs:85-213 | over every run minting at most u64::MAX, supply equals the total minted and no payout overflows |
| `Credits.MintOverflows` | interop/src/credits.rs:85-89 | a mint overflows exactly when the account's balance would |
| `Credits.BalancesMove` | interop/src/credits.rs:85-189 | each operation moves the balances its outcome names, by its amount, and no others |
| `Credits.OpensIff` | interop/src/credits.rs:107-129 | an escrow opens if and only if its id is new, the sender has the positive amount and the hash is not zero; it takes over the terms |
| `Credits.RunKeepsTerms` | interop/src/credits.rs:85-213 | no run changes the terms an escrow was opened with |
| `Credits.PaidAtMostOnce` | interop/src/credits.rs:132-189 | over every run each escrow pays at most once: to the receiver for a preimage, which is recorded, or to the sender after the timeout or the required work |
| `Credits.SettledWasPaid` | interop/src/credits.rs:132-189 | and, mints being bounded, every settled escrow was paid |
| `Credits.WorkAccumulates` | interop/src/credits.rs:162-169 | an open escrow has burned exactly the sequential steps asked of it |
| `Credits.SettlementLosesCreditIff` | interop/src/credits.rs:132-182 | a claim, refund or cancel overflows if and only if it is rightful and its payee's balance has no room, and then its amount is lost; it pays if and only if it is rightful and there is room |
| `Credits.LostClaim` | interop/src/credits.rs:85-142 | a run from the empty ledger that ends in a lost claim |
| `Credits.LostRefund` | interop/src/credits.rs:85-159 | a run from the empty ledger that ends in a lost refund |
| `Credits.CreditLedger.Mint` | interop/src/credits.rs:85-89 | `mint` takes the specified step |
| `Credits.CreditLedger.OpenEscrow` | interop/src/credits.rs:107-129 | `open_escrow` takes the specified step |
| `Credits.CreditLedger.ClaimEscrow` | interop/src/credits.rs:132-142 | `claim_escrow` takes the specified step |
| `Credits.CreditLedger.RefundEscrow` | interop/src/credits.rs:145-159 | `refund_escrow` takes the specified step |
| `Credits.CreditLedger.AdvanceEscrow` | interop/src/credits.rs:162-169 | `advance_vdf` takes the specified step |
| `Credits.CreditLedger.CancelEscrow` | interop/src/credits.rs:172-182 | `vdf_cancel_escrow` takes the specified step |
| `Amm.OutIsLargestFair` | interop/src/openapi_gateway.rs:43-63 | the payout is the largest that does not lower the product of the reserves, and never empties the paid side |
| `Amm.MidPriceInFigures` | interop/src/openapi_gateway.rs:26-33 | the mid price is quote per base in millionths rounded down, if and only if that fits in 64 bits |
| `Amm.SlicingNeverPays` | interop/src/openapi_gateway.rs:36-65 | however a deposit is sliced, it takes out no more than one swap of the whole |
| `Amm.SwapIsFair` | interop/src/openapi_gateway.rs:36-65 | an unsaturated swap moves exactly deposit and payout, keeps the product and leaves both sides non-empty |
| `Amm.GlobalAmmMock.Swap` | interop/src/openapi_gateway.rs:36-65 | `swap` reaches the specified reserves or refuses and changes nothing |
| `Twamm.CapIsExact` | interop/src/twamm.rs:93-123 | for references up to (2^64-1)/201 a price is accepted if and only if it deviates by at most 200 whole basis points |
| `Twamm.CapIsExactIff` | interop/src/twamm.rs:93-123 | and for no larger reference is the cap exact |
| `Twamm.CapInFigures` | interop/src/twamm.rs:93-126 | for those references a price is accepted if and only if it deviates by less than 201 parts in 10,000 |
| `Twamm.SpreadInFigures` | interop/src/twamm.rs:93-126 | the reported spread is the deviation in basis points, rounded down |
| `Twamm.PayoutAtPrice` | interop/src/twamm.rs:151-268 | a fill pays amount times price for a sale, amount over price for a purchase, in millionths and rounded down, if and only if that fits in 64 bits |
| `Twamm.NoGainThereAndBack` | interop/src/twamm.rs:151-268 | selling and buying back at one price, or the reverse, never yields more than was put in |
| `Twamm.ScheduleShape` | interop/src/twamm.rs:193-290 | an order of A over n slices is filled as n-(A mod n) fills of floor(A/n) and A mod n fills one larger, totalling A |
| `Twamm.FillsFollowSchedule` | interop/src/twamm.rs:271-316 | whatever prices are tried and whenever the reference is refreshed, successful fills are the schedule's slices in order |
| `Twamm.SliceKeepsOrder` | interop/src/twamm.rs:227-290 | a slice, filled or rejected, leaves the rest of the schedule, and an order with at least one unit per slice |
| `Twamm.NeverStuck` | interop/src/twamm.rs:193-224 | an accepted order with slices left is filled at its reference price |
| `Twamm.RefreshUnblocks` | interop/src/twamm.rs:299-318 | a refreshed order fills its next slice at the new price |
| `Twamm.FillsAreWithinCap` | interop/src/twamm.rs:129-142 | only prices within the cap are filled |
| `Twamm.TwammEngine.SubmitOrder` | interop/src/twamm.rs:193-224 | `submit_order` refuses exactly zero amounts, zero prices and amounts below the slice count |
| `Twamm.TwammEngine.QuoteSlice` | interop/src/twamm.rs:227-262 | `quote_slice` quotes without changing the book |
| `Twamm.TwammEngine.StreamSlice` | interop/src/twamm.rs:271-290 | `stream_slice` moves one order by one slice or changes nothing |
| `Twamm.TwammEngine.RefreshReferencePrice` | interop/src/twamm.rs:299-317 | `refresh_reference_price` changes one open order's reference |
| `Bridge.SlicesBalance` | interop/src/openapi_gateway.rs:199-222 | over all slices of a bridge inflow, outflow, what is left and the product of the reserves stay in balance |
| `Bridge.BridgeConserves` | interop/src/openapi_gateway.rs:166-245 | unsaturated, the base inflow is the amount bridged and the quote outflow the quote received, at most what one swap would pay, within the spread cap |
| `Bridge.BridgeFailsIff` | interop/src/openapi_gateway.rs:199-222 | a started bridge fails if and only if, slice by slice from the initial reserves, reference and amount, some price is zero and all prices before it are within the cap |
| `Bridge.FewSlicesFailIff` | interop/src/openapi_gateway.rs:199-222 | one slice never fails; two fail if and only if selling half the amount takes the mid price to zero |
| `Bridge.FailureComesAfterFills` | interop/src/openapi_gateway.rs:199-228 | a bridge that fails has moved the pool, with slices left |
| `Bridge.FailedBridgeMovesPool` | interop/src/openapi_gateway.rs:199-228 | a concrete bridge that fails after moving the pool |
| `Bridge.GuardedBridgeSucceeds` | interop/src/openapi_gateway.rs:166-245 | a guard on the reserves and amount under which no bridge fails |
| `Bridge.OpenApiGateway.Stream` | interop/src/openapi_gateway.rs:199-222 | the slice loop follows the specified trail |
| `Bridge.OpenApiGateway.RefusedUnless` | interop/src/openapi_gateway.rs:166-196 | nothing is refused up front to a connected account that has the positive amount, while the pool has a price |
| `Bridge.OpenApiGateway.BridgeLocalToGlobal` | interop/src/openapi_gateway.rs:166-245 | on success the account is debited exactly the amount bridged; on any error nobody is debited; before the first slice an error leaves the pool untouched |
| `Crc.RoundInjective` | mesh-transport/src/lora_mac.rs:115-119 | one bit round loses no state |
| `Crc.CalculateCrc` | mesh-transport/src/lora_mac.rs:108-123 | the nested loop computes the CRC |
| `Crc.CrcIsBitSerial` | mesh-transport/src/lora_mac.rs:108-123 | the byte loop is the CRC that shifts the payload in bit by bit |
| `CrcDivision.CrcIsRemainder` | mesh-transport/src/lora_mac.rs:108-123 | for every payload the CRC is the remainder, by long division modulo x^16 + x^12 + x^5 + 1, of its bits followed by sixteen zeros, the first sixteen of all these complemented |
| `CrcDivision.OnesThenRemainder` | mesh-transport/src/lora_mac.rs:108-123 | after two bytes 0xFF the CRC is the plain remainder of the bits followed by sixteen zeros |
| `CrcCheck.CheckValue` | mesh-transport/src/lora_mac.rs:108-123 | an instance: the digits 1 to 9 in ASCII have the CRC 0x29B1 |
| `Crc.WindowInjective` | mesh-transport/src/lora_mac.rs:108-123 | at most sixteen bits shifted into one state: different bits, different states |
| `Crc.BitBurstsAreDetected` | mesh-transport/src/lora_mac.rs:108-123 | payloads of any length differing only within sixteen consecutive bits, at any bit offset, have different CRCs |
| `Crc.BurstsAreDetected` | mesh-transport/src/lora_mac.rs:108-123 | in particular those differing only within two adjacent bytes |
| `Crc.FramesCatchBursts` | mesh-transport/src/lora_mac.rs:82-95 | a frame verifies as sent and never after a burst of at most sixteen bits |
| `Crc.FramesUpTo255` | mesh-transport/src/lora_mac.rs:82-95 | a frame holds at most 255 bytes, unchanged, with their CRC |
| `Fragments.EncodeDecode` | mesh-transport/src/packet_translator.rs:57-106 | a fragment within bounds survives the wire format; an oversized one is refused |
| `Fragments.EncodedIsLaid` | mesh-transport/src/packet_translator.rs:57-80 | a fragment of at most 241 bytes is encoded as magic, version, flag, id, index, count and length, high bytes first, and its payload |
| `Fragments.DecodedIsLaid` | mesh-transport/src/packet_translator.rs:82-106 | bytes are accepted if and only if some fragment with an index below its count is laid out in them, and give that one |
| `Fragments.SplitInFigures` | mesh-transport/src/packet_translator.rs:185-210 | while the count fits in 16 bits a payload is cut every 241 bytes, in order |
| `Fragments.AcceptedIff` | mesh-transport/src/packet_translator.rs:246-268 | a fragment is taken if and only if it is of this message and its slot is empty or holds the same bytes |
| `Fragments.FragmentPayload` | mesh-transport/src/packet_translator.rs:185-210 | the loop cuts the payload into the specified parts, the count truncated to 16 bits |
| `Fragments.ReassemblyBuffer.Accept` | mesh-transport/src/packet_translator.rs:246-268 | `accept` fills an empty slot, tolerates an identical repeat and refuses everything else |
| `Fragments.ReassemblyBuffer.Assemble` | mesh-transport/src/packet_translator.rs:278-290 | `assemble` concatenates complete slots or counts the missing |
| `Fragments.ReassembleMeshPacket` | mesh-transport/src/packet_translator.rs:294-322 | `reassemble_mesh_packet` computes the specified result |
| `Fragments.RoundTripIff` | mesh-transport/src/packet_translator.rs:185-322 | any arrangement of a packet's frames, with repetitions, gives the packet back if and only if none is missing and the fragment count fits in 16 bits; a missing frame is reported as incomplete |
| `Fragments.TruncatedCountLosesData` | mesh-transport/src/packet_translator.rs:185-322 | an instance: a packet one byte past 65536 fragments is sent as one frame, which reassembles to something else |
| `Fragments.SendsIff` | mesh-transport/src/packet_translator.rs:185-221 | a packet can be sent unless its fragment count is a multiple of 65536 |
| `BleRelay.BleWireRoundTrip` | mesh-transport/src/ble_mesh.rs:529-552 | a relay fragment survives the wire if and only if it fits 20 bytes |
| `BleRelay.BleLayout` | mesh-transport/src/ble_mesh.rs:529-552 | four to twenty bytes are read as message id, high byte first, index, count and payload |
| `BleRelay.LaterFragmentReplaces` | mesh-transport/src/ble_mesh.rs:590-613 | a fragment under an index already heard replaces what was there |
| `BleRelay.BleRelayReassembler.Accept` | mesh-transport/src/ble_mesh.rs:590-613 | `accept` takes the specified step |
| `BleRelay.NothingBeforeComplete` | mesh-transport/src/ble_mesh.rs:556-613 | nothing comes out while an index is missing, in any order and with any repetitions |
| `BleRelay.CompletesWithPayload` | mesh-transport/src/ble_mesh.rs:556-613 | the fragment that completes a message brings its payload, whole if and only if it has at most 4080 bytes |
| `BleRelay.OthersAreIgnored` | mesh-transport/src/ble_mesh.rs:590-603 | a started reassembler ignores every other message |
| `BleRelay.LateRepeatLocksOut` | mesh-transport/src/ble_mesh.rs:590-613 | an idle reassembler is claimed by any fragment that is not a whole message, a late repeat included |
| `Fen.RankRoundTrip` | mesh-transport/src/fen.rs:91-113 | reading a written rank gives its squares back |
| `Fen.CastleRoundTrip` | mesh-transport/src/fen.rs:121-135 | reading written castling rights gives the flags back |
| `Fen.ClockRoundTrip` | mesh-transport/src/fen.rs:148-152 | reading a written clock gives the number back |
| `Fen.DecodeThenEncode` | mesh-transport/src/fen.rs:78-231 | for all bytes the decoder accepts, encoding its text gives the bytes back |
| `Fen.EncodedDecodes` | mesh-transport/src/fen.rs:78-231 | every text the encoder accepts encodes to bytes that decode |
| `Fen.NormaliseOnce` | mesh-transport/src/fen.rs:78-231 | decoding after encoding is an idempotent normaliser that keeps the encoding |
| `Fen.EncodeRank` | mesh-transport/src/fen.rs:91-113 | the square loop ors a rank into the buffer or reports the specified error |
| `Fen.EncodeFen` | mesh-transport/src/fen.rs:78-155 | the encoder's loops compute the specified bytes or error |
| `Fen.DecodeRank` | mesh-transport/src/fen.rs:165-183 | the file loop writes a rank or reports the first bad nibble |
| `Fen.DecodeFen` | mesh-transport/src/fen.rs:158-231 | the decoder's loops compute the specified text or error |
| `FenCanonical.CanonicalIff` | mesh-transport/src/fen.rs:78-231 | an accepted text comes back unchanged if and only if it is canonical: single spaces, merged runs, rights in order, implied en-passant rank, plain clocks |
| `FenLayout.EncodedLayout` | mesh-transport/src/fen.rs:78-155 | where every accepted text is kept: squares from the first rank up, two to a byte, by the codes of " PNBRQKpnbrqk", then the side to move and the four rights as bits, the en-passant file, and the clocks, low byte first |
| `FenLayout.TextAccepted` | mesh-transport/src/fen.rs:78-155 | a text is encoded if and only if it has six fields: eight full ranks, w or b, a dash or letters of KQkq, a dash or a square, and two numbers below 65536 |
| `FenLayout.BytesAccepted` | mesh-transport/src/fen.rs:158-231 | bytes are decoded if and only if there are 38, every square has a code, and the flags and the file are in range |
| `FenLayout.DecodedSideAndFile` | mesh-transport/src/fen.rs:158-231 | the decoder names the side to move and puts an en-passant file on rank 3 for black and 6 for white |

## Left out

- Cryptographic internals, CBOR, postcard and serde codecs: parameters or not part of this model; `NodeHash` assumes the tagged encoding injective only through the collision-freedom hypothesis.
- Ledger.MerklePatriciaTrie.MergeWith: requires the two ledgers to share no node, which Rust ownership guarantees.
- `recompute_root` and the legacy `TrieNode` (consensus/src/trie.rs:325-333, consensus/src/trie.rs:849-960): would only add easy members.
- CrdtDoc.Doc.Write: counters and agent numbers are unbounded, so u64 wrap-around of clocks and sequence numbers is not modelled.
- `insert_str`, `full_delta` and the byte codec of deltas: repeat modelled operations.
- Routing.InsertKeepsOrder: stated until the 64-bit tick counter wraps, because stamps are not comparable afterwards; the order of storing holds regardless (`Routing.RunOldestFirst`).
- Routing.RoutingTable.constructor: requires a bucket size of at least one; with zero the source indexes an empty bucket on the first insertion.
- FindNode.IterativeFindNode: replies are a function of peer and target, since each peer is asked once.
- Paging.PageTable.constructor: requires at most 2^32 physical pages, because page ids are 32 bits and would repeat beyond; the victim is the least recently used slot only until the 64-bit clock saturates.
- The file-backed page path, `gather_fp32_tensor` and `append_tensor`: file and tensor plumbing.
- `perft`, evaluation and move generation are not part of this model.
- Wall-clock time, radio timing, duty cycle, CSMA, deduplication cache, neighbour tables, link-state advertisements.
- Fragments.ReassembleMeshPacket: message ids are a parameter instead of the FNV-1a hash of the packet.
- HTTP, swarm, daemon, frontends, tablebase, proof folding, thermal and honeypot code: I/O, stubs or floating point.
- `parse_order_payload`, `status_json` and other text rendering of the market code.
