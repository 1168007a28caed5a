# Merkle Tree Certificate bridge: a verified model

The bridge watches a certificate authority's database, appends every
certificate to an append-only Merkle log (RFC 9162), signs checkpoints of the
log, serves proofs and tiles, and issues certificates over ACME (RFC 8555) with
the inclusion proof embedded. This project models the parts of it whose
correctness is not visible in any single function, and proves them in Dafny.
`dafny verify dfyconfig.toml` checks everything.

## How it is modelled

| file | what it holds |
|---|---|
| `Wrappers.dfy`, `BitArith.dfy`, `Hashing.dfy` | options and results; powers of two, bit lengths, split points; bytes and the two domain-separated hashes |
| `Merkle.dfy`, `MerkleProofs.dfy`, `ProofCursor.dfy` | tree hash, leaf-level proof generators, recursive verifiers; what the verifiers accept |
| `NodeProofs.dfy` | the generators that read stored nodes refine the leaf-level ones |
| `BitWalk.dfy`, `Recombination.dfy` | the bit-walk verifier, and both inclusion verifiers on proofs of any length |
| `NodeTable.dfy`, `IssuanceLog.dfy`, `LogRuns.dfy` | the stored node table, the log as a class, and whole runs of it |
| `Tiles.dfy`, `Batch.dfy`, `BatchExact.dfy`, `Revocation.dfy` | served tiles and bundles, the batcher and its proofs, the revocation bitmap |
| `Acme.dfy`, `AcmeSteps.dfy`, `AcmeRuns.dfy`, `AcmeExact.dfy`, `AcmeLeaving.dfy` | ACME orders as interleaved atomic store calls; which step writes which status, what holds in all runs, exactly when rows disagree, and exactly when orders stay pending |
| `MtcFormat.dfy`, `Strip.dfy`, `CertVerify.dfy` | the wire codecs, removing the proof extension from a certificate, and the proof check of certificate verification |
| `Ingest.dfy` | the watcher's cursor over the CA database |

*Hash.* `Sha256` is an arbitrary function from byte strings to 32-byte strings.
Completeness results hold for every such function. Soundness results name the
finite set of byte strings that are hashed in the check at hand and ask that the
function does not collide on that set, so they are not vacuous.

*State.* The log and the watcher are classes whose methods update their fields;
each method's new state is equated with a step function, and the theorems about
runs quantify over all sequences of steps. The ACME handlers and goroutines are
a transition system in which every store call is one step, can fail, and can be
interleaved with any other.

*Loops and buffers* of the source are loops and arrays here, each proved equal
to a function whose round trips or invariants are then proved.

## Where the code and its description differ

The model follows the code. Each point has a lemma with a concrete case and the
exact condition under which the code does what its description says.

- `VerifyInclusion` chooses sides by the bits of the index. It rejects proofs
  that the log itself generates for some right-edge entries
  (`BitWalk.GeneratedProofAcceptedExactly`, `BitWalk.ThirdOfThreeRejected`), and
  accepts the node its bits lead to, which can be another entry
  (`Recombination.WalkAcceptsExactly`, `Recombination.SecondOfThreeLeadsToThird`).
- Both inclusion verifiers take any 32 bytes for the leaf hash, and assertion
  bundles supply them unchecked: the hash of an interior node passes with the
  path above it (`Recombination.RootAcceptsExactly`,
  `Recombination.WalkAcceptsExactly`, `Recombination.InteriorPassesAsLeaf`).
- Certificates of the local CA are checked with it. The proof embedded right
  after the append is accepted if and only if the log then has a power of two of
  entries (`LogRuns.IssuedProofWalksExactly`); the third entry of a log is the
  first case that fails (`BitWalk.ThirdOfThreeRejected`).
- `RootFromInclusionProof` checks neither the proof length nor the index. A
  short proof can recombine to the root from another entry
  (`MerkleProofs.ShortProofProvesWrongEntry`), and an index outside the tree
  stands for the first or the last entry (`MerkleProofs.IndexBeyondProvesLast`);
  `Recombination.RootAcceptsExactly` covers every index and every length.
- `VerifyConsistency` from size 0 to a larger one accepts any old root with an
  empty proof; from every other size it is exact for any 32 bytes (the two
  clauses of `MerkleProofs.ConsistencyAcceptsExactly`).
- The codec accepts ranges of 2^63 and more entries, whose size is negative once
  it is converted to a signed integer. The certificate check panics on them as
  soon as the proof has a hash, and only then (`CertVerify.CheckExactly`,
  `CertVerify.HugeRangePanics`).
- `MarshalProof` bounds each signature but not their sum. Beyond 65535 bytes the
  length field wraps and the result cannot be read back
  (`MtcFormat.ProofRoundTrip`, `MtcFormat.OversizedSectionRefused`).
- The tile handler marks every tile of 256 hashes as immutable. Above level 0
  the last hash may still belong to a partial node
  (`Tiles.ImmutableExactly`, `Tiles.FullButPartial`).
- A freshly initialized log stores level 0 only, while the tile handler counts a
  node on the levels above: it answers with an empty tile
  (`Tiles.HandleHashTile`, `Tiles.FreshLogLacksNode`).
- The batcher accepts ranges that are not valid subtrees; for those, and only
  for those, its proofs do not match the signed hash
  (`BatchExact.BatchProofExactly`, `Batch.UnalignedBatchMismatch`).
- Any error when the watcher reads its cursor, not only a missing row, restarts
  the poll at the first certificate and duplicates entries (`Ingest.PollKeeps`,
  `Ingest.UnreadCursorDuplicates`).
- An order can be pending for ever: after one failed check, since the challenge
  is then settled and neither the authorization nor the order is made invalid,
  and after a store error on the way to ready
  (`AcmeLeaving.LeavesPendingExactly`, `AcmeLeaving.FailedCheckStaysPending`,
  `AcmeExact.CutOffStaysPending`).
- A validation goroutine that failed its check can overwrite the challenge row
  of an order that is ready or becomes ready (`AcmeExact.RunAgreesExactly`,
  `AcmeRuns.LateFailureDisagrees`, `AcmeRuns.EarlyFailureDisagrees`).

## Model

| member | source | states |
|---|---|---|
| `BitArith.SplitPointUnique` | internal/merkle/merkle.go:79-87 | the bit-length split is the one power of two k with k < n <= 2k |
| `BitArith.SplitPointShared` | internal/merkle/merkle.go:79-87 | a tree that passes the split point of a larger tree has the same split point |
| `BitArith.BitCeilUnique` | internal/merkle/merkle.go:308-313 | BitCeil is the smallest power of two not below n |
| `BitArith.PowerOfTwoTest` | internal/merkle/merkle.go:488-499 | n & (n-1) == 0 exactly when n is 2 to its number of trailing zeros |
| `Hashing.EqualInteriors` | internal/merkle/merkle.go:48-60 | without collisions equal interior hashes have equal children |
| `Hashing.LeafIsNotInterior` | internal/merkle/merkle.go:41-60 | the prefix bytes keep leaf hashes and interior hashes apart |
| `MerkleProofs.RootBytes` | internal/merkle/merkle.go:41-87 | the bytes hashed for a root, for every list: none, 0x00 and the one entry, or 0x01, the root of the entries before the split and the root of those after it, the split being 2^e with 2^e < n <= 2^(e+1) |
| `MerkleProofs.SubtreeIsMTH` | internal/merkle/merkle.go:155-164 | the range recursion over leaf hashes is the tree hash of the slice |
| `MerkleProofs.MTHInjective` | internal/merkle/merkle.go:64-77 | equal roots have equal lists, lengths included |
| `MerkleProofs.InclusionPathLength` | internal/merkle/merkle.go:102-117 | every generated proof has length pathLen |
| `MerkleProofs.InclusionComplete` | internal/merkle/merkle.go:102-117 | any proof that starts with the generated path recombines to the subtree hash, for every size |
| `MerkleProofs.InclusionAcceptsExactly` | internal/merkle/merkle.go:187-225 | for every index, in range or not: a long enough proof recombines to the root if and only if the data is the entry at the clamped index and the proof starts with that entry's generated path |
| `MerkleProofs.RootClamped` | internal/merkle/merkle.go:187-225 | an index outside the tree recombines like the nearest leaf, on every proof |
| `MerkleProofs.ShortProofProvesWrongEntry` | internal/merkle/merkle.go:187-214 | the length condition is needed: in a log of three a one-hash proof for index 1 verifies entry 2 |
| `MerkleProofs.IndexBeyondProvesLast` | internal/merkle/merkle.go:187-225 | the index is not checked: in a log of three a proof of full length for index 5 verifies entry 2 |
| `MerkleProofs.ConsistencyComplete` | internal/merkle/merkle.go:121-152 | replaying the generated path yields both subtree hashes, and the pass-through root stands only for the subtree [0, m) |
| `MerkleProofs.ConsistencyExact` | internal/merkle/merkle.go:435-474 | a replay that ends at the new subtree's hash used exactly the generated path, and its old hash is that of the first m leaves, whatever was passed through |
| `MerkleProofs.ConsistencyAcceptsExactly` | internal/merkle/merkle.go:412-474 | from any old size but 0 and any 32 bytes to the root of a list: accepted if and only if they are the root of that many first entries and the proof is the generated one; from size 0 the old root is ignored |
| `MerkleProofs.ConsistencyOfLists` | internal/merkle/merkle.go:412-474 | between the roots of two lists: accepted if and only if the old list is a prefix of the new one and the proof is the generated one |
| `MerkleProofs.ConsistencyProofAccepted` | internal/merkle/merkle.go:121-152 | generated consistency proofs are accepted, whatever the hash function |
| `MerkleProofs.PathLenBound` | internal/merkle/merkle.go:216-225 | inclusion proofs have at most ceil(log2 n) hashes |
| `MerkleProofs.ConsistencyPathBound` | internal/merkle/merkle.go:135-152 | consistency proofs have at most ceil(log2 n) + 1 hashes |
| `ProofCursor.Replay` | internal/merkle/merkle.go:435-474 | the recursion through the shared cursor: verdict, both hashes and final cursor position are those of the specification |
| `ProofCursor.CheckConsistency` | internal/merkle/merkle.go:412-429 | to the root of a list, from any size but 0 and any old root, the result is true if and only if the old root is that of the prefix and the proof is the generated one |
| `NodeProofs.SubtreeChildren` | internal/merkle/merkle.go:315-324 | both halves of a valid subtree are valid subtrees, so the recursions never leave them |
| `NodeProofs.SubtreeFromNodesIsSubtree` | internal/merkle/merkle.go:488-505 | on every valid subtree the node form equals the leaf form as soon as complete nodes are right |
| `NodeProofs.InclusionPathsAgree` | internal/merkle/merkle.go:350-367 | the node form of the inclusion path is the leaf form |
| `NodeProofs.ConsistencyPathsAgree` | internal/merkle/merkle.go:386-403 | the node form of the consistency path is the leaf form |
| `NodeProofs.FastProofsAgree` | internal/merkle/merkle.go:340-403 | both public generators return what their leaf-level forms return, which is a proof exactly for 0 <= index < size and 0 <= oldSize <= size, and the root agrees |
| `NodeProofs.InclusionDependsOnReads` | internal/merkle/merkle.go:350-367 | two stores that agree on the listed reads give the same proof |
| `NodeProofs.InclusionReadsComplete` | internal/merkle/merkle.go:340-367 | a proof for a size reads only nodes that are complete at that size |
| `NodeProofs.SubtreeReadsBound` | internal/merkle/merkle.go:488-505 | a subtree hash takes at most ceil(log2 n) node reads |
| `NodeProofs.InclusionReadsBound` | internal/merkle/merkle.go:331-367 | an inclusion proof takes at most 2 ceil(log2 n) - 1 node reads |
| `BitWalk.VerifyInclusion` | internal/merkle/merkle.go:168-184 | the loop accepts exactly when the index is in range and the bit walk ends at the root |
| `BitWalk.WalkAgrees` | internal/merkle/merkle.go:168-225 | on covered positions the walk equals RootFromInclusionProof on every leaf hash and every long enough proof |
| `BitWalk.WalkMisses` | internal/merkle/merkle.go:168-184 | on other positions the walk misses the root on the generated proof |
| `BitWalk.GeneratedProofAcceptedExactly` | internal/merkle/merkle.go:168-184 | the generated proof of the entry at an index is accepted if and only if the position is covered, a condition on index and size alone |
| `BitWalk.WalkCoversPow2` | internal/merkle/merkle.go:166-184 | all positions are covered when the size is a power of two |
| `BitWalk.WalkMissesLast` | internal/merkle/merkle_test.go:423-428 | the last entry of every other size is not covered |
| `BitWalk.LastCoveredExactly` | internal/merkle/merkle_test.go:423-428 | the last entry is covered if and only if the size is a power of two |
| `BitWalk.ThirdOfThreeRejected` | internal/merkle/merkle.go:168-184 | the generated proof of entry 2 of a log of three is rejected |
| `Recombination.LeafAtSides` | internal/merkle/merkle.go:187-225 | following the sides of a leaf's path from the root leads back to that leaf |
| `Recombination.RecombineExact` | internal/merkle/merkle.go:187-214 | hashing any 32 bytes upwards along any sides hits the root if and only if the sides lead to a node, the bytes are its hash and the proof is the path above it |
| `Recombination.LeafIsNode` | internal/merkle/merkle.go:187-225 | where the sides reach a leaf, the node is that leaf and the path above it is its inclusion path |
| `Recombination.RootIsRecombined` | internal/merkle/merkle.go:191-214 | RootFromInclusionProof on any index and a proof of any length is hashing along a prefix of the sides of the clamped index |
| `Recombination.RootAcceptsExactly` | internal/merkle/merkle.go:187-225 | for every index, any 32 bytes as leaf hash and proofs of any length: RootFromInclusionProof gives the root if and only if the bytes are the hash of the node its sides lead to and the proof begins with the path above it; a long enough proof leads to the clamped leaf |
| `Recombination.RootAcceptsLeafExactly` | internal/merkle/merkle.go:187-225 | from the leaf hash of some data: which leaf and which proof it accepts |
| `Recombination.WalkIsRecombined` | internal/merkle/merkle.go:168-184 | the bit walk is hashing along the low bits of the index |
| `Recombination.WalkAcceptsExactly` | internal/merkle/merkle.go:168-184 | for every input, any 32 bytes as leaf hash included: VerifyInclusion accepts exactly the hash of the node that the bits lead to, with the path above it |
| `Recombination.WalkAcceptsLeafExactly` | internal/merkle/merkle.go:168-184 | from the leaf hash of some data: exactly the data and the path of the leaf that the bits lead to |
| `Recombination.InteriorPassesAsLeaf` | internal/assertion/format.go:101-130 | in a log of three the node above the first two entries passes both verifiers as the leaf hash at index 0 |
| `Recombination.SecondOfThreeLeadsToThird` | internal/merkle/merkle.go:168-184 | in a log of three the bit of index 1 leads to the leaf at index 2, and one hash verifies that entry under index 1 |
| `NodeTable.Table` | internal/issuancelog/issuancelog.go:247-294 | a table exists that holds every node with a leaf below a level, promoted right-edge nodes included, and no other |
| `NodeTable.TableUnique` | internal/issuancelog/issuancelog.go:247-294 | that description determines the table |
| `NodeTable.TableRow` | internal/issuancelog/issuancelog.go:247-294 | a row of a full table by the positions of its leaves: when it is there and of which entries it is the tree hash |
| `NodeTable.NodeFromChildren` | internal/issuancelog/issuancelog.go:256-282 | a node is the hash of its two children, or its left child promoted when there is no right one |
| `NodeTable.CompleteNodeStable` | internal/issuancelog/issuancelog.go:247-294 | no append changes a complete node |
| `NodeTable.TableServesPrefix` | internal/issuancelog/issuancelog.go:247-294 | the table of a log has the right complete nodes for every earlier size of it |
| `IssuanceLog.RecomputeLevel` | internal/issuancelog/issuancelog.go:256-282 | one level: the rows written are exactly those from the first touched node to the edge, with the right hashes |
| `IssuanceLog.LevelWritten` | internal/issuancelog/issuancelog.go:284-290 | writing them completes the level for all leaves while the levels above still show the old tree |
| `IssuanceLog.EntryBytes` | internal/issuancelog/issuancelog.go:87-102 | the entry built for a certificate, byte by byte |
| `IssuanceLog.DoublingSplit` | internal/issuancelog/issuancelog.go:369-372 | the doubling loop finds the bit-length split |
| `IssuanceLog.ComputeMTH` | internal/issuancelog/issuancelog.go:361-385 | the recomputation from leaf rows is the tree hash of the range |
| `IssuanceLog.HalvingStep` | internal/issuancelog/issuancelog.go:347-350 | a round of the counting loop takes one off ceil(log2 n) |
| `IssuanceLog.RootNode` | internal/issuancelog/issuancelog.go:352-355 | the node read at level ceil(log2 n) is the root of the log |
| `IssuanceLog.Log.constructor` | internal/issuancelog/issuancelog.go:46-53 | a new log is empty and valid |
| `IssuanceLog.Log.Initialize` | internal/issuancelog/issuancelog.go:56-84 | an empty log gets one null entry, of type 0 with the data 00 00, and its leaf node only; any other log is untouched |
| `IssuanceLog.Log.AppendDirectEntry` | internal/issuancelog/issuancelog.go:155-183 | one entry is appended at the returned index and the table is that of the longer log |
| `IssuanceLog.Log.AppendCertificates` | internal/issuancelog/issuancelog.go:192-243 | the entries are appended in order, with the old ones kept and the table that of the longer log; each new entry has type 1, the serial and issuer of its certificate, and as data the bytes 01 00, the blob length in four little-endian bytes and the blob itself; no certificates, no change |
| `IssuanceLog.Log.RecomputeInterior` | internal/issuancelog/issuancelog.go:247-294 | from right leaves and an old interior to the full table of 64 levels |
| `IssuanceLog.Log.CreateCheckpoint` | internal/issuancelog/issuancelog.go:297-336 | the size and the tree hash of all entries are saved; an empty log is an error |
| `IssuanceLog.Log.ComputeRootHash` | internal/issuancelog/issuancelog.go:339-358 | in every valid state, empty and freshly initialized ones included, the result is the tree hash of all entries; and in bytes, the hash of nothing, of 0x00 and the entry, or of 0x01 and the roots left and right of the split, in that order |
| `LogRuns.StepKeepsGood` | internal/issuancelog/issuancelog.go:155-336 | every operation keeps the table right and every saved checkpoint the root of its prefix |
| `LogRuns.RunIsGood` | internal/issuancelog/issuancelog.go:155-336 | so does every run |
| `LogRuns.RunGrows` | internal/issuancelog/issuancelog.go:155-336 | in every run entries and checkpoints are only added |
| `LogRuns.SavedCheckpointGood` | internal/issuancelog/issuancelog.go:297-358 | a checkpoint saved anywhere in a run is the root of a prefix of the final log |
| `LogRuns.ConsistencyOverRuns` | internal/merkle/merkle.go:373-474 | between any two checkpoints ever saved, the proof read from the nodes of any later state is accepted |
| `LogRuns.InclusionOverRuns` | internal/merkle/merkle.go:187-225 | for every checkpoint ever saved and every entry below it, the proof read from any later state recombines to its root |
| `LogRuns.AppendedThenSaved` | internal/acme/finalize.go:314-333 | a later checkpoint commits to the entry at the returned index; an immediate one has it last |
| `LogRuns.IssuedProofRecombines` | internal/acme/finalize.go:314-347 | append, later checkpoint, proof at the returned index: RootFromInclusionProof, which checks these certificates, gets the checkpoint's root from the appended entry, now and after more operations |
| `LogRuns.IssuedProofWalksExactly` | internal/localca/extension.go:90-129 | the same proof under VerifyInclusion, which checks the certificates of the local CA: accepted if and only if the position is covered, and for an immediate checkpoint if and only if its size is a power of two |
| `LogRuns.TableOverRuns` | internal/issuancelog/issuancelog.go:247-294 | in every reachable log of two or more entries node (L, i) is stored if and only if L < 64 and i * 2^L is below the size, and it is the tree hash of the entries from there up to 2^L further on or the end |
| `LogRuns.AcceptedRootIsPrefix` | internal/merkle/merkle.go:412-474 | any 32 bytes that an accepted proof links to a saved checkpoint, from any size but 0, are the root of that many first entries of the log, now and later |
| `Tiles.NodesAtLevelCounts` | internal/tlogtiles/handler.go:135-137 | the shift expression counts exactly the nodes of the level |
| `Tiles.GetTileHashes` | internal/store/store.go:407-442 | all rows present: their hashes in order; otherwise fewer than asked for |
| `Tiles.HandleHashTile` | internal/tlogtiles/handler.go:108-170 | on every stored table the response is the tile of the tree or the error; not found is answered if and only if the first node has no leaves or the level is above 62, and the immutable mark is set if and only if the 256th has some; a freshly initialized log answers tile 0 of the levels 1 to 62 with an empty tile |
| `Tiles.TileHashes` | internal/tlogtiles/handler.go:127-160 | hash i of tile N at level L is the tree hash of the leaves below node 256N + i, for exactly those i below 256 that have such leaves |
| `Tiles.ServedExactly` | internal/tlogtiles/handler.go:127-168 | at every level: not found if and only if node 256N has no leaves; otherwise those hashes, marked as immutable if and only if node 256N + 255 has some |
| `Tiles.ServedLeafTilesImmutable` | internal/tlogtiles/handler.go:161-168 | a response for level 0 that is marked as immutable is given unchanged by every longer log |
| `Tiles.ServedImmutableExactly` | internal/tlogtiles/handler.go:161-168 | at any level such a response is given again after the next entry if and only if the tree has (N+1) * 256 * 2^L entries |
| `Tiles.FreshLogLacksNode` | internal/tlogtiles/handler.go:133-148 | Initialize leaves such a log, whose tree has the node that is not stored |
| `Tiles.CompleteTileStable` | internal/tlogtiles/handler.go:161-168 | a tile whose last node is complete is the same in every later tree |
| `Tiles.PartialNodeChanges` | internal/issuancelog/issuancelog.go:247-294 | a node that lacks leaves changes with the next entry |
| `Tiles.ImmutableExactly` | internal/tlogtiles/handler.go:161-168 | a tile marked immutable survives the next entry if and only if the tree has (N+1) * 256 * 2^L entries |
| `Tiles.LeafTilesImmutable` | internal/tlogtiles/handler.go:161-168 | full tiles of level 0 never change |
| `Tiles.FullButPartial` | internal/tlogtiles/handler.go:161-168 | tile 0 of level 1 of a log of 511 is served as immutable and changes with the next entry |
| `Tiles.HandleEntryTile` | internal/tlogtiles/handler.go:172-226 | the response is the bundle of the tile's entries; not found if and only if its first entry is not in the log, marked if and only if its 256th is |
| `Tiles.TileEntriesAt` | internal/tlogtiles/handler.go:180-204 | entry i of tile N is entry 256N + i of the log, for exactly those i below 256 that are in it |
| `Tiles.BundleBytes` | internal/tlogtiles/handler.go:205-217 | each entry is preceded by its length in four bytes, least significant first |
| `Tiles.EntryTilesImmutable` | internal/tlogtiles/handler.go:219-225 | a bundle served as immutable is served unchanged by every longer log |
| `Tiles.BundleUnambiguous` | internal/tlogtiles/handler.go:205-217 | the bytes of a bundle determine its entries |
| `Batch.ComputeBatchHash` | internal/batch/batch.go:134-159 | the tree hash of the range, or an error exactly when the range is empty or leaves the log |
| `Batch.ProcessBatch` | internal/batch/batch.go:53-99 | on every reachable log: succeeds if and only if the start is in the log and some cosigner signed when there are any; the result holds the tree hash of the rest of the log and every signature that did not fail, in the order of the cosigners and as often as it was given |
| `Batch.ProducedInOrder` | internal/batch/batch.go:66-83 | which cosigners the signatures come from: an increasing list of positions that has every cosigner that did not fail |
| `Batch.BuildProof` | internal/batch/batch.go:101-132 | on a log that may have grown since the batch: succeeds if and only if the leaf is in the batch, with the leaf-level path in the first End entries |
| `Batch.BatchPathIsPrefix` | internal/batch/batch.go:103-131 | on an aligned range the path in the batch is a prefix of the path in [0, End) |
| `Batch.RootTranslates` | internal/mtccert/verify.go:96-100 | recombination depends on the position relative to the range only |
| `Batch.BatchProofRecombines` | internal/batch/batch.go:103-131 | for every valid subtree, at any start, the built proof recombines relative to Start to the signed subtree hash |
| `Batch.UnalignedBatchMismatch` | internal/batch/batch.go:103-131 | on [1, 3) the proof of entry 1 matches the signed hash only if entries 0 and 2 are equal |
| `BatchExact.PrefixForcesNode` | internal/batch/batch.go:103-131 | among distinct entries, a range whose path begins the path in the whole log is a node of the tree |
| `BatchExact.RecombinedHasPath` | internal/mtccert/verify.go:96-100 | a proof of any length that recombines to the subtree hash begins with the path in the subtree |
| `BatchExact.BatchProofExactly` | internal/batch/batch.go:103-131 | in a log of distinct entries the proof of any entry of a batch of two or more recombines to the signed hash if and only if the batch is a valid subtree |
| `Acme.CsrCoversOrder` | internal/acme/finalize.go:78-91 | accepted if and only if every identifier has a name among the DNS names and the non-empty common name that equals it letter by letter, up to the case of ASCII letters; and the lower-cased names collected |
| `Acme.LowerExactly` | internal/acme/finalize.go:78-91 | two names have the same lower-cased form if and only if they differ in nothing but the case of ASCII letters |
| `Acme.CoversExactly` | internal/acme/finalize.go:78-91 | the guard of the finalization step is that same letter-by-letter condition |
| `Acme.AllOthersValid` | internal/acme/handlers.go:353-362 | on any listing of the order's rows the flag is true if and only if all other authorizations are valid |
| `Acme.BuildRows` | internal/acme/handlers.go:181-209 | the loop pairs the i-th identifier with the i-th authorization and that with the i-th challenge, all pending |
| `Acme.NewOrderPairs` | internal/acme/handlers.go:140-221 | so does the order that is stored, and nothing else is new |
| `Acme.AdvanceKeepsSafe` | internal/acme/handlers.go:316-370 | each store call of a validation goroutine, failing or not, keeps the safety invariant |
| `Acme.PostsKeepSafe` | internal/acme/finalize.go:37-91 | so do the two request handlers that start goroutines |
| `Acme.StoreProcessingKeepsSafe` | internal/acme/finalize.go:93-102 | so does the late write of processing, even when the order has moved on since it was read |
| `Acme.IssueKeepsSafe` | internal/acme/finalize.go:110-152 | so do the status writes of every issuance path |
| `Acme.StepKeepsSafe` | internal/acme/handlers.go:292-370 | every step keeps safety, and no row, validity or covering request is lost |
| `Acme.RunIsSafe` | internal/acme/handlers.go:292-370 | safety holds in all interleavings |
| `AcmeSteps.StatusAfter` | internal/acme/handlers.go:316-370 | the status of an order after any step: a validation goroutine that listed all others valid makes it ready, the late write of a finalization or an acceptance by the CA makes it processing, an issued certificate valid, a failed issuance invalid; everything else leaves it |
| `AcmeSteps.FinalizesExactly` | internal/acme/finalize.go:37-91 | a finalization starts if and only if the order is ready and the request covers its identifiers; otherwise nothing changes |
| `AcmeSteps.ValidationStartsExactly` | internal/acme/handlers.go:292-314 | a validation starts if and only if the challenge exists and is neither valid nor invalid; otherwise nothing changes |
| `AcmeSteps.ValidOrdersWereIssued` | internal/acme/finalize.go:110-152 | in all interleavings a valid order was made so by a stored event that issued its certificate |
| `AcmeSteps.InvalidOrdersFailed` | internal/acme/finalize.go:110-152 | in all interleavings an invalid order was made so by an issuance that failed before the CA had accepted it |
| `AcmeSteps.IssuanceOutcomes` | internal/acme/finalize.go:110-152 | what the three outcomes of an issuance store: valid, invalid and processing, the last two only before the CA accepted |
| `AcmeRuns.ValidatedByEvent` | internal/acme/handlers.go:316-337 | a challenge counts as validated only after a step that passed or auto-approved its check |
| `AcmeRuns.AuthorizedOrdersWereValidated` | internal/acme/handlers.go:292-370 | in all interleavings every authorization of an order that is ready, processing or valid is valid and was earned by such a step, an earlier event of the run |
| `AcmeRuns.IssuedOrdersHaveCoveringCsr` | internal/acme/finalize.go:78-102 | in all interleavings a processing or valid order holds a request that has, for every identifier of the order, a name equal to it letter by letter up to the case of ASCII letters |
| `AcmeRuns.StepKeepsAwake` | internal/acme/handlers.go:339-369 | every step keeps: a pending order with all authorizations valid has a goroutine that will still look, or one cut off by a store error |
| `AcmeRuns.RunIsAwake` | internal/acme/handlers.go:339-369 | so does every interleaving |
| `AcmeRuns.NoLostWakeup` | internal/acme/handlers.go:339-369 | once no such goroutine is left, the order is not pending |
| `AcmeRuns.WakerCompletes` | internal/acme/handlers.go:349-369 | such a goroutine makes the order ready in at most two store calls |
| `AcmeRuns.AutoApprovedRowsAgree` | internal/acme/handlers.go:319-324 | with auto-approval every valid authorization shows a valid challenge in all interleavings |
| `AcmeRuns.RowsAgreeExactly` | internal/acme/handlers.go:306-337 | challenge rows agree with valid authorizations in all interleavings if and only if challenges are auto-approved |
| `AcmeRuns.LateFailureDisagrees` | internal/acme/handlers.go:306-337 | without it two goroutines for one challenge can leave a ready order with an invalid challenge |
| `AcmeRuns.EarlyFailureDisagrees` | internal/acme/handlers.go:326-346 | nor need the failed write come last: an authorization can be made valid after its challenge row was overwritten |
| `AcmeExact.StuckForever` | internal/acme/handlers.go:292-370 | an order with all authorizations valid that is pending and has no goroutine left that can wake it stays so in every continuation |
| `AcmeExact.WakeUp` | internal/acme/handlers.go:316-370 | any goroutine of the order that has neither ended nor failed its check makes it ready when its check and store calls succeed |
| `AcmeExact.PendingForeverExactly` | internal/acme/handlers.go:292-370 | such an order stays pending in every continuation if and only if no such goroutine is left, and then one was cut off by a store error |
| `AcmeExact.CutOffStaysPending` | internal/acme/handlers.go:349-352 | a concrete run: one authorization, and an error when it is listed |
| `AcmeLeaving.StepKeepsBlocked` | internal/acme/handlers.go:292-370 | no step makes an authorization valid that has only settled challenges and no goroutine on its way, and its order stays pending |
| `AcmeLeaving.BlockedForever` | internal/acme/handlers.go:292-370 | so in every continuation |
| `AcmeLeaving.MakeValid` | internal/acme/handlers.go:292-346 | any other authorization becomes valid in some continuation that takes no prospect from the rest and leaves a goroutine that can wake the order |
| `AcmeLeaving.LeavesPendingExactly` | internal/acme/handlers.go:292-370 | any reachable pending order leaves pending in some continuation if and only if each of its authorizations that is not valid can become valid and, when all are valid, a goroutine can wake it |
| `AcmeLeaving.FailedCheckStaysPending` | internal/acme/handlers.go:326-332 | one failed check leaves an order pending for ever |
| `AcmeExact.StepAgreesExactly` | internal/acme/handlers.go:316-346 | from agreeing rows a step disagrees if and only if a failed goroutine overwrites the only valid row of a valid authorization, or an authorization without a valid row is made valid |
| `AcmeExact.RunAgreesExactly` | internal/acme/handlers.go:316-346 | the rows agree throughout an interleaving if and only if it has no such step |
| `MtcFormat.EntryRoundTrip` | internal/mtcformat/encoding.go:45-111 | a marshalled entry reads back unchanged if and only if a null entry has no data |
| `MtcFormat.EntryMarshalsExactly` | internal/mtcformat/encoding.go:45-111 | which entries are marshalled, and to which bytes: type 0 alone, or type 1, a 24-bit length and the data |
| `MtcFormat.EntryCanonical` | internal/mtcformat/encoding.go:45-111 | every accepted byte string is the encoding of what was read |
| `MtcFormat.SignaturesRoundTrip` | internal/mtcformat/encoding.go:264-341 | encoded signatures read back unchanged |
| `MtcFormat.SignaturesCanonical` | internal/mtcformat/encoding.go:264-341 | every accepted signature section is the encoding of what was read |
| `MtcFormat.ProofRoundTrip` | internal/mtcformat/encoding.go:150-260 | a marshalled proof reads back unchanged when its signature section has at most 65535 bytes, and is refused as trailing data otherwise |
| `MtcFormat.ProofMarshalsExactly` | internal/mtcformat/encoding.go:150-196 | which proofs are marshalled: non-empty ranges, hashes of 32 bytes and at most 65535 bytes of them, identifiers of 1 to 255 bytes and signatures of at most 65535 |
| `MtcFormat.SmallProofBytes` | internal/mtcformat/encoding.go:150-196 | a proof with one hash and one signature, byte by byte |
| `MtcFormat.OversizedSectionRefused` | internal/mtcformat/encoding.go:150-260 | one signature of the largest size is marshalled without error and refused on reading |
| `MtcFormat.ProofCanonical` | internal/mtcformat/encoding.go:150-260 | re-marshalling any accepted byte string returns it |
| `MtcFormat.MarshalSignatures` | internal/mtcformat/encoding.go:264-295 | the buffer code computes the encoding, or the error |
| `MtcFormat.UnmarshalSignatures` | internal/mtcformat/encoding.go:298-341 | the moving-offset loop computes the parse, every error included |
| `MtcFormat.MarshalProof` | internal/mtcformat/encoding.go:150-196 | the buffer code computes the encoding, or the error |
| `MtcFormat.UnmarshalProof` | internal/mtcformat/encoding.go:199-260 | the moving-offset code computes the parse, every error included |
| `CertVerify.SizePositiveExactly` | internal/mtccert/verify.go:96-106 | the signed subtree size is positive if and only if the range has fewer than 2^63 entries, and then it is their number |
| `CertVerify.CheckExactly` | internal/mtccert/verify.go:86-113 | on any accepted proof bytes: panics if and only if the range has 2^63 entries or more and there is a hash; otherwise the proof counts as valid if and only if the range is smaller and the serial number lies in it, and then the root is recombined at its place in the range |
| `CertVerify.HugeRangePanics` | internal/mtcformat/encoding.go:199-214 | a range of 2^63 entries with one hash is marshalled, read back and makes the check panic |
| `CertVerify.IssuedCertificateVerifies` | internal/acme/finalize.go:314-367 | append, checkpoint, proof, codec and check together: the issued proof fits the codec, reads back, counts as valid and yields the checkpoint's root |
| `Strip.ParseEncoded` | internal/localca/canonical.go:36-61 | an encoded value parses back, whatever follows it |
| `Strip.EncodeParsed` | internal/localca/canonical.go:36-61 | a parsed value encodes to the bytes it was read from |
| `Strip.EncodedParsesExactly` | internal/localca/canonical.go:36-61 | an encoded value is accepted, whatever follows, if and only if its identifier is one byte and its content is shorter than 2^31 bytes |
| `Strip.LengthsByteByByte` | internal/localca/canonical.go:36-61 | short and long form of a length, byte by byte, up to three length bytes |
| `Strip.SkipsExactlyTheProof` | internal/localca/canonical.go:150-159 | an extension is skipped if and only if its identifier is the proof's |
| `Strip.StripMTCExtension` | internal/localca/canonical.go:36-102 | the loops compute the specified stripping, errors included |
| `Strip.FilterExtensions` | internal/localca/canonical.go:107-146 | the loop re-encodes exactly the extensions that are kept |
| `Strip.StrippedTbs` | internal/localca/canonical.go:36-159 | fields of every identifier but A3 and 83 are copied byte for byte around the extensions, the proof extensions go |
| `Strip.ExtensionsFieldFiltered` | internal/localca/canonical.go:64-86 | a field with either identifier, A3 or 83, is filtered |
| `Strip.AcceptedExactly` | internal/localca/canonical.go:36-102 | stripping succeeds if and only if the input is one sequence of values with nothing after it whose fields A3 and 83 can be filtered |
| `Strip.FilteredExactly` | internal/localca/canonical.go:107-146 | an extensions field can be filtered if and only if it is one value that holds a sequence of values |
| `Strip.StrippedBytes` | internal/localca/canonical.go:36-159 | a certificate with a version field, the proof and a key usage extension, and what is left of it, byte by byte |
| `Strip.StripUndoesInsertion` | internal/localca/canonical.go:36-159 | a certificate with extensions E1 + proof + E2 strips to the encoding with E1 + E2 |
| `Strip.StripTwice` | internal/localca/canonical.go:36-159 | stripping is idempotent on every accepted input |
| `Ingest.PassedIsPrefix` | internal/cadb/adapter.go:131-144 | in query order the rows at or below the cursor are a prefix and the query returns the rest |
| `Ingest.FetchedRows` | internal/cadb/adapter.go:131-144 | one query returns the next rows up to the limit, and its last key passes exactly those |
| `Ingest.QueryRows` | internal/cadb/adapter.go:131-144 | the same in the columns: sorted by creation date and then identifier, the first rows up to the limit that were created later than the cursor, or with it and a larger identifier |
| `Ingest.PollKeeps` | internal/watcher/watcher.go:177-211 | whatever fails, rows below the cursor stay in the log; one poll keeps the log exact if and only if it appends nothing or the cursor was read and stored |
| `Ingest.UnreadCursorDuplicates` | internal/watcher/watcher.go:177-211 | one row and two successful polls, the second without the cursor: its certificate is in the log twice |
| `Ingest.InsertKeeps` | internal/cadb/adapter.go:131-144 | a row that sorts after the cursor lands behind the passed rows |
| `Ingest.StepKeeps` | internal/watcher/watcher.go:177-225 | every event keeps the ingestion invariant |
| `Ingest.RunKeeps` | internal/watcher/watcher.go:177-225 | in every timely run all rows at or below the cursor are in the log; with no cursor lost, exactly those, once each and in order |
| `Ingest.ExactLog` | internal/watcher/watcher.go:177-225 | with no cursor lost, the certificate entries of the log carry, in log order, the blob, serial and issuer of exactly the rows that were created before the cursor or with it and no larger identifier, direct appends interleaved freely |
| `Ingest.LateRowsAreLost` | internal/watcher/watcher.go:177-211 | a row that appears at or below the cursor is not ingested while the cursor can be read |
| `Ingest.PollsDrain` | internal/watcher/watcher.go:177-211 | k polls pass min(pending, k * BatchSize) rows, so ceil(p / BatchSize) polls drain p and no fewer do |
| `Ingest.Watcher.PollCertificates` | internal/watcher/watcher.go:177-211 | the poll is one step of that system on the log object, for every outcome of its database calls |
| `Revocation.Marked` | internal/revocation/revocation.go:112-118 | setting bit 7 - (i mod 8) of byte i/8 marks i and no other index |
| `Revocation.BitOfByte` | internal/revocation/revocation.go:112-118 | the mask of a position picks its bit of the value of the byte, by arithmetic |
| `Revocation.BuildRevocationBitmap` | internal/revocation/revocation.go:97-121 | bit i, which is floor(byte i/8 / 2^(7 - i mod 8)) mod 2, is set if and only if i is revoked and below the tree size; padding bits are zero |

## Left out

- SHA-256, Ed25519, ML-DSA and JWS: the hash is an arbitrary function, signatures on checkpoints and requests are not modelled.
- Crashes and partial failures inside one append, and appends of the ACME server that interleave with an append of the watcher: the code holds no lock over them, so each log operation is one atomic successful step here.
- Integer overflow of sizes: they are unbounded here; the theorems that read the table ask for fewer than 2^64 entries, and the tile arithmetic for fewer than 2^62.
- The base level of the node-reading generators and the proof cursor of `rootFromProof`: both are 0 in every call.
- Timestamps, signatures and pruning of checkpoints, and the tile path codec: they do not touch the state modelled here.
- Order expiry, account ownership and nonces: every request handler step is allowed to anyone, which only adds runs.
- At most one finalization per order and a monotone order status: status writes are unconditional, so neither holds.
- Names outside ASCII: lower-casing is modelled for ASCII letters.
- encoding/asn1: a codec for definite lengths and one-byte identifiers stands in for it; a value with a longer identifier is an error.
- The issuer filter and the collation order of identifiers in the CA query: an identifier is its rank in that order.
- Parsing a certificate into its proof and serial number, the landmark comparison of certificate verification, the X.509 encoding of the legacy proof extension, and whether the logged entry equals the issued certificate.
- The admin pages, configuration, command-line tools, webhooks, HTTP plumbing and SQL text.
- BatchExact.BatchProofExactly: asks for distinct entries, because among equal entries a proof of another position can match by accident.
- Batch.ComputeBatchHash: tells errors apart from successes but not from each other.
- MerkleProofs.RootClamped: is about sizes from 1 on; sizes below 1, which signed conversion can produce, are covered by `CertVerify.CheckExactly`.
- Batch.BuildProof: takes batches that ProcessBatch can have returned, inside a log of fewer than 2^64 entries.
