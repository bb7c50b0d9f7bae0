# A verified model of the sparse Merkle Patricia trie

The program proves blocks in a zkVM. The guest never holds the whole Ethereum state: it holds *sparse* tries, in
which whole subtrees are left out and stand for themselves by their digest, and it trusts them because their root
hash is that of the parent block. This project models the trie (`crates/mpt`) and the host and guest code that
relies on its hash, and proves that the sparse tries answer, change and hash exactly as the full ones would.

How the model is laid out, from the bottom up:

| modules | what they are about |
|---|---|
| `Basics`, `HexPrefix`, `Rlp` | bytes and nibbles, the hex-prefix code of paths (Yellow Paper, Appendix C), RLP (Appendix B) |
| `Trie`, `NormalForm`, `InsertCorrect`, `DeleteCorrect`, `History` | the trie as a value; lookup, insertion and deletion; the normal form and its uniqueness |
| `Encoding`, `Decoding`, `RoundTrip`, `Reading` | references, encodings, lengths and hashes (Appendix D), reading them back, and exactly which bytes are read |
| `YellowPaper`, `Agreement` | the definitions of the Ethereum Yellow Paper in its own terms (Appendices B, C and D, section 4.1), and proofs that the program computes them |
| `Sparse`, `SparseDelete`, `Authentication` | `Prunes(K, s, f)`: the sparse trie `s` stands for `f`; simulation and authentication |
| `Resolution`, `Termination`, `Ranking` | filling in digests from a store of nodes: what it keeps, and exactly when it ends |
| `Proofs`, `Orphans`, `OrphanRecovery`, `SparseTransition` | putting tries together from EIP-1186 proofs, and the orphans that a deletion needs |
| `Loose`, `Recovery` | runs of insertions and deletions on a sparse trie, and why the proofs after a block recover all orphans |
| `MptNodes` (`MptNode.dfy`), `Replay`, `Leaves` | the class with in-place mutation and cached references; the leaf traversal |
| `Accounts`, `StorageUpdate`, `EthereumStates` (`EthereumState.dfy`) | account records and the two-level state update |
| `Transition`, `Acceptance`, `Handover`, `HonestProofs`, `HonestTransition` | the state before a block from the proofs before and after it; which proofs are taken, and which error the others are |
| `HonestBlock`, `HonestExecution` | a block from end to end, from proofs and from an execution witness: the state that is built, its update, the new state root |
| `Witness`, `HonestWitness`, `TrieDb`, `Readback` | the state from an execution witness, the checks of the guest, and what it reads, before and after an update |
| `Worlds` (`World.dfy`), `Blocks` | the state root as the root that the Yellow Paper defines for accounts and storage, before and after a block |
| `Ancestors` | block hashes: recording on the host, header chain in the guest |
| `Limits` | concrete inputs for which the program does not do what one might expect |

Design decisions:

- *Values and objects.* `Trie.Node` is the trie as a value, with the path bytes kept as the program keeps them.
  `MptNodes.MptNode` is the object: it overwrites its data in place and caches its reference. `Valid(K)` says, for the
  node and everything below it, that a filled cache is the reference computed from scratch and that no two nodes are
  shared; every method is proved to turn `model`, the value the object stands for, into what the functions on values
  say, so that every theorem about the functions is one about the object.
- *Keccak* is a parameter: any function from bytes to 32 bytes that gives the known digests of the empty trie and of
  nothing. Nothing else is assumed of it, except where a theorem needs that no two of the nodes *of the tries in question* collide; that
  hypothesis speaks of finitely many byte strings (`NoCollision`, `Comparable`, `Sources`), so it can be met.
- *Reference definitions.* `YellowPaper` does not import the program: it defines RLP, the hex-prefix code and the root of
  a key/value map by recursion over the map, and the root of a set of accounts with their storage. `Agreement` and
  `Worlds` show that what the program writes and hashes are these, so that thresholds, flags, orders of fields and
  slots are checked against something other than the program.
- *Branches* are maps from nibbles to children: an empty slot is an absent key.
- *Panics* (`unwrap`, `unreachable!`, `expect`) are outcomes of their own and not preconditions.
- *Termination of `resolve_nodes`.* The recursion through the store need not end, and then the program does not come
  back. That is an outcome of its own, too (`None`, `Endless`): `Resolution.ResolveWithin` is the recursion with a
  bound, `Resolve` takes a bound that is always enough if any is (`ResolveIsUnbounded`), and `Termination.EndsExactly`
  says when one is: when no way through the store comes back to the same digest.
- *Loose tries.* Between two operations of a block a sparse trie may have lost an orphan: an extension over a digest then
  stands for a leaf or an extension with a longer path. `LooselyPrunes` is what all operations keep;
  `Recovery.Recovered` shows that nothing loose is left at the end of the block if the proofs after it were added.

What the theorems found:

- The documentation of `insert` says that it returns false when the key existed already (`mpt.rs:694-696`). The code,
  and its tests, return true when the value of an existing key changes; `InsertCorrect.InsertIsCorrect` follows the code.
- `mpt_from_proof` splices a node in at the *first* slot with its digest. When a branch on the path has two equal
  children, the trie made from a valid proof of the second one cannot answer for it, and the `unwrap` in
  `is_not_included` fails. `Proofs.ProofAnswers` shows that this is the only way to fail: the answer is right if and
  only if no branch on the path has an earlier twin. `Limits.TwinsBreakTheProof` is an example.
- A deletion that leaves a branch with just a digest makes an extension, which is wrong when the digest stands for a
  leaf or an extension. `SparseDelete.SparseDeleteHash` shows that the hash is right if and only if this does not
  happen; `Limits.DeletionLosesALeaf` is an example with byte keys. Orphan recovery is the remedy, and
  `HonestBlock.UpdateRebuilt` shows that it is one for whole blocks with any number of insertions and removals.
- `resolve_nodes` does not come back when the store leads back to a digest. One digest item in place of a node is
  enough: as the proof of a slot it is filed under itself (`Limits.BareDigestIsEndless`); among the nodes of an execution
  witness it does so exactly when it is reached, and no harm otherwise (`Limits.BareDigestInWitness`). A store of nodes of
  full tries never does (`Ranking.HonestStoreResolves`).
- `update` starts an account whose storage trie was not supplied from the empty trie, and writes the root of what comes
  out into its record. `Limits.StorageRootExactly` shows that this root is right if and only if the trie was supplied, or
  the storage is wiped, or every key that was in the storage is among the written slots; with no slots written, only if
  the storage was empty (`Limits.MissingStorageIsForgotten`). A host that supplies execution witnesses without the
  storage tries of untouched accounts relies on no such account being in the post state.

## Model

| member | source | states |
|---|---|---|
| HexPrefix.HexPrefixRoundTrip | crates/mpt/src/mpt.rs:927-961 | reading a written path gives back its nibbles; the flag bit that decoding tests is the leaf flag; equal paths have equal nibbles and flags |
| HexPrefix.CanonicalPaths | crates/mpt/src/mpt.rs:927-961 | a path string re-encodes to itself if and only if its flag nibble and padding are the canonical ones |
| HexPrefix.NibsInjective | crates/mpt/src/mpt.rs:908-915 | two byte strings with the same nibbles are equal |
| HexPrefix.SplitNibs | crates/mpt/src/mpt.rs:908-915 | the loop over the bytes gives high and low nibbles in order |
| HexPrefix.ReadPrefixNibs | crates/mpt/src/mpt.rs:946-961 | the loop skips the flag nibble, and the padding nibble of even paths, and keeps the rest |
| Trie.CommonPrefix | crates/mpt/src/mpt.rs:937-944 | the loop finds the length of the longest common prefix |
| NormalForm.InsertGet | crates/mpt/src/mpt.rs:713-826 | on every trie, also a sparse or odd one, a successful insertion sets just that key for all lookups, failing lookups included |
| InsertCorrect.InsertKeepsForm | crates/mpt/src/mpt.rs:713-826 | insertion never panics; splitting a leaf or an extension keeps branches at two children, paths canonical and extensions above branches |
| InsertCorrect.FailureHasConflict | crates/mpt/src/mpt.rs:713-826 | a failing insertion points at a key of the trie that is a prefix of the new one, or the other way round |
| InsertCorrect.ConflictFails | crates/mpt/src/mpt.rs:713-826 | any such key makes the insertion fail |
| InsertCorrect.InsertIsCorrect | crates/mpt/src/mpt.rs:698-826 | in normal form: fails with `ValueInBranch` exactly on a prefix conflict; otherwise sets just the key, keeps the normal form, and returns false exactly when the value was there already, leaving the trie as it was |
| DeleteCorrect.DeleteGet | crates/mpt/src/mpt.rs:586-690 | on every trie a deletion that succeeds removes just that key for all lookups, through the branch collapse and the merge of extensions |
| DeleteCorrect.DeleteKeepsForm | crates/mpt/src/mpt.rs:586-690 | deletion never reaches the `unwrap` of an empty branch or `unreachable!()`, and the collapse of a branch and the merge with an extension above restore the normal form |
| DeleteCorrect.FailureForks | crates/mpt/src/mpt.rs:586-690 | a failing deletion has reached a branch: two keys fork right after the key |
| DeleteCorrect.ForkFails | crates/mpt/src/mpt.rs:586-690 | where two keys fork after the key, deletion refuses it |
| DeleteCorrect.DeleteIsCorrect | crates/mpt/src/mpt.rs:582-690 | in normal form: fails exactly when two keys fork after the key, never with keys of equal length; otherwise removes just the key, keeps the normal form, and returns whether the key was there |
| History.NormalFormIsUnique | crates/mpt/src/mpt.rs:586-826 | two tries in normal form that answer alike for all keys are equal |
| History.KeysAreUnrelated | crates/mpt/src/mpt.rs:546-575 | no key of a trie is a proper prefix of another one |
| History.StepRefines | crates/mpt/src/mpt.rs:586-826 | one insertion or deletion on the trie is the same operation on the key/value map |
| History.RunRefines | crates/mpt/src/mpt.rs:1458-1494 | every run from the empty trie computes the map that the operations describe, in normal form |
| History.HistoryDoesNotMatter | crates/mpt/src/mpt.rs:1458-1534 | two runs that end in the same map end in the same trie |
| Replay.SameMapSameRoot | crates/mpt/src/mpt.rs:1458-1534 | and so in the same root hash |
| Rlp.ListItem | crates/mpt/src/mpt.rs:277-295 | a written list header with its payload is read back as just that item |
| Rlp.StringItem | crates/mpt/src/mpt.rs:286-298 | so is a written string |
| Rlp.ItemPrefix | crates/mpt/src/mpt.rs:328-364 | what follows an item does not change how it is read |
| Rlp.ItemIsWritten | crates/mpt/src/mpt.rs:272-300 | what is read as one whole item is the one code of its payload: `EncodeString(p)`, or for a list the header of the payload and the payload |
| Rlp.ItemIsUnique | crates/mpt/src/mpt.rs:272-300 | two byte strings that are read as the same whole item are equal |
| Agreement.StringsAgree | crates/mpt/src/mpt.rs:286-298 | strings are written as Appendix B defines: single bytes below 128 as they are, up to 55 bytes with a short header, longer ones with the length in big-endian bytes |
| Agreement.ListsAgree | crates/mpt/src/mpt.rs:272-300 | so are lists |
| Agreement.PathsAgree | crates/mpt/src/mpt.rs:927-935 | the stored path is the hex-prefix code of Appendix C, for both flags and parities |
| Agreement.NibblesAgree | crates/mpt/src/mpt.rs:908-915 | the nibbles of a key are those of the paper, high half first |
| Agreement.RecordsAgree | crates/mpt/src/lib.rs:108-121 | words and account records are written as section 4.1 says: nonce, balance, storage root, code hash |
| Agreement.EncodesMap | crates/mpt/src/mpt.rs:272-310 | the encoding of every trie in normal form is the structural composition (Appendix D) of the key/value map that it answers with |
| Agreement.RootAgrees | crates/mpt/src/mpt.rs:449-457 | its root hash is the root that the paper defines for that map |
| Agreement.RunRoot | crates/mpt/src/mpt.rs:1458-1494 | so after every run of insertions and deletions the hash is the paper's root of the map that is left |
| Encoding.LengthIsExact | crates/mpt/src/mpt.rs:307-310 | the length computed in advance is that of the encoding; a child reference takes at most 33 bytes and a branch payload at most 529 |
| Encoding.HashIsDigestOfEncoding | crates/mpt/src/mpt.rs:449-457 | the root hash is the digest of the encoding, through the reference or around it |
| Encoding.ShortIsInline | crates/mpt/src/mpt.rs:480-493 | what a parent writes for a child is the child's encoding itself if and only if that has fewer than 32 bytes, and else 0xa0 and its digest; so the leaf of the test at mpt.rs:1275-1284 stands in line |
| Encoding.SlotIsWritten | crates/mpt/src/mpt.rs:277-285 | the same of the bytes of a slot of a branch |
| Encoding.ChildIsWritten | crates/mpt/src/mpt.rs:291-295 | and of the bytes below the path of an extension |
| RoundTrip.DecodeEncode | crates/mpt/src/mpt.rs:272-365 | decoding an encoded node gives the node, with every child of 32 encoded bytes or more replaced by its digest and shorter ones inlined |
| RoundTrip.DecodedChildren | crates/mpt/src/mpt.rs:272-365 | a child of the decoded node is a digest if and only if it was one or its encoding has 32 bytes or more, and then the digest of that encoding |
| RoundTrip.DecodedIsTyped | crates/mpt/src/mpt.rs:328-364 | whatever bytes are decoded: every path of the result has the flag of its constructor, and no slot holds an empty trie |
| Reading.DecodeExactly | crates/mpt/src/mpt.rs:328-364 | exactly the byte strings that start with the raw form of a node decode to it, and nothing at all to the empty trie: all other item counts, lengths and forms are refused |
| Reading.ValueIsRefused | crates/mpt/src/mpt.rs:341-357 | a branch with a value is refused with the error for it |
| Reading.EmptyPathPanics | crates/mpt/src/mpt.rs:331-333 | a pair with an empty path panics |
| RoundTrip.ReadReference | crates/mpt/src/mpt.rs:460-493 | a child reference in a node is read back as the digest or the inlined child |
| RoundTrip.ShallowEncodes | crates/mpt/src/mpt.rs:480-493 | the decoded node has the encoding, reference and hash of the original |
| Sparse.PrunesReference | crates/mpt/src/mpt.rs:480-493 | a trie and one it stands for have the same reference |
| Sparse.PrunesHash | crates/mpt/src/mpt.rs:449-457 | and the same root hash |
| Sparse.PrunesGet | crates/mpt/src/mpt.rs:546-575 | what a sparse trie answers is what the full one answers |
| Sparse.NormalFormIsWritable | crates/mpt/src/mpt.rs:272-300 | every node in normal form, up to `usize`, can be written and read back |
| Sparse.WrittenAndReadBack | crates/mpt/src/mpt.rs:272-365 | a normal-form node that is written and read back keeps its hash, and stands for the original |
| Sparse.InsertSimulates | crates/mpt/src/mpt.rs:713-826 | insertion into a sparse trie gives the flag, the error and the result that it gives on the full trie, unless it meets a digest |
| Sparse.SparseInsertHash | crates/mpt/src/mpt.rs:713-826 | a successful insertion into a sparse trie ends in the root hash of the full one |
| SparseDelete.DeleteSimulates | crates/mpt/src/mpt.rs:586-690 | the same for deletion, unless a branch collapses onto a digest that stands for a leaf or an extension |
| SparseDelete.LostOrphanDiverges | crates/mpt/src/mpt.rs:608-684 | if it does, the two results have different encodings at some level up to the root |
| SparseDelete.SparseDeleteHash | crates/mpt/src/mpt.rs:586-690 | a successful deletion from a sparse trie ends in the root hash of the full one if and only if it loses no such orphan |
| Authentication.SameEncodingPrunes | crates/mpt/src/mpt.rs:272-300 | collisions aside, a node is determined by its encoding up to what was left out |
| Authentication.SameHashPrunes | crates/mpt/src/mpt.rs:449-457 | a sparse trie with the root hash of a full trie stands for it |
| Authentication.AuthenticatedGet | crates/mpt/src/mpt.rs:524-575 | whatever a sparse trie answers, absence included, every full trie with the same hash answers |
| Authentication.AuthenticatedInsert | crates/mpt/src/mpt.rs:698-826 | an insertion ends in the hash it has on every full trie with the same hash |
| MptNodes.MptNode.InsertInternal | crates/mpt/src/mpt.rs:713-826 | in place: flag, error and new value are those of `Insert`; on an error or on false nothing changes; every filled cache at every depth stays the reference computed from scratch |
| MptNodes.MptNode.DeleteInternal | crates/mpt/src/mpt.rs:586-690 | the same for `Delete`, through children that are moved out and nodes that are merged |
| MptNodes.MptNode.GetInternal | crates/mpt/src/mpt.rs:546-575 | answers as `Get` on the value |
| MptNodes.MptNode.Clear | crates/mpt/src/mpt.rs:384-387 | the empty trie, with no cache left |
| MptNodes.MptNode.GetReference | crates/mpt/src/mpt.rs:412-414 | from the cache or not, the reference computed from scratch; only caches change |
| MptNodes.MptNode.CalcReference | crates/mpt/src/mpt.rs:480-493 | the reference, with those of the children taken from their caches: in line if and only if the encoding has fewer than 32 bytes |
| MptNodes.MptNode.ReferenceEncode | crates/mpt/src/mpt.rs:460-470 | the bytes of the reference: the encoding if it has fewer than 32 bytes, else 0xa0 and its digest |
| MptNodes.MptNode.GetReferenceLength | crates/mpt/src/mpt.rs:473-478 | their number |
| MptNodes.MptNode.GetPayloadLength | crates/mpt/src/mpt.rs:884-901 | the payload length |
| MptNodes.MptNode.EncodeNode | crates/mpt/src/mpt.rs:272-300 | the encoding of the value, with a header from the length computed in advance |
| MptNodes.MptNode.EncodePayload | crates/mpt/src/mpt.rs:277-295 | the payload, for a branch sixteen references and the empty value |
| MptNodes.MptNode.GetHash | crates/mpt/src/mpt.rs:449-457 | the root hash computed from scratch, whatever is cached |
| MptNodes.MptNode.Clone | crates/mpt/src/mpt.rs:124-131 | a copy with the same value and cache that shares no node with the original |
| MptNodes.MptNode.InsertKey | crates/mpt/src/mpt.rs:698-706 | insertion under the nibbles of a byte key; the program panics on an empty value |
| MptNodes.MptNode.InsertRlp | crates/mpt/src/mpt.rs:709-711 | insertion of an encoded value |
| MptNodes.MptNode.DeleteKey | crates/mpt/src/mpt.rs:582-584 | deletion under the nibbles of a byte key |
| MptNodes.MptNode.GetKey | crates/mpt/src/mpt.rs:530-532 | lookup under the nibbles of a byte key |
| Replay.Play | crates/mpt/src/mpt.rs:1458-1494 | over every run with the hash taken after each step: each hash is that of the trie that the operations so far describe, computed from scratch |
| Leaves.ForEachLeaves | crates/mpt/src/mpt.rs:416-443 | the traversal with an explicit stack ends and calls back for just the leaves, in a fixed order |
| Leaves.VisitedIsPresent | crates/mpt/src/mpt.rs:416-443 | a lookup finds every leaf that is visited |
| Leaves.PresentIsVisited | crates/mpt/src/mpt.rs:416-443 | every key that a lookup finds is visited |
| Leaves.VisitsDescend | crates/mpt/src/mpt.rs:416-443 | the keys are visited from the largest one down, so none twice |
| Leaves.PackedNibs | crates/mpt/src/mpt.rs:431-435 | the bytes of a path have its nibbles, and a zero nibble after an odd number of them |
| Leaves.CallsAreTheEntries | crates/mpt/src/mpt.rs:416-443 | with keys of whole bytes the calls are exactly the pairs that lookups report, each once |
| Resolution.ResolvePrunes | crates/mpt/src/mpt.rs:1023-1049 | for every store keyed by its nodes' own references: resolving replaces nothing but digests, by nodes with that digest |
| Resolution.ResolveIsUnbounded | crates/mpt/src/mpt.rs:1023-1049 | the recursion ends with some depth if and only if it ends with the size of the store, and then with the same result |
| Resolution.ResolveKeepsHash | crates/mpt/src/mpt.rs:1045-1046 | for every such store, whenever it ends it keeps reference, hash and every answer |
| Resolution.ResolveAnswers | crates/mpt/src/mpt.rs:1023-1049 | with a store that knows the nodes on the way to a key, the resolved trie answers for it as the full trie |
| Termination.EndsExactly | crates/mpt/src/mpt.rs:1037-1042 | resolving a root ends if and only if no way from it through the store passes the same digest twice |
| Termination.RankedExactly | crates/mpt/src/mpt.rs:1037-1042 | the digests of a store can be ranked if and only if none reaches itself; then every root can be resolved |
| Ranking.HonestStoreResolves | crates/mpt/src/mpt.rs:1023-1049 | from a store of nodes of full tries every root can be resolved |
| Termination.FiledDigestIsEndless | crates/mpt/src/mpt.rs:1037-1042 | a digest filed as a node reaches itself, and no root that shows it can be resolved |
| Limits.BareDigestIsEndless | crates/mpt/src/mpt.rs:1194-1215 | a digest item as the only proof of a slot is accepted, and building the storage trie does not end |
| Limits.BareDigestInWitness | crates/mpt/src/execution_witness.rs:20-39 | a digest item as the only witness node: building does not end if and only if the digest, or the item itself, is the anchor; else it changes nothing |
| Proofs.MptFromProof | crates/mpt/src/mpt.rs:970-1011 | the loop from the last node back to the root joins the nodes |
| Proofs.JoinIsCorrect | crates/mpt/src/mpt.rs:970-1011 | a proof is accepted if and only if each node holds the next one by its digest; the trie has the reference and hash of the first node and completes it; the error is that of the last broken link |
| Proofs.InlineIsWhole | crates/mpt/src/mpt.rs:480-493 | a node that is held in line leaves nothing out |
| Proofs.ProofAnswers | crates/mpt/src/mpt.rs:970-1020 | the proof of a key of a full trie is accepted; the trie answers for the key as the full one if and only if no branch on the way has an earlier twin of the child, and else not at all |
| Limits.TwinsBreakTheProof | crates/mpt/src/mpt.rs:1014-1020 | for every key whose hash does not start with a zero nibble: two equal leaves for which the valid proof of the key makes `is_not_included`, and adding its orphans, panic |
| Orphans.ShortenNodePath | crates/mpt/src/mpt.rs:1055-1075 | all shortened versions of a leaf or extension, the longest first, and nothing for other nodes |
| Orphans.OrphanEndsThePath | crates/mpt/src/mpt.rs:608-684 | after a collapse onto a leaf or an extension, the lookup of the deleted key ends at that node with a longer path, also after a merge above |
| Orphans.DigestIsMet | crates/mpt/src/mpt.rs:546-575 | a lookup fails if and only if its way ends at a digest, and names that digest |
| OrphanRecovery.AddOrphanedLeafs | crates/mpt/src/mpt.rs:1241-1258 | files every shortened version of the last node of an exclusion proof, nothing for an inclusion proof; errors and panics as in the code |
| OrphanRecovery.ParsesExactly | crates/mpt/src/mpt.rs:964-966 | a proof is readable if and only if all its nodes decode; the first one that does not decides between an error and a panic |
| OrphanRecovery.OrphansExactly | crates/mpt/src/mpt.rs:1241-1258 | nothing, or a proof that the key is there, leaves the store as it is; a proof that it is not files just the shortened versions of the last node, the later ones over the earlier ones; unreadable bytes are an error, and an unlinked or unanswered proof panics |
| OrphanRecovery.RawProofParses | crates/mpt/src/mpt.rs:964-966 | the bytes of a proof are read back as its nodes |
| OrphanRecovery.ProofEndsThere | crates/mpt/src/mpt.rs:1249-1250 | if the node where the lookup ends is held by digest, it is the last node of the proof |
| OrphanRecovery.ShorterEncoding | crates/mpt/src/mpt.rs:1051-1075 | a shorter path makes no longer an encoding |
| OrphanRecovery.OrphanIsKnown | crates/mpt/src/mpt.rs:1051-1075 | the exclusion proof after a deletion puts the reference of the orphan into the store if its node is a proof node, and else the orphan is held in line |
| SparseTransition.ResolveLeavesNothing | crates/mpt/src/mpt.rs:1023-1049 | no digest that is left after resolving is known to the store |
| SparseTransition.LostIsUnknown | crates/mpt/src/mpt.rs:608-684 | an orphan can only be lost if the store did not know it |
| SparseTransition.DeleteResolved | crates/mpt/src/mpt.rs:586-690 | on a trie resolved from a store that knows the way to a key and its orphan, deleting the key ends in the hash of the full trie |
| SparseTransition.DeleteAfterResolve | crates/mpt/src/mpt.rs:1241-1258 | the same where the resolved trie is tied to the full one by its hash; the root node and the stored nodes on the way stand for nodes of the full trie |
| Loose.LooseGet | crates/mpt/src/mpt.rs:546-575 | what a trie that stands loosely answers is what the full one answers |
| Loose.InsertLoosely | crates/mpt/src/mpt.rs:713-826 | insertion into a trie that stands loosely gives the flag, the error and, loosely, the result that it gives on the full trie, unless it meets a digest |
| Loose.DeleteLoosely | crates/mpt/src/mpt.rs:586-690 | so does deletion, whatever orphan it loses |
| Recovery.FindSibling | crates/mpt/src/mpt.rs:586-690 | a digest in a sparse trie stands for a branch, or a key of the full trie leaves the path just before it |
| Recovery.FiledIsKnown | crates/mpt/src/mpt.rs:1241-1258 | adding the proof that a key is absent makes its orphans known: every node of the old trie that the node where the lookup ends turns into when its path is cut |
| Recovery.SpotIsFound | crates/mpt/src/mpt.rs:608-684 | a loose extension is never accounted for: some changed key beside it is absent, and its orphan is not known |
| Recovery.Recovered | crates/mpt/src/mpt.rs:1241-1258 | after any run of insertions and deletions: if every changed key could be looked up, and the orphans of those that are absent afterwards are known, then nothing stands loosely any more |
| Limits.DeletionLosesALeaf | crates/mpt/src/mpt.rs:632-640 | the keys 0x00 and 0x10: deleting the first one leaves a branch with the digest of a leaf; the sparse trie has an extension where the full one has a leaf |
| Accounts.WordRoundTrip | crates/mpt/src/lib.rs:108 | a 256-bit word is read back as it was written; its encoding is one item of at most 33 bytes, and so never the empty value |
| Accounts.AccountRoundTrip | crates/mpt/src/lib.rs:115-120 | so is an account record, with a 64-bit nonce and a 256-bit balance |
| Accounts.WordIsWritten | crates/executor/guest/src/io.rs:159-163 | bytes are read as a word if and only if they start with the code of that word, which has 256 bits |
| Accounts.AccountIsWritten | crates/mpt/src/mpt.rs:539-544 | bytes are read as an account if and only if they start with its record |
| StorageUpdate.FullInsert | crates/mpt/src/lib.rs:108 | with 32-byte keys no insertion fails, and the trie stays of that kind |
| StorageUpdate.FullDelete | crates/mpt/src/lib.rs:106 | nor does a deletion |
| StorageUpdate.InsertReaches | crates/mpt/src/mpt.rs:713-826 | on every trie, insertion stops at a digest if and only if a lookup of the key does, and names the same digest |
| StorageUpdate.DeleteReaches | crates/mpt/src/mpt.rs:586-690 | and so does deletion |
| StorageUpdate.OverlayIsUnique | crates/mpt/src/lib.rs:103-110 | there is just one trie in normal form with the old entries overlaid by the written slots |
| StorageUpdate.WriteSlots | crates/mpt/src/lib.rs:99-110 | in any order of the slots: an `unwrap` fails just when a slot cannot be looked up; else, wiped or not, the full trie ends as the old one overlaid with the non-zero slots and without the zero ones, the sparse trie stands for it, loosely at least, and altogether if it did and no slot was cleared, and only the written slots have changed in it |
| EthereumStates.EthereumState.UpdateAccount | crates/mpt/src/lib.rs:88-126 | one account: fails just when the account or one of its slots cannot be looked up; else storage, storage root and record, or removal; other accounts and storages are as before |
| EthereumStates.UpdateStep | crates/mpt/src/lib.rs:88-126 | accounts that were done stay done |
| EthereumStates.SameRoots | crates/mpt/src/lib.rs:112-121 | if the sparse tries stand for the full ones then the storage roots that were written are right, and so is the state root |
| EthereumStates.UpdateIsUnique | crates/mpt/src/lib.rs:87-128 | there is just one full state that is up to date: the order of the hash maps shows nowhere |
| EthereumStates.EthereumState.Update | crates/mpt/src/lib.rs:87-128 | in any order: fails just when an account or a slot cannot be looked up beforehand, so never on a full state; else every touched account has its storage overlaid and a record with the hash of the storage trie as held, removed accounts are gone, all else is as before; the sparse state stands for that, loosely at least, and altogether if it did and nothing was removed; then the roots are right |
| Readback.AccountAfterUpdate | crates/mpt/src/lib.rs:112-126 | after an update every kept account is read with the nonce and the balance of the changes, its code hash or that of no code, and the hash of its storage trie; a removed account is gone; all others are as before |
| Readback.SlotAfterUpdate | crates/mpt/src/lib.rs:89-110 | a slot that is written has the new word, and no entry for zero; a slot that is not keeps its entry, unless the storage is wiped or had no trie; storages of accounts that are not kept stay |
| Worlds.HeldRoot | crates/mpt/src/mpt.rs:449-457 | the hash of a trie with 32-byte keys is the Yellow Paper's root of its entries |
| Worlds.UpdatedWorld | crates/mpt/src/lib.rs:87-133 | if the state holds a set of accounts with their storage, and the storage tries of the kept ones are there unless empty or wiped, then the updated state holds the accounts with the changes applied, and its root is the one that the paper defines for them |
| EthereumStates.EthereumState.StateRoot | crates/mpt/src/lib.rs:131-133 | the root hash of the state trie; only caches change |
| Limits.MissingStorageIsForgotten | crates/mpt/src/lib.rs:95-97 | an account without a supplied storage trie and without changed slots ends with the empty storage root |
| Limits.StorageRootExactly | crates/mpt/src/lib.rs:95-121 | the storage root that is written is right if and only if the storage trie was supplied, or the storage is wiped, or all its keys are written |
| HonestProofs.FiledHonestly | crates/mpt/src/mpt.rs:1172-1182 | the proof of an honest node is filed without an error: all its nodes are then in the store, which still holds nothing but nodes of the tries, and the first one is the root |
| Transition.StorageTrie | crates/mpt/src/mpt.rs:1189-1230 | proofs, then orphans, then resolving and the check of the root, as `StorageOutcome` puts it together; not coming to an end is an outcome |
| Transition.NamedRoot | crates/mpt/src/mpt.rs:1261-1266 | a trie known by its digest only has that digest as its hash; nothing but zeros stands for the empty trie |
| Acceptance.FiledExactly | crates/mpt/src/mpt.rs:1172-1182 | a proof is taken if and only if all its bytes are nodes and each holds the next one by its digest; then just its nodes are filed, and the first one is the root |
| Acceptance.StorageExactly | crates/mpt/src/mpt.rs:1189-1230 | for all storage proofs: which of them panic or are decoding errors; if none is, the trie grows from the first node of the last proof, with the nodes of all proofs and the shortened nodes of all exclusion proofs, and its hash decides |
| Acceptance.BuildsExactly | crates/mpt/src/mpt.rs:1171-1230 | the loop over the accounts gets to its end if and only if every account is taken; else the first one that is not says which error it is |
| Acceptance.BuiltFrom | crates/mpt/src/mpt.rs:1171-1233 | the state trie then grows from the first node of the last account's proof, with just the nodes of all accounts' proofs and the shortened nodes of the exclusion proofs |
| Acceptance.StopsInAnyOrder | crates/mpt/src/mpt.rs:1171-1230 | whether an error stops the loop does not depend on the order of the accounts |
| Transition.AccountMatches | crates/mpt/src/mpt.rs:1171-1230 | one account of the loop: its storage trie has the root that its proof names and the others stay, or the error says which root was found instead |
| Transition.AccountsKeyed | crates/mpt/src/mpt.rs:1171-1233 | whatever the proofs: every node is filed under its own reference, so that resolving the root keeps its hash whenever it ends |
| Transition.EndlessExactly | crates/mpt/src/mpt.rs:1233-1234 | building the state trie does not end exactly when some way through the filed nodes comes back to the same digest |
| Transition.TransitionProofsToTries | crates/mpt/src/mpt.rs:1153-1238 | for all proofs: the outcome is that of some order of the addresses, each once; no address at all gives the state root as a digest |
| Transition.TransitionMatches | crates/mpt/src/mpt.rs:1153-1238 | whatever the proofs and the order: a state that comes out has the given root, its storage tries have the roots that the proofs name, and an error names a root that was expected and not found |
| Handover.LongKeysLongEncoding | crates/mpt/src/mpt.rs:480-493 | the longer the keys, the longer the encoding |
| Handover.DigestStands | crates/mpt/src/mpt.rs:1261-1266 | with 32-byte keys no root is held in line, so that the digest of a trie stands for it |
| Handover.TransitionStands | crates/mpt/src/mpt.rs:1153-1238 | by its hashes alone, the state that was built stands for every full state with those roots |
| Handover.ProofCovers | crates/mpt/src/mpt.rs:1179-1181 | the nodes of a proof cover its key |
| HonestProofs.HonestResolve | crates/mpt/src/mpt.rs:1023-1049 | from a store of nodes of full tries nothing but the full trie can be resolved |
| HonestProofs.OrphansAddedHonestly | crates/mpt/src/mpt.rs:1241-1258 | the exclusion proofs of an honest node are added without an error, unless there are twins, and then every shortened version of their last node is filed |
| HonestProofs.ResolvedHonestly | crates/mpt/src/mpt.rs:1023-1049 | resolving ends; the trie stands for the full one, has its hash, answers for all known keys, and no digest is left that the store knows |
| HonestProofs.StorageIsRebuilt | crates/mpt/src/mpt.rs:1189-1230 | from honest proofs the storage trie is rebuilt, from a store with the proofs of all slots before and the orphans of all slots absent after the block |
| HonestTransition.TransitionIsRebuilt | crates/mpt/src/mpt.rs:1153-1238 | for every order of the addresses: from the proofs of an honest node the state is rebuilt without an error, stands for the full state as the update needs it, and answers for all proven accounts and slots |
| HonestTransition.AccountsAdded | crates/mpt/src/mpt.rs:1171-1230 | work on honest proofs never stops on the way; every account that was taken up is ready |
| HonestBlock.RebuiltCanUpdate | crates/mpt/src/lib.rs:87-128 | with proofs for everything that a block changes, the update of the rebuilt state fails at no `unwrap` |
| HonestBlock.StorageStands | crates/mpt/src/lib.rs:99-112 | the storage trie of a kept account, wiped, untouched or rebuilt from proofs, stands for the full one after all its slots are written, so that its root is right |
| HonestBlock.BlockStands | crates/mpt/src/lib.rs:87-128 | whatever was inserted and removed in a block, and in whatever order: the updated sparse state stands for the honest node's state after the block and has its root |
| HonestBlock.UpdateRebuilt | crates/mpt/src/lib.rs:87-133 | from the honest proofs before and after a block, over the rebuilt state and its update, to the state root after the block: no step fails, and the root is right |
| Witness.IndexWitness | crates/mpt/src/execution_witness.rs:16-32 | the loop indexes the decoded nodes by reference and by the digest of their bytes and remembers the root |
| Witness.IndexHolds | crates/mpt/src/execution_witness.rs:16-32 | every node is found in both indices, nothing else is, and decoding is the only way to fail |
| Witness.CollectAccounts | crates/mpt/src/execution_witness.rs:41-45 | reads address and storage root of every leaf; fails exactly when a leaf is no account |
| Witness.BuildStorages | crates/mpt/src/execution_witness.rs:50-67 | the loop over the accounts, up to a trie that comes out as a digest or does not end |
| Witness.StoragesHold | crates/mpt/src/execution_witness.rs:50-67 | every account whose root node is known gets a storage trie resolved from it, which is no digest, and no other address does; it fails only for a bare digest or a node that cannot be resolved |
| Witness.ValidateStorageTries | crates/mpt/src/execution_witness.rs:85-106 | accepts if and only if every storage trie hashes to the storage root of its account; the error is that of one that does not, with both roots |
| Witness.BuildValidatedTries | crates/mpt/src/execution_witness.rs:12-75 | returns just the tries of `BuildOutcome` if they pass, an error if not; what is returned hashes to the anchor and to the storage roots |
| Witness.TriesAreCorrect | crates/mpt/src/execution_witness.rs:34-67 | exactly the accounts whose root node is in the witness get a storage trie, resolved from that node |
| Witness.BuiltExactly | crates/mpt/src/execution_witness.rs:12-75 | for every witness: what holds when the tries are built, when building does not end, and what stood in the way when it panics |
| Witness.HonestIsBuilt | crates/mpt/src/execution_witness.rs:12-75 | on nodes in the program's encoding and accounts at the leaves, building and validating can fail only by not coming to an end |
| Witness.CheckState | crates/executor/guest/src/io.rs:199-213 | the guest's checks pass if and only if the state trie hashes to the anchor and every storage trie to its account's root, the empty root for an absent account; each failure is the one the code reports |
| Witness.HostOutputPasses | crates/executor/guest/src/io.rs:202-213 | what the host validated passes the checks of the guest |
| Witness.BuildAndOpen | crates/executor/guest/src/io.rs:202-213 | whatever is built from a witness, honest or not, is accepted by the guest |
| HonestWitness.RootIsRead | crates/mpt/src/execution_witness.rs:22-27 | the witness node with the hash of a trie is the root of that trie |
| HonestWitness.WitnessIsServed | crates/mpt/src/execution_witness.rs:12-75 | from an honest witness the tries are built, stand for the full ones, answer for every key it proves, and no account with a proof and a storage root node is left without a storage trie |
| HonestWitness.ServedCanUpdate | crates/mpt/src/lib.rs:75-128 | what is built from a witness is what the update asks for, and if the witness proves all changes then the update fails at no `unwrap` |
| HonestExecution.ServedStands | crates/mpt/src/lib.rs:99-112 | the storage trie of a kept account, wiped, not supplied or built from a witness that has its orphans, ends as that of the full state |
| HonestExecution.ExecutionStands | crates/mpt/src/lib.rs:87-128 | whatever was changed in a block, and in whatever order: the updated state that was built from the witness has the root of the full state after the block |
| HonestExecution.UpdateBuilt | crates/mpt/src/lib.rs:76-133 | from an honest witness that proves all changes and has the orphans of all removals, over the state that is built from it and its update, to the state root after the block: no step fails, and the root is right |
| Blocks.RootFromProofs | crates/mpt/src/lib.rs:28-133 | from the honest proofs before and after a block to the root that the Yellow Paper defines for the accounts and storage that the block leaves |
| Blocks.RootFromWitness | crates/mpt/src/lib.rs:76-133 | the same from an honest execution witness |
| TrieDb.GuestReadsTruth | crates/executor/guest/src/io.rs:128-164 | on a state that passed the checks, every account and every storage word that is read is that of every full state with the anchor as its root; an address without an account has empty storage |
| Readback.BasicIsRead | crates/executor/guest/src/io.rs:128-143 | an account is read if and only if its record is found, none if and only if there is no entry; it panics exactly when a digest is met or the entry is no record |
| Readback.SlotIsRead | crates/executor/guest/src/io.rs:150-164 | a slot without an entry is zero, any other is the word in its entry; it panics exactly when the storage trie is not supplied, a digest is met or the entry is no word |
| Readback.BasicAfterUpdate | crates/executor/guest/src/io.rs:128-143 | on an updated state a kept account is read with the new nonce, balance and code hash, and a removed one as none |
| Readback.StorageAfterUpdate | crates/executor/guest/src/io.rs:150-164 | on an updated state a written slot is read as the new word, zero included, and another one as before, or as zero after wiping |
| Ancestors.CheckHeaders | crates/executor/guest/src/io.rs:218-239 | accepts if and only if every header has the number before that of its child, in 64 bits, and the hash that its child names as its parent's; the map has just the ancestors and their hashes; an error is that of the first bad pair, with its two numbers or hashes |
| Ancestors.AcceptedIsTheChain | crates/executor/guest/src/io.rs:218-239 | whatever headers are accepted: if the first one names the parent block and no two headers collide, every header is the chain's header of its number, and every hash in the map is that of the block |
| Ancestors.BasicRpcDb.FetchBlockHash | crates/storage/rpc-db/src/basic.rs:127-145 | answers with the hash of the block and lowers the oldest ancestor, only if the block is found |
| Ancestors.BasicRpcDb.AncestorHeaders | crates/storage/rpc-db/src/basic.rs:273-309 | the headers from the block down to the oldest ancestor without gaps; fails exactly when one is missing |
| Ancestors.BasicRpcDb.constructor | crates/storage/rpc-db/src/basic.rs:46-56 | the oldest ancestor starts at the block itself |
| Ancestors.ChainIsAccepted | crates/executor/guest/src/io.rs:218-239 | every hash-linked chain passes the guest's checks |
| Ancestors.Replay | crates/executor/guest/src/io.rs:86-89 | the guest accepts the recorded headers and knows just the hashes from the oldest ancestor to the parent block |
| Ancestors.RecordAndReplay | crates/executor/guest/src/io.rs:167-172 | after any requests on the host, the guest can answer exactly those up to the parent block, each with the hash that the host returned |

## Left out

- The EVM, precompiles, consensus checks, opcode tracking, proving, the command line and all network code: they forward to libraries that are not part of this model.
- Keccak itself, and the internals of the two RLP libraries: Appendix B of the Yellow Paper stands for them, with lengths that must be exact; leniency or strictness of the library about non-canonical headers is not modelled.
- Threads: a cached reference is a field and `oldest_ancestor` a variable; poisoned locks do not occur.
- `proofs_to_tries` and `from_account_proof`: the steps of `transition_proofs_to_tries` without the orphans, and for one account without the checks of the roots.
- `size`, `debug_rlp`, `Debug`, `Ord`, genesis tables, bytecodes, `fetch_account_info` and `fetch_storage_at`: they decide nothing here.
- Malformed tries: a present empty child, a path without bytes. Decoding a two-item list whose path is empty is an outcome of its own, a panic as in the code.
- A zero storage root, which `node_from_digest` reads as the empty trie: the theorems about honest proofs exclude it.
- Header fields other than number, parent hash and state root: they are carried along as bytes and only enter the header hash.
- `u256` arithmetic: a storage word or a balance is a natural number; only numbers below 2^256, and nonces below 2^64, are read back.
- Leaves.ForEachLeaves: does not model the capacity of 64 nibbles of the path type, which longer paths exceed with a panic.
- HonestTransition.TransitionIsRebuilt: speaks of blocks after which no branch on a proven path has an earlier twin; on the others the program panics (`Limits.TwinsBreakTheProof`).
- EthereumStates.EthereumState.Update: while something stands loosely the root is not that of the full state; `Recovery.Recovered` tells when nothing does at the end.
- Transition.TransitionProofsToTries: the program takes two hash maps of proofs that are iterated in an unspecified order; the order is an output of the model.
