/** Where the program does not do what one might expect of it: inputs that it can receive, and the exact
    conditions. */
module Limits {
  import opened Basics
  import opened HexPrefix
  import opened Rlp
  import opened Trie
  import opened NormalForm
  import opened InsertCorrect
  import opened History
  import opened Encoding
  import opened Decoding
  import opened RoundTrip
  import opened Sparse
  import opened SparseDelete
  import opened Authentication
  import opened Resolution
  import opened Ranking
  import opened Termination
  import opened Proofs
  import opened OrphanRecovery
  import opened Leaves
  import opened Accounts
  import opened StorageUpdate
  import opened EthereumStates
  import Transition
  import Witness

  // Equal children.

  /** A value that is too long for its leaf to be held in line, and short enough to be written. */
  predicate IsLong(value: Bytes) {
    32 <= |value| < 0x1_0000
  }

  lemma LongLeaf(K: Keccak, nibs: Nibbles, value: Bytes)
    requires IsLong(value) && |nibs| < 0x100
    ensures ReferenceOf(K, MakeLeaf(nibs, value)).ByDigest? && Writable(MakeLeaf(nibs, value))
  {
    hide ToEncodedPath, PrefixNibs;
    HexPrefixRoundTrip(nibs, true, nibs, true);
    PathIsShort(nibs);
    ShortLength(|ToEncodedPath(nibs, true)|);
    ShortLength(|value|);
    LengthIsExact(K, MakeLeaf(nibs, value));
  }

  lemma PathIsShort(nibs: Nibbles)
    requires |nibs| < 0x100
    ensures |ToEncodedPath(nibs, true)| <= 0x100
  {
  }

  lemma ShortLength(n: nat)
    requires n < 0x1_0000
    ensures LengthOfLength(n) <= 9
  {
    UsizeHasEightBytes(n);
  }

  /** Two equal leaves in a branch: the proof of the second one is valid, but the trie made from it does
      not answer for its key, and the check whether the key is absent panics. This is so for every key
      whose hash does not start with a zero. */
  lemma TwinsBreakTheProof(K: Keccak, key: Bytes, value: Bytes, store: Store)
    requires IsLong(value) && ToNibs(K(key))[0] != 0
    ensures var k := ToNibs(K(key));
      var leaf := MakeLeaf(k[1..], value);
      var f := Branch(map[0 := leaf, k[0] := leaf]);
      && Normal(f) && Get(f, k) == Found(Some(value)) && JoinAll(K, ProofOf(K, f, k)).Joined?
      && IsNotIncluded(K, k, ProofOf(K, f, k)) == InclusionPanic
      && AfterOrphans(K, key, RawProof(K, f, k), store) == AddPanic
  {
    hide ToEncodedPath, PrefixNibs, ReferenceOf, Join, Shallow, Canonical, ToNibs, RawProof, ProofOf, FileAll, Writable;
    var k := ToNibs(K(key));
    var leaf := MakeLeaf(k[1..], value);
    var f := Branch(map[0 := leaf, k[0] := leaf]);
    LongLeaf(K, k[1..], value);
    MakeLeafProper(k[1..], value);
    PairIsProper(0, leaf, k[0], leaf);
    PairIsWritable(0, leaf, k[0], leaf);
    var p := ProofOf(K, f, k);
    assert p[0..] == p;
    assert f.children[0] == f.children[k[0]];
    assert !NoTwin(K, f, k);
    ProofAnswers(K, f, k, p, 0);
    RawProofParses(K, f, k);
  }

  lemma PairIsProper(i: nibble, a: Node, j: nibble, b: Node)
    requires Proper(a) && Proper(b) && i != j
    ensures Proper(Branch(map[i := a, j := b]))
    ensures DigestFree(a) && DigestFree(b) ==> DigestFree(Branch(map[i := a, j := b]))
  {
    hide Canonical;
    var f := Branch(map[i := a, j := b]);
    assert i in f.children && j in f.children;
  }

  lemma PairIsWritable(i: nibble, a: Node, j: nibble, b: Node)
    requires Writable(a) && Writable(b) && !a.Null? && !b.Null? && i != j
    ensures Writable(Branch(map[i := a, j := b]))
  {
  }

  // A lost orphan.

  /** The keys 0x00 and 0x10, the second one with a long value: when the first one is deleted, a sparse trie
      that knows just the digest of the second leaf turns its branch into an extension, where the full
      trie has a leaf. */
  lemma DeletionLosesALeaf(K: Keccak, value: Bytes)
    requires IsLong(value)
    ensures var short, long := MakeLeaf([0], [1]), MakeLeaf([0], value);
      var f := Branch(map[0 := short, 1 := long]);
      var s := Branch(map[0 := short, 1 := Stub(K, long)]);
      && Normal(f) && WellFormed(s) && Prunes(K, s, f) && LosesOrphan(s, f, ToNibs([0x00]))
      && Get(f, ToNibs([0x00])) == Found(Some([1])) && Get(f, ToNibs([0x10])) == Found(Some(value))
      && Delete(f, ToNibs([0x00])) == Done(MakeLeaf(ToNibs([0x10]), value), true)
      && Delete(s, ToNibs([0x00])) == Done(MakeExtension([1], Stub(K, long)), true)
  {
    hide ToEncodedPath, PrefixNibs, Canonical;
    var short, long := MakeLeaf([0], [1]), MakeLeaf([0], value);
    var f := Branch(map[0 := short, 1 := long]);
    var s := Branch(map[0 := short, 1 := Stub(K, long)]);
    TwoNibs();
    LongLeaf(K, [0], value);
    ShallowPrunes(K, long);
    MakeLeafProper([0], [1]);
    MakeLeafProper([0], value);
    PairIsProper(0, short, 1, long);
    PairIsProper(0, short, 1, Stub(K, long));
    HexPrefixRoundTrip([0], true, [0], true);
    assert [0, 0][1..] == [0] && [1, 0][1..] == [0];
    assert Delete(short, [0]) == Done(Null, true);
    assert f.children - {0} == map[1 := long] && s.children - {0} == map[1 := Stub(K, long)];
    assert Only(f.children - {0}, 1) && Only(s.children - {0}, 1);
    ShrinkOnly(f.children - {0}, 1);
    ShrinkOnly(s.children - {0}, 1);
    assert [1] + [0] == [1, 0];
  }

  lemma TwoNibs()
    ensures ToNibs([0x00]) == [0, 0] && ToNibs([0x10]) == [1, 0]
  {
    assert ToNibs([]) == [];
    assert [0x00 as byte][1..] == [] && [0x10 as byte][1..] == [];
  }

  // A digest instead of a node.

  lemma BareDigest(K: Keccak, hash: Hash)
    ensures Decode(EncodeString(hash)) == Ok(Digest(hash)) && ReferenceOf(K, Digest(hash)) == ByDigest(hash)
  {
    DigestItem(hash);
  }

  /** A digest in place of a node is accepted as a proof, and filed under itself. */
  lemma BareDigestIsFiled(K: Keccak, hash: Hash)
    ensures Transition.AfterFiling(K, [EncodeString(hash)], map[])
         == Transition.Filed(Some(Digest(hash)), map[ByDigest(hash) := Digest(hash)])
  {
    hide Decode, EncodeString, ReferenceOf, Splice;
    var proof := [EncodeString(hash)];
    var nodes, store: Store := [Digest(hash)], map[];
    BareDigest(K, hash);
    assert proof[1..] == [] && nodes[1..] == [];
    assert ParseProof([]) == Nodes([]);
    assert ParseProof(proof) == Nodes(nodes);
    assert FileAll(K, store, nodes) == FileAll(K, File(K, store, nodes[0]), []);
  }

  /** As the only proof of a slot: building the storage trie does not come to an end. */
  lemma BareDigestIsEndless(K: Keccak, hash: Hash, root: Hash, key: Hash)
    ensures var before := Transition.AccountProof([], root, [Transition.StorageProof(key, [EncodeString(hash)])]);
      Transition.StorageOutcome(K, before, Transition.AccountProof([], root, [])) == Transition.StorageEndless
  {
    hide EncodeString, Transition.AfterFiling, Resolve;
    BareDigestIsFiled(K, hash);
    var store: Store := map[ByDigest(hash) := Digest(hash)];
    FiledDigestIsEndless(Digest(hash), store, hash);
    var proofs := [Transition.StorageProof(key, [EncodeString(hash)])];
    assert proofs[1..] == [];
    assert Transition.AfterSlots(K, [], Digest(hash), store) == Transition.Filed(Some(Digest(hash)), store);
    assert Transition.AfterSlots(K, proofs, Null, map[]) == Transition.Filed(Some(Digest(hash)), store);
    assert Transition.AfterSlotOrphans(K, [], store) == Added(store);
  }

  lemma BareDigestIndex(K: Keccak, hash: Hash, anchor: Hash)
    ensures var e := EncodeString(hash);
      Witness.IndexAll(K, [e], anchor)
      == Witness.Index(map[ByDigest(hash) := Digest(hash)], map[K(e) := Digest(hash)], if K(e) == anchor then Some(Digest(hash)) else None)
  {
    hide Decode, EncodeString, ReferenceOf;
    var e := EncodeString(hash);
    BareDigest(K, hash);
    assert [e][..0] == [];
    assert Witness.IndexAll(K, [], anchor) == Witness.Index(map[], map[], None);
  }

  /** As the only node of an execution witness: building the tries does not come to an end exactly when the
      digest, or the node itself, is the anchor; otherwise the digest is never reached, and does no harm. */
  lemma BareDigestInWitness(K: Keccak, hash: Hash, anchor: Hash)
    ensures var o := Witness.BuildOutcome(K, [EncodeString(hash)], anchor);
      && (o == Witness.BuildEndless <==> hash == anchor || K(EncodeString(hash)) == anchor)
      && (o != Witness.BuildEndless ==> o == Witness.Built(Digest(anchor), map[]))
  {
    hide EncodeString, Witness.IndexAll;
    BareDigestIndex(K, hash, anchor);
    var index := Witness.IndexAll(K, [EncodeString(hash)], anchor);
    var root := Witness.RootOf(index, anchor);
    if hash == anchor || K(EncodeString(hash)) == anchor {
      hide Resolve;
      assert Shows(root, hash);
      FiledDigestIsEndless(root, index.byReference, hash);
    } else {
      assert Resolve(root, index.byReference) == Some(Digest(anchor));
      assert LeavesOf(Digest(anchor), []) == [];
      HashOfDigest(K, anchor);
    }
  }

  // A storage trie that is not supplied.

  /** An account whose storage trie was not supplied, and which has no changed slots, is written with
      the root of the empty trie, whatever storage it had. */
  lemma MissingStorageIsForgotten(K: Keccak, before: State, post: PostState, after: State, a: Hash)
    requires StateFull(after) && IsUpdated(K, before, post, post.accounts.Keys, after)
    requires a in post.accounts && post.accounts[a].Some? && a !in before.storages
    requires StorageChange(post, a).slots == map[]
    ensures after.storages[a] == Null
    ensures exists record: TrieAccount ::
      Get(after.trie, ToNibs(a)) == Found(Some(EncodeAccount(record))) && record.storageRoot == EMPTY_ROOT
  {
    hide Get, Full, ToNibs, EncodeAccount, IsUpdated, HashOf, IsOverlay;
    StorageAndRecord(K, before, post, after, a);
    assert StorageBase(before, post, a) == Null && StorageChange(post, a).slots.Keys == {};
    EmptyOverlay(after.storages[a]);
    var record := Record(K, post.accounts[a].value, after.storages[a]);
    HashOfEmpty(K);
    assert Get(after.trie, ToNibs(a)) == Found(Some(EncodeAccount(record)));
  }

  /** The storage trie and the record of an account that is kept. */
  lemma StorageAndRecord(K: Keccak, before: State, post: PostState, after: State, a: Hash)
    requires StateFull(after) && IsUpdated(K, before, post, post.accounts.Keys, after) && Kept(post, a)
    ensures a in after.storages && Full(after.storages[a])
    ensures IsOverlay(after.storages[a], StorageBase(before, post, a), StorageChange(post, a).slots, StorageChange(post, a).slots.Keys)
    ensures Get(after.trie, ToNibs(a)) == Found(Some(EncodeAccount(Record(K, post.accounts[a].value, after.storages[a]))))
  {
    hide Get, Full, ToNibs, EncodeAccount, IsOverlay, HashOf, Record, StorageChange, StorageBase;
    assert a in post.accounts.Keys;
  }

  lemma EmptyOverlay(n: Node)
    requires Full(n) && IsOverlay(n, Null, map[], {})
    ensures n == Null
  {
    hide Get, FixedKeys;
    forall k
      ensures Get(n, k) == Get(Null, k)
    {
    }
    NormalFormIsUnique(n, Null);
  }

  /** All keys of the trie are among the written slots. */
  ghost predicate Covered(f: Node, slots: map<Hash, nat>) {
    forall k :: Present(f, k) ==> exists key :: key in slots && ToNibs(key) == k
  }

  /** The storage root in the record of an account, or the empty one if there is no account. */
  function OldRoot(trie: Node, a: Hash): Option<Hash> {
    match Witness.GetAccount(trie, a)
    case Failing => None
    case Answer(None) => Some(EMPTY_ROOT)
    case Answer(Some(record)) => Some(record.storageRoot)
  }

  /** Exactly when the storage root that is written is right. `f` is the storage trie of the account, with
      the root that its old record names; if the state holds a storage trie for the account then with the
      same root. `right` is `f` with the slots overwritten. The root is right if and only if the storage
      trie was supplied, or the storage is wiped, or every key of `f` is among the written slots. */
  lemma StorageRootExactly(K: Keccak, before: State, post: PostState, after: State, a: Hash, f: Node, right: Node)
    requires StateFull(before) && StateFull(after) && IsUpdated(K, before, post, post.accounts.Keys, after) && Kept(post, a)
    requires Full(f) && OldRoot(before.trie, a) == Some(HashOf(K, f))
    requires a in before.storages ==> HashOf(K, before.storages[a]) == HashOf(K, f) && Comparable(K, before.storages[a], f)
    requires var change := StorageChange(post, a);
      Full(right) && IsOverlay(right, if change.wiped then Null else f, change.slots, change.slots.Keys)
    requires a in after.storages ==> Comparable(K, after.storages[a], right)
    ensures a in after.storages
    ensures Get(after.trie, ToNibs(a))
         == Found(Some(EncodeAccount(Record(K, post.accounts[a].value, after.storages[a]))))
    ensures Record(K, post.accounts[a].value, after.storages[a]).storageRoot == HashOf(K, right) <==>
      a in before.storages || StorageChange(post, a).wiped || Covered(f, StorageChange(post, a).slots)
  {
    hide Get, Normal, FixedKeys, ToNibs, EncodeAccount, HashOf, Comparable, IsOverlay, StorageChange, Covered, IsUpdated;
    StorageAndRecord(K, before, post, after, a);
    var n, change := after.storages[a], StorageChange(post, a);
    SameHashIsSame(K, n, right);
    if a in before.storages {
      SameHashIsSame(K, before.storages[a], f);
    }
    if a in before.storages || change.wiped {
      OverlayIsUnique(n, right, StorageBase(before, post, a), change.slots);
    } else {
      OverlaysAgree(n, right, f, change.slots);
    }
  }

  lemma SameHashIsSame(K: Keccak, s: Node, f: Node)
    requires Full(s) && Full(f) && Comparable(K, s, f)
    ensures HashOf(K, s) == HashOf(K, f) <==> s == f
  {
    hide HashOf, Comparable, WellFormed, FixedKeys;
    if HashOf(K, s) == HashOf(K, f) {
      SameHashPrunes(K, s, f);
      PrunesNothing(K, s, f);
    }
  }

  /** Overlays of the empty trie and of `f` with the same slots are equal exactly when the slots cover `f`. */
  lemma OverlaysAgree(n: Node, right: Node, f: Node, slots: map<Hash, nat>)
    requires Full(n) && Full(right) && Full(f)
    requires IsOverlay(n, Null, slots, slots.Keys) && IsOverlay(right, f, slots, slots.Keys)
    ensures n == right <==> Covered(f, slots)
  {
    hide Get, ToNibs, FixedKeys, Normal, SlotLookup;
    if Covered(f, slots) {
      forall k
        ensures Get(n, k) == Get(right, k)
      {
        UncoveredAgree(n, right, f, slots, k);
      }
      NormalFormIsUnique(n, right);
    } else {
      var k :| Present(f, k) && forall key :: key in slots ==> ToNibs(key) != k;
      assert forall key :: key in slots.Keys ==> ToNibs(key) != k;
      assert Get(right, k) == Get(f, k) && Get(n, k) == Get(Null, k);
      NullIsEmpty(k);
    }
  }

  lemma UncoveredAgree(n: Node, right: Node, f: Node, slots: map<Hash, nat>, k: Nibbles)
    requires Full(f) && Covered(f, slots)
    requires IsOverlay(n, Null, slots, slots.Keys) && IsOverlay(right, f, slots, slots.Keys)
    ensures Get(n, k) == Get(right, k)
  {
    hide Get, ToNibs, FixedKeys, SlotLookup;
    if key :| key in slots.Keys && ToNibs(key) == k {
      assert Get(n, ToNibs(key)) == Get(right, ToNibs(key));
    } else {
      FullAnswers(f, k);
      NullIsEmpty(k);
      assert !Present(f, k);
    }
  }

  lemma NullIsEmpty(k: Nibbles)
    ensures Get(Null, k) == Found(None)
  {
  }
}
