/** With the nodes that an honest node hands out as an execution witness, the tries of a block are
    built without an error and answer for everything that the witness proves. */
module HonestWitness {
  import opened Basics
  import opened HexPrefix
  import opened Trie
  import opened Encoding
  import opened Decoding
  import opened RoundTrip
  import opened Sparse
  import opened Resolution
  import opened Ranking
  import opened Proofs
  import opened OrphanRecovery
  import opened Leaves
  import opened Accounts
  import opened Witness
  import opened HonestProofs
  import Handover
  import StorageUpdate
  import EthereumStates
  import HonestBlock

  /** Every witness node is the encoding of a node of one of the tries. */
  ghost predicate FromTries(K: Keccak, tries: seq<Node>, encodings: seq<Bytes>) {
    forall e :: e in encodings ==> IsEncoding(K, tries, e)
  }

  ghost predicate IsEncoding(K: Keccak, tries: seq<Node>, e: Bytes) {
    exists m :: IsNode(tries, m) && e == Encode(K, m)
  }

  lemma EncodingIsRead(K: Keccak, tries: seq<Node>, m: Node)
    requires Sources(K, tries) && IsNode(tries, m)
    ensures Decode(Encode(K, m)) == Ok(Shallow(K, m)) && IsRead(K, tries, Shallow(K, m))
    ensures !Shallow(K, m).Digest? && Encode(K, Shallow(K, m)) == Encode(K, m)
  {
    hide Decode, Encode, Shallow, Sources;
    NodeInherits(K, tries, m);
    DecodeEncode(K, m);
    ShallowEncodes(K, m);
    Handover.ShallowIsNoDigest(K, m);
  }

  lemma WitnessIsHonest(K: Keccak, tries: seq<Node>, encodings: seq<Bytes>)
    requires Sources(K, tries) && FromTries(K, tries, encodings)
    ensures Honest(K, encodings)
  {
    hide Decode, Encode, Shallow, Sources, IsRead, IsNode;
    forall e | e in encodings
      ensures IsHonest(K, e)
    {
      assert IsEncoding(K, tries, e);
      var m :| IsNode(tries, m) && e == Encode(K, m);
      EncodingIsRead(K, tries, m);
    }
  }

  /** The store of the index holds nothing but nodes of the tries. */
  lemma {:induction false} IndexIsHonest(K: Keccak, tries: seq<Node>, encodings: seq<Bytes>, anchor: Hash)
    requires Sources(K, tries) && FromTries(K, tries, encodings)
    ensures var index := IndexAll(K, encodings, anchor); index.Index? && HonestStore(K, tries, index.byReference)
    decreases |encodings|
  {
    hide Decode, Encode, Shallow, Sources, IsRead, ReferenceOf, IsNode;
    if encodings != [] {
      var last := |encodings| - 1;
      assert encodings[last] in encodings;
      assert IsEncoding(K, tries, encodings[last]);
      var m :| IsNode(tries, m) && encodings[last] == Encode(K, m);
      EncodingIsRead(K, tries, m);
      IndexIsHonest(K, tries, encodings[..last], anchor);
    }
  }

  /** The witness node with the hash of a trie is the root of that trie. */
  lemma RootIsRead(K: Keccak, tries: seq<Node>, encodings: seq<Bytes>, f: Node, n: Node)
    requires Sources(K, tries) && FromTries(K, tries, encodings) && f in tries
    requires Indexed(K, encodings, HashOf(K, f), n)
    ensures n == Shallow(K, f)
  {
    hide Decode, Encode, Shallow, HashOf, Within;
    var e :| e in encodings && K(e) == HashOf(K, f) && Decode(e) == Ok(n);
    assert IsEncoding(K, tries, e);
    var m :| IsNode(tries, m) && e == Encode(K, m);
    var g :| g in tries && Within(m, g);
    IsNodeItself(tries, f);
    NodeInherits(K, tries, f);
    HashIsDigestOfEncoding(K, f);
    WithinInherits(K, m, g);
    assert Encode(K, m) in Encodings(K, m) && Encode(K, f) in Encodings(K, f) by { NodeInherits(K, tries, m); }
    assert NoCollision(K, Encodings(K, g), Encodings(K, f));
    assert Encode(K, m) == Encode(K, f);
    EncodingIsRead(K, tries, f);
  }

  /** The witness has the whole proof of a key. */
  predicate Proves(K: Keccak, encodings: seq<Bytes>, f: Node, key: Nibbles) {
    forall e :: e in RawProof(K, f, key) ==> e in encodings
  }

  lemma {:induction false} ProofIsDecoded(K: Keccak, f: Node, key: Nibbles)
    requires Writable(f)
    ensures |RawProof(K, f, key)| == |ProofOf(K, f, key)|
    ensures forall i :: 0 <= i < |ProofOf(K, f, key)| ==> Decode(RawProof(K, f, key)[i]) == Ok(ProofOf(K, f, key)[i])
  {
    hide ReferenceOf, PrefixNibs, Shallow, Encode, Decode;
    DecodeEncode(K, f);
    match f
    case Branch(children) =>
      if RawBelow(K, f, key) != [] {
        ProofIsDecoded(K, children[key[0]], key[1..]);
      }
    case Extension(path, child) =>
      if RawBelow(K, f, key) != [] {
        ProofIsDecoded(K, child, key[|PrefixNibs(path)|..]);
      }
    case _ =>
  }

  lemma ProvenIsKnown(K: Keccak, encodings: seq<Bytes>, index: Index, f: Node, key: Nibbles)
    requires index.Index? && AllIndexed(K, encodings, index) && Writable(f) && Proves(K, encodings, f, key)
    ensures Known(K, index.byReference, f, key)
  {
    hide ReferenceOf, Decode, ProofOf, RawProof;
    ProofIsDecoded(K, f, key);
    forall n | n in ProofOf(K, f, key)
      ensures ReferenceOf(K, n) in index.byReference
    {
      var i :| 0 <= i < |ProofOf(K, f, key)| && ProofOf(K, f, key)[i] == n;
      assert RawProof(K, f, key)[i] in encodings;
    }
  }

  /** What a trie built from the witness is to the full trie. */
  ghost predicate Serves(K: Keccak, encodings: seq<Bytes>, trie: Node, f: Node) {
    Prunes(K, trie, f) && forall key :: Proves(K, encodings, f, key) ==> Get(trie, key) == Get(f, key)
  }

  lemma ResolvedServes(K: Keccak, tries: seq<Node>, encodings: seq<Bytes>, anchor: Hash, f: Node)
    requires Sources(K, tries) && FromTries(K, tries, encodings) && f in tries
    ensures var index := IndexAll(K, encodings, anchor);
      && index.Index?
      && (var trie := Resolve(Shallow(K, f), index.byReference);
          trie.Some? && Serves(K, encodings, trie.value, f) && HashOf(K, trie.value) == HashOf(K, f))
  {
    hide Sources, FromTries, IndexAll, Shallow, HonestStore, Resolve, Prunes, Get, HashOf, AllIndexed, Proves, Known, ByHashIndexed,
      RootIndexed, Within;
    var index := IndexAll(K, encodings, anchor);
    IndexIsHonest(K, tries, encodings, anchor);
    IndexHolds(K, encodings, anchor);
    ResolvedHonestly(K, tries, index.byReference, f);
    IsNodeItself(tries, f);
    NodeInherits(K, tries, f);
    forall key | Proves(K, encodings, f, key)
      ensures Known(K, index.byReference, f, key)
    {
      ProvenIsKnown(K, encodings, index, f, key);
    }
  }

  /** The leaves of a sparse trie are leaves of the full one. */
  lemma FewerLeaves(K: Keccak, s: Node, f: Node)
    requires Prunes(K, s, f) && AccountLeaves(f)
    ensures AccountLeaves(s)
  {
    hide LeavesOf, Prunes, DecodeAccount, Get;
    forall v | v in LeavesOf(s, [])
      ensures v in LeavesOf(f, [])
    {
      VisitedIsPresent(s, [], v);
      assert v.0[0..] == v.0;
      PrunesGet(K, s, f, v.0);
      PresentIsVisited(f, [], v.0);
      assert [] + v.0 == v.0;
    }
  }

  /** The full state: every account's storage trie, told apart from the others. */
  ghost predicate HasStorages(K: Keccak, tries: seq<Node>, f: Node, storages: Witness.Tries) {
    forall a :: GetAccount(f, a).Answer? && GetAccount(f, a).account.Some? ==>
      a in storages && storages[a] in tries && HashOf(K, storages[a]) == GetAccount(f, a).account.value.storageRoot
  }

  lemma StateTrieServes(K: Keccak, tries: seq<Node>, encodings: seq<Bytes>, f: Node)
    requires Sources(K, tries) && FromTries(K, tries, encodings) && f in tries && Encode(K, f) in encodings
    ensures var index := IndexAll(K, encodings, HashOf(K, f));
      && index.Index?
      && (var trie := Resolve(RootOf(index, HashOf(K, f)), index.byReference);
          trie.Some? && Serves(K, encodings, trie.value, f))
  {
    hide Sources, FromTries, IndexAll, Shallow, Resolve, HashOf, AllIndexed, Indexed, ByHashIndexed, Encode, Serves, Within;
    var index := IndexAll(K, encodings, HashOf(K, f));
    IsNodeItself(tries, f);
    NodeInherits(K, tries, f);
    HashIsDigestOfEncoding(K, f);
    IndexHolds(K, encodings, HashOf(K, f));
    ResolvedServes(K, tries, encodings, HashOf(K, f), f);
    assert index.root.Some?;
    RootIsRead(K, tries, encodings, f, index.root.value);
  }

  lemma SameAccount(K: Keccak, s: Node, f: Node, a: Hash)
    requires Prunes(K, s, f)
    ensures GetAccount(s, a).Answer? ==> GetAccount(f, a) == GetAccount(s, a)
  {
    hide Prunes, Get, DecodeAccount;
    if Get(s, ToNibs(a)).Found? {
      PrunesGet(K, s, f, ToNibs(a));
    }
  }

  lemma StorageServes(K: Keccak, tries: seq<Node>, encodings: seq<Bytes>, f: Node, storages: Witness.Tries,
                      trie: Node, anchor: Hash, a: Hash, n: Node)
    requires Sources(K, tries) && FromTries(K, tries, encodings) && HasStorages(K, tries, f, storages) && Prunes(K, trie, f)
    requires IndexAll(K, encodings, anchor).Index? && StorageResolved(trie, IndexAll(K, encodings, anchor), a, n)
    ensures a in storages && Serves(K, encodings, n, storages[a])
  {
    hide Sources, FromTries, IndexAll, Shallow, Resolve, HashOf, AllIndexed, Indexed, RootIndexed, Serves, GetAccount, Prunes;
    var index := IndexAll(K, encodings, anchor);
    SameAccount(K, trie, f, a);
    IndexHolds(K, encodings, anchor);
    var root := GetAccount(trie, a).account.value.storageRoot;
    RootIsRead(K, tries, encodings, storages[a], index.byHash[root]);
    ResolvedServes(K, tries, encodings, anchor, storages[a]);
  }

  /** Every node of an honest witness can be resolved. */
  lemma WitnessEnds(K: Keccak, tries: seq<Node>, encodings: seq<Bytes>, anchor: Hash)
    requires Sources(K, tries) && FromTries(K, tries, encodings)
    ensures IndexAll(K, encodings, anchor).Index? && !StoragesEndless(IndexAll(K, encodings, anchor))
  {
    hide Sources, FromTries, IndexAll, Resolve, HonestStore;
    var index := IndexAll(K, encodings, anchor);
    IndexIsHonest(K, tries, encodings, anchor);
    if h :| h in index.byHash && Resolve(index.byHash[h], index.byReference).None? {
      HonestResolves(K, tries, index.byHash[h], index.byReference);
    }
  }

  /** The witness proves the account at an address, and has the root node of its storage trie. */
  ghost predicate ProvesStorage(K: Keccak, encodings: seq<Bytes>, f: Node, storages: Witness.Tries, a: Hash) {
    && Proves(K, encodings, f, ToNibs(a)) && GetAccount(f, a).Answer? && GetAccount(f, a).account.Some?
    && a in storages && Encode(K, storages[a]) in encodings
  }

  lemma ProvenHasStorage(K: Keccak, tries: seq<Node>, encodings: seq<Bytes>, f: Node, storages: Witness.Tries,
                         trie: Node, index: Index, a: Hash)
    requires Sources(K, tries) && HasStorages(K, tries, f, storages) && Serves(K, encodings, trie, f)
    requires index.Index? && AllIndexed(K, encodings, index) && ProvesStorage(K, encodings, f, storages, a)
    ensures HasStorage(trie, index.byHash, a)
  {
    hide Sources, HashOf, Get, DecodeAccount, Encode, Decode, ReferenceOf, Prunes, Proves, Within;
    assert Get(trie, ToNibs(a)) == Get(f, ToNibs(a));
    IsNodeItself(tries, storages[a]);
    NodeInherits(K, tries, storages[a]);
    HashIsDigestOfEncoding(K, storages[a]);
  }

  /** What is built from a witness: it passes, stands for the full state and answers for everything that
      the witness proves; an account whose own proof and whose storage root node are in the witness is
      not left without a storage trie. */
  ghost predicate ServesState(K: Keccak, encodings: seq<Bytes>, o: Built, f: Node, storages: Witness.Tries) {
    && o.Built? && RootsMatch(K, o.trie, o.storages) && Serves(K, encodings, o.trie, f)
    && (forall a :: a in o.storages ==> a in storages && Serves(K, encodings, o.storages[a], storages[a]))
    && (forall a :: ProvesStorage(K, encodings, f, storages, a) ==> a in o.storages)
  }

  /** An honest witness that has the root of the state never fails, and serves for the full state. */
  lemma WitnessIsServed(K: Keccak, tries: seq<Node>, encodings: seq<Bytes>, f: Node, storages: Witness.Tries)
    requires Sources(K, tries) && FromTries(K, tries, encodings)
    requires f in tries && Encode(K, f) in encodings && AccountLeaves(f) && HasStorages(K, tries, f, storages)
    ensures ServesState(K, encodings, BuildOutcome(K, encodings, HashOf(K, f)), f, storages)
  {
    hide Sources, FromTries, IndexAll, HashOf, AllIndexed, Encode, Serves, AccountLeaves, HasStorages, TriesOf, RootsMatch,
      StorageResolved, HasStorage, ProvesStorage, Honest, Prunes, ByHashIndexed, RootIndexed, Keyed, Resolve, StoragesEndless;
    var anchor := HashOf(K, f);
    WitnessIsHonest(K, tries, encodings);
    HonestIsBuilt(K, encodings, anchor);
    IndexHolds(K, encodings, anchor);
    WitnessEnds(K, tries, encodings, anchor);
    var index := IndexAll(K, encodings, anchor);
    StateTrieServes(K, tries, encodings, f);
    var trie := Resolve(RootOf(index, anchor), index.byReference).value;
    assert Prunes(K, trie, f) by { ServesPrunes(K, encodings, trie, f); }
    FewerLeaves(K, trie, f);
    TriesAreCorrect(K, index, anchor);
    var o := BuildOutcome(K, encodings, anchor);
    forall a | a in o.storages
      ensures a in storages && Serves(K, encodings, o.storages[a], storages[a])
    {
      StorageServes(K, tries, encodings, f, storages, trie, anchor, a, o.storages[a]);
    }
    forall a | ProvesStorage(K, encodings, f, storages, a)
      ensures a in o.storages
    {
      ProvenHasStorage(K, tries, encodings, f, storages, trie, index, a);
    }
  }

  lemma ServesPrunes(K: Keccak, encodings: seq<Bytes>, trie: Node, f: Node)
    requires Serves(K, encodings, trie, f)
    ensures Prunes(K, trie, f)
  {
  }

  // The update of what is built.

  /** The witness proves every account and every slot that the block changes. */
  ghost predicate ProvesChanges(K: Keccak, encodings: seq<Bytes>, f: Node, storages: Witness.Tries, post: EthereumStates.PostState) {
    forall h :: h in post.accounts ==>
      && Proves(K, encodings, f, ToNibs(h))
      && (h in storages && !EthereumStates.StorageChange(post, h).wiped ==>
            forall key :: key in EthereumStates.StorageChange(post, h).slots ==> Proves(K, encodings, storages[h], ToNibs(key)))
  }

  /** The full state with just the storage tries that were built. */
  function Restricted(f: Node, storages: Witness.Tries, built: Witness.Tries): EthereumStates.State
    requires forall a :: a in built ==> a in storages
  {
    EthereumStates.State(f, map a | a in built :: storages[a])
  }

  /** The state that is built from a witness is what the update asks for, and with all changes proven the
      update fails at no `unwrap`. */
  lemma ServedCanUpdate(K: Keccak, encodings: seq<Bytes>, o: Built, f: Node, storages: Witness.Tries, post: EthereumStates.PostState)
    requires ServesState(K, encodings, o, f, storages) && ProvesChanges(K, encodings, f, storages, post)
    requires StorageUpdate.Full(f) && forall a :: a in storages ==> StorageUpdate.Full(storages[a])
    ensures var s := EthereumStates.State(o.trie, o.storages);
      && EthereumStates.StatePrunes(K, s, Restricted(f, storages, o.storages))
      && EthereumStates.StateFull(Restricted(f, storages, o.storages))
      && EthereumStates.CanUpdate(s, post, post.accounts.Keys)
  {
    hide Prunes, Proves, RootsMatch, Get, StorageUpdate.Full, ToNibs, EthereumStates.StorageChange,
      ProvesStorage;
    var s := EthereumStates.State(o.trie, o.storages);
    assert s.storages.Keys == Restricted(f, storages, o.storages).storages.Keys;
    forall h | h in post.accounts.Keys
      ensures EthereumStates.Touches(s, post, h)
    {
      HonestBlock.FullIsAnswered(f, ToNibs(h));
      if h in o.storages {
        forall key | key in EthereumStates.StorageChange(post, h).slots.Keys && !EthereumStates.StorageChange(post, h).wiped
          ensures StorageUpdate.Reaches(o.storages[h], key)
        {
          HonestBlock.FullIsAnswered(storages[h], ToNibs(key));
        }
      }
    }
  }
}
