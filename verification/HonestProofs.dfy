/** The proofs of an honest node are never rejected: what is put together from them, in whatever
    order, stands for the full state and answers for every proven key. */
module HonestProofs {
  import opened Basics
  import opened HexPrefix
  import opened Trie
  import opened NormalForm
  import opened Encoding
  import opened Decoding
  import opened Sparse
  import opened Resolution
  import opened Ranking
  import opened Proofs
  import opened Orphans
  import opened OrphanRecovery
  import opened SparseTransition
  import opened Recovery
  import opened Transition
  import opened Handover

  // Where the nodes in a proof come from.

  /** The node as it is read back from an encoding of one of the tries' nodes. */
  ghost predicate IsRead(K: Keccak, tries: seq<Node>, n: Node) {
    exists m :: IsNode(tries, m) && n == Shallow(K, m)
  }

  lemma NodeInherits(K: Keccak, tries: seq<Node>, m: Node)
    requires Sources(K, tries) && IsNode(tries, m)
    ensures DigestFree(m) && Writable(m)
  {
    var f :| f in tries && Within(m, f);
    WithinInherits(K, m, f);
  }

  lemma {:induction false} ProofIsRead(K: Keccak, tries: seq<Node>, f: Node, key: Nibbles)
    requires IsNode(tries, f)
    ensures forall n :: n in ProofOf(K, f, key) ==> IsRead(K, tries, n)
  {
    hide ReferenceOf, PrefixNibs, Shallow;
    var g :| g in tries && Within(f, g);
    var rest := ProofBelow(K, f, key);
    match f
    case Branch(children) =>
      if rest != [] {
        assert Within(children[key[0]], f);
        WithinTransitive(children[key[0]], f, g);
        ProofIsRead(K, tries, children[key[0]], key[1..]);
      }
    case Extension(path, child) =>
      if rest != [] {
        assert Within(child, f);
        WithinTransitive(child, f, g);
        ProofIsRead(K, tries, child, key[|PrefixNibs(path)|..]);
      }
    case _ =>
  }

  lemma ShortenedIsRead(K: Keccak, tries: seq<Node>, n: Node)
    requires Closed(tries) && IsRead(K, tries, n)
    ensures forall s :: s in AllShortened(n) ==> IsRead(K, tries, s)
  {
    hide ReferenceOf, PrefixNibs, ToEncodedPath, Stub;
    var m :| IsNode(tries, m) && n == Shallow(K, m);
    if m.Leaf? || m.Extension? {
      forall i | 0 <= i <= |NibsOf(n)|
        ensures IsRead(K, tries, AllShortened(n)[i])
      {
        assert AllShortened(n)[i] == Shallow(K, Shortened(m, i));
        IsNodeItself(tries, Shortened(m, i));
      }
    }
  }

  // The store.

  /** Everything in the store was read back from a node of the tries and filed under its reference. */
  ghost predicate HonestStore(K: Keccak, tries: seq<Node>, store: Store) {
    Keyed(K, store) && forall r :: r in store ==> IsRead(K, tries, store[r])
  }

  lemma {:induction false} FileAllHonest(K: Keccak, tries: seq<Node>, store: Store, nodes: seq<Node>)
    requires HonestStore(K, tries, store) && forall n :: n in nodes ==> IsRead(K, tries, n)
    ensures HonestStore(K, tries, FileAll(K, store, nodes))
    decreases |nodes|
  {
    hide ReferenceOf, IsRead;
    if nodes != [] {
      assert nodes == [nodes[0]] + nodes[1..];
      FileAllHonest(K, tries, File(K, store, nodes[0]), nodes[1..]);
    }
  }

  lemma ReadReferenceOf(K: Keccak, m: Node)
    ensures ReferenceOf(K, Shallow(K, m)) == ReferenceOf(K, m)
  {
    hide ReferenceOf, Shallow;
    ShallowPrunes(K, m);
    PrunesReference(K, Shallow(K, m), m);
  }

  /** The store holds just what was read back of the node with a given digest. */
  lemma StoredIsRead(K: Keccak, tries: seq<Node>, store: Store, m: Node)
    requires Sources(K, tries) && HonestStore(K, tries, store) && IsNode(tries, m)
    requires ReferenceOf(K, m).ByDigest? && ReferenceOf(K, m) in store
    ensures store[ReferenceOf(K, m)] == Shallow(K, m)
  {
    hide ReferenceOf, Shallow, Sources, Within;
    var s := store[ReferenceOf(K, m)];
    var m' :| IsNode(tries, m') && s == Shallow(K, m');
    ReadReferenceOf(K, m');
    OneNode(K, tries, m, m', ReferenceOf(K, m).hash);
  }

  /** Every root can be resolved from such a store. */
  lemma HonestResolves(K: Keccak, tries: seq<Node>, root: Node, store: Store)
    requires Sources(K, tries) && HonestStore(K, tries, store)
    ensures Resolve(root, store).Some?
  {
    hide ReferenceOf, Shallow, Sources, Within, Resolve;
    forall hash: Hash | ByDigest(hash) in store
      ensures !store[ByDigest(hash)].Digest? && Stands(K, store[ByDigest(hash)], hash, tries)
    {
      var m :| IsNode(tries, m) && store[ByDigest(hash)] == Shallow(K, m);
      ReadReferenceOf(K, m);
      NodeInherits(K, tries, m);
      ShallowIsNoDigest(K, m);
      ShallowPrunes(K, m);
      assert HasDigest(K, tries, m, hash);
    }
    HonestStoreResolves(K, root, store, tries);
  }

  /** What is resolved from such a store stands for the full trie: no other node can slip in. */
  lemma {:induction false} HonestResolve(K: Keccak, tries: seq<Node>, root: Node, f: Node, store: Store, depth: nat)
    requires Sources(K, tries) && HonestStore(K, tries, store) && IsNode(tries, f) && Prunes(K, root, f)
    requires ResolveWithin(root, store, depth).Some?
    ensures Prunes(K, ResolveWithin(root, store, depth).value, f)
    decreases depth, root
  {
    hide ReferenceOf, Shallow, Sources, HonestStore;
    var g :| g in tries && Within(f, g);
    match root
    case Branch(children) =>
      forall i | i in children
        ensures Prunes(K, ResolveWithin(children[i], store, depth).value, f.children[i])
      {
        assert Within(f.children[i], f);
        WithinTransitive(f.children[i], f, g);
        HonestResolve(K, tries, children[i], f.children[i], store, depth);
      }
    case Extension(_, child) =>
      assert Within(f.child, f);
      WithinTransitive(f.child, f, g);
      HonestResolve(K, tries, child, f.child, store, depth);
    case Digest(hash) =>
      if ByDigest(hash) in store {
        StoredIsRead(K, tries, store, f);
        ShallowPrunes(K, f);
        HonestResolve(K, tries, store[ByDigest(hash)], f, store, depth - 1);
      }
    case _ =>
  }

  /** The store has all nodes of the proof of a key. */
  ghost predicate Known(K: Keccak, store: Store, f: Node, key: Nibbles) {
    forall n :: n in ProofOf(K, f, key) && ReferenceOf(K, n).ByDigest? ==> ReferenceOf(K, n) in store
  }

  lemma KnownIsCovered(K: Keccak, tries: seq<Node>, store: Store, f: Node, key: Nibbles)
    requires Sources(K, tries) && HonestStore(K, tries, store) && f in tries && Known(K, store, f, key)
    ensures Covers(K, store, f, key)
  {
    hide ReferenceOf, Shallow, Sources, HonestStore, ProofOf, Within, Covers;
    IsNodeItself(tries, f);
    NodeInherits(K, tries, f);
    ProofIsRead(K, tries, f, key);
    forall n | n in ProofOf(K, f, key) && ReferenceOf(K, n).ByDigest?
      ensures ReferenceOf(K, n) in store && store[ReferenceOf(K, n)] == n
    {
      var m :| IsNode(tries, m) && n == Shallow(K, m);
      ReadReferenceOf(K, m);
      StoredIsRead(K, tries, store, m);
    }
    ProofCovers(K, f, key, store);
  }

  // Honest proofs.

  /** The proof that an honest node gives for a key; for an empty trie it may be left empty. */
  predicate HonestProof(K: Keccak, f: Node, key: Nibbles, proof: seq<Bytes>) {
    proof == RawProof(K, f, key) || (f.Null? && proof == [])
  }

  predicate HonestSlots(K: Keccak, f: Node, proofs: seq<StorageProof>) {
    forall p :: p in proofs ==> HonestProof(K, f, ToNibs(K(p.key)), p.proof)
  }

  /** An honest proof is filed without an error, and then known. */
  lemma FiledHonestly(K: Keccak, tries: seq<Node>, f: Node, key: Nibbles, proof: seq<Bytes>, store: Store)
    requires Sources(K, tries) && f in tries && HonestProof(K, f, key, proof) && HonestStore(K, tries, store)
    ensures var r := AfterFiling(K, proof, store);
      && r.Filed? && HonestStore(K, tries, r.store) && store.Keys <= r.store.Keys && Known(K, r.store, f, key)
      && r.root == (if proof == [] then None else Some(Shallow(K, f)))
      && (proof == [] ==> Shallow(K, f) == Null)
  {
    hide ReferenceOf, Shallow, Sources, HonestStore, RawProof, ParseProof, FileAll, Join, IsRead, ProofOf;
    IsNodeItself(tries, f);
    NodeInherits(K, tries, f);
    if proof == [] {
      NoNodes(K);
    } else {
      var nodes := ProofOf(K, f, key);
      RawProofParses(K, f, key);
      assert nodes[0..] == nodes;
      ProofAnswers(K, f, key, nodes, 0);
      ProofIsRead(K, tries, f, key);
      FileAllHonest(K, tries, store, nodes);
      FileAllHas(K, store, nodes);
    }
  }

  lemma NoNodes(K: Keccak)
    ensures ParseProof([]) == Nodes([]) && Shallow(K, Null) == Null
    ensures forall store: Store :: FileAll(K, store, []) == store
    ensures forall store: Store, key: Nibbles :: Known(K, store, Null, key)
  {
  }

  /** The exclusion proof of an honest node is added without an error, and then its orphans are filed. */
  lemma OrphansAddedHonestly(K: Keccak, tries: seq<Node>, g: Node, key: Bytes, proof: seq<Bytes>, store: Store)
    requires Sources(K, tries) && Closed(tries) && g in tries && HonestStore(K, tries, store)
    requires HonestProof(K, g, ToNibs(K(key)), proof) && NoTwin(K, g, ToNibs(K(key)))
    ensures var r := AfterOrphans(K, key, proof, store);
      && r.Added? && HonestStore(K, tries, r.store) && store.Keys <= r.store.Keys
      && OrphansFiled(K, r.store, g, ToNibs(K(key)))
  {
    hide ReferenceOf, Shallow, Sources, Closed, HonestStore, RawProof, ParseProof, FileAll, Join, IsRead, ProofOf,
      NoTwin, Get, ToNibs, AllShortened, Prunes;
    var k := ToNibs(K(key));
    IsNodeItself(tries, g);
    NodeInherits(K, tries, g);
    if proof == [] {
      NothingShortened(K, k);
    } else {
      var nodes := ProofOf(K, g, k);
      RawProofParses(K, g, k);
      assert nodes[0..] == nodes;
      ProofAnswers(K, g, k, nodes, 0);
      FullAnswers(g, k);
      ProofIsRead(K, tries, g, k);
      var last := nodes[|nodes| - 1];
      ShortenedIsRead(K, tries, last);
      FileAllHonest(K, tries, store, AllShortened(last));
      FileAllHas(K, store, AllShortened(last));
    }
  }

  lemma NothingShortened(K: Keccak, key: Nibbles)
    ensures forall store: Store :: OrphansFiled(K, store, Null, key)
  {
  }

  // One trie.

  lemma MoreIsKnown(K: Keccak, store: Store, more: Store, f: Node, key: Nibbles)
    requires store.Keys <= more.Keys
    ensures Known(K, store, f, key) ==> Known(K, more, f, key)
    ensures OrphansFiled(K, store, f, key) ==> OrphansFiled(K, more, f, key)
  {
    hide ReferenceOf, ProofOf, AllShortened, Get;
    assert forall r :: r in store ==> r in store.Keys && r in more;
  }

  /** A trie resolved from an honest store: it stands for the full trie, has its hash, answers for every
      known key, and no digest is left in it that the store knows. */
  ghost predicate Rebuilds(K: Keccak, store: Store, trie: Node, f: Node) {
    && Prunes(K, trie, f) && HashOf(K, trie) == HashOf(K, f) && NothingKnown(store, trie)
    && forall key :: Known(K, store, f, key) ==> Get(trie, key) == Get(f, key)
  }

  lemma ResolvedHonestly(K: Keccak, tries: seq<Node>, store: Store, f: Node)
    requires Sources(K, tries) && HonestStore(K, tries, store) && f in tries
    ensures var trie := Resolve(Shallow(K, f), store); trie.Some? && Rebuilds(K, store, trie.value, f)
  {
    hide ReferenceOf, Shallow, Sources, HashOf, Known, Get, Prunes, Within, ResolveWithin, Covers, HonestStore, NothingKnown;
    var root := Shallow(K, f);
    HonestResolves(K, tries, root, store);
    var trie := Resolve(root, store).value;
    IsNodeItself(tries, f);
    ShallowPrunes(K, f);
    HonestResolve(K, tries, root, f, store, |store|);
    PrunesHash(K, trie, f);
    ResolveLeavesNothing(root, store, |store|);
    forall key | Known(K, store, f, key)
      ensures Get(trie, key) == Get(f, key)
    {
      KnownIsCovered(K, tries, store, f, key);
      ResolveAnswers(K, root, f, key, store);
    }
  }

  // The storage of one account.

  ghost predicate NoTwins(K: Keccak, g: Node, proofs: seq<StorageProof>) {
    forall p :: p in proofs ==> NoTwin(K, g, ToNibs(K(p.key)))
  }

  lemma {:induction false} SlotsFiledHonestly(K: Keccak, tries: seq<Node>, f: Node, proofs: seq<StorageProof>, root: Node, store: Store)
    requires Sources(K, tries) && f in tries && HonestSlots(K, f, proofs) && HonestStore(K, tries, store)
    requires root == Null || root == Shallow(K, f)
    ensures var r := AfterSlots(K, proofs, root, store);
      && r.Filed? && HonestStore(K, tries, r.store) && store.Keys <= r.store.Keys
      && r.root == Some(if proofs == [] then root else Shallow(K, f))
      && forall p :: p in proofs ==> Known(K, r.store, f, ToNibs(K(p.key)))
    decreases |proofs|
  {
    hide Shallow, Sources, HonestStore, HonestProof, AfterFiling, Known, ToNibs;
    if proofs != [] {
      var p, rest := proofs[0], proofs[1..];
      assert p in proofs && proofs == [p] + rest;
      FiledHonestly(K, tries, f, ToNibs(K(p.key)), p.proof, store);
      var r := AfterFiling(K, p.proof, store);
      var root' := if r.root.Some? then r.root.value else root;
      assert root' == Shallow(K, f);
      SlotsFiledHonestly(K, tries, f, rest, root', r.store);
      var all := AfterSlots(K, rest, root', r.store);
      assert AfterSlots(K, proofs, root, store) == all;
      MoreIsKnown(K, r.store, all.store, f, ToNibs(K(p.key)));
    }
  }

  lemma {:induction false} SlotOrphansAddedHonestly(K: Keccak, tries: seq<Node>, g: Node, proofs: seq<StorageProof>, store: Store)
    requires Sources(K, tries) && Closed(tries) && g in tries && HonestSlots(K, g, proofs) && HonestStore(K, tries, store)
    requires NoTwins(K, g, proofs)
    ensures var r := AfterSlotOrphans(K, proofs, store);
      && r.Added? && HonestStore(K, tries, r.store) && store.Keys <= r.store.Keys
      && forall p :: p in proofs ==> OrphansFiled(K, r.store, g, ToNibs(K(p.key)))
    decreases |proofs|
  {
    hide Sources, Closed, HonestStore, HonestProof, AfterOrphans, OrphansFiled, ToNibs, NoTwin;
    if proofs != [] {
      var p := proofs[0];
      assert p in proofs;
      OrphansAddedHonestly(K, tries, g, p.key, p.proof, store);
      var r := AfterOrphans(K, p.key, p.proof, store);
      SlotOrphansAddedHonestly(K, tries, g, proofs[1..], r.store);
      MoreIsKnown(K, r.store, AfterSlotOrphans(K, proofs[1..], r.store).store, g, ToNibs(K(p.key)));
      assert proofs == [p] + proofs[1..];
    }
  }

  /** An honest account: its storage trie is `f` before the block and `g` after it. */
  ghost predicate HonestStorage(K: Keccak, tries: seq<Node>, f: Node, g: Node, before: AccountProof, after: AccountProof) {
    && f in tries && g in tries
    && HonestSlots(K, f, before.storageProofs) && HonestSlots(K, g, after.storageProofs)
    && NoTwins(K, g, after.storageProofs) && HashOf(K, f) == before.storageRoot
  }

  /** A store from which the storage trie of an honest account is rebuilt, with the proofs of all slots
      before the block, and the orphans of all slots that are absent after it. */
  ghost predicate IsStorageStore(K: Keccak, store: Store, trie: Node, f: Node, g: Node,
                                 before: seq<StorageProof>, after: seq<StorageProof>) {
    && Rebuilds(K, store, trie, f)
    && (forall p :: p in before ==> Known(K, store, f, ToNibs(K(p.key))))
    && (forall p :: p in after ==> OrphansFiled(K, store, g, ToNibs(K(p.key))))
  }

  /** The storage trie of an honest account is rebuilt. */
  lemma StorageIsRebuilt(K: Keccak, tries: seq<Node>, f: Node, g: Node, before: AccountProof, after: AccountProof) returns (store: Store)
    requires Sources(K, tries) && Closed(tries) && HonestStorage(K, tries, f, g, before, after)
    requires before.storageProofs != []
    ensures var r := StorageOutcome(K, before, after);
      r.Storage? && IsStorageStore(K, store, r.trie, f, g, before.storageProofs, after.storageProofs)
  {
    hide Sources, Closed, HonestSlots, NoTwins, AfterSlots, AfterSlotOrphans, HashOf, Shallow, Get, Prunes, Known, ToNibs, OrphansFiled,
      HonestStore, Resolve, NothingKnown;
    NothingIsHonest(K, tries);
    SlotsFiledHonestly(K, tries, f, before.storageProofs, Null, map[]);
    var filed := AfterSlots(K, before.storageProofs, Null, map[]);
    SlotOrphansAddedHonestly(K, tries, g, after.storageProofs, filed.store);
    store := AfterSlotOrphans(K, after.storageProofs, filed.store).store;
    ResolvedHonestly(K, tries, store, f);
    forall p | p in before.storageProofs
      ensures Known(K, store, f, ToNibs(K(p.key)))
    {
      MoreIsKnown(K, filed.store, store, f, ToNibs(K(p.key)));
    }
  }

  lemma NothingIsHonest(K: Keccak, tries: seq<Node>)
    ensures HonestStore(K, tries, map[])
  {
  }
}
