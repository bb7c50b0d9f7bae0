/** A block from end to end with an execution witness: the state that is built from the witness is updated,
    and its root is the state root after the block. */
module HonestExecution {
  import opened Basics
  import opened HexPrefix
  import opened Trie
  import opened Encoding
  import opened Decoding
  import opened Sparse
  import opened Loose
  import opened Resolution
  import opened Ranking
  import opened SparseTransition
  import opened Orphans
  import opened Recovery
  import opened StorageUpdate
  import opened EthereumStates
  import opened Witness
  import opened HonestProofs
  import opened HonestTransition
  import opened HonestBlock
  import opened HonestWitness

  /** The witness has the orphans of a key that is absent from `g`: every node of `f` that the node where the
      lookup ends turns into when its path is cut, unless it is held in line. */
  ghost predicate HasOrphans(K: Keccak, encodings: seq<Bytes>, f: Node, g: Node, key: Nibbles) {
    Get(g, key) == Found(None) ==>
      forall orphan :: IsShorter(orphan, PathEnd(g, key)) && Within(orphan, f) && ReferenceOf(K, orphan).ByDigest? ==>
        Encode(K, orphan) in encodings
  }

  lemma OrphansAreKnown(K: Keccak, tries: seq<Node>, encodings: seq<Bytes>, anchor: Hash, f: Node, g: Node, key: Nibbles)
    requires Sources(K, tries) && f in tries && HasOrphans(K, encodings, f, g, key)
    requires IndexAll(K, encodings, anchor).Index?
    ensures OrphansKnown(K, IndexAll(K, encodings, anchor).byReference, f, g, key)
  {
    hide ReferenceOf, Encode, Decode, Get, PathEnd, Within, IsShorter, Sources, IndexAll, Shallow, ByHashIndexed, RootIndexed, Keyed;
    IndexHolds(K, encodings, anchor);
    var store := IndexAll(K, encodings, anchor).byReference;
    forall orphan | Get(g, key) == Found(None) && IsShorter(orphan, PathEnd(g, key)) && Within(orphan, f)
                    && ReferenceOf(K, orphan).ByDigest?
      ensures ReferenceOf(K, orphan) in store
    {
      assert IsNode(tries, orphan);
      EncodingIsRead(K, tries, orphan);
      ReadReferenceOf(K, orphan);
    }
  }

  /** The witness is enough for the block: it proves all changes, it has the storage roots of the kept
      accounts, unless they are empty or wiped, and the orphans of all removed accounts and slots. */
  ghost predicate IsEnough(K: Keccak, encodings: seq<Bytes>, full: FullState, post: PostState, updated: FullState) {
    && HonestWitness.ProvesChanges(K, encodings, full.trie, full.storages, post)
    && (forall h :: h in post.accounts ==> HasOrphans(K, encodings, full.trie, updated.trie, ToNibs(h)))
    && (forall h :: Kept(post, h) && !StorageChange(post, h).wiped ==> StorageIsEnough(K, encodings, full, post, updated, h))
  }

  ghost predicate StorageIsEnough(K: Keccak, encodings: seq<Bytes>, full: FullState, post: PostState, updated: FullState, h: Hash) {
    h in full.storages && full.storages[h] != Null ==>
      && ProvesStorage(K, encodings, full.trie, full.storages, h) && h in updated.storages
      && forall key :: key in StorageChange(post, h).slots ==>
           HasOrphans(K, encodings, full.storages[h], updated.storages[h], ToNibs(key))
  }

  /** The full state after the block, with just the storage tries that the update has. */
  function RestrictedUpdate(full: FullState, built: Witness.Tries, post: PostState, updated: FullState): FullState
    requires forall a :: a in built ==> a in full.storages
    requires forall a :: Kept(post, a) ==> a in updated.storages
  {
    var kept := set a | a in post.accounts && Kept(post, a);
    EthereumStates.State(updated.trie,
      map a | a in built.Keys + kept :: if Kept(post, a) then updated.storages[a] else full.storages[a])
  }

  /** The storage tries that are left out are empty, or not needed. */
  ghost predicate IsSupplied(full: FullState, built: Witness.Tries, post: PostState) {
    && (forall a :: a in built ==> a in full.storages)
    && (forall h :: Kept(post, h) && !StorageChange(post, h).wiped && h in full.storages && full.storages[h] != Null ==> h in built)
  }

  lemma KeptIsUpdated(K: Keccak, full: FullState, post: PostState, updated: FullState)
    requires IsUpdated(K, full, post, post.accounts.Keys, updated)
    ensures forall a :: Kept(post, a) ==> a in updated.storages
  {
    hide IsOverlay, StorageChange, RecordsUpdated;
    assert forall a :: Kept(post, a) ==> a in post.accounts.Keys;
  }

  lemma RestrictedStorages(full: FullState, built: Witness.Tries, post: PostState, updated: FullState)
    requires IsSupplied(full, built, post) && StoragesUpdated(full, post, post.accounts.Keys, updated)
    requires forall a :: Kept(post, a) ==> a in updated.storages
    ensures StoragesUpdated(Restricted(full.trie, full.storages, built), post, post.accounts.Keys,
                            RestrictedUpdate(full, built, post, updated))
  {
    hide IsOverlay, StorageChange;
    var small, u := Restricted(full.trie, full.storages, built), RestrictedUpdate(full, built, post, updated);
    forall h | h in post.accounts.Keys && Kept(post, h)
      ensures u.storages[h] == updated.storages[h] && StorageBase(small, post, h) == StorageBase(full, post, h)
    {
    }
  }

  lemma RestrictedRecords(K: Keccak, full: FullState, built: Witness.Tries, post: PostState, updated: FullState)
    requires (forall a :: a in built ==> a in full.storages) && (forall a :: Kept(post, a) ==> a in updated.storages)
    requires RecordsUpdated(K, full.trie, post, post.accounts.Keys, updated.trie, updated.storages)
    ensures RecordsUpdated(K, full.trie, post, post.accounts.Keys, updated.trie,
                           RestrictedUpdate(full, built, post, updated).storages)
  {
    hide Get, ToNibs, Record;
  }

  /** Leaving out storage tries that are empty or not needed does not change the update. */
  lemma RestrictedIsUpdated(K: Keccak, full: FullState, built: Witness.Tries, post: PostState, updated: FullState)
    requires StateFull(full) && StateFull(updated) && IsUpdated(K, full, post, post.accounts.Keys, updated)
    requires IsSupplied(full, built, post)
    ensures forall a :: Kept(post, a) ==> a in updated.storages
    ensures var small, u := Restricted(full.trie, full.storages, built), RestrictedUpdate(full, built, post, updated);
      StateFull(small) && StateFull(u) && IsUpdated(K, small, post, post.accounts.Keys, u)
  {
    hide RecordsUpdated, StoragesUpdated, Full, StorageChange;
    KeptIsUpdated(K, full, post, updated);
    RestrictedStorages(full, built, post, updated);
    RestrictedRecords(K, full, built, post, updated);
  }

  /** Nothing that the witness has is left out of what is built. */
  lemma BuiltLeavesNothing(K: Keccak, encodings: seq<Bytes>, anchor: Hash)
    ensures var o, index := BuildOutcome(K, encodings, anchor), IndexAll(K, encodings, anchor);
      o.Built? && AccountLeaves(o.trie) ==>
        && index.Index? && NothingKnown(index.byReference, o.trie)
        && forall a :: a in o.storages ==> NothingKnown(index.byReference, o.storages[a])
  {
    hide IndexAll, AccountLeaves, ResolveWithin, NothingKnown, HashOf, GetAccount, StoragesOf;
    var o, index := BuildOutcome(K, encodings, anchor), IndexAll(K, encodings, anchor);
    if o.Built? && AccountLeaves(o.trie) {
      TriesAreCorrect(K, index, anchor);
      var store := index.byReference;
      ResolveLeavesNothing(RootOf(index, anchor), store, |store|);
      forall a | a in o.storages
        ensures NothingKnown(store, o.storages[a])
      {
        assert StorageResolved(o.trie, index, a, o.storages[a]);
        ResolveLeavesNothing(index.byHash[GetAccount(o.trie, a).account.value.storageRoot], store, |store|);
      }
    }
  }

  // One trie.

  lemma ServedIsReady(K: Keccak, tries: seq<Node>, encodings: seq<Bytes>, anchor: Hash, trie: Node, f: Node, g: Node, key: Hash)
    requires Sources(K, tries) && f in tries && IndexAll(K, encodings, anchor).Index? && Serves(K, encodings, trie, f)
    requires Proves(K, encodings, f, ToNibs(key)) && HasOrphans(K, encodings, f, g, ToNibs(key))
    ensures IsReady(K, IndexAll(K, encodings, anchor).byReference, trie, f, g, key)
  {
    hide Sources, IndexAll, Proves, HasOrphans, OrphansKnown, Get, ToNibs, Prunes;
    OrphansAreKnown(K, tries, encodings, anchor, f, g, ToNibs(key));
  }

  lemma ServedSlots(K: Keccak, tries: seq<Node>, encodings: seq<Bytes>, anchor: Hash, trie: Node, f: Node, s: Node, g: Node,
                    slots: map<Hash, nat>)
    requires ToldApart(K, tries) && f in tries && g in tries && Full(f) && Full(g) && LooselyPrunes(K, s, g)
    requires IndexAll(K, encodings, anchor).Index? && Serves(K, encodings, trie, f)
    requires NothingKnown(IndexAll(K, encodings, anchor).byReference, trie)
    requires OnlyWritten(trie, s, slots.Keys) && IsOverlay(g, f, slots, slots.Keys)
    requires forall key :: key in slots ==> Proves(K, encodings, f, ToNibs(key)) && HasOrphans(K, encodings, f, g, ToNibs(key))
    ensures Prunes(K, s, g)
  {
    hide Sources, Closed, IndexAll, Proves, HasOrphans, Get, ToNibs, Prunes, LooselyPrunes, OnlyWritten, NothingKnown, IsReady, Serves,
      Full, SlotLookup;
    forall key | key in slots.Keys
      ensures IsReady(K, IndexAll(K, encodings, anchor).byReference, trie, f, g, key)
    {
      ServedIsReady(K, tries, encodings, anchor, trie, f, g, key);
    }
    ServesPrunes(K, encodings, trie, f);
    WrittenStands(K, tries, IndexAll(K, encodings, anchor).byReference, trie, f, s, g, slots.Keys);
  }

  // The state.

  /** The full states before and after the block, and what it takes to tell their nodes apart. */
  ghost predicate AreStates(K: Keccak, tries: seq<Node>, full: FullState, post: PostState, updated: FullState) {
    && ToldApart(K, tries) && StateFull(full) && StateFull(updated) && IsUpdated(K, full, post, post.accounts.Keys, updated)
    && full.trie in tries && updated.trie in tries
    && (forall a :: a in full.storages ==> full.storages[a] in tries)
    && (forall a :: a in updated.storages ==> updated.storages[a] in tries)
  }

  /** What was built, and what of it no digest is left. */
  ghost predicate IsBuilt(K: Keccak, encodings: seq<Bytes>, anchor: Hash, o: Built, full: FullState, post: PostState) {
    && IndexAll(K, encodings, anchor).Index?
    && ServesState(K, encodings, o, full.trie, full.storages) && IsSupplied(full, o.storages, post)
    && NothingKnown(IndexAll(K, encodings, anchor).byReference, o.trie)
    && forall a :: a in o.storages ==> NothingKnown(IndexAll(K, encodings, anchor).byReference, o.storages[a])
  }

  /** The storage trie of a kept account ends as that of the full state. */
  lemma ServedStands(K: Keccak, tries: seq<Node>, encodings: seq<Bytes>, anchor: Hash, o: Built, full: FullState, post: PostState,
                     updated: FullState, h: Hash, s: Node, g: Node)
    requires AreStates(K, tries, full, post, updated) && IsBuilt(K, encodings, anchor, o, full, post)
    requires IsEnough(K, encodings, full, post, updated) && Kept(post, h) && Full(g) && LooselyPrunes(K, s, g)
    requires var slots, base := StorageChange(post, h).slots, StorageBase(Restricted(full.trie, full.storages, o.storages), post, h);
      && OnlyWritten(StorageBase(EthereumStates.State(o.trie, o.storages), post, h), s, slots.Keys)
      && IsOverlay(g, base, slots, slots.Keys)
    ensures Prunes(K, s, g)
  {
    hide ToldApart, IndexAll, Proves, HasOrphans, Prunes, LooselyPrunes, OnlyWritten, NothingKnown, Serves, Full,
      IsOverlay, StorageChange, RootsMatch, RecordsUpdated, ProvesStorage;
    var change := StorageChange(post, h);
    assert h in post.accounts.Keys;
    if change.wiped || h !in o.storages {
      WipedStands(K, s, g, change.slots.Keys);
    } else {
      SameStorage(full, post, h, g, updated.storages[h]);
      var f := full.storages[h];
      forall key | key in change.slots
        ensures Proves(K, encodings, f, ToNibs(key)) && HasOrphans(K, encodings, f, g, ToNibs(key))
      {
        if f == Null {
          NoOrphans(K, encodings, g, ToNibs(key));
        }
      }
      ServedSlots(K, tries, encodings, anchor, o.storages[h], f, s, g, change.slots);
    }
  }

  lemma NoOrphans(K: Keccak, encodings: seq<Bytes>, g: Node, key: Nibbles)
    ensures HasOrphans(K, encodings, Null, g, key)
  {
    hide Get, PathEnd;
  }

  /** An honest witness, with the root of the state. */
  ghost predicate HonestState(K: Keccak, tries: seq<Node>, encodings: seq<Bytes>, full: FullState) {
    && FromTries(K, tries, encodings) && Encode(K, full.trie) in encodings
    && AccountLeaves(full.trie) && HasStorages(K, tries, full.trie, full.storages)
  }

  lemma StateIsBuilt(K: Keccak, tries: seq<Node>, encodings: seq<Bytes>, full: FullState, post: PostState, updated: FullState)
    requires AreStates(K, tries, full, post, updated) && HonestState(K, tries, encodings, full)
    requires IsEnough(K, encodings, full, post, updated)
    ensures IsBuilt(K, encodings, HashOf(K, full.trie), BuildOutcome(K, encodings, HashOf(K, full.trie)), full, post)
  {
    hide Sources, Closed, StateFull, IsUpdated, FromTries, AccountLeaves, HasStorages, IndexAll, BuildOutcome, NothingKnown, HashOf,
      StorageChange, Serves, RootsMatch, ProvesStorage, Encode, HonestWitness.ProvesChanges, HasOrphans, Prunes;
    var anchor := HashOf(K, full.trie);
    var o := BuildOutcome(K, encodings, anchor);
    WitnessIsServed(K, tries, encodings, full.trie, full.storages);
    ServesPrunes(K, encodings, o.trie, full.trie);
    FewerLeaves(K, o.trie, full.trie);
    BuiltLeavesNothing(K, encodings, anchor);
  }

  /** Whatever was changed in a block and in whatever order, the updated state that was built from the witness
      stands for the full state after the block, and has its root. */
  lemma ExecutionStands(K: Keccak, tries: seq<Node>, encodings: seq<Bytes>, anchor: Hash, o: Built, full: FullState, post: PostState,
                        updated: FullState, now: FullState, result: FullState)
    requires AreStates(K, tries, full, post, updated) && IsBuilt(K, encodings, anchor, o, full, post)
    requires IsEnough(K, encodings, full, post, updated) && StateFull(result)
    requires var small, s := Restricted(full.trie, full.storages, o.storages), EthereumStates.State(o.trie, o.storages);
      && StateFull(small) && StatePrunes(K, s, small)
      && IsUpdatedFor(K, small, post, post.accounts.Keys, result, now.storages)
      && StateWritten(s, post, post.accounts.Keys, now)
    requires StateLoosely(K, now, result)
    ensures HashOf(K, now.trie) == HashOf(K, updated.trie)
  {
    hide ToldApart, IndexAll, Proves, HasOrphans, Prunes, LooselyPrunes, OnlyWritten, NothingKnown, Serves, Full, IsReady,
      IsOverlay, StorageChange, RootsMatch, RecordsUpdated, ProvesStorage, HashOf, IsSupplied, StorageIsEnough, IsUpdated;
    var small, s := Restricted(full.trie, full.storages, o.storages), EthereumStates.State(o.trie, o.storages);
    RestrictedIsUpdated(K, full, o.storages, post, updated);
    var u := RestrictedUpdate(full, o.storages, post, updated);
    forall h | Kept(post, h)
      ensures h in now.storages && h in result.storages && Prunes(K, now.storages[h], result.storages[h])
    {
      assert h in post.accounts.Keys && StorageWritten(s, post, h, now);
      ServedStands(K, tries, encodings, anchor, o, full, post, updated, h, now.storages[h], result.storages[h]);
    }
    AccountsAreReady(K, tries, encodings, anchor, o, full, post, updated);
    UpdateStands(K, tries, IndexAll(K, encodings, anchor).byReference, s, small, u, post, now, result);
  }

  lemma AccountsAreReady(K: Keccak, tries: seq<Node>, encodings: seq<Bytes>, anchor: Hash, o: Built, full: FullState, post: PostState,
                         updated: FullState)
    requires AreStates(K, tries, full, post, updated) && IsBuilt(K, encodings, anchor, o, full, post)
    requires IsEnough(K, encodings, full, post, updated)
    ensures forall h :: h in post.accounts.Keys ==>
      IsReady(K, IndexAll(K, encodings, anchor).byReference, o.trie, full.trie, updated.trie, h)
  {
    hide Sources, Closed, IndexAll, Proves, HasOrphans, NothingKnown, Serves, IsReady, StorageChange, RootsMatch, ProvesStorage,
      IsSupplied, StorageIsEnough, StateFull, IsUpdated;
    forall h | h in post.accounts.Keys
      ensures IsReady(K, IndexAll(K, encodings, anchor).byReference, o.trie, full.trie, updated.trie, h)
    {
      ServedIsReady(K, tries, encodings, anchor, o.trie, full.trie, updated.trie, h);
    }
  }

  /** The whole way: from an honest witness that is enough for the block, over the state that is built from it
      and the update of that state in whatever order, to the state root after the block. */
  method UpdateBuilt(K: Keccak, state: EthereumState, post: PostState, ghost tries: seq<Node>, ghost encodings: seq<Bytes>,
                     ghost full: FullState, ghost updated: FullState)
    returns (ok: bool, root: Hash)
    requires AreStates(K, tries, full, post, updated) && HonestState(K, tries, encodings, full)
    requires IsEnough(K, encodings, full, post, updated) && state.Valid(K)
    requires var o := BuildOutcome(K, encodings, HashOf(K, full.trie));
      o.Built? ==> state.view == EthereumStates.State(o.trie, o.storages)
    modifies state, state.Repr
    ensures BuildOutcome(K, encodings, HashOf(K, full.trie)).Built?
    ensures ok && root == HashOf(K, updated.trie)
  {
    hide *;
    ghost var anchor := HashOf(K, full.trie);
    ghost var o := BuildOutcome(K, encodings, anchor);
    StateIsBuilt(K, tries, encodings, full, post, updated);
    BuiltCanUpdate(K, tries, encodings, anchor, o, full, post, updated);
    ghost var small := Restricted(full.trie, full.storages, o.storages);
    PrunesLooselyAll(K, state.view, small);
    ghost var known := state.view;
    ghost var result;
    ok, result := state.Update(K, post, small);
    UpdatedLoosely(K, known, small, state.view, result, exists a :: Removes(post, a));
    ExecutionStands(K, tries, encodings, anchor, o, full, post, updated, state.view, result);
    root := state.StateRoot(K);
  }

  lemma BuiltCanUpdate(K: Keccak, tries: seq<Node>, encodings: seq<Bytes>, anchor: Hash, o: Built, full: FullState, post: PostState,
                       updated: FullState)
    requires AreStates(K, tries, full, post, updated) && IsBuilt(K, encodings, anchor, o, full, post)
    requires IsEnough(K, encodings, full, post, updated)
    ensures o.Built? && forall a :: a in o.storages ==> a in full.storages
    ensures var s, small := EthereumStates.State(o.trie, o.storages), Restricted(full.trie, full.storages, o.storages);
      StatePrunes(K, s, small) && StateFull(small) && CanUpdate(s, post, post.accounts.Keys)
  {
    hide ToldApart, IndexAll, NothingKnown, Full, IsUpdated, HonestWitness.ProvesChanges, HasOrphans, StorageIsEnough, CanUpdate,
      IsSupplied, Serves, RootsMatch, ProvesStorage, Prunes;
    ServedCanUpdate(K, encodings, o, full.trie, full.storages, post);
  }
}
