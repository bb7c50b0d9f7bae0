/** A block from end to end: the state that was rebuilt from the proofs before and after the block is
    updated, and its root is the state root after the block. */
module HonestBlock {
  import opened Basics
  import opened HexPrefix
  import opened Trie
  import opened NormalForm
  import opened Encoding
  import opened Sparse
  import opened Loose
  import opened Resolution
  import opened Ranking
  import opened SparseTransition
  import opened Recovery
  import opened StorageUpdate
  import opened EthereumStates
  import opened Transition
  import opened HonestProofs
  import opened HonestTransition

  // What is proven.

  /** There are proofs, before and after the block, for every account and every slot that it changes. */
  ghost predicate ProvesChanges(K: Keccak, before: AccountProofs, after: AccountProofs, post: PostState) {
    forall h :: h in post.accounts ==> exists a :: ProvesAccount(K, before, after, post, h, a)
  }

  ghost predicate ProvesAccount(K: Keccak, before: AccountProofs, after: AccountProofs, post: PostState, h: Hash, a: Address) {
    && a in before && a in after && K(a) == h
    && (StorageChange(post, h).wiped ||
        (ProvesSlots(K, before[a].storageProofs, StorageChange(post, h).slots.Keys)
         && ProvesSlots(K, after[a].storageProofs, StorageChange(post, h).slots.Keys)))
  }

  ghost predicate ProvesSlots(K: Keccak, proofs: seq<StorageProof>, keys: set<Hash>) {
    forall key :: key in keys ==> exists p :: p in proofs && K(p.key) == key
  }

  /** The state after the block, as the honest node knows it: the accounts are up to date, with the storage
      that the block leaves them. */
  ghost predicate IsNext(K: Keccak, full: FullState, post: PostState, next: FullState, updated: FullState) {
    && StateFull(updated) && IsUpdated(K, full, post, post.accounts.Keys, updated) && next.trie == updated.trie
    && forall h :: h in post.accounts && Kept(post, h) ==>
         h in next.storages && h in updated.storages && next.storages[h] == updated.storages[h]
  }

  // One trie.

  lemma FullIsAnswered(f: Node, key: Nibbles)
    requires Full(f)
    ensures Get(f, key).Found?
  {
    FullAnswers(f, key);
  }

  /** A trie in which every lookup comes to an end does not stand loosely for another one. */
  lemma ResolvedStands(K: Keccak, s: Node, g: Node)
    requires LooselyPrunes(K, s, g) && WellFormed(g) && forall key :: Get(s, key).Found?
    ensures Prunes(K, s, g)
  {
    hide LooselyPrunes, Prunes, Get, WellFormed, IsSpot;
    if !Prunes(K, s, g) {
      var at, spot, whole := FindSpot(K, s, g);
      SpotFails(K, s, g, at, spot, whole);
    }
  }

  lemma SpotFails(K: Keccak, s: Node, g: Node, at: Nibbles, spot: Node, whole: Node)
    requires IsSpot(K, s, g, at, spot, whole)
    ensures exists key :: !Get(s, key).Found?
  {
    hide Get;
    BelowSpot(K, s, g, at, spot, whole, []);
    assert !Get(s, at + PrefixNibs(spot.path) + []).Found?;
  }

  /** A rebuilt trie stands for the full one again after all changes, if the changed keys could all be looked
      up and their orphans are known. */
  lemma WrittenStands(K: Keccak, tries: seq<Node>, store: Store, trie: Node, f: Node, s: Node, g: Node, keys: set<Hash>)
    requires ToldApart(K, tries) && f in tries && g in tries && Full(f) && Full(g)
    requires NothingKnown(store, trie) && Prunes(K, trie, f) && LooselyPrunes(K, s, g) && OnlyWritten(trie, s, keys)
    requires forall k :: (forall key :: key in keys ==> ToNibs(key) != k) ==> Get(g, k) == Get(f, k)
    requires forall key :: key in keys ==> IsReady(K, store, trie, f, g, key)
    ensures Prunes(K, s, g)
  {
    hide LooselyPrunes, Prunes, Get, ToNibs, OrphansKnown, Sources, Closed, NothingKnown, Normal, FixedKeys;
    forall k
      ensures Accounted(K, store, trie, f, s, g, k)
    {
      if key :| key in keys && ToNibs(key) == k {
        assert Reaches(s, key) && IsReady(K, store, trie, f, g, key);
        FullIsAnswered(f, k);
      }
    }
    Recovered(K, tries, store, trie, f, s, g);
  }

  /** The rebuilt trie answers for the key, and its orphans are known. */
  ghost predicate IsReady(K: Keccak, store: Store, trie: Node, f: Node, g: Node, key: Hash) {
    Get(trie, ToNibs(key)) == Get(f, ToNibs(key)) && OrphansKnown(K, store, f, g, ToNibs(key))
  }

  lemma ProvenIsReady(K: Keccak, store: Store, trie: Node, f: Node, g: Node, key: Hash)
    requires Rebuilds(K, store, trie, f) && WellFormed(g)
    requires Known(K, store, f, ToNibs(key)) && OrphansFiled(K, store, g, ToNibs(key))
    ensures IsReady(K, store, trie, f, g, key)
  {
    hide Prunes, Get, ToNibs, Known, OrphansFiled, OrphansKnown, HashOf, NothingKnown, WellFormed;
    FiledIsKnown(K, store, f, g, ToNibs(key));
  }

  // The storage of one account.

  /** The storage trie of a kept account stands for the full one when all its slots are written. */
  lemma StorageStands(K: Keccak, tries: seq<Node>, trie: Node, f: Node, g: Node, before: AccountProof, after: AccountProof,
                      s: Node, change: HashedStorage)
    requires ToldApart(K, tries) && HonestStorage(K, tries, f, g, before, after) && Full(f) && Full(g)
    requires Rebuilt(K, trie, f, g, before, after) && Prunes(K, trie, f) && LooselyPrunes(K, s, g)
    requires OnlyWritten(if change.wiped then Null else trie, s, change.slots.Keys)
    requires IsOverlay(g, if change.wiped then Null else f, change.slots, change.slots.Keys)
    requires change.wiped
          || (ProvesSlots(K, before.storageProofs, change.slots.Keys) && ProvesSlots(K, after.storageProofs, change.slots.Keys))
    ensures Prunes(K, s, g)
  {
    hide LooselyPrunes, Prunes, Get, ToNibs, Known, OrphansFiled, HashOf, Sources, Closed, NothingKnown, Rebuilds, SlotLookup, Full,
      HonestSlots, NoTwins, OnlyWritten, IsOverlay;
    var keys := change.slots.Keys;
    if change.wiped {
      WipedStands(K, s, g, keys);
    } else if before.storageProofs == [] {
      assert keys == {} by {
        if key :| key in keys {
          assert false;
        }
      }
      UntouchedStands(K, tries, trie, f, s, g, change.slots);
    } else {
      var store :| IsStorageStore(K, store, trie, f, g, before.storageProofs, after.storageProofs);
      ProvenStands(K, tries, store, trie, f, s, g, before.storageProofs, after.storageProofs, change.slots);
    }
  }

  lemma WipedStands(K: Keccak, s: Node, g: Node, keys: set<Hash>)
    requires LooselyPrunes(K, s, g) && Full(g) && OnlyWritten(Null, s, keys)
    ensures Prunes(K, s, g)
  {
    hide LooselyPrunes, Prunes, ToNibs, FixedKeys;
    forall k
      ensures Get(s, k).Found?
    {
      if key :| key in keys && ToNibs(key) == k {
        assert Reaches(s, key);
      } else {
        assert Get(s, k) == Get(Null, k);
      }
    }
    ResolvedStands(K, s, g);
  }

  lemma {:induction false} EmptyStoreKnowsNothing(n: Node)
    ensures NothingKnown(map[], n)
  {
    match n
    case Branch(children) =>
      forall i | i in children
        ensures NothingKnown(map[], children[i])
      {
        EmptyStoreKnowsNothing(children[i]);
      }
    case Extension(_, child) => EmptyStoreKnowsNothing(child);
    case _ =>
  }

  lemma UntouchedStands(K: Keccak, tries: seq<Node>, trie: Node, f: Node, s: Node, g: Node, slots: map<Hash, nat>)
    requires ToldApart(K, tries) && f in tries && g in tries && Full(f) && Full(g) && slots.Keys == {}
    requires Prunes(K, trie, f) && LooselyPrunes(K, s, g)
    requires OnlyWritten(trie, s, slots.Keys) && IsOverlay(g, f, slots, slots.Keys)
    ensures Prunes(K, s, g)
  {
    hide LooselyPrunes, Prunes, ToNibs, FixedKeys, Normal, Sources, Closed, NothingKnown, Get;
    EmptyStoreKnowsNothing(trie);
    Recovered(K, tries, map[], trie, f, s, g);
  }

  lemma ProvenStands(K: Keccak, tries: seq<Node>, store: Store, trie: Node, f: Node, s: Node, g: Node,
                     before: seq<StorageProof>, after: seq<StorageProof>, slots: map<Hash, nat>)
    requires ToldApart(K, tries) && f in tries && g in tries && Full(f) && Full(g)
    requires IsStorageStore(K, store, trie, f, g, before, after) && LooselyPrunes(K, s, g)
    requires OnlyWritten(trie, s, slots.Keys) && IsOverlay(g, f, slots, slots.Keys)
    requires ProvesSlots(K, before, slots.Keys) && ProvesSlots(K, after, slots.Keys)
    ensures Prunes(K, s, g)
  {
    hide LooselyPrunes, Prunes, Get, ToNibs, Known, OrphansFiled, ToldApart, OnlyWritten, SlotLookup, HashOf, NothingKnown, IsReady,
      Normal, FixedKeys;
    forall key | key in slots.Keys
      ensures IsReady(K, store, trie, f, g, key)
    {
      var p :| p in before && K(p.key) == key;
      var q :| q in after && K(q.key) == key;
      FullIsFormed(g);
      ProvenIsReady(K, store, trie, f, g, key);
    }
    WrittenStands(K, tries, store, trie, f, s, g, slots.Keys);
  }

  lemma FullIsFormed(g: Node)
    requires Full(g)
    ensures WellFormed(g)
  {
  }

  // The state.

  /** With proofs for everything that the block changes, the rebuilt state can be updated: no `unwrap`
      fails. */
  lemma RebuiltCanUpdate(K: Keccak, s: FullState, full: FullState, before: AccountProofs, after: AccountProofs, post: PostState)
    requires StateFull(full) && ProvesChanges(K, before, after, post)
    requires forall a :: a in before ==> Answers(K, s.trie, s.storages, full, a, before[a])
    ensures CanUpdate(s, post, post.accounts.Keys)
  {
    hide Get, Full, ToNibs, StorageChange;
    forall h | h in post.accounts.Keys
      ensures Touches(s, post, h)
    {
      var a :| ProvesAccount(K, before, after, post, h, a);
      assert Answers(K, s.trie, s.storages, full, a, before[a]);
      FullIsAnswered(full.trie, ToNibs(h));
      forall key | key in StorageChange(post, h).slots.Keys && !StorageChange(post, h).wiped
        ensures Reaches(s.storages[h], key)
      {
        var p :| p in before[a].storageProofs && K(p.key) == key;
        FullIsAnswered(full.storages[h], ToNibs(key));
      }
    }
  }

  /** The storage trie of a kept account ends as that of the honest node. */
  lemma KeptStands(K: Keccak, tries: seq<Node>, store: Store, rebuilt: FullState, full: FullState, next: FullState, updated: FullState,
                   before: AccountProofs, after: AccountProofs, post: PostState, now: FullState, result: FullState, h: Hash)
    requires ToldApart(K, tries) && Honest(K, tries, full, next, before, after) && StateFull(full) && StateFull(result)
    requires IsRebuilt(K, store, rebuilt, full, next, before, after) && StatePrunes(K, rebuilt, full)
    requires ProvesChanges(K, before, after, post) && IsNext(K, full, post, next, updated)
    requires StoragesUpdated(full, post, post.accounts.Keys, result)
    requires StateLoosely(K, now, result) && StateWritten(rebuilt, post, post.accounts.Keys, now)
    requires Kept(post, h)
    ensures h in now.storages && h in result.storages && Prunes(K, now.storages[h], result.storages[h])
  {
    hide LooselyPrunes, Prunes, ToNibs, Known, OrphansFiled, HashOf, Rebuilds, Rebuilt, Full, OnlyWritten, IsOverlay, StorageChange,
      RecordsUpdated, HonestStorage, ToldApart, HonestProof, ProvesSlots;
    assert h in post.accounts.Keys;
    var a :| ProvesAccount(K, before, after, post, h, a);
    assert a in before.Keys;
    assert HonestAccount(K, tries, full, next, a, before[a], after[a]);
    assert AccountReady(K, full, next, store, rebuilt.storages, a, before[a], after[a]);
    assert StorageWritten(rebuilt, post, h, now);
    var change := StorageChange(post, h);
    SameStorage(full, post, h, result.storages[h], updated.storages[h]);
    StorageStands(K, tries, rebuilt.storages[h], full.storages[h], next.storages[h], before[a], after[a], now.storages[h], change);
  }

  lemma SameStorage(full: FullState, post: PostState, h: Hash, m: Node, n: Node)
    requires Full(m) && Full(n)
    requires var slots := StorageChange(post, h).slots;
      IsOverlay(m, StorageBase(full, post, h), slots, slots.Keys) && IsOverlay(n, StorageBase(full, post, h), slots, slots.Keys)
    ensures m == n
  {
    hide IsOverlay, StorageChange, Normal, FixedKeys;
    OverlayIsUnique(m, n, StorageBase(full, post, h), StorageChange(post, h).slots);
  }

  /** An update of a sparse state, in whatever order, ends as that of the full state, if the storage tries of
      the kept accounts do. */
  lemma UpdateStands(K: Keccak, tries: seq<Node>, store: Store, rebuilt: FullState, full: FullState, updated: FullState,
                     post: PostState, now: FullState, result: FullState)
    requires ToldApart(K, tries) && full.trie in tries && updated.trie in tries
    requires StateFull(full) && StateFull(updated) && StateFull(result)
    requires NothingKnown(store, rebuilt.trie) && StatePrunes(K, rebuilt, full)
    requires forall h :: h in post.accounts.Keys ==> IsReady(K, store, rebuilt.trie, full.trie, updated.trie, h)
    requires IsUpdated(K, full, post, post.accounts.Keys, updated)
    requires IsUpdatedFor(K, full, post, post.accounts.Keys, result, now.storages)
    requires StateLoosely(K, now, result) && StateWritten(rebuilt, post, post.accounts.Keys, now)
    requires forall h :: Kept(post, h) ==>
      h in now.storages && h in result.storages && Prunes(K, now.storages[h], result.storages[h])
    ensures result == updated && StatePrunes(K, now, updated) && HashOf(K, now.trie) == HashOf(K, updated.trie)
  {
    hide LooselyPrunes, Prunes, HashOf, ToldApart, OnlyWritten, IsOverlay, StorageChange, RecordsUpdated, Full, IsUpdated, NothingKnown,
      IsReady;
    forall h | h in now.storages
      ensures h in result.storages && Prunes(K, now.storages[h], result.storages[h])
      ensures HashOf(K, now.storages[h]) == HashOf(K, result.storages[h])
    {
      assert h in now.storages.Keys;
      if !Kept(post, h) {
        assert h in rebuilt.storages.Keys;
      }
      PrunesHash(K, now.storages[h], result.storages[h]);
    }
    RootsStand(K, full, post, updated, now, result);
    TrieStands(K, tries, store, rebuilt, full, updated, post, now);
  }

  lemma TrieStands(K: Keccak, tries: seq<Node>, store: Store, rebuilt: FullState, full: FullState, updated: FullState,
                   post: PostState, now: FullState)
    requires ToldApart(K, tries) && full.trie in tries && updated.trie in tries && Full(full.trie) && Full(updated.trie)
    requires NothingKnown(store, rebuilt.trie) && Prunes(K, rebuilt.trie, full.trie) && LooselyPrunes(K, now.trie, updated.trie)
    requires forall h :: h in post.accounts.Keys ==> IsReady(K, store, rebuilt.trie, full.trie, updated.trie, h)
    requires IsUpdated(K, full, post, post.accounts.Keys, updated) && OnlyWritten(rebuilt.trie, now.trie, post.accounts.Keys)
    ensures Prunes(K, now.trie, updated.trie) && HashOf(K, now.trie) == HashOf(K, updated.trie)
  {
    hide LooselyPrunes, Prunes, HashOf, ToldApart, OnlyWritten, Get, ToNibs, Full, StoragesUpdated, NothingKnown, IsReady;
    WrittenStands(K, tries, store, rebuilt.trie, full.trie, now.trie, updated.trie, post.accounts.Keys);
    PrunesHash(K, now.trie, updated.trie);
  }

  lemma RootsStand(K: Keccak, full: FullState, post: PostState, updated: FullState, now: FullState, result: FullState)
    requires StateFull(result) && StateFull(updated) && IsUpdated(K, full, post, post.accounts.Keys, updated)
    requires IsUpdatedFor(K, full, post, post.accounts.Keys, result, now.storages) && now.storages.Keys == result.storages.Keys
    requires forall h :: h in now.storages ==> h in result.storages && HashOf(K, now.storages[h]) == HashOf(K, result.storages[h])
    ensures result == updated
  {
    hide HashOf, IsOverlay, StorageChange, RecordsUpdated, Full, IsUpdated;
    forall h | h in post.accounts.Keys && Kept(post, h)
      ensures h in now.storages
    {
      assert h in result.storages.Keys;
    }
    RightRoots(K, full, post, post.accounts.Keys, result, now.storages);
    UpdateIsUnique(K, full, post, result, updated);
  }

  /** Whatever was changed in a block and in whatever order, it ends in the state of the honest node: the
      updated sparse state stands for it, and has its state root. */
  lemma BlockStands(K: Keccak, tries: seq<Node>, store: Store, rebuilt: FullState, full: FullState, next: FullState, updated: FullState,
                    before: AccountProofs, after: AccountProofs, post: PostState, now: FullState, result: FullState)
    requires ToldApart(K, tries) && Honest(K, tries, full, next, before, after) && StateFull(full) && StateFull(result)
    requires IsRebuilt(K, store, rebuilt, full, next, before, after)
    requires ProvesChanges(K, before, after, post) && IsNext(K, full, post, next, updated)
    requires IsUpdatedFor(K, full, post, post.accounts.Keys, result, now.storages)
    requires StateLoosely(K, now, result) && StateWritten(rebuilt, post, post.accounts.Keys, now)
    ensures result == updated && StatePrunes(K, now, updated) && HashOf(K, now.trie) == HashOf(K, next.trie)
  {
    hide LooselyPrunes, Prunes, HashOf, Honest, ToldApart, StateWritten, RecordsUpdated, StoragesUpdated, StateFull, StateLoosely,
      StatePrunes, IsUpdated, IsReady, ProvesChanges, AllReady;
    RebuiltStands(K, tries, store, rebuilt, full, next, before, after);
    forall h | Kept(post, h)
      ensures h in now.storages && h in result.storages && Prunes(K, now.storages[h], result.storages[h])
    {
      KeptStands(K, tries, store, rebuilt, full, next, updated, before, after, post, now, result, h);
    }
    NextSources(K, tries, full, next, before, after);
    AccountsReady(K, store, rebuilt, full, next, updated, before, after, post);
    RebuildsNothingKnown(K, store, rebuilt.trie, full.trie);
    UpdateStands(K, tries, store, rebuilt, full, updated, post, now, result);
  }

  lemma RebuildsNothingKnown(K: Keccak, store: Store, trie: Node, f: Node)
    requires Rebuilds(K, store, trie, f)
    ensures NothingKnown(store, trie)
  {
  }

  lemma AccountsReady(K: Keccak, store: Store, rebuilt: FullState, full: FullState, next: FullState, updated: FullState,
                      before: AccountProofs, after: AccountProofs, post: PostState)
    requires IsRebuilt(K, store, rebuilt, full, next, before, after)
    requires ProvesChanges(K, before, after, post) && IsNext(K, full, post, next, updated)
    ensures forall h :: h in post.accounts.Keys ==> IsReady(K, store, rebuilt.trie, full.trie, updated.trie, h)
  {
    hide HashOf, Get, ToNibs, Known, OrphansFiled, Rebuilds, Rebuilt, IsUpdated, ProvesSlots, IsReady, Normal, FixedKeys;
    forall h | h in post.accounts.Keys
      ensures IsReady(K, store, rebuilt.trie, full.trie, updated.trie, h)
    {
      var a :| ProvesAccount(K, before, after, post, h, a);
      assert a in before.Keys;
      assert AccountReady(K, full, next, store, rebuilt.storages, a, before[a], after[a]);
      FullIsFormed(updated.trie);
      ProvenIsReady(K, store, rebuilt.trie, full.trie, next.trie, h);
    }
  }

  lemma NextSources(K: Keccak, tries: seq<Node>, full: FullState, next: FullState, before: AccountProofs, after: AccountProofs)
    requires Honest(K, tries, full, next, before, after)
    ensures full.trie in tries && next.trie in tries
  {
    hide HonestAccount;
  }

  /** The whole way: from the proofs of an honest node before and after the block, in whatever order of the
      accounts, over the state that is rebuilt from them, through the update of that state in whatever
      order of the accounts and slots, to the state root of the honest node after the block. */
  method UpdateRebuilt(K: Keccak, state: EthereumState, post: PostState, ghost tries: seq<Node>,
                       ghost full: FullState, ghost next: FullState, ghost updated: FullState,
                       ghost before: AccountProofs, ghost after: AccountProofs, ghost order: seq<Address>)
    returns (ok: bool, root: Hash)
    requires ToldApart(K, tries) && Honest(K, tries, full, next, before, after) && StateFull(full)
    requires ProvesChanges(K, before, after, post) && IsNext(K, full, post, next, updated)
    requires before != map[] && IsOrder(order, before.Keys)
    requires state.Valid(K)
    requires var r := TransitionOutcome(K, HashOf(K, full.trie), before, after, order);
      r.State? ==> state.view == EthereumStates.State(r.trie, r.storages)
    modifies state, state.Repr
    ensures ok && root == HashOf(K, next.trie) && StatePrunes(K, state.view, updated)
  {
    hide *;
    ghost var store := TransitionIsRebuilt(K, tries, full, next, before, after, order);
    ghost var rebuilt := state.view;
    RebuiltCanUpdate(K, rebuilt, full, before, after, post);
    PrunesLooselyAll(K, rebuilt, full);
    ghost var result;
    ok, result := state.Update(K, post, full);
    UpdatedLoosely(K, rebuilt, full, state.view, result, exists a :: Removes(post, a));
    BlockStands(K, tries, store, rebuilt, full, next, updated, before, after, post, state.view, result);
    root := state.StateRoot(K);
  }

  lemma PrunesLooselyAll(K: Keccak, s: FullState, f: FullState)
    requires StatePrunes(K, s, f)
    ensures StateLoosely(K, s, f)
  {
    hide Prunes, LooselyPrunes;
    PrunesLoosely(K, s.trie, f.trie);
    forall a | a in s.storages
      ensures LooselyPrunes(K, s.storages[a], f.storages[a])
    {
      PrunesLoosely(K, s.storages[a], f.storages[a]);
    }
  }

  lemma UpdatedLoosely(K: Keccak, s: FullState, f: FullState, s': FullState, f': FullState, removes: bool)
    requires StateKeeps(K, s, f, s', f', removes)
    ensures StateLoosely(K, s', f')
  {
    hide Prunes, LooselyPrunes;
  }
}
