/** The state before a block is rebuilt from the proofs of an honest node, in whatever order the
    accounts come, and can be updated like the full state. */
module HonestTransition {
  import opened Basics
  import opened HexPrefix
  import opened Trie
  import opened Encoding
  import opened Decoding
  import opened Sparse
  import opened Resolution
  import opened Ranking
  import opened Proofs
  import opened OrphanRecovery
  import opened Recovery
  import opened StorageUpdate
  import opened Transition
  import opened Handover
  import opened HonestProofs
  import EthereumStates

  type FullState = EthereumStates.State

  /** The proofs of one account, given by a node that knows the state before and after the block. */
  ghost predicate HonestAccount(K: Keccak, tries: seq<Node>, full: FullState, next: FullState, a: Address,
                                before: AccountProof, after: AccountProof) {
    && K(a) in full.storages && K(a) in next.storages
    && HonestProof(K, full.trie, ToNibs(K(a)), before.proof)
    && HonestProof(K, next.trie, ToNibs(K(a)), after.proof) && NoTwin(K, next.trie, ToNibs(K(a)))
    && HonestStorage(K, tries, full.storages[K(a)], next.storages[K(a)], before, after)
    && before.storageRoot != ZERO
  }

  ghost predicate Honest(K: Keccak, tries: seq<Node>, full: FullState, next: FullState, before: AccountProofs, after: AccountProofs) {
    && before.Keys == after.Keys && full.trie in tries && next.trie in tries
    && (forall a, b :: a in before && b in before && K(a) == K(b) ==> a == b)
    && (forall a :: a in before ==> HonestAccount(K, tries, full, next, a, before[a], after[a]))
    && (forall h :: h in full.storages ==> exists a :: a in before && K(a) == h)
  }

  /** What it takes to tell the nodes of the tries apart; the empty trie is one of them. */
  ghost predicate ToldApart(K: Keccak, tries: seq<Node>) {
    Sources(K, tries) && Closed(tries) && Null in tries
  }

  /** The storage trie of an account, resolved or left as a digest. */
  ghost predicate Rebuilt(K: Keccak, trie: Node, f: Node, g: Node, before: AccountProof, after: AccountProof) {
    if before.storageProofs == [] then trie == NodeFromDigest(before.storageRoot)
    else exists store :: IsStorageStore(K, store, trie, f, g, before.storageProofs, after.storageProofs)
  }

  /** All that an account needs is there: its proof before the block, the orphans of its absence after the
      block, and its storage trie. */
  ghost predicate AccountReady(K: Keccak, full: FullState, next: FullState, store: Store, storages: Transition.Tries, a: Address,
                               before: AccountProof, after: AccountProof) {
    && Known(K, store, full.trie, ToNibs(K(a)))
    && OrphansFiled(K, store, next.trie, ToNibs(K(a)))
    && K(a) in storages && K(a) in full.storages && K(a) in next.storages
    && Rebuilt(K, storages[K(a)], full.storages[K(a)], next.storages[K(a)], before, after)
  }

  ghost predicate AllReady(K: Keccak, full: FullState, next: FullState, before: AccountProofs, after: AccountProofs,
                           done: set<Address>, store: Store, storages: Transition.Tries) {
    && (forall h :: h in storages ==> exists a :: a in done && K(a) == h)
    && (forall a :: a in done ==> a in before && a in after && AccountReady(K, full, next, store, storages, a, before[a], after[a]))
  }

  /** What there is after the accounts in `done`. */
  ghost predicate WellUnderWay(K: Keccak, tries: seq<Node>, full: FullState, next: FullState, before: AccountProofs, after: AccountProofs,
                               done: set<Address>, b: Building) {
    && b.Building? && HonestStore(K, tries, b.store)
    && (b.root == Null || b.root == Shallow(K, full.trie))
    && (done != {} ==> b.root == Shallow(K, full.trie))
    && AllReady(K, full, next, before, after, done, b.store, b.storages)
  }

  lemma StorageRebuilt(K: Keccak, tries: seq<Node>, f: Node, g: Node, before: AccountProof, after: AccountProof)
    requires ToldApart(K, tries) && HonestStorage(K, tries, f, g, before, after)
    ensures var r := StorageOutcome(K, before, after); r.Storage? && Rebuilt(K, r.trie, f, g, before, after)
  {
    if before.storageProofs == [] {
      hide Sources, Closed, HonestStorage, AfterSlots;
    } else {
      hide Sources, Closed, HonestStorage, StorageOutcome, IsStorageStore;
      var store := StorageIsRebuilt(K, tries, f, g, before, after);
    }
  }

  /** One account by itself. */
  lemma AccountGoesIn(K: Keccak, tries: seq<Node>, full: FullState, next: FullState, before: AccountProofs, after: AccountProofs,
                      b: Building, a: Address)
    requires ToldApart(K, tries) && full.trie in tries && next.trie in tries && a in before && a in after
    requires HonestAccount(K, tries, full, next, a, before[a], after[a])
    requires b.Building? && HonestStore(K, tries, b.store)
    ensures var r := AfterAccount(K, before, after, a, b);
      && r.Building? && HonestStore(K, tries, r.store) && b.store.Keys <= r.store.Keys
      && r.root == (if before[a].proof == [] then b.root else Shallow(K, full.trie))
      && (before[a].proof == [] ==> Shallow(K, full.trie) == Null)
      && K(a) in r.storages && r.storages == b.storages[K(a) := r.storages[K(a)]]
      && AccountReady(K, full, next, r.store, r.storages, a, before[a], after[a])
  {
    hide Sources, Closed, HonestStorage, StorageOutcome, Rebuilt, AfterFiling, AfterOrphans, HonestStore,
      HonestProof, NoTwin, Known, OrphansFiled, ToNibs, Shallow;
    var k := ToNibs(K(a));
    FiledHonestly(K, tries, full.trie, k, before[a].proof, b.store);
    var filed := AfterFiling(K, before[a].proof, b.store);
    OrphansAddedHonestly(K, tries, next.trie, a, after[a].proof, filed.store);
    var store := AfterOrphans(K, a, after[a].proof, filed.store).store;
    MoreIsKnown(K, filed.store, store, full.trie, k);
    StorageRebuilt(K, tries, full.storages[K(a)], next.storages[K(a)], before[a], after[a]);
  }

  /** One more account. */
  lemma AccountAdded(K: Keccak, tries: seq<Node>, full: FullState, next: FullState, before: AccountProofs, after: AccountProofs,
                     done: set<Address>, b: Building, a: Address)
    requires ToldApart(K, tries) && Honest(K, tries, full, next, before, after) && a in before
    requires WellUnderWay(K, tries, full, next, before, after, done, b)
    ensures WellUnderWay(K, tries, full, next, before, after, done + {a}, AfterAccount(K, before, after, a, b))
  {
    hide ToldApart, HonestAccount, AfterAccount, HonestStore, Shallow, AllReady;
    assert a in after.Keys;
    AccountGoesIn(K, tries, full, next, before, after, b, a);
    var r := AfterAccount(K, before, after, a, b);
    StillReady(K, tries, full, next, before, after, done, b, a, r);
  }

  /** The other accounts are as ready as before. */
  lemma StillReady(K: Keccak, tries: seq<Node>, full: FullState, next: FullState, before: AccountProofs, after: AccountProofs,
                   done: set<Address>, b: Building, a: Address, r: Building)
    requires b.Building? && r.Building? && b.store.Keys <= r.store.Keys && Honest(K, tries, full, next, before, after)
    requires K(a) in r.storages && r.storages == b.storages[K(a) := r.storages[K(a)]]
    requires AllReady(K, full, next, before, after, done, b.store, b.storages)
    requires a in before && a in after && AccountReady(K, full, next, r.store, r.storages, a, before[a], after[a])
    ensures AllReady(K, full, next, before, after, done + {a}, r.store, r.storages)
  {
    hide Known, OrphansFiled, Rebuilt, ToNibs, HonestAccount;
    forall x | x in done + {a}
      ensures x in before && x in after && AccountReady(K, full, next, r.store, r.storages, x, before[x], after[x])
    {
      if x != a {
        MoreIsKnown(K, b.store, r.store, full.trie, ToNibs(K(x)));
        MoreIsKnown(K, b.store, r.store, next.trie, ToNibs(K(x)));
      }
    }
    forall h | h in r.storages
      ensures exists x :: x in done + {a} && K(x) == h
    {
      if h == K(a) {
        assert a in done + {a};
      } else {
        var x :| x in done && K(x) == h;
        assert x in done + {a};
      }
    }
  }

  lemma NothingAdded(K: Keccak, tries: seq<Node>, full: FullState, next: FullState, before: AccountProofs, after: AccountProofs)
    ensures WellUnderWay(K, tries, full, next, before, after, {}, Building(Null, map[], map[]))
  {
    NothingIsHonest(K, tries);
  }

  /** Work on honest proofs never stops with an error on the way. */
  lemma {:induction false} AccountsAdded(K: Keccak, tries: seq<Node>, full: FullState, next: FullState,
                                         before: AccountProofs, after: AccountProofs, order: seq<Address>)
    requires ToldApart(K, tries) && Honest(K, tries, full, next, before, after)
    requires forall a :: a in order ==> a in before
    ensures WellUnderWay(K, tries, full, next, before, after, Addresses(order), AfterAccounts(K, before, after, order))
    decreases |order|
  {
    hide ToldApart, Honest, WellUnderWay, AfterAccount;
    if order == [] {
      assert Addresses(order) == {};
      NothingAdded(K, tries, full, next, before, after);
    } else {
      var last := |order| - 1;
      AccountsAdded(K, tries, full, next, before, after, order[..last]);
      assert order == order[..last] + [order[last]];
      assert Addresses(order) == Addresses(order[..last]) + {order[last]};
      AccountAdded(K, tries, full, next, before, after, Addresses(order[..last]),
                   AfterAccounts(K, before, after, order[..last]), order[last]);
    }
  }

  /** Only the empty trie has the empty root. */
  lemma EmptyRootIsEmpty(K: Keccak, tries: seq<Node>, f: Node)
    requires Sources(K, tries) && Null in tries && f in tries && HashOf(K, f) == EMPTY_ROOT
    ensures f.Null?
  {
    hide ReferenceOf;
    HashIsDigestOfEncoding(K, f);
    HashIsDigestOfEncoding(K, Null);
    assert NoCollision(K, Encodings(K, f), Encodings(K, Null));
    assert Encode(K, f) in Encodings(K, f) && Encode(K, Null) in Encodings(K, Null);
    assert Encode(K, f) == Encode(K, Null) == [EMPTY_STRING_CODE];
    if !f.Null? {
      LengthIsExact(K, f);
    }
  }

  lemma RebuiltPrunes(K: Keccak, tries: seq<Node>, trie: Node, f: Node, g: Node, before: AccountProof, after: AccountProof)
    requires Sources(K, tries) && Null in tries && HonestStorage(K, tries, f, g, before, after) && Full(f)
    requires before.storageRoot != ZERO && Rebuilt(K, trie, f, g, before, after)
    ensures Prunes(K, trie, f)
  {
    hide Sources, HashOf, HonestSlots, NoTwins, Full;
    if before.storageProofs == [] {
      if before.storageRoot == EMPTY_ROOT {
        EmptyRootIsEmpty(K, tries, f);
      } else {
        HashOfEmpty(K);
        DigestStands(K, f, before.storageRoot);
      }
    }
  }

  /** A state that was rebuilt: the trie and what its store knows, and the accounts with their storages. */
  ghost predicate IsRebuilt(K: Keccak, store: Store, s: FullState, full: FullState, next: FullState,
                            before: AccountProofs, after: AccountProofs) {
    && Rebuilds(K, store, s.trie, full.trie)
    && AllReady(K, full, next, before, after, before.Keys, store, s.storages)
  }

  /** The proofs of an honest node are never rejected, whatever the order of the accounts. The state
      that is rebuilt stands for the full state, which is what the state update asks for, and answers for
      every proven account and slot. */
  lemma TransitionIsRebuilt(K: Keccak, tries: seq<Node>, full: FullState, next: FullState,
                            before: AccountProofs, after: AccountProofs, order: seq<Address>) returns (store: Store)
    requires ToldApart(K, tries) && Honest(K, tries, full, next, before, after) && EthereumStates.StateFull(full)
    requires before != map[] && IsOrder(order, before.Keys)
    ensures var r := TransitionOutcome(K, HashOf(K, full.trie), before, after, order);
      && r.State?
      && EthereumStates.StatePrunes(K, EthereumStates.State(r.trie, r.storages), full)
      && IsRebuilt(K, store, EthereumStates.State(r.trie, r.storages), full, next, before, after)
      && (forall a :: a in before ==> Answers(K, r.trie, r.storages, full, a, before[a]))
  {
    hide ToldApart, Honest, EthereumStates.StateFull, AfterAccounts, HonestStore, AllReady, HashOf, Resolve, Rebuilds, Answers,
      EthereumStates.StatePrunes, Shallow;
    AccountsAdded(K, tries, full, next, before, after, order);
    assert Addresses(order) == before.Keys;
    var b := AfterAccounts(K, before, after, order);
    store := b.store;
    HonestSources(K, tries, full, next, before, after);
    ResolvedHonestly(K, tries, b.store, full.trie);
    var trie := Resolve(b.root, b.store).value;
    RebuildsKeeps(K, b.store, trie, full.trie);
    RebuiltStands(K, tries, b.store, EthereumStates.State(trie, b.storages), full, next, before, after);
  }

  lemma HonestSources(K: Keccak, tries: seq<Node>, full: FullState, next: FullState, before: AccountProofs, after: AccountProofs)
    requires ToldApart(K, tries) && Honest(K, tries, full, next, before, after)
    ensures Sources(K, tries) && full.trie in tries
  {
    hide Sources, Closed;
  }

  /** A rebuilt state stands for the full state and answers for everything that was proven. */
  lemma RebuiltStands(K: Keccak, tries: seq<Node>, store: Store, s: FullState, full: FullState, next: FullState,
                      before: AccountProofs, after: AccountProofs)
    requires ToldApart(K, tries) && Honest(K, tries, full, next, before, after) && EthereumStates.StateFull(full)
    requires IsRebuilt(K, store, s, full, next, before, after)
    ensures EthereumStates.StatePrunes(K, s, full)
    ensures forall a :: a in before ==> Answers(K, s.trie, s.storages, full, a, before[a])
  {
    hide Sources, Closed, HonestStorage, Full, HonestProof, NoTwin, Known, OrphansFiled, ToNibs, Prunes, HashOf, Rebuilt, Get,
      Rebuilds, Answers;
    RebuildsKeeps(K, store, s.trie, full.trie);
    forall a | a in before
      ensures K(a) in s.storages && K(a) in full.storages && Prunes(K, s.storages[K(a)], full.storages[K(a)])
      ensures Answers(K, s.trie, s.storages, full, a, before[a])
    {
      assert a in before.Keys;
      assert HonestAccount(K, tries, full, next, a, before[a], after[a]);
      RebuiltPrunes(K, tries, s.storages[K(a)], full.storages[K(a)], next.storages[K(a)], before[a], after[a]);
      ReadyAnswers(K, store, s.trie, s.storages, full, next, a, before[a], after[a]);
    }
    SameKeys(K, before, s.storages, full.storages);
  }

  lemma RebuildsKeeps(K: Keccak, store: Store, trie: Node, f: Node)
    requires Rebuilds(K, store, trie, f)
    ensures Prunes(K, trie, f) && HashOf(K, trie) == HashOf(K, f)
  {
    hide Prunes, HashOf, Known, Get;
  }

  /** The rebuilt state answers for an account and its proven slots. */
  ghost predicate Answers(K: Keccak, trie: Node, storages: Transition.Tries, full: FullState, a: Address, before: AccountProof) {
    && Get(trie, ToNibs(K(a))) == Get(full.trie, ToNibs(K(a))) && K(a) in storages && K(a) in full.storages
    && forall p :: p in before.storageProofs ==> Get(storages[K(a)], ToNibs(K(p.key))) == Get(full.storages[K(a)], ToNibs(K(p.key)))
  }

  lemma ReadyAnswers(K: Keccak, store: Store, trie: Node, storages: Transition.Tries, full: FullState, next: FullState, a: Address,
                     before: AccountProof, after: AccountProof)
    requires Rebuilds(K, store, trie, full.trie) && AccountReady(K, full, next, store, storages, a, before, after)
    ensures Answers(K, trie, storages, full, a, before)
  {
    hide Prunes, HashOf, Known, Get, ToNibs, OrphansFiled;
  }

  lemma SameKeys(K: Keccak, before: AccountProofs, s: Transition.Tries, f: Transition.Tries)
    requires forall a :: a in before ==> K(a) in s && K(a) in f
    requires forall h :: h in s ==> exists a :: a in before.Keys && K(a) == h
    requires forall h :: h in f ==> exists a :: a in before && K(a) == h
    ensures s.Keys == f.Keys
  {
  }
}
