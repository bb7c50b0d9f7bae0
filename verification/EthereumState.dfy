/** The two levels of the state: the state trie and the storage tries of the accounts. */
module EthereumStates {
  import opened Basics
  import opened HexPrefix
  import opened Trie
  import opened NormalForm
  import opened Encoding
  import opened History
  import opened Sparse
  import opened Loose
  import opened MptNodes
  import opened Accounts
  import opened StorageUpdate

  datatype Account = Account(nonce: nat, balance: nat, bytecodeHash: Option<Hash>)

  datatype PostState = PostState(accounts: map<Hash, Option<Account>>, storages: map<Hash, HashedStorage>)

  /** The tries as values. */
  datatype State = State(trie: Node, storages: map<Hash, Node>)

  ghost predicate StateFull(s: State) {
    Full(s.trie) && forall a :: a in s.storages ==> Full(s.storages[a])
  }

  ghost predicate StatePrunes(K: Keccak, s: State, f: State) {
    && Prunes(K, s.trie, f.trie)
    && s.storages.Keys == f.storages.Keys
    && forall a :: a in s.storages ==> Prunes(K, s.storages[a], f.storages[a])
  }

  /** As `StatePrunes`, but some tries may stand loosely. */
  ghost predicate StateLoosely(K: Keccak, s: State, f: State) {
    && LooselyPrunes(K, s.trie, f.trie)
    && s.storages.Keys == f.storages.Keys
    && forall a :: a in s.storages ==> LooselyPrunes(K, s.storages[a], f.storages[a])
  }

  function StorageChange(post: PostState, a: Hash): HashedStorage {
    if a in post.storages then post.storages[a] else HashedStorage(false, map[])
  }

  /** The storage that the changed slots are written over. */
  function StorageBase(before: State, post: PostState, a: Hash): Node {
    if StorageChange(post, a).wiped || a !in before.storages then Null else before.storages[a]
  }

  function Record(K: Keccak, account: Account, storage: Node): TrieAccount {
    TrieAccount(account.nonce, account.balance, HashOf(K, storage),
                if account.bytecodeHash.Some? then account.bytecodeHash.value else KECCAK_EMPTY)
  }

  predicate Kept(post: PostState, a: Hash) {
    a in post.accounts && post.accounts[a].Some?
  }

  /** The storage tries of the accounts in `done` are up to date, and no others have changed. */
  ghost predicate StoragesUpdated(before: State, post: PostState, done: set<Hash>, after: State) {
    && (forall a :: a in after.storages <==> a in before.storages || (a in done && Kept(post, a)))
    && (forall a :: a in after.storages && !(a in done && Kept(post, a)) ==> after.storages[a] == before.storages[a])
    && (forall a :: a in done && Kept(post, a) ==>
          var slots := StorageChange(post, a).slots;
          IsOverlay(after.storages[a], StorageBase(before, post, a), slots, slots.Keys))
  }

  /** The records of the accounts in `done` are up to date, with the hashes of the tries in `held` as
      their storage roots, and no others have changed. */
  ghost predicate RecordsUpdated(K: Keccak, before: Node, post: PostState, done: set<Hash>, after: Node, held: map<Hash, Node>) {
    && (forall a :: a in done && Kept(post, a) ==>
          a in held && Get(after, ToNibs(a)) == Found(Some(EncodeAccount(Record(K, post.accounts[a].value, held[a])))))
    && (forall a :: a in done && !Kept(post, a) ==> Get(after, ToNibs(a)) == Found(None))
    && (forall k :: (forall a :: a in done ==> ToNibs(a) != k) ==> Get(after, k) == Get(before, k))
  }

  /** The accounts in `done` are up to date in `after`, but with the hashes of the tries in `held` as their
      storage roots. */
  ghost predicate IsUpdatedFor(K: Keccak, before: State, post: PostState, done: set<Hash>, after: State, held: map<Hash, Node>) {
    && done <= post.accounts.Keys
    && StoragesUpdated(before, post, done, after) && RecordsUpdated(K, before.trie, post, done, after.trie, held)
  }

  /** The accounts in `done` are up to date in `after`, and nothing else has changed. */
  ghost predicate IsUpdated(K: Keccak, before: State, post: PostState, done: set<Hash>, after: State) {
    IsUpdatedFor(K, before, post, done, after, after.storages)
  }

  /** With the right storage roots the accounts are up to date. */
  lemma RightRoots(K: Keccak, before: State, post: PostState, done: set<Hash>, after: State, held: map<Hash, Node>)
    requires IsUpdatedFor(K, before, post, done, after, held)
    requires forall a :: a in done && Kept(post, a) ==> a in held && HashOf(K, held[a]) == HashOf(K, after.storages[a])
    ensures IsUpdated(K, before, post, done, after)
  {
    hide Get, ToNibs, HashOf, IsOverlay, EncodeAccount, StorageChange;
    forall a | a in done && Kept(post, a)
      ensures Record(K, post.accounts[a].value, held[a]) == Record(K, post.accounts[a].value, after.storages[a])
    {
    }
  }

  /** Only one full state is up to date: the order in which accounts and slots were written shows
      neither in the state nor in its root. */
  lemma UpdateIsUnique(K: Keccak, before: State, post: PostState, s: State, t: State)
    requires StateFull(s) && StateFull(t)
    requires IsUpdated(K, before, post, post.accounts.Keys, s) && IsUpdated(K, before, post, post.accounts.Keys, t)
    ensures s == t
  {
    hide *;
    SameStorages(K, before, post, s, t);
    SameTrie(K, before, post, s, t);
    assert s == State(s.trie, s.storages) && t == State(t.trie, t.storages);
  }

  lemma SameStorages(K: Keccak, before: State, post: PostState, s: State, t: State)
    requires StateFull(s) && StateFull(t)
    requires IsUpdated(K, before, post, post.accounts.Keys, s) && IsUpdated(K, before, post, post.accounts.Keys, t)
    ensures s.storages == t.storages
  {
    hide Get, Normal, ToNibs, HashOf, IsOverlay, EncodeAccount, StorageBase, StorageChange, Record, RecordsUpdated, FixedKeys;
    assert s.storages.Keys == t.storages.Keys;
    forall a | a in s.storages
      ensures s.storages[a] == t.storages[a]
    {
      if a in post.accounts.Keys && Kept(post, a) {
        OverlayIsUnique(s.storages[a], t.storages[a], StorageBase(before, post, a), StorageChange(post, a).slots);
      }
    }
  }

  lemma SameTrie(K: Keccak, before: State, post: PostState, s: State, t: State)
    requires StateFull(s) && StateFull(t) && s.storages == t.storages
    requires IsUpdated(K, before, post, post.accounts.Keys, s) && IsUpdated(K, before, post, post.accounts.Keys, t)
    ensures s.trie == t.trie
  {
    hide Get, Normal, ToNibs, HashOf, IsOverlay, EncodeAccount, StorageBase, StorageChange, Record;
    forall k
      ensures Get(s.trie, k) == Get(t.trie, k)
    {
      if a :| a in post.accounts.Keys && ToNibs(a) == k {
        assert Get(s.trie, ToNibs(a)) == Get(t.trie, ToNibs(a));
      }
    }
    NormalFormIsUnique(s.trie, t.trie);
  }

  /** One account is written, with the hash of `held` as its storage root. */
  ghost predicate IsWritten(K: Keccak, before: State, post: PostState, a: Hash, after: State, held: map<Hash, Node>)
    requires a in post.accounts
  {
    if Kept(post, a) then
      var slots := StorageChange(post, a).slots;
      && a in after.storages && a in held
      && after.storages == before.storages[a := after.storages[a]]
      && IsOverlay(after.storages[a], StorageBase(before, post, a), slots, slots.Keys)
      && (forall k :: Get(after.trie, k) ==
            if k == ToNibs(a) then Found(Some(EncodeAccount(Record(K, post.accounts[a].value, held[a]))))
            else Get(before.trie, k))
    else
      && after.storages == before.storages
      && (forall k :: Get(after.trie, k) == if k == ToNibs(a) then Found(None) else Get(before.trie, k))
  }

  lemma UpdateStep(K: Keccak, start: State, post: PostState, done: set<Hash>, before: State, a: Hash, after: State,
                   held: map<Hash, Node>, held': map<Hash, Node>)
    requires IsUpdatedFor(K, start, post, done, before, held)
    requires forall b :: b in held && b != a ==> b in held' && held'[b] == held[b]
    requires a in post.accounts && a !in done && IsWritten(K, before, post, a, after, held')
    ensures IsUpdatedFor(K, start, post, done + {a}, after, held')
  {
    hide IsWritten, StoragesUpdated, RecordsUpdated;
    StoragesStep(K, start, post, done, before, a, after, held');
    RecordsStep(K, start, post, done, before, a, after, held, held');
  }

  lemma StoragesStep(K: Keccak, start: State, post: PostState, done: set<Hash>, before: State, a: Hash, after: State,
                     held: map<Hash, Node>)
    requires StoragesUpdated(start, post, done, before) && a in post.accounts && a !in done
    requires IsWritten(K, before, post, a, after, held)
    ensures StoragesUpdated(start, post, done + {a}, after)
  {
    hide Get, ToNibs, Record, EncodeAccount, IsOverlay, StorageChange;
    assert StorageBase(before, post, a) == StorageBase(start, post, a);
  }

  lemma RecordsStep(K: Keccak, start: State, post: PostState, done: set<Hash>, before: State, a: Hash, after: State,
                    held: map<Hash, Node>, held': map<Hash, Node>)
    requires RecordsUpdated(K, start.trie, post, done, before.trie, held) && a in post.accounts && a !in done
    requires forall b :: b in held && b != a ==> b in held' && held'[b] == held[b]
    requires IsWritten(K, before, post, a, after, held')
    ensures RecordsUpdated(K, start.trie, post, done + {a}, after.trie, held')
  {
    hide Get, ToNibs, Record, EncodeAccount, IsOverlay, StorageChange;
    forall b | b in done
      ensures Get(after.trie, ToNibs(b)) == Get(before.trie, ToNibs(b))
    {
      if ToNibs(a) == ToNibs(b) {
        NibsInjective(a, b);
      }
    }
    forall k | forall b :: b in done + {a} ==> ToNibs(b) != k
      ensures Get(after.trie, k) == Get(start.trie, k)
    {
      assert a in done + {a};
      assert forall b :: b in done ==> b in done + {a};
    }
  }

  /** A change of a sparse state and of the full state it stands for, as `Keeps` for a single trie. */
  ghost predicate StateKeeps(K: Keccak, s: State, f: State, s': State, f': State, removes: bool) {
    && StateLoosely(K, s', f')
    && (s == f ==> s' == f')
    && (StatePrunes(K, s, f) && !removes ==> StatePrunes(K, s', f'))
  }

  lemma StateKeepsMore(K: Keccak, s: State, f: State, s1: State, f1: State, removed: bool, s2: State, f2: State, removes: bool)
    requires StateKeeps(K, s, f, s1, f1, removed) && StateKeeps(K, s1, f1, s2, f2, removes) && (removes ==> removed)
    ensures StateKeeps(K, s, f, s2, f2, removed)
  {
    hide StateLoosely, StatePrunes;
  }

  lemma StateKeepsItself(K: Keccak, s: State, f: State, removes: bool)
    requires StateLoosely(K, s, f)
    ensures StateKeeps(K, s, f, s, f, removes)
  {
    hide StateLoosely, StatePrunes;
  }

  /** The full state after an account was written with the hash of `held` as its storage root. */
  ghost function KeptState(K: Keccak, full: State, account: Account, a: Hash, storage: Node, held: Node): State
    requires Full(full.trie)
  {
    FullInsert(full.trie, a, EncodeAccount(Record(K, account, held)));
    State(Insert(full.trie, ToNibs(a), EncodeAccount(Record(K, account, held))).node, full.storages[a := storage])
  }

  ghost function StorageAt(s: State, a: Hash): Node {
    if a in s.storages then s.storages[a] else Null
  }

  /** Writing the record of an account into a state trie and into the full one it stands for, after its
      storage was written on both sides. */
  lemma KeepOnBoth(K: Keccak, start: State, s: State, full: State, post: PostState, a: Hash, storage: Node)
    requires a in post.accounts && post.accounts[a].Some? && a in s.storages
    requires StateFull(full) && Full(storage) && StateLoosely(K, start, full)
    requires s == start.(storages := start.storages[a := s.storages[a]])
    requires Keeps(K, StorageAt(start, a), StorageAt(full, a), s.storages[a], storage, Clears(StorageChange(post, a)))
    requires var slots := StorageChange(post, a).slots; IsOverlay(storage, StorageBase(full, post, a), slots, slots.Keys)
    ensures var account, held := post.accounts[a].value, s.storages[a];
      var encoded := EncodeAccount(Record(K, account, held));
      var full' := KeptState(K, full, account, a, storage, held);
      var r := Insert(s.trie, ToNibs(a), encoded);
      && StateFull(full') && IsWritten(K, full, post, a, full', s.storages)
      && (r.Done? <==> Reaches(start.trie, a))
      && (r.Done? && !r.changed ==> r.node == s.trie)
      && (r.Done? ==> OnlyChanges(start.trie, a, r.node) && Reaches(r.node, a))
      && (r.Done? ==> StateKeeps(K, start, full, s.(trie := r.node), full', Removes(post, a)))
  {
    hide Insert, ToNibs, HashOf, Prunes, LooselyPrunes, Full, IsOverlay, EncodeAccount, Get, StorageChange, Reaches, OnlyChanges,
      Clears;
    var account := post.accounts[a].value;
    FullInsert(full.trie, a, EncodeAccount(Record(K, account, s.storages[a])));
    InsertOnBoth(K, s.trie, full.trie, a, EncodeAccount(Record(K, account, s.storages[a])));
    assert a in start.storages <==> a in start.storages.Keys;
    assert a in full.storages <==> a in full.storages.Keys;
    NullPrunes(K);
  }

  lemma NullPrunes(K: Keccak)
    ensures Prunes(K, Null, Null) && LooselyPrunes(K, Null, Null)
  {
  }

  // What can be updated in a sparse state.

  /** The account, and every slot of it that is written, can be looked up. */
  ghost predicate Touches(s: State, post: PostState, a: Hash) {
    Reaches(s.trie, a) && (Kept(post, a) ==> WritesAt(s, post, a))
  }

  /** The slots that are written can be looked up. */
  ghost predicate WritesAt(s: State, post: PostState, a: Hash) {
    a in s.storages ==> Writes(s.storages[a], StorageChange(post, a))
  }

  ghost predicate CanUpdate(s: State, post: PostState, addresses: set<Hash>) {
    forall a :: a in addresses ==> Touches(s, post, a)
  }

  /** The account, or one of its slots, is removed. */
  ghost predicate Removes(post: PostState, a: Hash) {
    a in post.accounts && (post.accounts[a].None? || Clears(StorageChange(post, a)))
  }

  ghost predicate OthersKept(before: State, a: Hash, after: State) {
    && OnlyChanges(before.trie, a, after.trie)
    && before.storages.Keys - {a} == after.storages.Keys - {a}
    && forall b :: b in before.storages && b != a ==> b in after.storages && after.storages[b] == before.storages[b]
  }

  lemma OthersKeptStep(s: State, post: PostState, addresses: set<Hash>, a: Hash, s': State)
    requires a in addresses && Touches(s, post, a) && OthersKept(s, a, s')
    ensures CanUpdate(s, post, addresses) <==> CanUpdate(s', post, addresses - {a})
  {
    hide Get, Writes, StorageChange, ToNibs, Kept;
    forall b | b in addresses && b != a
      ensures Touches(s, post, b) <==> Touches(s', post, b)
    {
      if ToNibs(a) == ToNibs(b) {
        NibsInjective(a, b);
      }
      assert b in s.storages.Keys - {a} <==> b in s'.storages.Keys - {a};
    }
    assert forall b :: b in addresses - {a} ==> b in addresses;
  }

  lemma WritesEmpty(storage: HashedStorage)
    ensures Writes(Null, storage)
  {
    EmptyReaches(Null, storage.slots.Keys);
  }

  lemma NothingLeft(s: State, post: PostState)
    ensures CanUpdate(s, post, {})
  {
  }

  lemma CannotUpdate(s: State, post: PostState, addresses: set<Hash>, a: Hash)
    requires a in addresses
    ensures CanUpdate(s, post, addresses) ==> Touches(s, post, a)
  {
    hide Touches;
  }

  lemma NothingUpdated(K: Keccak, s: State, f: State, post: PostState)
    requires StateLoosely(K, s, f)
    ensures IsUpdatedFor(K, f, post, {}, f, s.storages) && StateWritten(s, post, {}, s)
    ensures s.storages.Keys == f.storages.Keys
  {
    hide Get;
  }

  /** A state that leaves nothing out can always be updated. */
  lemma FullCanUpdate(full: State, post: PostState)
    requires StateFull(full)
    ensures CanUpdate(full, post, post.accounts.Keys)
  {
    hide Get, ToNibs, StorageChange;
    forall a | a in post.accounts.Keys
      ensures Touches(full, post, a)
    {
      FullAnswers(full.trie, ToNibs(a));
      if a in full.storages {
        forall key | key in StorageChange(post, a).slots.Keys
          ensures Reaches(full.storages[a], key)
        {
          FullAnswers(full.storages[a], ToNibs(key));
        }
      }
    }
  }

  /** In the sparse state just the accounts in `done` and their slots are written. */
  ghost predicate StateWritten(before: State, post: PostState, done: set<Hash>, after: State) {
    && OnlyWritten(before.trie, after.trie, done)
    && (forall a :: a in after.storages <==> a in before.storages || (a in done && Kept(post, a)))
    && (forall a :: a in after.storages && !(a in done && Kept(post, a)) ==> after.storages[a] == before.storages[a])
    && (forall a :: a in done && Kept(post, a) ==> StorageWritten(before, post, a, after))
  }

  ghost predicate StorageWritten(before: State, post: PostState, a: Hash, after: State) {
    a in after.storages && OnlyWritten(StorageBase(before, post, a), after.storages[a], StorageChange(post, a).slots.Keys)
  }

  lemma StateWrittenStep(start: State, post: PostState, done: set<Hash>, before: State, a: Hash, after: State)
    requires StateWritten(start, post, done, before) && a !in done && OthersKept(before, a, after) && Reaches(after.trie, a)
    requires Kept(post, a) ==> StorageWritten(before, post, a, after)
    requires !Kept(post, a) ==> after.storages == before.storages
    ensures StateWritten(start, post, done + {a}, after)
  {
    hide Get, ToNibs, OnlyWritten, OnlyChanges, Reaches, StorageChange;
    OnlyWrittenStep(start.trie, before.trie, done, a, after.trie);
    assert StorageBase(before, post, a) == StorageBase(start, post, a);
    forall b | b != a
      ensures b in after.storages <==> b in before.storages
    {
      assert b in after.storages.Keys - {a} <==> b in before.storages.Keys - {a};
    }
  }

  /** A state that stands for the full one altogether has the right storage roots and the right root. */
  lemma SameRoots(K: Keccak, before: State, post: PostState, s: State, f: State)
    requires StatePrunes(K, s, f) && IsUpdatedFor(K, before, post, post.accounts.Keys, f, s.storages)
    ensures IsUpdated(K, before, post, post.accounts.Keys, f) && HashOf(K, s.trie) == HashOf(K, f.trie)
  {
    hide HashOf, Prunes, IsUpdatedFor, IsUpdated;
    PrunesHash(K, s.trie, f.trie);
    forall a | a in post.accounts.Keys && Kept(post, a)
      ensures a in f.storages && a in s.storages && HashOf(K, s.storages[a]) == HashOf(K, f.storages[a])
    {
      KeptIsThere(K, before, post, f, s.storages, a);
      assert a in s.storages.Keys;
      PrunesHash(K, s.storages[a], f.storages[a]);
    }
    RightRoots(K, before, post, post.accounts.Keys, f, s.storages);
  }

  lemma KeptIsThere(K: Keccak, before: State, post: PostState, f: State, held: map<Hash, Node>, a: Hash)
    requires IsUpdatedFor(K, before, post, post.accounts.Keys, f, held) && Kept(post, a)
    ensures a in f.storages
  {
    hide Get;
    assert a in post.accounts.Keys;
  }

  class EthereumState {
    var stateTrie: MptNode
    var storageTries: map<Hash, MptNode>
    ghost var Repr: set<MptNode>
    ghost var view: State

    ghost predicate Valid(K: Keccak)
      reads this, Repr
    {
      && ValidTries(K)
      && stateTrie.model == view.trie
      && view.storages.Keys == storageTries.Keys
      && (forall a :: a in storageTries ==> storageTries[a].model == view.storages[a])
    }

    /** All tries are consistent and share no nodes. */
    ghost predicate ValidTries(K: Keccak)
      reads this, Repr
    {
      && stateTrie in Repr && stateTrie.Repr <= Repr && stateTrie.Valid(K)
      && (forall a :: a in storageTries ==>
            && storageTries[a] in Repr && storageTries[a].Repr <= Repr
            && storageTries[a].Valid(K) && storageTries[a].Repr !! stateTrie.Repr)
      && (forall a, b :: a in storageTries && b in storageTries && a != b ==>
            storageTries[a].Repr !! storageTries[b].Repr)
    }

    constructor (ghost K: Keccak, stateTrie: MptNode, storageTries: map<Hash, MptNode>, ghost footprint: set<MptNode>)
      requires stateTrie.Valid(K) && stateTrie.Repr <= footprint
      requires forall a :: a in storageTries ==>
        storageTries[a].Valid(K) && storageTries[a].Repr <= footprint && storageTries[a].Repr !! stateTrie.Repr
      requires forall a, b :: a in storageTries && b in storageTries && a != b ==>
        storageTries[a].Repr !! storageTries[b].Repr
      ensures Valid(K) && Repr == footprint
      ensures this.stateTrie == stateTrie && this.storageTries == storageTries
    {
      this.stateTrie := stateTrie;
      this.storageTries := storageTries;
      Repr := footprint;
      view := State(stateTrie.model, map a | a in storageTries :: storageTries[a].model);
    }

    method StateRoot(K: Keccak) returns (root: Hash)
      requires Valid(K)
      modifies Repr`cachedReference
      ensures Valid(K) && root == HashOf(K, view.trie)
    {
      hide HashOf;
      root := stateTrie.GetHash(K);
      forall a | a in storageTries
        ensures storageTries[a].Valid(K)
      {
      }
    }

    /** Makes sure that an account has a storage trie, an empty one if there was none. */
    method EntryOrDefault(ghost K: Keccak, a: Hash)
      requires Valid(K)
      modifies this`storageTries, this`Repr, this`view
      ensures Valid(K) && fresh(Repr - old(Repr)) && a in storageTries
      ensures view == old(view).(storages :=
        if a in old(view).storages then old(view).storages else old(view).storages[a := Null])
    {
      hide MptNode.Valid, MptNode.ValidBody;
      if a !in storageTries {
        var empty := new MptNode.Default(K);
        storageTries := storageTries[a := empty];
        view := view.(storages := view.storages[a := Null]);
        TrieChanged(K, a);
      }
    }

    /** Writes the changed slots of one account and takes the hash of its storage trie. */
    method WriteStorage(K: Keccak, a: Hash, storage: HashedStorage, ghost full: Node)
      returns (ok: bool, root: Hash, ghost full': Node)
      requires Valid(K) && a in view.storages && a in storageTries && Full(full)
      requires LooselyPrunes(K, view.storages[a], full)
      modifies Repr, this`Repr, this`view
      ensures fresh(Repr - old(Repr))
      ensures ok <==> Writes(old(view).storages[a], storage)
      ensures ok ==>
        && Valid(K) && Full(full') && a in view.storages
        && view == old(view).(storages := old(view).storages[a := view.storages[a]])
        && IsOverlay(full', if storage.wiped then Null else full, storage.slots, storage.slots.Keys)
        && OnlyWritten(if storage.wiped then Null else old(view).storages[a], view.storages[a], storage.slots.Keys)
        && Keeps(K, old(view).storages[a], full, view.storages[a], full', Clears(storage))
        && root == HashOf(K, view.storages[a])
    {
      hide HashOf, LooselyPrunes, Full, IsOverlay, Writes, Clears, Keeps, OnlyWritten;
      var trie := storageTries[a];
      assert forall b :: b in storageTries && b != a ==> storageTries[b].Repr !! storageTries[a].Repr;
      root := EMPTY_ROOT;
      ok, full' := WriteSlots(K, trie, storage, full);
      if ok {
        TrieChanged(K, a);
        root := StorageRoot(K, a);
      }
    }

    /** Takes note of a storage trie that was changed in place. */
    ghost method TrieChanged(K: Keccak, a: Hash)
      requires a in storageTries && storageTries[a].Valid(K)
      requires stateTrie in Repr && stateTrie.Repr <= Repr && stateTrie.Valid(K) && stateTrie.model == view.trie
      requires storageTries[a].Repr !! stateTrie.Repr
      requires view.storages.Keys == storageTries.Keys
      requires forall b :: b in storageTries && b != a ==>
        && storageTries[b] in Repr && storageTries[b].Repr <= Repr
        && storageTries[b].Valid(K) && storageTries[b].Repr !! stateTrie.Repr
        && storageTries[b].Repr !! storageTries[a].Repr
        && storageTries[b].model == view.storages[b]
      requires forall b, c :: b in storageTries && c in storageTries && b != c ==>
        storageTries[b].Repr !! storageTries[c].Repr
      modifies this`Repr, this`view
      ensures Valid(K) && Repr == old(Repr) + storageTries[a].Repr
      ensures view == old(view).(storages := old(view).storages[a := storageTries[a].model])
    {
      Repr := Repr + storageTries[a].Repr;
      view := view.(storages := view.storages[a := storageTries[a].model]);
    }

    method StorageRoot(K: Keccak, a: Hash) returns (root: Hash)
      requires Valid(K) && a in storageTries && a in view.storages
      modifies Repr`cachedReference
      ensures Valid(K) && root == HashOf(K, view.storages[a])
    {
      hide HashOf;
      root := storageTries[a].GetHash(K);
      forall b | b in storageTries
        ensures storageTries[b].Valid(K)
      {
      }
    }

    /** Sets the record of an account in the state trie. */
    method InsertRecord(ghost K: Keccak, a: Hash, encoded: Bytes) returns (r: Answer)
      requires Valid(K)
      modifies Repr, this`Repr, this`view
      ensures Valid(K) && fresh(Repr - old(Repr))
      ensures r == AnswerOf(Insert(old(view).trie, ToNibs(a), encoded))
      ensures r == Ok(true) ==> view == old(view).(trie := Insert(old(view).trie, ToNibs(a), encoded).node)
      ensures r != Ok(true) ==> view == old(view)
    {
      hide Insert, ToNibs;
      r := stateTrie.InsertRlp(K, a, encoded);
      Repr := Repr + stateTrie.Repr;
      view := view.(trie := stateTrie.model);
    }

    /** Removes the record of an account from the state trie. */
    method DeleteRecord(ghost K: Keccak, a: Hash) returns (r: Answer)
      requires Valid(K)
      modifies Repr, this`Repr, this`view
      ensures fresh(Repr - old(Repr))
      ensures r == AnswerOf(Delete(old(view).trie, ToNibs(a)))
      ensures r == Ok(true) ==> Valid(K) && view == old(view).(trie := Delete(old(view).trie, ToNibs(a)).node)
      ensures r == Ok(false) ==> Valid(K) && view == old(view)
    {
      hide Delete, ToNibs;
      r := stateTrie.DeleteKey(K, a);
      Repr := Repr + stateTrie.Repr;
      view := view.(trie := stateTrie.model);
    }

    /** Brings one account up to date. */
    method UpdateAccount(K: Keccak, a: Hash, post: PostState, ghost full: State) returns (ok: bool, ghost full': State)
      requires Valid(K) && a in post.accounts && StateFull(full) && StateLoosely(K, view, full)
      modifies this, Repr
      ensures fresh(Repr - old(Repr))
      ensures ok <==> Touches(old(view), post, a)
      ensures ok ==>
        && Valid(K) && StateFull(full') && view.storages.Keys == full'.storages.Keys
        && IsWritten(K, full, post, a, full', view.storages)
        && StateKeeps(K, old(view), full, view, full', Removes(post, a))
        && OthersKept(old(view), a, view) && Reaches(view.trie, a)
        && (if Kept(post, a) then StorageWritten(old(view), post, a, view) else view.storages == old(view).storages)
    {
      hide *;
      var account := post.accounts[a];
      if account.Some? {
        ok, full' := KeepAccount(K, a, account.value, post, full);
      } else {
        ok, full' := DropAccount(K, a, post, full);
      }
    }

    method KeepAccount(K: Keccak, a: Hash, account: Account, post: PostState, ghost full: State)
      returns (ok: bool, ghost full': State)
      requires Valid(K) && StateFull(full) && StateLoosely(K, view, full)
      requires a in post.accounts && post.accounts[a] == Some(account)
      modifies this, Repr
      ensures fresh(Repr - old(Repr))
      ensures ok <==> Touches(old(view), post, a)
      ensures ok ==>
        && Valid(K) && StateFull(full') && view.storages.Keys == full'.storages.Keys
        && IsWritten(K, full, post, a, full', view.storages)
        && StateKeeps(K, old(view), full, view, full', Removes(post, a))
        && OthersKept(old(view), a, view) && Reaches(view.trie, a)
        && (if Kept(post, a) then StorageWritten(old(view), post, a, view) else view.storages == old(view).storages)
    {
      hide Insert, ToNibs, HashOf, Prunes, LooselyPrunes, Full, IsOverlay, EncodeAccount, Get, Valid, IsWritten, Reaches, OnlyChanges,
        Writes, Clears, WritesAt, StorageBase, StateLoosely, StateKeeps, Keeps, OnlyWritten, StorageChange, StorageAt, Removes;
      var root;
      ghost var storage, start := Null, view;
      ok, root, storage := StorageOfAccount(K, a, post, full);
      full' := full;
      if ok {
        ghost var written := view;
        var record := TrieAccount(account.nonce, account.balance, root,
                                  if account.bytecodeHash.Some? then account.bytecodeHash.value else KECCAK_EMPTY);
        full' := KeptState(K, full, account, a, storage, written.storages[a]);
        KeepOnBoth(K, start, written, full, post, a, storage);
        var r := InsertRecord(K, a, EncodeAccount(record));
        ok := r.Ok?;
        if ok {
          LooselySameKeys(K, view, full', start, full, Removes(post, a));
        }
      }
    }

    /** Writes the slots of an account that is kept, into an empty trie if it had none. */
    method StorageOfAccount(K: Keccak, a: Hash, post: PostState, ghost full: State)
      returns (ok: bool, root: Hash, ghost storage: Node)
      requires Valid(K) && StateFull(full) && StateLoosely(K, view, full)
      modifies this, Repr
      ensures fresh(Repr - old(Repr))
      ensures ok <==> WritesAt(old(view), post, a)
      ensures ok ==>
        && Valid(K) && Full(storage) && a in view.storages && root == HashOf(K, view.storages[a])
        && view == old(view).(storages := old(view).storages[a := view.storages[a]])
        && (var slots := StorageChange(post, a).slots; IsOverlay(storage, StorageBase(full, post, a), slots, slots.Keys))
        && StorageWritten(old(view), post, a, view)
        && Keeps(K, StorageAt(old(view), a), StorageAt(full, a), view.storages[a], storage, Clears(StorageChange(post, a)))
    {
      hide HashOf, Prunes, LooselyPrunes, Full, IsOverlay, Valid, Writes, Clears, StorageChange, Keeps, OnlyWritten;
      EmptyIsFull(K, Null, Null);
      NullPrunes(K);
      WritesEmpty(StorageChange(post, a));
      assert a in full.storages <==> a in full.storages.Keys;
      assert a in view.storages <==> a in view.storages.Keys;
      ghost var base := StorageAt(full, a);
      EntryOrDefault(K, a);
      ok, root, storage := WriteStorage(K, a, StorageChange(post, a), base);
    }

    method DropAccount(K: Keccak, a: Hash, post: PostState, ghost full: State) returns (ok: bool, ghost full': State)
      requires Valid(K) && StateFull(full) && StateLoosely(K, view, full)
      requires a in post.accounts && post.accounts[a] == None
      modifies this, Repr
      ensures fresh(Repr - old(Repr))
      ensures ok <==> Touches(old(view), post, a)
      ensures ok ==>
        && Valid(K) && StateFull(full') && view.storages.Keys == full'.storages.Keys
        && IsWritten(K, full, post, a, full', view.storages)
        && StateKeeps(K, old(view), full, view, full', Removes(post, a))
        && OthersKept(old(view), a, view) && Reaches(view.trie, a)
        && (if Kept(post, a) then StorageWritten(old(view), post, a, view) else view.storages == old(view).storages)
    {
      hide Delete, ToNibs, HashOf, Prunes, LooselyPrunes, Full, Get, Valid, Reaches, OnlyChanges;
      ghost var known := view;
      DeleteOnBoth(K, known.trie, full.trie, a);
      full' := State(Delete(full.trie, ToNibs(a)).node, full.storages);
      var r := DeleteRecord(K, a);
      ok := r.Ok?;
    }

    /** Brings all changed accounts up to date, in any order. The state may be sparse: `full` is the
        state it stands for. An `unwrap` fails just when an account or a slot cannot be looked up
        beforehand. If none does, the new full state is `full` with the changes, and with the storage
        roots that were written; the state still stands for it, at least loosely, and altogether if it
        did before and nothing was removed. Then the storage roots and the root are right. A state that
        leaves nothing out is always brought up to date. */
    method Update(K: Keccak, post: PostState, ghost full: State) returns (ok: bool, ghost full': State)
      requires Valid(K) && StateFull(full) && StateLoosely(K, view, full)
      modifies this, Repr
      ensures fresh(Repr - old(Repr))
      ensures ok <==> CanUpdate(old(view), post, post.accounts.Keys)
      ensures ok ==>
        && Valid(K) && StateFull(full') && IsUpdatedFor(K, full, post, post.accounts.Keys, full', view.storages)
        && StateKeeps(K, old(view), full, view, full', exists a :: Removes(post, a))
        && StateWritten(old(view), post, post.accounts.Keys, view)
      ensures ok && StatePrunes(K, view, full') ==>
        IsUpdated(K, full, post, post.accounts.Keys, full') && HashOf(K, view.trie) == HashOf(K, full'.trie)
      ensures old(view) == full ==> ok && view == full' && IsUpdated(K, full, post, post.accounts.Keys, full')
    {
      hide *;
      full' := full;
      ghost var start := view;
      ghost var removes := exists a :: Removes(post, a);
      FullCanUpdate(full, post);
      var remaining := post.accounts.Keys;
      ghost var done := {};
      NothingUpdated(K, view, full, post);
      StateKeepsItself(K, view, full, removes);
      while remaining != {}
        invariant remaining !! done && done + remaining == post.accounts.Keys
        invariant Valid(K) && fresh(Repr - old(Repr))
        invariant StateFull(full') && view.storages.Keys == full'.storages.Keys
        invariant IsUpdatedFor(K, full, post, done, full', view.storages)
        invariant StateKeeps(K, start, full, view, full', removes)
        invariant StateWritten(start, post, done, view)
        invariant CanUpdate(start, post, post.accounts.Keys) <==> CanUpdate(view, post, remaining)
        decreases |remaining|
      {
        var a :| a in remaining;
        ghost var before, known := full', view;
        CannotUpdate(known, post, remaining, a);
        StateStaysLoose(K, start, full, known, before, removes);
        ok, full' := UpdateAccount(K, a, post, before);
        if !ok {
          return;
        }
        AccountStep(K, start, full, post, done, remaining, known, before, a, view, full');
        remaining := remaining - {a};
        done := done + {a};
      }
      assert done == post.accounts.Keys;
      NothingLeft(view, post);
      ok := true;
      Finished(K, start, full, post, view, full');
    }
  }

  lemma LooselySameKeys(K: Keccak, s: State, f: State, start: State, full: State, removes: bool)
    requires StateKeeps(K, start, full, s, f, removes)
    ensures s.storages.Keys == f.storages.Keys
  {
    hide LooselyPrunes, Prunes;
  }

  lemma StateStaysLoose(K: Keccak, s: State, f: State, s': State, f': State, removes: bool)
    requires StateKeeps(K, s, f, s', f', removes)
    ensures StateLoosely(K, s', f')
  {
    hide StateLoosely, StatePrunes;
  }

  /** One account more. */
  lemma AccountStep(K: Keccak, start: State, full: State, post: PostState, done: set<Hash>, remaining: set<Hash>,
                    known: State, before: State, a: Hash, now: State, after: State)
    requires a in remaining && a in post.accounts && a !in done && Touches(known, post, a)
    requires IsUpdatedFor(K, full, post, done, before, known.storages) && IsWritten(K, before, post, a, after, now.storages)
    requires now.storages.Keys == after.storages.Keys
    requires StateKeeps(K, start, full, known, before, exists b :: Removes(post, b))
    requires StateKeeps(K, known, before, now, after, Removes(post, a))
    requires StateWritten(start, post, done, known) && OthersKept(known, a, now) && Reaches(now.trie, a)
    requires if Kept(post, a) then StorageWritten(known, post, a, now) else now.storages == known.storages
    ensures IsUpdatedFor(K, full, post, done + {a}, after, now.storages)
    ensures StateKeeps(K, start, full, now, after, exists b :: Removes(post, b))
    ensures StateWritten(start, post, done + {a}, now)
    ensures CanUpdate(known, post, remaining) <==> CanUpdate(now, post, remaining - {a})
  {
    hide IsUpdatedFor, IsWritten, StateKeeps, StateWritten, OnlyChanges, Reaches, Removes, Touches, StorageWritten, Kept, CanUpdate;
    UpdateStep(K, full, post, done, before, a, after, known.storages, now.storages);
    StateKeepsMore(K, start, full, known, before, exists b :: Removes(post, b), now, after, Removes(post, a));
    StateWrittenStep(start, post, done, known, a, now);
    OthersKeptStep(known, post, remaining, a, now);
  }

  lemma Finished(K: Keccak, start: State, full: State, post: PostState, s: State, f: State)
    requires IsUpdatedFor(K, full, post, post.accounts.Keys, f, s.storages)
    requires StateKeeps(K, start, full, s, f, exists a :: Removes(post, a))
    ensures StatePrunes(K, s, f) ==>
      IsUpdated(K, full, post, post.accounts.Keys, f) && HashOf(K, s.trie) == HashOf(K, f.trie)
    ensures start == full ==> s == f && IsUpdated(K, full, post, post.accounts.Keys, f)
  {
    hide IsUpdatedFor, StateLoosely, StatePrunes, HashOf;
    if StatePrunes(K, s, f) {
      SameRoots(K, full, post, s, f);
    }
  }
}
