/** The state root is the one that the Ethereum Yellow Paper defines for the accounts and their storage,
    before a block and after it. */
module Worlds {
  import opened Basics
  import opened HexPrefix
  import opened Rlp
  import opened Trie
  import opened NormalForm
  import opened Encoding
  import opened History
  import opened Accounts
  import opened StorageUpdate
  import opened EthereumStates
  import opened Agreement
  import opened Readback
  import Paper = YellowPaper

  // Tries with 32-byte keys.

  /** The trie holds exactly these entries. */
  ghost predicate Holds(f: Node, entries: map<Hash, Bytes>) {
    Full(f) && forall key: Hash :: Get(f, ToNibs(key)) == Found(if key in entries then Some(entries[key]) else None)
  }

  lemma Expanded(entries: map<Hash, Bytes>, key: Hash)
    ensures ToNibs(key) in Paper.Expand(entries) <==> key in entries
    ensures key in entries ==> Paper.Expand(entries)[ToNibs(key)] == entries[key]
  {
    hide ToNibs, Paper.NibblesOf;
    NibblesAgree(key);
    forall other | other in entries && Paper.NibblesOf(other) == Paper.NibblesOf(key)
      ensures other == key
    {
      NibblesAgree(other);
      NibsInjective(other, key);
    }
    if key in entries {
      assert Paper.NibblesOf(key) in Paper.ExpandedKeys(entries);
    }
  }

  /** Sixty-four nibbles are the nibbles of some key. */
  lemma IsKey(k: Nibbles) returns (key: Hash)
    requires |k| == 64
    ensures ToNibs(key) == k
  {
    key := PackPairs(k);
  }

  lemma HoldsAll(f: Node, entries: map<Hash, Bytes>)
    requires Holds(f, entries)
    ensures Represents(f, Paper.Expand(entries))
  {
    hide ToNibs, Get, Paper.Expand, Canonical;
    var m := Paper.Expand(entries);
    assert DigestFree(f);
    forall k
      ensures Get(f, k) == Found(if k in m then Some(m[k]) else None)
    {
      FullAnswers(f, k);
      if |k| == 64 {
        var key := IsKey(k);
        Expanded(entries, key);
      } else {
        assert !Present(f, k);
        NotExpanded(entries, k);
      }
    }
  }

  lemma NotExpanded(entries: map<Hash, Bytes>, k: Nibbles)
    requires |k| != 64
    ensures k !in Paper.Expand(entries)
  {
  }

  /** The hash of a trie is the root that the paper defines for its entries. */
  lemma HeldRoot(K: Keccak, f: Node, entries: map<Hash, Bytes>)
    requires Holds(f, entries)
    ensures HashOf(K, f) == Paper.TrieRoot(K, Paper.Expand(entries), 64)
  {
    hide ToNibs, Get, Normal, FixedKeys, HashOf, Paper.Expand, Paper.TrieRoot;
    HoldsAll(f, entries);
    RootAgrees(K, f, Paper.Expand(entries), 64);
  }

  // The state.

  /** The state trie holds the accounts, and every storage trie that is there the storage of its account. */
  ghost predicate IsWorld(K: Keccak, s: State, w: Paper.World) {
    && Holds(s.trie, Paper.AccountEntries(K, w))
    && forall a :: a in s.storages && a in w ==> Holds(s.storages[a], Paper.StorageEntries(w[a].storage))
  }

  /** The hash of the state trie is the root of the world. */
  lemma RootOfWorld(K: Keccak, s: State, w: Paper.World)
    requires IsWorld(K, s, w)
    ensures HashOf(K, s.trie) == Paper.WorldRoot(K, w)
  {
    hide Holds, HashOf, Paper.AccountEntries, Paper.TrieRoot;
    HeldRoot(K, s.trie, Paper.AccountEntries(K, w));
  }

  /** The storage that a block leaves to an account. */
  function StorageAfter(storage: map<Hash, nat>, post: PostState, a: Hash): map<Hash, nat> {
    if a !in post.storages then storage
    else if post.storages[a].wiped then post.storages[a].slots
    else storage + post.storages[a].slots
  }

  /** The accounts that a block leaves. */
  function WorldAfter(K: Keccak, w: Paper.World, post: PostState): Paper.World {
    map a | a in w.Keys + post.accounts.Keys && (a in post.accounts ==> post.accounts[a].Some?) ::
      if a !in post.accounts then w[a] else
      var account := post.accounts[a].value;
      Paper.WorldAccount(account.nonce, account.balance,
                         match account.bytecodeHash case Some(hash) => hash case None => K([]),
                         StorageAfter(if a in w then w[a].storage else map[], post, a))
  }

  /** An account that is not there has no storage, and every account that is kept has its storage trie,
      unless the storage is empty or wiped. */
  ghost predicate StoragesAreThere(s: State, w: Paper.World, post: PostState) {
    && (forall a :: a in s.storages && a !in w ==> Holds(s.storages[a], map[]))
    && (forall a :: Kept(post, a) && a in w && a !in s.storages ==>
          Paper.StorageEntries(w[a].storage) == map[] || (a in post.storages && post.storages[a].wiped))
  }

  lemma EmptyHolds()
    ensures Holds(Null, map[])
  {
  }

  /** The entries that the slots are written over. */
  function EntriesBefore(w: Paper.World, post: PostState, a: Hash): map<Hash, Bytes> {
    if a !in w || (a in post.storages && post.storages[a].wiped) then map[] else Paper.StorageEntries(w[a].storage)
  }

  lemma BaseHolds(K: Keccak, before: State, w: Paper.World, post: PostState, a: Hash)
    requires IsWorld(K, before, w) && StoragesAreThere(before, w, post) && Kept(post, a)
    ensures Holds(StorageBase(before, post, a), EntriesBefore(w, post, a))
  {
    hide Holds, Paper.StorageEntries, Paper.AccountEntries;
    EmptyHolds();
  }

  lemma WordAgrees(word: nat)
    ensures EncodeWord(word) == Paper.WordRlp(word)
  {
    hide Paper.StringRlp, EncodeString;
    SameBigEndian(word);
    StringsAgree(BigEndian(word));
  }

  /** One entry of a storage trie that is written over. */
  lemma SlotHolds(K: Keccak, n: Node, base: Node, w: Paper.World, post: PostState, a: Hash, key: Hash)
    requires Kept(post, a) && Holds(base, EntriesBefore(w, post, a))
    requires var slots := StorageChange(post, a).slots; IsOverlay(n, base, slots, slots.Keys)
    ensures var entries := Paper.StorageEntries(WorldAfter(K, w, post)[a].storage);
      Get(n, ToNibs(key)) == Found(if key in entries then Some(entries[key]) else None)
  {
    hide Get, ToNibs, Full, EncodeWord, Paper.WordRlp;
    var slots := StorageChange(post, a).slots;
    if key in slots.Keys {
      WordAgrees(slots[key]);
    } else {
      OtherKeys(slots.Keys, key);
    }
  }

  /** The storage of an account that is kept. */
  lemma StorageHolds(K: Keccak, n: Node, base: Node, w: Paper.World, post: PostState, a: Hash)
    requires Full(n) && Kept(post, a) && Holds(base, EntriesBefore(w, post, a))
    requires var slots := StorageChange(post, a).slots; IsOverlay(n, base, slots, slots.Keys)
    ensures Holds(n, Paper.StorageEntries(WorldAfter(K, w, post)[a].storage))
  {
    hide Get, ToNibs, Full, EntriesBefore, IsOverlay, StorageChange, Paper.StorageEntries, StorageAfter;
    var entries := Paper.StorageEntries(WorldAfter(K, w, post)[a].storage);
    forall key: Hash
      ensures Get(n, ToNibs(key)) == Found(if key in entries then Some(entries[key]) else None)
    {
      SlotHolds(K, n, base, w, post, a, key);
    }
  }

  /** The record of an account that is kept, in the terms of the paper. */
  lemma KeptRecord(K: Keccak, w: Paper.World, post: PostState, a: Hash, storage: Node)
    requires Kept(post, a) && Holds(storage, Paper.StorageEntries(WorldAfter(K, w, post)[a].storage))
    ensures EncodeAccount(Record(K, post.accounts[a].value, storage)) == Paper.AccountEntries(K, WorldAfter(K, w, post))[a]
  {
    hide EncodeAccount, Holds, HashOf, Paper.TrieRoot, Paper.AccountRlp, Paper.StorageEntries, StorageAfter;
    var r := Record(K, post.accounts[a].value, storage);
    HeldRoot(K, storage, Paper.StorageEntries(WorldAfter(K, w, post)[a].storage));
    RecordsAgree(0, r);
  }

  lemma StoragesHold(K: Keccak, before: State, w: Paper.World, post: PostState, after: State, a: Hash)
    requires IsWorld(K, before, w) && StoragesAreThere(before, w, post) && StateFull(after)
    requires StoragesUpdated(before, post, post.accounts.Keys, after) && a in after.storages && a in WorldAfter(K, w, post)
    ensures Holds(after.storages[a], Paper.StorageEntries(WorldAfter(K, w, post)[a].storage))
  {
    hide Holds, Paper.StorageEntries, Paper.AccountEntries, Normal, FixedKeys, IsOverlay, EntriesBefore, StorageChange, StorageBase,
      StorageAfter;
    if Kept(post, a) {
      assert a in post.accounts.Keys;
      BaseHolds(K, before, w, post, a);
      StorageHolds(K, after.storages[a], StorageBase(before, post, a), w, post, a);
    }
  }

  lemma AccountsHold(K: Keccak, before: State, w: Paper.World, post: PostState, after: State)
    requires IsWorld(K, before, w) && StoragesAreThere(before, w, post) && StateFull(after)
    requires IsUpdated(K, before, post, post.accounts.Keys, after)
    ensures Holds(after.trie, Paper.AccountEntries(K, WorldAfter(K, w, post)))
  {
    hide Get, ToNibs, Normal, FixedKeys, IsOverlay, StorageChange, StorageBase, StorageAfter, EncodeAccount, Record, Paper.StorageEntries,
      Paper.AccountRlp, Paper.StorageRoot, StoragesAreThere;
    var entries, old' := Paper.AccountEntries(K, WorldAfter(K, w, post)), Paper.AccountEntries(K, w);
    forall a: Hash
      ensures Get(after.trie, ToNibs(a)) == Found(if a in entries then Some(entries[a]) else None)
    {
      if a !in post.accounts.Keys {
        OtherKeys(post.accounts.Keys, a);
        assert Get(after.trie, ToNibs(a)) == Get(before.trie, ToNibs(a));
        assert a in entries <==> a in old';
      } else if Kept(post, a) {
        StoragesHold(K, before, w, post, after, a);
        KeptRecord(K, w, post, a, after.storages[a]);
      }
    }
  }

  /** A state that is up to date holds the accounts that the block leaves, with their storage, and its
      root is the one that the paper defines for them. */
  lemma UpdatedWorld(K: Keccak, before: State, w: Paper.World, post: PostState, after: State)
    requires IsWorld(K, before, w) && StoragesAreThere(before, w, post) && StateFull(after)
    requires IsUpdated(K, before, post, post.accounts.Keys, after)
    ensures IsWorld(K, after, WorldAfter(K, w, post)) && HashOf(K, after.trie) == Paper.WorldRoot(K, WorldAfter(K, w, post))
  {
    hide Holds, HashOf, Paper.WorldRoot, StoragesAreThere, Paper.AccountEntries, Paper.StorageEntries, StoragesUpdated, RecordsUpdated,
      StateFull, WorldAfter;
    AccountsHold(K, before, w, post, after);
    forall a | a in after.storages && a in WorldAfter(K, w, post)
      ensures Holds(after.storages[a], Paper.StorageEntries(WorldAfter(K, w, post)[a].storage))
    {
      StoragesHold(K, before, w, post, after, a);
    }
    RootOfWorld(K, after, WorldAfter(K, w, post));
  }
}
