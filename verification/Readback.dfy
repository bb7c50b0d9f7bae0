/** What is read from the tries, and from the state after an update: for each account and each slot, what
    was written. */
module Readback {
  import opened Basics
  import opened HexPrefix
  import opened Rlp
  import opened Trie
  import opened Encoding
  import opened Accounts
  import opened EthereumStates
  import opened Witness
  import opened TrieDb

  // Lookups.

  /** The bytes start with the record of the account. */
  predicate HoldsRecord(bytes: Bytes, account: TrieAccount) {
    IsNonce(account.nonce) && IsWord(account.balance) && EncodeAccount(account) <= bytes
  }

  /** The bytes start with the code of the word. */
  predicate HoldsWord(bytes: Bytes, word: nat) {
    IsWord(word) && EncodeWord(word) <= bytes
  }

  /** The account of an address is read just when its record is found, none just when nothing is, and the
      lookup or the decoding fails just when a digest is met or the value holds no record. */
  lemma AccountIsRead(trie: Node, a: Hash)
    ensures var r := Get(trie, ToNibs(a));
      && (r.Unresolved? ==> GetAccount(trie, a) == Failing)
      && (r == Found(None) ==> GetAccount(trie, a) == Answer(None))
      && (r.Found? && r.value.Some? ==> GetAccount(trie, a) != Answer(None) && forall account ::
            GetAccount(trie, a) == Answer(Some(account)) <==> HoldsRecord(r.value.value, account))
  {
    hide Get, ToNibs, DecodeAccount, HoldsRecord;
    var r := Get(trie, ToNibs(a));
    if r.Found? && r.value.Some? {
      forall account
        ensures DecodeAccount(r.value.value) == Some(account) <==> HoldsRecord(r.value.value, account)
      {
        RecordIsRead(r.value.value, account);
      }
    }
  }

  lemma RecordIsRead(bytes: Bytes, account: TrieAccount)
    ensures DecodeAccount(bytes) == Some(account) <==> HoldsRecord(bytes, account)
  {
    hide DecodeAccount, EncodeAccount, Power;
    AccountIsWritten(bytes, account);
  }

  /** What the guest reads for an account. */
  lemma BasicIsRead(K: Keccak, trie: Node, address: Bytes)
    ensures var r := Get(trie, ToNibs(K(address)));
      && (r == Found(None) ==> BasicRef(K, trie, address) == Info(None))
      && (r.Found? && r.value.Some? ==> BasicRef(K, trie, address) != Info(None) && forall account ::
            BasicRef(K, trie, address) == Info(Some(account)) <==> HoldsRecord(r.value.value, account))
      && (BasicRef(K, trie, address) == AccountPanic <==>
            r.Unresolved? || (r.value.Some? && !exists account :: HoldsRecord(r.value.value, account)))
  {
    hide Get, ToNibs, HoldsRecord, GetAccount;
    AccountIsRead(trie, K(address));
    var got := GetAccount(trie, K(address));
    forall account
      ensures BasicRef(K, trie, address) == Info(Some(account)) <==> got == Answer(Some(account))
    {
    }
    if got.Answer? && got.account.Some? {
      var account := got.account.value;
      assert got == Answer(Some(account));
    }
  }

  /** What the guest reads for a slot: zero when there is no entry, else the word in the entry; it panics
      just when the storage trie is not supplied, a digest is met or the value holds no word. */
  lemma SlotIsRead(K: Keccak, storages: Tries, address: Bytes, index: Bytes)
    ensures K(address) !in storages ==> StorageRef(K, storages, address, index) == StoragePanic
    ensures K(address) in storages ==>
      var r := Get(storages[K(address)], ToNibs(K(index)));
      && (r == Found(None) ==> StorageRef(K, storages, address, index) == Word(0))
      && (r.Found? && r.value.Some? ==> forall word ::
            StorageRef(K, storages, address, index) == Word(word) <==> HoldsWord(r.value.value, word))
      && (StorageRef(K, storages, address, index) == StoragePanic <==>
            r.Unresolved? || (r.value.Some? && !exists word :: HoldsWord(r.value.value, word)))
  {
    hide Get, ToNibs, DecodeWord, HoldsWord;
    if K(address) in storages {
      var r := Get(storages[K(address)], ToNibs(K(index)));
      if r.Found? && r.value.Some? {
        forall word: nat
          ensures DecodeWord(r.value.value) == Some(word) <==> HoldsWord(r.value.value, word)
        {
          WordIsRead(r.value.value, word);
        }
      }
    }
  }

  lemma WordIsRead(bytes: Bytes, word: nat)
    ensures DecodeWord(bytes) == Some(word) <==> HoldsWord(bytes, word)
  {
    hide DecodeWord, EncodeWord, Power;
    WordIsWritten(bytes, word);
  }

  // After an update.

  /** Every account that is kept is read with the nonce, the balance and the code of the changes and with
      the hash of its storage trie; an account that is removed is gone; all others are as before. */
  lemma AccountAfterUpdate(K: Keccak, before: State, post: PostState, after: State, held: map<Hash, Node>, a: Hash)
    requires IsUpdatedFor(K, before, post, post.accounts.Keys, after, held)
    requires a in post.accounts && post.accounts[a].Some? ==>
      IsNonce(post.accounts[a].value.nonce) && IsWord(post.accounts[a].value.balance)
    ensures a in post.accounts && post.accounts[a].Some? ==>
      && a in held && GetAccount(after.trie, a).Answer? && GetAccount(after.trie, a).account.Some?
      && var account, r := post.accounts[a].value, GetAccount(after.trie, a).account.value;
         && r.nonce == account.nonce && r.balance == account.balance
         && r.codeHash == (match account.bytecodeHash case Some(hash) => hash case None => K([]))
         && r.storageRoot == HashOf(K, held[a])
    ensures a in post.accounts && post.accounts[a].None? ==> GetAccount(after.trie, a) == Answer(None)
    ensures a !in post.accounts ==> GetAccount(after.trie, a) == GetAccount(before.trie, a)
  {
    hide Get, ToNibs, HashOf, EncodeAccount, DecodeAccount, IsNonce, IsWord, StoragesUpdated;
    if a !in post.accounts {
      OtherKeys(post.accounts.Keys, a);
    } else if post.accounts[a].Some? {
      assert a in post.accounts.Keys && Kept(post, a);
      var r := Record(K, post.accounts[a].value, held[a]);
      RecordIsRead(EncodeAccount(r), r);
    } else {
      assert a in post.accounts.Keys && !Kept(post, a);
    }
  }

  /** Other keys have other nibbles. */
  lemma OtherKeys(keys: set<Hash>, a: Hash)
    requires a !in keys
    ensures forall b :: b in keys ==> ToNibs(b) != ToNibs(a)
  {
    hide ToNibs;
    forall b | b in keys
      ensures ToNibs(b) != ToNibs(a)
    {
      if ToNibs(b) == ToNibs(a) {
        NibsInjective(b, a);
      }
    }
  }

  /** A slot that is written has the new word, and none for zero. A slot that is not written keeps its
      entry, unless the storage is wiped or there was no storage trie: then it has none. */
  lemma SlotAfterUpdate(K: Keccak, before: State, post: PostState, after: State, held: map<Hash, Node>, a: Hash, key: Hash)
    requires IsUpdatedFor(K, before, post, post.accounts.Keys, after, held)
    ensures a in post.accounts && post.accounts[a].Some? ==> a in after.storages
    ensures a in post.accounts && post.accounts[a].Some? && a in post.storages && key in post.storages[a].slots ==>
      Get(after.storages[a], ToNibs(key))
      == if post.storages[a].slots[key] == 0 then Found(None) else Found(Some(EncodeWord(post.storages[a].slots[key])))
    ensures a in post.accounts && post.accounts[a].Some? && !(a in post.storages && key in post.storages[a].slots) ==>
      Get(after.storages[a], ToNibs(key))
      == if a in before.storages && !(a in post.storages && post.storages[a].wiped) then Get(before.storages[a], ToNibs(key))
         else Found(None)
    ensures !(a in post.accounts && post.accounts[a].Some?) ==>
      (a in after.storages <==> a in before.storages) && (a in after.storages ==> after.storages[a] == before.storages[a])
  {
    hide ToNibs, EncodeWord, RecordsUpdated;
    if a in post.accounts && post.accounts[a].Some? {
      assert a in post.accounts.Keys && Kept(post, a);
      var slots := StorageChange(post, a).slots;
      if key !in slots {
        OtherKeys(slots.Keys, key);
      } else {
        assert key in slots.Keys;
      }
    }
  }

  /** The guest's reads after an update: what the changes say, for an account that is kept and one that is
      removed. */
  lemma BasicAfterUpdate(K: Keccak, before: State, post: PostState, after: State, address: Bytes)
    requires IsUpdated(K, before, post, post.accounts.Keys, after) && K(address) in post.accounts
    requires var account := post.accounts[K(address)]; account.Some? ==> IsNonce(account.value.nonce) && IsWord(account.value.balance)
    ensures post.accounts[K(address)].None? ==> BasicRef(K, after.trie, address) == Info(None)
    ensures post.accounts[K(address)].Some? ==>
      && BasicRef(K, after.trie, address).Info? && BasicRef(K, after.trie, address).account.Some?
      && var account, r := post.accounts[K(address)].value, BasicRef(K, after.trie, address).account.value;
         && r.nonce == account.nonce && r.balance == account.balance
         && r.codeHash == (match account.bytecodeHash case Some(hash) => hash case None => K([]))
  {
    hide GetAccount, HashOf, IsUpdatedFor, IsNonce, IsWord;
    AccountAfterUpdate(K, before, post, after, after.storages, K(address));
  }

  /** A written slot of an account that is kept is read as the new word, zero included; a slot that is not
      written as before, or as zero when the storage is wiped. */
  lemma StorageAfterUpdate(K: Keccak, before: State, post: PostState, after: State, held: map<Hash, Node>, address: Bytes, index: Bytes)
    requires IsUpdatedFor(K, before, post, post.accounts.Keys, after, held)
    requires K(address) in post.accounts && post.accounts[K(address)].Some?
    ensures K(address) in post.storages && K(index) in post.storages[K(address)].slots ==>
      var word := post.storages[K(address)].slots[K(index)];
      IsWord(word) ==> StorageRef(K, after.storages, address, index) == Word(word)
    ensures !(K(address) in post.storages && K(index) in post.storages[K(address)].slots) ==>
      StorageRef(K, after.storages, address, index)
      == if K(address) in before.storages && !(K(address) in post.storages && post.storages[K(address)].wiped)
         then StorageRef(K, before.storages, address, index) else Word(0)
  {
    hide Get, ToNibs, IsUpdatedFor, DecodeWord, EncodeWord, IsWord;
    var a, key := K(address), K(index);
    SlotAfterUpdate(K, before, post, after, held, a, key);
    if a in post.storages && key in post.storages[a].slots {
      var word := post.storages[a].slots[key];
      if IsWord(word) {
        WordIsRead(EncodeWord(word), word);
      }
    }
  }
}
