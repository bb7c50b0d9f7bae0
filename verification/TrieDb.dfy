/** What the guest reads while it executes a block, from tries it has checked. */
module TrieDb {
  import opened Basics
  import opened HexPrefix
  import opened Trie
  import opened NormalForm
  import opened Encoding
  import opened Authentication
  import opened Accounts
  import opened Witness

  datatype AccountRead = Info(account: Option<TrieAccount>) | AccountPanic

  datatype StorageRead = Word(value: nat) | StoragePanic

  /** The account of an address; a lookup or a decoding that fails panics. */
  function BasicRef(K: Keccak, trie: Node, address: Bytes): AccountRead {
    match GetAccount(trie, K(address))
    case Failing => AccountPanic
    case Answer(account) => Info(account)
  }

  /** The word that a storage trie holds for a slot, zero when there is none. */
  function WordAt(K: Keccak, storage: Node, index: Bytes): StorageRead {
    match Get(storage, ToNibs(K(index)))
    case Unresolved(_) => StoragePanic
    case Found(None) => Word(0)
    case Found(Some(bytes)) =>
      match DecodeWord(bytes)
      case None => StoragePanic
      case Some(w) => Word(w)
  }

  /** A storage word; a storage trie that is not provided panics, too. */
  function StorageRef(K: Keccak, storages: Tries, address: Bytes, index: Bytes): StorageRead {
    if K(address) !in storages then StoragePanic else WordAt(K, storages[K(address)], index)
  }

  /** A state that leaves nothing out: every account has a storage trie with its storage root as its
      hash, and an address without an account has an empty storage trie, if any. */
  ghost predicate FullState(K: Keccak, anchor: Hash, trie: Node, storages: Tries) {
    && HashOf(K, trie) == anchor && DigestFree(trie)
    && (forall a :: GetAccount(trie, a).Answer? && GetAccount(trie, a).account.Some? ==> a in storages)
    && forall a :: a in storages ==> DigestFree(storages[a]) && StorageAccepted(K, trie, storages, a)
  }

  /** The storage of an address in a full state: empty when there is no account. */
  function FullStorage(storages: Tries, a: Hash): Node {
    if a in storages then storages[a] else Null
  }

  /** The guest's state can be compared with a full one, and no nodes collide. */
  ghost predicate StatesComparable(K: Keccak, trie: Node, storages: Tries, full: Node, fulls: Tries) {
    && Comparable(K, trie, full)
    && forall a :: a in storages ==> Comparable(K, storages[a], FullStorage(fulls, a))
  }

  /** The guest reads the truth: on a state that passed its checks, every account it reads is the
      account of the address in every full state with the anchor as its root, and every storage word
      is the word in that state. */
  lemma GuestReadsTruth(K: Keccak, anchor: Hash, trie: Node, storages: Tries, full: Node, fulls: Tries, address: Bytes, index: Bytes)
    requires HashOf(K, trie) == anchor && forall a :: a in storages ==> StorageAccepted(K, trie, storages, a)
    requires FullState(K, anchor, full, fulls) && StatesComparable(K, trie, storages, full, fulls)
    ensures BasicRef(K, trie, address).Info? ==> BasicRef(K, full, address) == BasicRef(K, trie, address)
    ensures StorageRef(K, storages, address, index).Word? ==>
      WordAt(K, FullStorage(fulls, K(address)), index) == StorageRef(K, storages, address, index)
  {
    hide HashOf, DecodeAccount, DecodeWord, Get, Comparable;
    var a := K(address);
    SameAccount(K, trie, full, a);
    if a in storages {
      assert StorageAccepted(K, trie, storages, a) && (a in fulls ==> StorageAccepted(K, full, fulls, a));
      HashOfEmpty(K);
      var k := ToNibs(K(index));
      if Get(storages[a], k).Found? {
        AuthenticatedGet(K, storages[a], FullStorage(fulls, a), k);
      }
    }
  }

  lemma SameAccount(K: Keccak, trie: Node, full: Node, a: Hash)
    requires Comparable(K, trie, full) && HashOf(K, trie) == HashOf(K, full)
    ensures GetAccount(trie, a).Answer? ==> GetAccount(full, a) == GetAccount(trie, a)
  {
    hide HashOf, DecodeAccount, Get, Comparable;
    if Get(trie, ToNibs(a)).Found? {
      AuthenticatedGet(K, trie, full, ToNibs(a));
    }
  }
}
