/** Building the tries of a block from an execution witness on the host, and checking them in the
    guest. */
module Witness {
  import opened Basics
  import opened HexPrefix
  import opened Trie
  import opened Encoding
  import opened Decoding
  import opened Resolution
  import opened Leaves
  import opened Accounts

  /** A decoded lookup: the record, if there is one, or a failure to look up or to decode. */
  datatype AccountLookup = Answer(account: Option<TrieAccount>) | Failing

  function GetAccount(n: Node, a: Hash): AccountLookup {
    match Get(n, ToNibs(a))
    case Unresolved(_) => Failing
    case Found(None) => Answer(None)
    case Found(Some(bytes)) =>
      match DecodeAccount(bytes)
      case None => Failing
      case Some(account) => Answer(Some(account))
  }

  type Tries = map<Hash, Node>

  /** Every storage trie hashes to the storage root in the record of its account. */
  ghost predicate RootsMatch(K: Keccak, trie: Node, storages: Tries) {
    forall a :: a in storages ==> RootMatches(K, trie, storages, a)
  }

  predicate RootMatches(K: Keccak, trie: Node, storages: Tries, a: Hash)
    requires a in storages
  {
    var r := GetAccount(trie, a);
    r.Answer? && r.account.Some? && r.account.value.storageRoot == HashOf(K, storages[a])
  }

  datatype StorageError = Unreadable | Missing | RootMismatch(address: Hash, expected: Hash, actual: Hash)

  /** Checks the storage tries in any order; the answer names an account that does not match. */
  method ValidateStorageTries(K: Keccak, trie: Node, storages: Tries) returns (r: Option<StorageError>)
    ensures r == None <==> RootsMatch(K, trie, storages)
    ensures r == None <==> forall a :: a in storages ==>
      && GetAccount(trie, a).Answer? && GetAccount(trie, a).account.Some?
      && GetAccount(trie, a).account.value.storageRoot == HashOf(K, storages[a])
    ensures r.Some? ==> exists a :: a in storages && match GetAccount(trie, a)
      case Failing => r.value == Unreadable
      case Answer(None) => r.value == Missing
      case Answer(Some(account)) =>
        account.storageRoot != HashOf(K, storages[a]) && r.value == RootMismatch(a, account.storageRoot, HashOf(K, storages[a]))
  {
    hide GetAccount, HashOf;
    var remaining := storages.Keys;
    while remaining != {}
      invariant remaining <= storages.Keys
      invariant forall a :: a in storages && a !in remaining ==> RootMatches(K, trie, storages, a)
      decreases |remaining|
    {
      var a :| a in remaining;
      remaining := remaining - {a};
      var account := GetAccount(trie, a);
      if account.Failing? {
        return Some(Unreadable);
      }
      if account.account.None? {
        return Some(Missing);
      }
      var expected, actual := account.account.value.storageRoot, HashOf(K, storages[a]);
      if expected != actual {
        return Some(RootMismatch(a, expected, actual));
      }
    }
    r := None;
  }

  // The guest.

  datatype Opened = StateOk | MismatchedStateRoot | MismatchedStorageRoot | LookupPanic

  /** The guest's checks of the state: the state trie against the parent header, every storage trie
      against its account; an account that is not there has no storage. */
  method CheckState(K: Keccak, anchor: Hash, trie: Node, storages: Tries) returns (r: Opened)
    ensures r == MismatchedStateRoot <==> HashOf(K, trie) != anchor
    ensures r == StateOk <==> HashOf(K, trie) == anchor && forall a :: a in storages ==> StorageAccepted(K, trie, storages, a)
    ensures r == StateOk <==> HashOf(K, trie) == anchor && forall a :: a in storages ==> match GetAccount(trie, a)
      case Failing => false
      case Answer(None) => HashOf(K, storages[a]) == EMPTY_ROOT
      case Answer(Some(account)) => HashOf(K, storages[a]) == account.storageRoot
    ensures r == MismatchedStorageRoot ==> exists a :: a in storages && match GetAccount(trie, a)
      case Failing => false
      case Answer(None) => HashOf(K, storages[a]) != EMPTY_ROOT
      case Answer(Some(account)) => HashOf(K, storages[a]) != account.storageRoot
    ensures r == LookupPanic ==> exists a :: a in storages && GetAccount(trie, a).Failing?
  {
    hide GetAccount, HashOf;
    if anchor != HashOf(K, trie) {
      return MismatchedStateRoot;
    }
    var remaining := storages.Keys;
    while remaining != {}
      invariant remaining <= storages.Keys
      invariant forall a :: a in storages && a !in remaining ==> StorageAccepted(K, trie, storages, a)
      decreases |remaining|
    {
      var a :| a in remaining;
      remaining := remaining - {a};
      var account := GetAccount(trie, a);
      if account.Failing? {
        assert !StorageAccepted(K, trie, storages, a);
        return LookupPanic;
      }
      var storageRoot := if account.account.None? then EMPTY_ROOT else account.account.value.storageRoot;
      if storageRoot != HashOf(K, storages[a]) {
        assert !StorageAccepted(K, trie, storages, a);
        return MismatchedStorageRoot;
      }
    }
    r := StateOk;
  }

  predicate StorageAccepted(K: Keccak, trie: Node, storages: Tries, a: Hash)
    requires a in storages
  {
    var r := GetAccount(trie, a);
    r.Answer? && HashOf(K, storages[a]) == if r.account.None? then EMPTY_ROOT else r.account.value.storageRoot
  }

  // The host.

  /** Where the nodes in the indices come from. */
  ghost predicate Indexed(K: Keccak, encodings: seq<Bytes>, hash: Hash, n: Node) {
    exists e :: e in encodings && K(e) == hash && Decode(e) == Ok(n)
  }

  datatype Index = Index(byReference: Store, byHash: Tries, root: Option<Node>) | IndexPanic

  ghost predicate IndexOf(K: Keccak, encodings: seq<Bytes>, anchor: Hash, index: Index) {
    index.Index? ==>
      && Keyed(K, index.byReference)
      && ByHashIndexed(K, encodings, index.byHash)
      && AllIndexed(K, encodings, index)
      && RootIndexed(K, encodings, anchor, index.root)
  }

  ghost predicate ByHashIndexed(K: Keccak, encodings: seq<Bytes>, byHash: Tries) {
    forall h :: h in byHash ==> Indexed(K, encodings, h, byHash[h])
  }

  ghost predicate AllIndexed(K: Keccak, encodings: seq<Bytes>, index: Index)
    requires index.Index?
  {
    forall e :: e in encodings ==>
      Decode(e).Ok? && K(e) in index.byHash && ReferenceOf(K, Decode(e).node) in index.byReference
  }

  ghost predicate RootIndexed(K: Keccak, encodings: seq<Bytes>, anchor: Hash, root: Option<Node>) {
    && (root.Some? ==> Indexed(K, encodings, anchor, root.value))
    && (root.None? ==> forall e :: e in encodings ==> K(e) != anchor)
  }

  /** The index of the first nodes, and then of the next one. */
  function IndexAll(K: Keccak, encodings: seq<Bytes>, anchor: Hash): Index
    decreases |encodings|
  {
    if encodings == [] then Index(map[], map[], None) else
    var last := |encodings| - 1;
    match IndexAll(K, encodings[..last], anchor)
    case IndexPanic => IndexPanic
    case Index(byReference, byHash, root) =>
      match Decode(encodings[last])
      case Ok(n) =>
        var hash := K(encodings[last]);
        Index(File(K, byReference, n), byHash[hash := n], if hash == anchor then Some(n) else root)
      case _ => IndexPanic
  }

  /** Decodes the witness nodes and files them by reference and by the digest of their bytes. */
  method IndexWitness(K: Keccak, encodings: seq<Bytes>, anchor: Hash) returns (index: Index)
    ensures index == IndexAll(K, encodings, anchor)
  {
    hide Decode, ReferenceOf;
    var byReference: Store := map[];
    var byHash: Tries := map[];
    var root: Option<Node> := None;
    for i := 0 to |encodings|
      invariant IndexAll(K, encodings[..i], anchor) == Index(byReference, byHash, root)
    {
      var encoded := encodings[i];
      assert encodings[..i + 1][..i] == encodings[..i];
      var decoded := Decode(encoded);
      if !decoded.Ok? {
        PanicStays(K, encodings, anchor, i + 1);
        return IndexPanic;
      }
      var node := decoded.node;
      var hash := K(encoded);
      if hash == anchor {
        root := Some(node);
      }
      byHash := byHash[hash := node];
      byReference := File(K, byReference, node);
    }
    assert encodings[..|encodings|] == encodings;
    index := Index(byReference, byHash, root);
  }

  lemma {:induction false} PanicStays(K: Keccak, encodings: seq<Bytes>, anchor: Hash, i: nat)
    requires i <= |encodings| && IndexAll(K, encodings[..i], anchor) == IndexPanic
    ensures IndexAll(K, encodings, anchor) == IndexPanic
    decreases |encodings| - i
  {
    hide Decode, ReferenceOf;
    if i == |encodings| {
      assert encodings[..i] == encodings;
    } else {
      assert encodings[..i + 1][..i] == encodings[..i];
      PanicStays(K, encodings, anchor, i + 1);
    }
  }

  /** Everything that was decoded is found in the index, and nothing else is. */
  lemma {:induction false} IndexHolds(K: Keccak, encodings: seq<Bytes>, anchor: Hash)
    ensures IndexOf(K, encodings, anchor, IndexAll(K, encodings, anchor))
    ensures IndexAll(K, encodings, anchor).IndexPanic? <==> exists e :: e in encodings && !Decode(e).Ok?
    decreases |encodings|
  {
    hide Decode, ReferenceOf;
    if encodings == [] {
      hide *;
      EmptyIndex(K, anchor);
    } else {
      var last := |encodings| - 1;
      var e := encodings[last];
      assert encodings == encodings[..last] + [e];
      IndexHolds(K, encodings[..last], anchor);
      var index := IndexAll(K, encodings[..last], anchor);
      assert e in encodings;
      if index.Index? && Decode(e).Ok? {
        hide IndexOf;
        IndexStep(K, encodings[..last], anchor, index, e);
      }
    }
  }

  lemma EmptyIndex(K: Keccak, anchor: Hash)
    ensures IndexAll(K, [], anchor) == Index(map[], map[], None)
    ensures IndexOf(K, [], anchor, IndexAll(K, [], anchor))
  {
  }

  lemma IndexStep(K: Keccak, seen: seq<Bytes>, anchor: Hash, index: Index, e: Bytes)
    requires index.Index? && IndexOf(K, seen, anchor, index) && Decode(e).Ok?
    ensures var n := Decode(e).node;
      IndexOf(K, seen + [e], anchor,
              Index(File(K, index.byReference, n), index.byHash[K(e) := n], if K(e) == anchor then Some(n) else index.root))
  {
    hide Decode, ReferenceOf, Indexed, ByHashIndexed, AllIndexed, RootIndexed;
    var n := Decode(e).node;
    FileKeepsKeyed(K, index.byReference, n);
    ByHashStep(K, seen, index.byHash, e, n);
    RootStep(K, seen, anchor, index.root, e, n);
    AllStep(K, seen, index, e, Index(File(K, index.byReference, n), index.byHash[K(e) := n],
                                     if K(e) == anchor then Some(n) else index.root));
  }

  lemma IndexedStep(K: Keccak, seen: seq<Bytes>, h: Hash, n: Node, e: Bytes)
    requires Indexed(K, seen, h, n)
    ensures Indexed(K, seen + [e], h, n)
  {
    var x :| x in seen && K(x) == h && Decode(x) == Ok(n);
    assert x in seen + [e];
  }

  lemma ByHashStep(K: Keccak, seen: seq<Bytes>, byHash: Tries, e: Bytes, n: Node)
    requires ByHashIndexed(K, seen, byHash) && Decode(e) == Ok(n)
    ensures ByHashIndexed(K, seen + [e], byHash[K(e) := n])
  {
    hide Decode;
    assert e in seen + [e];
    forall h | h in byHash && h != K(e)
      ensures Indexed(K, seen + [e], h, byHash[h])
    {
      IndexedStep(K, seen, h, byHash[h], e);
    }
  }

  lemma RootStep(K: Keccak, seen: seq<Bytes>, anchor: Hash, root: Option<Node>, e: Bytes, n: Node)
    requires RootIndexed(K, seen, anchor, root) && Decode(e) == Ok(n)
    ensures RootIndexed(K, seen + [e], anchor, if K(e) == anchor then Some(n) else root)
  {
    hide Decode;
    assert e in seen + [e];
    if root.Some? {
      IndexedStep(K, seen, anchor, root.value, e);
    }
  }

  lemma AllStep(K: Keccak, seen: seq<Bytes>, index: Index, e: Bytes, index': Index)
    requires index.Index? && index'.Index? && AllIndexed(K, seen, index) && Decode(e).Ok?
    requires index'.byReference == File(K, index.byReference, Decode(e).node)
    requires index'.byHash == index.byHash[K(e) := Decode(e).node]
    ensures AllIndexed(K, seen + [e], index')
  {
    hide Decode, ReferenceOf;
  }

  predicate IsAccount(call: (Bytes, Bytes)) {
    |call.0| == 32 && DecodeAccount(call.1).Some?
  }

  function AccountOf(call: (Bytes, Bytes)): (Hash, Hash)
    requires IsAccount(call)
  {
    (call.0, DecodeAccount(call.1).value.storageRoot)
  }

  /** The addresses and storage roots of the calls. */
  predicate AreAccounts(calls: seq<(Bytes, Bytes)>, accounts: seq<(Hash, Hash)>) {
    && |accounts| == |calls|
    && forall i :: 0 <= i < |calls| ==>
         IsAccount(calls[i]) && accounts[i] == AccountOf(calls[i])
  }

  /** Reads the address and the storage root out of every leaf; `None` when a leaf is no account. */
  method CollectAccounts(calls: seq<(Bytes, Bytes)>) returns (r: Option<seq<(Hash, Hash)>>)
    ensures r.Some? <==> forall i :: 0 <= i < |calls| ==> IsAccount(calls[i])
    ensures r.Some? ==> AreAccounts(calls, r.value)
  {
    hide DecodeAccount;
    var accounts: seq<(Hash, Hash)> := [];
    for i := 0 to |calls|
      invariant AreAccounts(calls[..i], accounts)
    {
      var account := DecodeAccount(calls[i].1);
      if account.None? || |calls[i].0| != 32 {
        return None;
      }
      accounts := accounts + [(calls[i].0, account.value.storageRoot)];
    }
    assert calls[..|calls|] == calls;
    r := Some(accounts);
  }

  /** The storage trie comes from the node with the storage root of one of the accounts. */
  ghost predicate StorageOf(a: Hash, n: Node, accounts: seq<(Hash, Hash)>, index: Index)
    requires index.Index?
  {
    exists i :: 0 <= i < |accounts| && accounts[i].0 == a && accounts[i].1 in index.byHash
      && Resolve(index.byHash[accounts[i].1], index.byReference) == Some(n)
  }

  datatype Resolved = Storages(tries: Tries) | Undone | Unending

  /** The storage tries of all accounts whose root node is known, up to one that comes out as a digest or
      cannot be resolved. */
  function StoragesOf(accounts: seq<(Hash, Hash)>, index: Index): Resolved
    requires index.Index?
    decreases |accounts|
  {
    if accounts == [] then Storages(map[]) else
    var last := |accounts| - 1;
    var (address, storageRoot) := accounts[last];
    match StoragesOf(accounts[..last], index)
    case Storages(tries) =>
      (if storageRoot !in index.byHash then Storages(tries) else
       match Resolve(index.byHash[storageRoot], index.byReference)
       case None => Unending
       case Some(trie) => if trie.Digest? then Undone else Storages(tries[address := trie]))
    case failed => failed
  }

  method BuildStorages(accounts: seq<(Hash, Hash)>, index: Index) returns (r: Resolved)
    requires index.Index?
    ensures r == StoragesOf(accounts, index)
  {
    hide Resolve;
    var tries: Tries := map[];
    for i := 0 to |accounts|
      invariant StoragesOf(accounts[..i], index) == Storages(tries)
    {
      var (address, storageRoot) := accounts[i];
      assert accounts[..i + 1][..i] == accounts[..i];
      if storageRoot in index.byHash {
        var trie := Resolve(index.byHash[storageRoot], index.byReference);
        if trie.None? || trie.value.Digest? {
          FailureStays(accounts, index, i + 1);
          return if trie.None? then Unending else Undone;
        }
        tries := tries[address := trie.value];
      }
    }
    assert accounts[..|accounts|] == accounts;
    r := Storages(tries);
  }

  lemma {:induction false} FailureStays(accounts: seq<(Hash, Hash)>, index: Index, i: nat)
    requires index.Index? && i <= |accounts| && !StoragesOf(accounts[..i], index).Storages?
    ensures StoragesOf(accounts, index) == StoragesOf(accounts[..i], index)
    decreases |accounts| - i
  {
    hide Resolve;
    if i == |accounts| {
      assert accounts[..i] == accounts;
    } else {
      assert accounts[..i + 1][..i] == accounts[..i];
      FailureStays(accounts, index, i + 1);
    }
  }

  /** Every account whose root node is known gets its storage trie, and no other address does. */
  lemma {:induction false} StoragesHold(accounts: seq<(Hash, Hash)>, index: Index)
    requires index.Index?
    ensures var r := StoragesOf(accounts, index);
      && (r.Storages? ==> forall a :: a in r.tries ==> StorageOf(a, r.tries[a], accounts, index) && !r.tries[a].Digest?)
      && (r.Storages? ==> forall i :: 0 <= i < |accounts| && accounts[i].1 in index.byHash ==> accounts[i].0 in r.tries)
      && (r.Undone? ==> exists h :: h in index.byHash && index.byHash[h].Digest?)
      && (r.Unending? ==> exists h :: h in index.byHash && Resolve(index.byHash[h], index.byReference).None?)
    decreases |accounts|
  {
    hide Resolve;
    if accounts != [] {
      var last := |accounts| - 1;
      StoragesHold(accounts[..last], index);
      var (address, storageRoot) := accounts[last];
      if storageRoot in index.byHash {
        ResolvedIsNoDigest(index.byHash[storageRoot], index.byReference);
      }
      var r, earlier := StoragesOf(accounts, index), StoragesOf(accounts[..last], index);
      if r.Storages? {
        forall a | a in r.tries
          ensures StorageOf(a, r.tries[a], accounts, index) && !r.tries[a].Digest?
        {
          if storageRoot !in index.byHash || a != address {
            var i :| 0 <= i < last && accounts[..last][i].0 == a && accounts[..last][i].1 in index.byHash
              && Resolve(index.byHash[accounts[..last][i].1], index.byReference) == Some(earlier.tries[a]);
            assert accounts[i] == accounts[..last][i];
          }
        }
      }
    }
  }

  lemma ResolvedIsNoDigest(n: Node, store: Store)
    ensures !n.Digest? && Resolve(n, store).Some? ==> !Resolve(n, store).value.Digest?
  {
  }

  datatype Built = Built(trie: Node, storages: Tries) | BuildError(why: StorageError) | BuildPanic | BuildEndless

  /** All witness nodes are nodes, and in the encoding that the program writes. */
  predicate Honest(K: Keccak, encodings: seq<Bytes>) {
    forall e :: e in encodings ==> IsHonest(K, e)
  }

  predicate IsHonest(K: Keccak, e: Bytes) {
    var d := Decode(e);
    d.Ok? && !d.node.Digest? && Encode(K, d.node) == e
  }

  /** All leaves are account records under 32-byte keys. */
  predicate AccountLeaves(trie: Node) {
    forall v :: v in LeavesOf(trie, []) ==> |v.0| == 64 && DecodeAccount(v.1).Some?
  }

  function AccountsOf(calls: seq<(Bytes, Bytes)>): (r: seq<(Hash, Hash)>)
    requires forall i :: 0 <= i < |calls| ==> IsAccount(calls[i])
    ensures AreAccounts(calls, r)
  {
    seq(|calls|, i requires 0 <= i < |calls| => AccountOf(calls[i]))
  }

  /** The node with the anchor as its digest, or just the digest. */
  function RootOf(index: Index, anchor: Hash): Node
    requires index.Index?
  {
    if index.root.Some? then index.root.value else Digest(anchor)
  }

  /** The tries before they are validated against each other. */
  function TriesOf(K: Keccak, index: Index, anchor: Hash): Built {
    if index.IndexPanic? then BuildPanic else
    match Resolve(RootOf(index, anchor), index.byReference)
    case None => BuildEndless
    case Some(trie) =>
      var calls := Calls(LeavesOf(trie, []));
      if exists i :: 0 <= i < |calls| && !IsAccount(calls[i]) then BuildPanic else
      match StoragesOf(AccountsOf(calls), index)
      case Unending => BuildEndless
      case Undone => BuildPanic
      case Storages(storages) => if HashOf(K, trie) != anchor then BuildPanic else Built(trie, storages)
  }

  function BuildOutcome(K: Keccak, encodings: seq<Bytes>, anchor: Hash): Built {
    TriesOf(K, IndexAll(K, encodings, anchor), anchor)
  }

  /** Builds and validates the tries of a block; what does not pass is an error. */
  method BuildValidatedTries(K: Keccak, encodings: seq<Bytes>, anchor: Hash) returns (r: Built)
    ensures var o := BuildOutcome(K, encodings, anchor);
      if o.Built? && !RootsMatch(K, o.trie, o.storages) then r.BuildError? else r == o
    ensures var o := BuildOutcome(K, encodings, anchor);
      r.BuildError? ==> o.Built? && exists a :: a in o.storages && match GetAccount(o.trie, a)
        case Failing => r.why == Unreadable
        case Answer(None) => r.why == Missing
        case Answer(Some(account)) =>
          account.storageRoot != HashOf(K, o.storages[a]) && r.why == RootMismatch(a, account.storageRoot, HashOf(K, o.storages[a]))
    ensures r.Built? ==> HashOf(K, r.trie) == anchor && RootsMatch(K, r.trie, r.storages)
  {
    hide IndexAll, LeavesOf, Calls, IsAccount, AccountsOf, StoragesOf, RootsMatch, HashOf, Resolve, GetAccount;
    var index := IndexWitness(K, encodings, anchor);
    if index.IndexPanic? {
      return BuildPanic;
    }
    var trie := Resolve(RootOf(index, anchor), index.byReference);
    if trie.None? {
      return BuildEndless;
    }
    var calls := ForEachLeaves(trie.value);
    var accounts := CollectAccounts(calls);
    if accounts.None? {
      return BuildPanic;
    }
    AccountsAre(calls, accounts.value);
    var storages := BuildStorages(accounts.value, index);
    if storages.Unending? {
      return BuildEndless;
    }
    if storages.Undone? || HashOf(K, trie.value) != anchor {
      return BuildPanic;
    }
    var error := ValidateStorageTries(K, trie.value, storages.tries);
    if error.Some? {
      return BuildError(error.value);
    }
    r := Built(trie.value, storages.tries);
  }

  lemma AccountsAre(calls: seq<(Bytes, Bytes)>, accounts: seq<(Hash, Hash)>)
    requires AreAccounts(calls, accounts)
    ensures accounts == AccountsOf(calls)
  {
  }

  /** An account of the trie whose storage root is the digest of one of the witness nodes. */
  predicate HasStorage(trie: Node, byHash: Tries, a: Hash) {
    var r := GetAccount(trie, a);
    r.Answer? && r.account.Some? && r.account.value.storageRoot in byHash
  }

  /** The storage trie of an account is resolved from the node with its storage root. */
  ghost predicate StorageResolved(trie: Node, index: Index, a: Hash, n: Node)
    requires index.Index?
  {
    HasStorage(trie, index.byHash, a)
    && Resolve(index.byHash[GetAccount(trie, a).account.value.storageRoot], index.byReference) == Some(n)
  }

  /** If the leaves of the state trie are accounts, exactly the accounts whose root node is in the
      witness get a storage trie, resolved from that node. */
  lemma TriesAreCorrect(K: Keccak, index: Index, anchor: Hash)
    requires index.Index?
    ensures var o := TriesOf(K, index, anchor);
      o.Built? ==> Resolve(RootOf(index, anchor), index.byReference) == Some(o.trie) && HashOf(K, o.trie) == anchor
    ensures var o := TriesOf(K, index, anchor);
      o.Built? && AccountLeaves(o.trie) ==>
        && (forall a :: HasStorage(o.trie, index.byHash, a) ==> a in o.storages)
        && (forall a :: a in o.storages ==> !o.storages[a].Digest? && StorageResolved(o.trie, index, a, o.storages[a]))
  {
    hide LeavesOf, Calls, IsAccount, AccountsOf, StoragesOf, HashOf, Resolve, GetAccount, AccountLeaves, StorageOf,
      StorageResolved;
    var o := TriesOf(K, index, anchor);
    if o.Built? && AccountLeaves(o.trie) {
      var calls := Calls(LeavesOf(o.trie, []));
      StoragesHold(AccountsOf(calls), index);
      forall a | HasStorage(o.trie, index.byHash, a)
        ensures a in o.storages
      {
        var i := AccountIndex(o.trie, a);
      }
      forall a | a in o.storages
        ensures StorageResolved(o.trie, index, a, o.storages[a])
      {
        StorageIsResolved(o.trie, index, a, o.storages[a]);
      }
    }
  }

  /** The leaves as addresses and storage roots. */
  predicate AreLeafAccounts(trie: Node) {
    forall i :: 0 <= i < |Calls(LeavesOf(trie, []))| ==> IsAccount(Calls(LeavesOf(trie, []))[i])
  }

  /** When the tries are built, and what stands in the way if they are not, for any witness. They are built just
      when every node decodes, the root resolves to a trie with the anchor as its hash whose leaves are
      all accounts, and the storage tries of all accounts whose root node is there come out as tries. */
  lemma BuiltExactly(K: Keccak, encodings: seq<Bytes>, anchor: Hash)
    ensures var o, index := BuildOutcome(K, encodings, anchor), IndexAll(K, encodings, anchor);
      && (o.Built? ==>
            && index.Index? && Resolve(RootOf(index, anchor), index.byReference) == Some(o.trie)
            && HashOf(K, o.trie) == anchor && AreLeafAccounts(o.trie)
            && StoragesOf(AccountsOf(Calls(LeavesOf(o.trie, []))), index) == Storages(o.storages))
      && (o.BuildEndless? ==>
            && index.Index?
            && (Resolve(RootOf(index, anchor), index.byReference).None?
                || exists h :: h in index.byHash && Resolve(index.byHash[h], index.byReference).None?))
      && (o.BuildPanic? ==>
            || (exists e :: e in encodings && !Decode(e).Ok?)
            || (index.Index? && exists h :: h in index.byHash && index.byHash[h].Digest?)
            || (index.Index? && Resolve(RootOf(index, anchor), index.byReference).Some?
                && var trie := Resolve(RootOf(index, anchor), index.byReference).value;
                   !AreLeafAccounts(trie) || HashOf(K, trie) != anchor))
      && !o.BuildError?
  {
    hide Decode, HashOf, IndexAll, LeavesOf, Calls, IsAccount, AccountsOf, StoragesOf, Resolve, IndexOf;
    IndexHolds(K, encodings, anchor);
    var index := IndexAll(K, encodings, anchor);
    if index.Index? && Resolve(RootOf(index, anchor), index.byReference).Some? {
      var trie := Resolve(RootOf(index, anchor), index.byReference).value;
      if AreLeafAccounts(trie) {
        StoragesHold(AccountsOf(Calls(LeavesOf(trie, []))), index);
      }
    }
  }

  lemma StorageIsResolved(trie: Node, index: Index, a: Hash, n: Node)
    requires index.Index? && AccountLeaves(trie)
    requires forall i :: 0 <= i < |Calls(LeavesOf(trie, []))| ==> IsAccount(Calls(LeavesOf(trie, []))[i])
    requires StorageOf(a, n, AccountsOf(Calls(LeavesOf(trie, []))), index)
    ensures StorageResolved(trie, index, a, n)
  {
    hide LeavesOf, DecodeAccount, Resolve, GetAccount, AccountLeaves;
    var accounts := AccountsOf(Calls(LeavesOf(trie, [])));
    var i :| 0 <= i < |accounts| && accounts[i].0 == a && accounts[i].1 in index.byHash
      && Resolve(index.byHash[accounts[i].1], index.byReference) == Some(n);
    AccountAt(trie, i);
  }

  /** The place of an account among the leaves. */
  lemma AccountIndex(trie: Node, a: Hash) returns (i: nat)
    requires AccountLeaves(trie) && GetAccount(trie, a).Answer? && GetAccount(trie, a).account.Some?
    ensures forall j :: 0 <= j < |Calls(LeavesOf(trie, []))| ==> IsAccount(Calls(LeavesOf(trie, []))[j])
    ensures i < |Calls(LeavesOf(trie, []))|
    ensures AccountsOf(Calls(LeavesOf(trie, [])))[i] == (a, GetAccount(trie, a).account.value.storageRoot)
  {
    hide LeavesOf, DecodeAccount, Get, PackPairs, IsAccount;
    CallsOfAccounts(trie);
    PresentIsVisited(trie, [], ToNibs(a));
    assert [] + ToNibs(a) == ToNibs(a);
    var visits := LeavesOf(trie, []);
    i :| 0 <= i < |visits| && visits[i] == (ToNibs(a), Get(trie, ToNibs(a)).value.value);
    PackedNibs(a);
  }

  lemma PackedNibs(a: Bytes)
    ensures Packed(ToNibs(a)) == a
  {
    hide PackPairs;
    NibsInjective(Packed(ToNibs(a)), a);
  }

  /** On witness nodes in the program's encoding, and with accounts at the leaves, building and validating
      the tries can fail in one way only: by not coming to an end. */
  lemma HonestIsBuilt(K: Keccak, encodings: seq<Bytes>, anchor: Hash)
    requires Honest(K, encodings)
    ensures IndexAll(K, encodings, anchor).Index?
    ensures var o, index := BuildOutcome(K, encodings, anchor), IndexAll(K, encodings, anchor);
      var trie := Resolve(RootOf(index, anchor), index.byReference);
      trie.Some? && AccountLeaves(trie.value) ==>
        (o.Built? && RootsMatch(K, o.trie, o.storages)) || StoragesEndless(index)
  {
    hide IndexAll, Resolve, Honest, AccountLeaves, RootsMatch, IndexOf, TriesOf, StoragesEndless;
    IndexHolds(K, encodings, anchor);
    HonestDecodes(K, encodings);
    var index := IndexAll(K, encodings, anchor);
    var trie := Resolve(RootOf(index, anchor), index.byReference);
    if trie.Some? && AccountLeaves(trie.value) {
      HonestTries(K, encodings, anchor, index);
    }
  }

  /** Some node of the witness cannot be resolved. */
  ghost predicate StoragesEndless(index: Index)
    requires index.Index?
  {
    exists h :: h in index.byHash && Resolve(index.byHash[h], index.byReference).None?
  }

  lemma HonestTries(K: Keccak, encodings: seq<Bytes>, anchor: Hash, index: Index)
    requires index.Index? && IndexOf(K, encodings, anchor, index) && Honest(K, encodings)
    requires var trie := Resolve(RootOf(index, anchor), index.byReference); trie.Some? && AccountLeaves(trie.value)
    ensures var o := TriesOf(K, index, anchor); (o.Built? && RootsMatch(K, o.trie, o.storages)) || StoragesEndless(index)
  {
    hide LeavesOf, Calls, IsAccount, AccountsOf, StoragesOf, HashOf, Resolve, Honest, AccountLeaves, RootsMatch, IndexOf,
      StorageOf;
    var trie := Resolve(RootOf(index, anchor), index.byReference).value;
    HonestIndex(K, encodings, anchor, index);
    HonestRoot(K, encodings, anchor, index);
    CallsOfAccounts(trie);
    var calls := Calls(LeavesOf(trie, []));
    StoragesHold(AccountsOf(calls), index);
    var storages := StoragesOf(AccountsOf(calls), index);
    if storages.Storages? {
      HonestStorages(K, encodings, anchor, index, trie, calls, AccountsOf(calls), storages.tries);
    }
  }

  lemma HonestDecodes(K: Keccak, encodings: seq<Bytes>)
    requires Honest(K, encodings)
    ensures forall e :: e in encodings ==> Decode(e).Ok?
  {
    hide Decode, Encode;
    forall e | e in encodings
      ensures Decode(e).Ok?
    {
      assert IsHonest(K, e);
    }
  }

  /** The calls for a trie of accounts can all be read. */
  lemma CallsOfAccounts(trie: Node)
    requires AccountLeaves(trie)
    ensures forall i :: 0 <= i < |Calls(LeavesOf(trie, []))| ==> IsAccount(Calls(LeavesOf(trie, []))[i])
  {
    hide DecodeAccount, LeavesOf, PackPairs;
    var visits := LeavesOf(trie, []);
    forall i | 0 <= i < |visits|
      ensures |Packed(visits[i].0)| == 32 && DecodeAccount(visits[i].1).Some?
    {
      assert visits[i] in visits;
    }
  }

  lemma HonestNode(K: Keccak, encodings: seq<Bytes>, h: Hash, n: Node)
    requires Honest(K, encodings) && Indexed(K, encodings, h, n)
    ensures !n.Digest? && HashOf(K, n) == h
  {
    hide Decode, Encode, HashOf;
    var e :| e in encodings && K(e) == h && Decode(e) == Ok(n);
    assert IsHonest(K, e);
    HashIsDigestOfEncoding(K, n);
  }

  lemma HonestIndex(K: Keccak, encodings: seq<Bytes>, anchor: Hash, index: Index)
    requires index.Index? && IndexOf(K, encodings, anchor, index)
    ensures Honest(K, encodings) ==> forall h :: h in index.byHash ==>
      !index.byHash[h].Digest? && HashOf(K, index.byHash[h]) == h
  {
    hide HashOf, Indexed, Honest;
    if Honest(K, encodings) {
      forall h | h in index.byHash
        ensures !index.byHash[h].Digest? && HashOf(K, index.byHash[h]) == h
      {
        HonestNode(K, encodings, h, index.byHash[h]);
      }
    }
  }

  lemma HonestRoot(K: Keccak, encodings: seq<Bytes>, anchor: Hash, index: Index)
    requires index.Index? && IndexOf(K, encodings, anchor, index) && Honest(K, encodings)
    requires Resolve(RootOf(index, anchor), index.byReference).Some?
    ensures HashOf(K, Resolve(RootOf(index, anchor), index.byReference).value) == anchor
  {
    hide HashOf, Indexed, Honest, Resolve;
    ResolveKeepsHash(K, RootOf(index, anchor), index.byReference);
    if index.root.Some? {
      HonestNode(K, encodings, anchor, index.root.value);
    } else {
      HashOfDigest(K, anchor);
    }
  }

  /** On an honest witness the last check cannot fail. */
  lemma HonestStorages(K: Keccak, encodings: seq<Bytes>, anchor: Hash, index: Index,
                       trie: Node, calls: seq<(Bytes, Bytes)>, accounts: seq<(Hash, Hash)>, storages: Tries)
    requires index.Index? && IndexOf(K, encodings, anchor, index)
    requires calls == Calls(LeavesOf(trie, [])) && AreAccounts(calls, accounts)
    requires forall a :: a in storages ==> StorageOf(a, storages[a], accounts, index)
    ensures Honest(K, encodings) && AccountLeaves(trie) ==> RootsMatch(K, trie, storages)
  {
    hide HashOf, Resolve, IndexOf, Honest, LeavesOf, AreAccounts, RootMatches, AccountLeaves, Keyed;
    if Honest(K, encodings) && AccountLeaves(trie) {
      HonestIndex(K, encodings, anchor, index);
      KeyedIndex(K, encodings, anchor, index);
      forall a | a in storages
        ensures RootMatches(K, trie, storages, a)
      {
        var i :| 0 <= i < |accounts| && accounts[i].0 == a && accounts[i].1 in index.byHash
              && Resolve(index.byHash[accounts[i].1], index.byReference) == Some(storages[a]);
        ResolveKeepsHash(K, index.byHash[accounts[i].1], index.byReference);
        AccountMatches(K, trie, accounts, storages, i);
      }
    }
  }

  lemma AccountMatches(K: Keccak, trie: Node, accounts: seq<(Hash, Hash)>, storages: Tries, i: nat)
    requires AccountLeaves(trie) && AreAccounts(Calls(LeavesOf(trie, [])), accounts)
    requires i < |accounts| && accounts[i].0 in storages && HashOf(K, storages[accounts[i].0]) == accounts[i].1
    ensures RootMatches(K, trie, storages, accounts[i].0)
  {
    hide HashOf, LeavesOf, DecodeAccount, Get, GetAccount;
    AccountAt(trie, i);
  }

  lemma KeyedIndex(K: Keccak, encodings: seq<Bytes>, anchor: Hash, index: Index)
    requires index.Index? && IndexOf(K, encodings, anchor, index)
    ensures Keyed(K, index.byReference)
  {
  }

  /** A visited account is found by its address. */
  lemma AccountAt(trie: Node, i: nat)
    requires AccountLeaves(trie) && i < |LeavesOf(trie, [])|
    ensures var (key, value) := Calls(LeavesOf(trie, []))[i];
      |key| == 32 && GetAccount(trie, key) == Answer(DecodeAccount(value))
  {
    hide LeavesOf, DecodeAccount, Get, PackPairs;
    var v := LeavesOf(trie, [])[i];
    assert v in LeavesOf(trie, []);
    VisitedIsPresent(trie, [], v);
    assert v.0[0..] == v.0;
    assert ToNibs(Packed(v.0)) == v.0;
  }

  /** What the host built passes the guest's checks of the state. */
  lemma HostOutputPasses(K: Keccak, anchor: Hash, trie: Node, storages: Tries)
    requires HashOf(K, trie) == anchor && RootsMatch(K, trie, storages)
    ensures forall a :: a in storages ==> StorageAccepted(K, trie, storages, a)
  {
    hide HashOf, GetAccount;
    forall a | a in storages
      ensures StorageAccepted(K, trie, storages, a)
    {
      assert RootMatches(K, trie, storages, a);
    }
  }

  /** Builds the tries on the host and opens them in the guest, with the anchor of the host. */
  method BuildAndOpen(K: Keccak, encodings: seq<Bytes>, anchor: Hash) returns (built: Built, verdict: Opened)
    ensures built.Built? ==> verdict == StateOk
  {
    hide *;
    built := BuildValidatedTries(K, encodings, anchor);
    verdict := StateOk;
    if built.Built? {
      HostOutputPasses(K, anchor, built.trie, built.storages);
      verdict := CheckState(K, anchor, built.trie, built.storages);
    }
  }
}
