/** Building the state of a block from the proofs before and after it. */
module Transition {
  import opened Basics
  import opened Trie
  import opened Encoding
  import opened Resolution
  import opened Termination
  import opened Proofs
  import opened OrphanRecovery

  const ZERO: Hash := [
    0, 0, 0, 0, 0, 0, 0, 0, 0, 0, 0, 0, 0, 0, 0, 0,
    0, 0, 0, 0, 0, 0, 0, 0, 0, 0, 0, 0, 0, 0, 0, 0
  ]

  /** A root that is only known by its digest. */
  function NodeFromDigest(h: Hash): Node {
    if h == EMPTY_ROOT || h == ZERO then Null else Digest(h)
  }

  /** The trie that is made of a bare digest has that digest as its hash; nothing but zeros means that there
      is no account, and so no storage. */
  lemma NamedRoot(K: Keccak, h: Hash)
    ensures HashOf(K, NodeFromDigest(h)) == (if forall i :: 0 <= i < 32 ==> h[i] == 0 then EMPTY_ROOT else h)
    ensures h != ZERO ==> HashOf(K, NodeFromDigest(h)) == h
    ensures NodeFromDigest(h) == Null || NodeFromDigest(h) == Digest(h)
  {
    if forall i :: 0 <= i < 32 ==> h[i] == 0 {
      assert h == ZERO;
    }
  }

  datatype StorageProof = StorageProof(key: Hash, proof: seq<Bytes>)

  datatype AccountProof = AccountProof(proof: seq<Bytes>, storageRoot: Hash, storageProofs: seq<StorageProof>)

  type Address = Bytes
  type AccountProofs = map<Address, AccountProof>
  type Tries = map<Hash, Node>

  datatype Transitioned =
    | State(trie: Node, storages: Tries)
    | MismatchedStorageRoot(address: Address, found: Hash, expected: Hash)
    | MismatchedStateRoot(found: Hash, expected: Hash)
    | DecodingError
    | Panic
    | Endless

  /** A proof that was parsed, checked and filed. */
  datatype Filed = Filed(root: Option<Node>, store: Store) | FilePanic

  function AfterFiling(K: Keccak, proof: seq<Bytes>, store: Store): Filed {
    match ParseProof(proof)
    case Nodes(nodes) =>
      if JoinAll(K, nodes).Rejected? then FilePanic
      else Filed(if nodes == [] then None else Some(nodes[0]), FileAll(K, store, nodes))
    case _ => FilePanic
  }

  method FileProof(K: Keccak, proof: seq<Bytes>, store: Store) returns (r: Filed)
    ensures r == AfterFiling(K, proof, store)
  {
    hide FileAll, JoinAll, ParseProof;
    var parsed := ParseProof(proof);
    if !parsed.Nodes? {
      return FilePanic;
    }
    var joined := MptFromProof(K, parsed.nodes);
    if joined.Rejected? {
      return FilePanic;
    }
    var root := if parsed.nodes == [] then None else Some(parsed.nodes[0]);
    var filed := FileEach(K, store, parsed.nodes);
    r := Filed(root, filed);
  }

  /** Everything that is filed stays under its own reference. */
  lemma {:induction false} FileAllKeyed(K: Keccak, store: Store, nodes: seq<Node>)
    requires Keyed(K, store)
    ensures Keyed(K, FileAll(K, store, nodes))
    decreases |nodes|
  {
    hide ReferenceOf, Keyed;
    if nodes != [] {
      FileKeepsKeyed(K, store, nodes[0]);
      FileAllKeyed(K, File(K, store, nodes[0]), nodes[1..]);
    }
  }

  lemma FilingKeyed(K: Keccak, proof: seq<Bytes>, store: Store)
    requires Keyed(K, store)
    ensures var r := AfterFiling(K, proof, store); r.Filed? ==> Keyed(K, r.store)
  {
    hide Keyed, FileAll, JoinAll;
    if ParseProof(proof).Nodes? {
      FileAllKeyed(K, store, ParseProof(proof).nodes);
    }
  }

  lemma OrphansKeyed(K: Keccak, key: Bytes, proof: seq<Bytes>, store: Store)
    requires Keyed(K, store)
    ensures var r := AfterOrphans(K, key, proof, store); r.Added? ==> Keyed(K, r.store)
  {
    hide Keyed, FileAll, IsNotIncluded, AllShortened;
    if ParseProof(proof).Nodes? {
      var nodes := ParseProof(proof).nodes;
      if nodes != [] {
        FileAllKeyed(K, store, AllShortened(nodes[|nodes| - 1]));
      }
    }
  }

  // The storage trie of one account.

  /** All proofs of slots are filed; the trie starts from the first node of the last one. */
  function AfterSlots(K: Keccak, proofs: seq<StorageProof>, root: Node, store: Store): Filed
    decreases |proofs|
  {
    if proofs == [] then Filed(Some(root), store) else
    match AfterFiling(K, proofs[0].proof, store)
    case FilePanic => FilePanic
    case Filed(first, store') => AfterSlots(K, proofs[1..], if first.Some? then first.value else root, store')
  }

  /** The shortened nodes of all exclusion proofs are filed. */
  function AfterSlotOrphans(K: Keccak, proofs: seq<StorageProof>, store: Store): Added
    decreases |proofs|
  {
    if proofs == [] then Added(store) else
    match AfterOrphans(K, proofs[0].key, proofs[0].proof, store)
    case Added(store') => AfterSlotOrphans(K, proofs[1..], store')
    case failed => failed
  }

  datatype StorageResult = Storage(trie: Node) | WrongRoot(found: Hash) | StorageDecoding | StoragePanic | StorageEndless

  /** The trie that grows from a root when all that is stored is filled in, if that ends and gives the
      expected hash. */
  function Checked(K: Keccak, root: Node, store: Store, expected: Hash): StorageResult {
    match Resolve(root, store)
    case None => StorageEndless
    case Some(trie) => if HashOf(K, trie) == expected then Storage(trie) else WrongRoot(HashOf(K, trie))
  }

  function StorageOutcome(K: Keccak, before: AccountProof, after: AccountProof): StorageResult {
    if before.storageProofs == [] then Storage(NodeFromDigest(before.storageRoot)) else
    match AfterSlots(K, before.storageProofs, Null, map[])
    case FilePanic => StoragePanic
    case Filed(root, store) =>
      match AfterSlotOrphans(K, after.storageProofs, store)
      case NotDecoded => StorageDecoding
      case AddPanic => StoragePanic
      case Added(store') => if root.Some? then Checked(K, root.value, store', before.storageRoot) else StoragePanic
  }

  /** The storage trie of one account. */
  method StorageTrie(K: Keccak, before: AccountProof, after: AccountProof) returns (r: StorageResult)
    ensures r == StorageOutcome(K, before, after)
  {
    hide AfterFiling, AfterOrphans, HashOf, Keyed;
    if before.storageProofs == [] {
      return Storage(NodeFromDigest(before.storageRoot));
    }
    var store: Store := map[];
    var root := Null;
    var proofs := before.storageProofs;
    for i := 0 to |proofs|
      invariant AfterSlots(K, proofs[i..], root, store) == AfterSlots(K, proofs, Null, map[])
    {
      assert proofs[i..][1..] == proofs[i + 1..];
      var filed := FileProof(K, proofs[i].proof, store);
      if filed.FilePanic? {
        return StoragePanic;
      }
      if filed.root.Some? {
        root := filed.root.value;
      }
      store := filed.store;
    }
    ghost var filed := store;
    for i := 0 to |after.storageProofs|
      invariant AfterSlotOrphans(K, after.storageProofs[i..], store) == AfterSlotOrphans(K, after.storageProofs, filed)
    {
      assert after.storageProofs[i..][1..] == after.storageProofs[i + 1..];
      var added := AddOrphanedLeafs(K, after.storageProofs[i].key, after.storageProofs[i].proof, store);
      if added.NotDecoded? {
        return StorageDecoding;
      }
      if added.AddPanic? {
        return StoragePanic;
      }
      store := added.store;
    }
    var trie := Resolve(root, store);
    if trie.None? {
      return StorageEndless;
    }
    var found := HashOf(K, trie.value);
    r := if found != before.storageRoot then WrongRoot(found) else Storage(trie.value);
  }

  // The state.

  /** What is there after some of the accounts. */
  datatype Building = Building(root: Node, store: Store, storages: Tries) | Stopped(error: Transitioned)

  /** One account: its proof, the orphans of its exclusion proof, and its storage trie. */
  function AfterAccount(K: Keccak, before: AccountProofs, after: AccountProofs, a: Address, b: Building): Building
    requires a in before
  {
    if b.Stopped? then b else
    match AfterFiling(K, before[a].proof, b.store)
    case FilePanic => Stopped(Panic)
    case Filed(root, store) =>
      if a !in after then Stopped(Panic) else
      match AfterOrphans(K, a, after[a].proof, store)
      case NotDecoded => Stopped(DecodingError)
      case AddPanic => Stopped(Panic)
      case Added(store') =>
        match StorageOutcome(K, before[a], after[a])
        case StoragePanic => Stopped(Panic)
        case StorageEndless => Stopped(Endless)
        case StorageDecoding => Stopped(DecodingError)
        case WrongRoot(found) => Stopped(MismatchedStorageRoot(a, found, before[a].storageRoot))
        case Storage(trie) =>
          Building(if root.Some? then root.value else b.root, store', b.storages[K(a) := trie])
  }

  /** All accounts in a given order. */
  function AfterAccounts(K: Keccak, before: AccountProofs, after: AccountProofs, order: seq<Address>): Building
    requires forall a :: a in order ==> a in before
    decreases |order|
  {
    if order == [] then Building(Null, map[], map[]) else
    var last := |order| - 1;
    AfterAccount(K, before, after, order[last], AfterAccounts(K, before, after, order[..last]))
  }

  lemma AccountKeyed(K: Keccak, before: AccountProofs, after: AccountProofs, a: Address, b: Building)
    requires a in before && (b.Building? ==> Keyed(K, b.store))
    ensures var r := AfterAccount(K, before, after, a, b); r.Building? ==> Keyed(K, r.store)
  {
    hide AfterFiling, AfterOrphans, StorageOutcome, Keyed;
    if b.Building? && AfterFiling(K, before[a].proof, b.store).Filed? {
      FilingKeyed(K, before[a].proof, b.store);
      if a in after {
        OrphansKeyed(K, a, after[a].proof, AfterFiling(K, before[a].proof, b.store).store);
      }
    }
  }

  /** Whatever the proofs: all nodes are filed under their own references, so that resolving the root, if
      it ends, keeps its hash. */
  lemma {:induction false} AccountsKeyed(K: Keccak, before: AccountProofs, after: AccountProofs, order: seq<Address>)
    requires forall a :: a in order ==> a in before
    ensures var b := AfterAccounts(K, before, after, order);
      b.Building? ==>
        && Keyed(K, b.store)
        && (Resolve(b.root, b.store).Some? ==> HashOf(K, Resolve(b.root, b.store).value) == HashOf(K, b.root))
    decreases |order|
  {
    hide AfterAccount, Keyed, HashOf, Resolve;
    if order != [] {
      var last := |order| - 1;
      AccountsKeyed(K, before, after, order[..last]);
      AccountKeyed(K, before, after, order[last], AfterAccounts(K, before, after, order[..last]));
    } else {
      NothingKeyed(K);
    }
    var b := AfterAccounts(K, before, after, order);
    if b.Building? && Resolve(b.root, b.store).Some? {
      ResolveKeepsHash(K, b.root, b.store);
    }
  }

  lemma NothingKeyed(K: Keccak)
    ensures Keyed(K, map[])
  {
  }

  function TransitionOutcome(K: Keccak, stateRoot: Hash, before: AccountProofs, after: AccountProofs, order: seq<Address>): Transitioned
    requires forall a :: a in order ==> a in before
  {
    match AfterAccounts(K, before, after, order)
    case Stopped(error) => error
    case Building(root, store, storages) =>
      match Resolve(root, store)
      case None => Endless
      case Some(trie) =>
        if HashOf(K, trie) == stateRoot then State(trie, storages) else MismatchedStateRoot(HashOf(K, trie), stateRoot)
  }

  /** Every address once. */
  ghost predicate IsOrder(order: seq<Address>, addresses: set<Address>) {
    (forall a :: a in order <==> a in addresses) && |order| == |addresses|
  }

  /** Builds the state trie and the storage tries from the proofs before and after a block, taking the
      accounts in some order, as a hash map gives them. */
  method TransitionProofsToTries(K: Keccak, stateRoot: Hash, before: AccountProofs, after: AccountProofs)
    returns (r: Transitioned, ghost order: seq<Address>)
    ensures before == map[] ==> r == State(NodeFromDigest(stateRoot), map[])
    ensures forall a :: a in order ==> a in before
    ensures before != map[] ==> r == TransitionOutcome(K, stateRoot, before, after, order)
    ensures before != map[] && !AfterAccounts(K, before, after, order).Stopped? ==> IsOrder(order, before.Keys)
  {
    hide AfterAccount, HashOf, ResolveWithin, NodeFromDigest, IsOrder;
    order := [];
    if before == map[] {
      return State(NodeFromDigest(stateRoot), map[]), [];
    }
    var built := Building(Null, map[], map[]);
    NoOrder();
    assert before.Keys - before.Keys == {};
    var remaining := before.Keys;
    while remaining != {}
      invariant remaining <= before.Keys && IsOrder(order, before.Keys - remaining)
      invariant forall a :: a in order ==> a in before
      invariant built.Building? && AfterAccounts(K, before, after, order) == built
      decreases |remaining|
    {
      var address :| address in remaining;
      OneMore(before.Keys, remaining, order, address);
      assert (order + [address])[..|order|] == order;
      order := order + [address];
      remaining := remaining - {address};
      built := AddAccount(K, before, after, address, built);
      if built.Stopped? {
        return built.error, order;
      }
    }
    assert before.Keys - remaining == before.Keys;
    var trie := Resolve(built.root, built.store);
    if trie.None? {
      return Endless, order;
    }
    var found := HashOf(K, trie.value);
    r := if found != stateRoot then MismatchedStateRoot(found, stateRoot) else State(trie.value, built.storages);
  }

  lemma NoOrder()
    ensures IsOrder([], {})
  {
  }

  lemma OneMore(all: set<Address>, remaining: set<Address>, order: seq<Address>, a: Address)
    requires remaining <= all && IsOrder(order, all - remaining) && a in remaining
    ensures IsOrder(order + [a], all - (remaining - {a}))
  {
    assert all - (remaining - {a}) == all - remaining + {a};
  }

  method AddAccount(K: Keccak, before: AccountProofs, after: AccountProofs, address: Address, built: Building) returns (r: Building)
    requires address in before && built.Building?
    ensures r == AfterAccount(K, before, after, address, built)
  {
    hide AfterFiling, AfterOrphans, StorageOutcome;
    var filed := FileProof(K, before[address].proof, built.store);
    if filed.FilePanic? || address !in after {
      return Stopped(Panic);
    }
    var added := AddOrphanedLeafs(K, address, after[address].proof, filed.store);
    if added.NotDecoded? {
      return Stopped(DecodingError);
    }
    if added.AddPanic? {
      return Stopped(Panic);
    }
    var storage := StorageTrie(K, before[address], after[address]);
    r := match storage
      case StoragePanic => Stopped(Panic)
      case StorageEndless => Stopped(Endless)
      case StorageDecoding => Stopped(DecodingError)
      case WrongRoot(found) => Stopped(MismatchedStorageRoot(address, found, before[address].storageRoot))
      case Storage(trie) =>
        Building(if filed.root.Some? then filed.root.value else built.root, added.store,
                 built.storages[K(address) := trie]);
  }

  // What a state that comes out is like.

  /** The storage tries have the roots that the proofs before the block name. */
  ghost predicate StoragesMatch(K: Keccak, proofs: AccountProofs, addresses: set<Address>, storages: Tries)
    requires addresses <= proofs.Keys
  {
    && (forall a :: a in addresses ==> K(a) in storages)
    && (forall h :: h in storages ==> exists a :: a in addresses && K(a) == h && StorageMatches(K, proofs[a], storages[h]))
  }

  /** The storage trie is the one that the proofs build, with the storage root as its hash. */
  ghost predicate StorageMatches(K: Keccak, p: AccountProof, n: Node) {
    if p.storageProofs == [] then n == NodeFromDigest(p.storageRoot) else HashOf(K, n) == p.storageRoot
  }

  /** A failure: an error names a storage root that was expected and not found. */
  ghost predicate IsStorageError(before: AccountProofs, error: Transitioned) {
    || error.DecodingError? || error.Panic? || error.Endless?
    || (error.MismatchedStorageRoot? && error.address in before
        && error.expected == before[error.address].storageRoot && error.found != error.expected)
  }

  lemma StorageOutcomeMatches(K: Keccak, before: AccountProof, after: AccountProof)
    ensures var r := StorageOutcome(K, before, after);
      && (r.Storage? ==> StorageMatches(K, before, r.trie))
      && (r.WrongRoot? ==> r.found != before.storageRoot)
  {
    hide AfterSlots, AfterSlotOrphans, HashOf, ResolveWithin;
  }

  function Addresses(order: seq<Address>): set<Address> {
    set a | a in order
  }

  lemma {:induction false} AccountsMatch(K: Keccak, before: AccountProofs, after: AccountProofs, order: seq<Address>)
    requires forall a :: a in order ==> a in before
    ensures var b := AfterAccounts(K, before, after, order);
      && (b.Building? ==> StoragesMatch(K, before, Addresses(order), b.storages))
      && (b.Stopped? ==> IsStorageError(before, b.error))
    decreases |order|
  {
    if order != [] {
      hide AfterAccount, StoragesMatch;
      var last := |order| - 1;
      AccountsMatch(K, before, after, order[..last]);
      assert order == order[..last] + [order[last]];
      var earlier := AfterAccounts(K, before, after, order[..last]);
      if earlier.Building? {
        AccountMatches(K, before, after, order[last], earlier, Addresses(order[..last]));
        assert Addresses(order) == Addresses(order[..last]) + {order[last]};
      } else {
        StoppedStays(K, before, after, order[last], earlier);
      }
    }
  }

  lemma StoppedStays(K: Keccak, before: AccountProofs, after: AccountProofs, a: Address, b: Building)
    requires a in before && b.Stopped?
    ensures AfterAccount(K, before, after, a, b) == b
  {
  }

  /** One account more: its storage trie has the root that its proof names, or the error says which
      root was found instead. */
  lemma AccountMatches(K: Keccak, before: AccountProofs, after: AccountProofs, a: Address, b: Building, some: set<Address>)
    requires a in before && some <= before.Keys && b.Building? && StoragesMatch(K, before, some, b.storages)
    ensures var r := AfterAccount(K, before, after, a, b);
      && (r.Building? ==> StoragesMatch(K, before, some + {a}, r.storages))
      && (r.Stopped? ==> IsStorageError(before, r.error))
  {
    hide AfterFiling, AfterOrphans, StorageOutcome, StorageMatches, StoragesMatch;
    if a in after {
      StorageOutcomeMatches(K, before[a], after[a]);
      var r := AfterAccount(K, before, after, a, b);
      if r.Building? {
        StoragesMore(K, before, some, some + {a}, b.storages, a, r.storages[K(a)]);
      }
    }
  }

  lemma StoragesMore(K: Keccak, proofs: AccountProofs, some: set<Address>, addresses: set<Address>, storages: Tries, a: Address, n: Node)
    requires addresses <= proofs.Keys && addresses == some + {a}
    requires StoragesMatch(K, proofs, some, storages) && StorageMatches(K, proofs[a], n)
    ensures StoragesMatch(K, proofs, addresses, storages[K(a) := n])
  {
    hide StorageMatches;
    var updated := storages[K(a) := n];
    forall h | h in updated
      ensures exists b :: b in addresses && K(b) == h && StorageMatches(K, proofs[b], updated[h])
    {
      if h != K(a) {
        var b :| b in some && K(b) == h && StorageMatches(K, proofs[b], storages[h]);
        assert b in addresses;
      }
    }
  }

  /** Whatever the order and whatever the proofs: a state that comes out has the given root, its
      storage tries have the storage roots of the proofs before the block, and an error names a root
      that was expected and not found. */
  lemma TransitionMatches(K: Keccak, stateRoot: Hash, before: AccountProofs, after: AccountProofs, order: seq<Address>)
    requires IsOrder(order, before.Keys)
    ensures var r := TransitionOutcome(K, stateRoot, before, after, order);
      && (r.State? ==> HashOf(K, r.trie) == stateRoot && StoragesMatch(K, before, before.Keys, r.storages))
      && (r.MismatchedStateRoot? ==> r.expected == stateRoot && r.found != stateRoot)
      && (r.MismatchedStorageRoot? ==> IsStorageError(before, r))
  {
    hide AfterAccounts, StorageMatches, StoragesMatch, HashOf, ResolveWithin;
    AccountsMatch(K, before, after, order);
    assert Addresses(order) == before.Keys;
  }

  /** Building fails to end just when some way through the nodes that were filed comes back to the same
      digest: from the root of an account's storage, or at last from the root of the state. */
  lemma EndlessExactly(K: Keccak, stateRoot: Hash, before: AccountProofs, after: AccountProofs, order: seq<Address>)
    requires forall a :: a in order ==> a in before
    ensures var b := AfterAccounts(K, before, after, order);
      b.Building? ==>
        (TransitionOutcome(K, stateRoot, before, after, order) == Endless <==>
         exists way :: IsWay(b.store, b.root, way) && Repeats(way))
  {
    hide AfterAccounts, HashOf, Resolve, Ends;
    var b := AfterAccounts(K, before, after, order);
    if b.Building? {
      ResolveIsUnbounded(b.root, b.store);
      EndsExactly(b.root, b.store);
    }
  }
}
