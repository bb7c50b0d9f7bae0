/** Filling in the digests of a trie from a store of nodes. */
module Resolution {
  import opened Basics
  import opened HexPrefix
  import opened Trie
  import opened Encoding
  import opened Sparse

  type Store = map<Reference, Node>

  /** The program files every node under its own reference. */
  ghost predicate Keyed(K: Keccak, store: Store) {
    forall r :: r in store ==> ReferenceOf(K, store[r]) == r
  }

  /** Fills in digests, through at most `depth` nodes of the store inside one another; `None` when that
      is not enough. */
  function ResolveWithin(root: Node, store: Store, depth: nat): Option<Node>
    decreases depth, root
  {
    match root
    case Branch(children) =>
      if forall i :: i in children ==> ResolveWithin(children[i], store, depth).Some? then
        Some(Branch(map i | i in children :: ResolveWithin(children[i], store, depth).value))
      else None
    case Extension(path, child) =>
      (match ResolveWithin(child, store, depth)
       case Some(node) => Some(Extension(path, node))
       case None => None)
    case Digest(hash) =>
      if ByDigest(hash) !in store then Some(root)
      else if depth == 0 then None
      else ResolveWithin(store[ByDigest(hash)], store, depth - 1)
    case _ => Some(root)
  }

  /** What comes out of the recursion, which has no bound; `None` when it does not end. A recursion
      that ends never has more nodes inside one another than the store holds. */
  function Resolve(root: Node, store: Store): Option<Node> {
    ResolveWithin(root, store, |store|)
  }

  /** The recursion from the root ends. */
  ghost predicate Ends(root: Node, store: Store) {
    exists depth :: ResolveWithin(root, store, depth).Some?
  }

  lemma {:induction false} DeeperIsSame(root: Node, store: Store, depth: nat, deeper: nat)
    requires ResolveWithin(root, store, depth).Some? && depth <= deeper
    ensures ResolveWithin(root, store, deeper) == ResolveWithin(root, store, depth)
    decreases depth, root
  {
    match root
    case Branch(children) =>
      forall i | i in children
        ensures ResolveWithin(children[i], store, deeper) == ResolveWithin(children[i], store, depth)
      {
        DeeperIsSame(children[i], store, depth, deeper);
      }
      assert ResolveWithin(root, store, deeper).value.children == ResolveWithin(root, store, depth).value.children;
    case Extension(_, child) => DeeperIsSame(child, store, depth, deeper);
    case Digest(hash) =>
      if ByDigest(hash) in store {
        DeeperIsSame(store[ByDigest(hash)], store, depth - 1, deeper - 1);
      }
    case _ =>
  }

  // No more depth is needed than there are nodes in the store.

  /** Digests that are being filled in, for which the depth is not enough. */
  ghost predicate Pending(store: Store, depth: nat, pending: set<Hash>) {
    forall hash :: hash in pending ==> ByDigest(hash) in store && ResolveWithin(Digest(hash), store, depth).None?
  }

  lemma {:induction false} DigestsFit(hashes: set<Hash>, references: set<Reference>)
    requires forall hash :: hash in hashes ==> ByDigest(hash) in references
    ensures |hashes| <= |references|
    decreases |hashes|
  {
    if hash :| hash in hashes {
      DigestsFit(hashes - {hash}, references - {ByDigest(hash)});
    }
  }

  lemma {:induction false} EnoughDepth(root: Node, store: Store, depth: nat, pending: set<Hash>)
    requires ResolveWithin(root, store, depth).Some? && Pending(store, depth, pending)
    ensures |pending| <= |store|
    ensures ResolveWithin(root, store, |store| - |pending|) == ResolveWithin(root, store, depth)
    decreases depth, root
  {
    DigestsFit(pending, store.Keys);
    var enough := |store| - |pending|;
    match root
    case Branch(children) =>
      forall i | i in children
        ensures ResolveWithin(children[i], store, enough) == ResolveWithin(children[i], store, depth)
      {
        EnoughDepth(children[i], store, depth, pending);
      }
      assert ResolveWithin(root, store, enough).value.children == ResolveWithin(root, store, depth).value.children;
    case Extension(_, child) => EnoughDepth(child, store, depth, pending);
    case Digest(hash) =>
      if ByDigest(hash) in store {
        EnoughForDigest(hash, store, depth, pending);
      }
    case _ =>
  }

  lemma {:induction false} EnoughForDigest(hash: Hash, store: Store, depth: nat, pending: set<Hash>)
    requires ByDigest(hash) in store && |pending| <= |store|
    requires ResolveWithin(Digest(hash), store, depth).Some? && Pending(store, depth, pending)
    ensures ResolveWithin(Digest(hash), store, |store| - |pending|) == ResolveWithin(Digest(hash), store, depth)
    decreases depth, Digest(hash), 0
  {
    var root := Digest(hash);
    forall h | h in pending
      ensures ResolveWithin(Digest(h), store, depth - 1).None?
    {
      if ResolveWithin(Digest(h), store, depth - 1).Some? {
        DeeperIsSame(Digest(h), store, depth - 1, depth);
      }
    }
    if ResolveWithin(root, store, depth - 1).Some? {
      EnoughForDigest(hash, store, depth - 1, pending);
      DeeperIsSame(root, store, depth - 1, depth);
    } else {
      EnoughDepth(store[ByDigest(hash)], store, depth - 1, pending + {hash});
    }
  }

  /** Resolving is the recursion without a bound: it gives what any depth gives that is enough, and
      nothing exactly when none is. */
  lemma ResolveIsUnbounded(root: Node, store: Store)
    ensures Resolve(root, store).Some? <==> Ends(root, store)
    ensures forall depth :: ResolveWithin(root, store, depth).Some? ==>
      Resolve(root, store) == ResolveWithin(root, store, depth)
  {
    forall depth | ResolveWithin(root, store, depth).Some?
      ensures Resolve(root, store) == ResolveWithin(root, store, depth)
    {
      EnoughDepth(root, store, depth, {});
    }
  }

  // What resolving keeps.

  /** A resolved trie stands below the trie it came from: only digests were replaced. */
  lemma {:induction false} ResolvePrunes(K: Keccak, root: Node, store: Store, depth: nat)
    requires Keyed(K, store) && ResolveWithin(root, store, depth).Some?
    ensures Prunes(K, root, ResolveWithin(root, store, depth).value)
    decreases depth, root
  {
    hide ReferenceOf;
    match root
    case Branch(children) =>
      forall i | i in children
        ensures Prunes(K, children[i], ResolveWithin(children[i], store, depth).value)
      {
        ResolvePrunes(K, children[i], store, depth);
      }
    case Extension(_, child) => ResolvePrunes(K, child, store, depth);
    case Digest(hash) =>
      if ByDigest(hash) in store {
        var node := store[ByDigest(hash)];
        ResolvePrunes(K, node, store, depth - 1);
        PrunesReference(K, node, ResolveWithin(node, store, depth - 1).value);
      } else {
        PrunesReflexive(K, root);
      }
    case _ => PrunesReflexive(K, root);
  }

  /** Whenever it ends, resolving keeps the reference and the hash of the root, and every answer the
      trie could give, whatever else is in the store. */
  lemma ResolveKeepsHash(K: Keccak, root: Node, store: Store)
    requires Keyed(K, store) && Resolve(root, store).Some?
    ensures var trie := Resolve(root, store).value;
      && Prunes(K, root, trie)
      && ReferenceOf(K, trie) == ReferenceOf(K, root)
      && HashOf(K, trie) == HashOf(K, root)
      && (forall key :: Get(root, key).Found? ==> Get(trie, key) == Get(root, key))
  {
    hide ReferenceOf, HashOf, ResolveWithin;
    var trie := Resolve(root, store).value;
    ResolvePrunes(K, root, store, |store|);
    PrunesReference(K, root, trie);
    PrunesHash(K, root, trie);
    forall key | Get(root, key).Found?
      ensures Get(trie, key) == Get(root, key)
    {
      PrunesGet(K, root, trie, key);
    }
  }

  /** The store knows every node of `f` that is held by digest on the way to `key`. */
  ghost predicate Covers(K: Keccak, store: Store, f: Node, key: Nibbles) {
    && (ReferenceOf(K, f).ByDigest? ==>
          && ReferenceOf(K, f) in store
          && !store[ReferenceOf(K, f)].Digest?
          && Prunes(K, store[ReferenceOf(K, f)], f))
    && match f
       case Branch(children) => key != [] && key[0] in children ==> Covers(K, store, children[key[0]], key[1..])
       case Extension(path, child) =>
         PrefixNibs(path) <= key ==> Covers(K, store, child, key[|PrefixNibs(path)|..])
       case _ => true
  }

  /** A trie resolved from a store that covers a key answers for that key as the full trie does. */
  lemma {:induction false} ResolveAnswersWithin(K: Keccak, root: Node, f: Node, key: Nibbles, store: Store, depth: nat)
    requires Prunes(K, root, f) && Covers(K, store, f, key) && ResolveWithin(root, store, depth).Some?
    ensures Get(ResolveWithin(root, store, depth).value, key) == Get(f, key)
    decreases depth, root
  {
    hide ReferenceOf, PrefixNibs;
    match root
    case Branch(children) =>
      if key != [] && key[0] in children {
        ResolveAnswersWithin(K, children[key[0]], f.children[key[0]], key[1..], store, depth);
      }
    case Extension(path, child) =>
      if PrefixNibs(path) <= key {
        ResolveAnswersWithin(K, child, f.child, key[|PrefixNibs(path)|..], store, depth);
      }
    case Digest(hash) => ResolveAnswersWithin(K, store[ByDigest(hash)], f, key, store, depth - 1);
    case _ =>
  }

  lemma ResolveAnswers(K: Keccak, root: Node, f: Node, key: Nibbles, store: Store)
    requires Prunes(K, root, f) && Covers(K, store, f, key) && Resolve(root, store).Some?
    ensures Get(Resolve(root, store).value, key) == Get(f, key)
  {
    ResolveAnswersWithin(K, root, f, key, store, |store|);
  }

  /** Filing a node under its own reference. */
  function File(K: Keccak, store: Store, n: Node): Store {
    store[ReferenceOf(K, n) := n]
  }

  lemma FileKeepsKeyed(K: Keccak, store: Store, n: Node)
    requires Keyed(K, store)
    ensures Keyed(K, File(K, store, n))
  {
    hide ReferenceOf;
  }
}
