/** A deletion on the trie that was put together from the proofs before and after a block. */
module SparseTransition {
  import opened Basics
  import opened HexPrefix
  import opened Trie
  import opened NormalForm
  import opened DeleteCorrect
  import opened Encoding
  import opened Sparse
  import opened SparseDelete
  import opened Resolution
  import opened Orphans
  import opened Authentication

  lemma {:induction false} PrunesWellFormed(K: Keccak, s: Node, f: Node)
    requires Prunes(K, s, f) && WellFormed(f)
    ensures WellFormed(s)
  {
    hide ReferenceOf, PrefixNibs, Canonical;
    match s
    case Branch(children) =>
      var x, y :| x in f.children && y in f.children && x != y;
      assert x in children.Keys && y in children.Keys;
      forall i | i in children
        ensures Proper(children[i])
      {
        PrunesWellFormed(K, children[i], f.children[i]);
        assert Proper(f.children[i]);
      }
    case Extension(_, child) => PrunesWellFormed(K, child, f.child);
    case _ =>
  }

  /** No digest that is left in the trie is known to the store. */
  ghost predicate NothingKnown(store: Store, n: Node) {
    match n
    case Branch(children) => forall i :: i in children ==> NothingKnown(store, children[i])
    case Extension(_, child) => NothingKnown(store, child)
    case Digest(hash) => ByDigest(hash) !in store
    case _ => true
  }

  lemma {:induction false} ResolveLeavesNothing(root: Node, store: Store, depth: nat)
    requires ResolveWithin(root, store, depth).Some?
    ensures NothingKnown(store, ResolveWithin(root, store, depth).value)
    decreases depth, root
  {
    match root
    case Branch(children) =>
      forall i | i in children
        ensures NothingKnown(store, ResolveWithin(children[i], store, depth).value)
      {
        ResolveLeavesNothing(children[i], store, depth);
      }
    case Extension(_, child) => ResolveLeavesNothing(child, store, depth);
    case Digest(hash) =>
      if ByDigest(hash) in store {
        ResolveLeavesNothing(store[ByDigest(hash)], store, depth - 1);
      }
    case _ =>
  }

  /** A lookup that fails meets a digest that the store does not know. */
  lemma {:induction false} UnresolvedIsUnknown(store: Store, n: Node, key: Nibbles, hash: Hash)
    requires NothingKnown(store, n) && Get(n, key) == Unresolved(NodeNotResolved(hash))
    ensures ByDigest(hash) !in store
  {
    hide PrefixNibs;
    match n
    case Branch(children) => UnresolvedIsUnknown(store, children[key[0]], key[1..], hash);
    case Extension(path, child) => UnresolvedIsUnknown(store, child, key[|PrefixNibs(path)|..], hash);
    case _ =>
  }

  /** A key that a trie holds can be deleted from it. */
  lemma {:induction false} PresentDeletes(n: Node, key: Nibbles)
    requires WellFormed(n) && Present(n, key)
    ensures Delete(n, key).Done? && Delete(n, key).changed
  {
    hide PrefixNibs, ToEncodedPath, Canonical, Merge, Shrink;
    DeleteKeepsForm(n, key);
    match n
    case Branch(children) => PresentDeletes(children[key[0]], key[1..]);
    case Extension(path, child) => PresentDeletes(child, key[|PrefixNibs(path)|..]);
    case _ =>
  }

  /** A lost orphan is one that the store does not know. */
  lemma {:induction false} LostIsUnknown(K: Keccak, s: Node, f: Node, key: Nibbles, store: Store)
    requires WellFormed(s) && Prunes(K, s, f) && LosesOrphan(s, f, key) && NothingKnown(store, s)
    ensures OrphanOf(f, key).Some? && (OrphanOf(f, key).value.Leaf? || OrphanOf(f, key).value.Extension?)
    ensures ReferenceOf(K, OrphanOf(f, key).value).ByDigest? && ReferenceOf(K, OrphanOf(f, key).value) !in store
    decreases s
  {
    hide ReferenceOf, PrefixNibs, Canonical, Merge, Shrink;
    if s.Extension? {
      LostIsUnknown(K, s.child, f.child, key[|PrefixNibs(s.path)|..], store);
    } else {
      var i, tail := key[0], key[1..];
      var r := Delete(s.children[i], tail);
      if r.Done? && r.changed && r.node.Null? {
        EmptiedIsLeaf(s.children[i], tail);
        var j: nibble :| Only(s.children - {i}, j) && s.children[j].Digest? && j in f.children
                      && (f.children[j].Leaf? || f.children[j].Extension?);
        assert j in (s.children - {i}).Keys;
        assert (f.children - {i}).Keys == (s.children - {i}).Keys;
        assert Only(f.children - {i}, j);
      } else {
        LostIsUnknown(K, s.children[i], f.children[i], tail, store);
        LostMeansNotEmptied(K, s.children[i], f.children[i], tail);
      }
    }
  }

  /** Where an orphan is lost, the full trie is not emptied either. */
  lemma {:induction false} LostMeansNotEmptied(K: Keccak, s: Node, f: Node, key: Nibbles)
    requires WellFormed(s) && Prunes(K, s, f) && LosesOrphan(s, f, key)
    ensures Delete(f, key).Done? ==> !Delete(f, key).node.Null?
  {
    hide ReferenceOf, PrefixNibs, ToEncodedPath, Canonical, Merge;
    if s.Extension? {
      LostMeansNotEmptied(K, s.child, f.child, key[|PrefixNibs(s.path)|..]);
      if Delete(f, key).Done? {
        var r := Delete(f.child, key[|PrefixNibs(s.path)|..]);
        MergeNotNull(f.path, r.node);
      }
    }
  }

  /** The store knows the nodes on the way to `key` and, unless it is held in line, the orphan that
      the deletion of `key` leaves behind. */
  ghost predicate ReadyToDelete(K: Keccak, store: Store, f: Node, key: Nibbles) {
    Keyed(K, store) && Covers(K, store, f, key) && OrphanKnown(K, store, f, key)
  }

  /** The store knows the orphan of a deletion, unless it is held in line or is a branch. */
  ghost predicate OrphanKnown(K: Keccak, store: Store, f: Node, key: Nibbles) {
    OrphanOf(f, key).Some? ==>
      var orphan := OrphanOf(f, key).value;
      (orphan.Leaf? || orphan.Extension?) && ReferenceOf(K, orphan).ByDigest? ==> ReferenceOf(K, orphan) in store
  }

  /** Deleting from a trie that was resolved from such a store and stands for the full trie. */
  lemma DeleteResolved(K: Keccak, root: Node, f: Node, key: Nibbles, store: Store)
    requires Normal(f) && Present(f, key) && Prunes(K, root, f) && ReadyToDelete(K, store, f, key)
    requires Resolve(root, store).Some? && Prunes(K, Resolve(root, store).value, f)
    ensures var s := Resolve(root, store).value;
      && Delete(s, key).Done? && Delete(s, key).changed
      && Delete(f, key).Done? && Delete(f, key).changed
      && HashOf(K, Delete(s, key).node) == HashOf(K, Delete(f, key).node)
  {
    hide ReferenceOf, HashOf, PrefixNibs, Canonical, Delete, Get, ResolveWithin, Covers;
    var s := Resolve(root, store).value;
    ResolveAnswers(K, root, f, key, store);
    ResolveLeavesNothing(root, store, |store|);
    PrunesWellFormed(K, s, f);
    PresentDeletes(s, key);
    if LosesOrphan(s, f, key) {
      LostIsUnknown(K, s, f, key, store);
      assert false;
    }
    DeleteSimulates(K, s, f, key);
    PrunesHash(K, Delete(s, key).node, Delete(f, key).node);
  }

  lemma DigestAnswersNothing(n: Node, key: Nibbles)
    requires Get(n, key).Found?
    ensures !n.Digest?
  {
  }

  /** Resolving the root node of a full trie from such a store gives a sparse trie on which, unless
      two nodes collide, deleting the key succeeds and ends in the root hash that it has on the full
      trie. */
  lemma DeleteAfterResolve(K: Keccak, root: Node, f: Node, key: Nibbles, store: Store)
    requires Normal(f) && Present(f, key) && Prunes(K, root, f) && ReadyToDelete(K, store, f, key)
    requires Resolve(root, store).Some? && Comparable(K, Resolve(root, store).value, f)
    ensures var s := Resolve(root, store).value;
      && Delete(s, key).Done? && Delete(s, key).changed
      && Delete(f, key).Done? && Delete(f, key).changed
      && HashOf(K, Delete(s, key).node) == HashOf(K, Delete(f, key).node)
  {
    hide ReferenceOf, HashOf, Delete, Get, ResolveWithin, Covers, Comparable;
    var s := Resolve(root, store).value;
    ResolveAnswers(K, root, f, key, store);
    ResolveKeepsHash(K, root, store);
    PrunesHash(K, root, f);
    DigestAnswersNothing(s, key);
    SameHashPrunes(K, s, f);
    DeleteResolved(K, root, f, key, store);
  }
}
