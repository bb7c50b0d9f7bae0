/** Filling in digests comes to an end when all stored nodes come from full tries: they rank by
    height. */
module Ranking {
  import opened Basics
  import opened Trie
  import opened NormalForm
  import opened Encoding
  import opened Decoding
  import opened Sparse
  import opened SparseDelete
  import opened Authentication
  import opened Resolution
  import opened Termination

  /** `m` is `f` or below it. */
  predicate Within(m: Node, f: Node) {
    m == f ||
    match f
    case Branch(children) => exists i :: i in children && Within(m, children[i])
    case Extension(_, child) => Within(m, child)
    case _ => false
  }

  ghost predicate IsNode(tries: seq<Node>, m: Node) {
    exists f :: f in tries && Within(m, f)
  }

  lemma IsNodeItself(tries: seq<Node>, f: Node)
    requires f in tries
    ensures IsNode(tries, f)
  {
    assert Within(f, f);
  }

  function Height(n: Node): nat
    decreases n, 17
  {
    match n
    case Branch(_) => 1 + HeightOfSlots(n, 16)
    case Extension(_, child) => 1 + Height(child)
    case _ => 0
  }

  function HeightOfSlots(n: Node, upTo: nat): nat
    requires n.Branch? && upTo <= 16
    decreases n, upTo
  {
    if upTo == 0 then 0 else
    var i := (upTo - 1) as nibble;
    var rest := HeightOfSlots(n, upTo - 1);
    if i in n.children && Height(n.children[i]) > rest then Height(n.children[i]) else rest
  }

  lemma {:induction false} ChildIsLower(n: Node, i: nibble, upTo: nat)
    requires n.Branch? && i in n.children && i as int < upTo <= 16
    ensures Height(n.children[i]) <= HeightOfSlots(n, upTo)
    decreases upTo
  {
    if (upTo - 1) as nibble != i {
      ChildIsLower(n, i, upTo - 1);
    }
  }

  /** What is known of the tries that stored nodes come from: they leave nothing out, they can be
      written, and no two of their nodes collide. */
  ghost predicate Sources(K: Keccak, tries: seq<Node>) {
    && (forall f :: f in tries ==> DigestFree(f) && Writable(f))
    && (forall f, g :: f in tries && g in tries ==> NoCollision(K, Encodings(K, f), Encodings(K, g)))
  }

  /** A node of one of the tries that is held by the given digest. */
  ghost predicate HasDigest(K: Keccak, tries: seq<Node>, m: Node, hash: Hash) {
    ReferenceOf(K, m) == ByDigest(hash) && IsNode(tries, m)
  }

  /** The height of the node with a digest, zero when there is none. */
  ghost function RankOf(K: Keccak, tries: seq<Node>, hash: Hash): nat {
    if exists m :: HasDigest(K, tries, m, hash) then
      var m :| HasDigest(K, tries, m, hash);
      Height(m)
    else 0
  }

  lemma {:induction false} WithinInherits(K: Keccak, m: Node, f: Node)
    requires Within(m, f)
    ensures DigestFree(f) ==> DigestFree(m)
    ensures Writable(f) ==> Writable(m)
    ensures Encodings(K, m) <= Encodings(K, f)
  {
    if m != f {
      match f
      case Branch(children) =>
        var i :| i in children && Within(m, children[i]);
        WithinInherits(K, m, children[i]);
        BelowChild(K, f, i);
        BelowIsInside(K, f);
      case Extension(_, child) => WithinInherits(K, m, child);
    }
  }

  /** Tries that leave nothing out are equal if one prunes the other. */
  lemma {:induction false} PrunesNothing(K: Keccak, s: Node, f: Node)
    requires Prunes(K, s, f) && DigestFree(s)
    ensures s == f
  {
    hide ReferenceOf;
    match s
    case Branch(children) =>
      forall i | i in children
        ensures children[i] == f.children[i]
      {
        PrunesNothing(K, children[i], f.children[i]);
      }
      assert children == f.children;
    case Extension(_, child) => PrunesNothing(K, child, f.child);
    case _ =>
  }

  /** A digest belongs to one node only. */
  lemma OneNode(K: Keccak, tries: seq<Node>, m: Node, m': Node, hash: Hash)
    requires Sources(K, tries) && HasDigest(K, tries, m, hash) && HasDigest(K, tries, m', hash)
    ensures m == m'
  {
    hide ReferenceOf, Encodings, Within;
    var f :| f in tries && Within(m, f);
    var g :| g in tries && Within(m', g);
    WithinInherits(K, m, f);
    WithinInherits(K, m', g);
    NoCollisionWithin(K, Encodings(K, f), Encodings(K, g), Encodings(K, m), Encodings(K, m'));
    SameReferencePrunes(K, m, m');
    PrunesNothing(K, m, m');
  }

  lemma RankIsHeight(K: Keccak, tries: seq<Node>, m: Node, hash: Hash)
    requires Sources(K, tries) && HasDigest(K, tries, m, hash)
    ensures RankOf(K, tries, hash) == Height(m)
  {
    hide Height;
    var m' :| HasDigest(K, tries, m', hash) && RankOf(K, tries, hash) == Height(m');
    OneNode(K, tries, m, m', hash);
  }

  lemma {:induction false} WithinTransitive(a: Node, b: Node, c: Node)
    requires Within(a, b) && Within(b, c)
    ensures Within(a, c)
  {
    if b != c {
      match c
      case Branch(children) =>
        var i :| i in children && Within(b, children[i]);
        WithinTransitive(a, b, children[i]);
      case Extension(_, child) => WithinTransitive(a, b, child);
    }
  }

  /** The digests in a pruned node rank below every bound above the height of the whole node. */
  lemma {:induction false} DigestsRankBelow(K: Keccak, tries: seq<Node>, s: Node, m: Node, f: Node, bound: nat)
    requires Sources(K, tries) && f in tries && Within(m, f) && Prunes(K, s, m) && Height(m) < bound
    ensures RanksBelow(RankFor(K, tries), s, bound)
  {
    hide ReferenceOf;
    match s
    case Branch(children) =>
      forall i | i in children
        ensures RanksBelow(RankFor(K, tries), children[i], bound)
      {
        ChildIsLower(m, i, 16);
        assert Within(m.children[i], m);
        WithinTransitive(m.children[i], m, f);
        DigestsRankBelow(K, tries, children[i], m.children[i], f, bound);
      }
    case Extension(_, child) =>
      assert Within(m.child, m);
      WithinTransitive(m.child, m, f);
      DigestsRankBelow(K, tries, child, m.child, f, bound);
    case Digest(hash) => RankIsHeight(K, tries, m, hash);
    case _ =>
  }

  /** The stored nodes come from the tries: each is a node of one of them, itself not left out, filed
      under its digest. */
  ghost predicate ComesFrom(K: Keccak, store: Store, tries: seq<Node>) {
    forall hash :: ByDigest(hash) in store ==> !store[ByDigest(hash)].Digest? && Stands(K, store[ByDigest(hash)], hash, tries)
  }

  ghost predicate Stands(K: Keccak, s: Node, hash: Hash, tries: seq<Node>) {
    exists m :: HasDigest(K, tries, m, hash) && Prunes(K, s, m)
  }

  ghost function RankFor(K: Keccak, tries: seq<Node>): Hash -> nat {
    (hash: Hash) => RankOf(K, tries, hash)
  }

  /** The digests in a stored node rank below the height of the node it stands for. */
  lemma StoredRanksBelow(K: Keccak, tries: seq<Node>, s: Node, m: Node, f: Node)
    requires Sources(K, tries) && f in tries && Within(m, f) && Prunes(K, s, m) && !s.Digest?
    ensures RanksBelow(RankFor(K, tries), s, Height(m))
  {
    hide ReferenceOf, RankFor, RankOf;
    match s
    case Branch(children) =>
      forall i | i in children
        ensures RanksBelow(RankFor(K, tries), children[i], Height(m))
      {
        ChildIsLower(m, i, 16);
        assert Within(m.children[i], m);
        WithinTransitive(m.children[i], m, f);
        DigestsRankBelow(K, tries, children[i], m.children[i], f, Height(m));
      }
    case Extension(_, child) =>
      assert Within(m.child, m);
      WithinTransitive(m.child, m, f);
      DigestsRankBelow(K, tries, child, m.child, f, Height(m));
    case _ =>
  }

  /** Such a store has no endless chain of digests. */
  lemma HonestStoreIsRanked(K: Keccak, store: Store, tries: seq<Node>)
    requires Sources(K, tries) && ComesFrom(K, store, tries)
    ensures Ranked(RankFor(K, tries), store)
  {
    hide ReferenceOf, RanksBelow, Prunes, Within, Height, RankOf, Sources;
    forall hash: Hash | ByDigest(hash) in store
      ensures RanksBelow(RankFor(K, tries), store[ByDigest(hash)], RankFor(K, tries)(hash))
    {
      var s := store[ByDigest(hash)];
      var m :| HasDigest(K, tries, m, hash) && Prunes(K, s, m);
      var f :| f in tries && Within(m, f);
      RankIsHeight(K, tries, m, hash);
      StoredRanksBelow(K, tries, s, m, f);
    }
  }

  /** So every trie can be resolved from it. */
  lemma HonestStoreResolves(K: Keccak, root: Node, store: Store, tries: seq<Node>)
    requires Sources(K, tries) && ComesFrom(K, store, tries)
    ensures Resolve(root, store).Some?
  {
    hide Sources, ComesFrom, Ranked, Resolve, RankFor;
    HonestStoreIsRanked(K, store, tries);
    RankedExactly(store);
  }
}
