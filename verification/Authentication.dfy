/** The root hash authenticates a sparse trie: it stands for every full trie with that hash. */
module Authentication {
  import opened Basics
  import opened Trie
  import opened NormalForm
  import opened Encoding
  import opened Decoding
  import opened RoundTrip
  import opened Sparse
  import opened SparseDelete

  lemma NoCollisionWithin(K: Keccak, xs: set<Bytes>, ys: set<Bytes>, xs': set<Bytes>, ys': set<Bytes>)
    requires NoCollision(K, xs, ys) && xs' <= xs && ys' <= ys
    ensures NoCollision(K, xs', ys')
  {
  }

  /** A child is determined by the reference that its parent holds, up to what was left out. */
  lemma {:induction false} SameReferencePrunes(K: Keccak, s: Node, f: Node)
    requires Writable(s) && Writable(f) && DigestFree(f)
    requires NoCollision(K, Encodings(K, s), Encodings(K, f))
    requires ReferenceOf(K, s) == ReferenceOf(K, f)
    ensures Prunes(K, s, f)
    decreases s, 1
  {
    if !s.Digest? {
      assert !f.Digest?;
      assert Encode(K, s) in Encodings(K, s) && Encode(K, f) in Encodings(K, f);
      SameEncodingPrunes(K, s, f);
    }
  }

  /** A node is determined by its encoding, up to what was left out. */
  lemma {:induction false} SameEncodingPrunes(K: Keccak, s: Node, f: Node)
    requires Writable(s) && Writable(f) && DigestFree(f) && !s.Digest?
    requires NoCollision(K, Encodings(K, s), Encodings(K, f))
    requires Encode(K, s) == Encode(K, f)
    ensures Prunes(K, s, f)
    decreases s, 0
  {
    hide ReferenceOf, Encode, Stub;
    DecodeEncode(K, s);
    DecodeEncode(K, f);
    assert Shallow(K, s) == Shallow(K, f);
    match s
    case Branch(children) =>
      assert f.Branch?;
      SameSlotsOfShallow(K, s, f);
      forall i | i in children
        ensures Prunes(K, children[i], f.children[i])
      {
        ShallowEncodes(K, children[i]);
        ShallowEncodes(K, f.children[i]);
        BelowChild(K, s, i);
        BelowChild(K, f, i);
        BelowIsInside(K, s);
        BelowIsInside(K, f);
        SameReferencePrunes(K, children[i], f.children[i]);
      }
    case Extension(path, child) =>
      ShallowEncodes(K, child);
      ShallowEncodes(K, f.child);
      SameReferencePrunes(K, child, f.child);
    case _ =>
  }

  lemma SameSlotsOfShallow(K: Keccak, s: Node, f: Node)
    requires s.Branch? && f.Branch? && Shallow(K, s) == Shallow(K, f)
    ensures s.children.Keys == f.children.Keys
    ensures forall i :: i in s.children ==> Stub(K, s.children[i]) == Stub(K, f.children[i])
  {
    hide Stub;
    assert s.children.Keys == Shallow(K, s).children.Keys;
    assert f.children.Keys == Shallow(K, f).children.Keys;
    forall i | i in s.children
      ensures Stub(K, s.children[i]) == Stub(K, f.children[i])
    {
      assert Shallow(K, s).children[i] == Stub(K, s.children[i]);
      assert Shallow(K, f).children[i] == Stub(K, f.children[i]);
    }
  }

  /** What it takes to compare two tries by hash: both can be written out, the second one leaves
      nothing out, and no two of their nodes collide. */
  ghost predicate Comparable(K: Keccak, s: Node, f: Node) {
    Writable(s) && Writable(f) && DigestFree(f) && NoCollision(K, Encodings(K, s), Encodings(K, f))
  }

  /** A sparse trie with the root hash of a full trie stands for that trie. */
  lemma SameHashPrunes(K: Keccak, s: Node, f: Node)
    requires Comparable(K, s, f) && !s.Digest? && HashOf(K, s) == HashOf(K, f)
    ensures Prunes(K, s, f)
  {
    HashIsDigestOfEncoding(K, s);
    HashIsDigestOfEncoding(K, f);
    assert Encode(K, s) in Encodings(K, s) && Encode(K, f) in Encodings(K, f);
    SameEncodingPrunes(K, s, f);
  }

  /** Authenticated reads: whatever a sparse trie answers, also that a key is absent, is what every
      full trie with the same root hash answers. */
  lemma AuthenticatedGet(K: Keccak, s: Node, f: Node, key: Nibbles)
    requires Comparable(K, s, f) && HashOf(K, s) == HashOf(K, f) && Get(s, key).Found?
    ensures Get(f, key) == Get(s, key)
  {
    hide HashOf, Comparable;
    SameHashPrunes(K, s, f);
    PrunesGet(K, s, f, key);
  }

  /** Authenticated writes: an insertion into a sparse trie ends in the root hash that it has on
      every full trie with the same root hash. */
  lemma AuthenticatedInsert(K: Keccak, s: Node, f: Node, key: Nibbles, value: Bytes)
    requires Comparable(K, s, f) && HashOf(K, s) == HashOf(K, f) && Insert(s, key, value).Done?
    ensures Insert(f, key, value).Done? && Insert(f, key, value).changed == Insert(s, key, value).changed
    ensures HashOf(K, Insert(s, key, value).node) == HashOf(K, Insert(f, key, value).node)
  {
    hide HashOf, Comparable;
    SameHashPrunes(K, s, f);
    SparseInsertHash(K, s, f, key, value);
  }
}
