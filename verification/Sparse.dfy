/** A sparse trie stands for a full one: subtrees are left out and only their digests remain. */
module Sparse {
  import opened Basics
  import opened HexPrefix
  import opened Trie
  import opened NormalForm
  import opened Encoding
  import opened Decoding
  import opened RoundTrip

  /** `s` is `f` with some subtrees replaced by the digests by which their parents hold them. */
  predicate Prunes(K: Keccak, s: Node, f: Node) {
    match s
    case Null => f.Null?
    case Branch(children) =>
      && f.Branch?
      && children.Keys == f.children.Keys
      && forall i :: i in children ==> Prunes(K, children[i], f.children[i])
    case Leaf(_, _) => s == f
    case Extension(path, child) => f.Extension? && f.path == path && Prunes(K, child, f.child)
    case Digest(hash) => ReferenceOf(K, f) == ByDigest(hash)
  }

  lemma {:induction false} PrunesReflexive(K: Keccak, n: Node)
    ensures Prunes(K, n, n)
  {
    hide ReferenceOf;
    match n
    case Branch(children) =>
      forall i | i in children
        ensures Prunes(K, children[i], children[i])
      {
        PrunesReflexive(K, children[i]);
      }
    case Extension(_, child) => PrunesReflexive(K, child);
    case Digest(_) => DigestReference(K, n);
    case _ =>
  }

  lemma DigestReference(K: Keccak, n: Node)
    requires n.Digest?
    ensures ReferenceOf(K, n) == ByDigest(n.hash)
  {
  }

  /** Leaving subtrees out changes neither the encoding, nor the reference, nor the root hash. */
  lemma {:induction false} PrunesReference(K: Keccak, s: Node, f: Node)
    requires Prunes(K, s, f)
    ensures ReferenceOf(K, s) == ReferenceOf(K, f)
    ensures !s.Digest? && !f.Digest? ==> Encode(K, s) == Encode(K, f)
  {
    match s
    case Branch(children) =>
      forall i | i in children
        ensures ReferenceOf(K, children[i]) == ReferenceOf(K, f.children[i])
      {
        PrunesReference(K, children[i], f.children[i]);
      }
      SameReferencesSameEncoding(K, s, f);
    case Extension(path, child) =>
      PrunesReference(K, child, f.child);
      SameReferenceSameExtension(K, path, child, f.child);
    case _ =>
  }

  lemma PrunesHash(K: Keccak, s: Node, f: Node)
    requires Prunes(K, s, f)
    ensures HashOf(K, s) == HashOf(K, f)
  {
    PrunesReference(K, s, f);
  }

  lemma {:induction false} PrunesTransitive(K: Keccak, a: Node, b: Node, c: Node)
    requires Prunes(K, a, b) && Prunes(K, b, c)
    ensures Prunes(K, a, c)
  {
    hide ReferenceOf;
    match a
    case Branch(children) =>
      forall i | i in children
        ensures Prunes(K, children[i], c.children[i])
      {
        PrunesTransitive(K, children[i], b.children[i], c.children[i]);
      }
    case Extension(_, child) => PrunesTransitive(K, child, b.child, c.child);
    case Digest(_) => PrunesReference(K, b, c);
    case _ =>
  }

  /** What is read back from an encoding stands for the node that was written. */
  lemma {:induction false} ShallowPrunes(K: Keccak, n: Node)
    ensures Prunes(K, Shallow(K, n), n)
    ensures Prunes(K, Stub(K, n), n)
  {
    hide ReferenceOf;
    match n
    case Branch(children) =>
      forall i | i in children
        ensures Prunes(K, Stub(K, children[i]), children[i])
      {
        ShallowPrunes(K, children[i]);
      }
    case Extension(_, child) => ShallowPrunes(K, child);
    case Digest(_) => DigestReference(K, n);
    case _ =>
  }

  lemma {:induction false} NormalFormIsWritable(n: Node)
    requires WellFormed(n) && Sized(n)
    ensures Writable(n)
  {
    hide PrefixNibs;
    match n
    case Branch(children) =>
      forall i | i in children
        ensures !children[i].Null? && Writable(children[i])
      {
        assert Proper(children[i]);
        NormalFormIsWritable(children[i]);
      }
    case Extension(_, child) => NormalFormIsWritable(child);
    case _ =>
  }

  /** The round trip: what is read back from the encoding of a node in normal form is the node with
      its long children cut off; it has the same encoding, reference and hash, and answers nothing
      differently. */
  lemma WrittenAndReadBack(K: Keccak, n: Node)
    requires WellFormed(n) && Sized(n)
    ensures Decode(Encode(K, n)) == Ok(Shallow(K, n)) && Prunes(K, Shallow(K, n), n)
    ensures var m := Shallow(K, n);
      Encode(K, m) == Encode(K, n) && ReferenceOf(K, m) == ReferenceOf(K, n) && HashOf(K, m) == HashOf(K, n)
    ensures forall key :: Get(Shallow(K, n), key).Found? ==> Get(n, key) == Get(Shallow(K, n), key)
  {
    hide Encode, ReferenceOf, HashOf, Shallow, Get, Decode;
    NormalFormIsWritable(n);
    DecodeEncode(K, n);
    ShallowEncodes(K, n);
    ShallowPrunes(K, n);
    forall key | Get(Shallow(K, n), key).Found?
      ensures Get(n, key) == Get(Shallow(K, n), key)
    {
      PrunesGet(K, Shallow(K, n), n, key);
    }
  }

  /** Every answer of a sparse trie is the answer of the trie it stands for. */
  lemma {:induction false} PrunesGet(K: Keccak, s: Node, f: Node, key: Nibbles)
    requires Prunes(K, s, f) && Get(s, key).Found?
    ensures Get(f, key) == Get(s, key)
  {
    hide ReferenceOf, PrefixNibs;
    match s
    case Branch(children) =>
      if key != [] && key[0] in children {
        PrunesGet(K, children[key[0]], f.children[key[0]], key[1..]);
      }
    case Extension(path, child) =>
      var nibs := PrefixNibs(path);
      if nibs <= key {
        PrunesGet(K, child, f.child, key[|nibs|..]);
      }
    case _ =>
  }

  /** The outcome on a sparse trie tells the outcome on the trie it stands for, unless the operation
      reached something that was left out. */
  predicate Simulates(K: Keccak, s: Outcome, f: Outcome) {
    match s
    case Done(node, changed) => f.Done? && f.changed == changed && Prunes(K, node, f.node)
    case Failed(error) => error.NodeNotResolved? || f == s
    case Panicked => f.Panicked?
  }

  lemma PrunesExtended(K: Keccak, nibs: Nibbles, s: Node, f: Node)
    requires Prunes(K, s, f)
    ensures Prunes(K, Extended(nibs, s), Extended(nibs, f))
  {
    hide ReferenceOf, ToEncodedPath;
  }

  lemma PrunesSplit(K: Keccak, nibs: Nibbles, s: Node, f: Node, key: Nibbles, value: Bytes)
    requires Lcp(nibs, key) < |nibs| && Lcp(nibs, key) < |key| && Prunes(K, s, f)
    ensures Prunes(K, Split(nibs, s, key, value), Split(nibs, f, key, value))
  {
    hide ReferenceOf, ToEncodedPath, Lcp;
    var at := Lcp(nibs, key);
    var leaf := MakeLeaf(key[at + 1..], value);
    assert Prunes(K, Fork(nibs[at], s, key[at], leaf), Fork(nibs[at], f, key[at], leaf));
    PrunesExtended(K, nibs[..at], Fork(nibs[at], s, key[at], leaf), Fork(nibs[at], f, key[at], leaf));
  }

  /** Insertion into a sparse trie does what it does to the trie it stands for: the same flag, the
      same error, and a result that stands for the other result. */
  lemma {:induction false} InsertSimulates(K: Keccak, s: Node, f: Node, key: Nibbles, value: Bytes)
    requires Prunes(K, s, f)
    ensures Simulates(K, Insert(s, key, value), Insert(f, key, value))
    decreases s, 1
  {
    hide ReferenceOf, PrefixNibs, ToEncodedPath, Lcp;
    match s
    case Null => PrunesReflexive(K, MakeLeaf(key, value));
    case Branch(children) =>
      if key != [] {
        if key[0] in children {
          InsertSimulates(K, children[key[0]], f.children[key[0]], key[1..], value);
        } else {
          PrunesReflexive(K, MakeLeaf(key[1..], value));
        }
      }
    case Leaf(_, _) => if Insert(s, key, value).Done? { PrunesReflexive(K, Insert(s, key, value).node); }
    case Extension(path, child) => InsertSimulatesBelow(K, s, f, key, value);
    case Digest(_) =>
  }

  lemma {:induction false} InsertSimulatesBelow(K: Keccak, s: Node, f: Node, key: Nibbles, value: Bytes)
    requires s.Extension? && Prunes(K, s, f)
    ensures Simulates(K, Insert(s, key, value), Insert(f, key, value))
    decreases s, 0
  {
    hide ReferenceOf, PrefixNibs, ToEncodedPath, Lcp, Split;
    var nibs := PrefixNibs(s.path);
    var common := Lcp(nibs, key);
    if common == |nibs| {
      InsertSimulates(K, s.child, f.child, key[common..], value);
    } else if common < |key| {
      PrunesExtended(K, nibs[common + 1..], s.child, f.child);
      PrunesSplit(K, nibs, Extended(nibs[common + 1..], s.child), Extended(nibs[common + 1..], f.child), key, value);
    }
  }

  /** An insertion that succeeds on the sparse trie gives the root hash it gives on the full one. */
  lemma SparseInsertHash(K: Keccak, s: Node, f: Node, key: Nibbles, value: Bytes)
    requires Prunes(K, s, f) && Insert(s, key, value).Done?
    ensures Insert(f, key, value).Done? && Insert(f, key, value).changed == Insert(s, key, value).changed
    ensures HashOf(K, Insert(s, key, value).node) == HashOf(K, Insert(f, key, value).node)
  {
    InsertSimulates(K, s, f, key, value);
    PrunesHash(K, Insert(s, key, value).node, Insert(f, key, value).node);
  }
}
