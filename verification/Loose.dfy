/** What runs of operations keep between a sparse trie and the full one: an extension over a digest may
    have come to stand for a leaf or an extension with a longer path. */
module Loose {
  import opened Basics
  import opened HexPrefix
  import opened Trie
  import opened NormalForm
  import opened DeleteCorrect
  import opened Encoding
  import opened Sparse
  import opened SparseDelete
  import opened Orphans

  /** An extension with this path over a digest stands for `f`, if the digest is that of `f` with the
      path cut off. */
  predicate StandsLoosely(K: Keccak, path: Path, hash: Hash, f: Node) {
    var nibs := PrefixNibs(path);
    && nibs != [] && (f.Leaf? || f.Extension?) && nibs <= NibsOf(f) && (f.Extension? ==> nibs != NibsOf(f))
    && ReferenceOf(K, Shortened(f, |nibs|)) == ByDigest(hash)
  }

  /** As `Prunes`, but for extensions that stand loosely. */
  predicate LooselyPrunes(K: Keccak, s: Node, f: Node) {
    match s
    case Null => f.Null?
    case Branch(children) =>
      && f.Branch?
      && children.Keys == f.children.Keys
      && forall i :: i in children ==> LooselyPrunes(K, children[i], f.children[i])
    case Leaf(_, _) => s == f
    case Extension(path, child) =>
      || (f.Extension? && f.path == path && LooselyPrunes(K, child, f.child))
      || (child.Digest? && StandsLoosely(K, path, child.hash, f))
    case Digest(hash) => ReferenceOf(K, f) == ByDigest(hash)
  }

  lemma {:induction false} PrunesLoosely(K: Keccak, s: Node, f: Node)
    requires Prunes(K, s, f)
    ensures LooselyPrunes(K, s, f)
  {
    hide ReferenceOf, PrefixNibs, StandsLoosely;
    match s
    case Branch(children) =>
      forall i | i in children
        ensures LooselyPrunes(K, children[i], f.children[i])
      {
        PrunesLoosely(K, children[i], f.children[i]);
      }
    case Extension(_, child) => PrunesLoosely(K, child, f.child);
    case _ =>
  }

  /** What such a trie answers is what the full one answers. */
  lemma {:induction false} LooseGet(K: Keccak, s: Node, f: Node, key: Nibbles)
    requires LooselyPrunes(K, s, f) && Get(s, key).Found?
    ensures Get(f, key) == Get(s, key)
  {
    hide ReferenceOf, PrefixNibs, ToEncodedPath;
    match s
    case Branch(children) =>
      if key != [] && key[0] in children {
        LooseGet(K, children[key[0]], f.children[key[0]], key[1..]);
      }
    case Extension(path, child) =>
      if PrefixNibs(path) <= key {
        LooseGet(K, child, f.child, key[|PrefixNibs(path)|..]);
      }
    case _ =>
  }

  /** The outcome on the sparse trie tells the outcome on the full one, unless the operation reached
      something that was left out. */
  predicate LooselySimulates(K: Keccak, s: Outcome, f: Outcome) {
    match s
    case Done(node, changed) => f.Done? && f.changed == changed && LooselyPrunes(K, node, f.node)
    case Failed(error) => error.NodeNotResolved? || f == s
    case Panicked => f.Panicked?
  }

  // Insertion.

  lemma LooseExtended(K: Keccak, nibs: Nibbles, s: Node, f: Node)
    requires LooselyPrunes(K, s, f)
    ensures LooselyPrunes(K, Extended(nibs, s), Extended(nibs, f))
  {
    hide ReferenceOf, ToEncodedPath, PrefixNibs, StandsLoosely;
  }

  lemma LooseFork(K: Keccak, nibs: Nibbles, s: Node, f: Node, key: Nibbles, value: Bytes)
    requires Lcp(nibs, key) < |nibs| && Lcp(nibs, key) < |key| && LooselyPrunes(K, s, f)
    ensures LooselyPrunes(K, Split(nibs, s, key, value), Split(nibs, f, key, value))
  {
    hide ReferenceOf, ToEncodedPath, PrefixNibs, Lcp, StandsLoosely;
    var at := Lcp(nibs, key);
    var leaf := MakeLeaf(key[at + 1..], value);
    assert LooselyPrunes(K, Fork(nibs[at], s, key[at], leaf), Fork(nibs[at], f, key[at], leaf));
    LooseExtended(K, nibs[..at], Fork(nibs[at], s, key[at], leaf), Fork(nibs[at], f, key[at], leaf));
  }

  /** The rest of a loose path still stands for the rest of the full path. */
  lemma LooseRest(K: Keccak, path: Path, hash: Hash, f: Node, cut: nat)
    requires StandsLoosely(K, path, hash, f) && cut <= |PrefixNibs(path)|
    ensures LooselyPrunes(K, Extended(PrefixNibs(path)[cut..], Digest(hash)), Shortened(f, cut))
  {
    hide ReferenceOf, ToEncodedPath, PrefixNibs;
    var nibs, rest := PrefixNibs(path), PrefixNibs(path)[cut..];
    var whole := NibsOf(f)[cut..];
    assert NibsOf(Shortened(f, cut)) == whole;
    assert whole[|rest|..] == NibsOf(f)[|nibs|..];
    assert Shortened(Shortened(f, cut), |rest|) == Shortened(f, |nibs|);
    assert rest == whole[..|rest|];
  }

  lemma {:induction false} LcpIs(a: Nibbles, b: Nibbles, n: nat)
    requires n <= |a| && n <= |b| && a[..n] == b[..n]
    requires n < |a| && n < |b| ==> a[n] != b[n]
    ensures Lcp(a, b) == n
  {
    if n > 0 {
      assert a[0] == a[..n][0] && b[0] == b[..n][0];
      assert a[1..][..n - 1] == a[..n][1..] && b[1..][..n - 1] == b[..n][1..];
      LcpIs(a[1..], b[1..], n - 1);
    }
  }

  lemma SamePrefixLcp(a: Nibbles, b: Nibbles, key: Nibbles)
    requires a <= b && Lcp(a, key) < |a|
    ensures Lcp(b, key) == Lcp(a, key)
  {
    hide Lcp;
    var n := Lcp(a, key);
    assert a[..n] == b[..n] && a[n] == b[n];
    LcpIs(b, key, n);
  }

  /** Splitting a loose extension. */
  lemma LooseSplit(K: Keccak, path: Path, hash: Hash, f: Node, key: Nibbles, value: Bytes)
    requires StandsLoosely(K, path, hash, f)
    ensures LooselySimulates(K, Insert(Extension(path, Digest(hash)), key, value), Insert(f, key, value))
  {
    hide ReferenceOf, ToEncodedPath, PrefixNibs, Lcp;
    var nibs, whole := PrefixNibs(path), NibsOf(f);
    var at := Lcp(nibs, key);
    if at < |nibs| && at < |key| {
      SamePrefixLcp(nibs, whole, key);
      LooseRest(K, path, hash, f, at + 1);
      LooseFork(K, nibs, Extended(nibs[at + 1..], Digest(hash)), Shortened(f, at + 1), key, value);
      SplitAlike(nibs, whole, Shortened(f, at + 1), key, value);
      if f.Extension? {
        assert Shortened(f, at + 1) == Extended(whole[at + 1..], f.child);
      }
    } else if at < |nibs| {
      SamePrefixLcp(nibs, whole, key);
    }
  }

  lemma SplitAlike(nibs: Nibbles, whole: Nibbles, rest: Node, key: Nibbles, value: Bytes)
    requires nibs <= whole && Lcp(nibs, key) < |nibs| && Lcp(nibs, key) < |key| && Lcp(whole, key) == Lcp(nibs, key)
    ensures Split(nibs, rest, key, value) == Split(whole, rest, key, value)
  {
    hide ToEncodedPath, Lcp;
    assert nibs[..Lcp(nibs, key)] == whole[..Lcp(nibs, key)];
  }

  /** Insertion keeps what the sparse trie stands for. */
  lemma {:induction false} InsertLoosely(K: Keccak, s: Node, f: Node, key: Nibbles, value: Bytes)
    requires LooselyPrunes(K, s, f)
    ensures LooselySimulates(K, Insert(s, key, value), Insert(f, key, value))
    decreases s, 1
  {
    hide ReferenceOf, PrefixNibs, ToEncodedPath, Lcp, StandsLoosely;
    match s
    case Null => LooselyReflexive(K, MakeLeaf(key, value));
    case Branch(children) =>
      if key != [] {
        if key[0] in children {
          InsertLoosely(K, children[key[0]], f.children[key[0]], key[1..], value);
        } else {
          LooselyReflexive(K, MakeLeaf(key[1..], value));
        }
      }
    case Leaf(_, _) => if Insert(s, key, value).Done? { LooselyReflexive(K, Insert(s, key, value).node); }
    case Extension(path, child) =>
      if f.Extension? && f.path == path && LooselyPrunes(K, child, f.child) {
        InsertLooselyBelow(K, s, f, key, value);
      } else {
        LooseSplit(K, path, child.hash, f, key, value);
      }
    case _ =>
  }

  lemma LooselyReflexive(K: Keccak, n: Node)
    ensures LooselyPrunes(K, n, n)
  {
    PrunesReflexive(K, n);
    PrunesLoosely(K, n, n);
  }

  lemma {:induction false} InsertLooselyBelow(K: Keccak, s: Node, f: Node, key: Nibbles, value: Bytes)
    requires s.Extension? && f.Extension? && f.path == s.path && LooselyPrunes(K, s.child, f.child)
    ensures LooselySimulates(K, Insert(s, key, value), Insert(f, key, value))
    decreases s, 0
  {
    hide ReferenceOf, PrefixNibs, ToEncodedPath, Lcp, Split, StandsLoosely;
    var nibs := PrefixNibs(s.path);
    var common := Lcp(nibs, key);
    if common == |nibs| {
      InsertLoosely(K, s.child, f.child, key[common..], value);
    } else if common < |key| {
      LooseExtended(K, nibs[common + 1..], s.child, f.child);
      LooseFork(K, nibs, Extended(nibs[common + 1..], s.child), Extended(nibs[common + 1..], f.child), key, value);
    }
  }

  // Deletion.

  /** A child that is left alone in its branch takes a nibble more, loosely or not. */
  lemma CollapseLoosely(K: Keccak, i: nibble, s: Node, f: Node)
    requires LooselyPrunes(K, s, f) && Proper(f)
    ensures LooselySimulates(K, Collapse(i, s), Collapse(i, f))
  {
    hide ReferenceOf, PrefixNibs, ToEncodedPath;
    if s.Digest? && (f.Leaf? || f.Extension?) {
      var whole := Collapse(i, f).node;
      assert ([i] + NibsOf(f))[1..] == NibsOf(f);
      assert Shortened(whole, 1) == f;
    } else if s.Extension? && s.child.Digest? && StandsLoosely(K, s.path, s.child.hash, f) {
      PrependLoosely(K, [i], s.path, s.child.hash, f);
    }
  }

  lemma PrependLoosely(K: Keccak, front: Nibbles, path: Path, hash: Hash, f: Node)
    requires StandsLoosely(K, path, hash, f)
    ensures var whole := if f.Leaf? then MakeLeaf(front + NibsOf(f), f.value) else MakeExtension(front + NibsOf(f), f.child);
      StandsLoosely(K, ToEncodedPath(front + PrefixNibs(path), false), hash, whole)
  {
    hide ReferenceOf, PrefixNibs, ToEncodedPath;
    var nibs := PrefixNibs(path);
    var whole := if f.Leaf? then MakeLeaf(front + NibsOf(f), f.value) else MakeExtension(front + NibsOf(f), f.child);
    assert (front + NibsOf(f))[|front + nibs|..] == NibsOf(f)[|nibs|..];
    assert front + nibs <= front + NibsOf(f);
    assert Shortened(whole, |front + nibs|) == Shortened(f, |nibs|);
  }

  lemma MergeLoosely(K: Keccak, path: Path, s: Node, f: Node)
    requires LooselyPrunes(K, s, f) && !s.Digest?
    ensures LooselyPrunes(K, Merge(path, s), Merge(path, f))
  {
    hide ReferenceOf, PrefixNibs, ToEncodedPath;
    if s.Extension? && s.child.Digest? && StandsLoosely(K, s.path, s.child.hash, f) {
      PrependLoosely(K, PrefixNibs(path), s.path, s.child.hash, f);
    }
  }

  lemma ShrinkLoosely(K: Keccak, s: Children, f: Children)
    requires s.Keys == f.Keys && forall i :: i in s ==> LooselyPrunes(K, s[i], f[i]) && Proper(f[i])
    ensures LooselySimulates(K, Shrink(s), Shrink(f))
  {
    hide LooselyPrunes, LooselySimulates, Shrink, Collapse, Proper;
    var first := NextChild(s, 0);
    SameNextChild(s, f, 0);
    ShrinkIs(s);
    ShrinkIs(f);
    if first < 16 {
      SameNextChild(s, f, first + 1);
      var i := first as nibble;
      if NextChild(s, first + 1) == 16 {
        CollapseLoosely(K, i, s[i], f[i]);
      } else {
        BranchesLoosely(K, s, f);
      }
    } else {
      BothPanic(K);
    }
  }

  lemma ShrinkIs(children: Children)
    ensures var first := NextChild(children, 0);
      if first == 16 then Shrink(children) == Panicked
      else if NextChild(children, first + 1) == 16 then Shrink(children) == Collapse(first as nibble, children[first as nibble])
      else Shrink(children) == Done(Branch(children), true)
  {
    hide Collapse;
  }

  lemma BranchesLoosely(K: Keccak, s: Children, f: Children)
    requires s.Keys == f.Keys && forall i :: i in s ==> LooselyPrunes(K, s[i], f[i])
    ensures LooselySimulates(K, Done(Branch(s), true), Done(Branch(f), true))
  {
    assert LooselyPrunes(K, Branch(s), Branch(f)) by {
      hide StandsLoosely, ReferenceOf;
    }
  }

  lemma BothPanic(K: Keccak)
    ensures LooselySimulates(K, Panicked, Panicked)
  {
  }

  /** Deletion keeps what the sparse trie stands for. */
  lemma {:induction false} DeleteLoosely(K: Keccak, s: Node, f: Node, key: Nibbles)
    requires LooselyPrunes(K, s, f) && WellFormed(f)
    ensures LooselySimulates(K, Delete(s, key), Delete(f, key))
    decreases s, 1
  {
    hide ReferenceOf, PrefixNibs, ToEncodedPath, Canonical, Merge, Shrink, StandsLoosely;
    match s
    case Branch(children) => DeleteLooselyBranch(K, s, f, key);
    case Extension(path, child) =>
      if f.Extension? && f.path == path && LooselyPrunes(K, child, f.child) {
        var nibs := PrefixNibs(path);
        if nibs <= key {
          var tail := key[|nibs|..];
          DeleteLoosely(K, child, f.child, tail);
          if Delete(child, tail).Done? && Delete(child, tail).changed {
            ChangedIsNoDigest(child, tail);
            MergeLoosely(K, path, Delete(child, tail).node, Delete(f.child, tail).node);
          }
        }
      } else {
        DeleteBesideLoose(K, path, child.hash, f, key);
      }
    case _ =>
  }

  /** A key that is not below a loose extension is not below the path it stands for either. */
  lemma DeleteBesideLoose(K: Keccak, path: Path, hash: Hash, f: Node, key: Nibbles)
    requires StandsLoosely(K, path, hash, f)
    ensures LooselySimulates(K, Delete(Extension(path, Digest(hash)), key), Delete(f, key))
  {
    hide ReferenceOf, PrefixNibs, ToEncodedPath;
  }

  lemma {:induction false} DeleteLooselyBranch(K: Keccak, s: Node, f: Node, key: Nibbles)
    requires s.Branch? && LooselyPrunes(K, s, f) && WellFormed(f)
    ensures LooselySimulates(K, Delete(s, key), Delete(f, key))
    decreases s, 0
  {
    hide ReferenceOf, PrefixNibs, ToEncodedPath, Canonical, Shrink, StandsLoosely;
    if key != [] && key[0] in s.children {
      var i, tail := key[0], key[1..];
      DeleteLoosely(K, s.children[i], f.children[i], tail);
      DeleteKeepsForm(f.children[i], tail);
      var r, r' := Delete(s.children[i], tail), Delete(f.children[i], tail);
      if r.Done? && r.changed {
        LooselyNull(K, r.node, r'.node);
        var rest, rest' := Rest(s.children, i, r.node), Rest(f.children, i, r'.node);
        assert rest.Keys == rest'.Keys;
        ShrinkLoosely(K, rest, rest');
      }
    }
  }

  lemma LooselyNull(K: Keccak, s: Node, f: Node)
    requires LooselyPrunes(K, s, f)
    ensures s.Null? <==> f.Null?
  {
  }
}
