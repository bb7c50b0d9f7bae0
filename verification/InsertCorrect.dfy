/** Insertion keeps the normal form, and fails exactly when one key would be a prefix of another. */
module InsertCorrect {
  import opened Basics
  import opened HexPrefix
  import opened Trie
  import opened NormalForm

  lemma MakeLeafProper(nibs: Nibbles, value: Bytes)
    requires value != []
    ensures Proper(MakeLeaf(nibs, value)) && DigestFree(MakeLeaf(nibs, value))
  {
  }

  lemma ForkProper(i: nibble, a: Node, j: nibble, b: Node)
    requires i != j && Proper(a) && Proper(b)
    ensures Proper(Fork(i, a, j, b))
    ensures DigestFree(a) && DigestFree(b) ==> DigestFree(Fork(i, a, j, b))
  {
    var f := Fork(i, a, j, b);
    assert i in f.children && j in f.children;
  }

  lemma ExtendedProper(nibs: Nibbles, child: Node)
    requires Proper(child) && (child.Branch? || child.Digest?)
    ensures Proper(Extended(nibs, child))
    ensures DigestFree(child) ==> DigestFree(Extended(nibs, child))
  {
  }

  lemma SplitProper(nibs: Nibbles, rest: Node, key: Nibbles, value: Bytes)
    requires Lcp(nibs, key) < |nibs| && Lcp(nibs, key) < |key|
    requires Proper(rest) && value != []
    ensures Proper(Split(nibs, rest, key, value))
    ensures DigestFree(rest) ==> DigestFree(Split(nibs, rest, key, value))
  {
    var common := Lcp(nibs, key);
    var leaf := MakeLeaf(key[common + 1..], value);
    MakeLeafProper(key[common + 1..], value);
    ForkProper(nibs[common], rest, key[common], leaf);
    ExtendedProper(nibs[..common], Fork(nibs[common], rest, key[common], leaf));
  }

  /** Replacing or adding a child keeps a branch in normal form. */
  lemma SetChildProper(n: Node, i: nibble, child: Node)
    requires n.Branch? && Proper(n) && Proper(child)
    ensures Proper(Branch(n.children[i := child]))
    ensures DigestFree(n) && DigestFree(child) ==> DigestFree(Branch(n.children[i := child]))
  {
    var x, y :| x in n.children && y in n.children && x != y;
    assert x in n.children[i := child] && y in n.children[i := child];
  }

  /** Insertion never panics and keeps the normal form, with or without unresolved parts. */
  lemma {:induction false} InsertKeepsForm(n: Node, key: Nibbles, value: Bytes)
    requires WellFormed(n) && value != []
    ensures var r := Insert(n, key, value);
      && !r.Panicked?
      && (r.Done? ==> Proper(r.node) && (DigestFree(n) ==> DigestFree(r.node)))
      && (r.Done? && n.Branch? ==> r.node.Branch?)
      && (r.Failed? && DigestFree(n) ==> r.error == ValueInBranch)
  {
    hide PrefixNibs, ToEncodedPath, Canonical;
    match n
    case Null => MakeLeafProper(key, value);
    case Branch(children) =>
      if key != [] {
        if key[0] in children {
          InsertKeepsForm(children[key[0]], key[1..], value);
          var r := Insert(children[key[0]], key[1..], value);
          if r.Done? {
            SetChildProper(n, key[0], r.node);
          }
        } else {
          MakeLeafProper(key[1..], value);
          SetChildProper(n, key[0], MakeLeaf(key[1..], value));
        }
      }
    case Leaf(path, prior) =>
      var nibs := PrefixNibs(path);
      var common := Lcp(nibs, key);
      if common < |nibs| && common < |key| {
        MakeLeafProper(nibs[common + 1..], prior);
        SplitProper(nibs, MakeLeaf(nibs[common + 1..], prior), key, value);
      }
    case Extension(path, child) =>
      var nibs := PrefixNibs(path);
      var common := Lcp(nibs, key);
      if common == |nibs| {
        InsertKeepsForm(child, key[common..], value);
      } else if common < |key| {
        ExtendedProper(nibs[common + 1..], child);
        SplitProper(nibs, Extended(nibs[common + 1..], child), key, value);
      }
    case Digest(_) =>
  }

  /** A non-empty trie holds a key. */
  lemma {:induction false} SomeKey(n: Node) returns (k: Nibbles)
    requires Proper(n) && DigestFree(n)
    ensures Present(n, k)
  {
    hide PrefixNibs, ToEncodedPath, Canonical;
    match n
    case Branch(children) =>
      var i :| i in children;
      var tail := SomeKey(children[i]);
      k := [i] + tail;
      GetBranch(children, i, tail);
    case Leaf(path, _) => k := PrefixNibs(path);
    case Extension(path, child) =>
      var tail := SomeKey(child);
      k := PrefixNibs(path) + tail;
      GetExtension(path, child, tail);
  }

  predicate Related(a: Nibbles, b: Nibbles) {
    a <= b || b <= a
  }

  /** Some other key of the trie is a prefix of `key` or has it as a prefix. */
  ghost predicate Conflicts(n: Node, key: Nibbles) {
    exists k :: Present(n, k) && k != key && Related(k, key)
  }

  lemma RelatedAfter(prefix: Nibbles, a: Nibbles, b: Nibbles)
    ensures Related(prefix + a, prefix + b) <==> Related(a, b)
    ensures prefix + a == prefix + b <==> a == b
  {
    assert a == (prefix + a)[|prefix|..];
    assert b == (prefix + b)[|prefix|..];
  }

  /** A failing insertion points at the key that is in the way. */
  lemma {:induction false} FailureHasConflict(n: Node, key: Nibbles, value: Bytes) returns (k: Nibbles)
    requires Normal(n) && Insert(n, key, value).Failed?
    ensures Present(n, k) && k != key && Related(k, key)
    decreases n, 1
  {
    hide PrefixNibs, ToEncodedPath, Canonical;
    match n
    case Branch(children) =>
      if key == [] {
        k := SomeKey(n);
      } else {
        var tail := FailureHasConflict(children[key[0]], key[1..], value);
        k := [key[0]] + tail;
        GetBranch(children, key[0], tail);
        assert key == [key[0]] + key[1..];
        RelatedAfter([key[0]], tail, key[1..]);
      }
    case Leaf(path, _) => k := PrefixNibs(path);
    case Extension(_, _) => k := FailureInExtension(n, key, value);
  }

  lemma {:induction false} FailureInExtension(n: Node, key: Nibbles, value: Bytes) returns (k: Nibbles)
    requires n.Extension? && Normal(n) && Insert(n, key, value).Failed?
    ensures Present(n, k) && k != key && Related(k, key)
    decreases n, 0
  {
    hide PrefixNibs, ToEncodedPath, Canonical;
    var nibs := PrefixNibs(n.path);
    var common := Lcp(nibs, key);
    var tail;
    if common == |nibs| {
      tail := FailureHasConflict(n.child, key[common..], value);
      assert key == nibs + key[common..];
      RelatedAfter(nibs, tail, key[common..]);
    } else {
      tail := SomeKey(n.child);
      assert key <= nibs;
    }
    k := nibs + tail;
    GetExtension(n.path, n.child, tail);
  }

  /** A key in the way makes the insertion fail. */
  lemma {:induction false} ConflictFails(n: Node, key: Nibbles, value: Bytes, k: Nibbles)
    requires Normal(n) && Present(n, k) && k != key && Related(k, key)
    ensures Insert(n, key, value).Failed?
    decreases n, 1
  {
    hide PrefixNibs, ToEncodedPath, Canonical;
    match n
    case Branch(children) =>
      if key != [] {
        assert key == [key[0]] + key[1..];
        assert k == [k[0]] + k[1..];
        assert key[0] == k[0];
        RelatedAfter([key[0]], k[1..], key[1..]);
        ConflictFails(children[key[0]], key[1..], value, k[1..]);
      }
    case Leaf(path, _) =>
    case Extension(path, child) => ConflictInExtension(n, key, value, k);
  }

  lemma {:induction false} ConflictInExtension(n: Node, key: Nibbles, value: Bytes, k: Nibbles)
    requires n.Extension? && Normal(n) && Present(n, k) && k != key && Related(k, key)
    ensures Insert(n, key, value).Failed?
    decreases n, 0
  {
    hide PrefixNibs, ToEncodedPath, Canonical;
    var nibs := PrefixNibs(n.path);
    var common := Lcp(nibs, key);
    var tail := k[|nibs|..];
    assert k == nibs + tail;
    if common == |nibs| {
      assert key == nibs + key[common..];
      RelatedAfter(nibs, tail, key[common..]);
      ConflictFails(n.child, key[common..], value, tail);
    } else if common < |key| {
      assert false;
    }
  }

  /** Insertion on a trie in normal form: it fails exactly on a conflict; otherwise it sets just the
      one key, keeps the normal form, and returns false exactly when the value was already there. */
  lemma InsertIsCorrect(n: Node, key: Nibbles, value: Bytes)
    requires Normal(n) && value != []
    ensures Conflicts(n, key) <==> Insert(n, key, value) == Failed(ValueInBranch)
    ensures !Conflicts(n, key) <==> Insert(n, key, value).Done?
    ensures var r := Insert(n, key, value);
      r.Done? ==>
        && Normal(r.node) && !r.node.Null?
        && (forall k :: Get(r.node, k) == if k == key then Found(Some(value)) else Get(n, k))
        && (r.changed <==> Get(n, key) != Found(Some(value)))
        && (!r.changed ==> r.node == n)
  {
    hide PrefixNibs, ToEncodedPath, Canonical;
    InsertKeepsForm(n, key, value);
    var r := Insert(n, key, value);
    if r.Failed? {
      var k := FailureHasConflict(n, key, value);
    } else {
      forall k
        ensures Get(r.node, k) == if k == key then Found(Some(value)) else Get(n, k)
      {
        InsertGet(n, key, value, k);
      }
      InsertGet(n, key, value, key);
    }
    if k :| Present(n, k) && k != key && Related(k, key) {
      ConflictFails(n, key, value, k);
    }
  }
}
