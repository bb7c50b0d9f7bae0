/** The normal form of a trie, and what insertion does to a trie. */
module NormalForm {
  import opened Basics
  import opened HexPrefix
  import opened Trie

  predicate AtLeastTwo(children: Children) {
    exists i, j :: i in children && j in children && i != j
  }

  /** A subtrie that is not empty; digests may stand for unresolved parts of it. */
  predicate Proper(n: Node) {
    match n
    case Null => false
    case Branch(children) => AtLeastTwo(children) && forall i :: i in children ==> Proper(children[i])
    case Leaf(path, value) => Canonical(path, true) && value != []
    case Extension(path, child) =>
      Canonical(path, false) && PrefixNibs(path) != [] && (child.Branch? || child.Digest?) && Proper(child)
    case Digest(_) => true
  }

  predicate WellFormed(n: Node) {
    n.Null? || Proper(n)
  }

  predicate DigestFree(n: Node) {
    match n
    case Null => true
    case Branch(children) => forall i :: i in children ==> DigestFree(children[i])
    case Leaf(_, _) => true
    case Extension(_, child) => DigestFree(child)
    case Digest(_) => false
  }

  /** The normal form: canonical in every node, with nothing left out. */
  predicate Normal(n: Node) {
    WellFormed(n) && DigestFree(n)
  }

  predicate Present(n: Node, key: Nibbles) {
    var r := Get(n, key);
    r.Found? && r.value.Some?
  }

  /** A trie that leaves nothing out answers for every key. */
  lemma {:induction false} FullAnswers(f: Node, key: Nibbles)
    requires DigestFree(f)
    ensures Get(f, key).Found?
  {
    hide PrefixNibs;
    match f
    case Branch(children) => if key != [] && key[0] in children { FullAnswers(children[key[0]], key[1..]); }
    case Extension(path, child) => if PrefixNibs(path) <= key { FullAnswers(child, key[|PrefixNibs(path)|..]); }
    case _ =>
  }

  lemma GetExtended(nibs: Nibbles, child: Node, key: Nibbles)
    ensures Get(Extended(nibs, child), key)
         == if nibs <= key then Get(child, key[|nibs|..]) else Found(None)
  {
    hide PrefixNibs, ToEncodedPath;
    if nibs == [] {
      assert key[0..] == key;
    }
  }

  /** Two keys agree when they agree before a position, at it and after it. */
  lemma EqualByParts(a: Nibbles, b: Nibbles, at: nat)
    requires at < |a|
    ensures a == b <==> at < |b| && a[..at] == b[..at] && a[at] == b[at] && a[at + 1..] == b[at + 1..]
  {
    if at < |b| && a[..at] == b[..at] && a[at] == b[at] && a[at + 1..] == b[at + 1..] {
      assert a == a[..at] + [a[at]] + a[at + 1..];
      assert b == b[..at] + [b[at]] + b[at + 1..];
    }
  }

  lemma PrefixByParts(a: Nibbles, b: Nibbles, at: nat)
    requires at <= |a|
    ensures a <= b <==> a[..at] <= b && a[at..] <= b[at..]
    ensures a <= b ==> b[at..][|a| - at..] == b[|a|..]
  {
    if a[..at] <= b && a[at..] <= b[at..] {
      assert a == a[..at] + a[at..];
      assert b == b[..at] + b[at..];
    }
  }

  /** Taking one more nibble. */
  lemma PrefixStep(a: Nibbles, b: Nibbles, at: nat)
    requires at < |a|
    ensures a[..at + 1] <= b <==> a[..at] <= b && at < |b| && a[at] == b[at]
  {
    if a[..at] <= b && at < |b| && a[at] == b[at] {
      assert a[..at + 1] == a[..at] + [a[at]];
      assert b[..at + 1] == b[..at] + [b[at]];
    }
  }

  lemma GetBranch(children: Children, i: nibble, tail: Nibbles)
    ensures Get(Branch(children), [i] + tail) == if i in children then Get(children[i], tail) else Found(None)
  {
    hide PrefixNibs, ToEncodedPath;
    assert ([i] + tail)[1..] == tail;
  }

  lemma GetExtension(path: Path, child: Node, tail: Nibbles)
    ensures Get(Extension(path, child), PrefixNibs(path) + tail) == Get(child, tail)
  {
    hide PrefixNibs, ToEncodedPath;
    assert (PrefixNibs(path) + tail)[|PrefixNibs(path)|..] == tail;
  }

  lemma GetFork(i: nibble, a: Node, j: nibble, b: Node, k: Nibbles)
    requires i != j
    ensures Get(Fork(i, a, j, b), k)
         == if k != [] && k[0] == j then Get(b, k[1..])
            else if k != [] && k[0] == i then Get(a, k[1..])
            else Found(None)
  {
  }

  /** Lookups in the two-way split that replaces a leaf or an extension with path `nibs`. */
  lemma GetSplit(nibs: Nibbles, rest: Node, key: Nibbles, value: Bytes, k: Nibbles)
    requires Lcp(nibs, key) < |nibs| && Lcp(nibs, key) < |key|
    ensures Get(Split(nibs, rest, key, value), k)
         == if k == key then Found(Some(value))
            else if nibs[..Lcp(nibs, key) + 1] <= k then Get(rest, k[Lcp(nibs, key) + 1..])
            else Found(None)
  {
    hide PrefixNibs, ToEncodedPath;
    var common := Lcp(nibs, key);
    var leaf := MakeLeaf(key[common + 1..], value);
    GetExtended(nibs[..common], Fork(nibs[common], rest, key[common], leaf), k);
    EqualByParts(key, k, common);
    PrefixStep(nibs, k, common);
    if nibs[..common] <= k {
      var tail := k[common..];
      GetFork(nibs[common], rest, key[common], leaf, tail);
      if tail != [] {
        assert tail[0] == k[common] && tail[1..] == k[common + 1..];
      }
    }
  }

  /** Insertion sets exactly one key, in every trie, and its flag tells whether the key changed. */
  lemma {:induction false} InsertGet(n: Node, key: Nibbles, value: Bytes, k: Nibbles)
    requires Insert(n, key, value).Done?
    ensures var r := Insert(n, key, value);
      && Get(r.node, k) == (if k == key then Found(Some(value)) else Get(n, k))
      && r.changed == (Get(n, key) != Found(Some(value)))
      && (!r.changed ==> r.node == n)
    decreases n, 1
  {
    hide PrefixNibs, ToEncodedPath;
    match n
    case Null =>
    case Branch(children) => InsertGetBranch(n, key, value, k);
    case Leaf(_, _) => InsertGetLeaf(n, key, value, k);
    case Extension(_, _) => InsertGetExtension(n, key, value, k);
  }

  lemma {:induction false} InsertGetBranch(n: Node, key: Nibbles, value: Bytes, k: Nibbles)
    requires n.Branch? && Insert(n, key, value).Done?
    ensures var r := Insert(n, key, value);
      && Get(r.node, k) == (if k == key then Found(Some(value)) else Get(n, k))
      && r.changed == (Get(n, key) != Found(Some(value)))
      && (!r.changed ==> r.node == n)
    decreases n, 0
  {
    hide PrefixNibs, ToEncodedPath;
    if k != [] {
      EqualByParts(key, k, 0);
    }
    if key[0] in n.children {
      InsertGet(n.children[key[0]], key[1..], value, if k == [] then [] else k[1..]);
    }
  }

  lemma {:induction false} InsertGetLeaf(n: Node, key: Nibbles, value: Bytes, k: Nibbles)
    requires n.Leaf? && Insert(n, key, value).Done?
    ensures var r := Insert(n, key, value);
      && Get(r.node, k) == (if k == key then Found(Some(value)) else Get(n, k))
      && r.changed == (Get(n, key) != Found(Some(value)))
      && (!r.changed ==> r.node == n)
  {
    hide PrefixNibs, ToEncodedPath;
    var nibs := PrefixNibs(n.path);
    var common := Lcp(nibs, key);
    if common < |nibs| {
      var prior := MakeLeaf(nibs[common + 1..], n.value);
      GetSplit(nibs, prior, key, value, k);
      EqualByParts(nibs, k, common);
      PrefixStep(nibs, k, common);
      assert nibs != key;
    } else {
      assert nibs == key;
    }
  }

  lemma {:induction false} InsertGetExtension(n: Node, key: Nibbles, value: Bytes, k: Nibbles)
    requires n.Extension? && Insert(n, key, value).Done?
    ensures var r := Insert(n, key, value);
      && Get(r.node, k) == (if k == key then Found(Some(value)) else Get(n, k))
      && r.changed == (Get(n, key) != Found(Some(value)))
      && (!r.changed ==> r.node == n)
    decreases n, 0
  {
    hide PrefixNibs, ToEncodedPath;
    var nibs := PrefixNibs(n.path);
    var common := Lcp(nibs, key);
    if common == |nibs| {
      assert key == nibs + key[common..];
      if nibs <= k {
        assert k == nibs + k[common..];
        InsertGet(n.child, key[common..], value, k[common..]);
      } else {
        InsertGet(n.child, key[common..], value, []);
      }
    } else {
      assert Insert(n, key, value) == Done(Split(nibs, Extended(nibs[common + 1..], n.child), key, value), true);
      GetSplitExtension(n, key, value, k);
      assert !(nibs <= key);
    }
  }

  lemma GetSplitExtension(n: Node, key: Nibbles, value: Bytes, k: Nibbles)
    requires n.Extension?
    requires var nibs := PrefixNibs(n.path); Lcp(nibs, key) < |nibs| && Lcp(nibs, key) < |key|
    ensures var nibs := PrefixNibs(n.path);
      Get(Split(nibs, Extended(nibs[Lcp(nibs, key) + 1..], n.child), key, value), k)
        == if k == key then Found(Some(value)) else Get(n, k)
  {
    hide PrefixNibs, ToEncodedPath;
    var nibs := PrefixNibs(n.path);
    var at := Lcp(nibs, key) + 1;
    GetSplit(nibs, Extended(nibs[at..], n.child), key, value, k);
    PrefixByParts(nibs, k, at);
    if at <= |k| {
      GetExtended(nibs[at..], n.child, k[at..]);
    }
  }
}
