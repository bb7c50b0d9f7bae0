/** Orphans: the nodes that a deletion pulls up, and how they are found in the proofs of the state
    after the block. */
module Orphans {
  import opened Basics
  import opened HexPrefix
  import opened Trie
  import opened NormalForm
  import opened InsertCorrect
  import opened SparseDelete

  function NibsOf(n: Node): Nibbles {
    match n
    case Leaf(path, _) => PrefixNibs(path)
    case Extension(path, _) => PrefixNibs(path)
    case _ => []
  }

  /** The node with the first `i` nibbles of its path cut off. */
  function Shortened(n: Node, i: nat): Node
    requires (n.Leaf? || n.Extension?) && i <= |NibsOf(n)|
  {
    if n.Leaf? then MakeLeaf(NibsOf(n)[i..], n.value) else MakeExtension(NibsOf(n)[i..], n.child)
  }

  /** All shortened versions of a leaf or an extension, the longest first. */
  method ShortenNodePath(n: Node) returns (res: seq<Node>)
    ensures !n.Leaf? && !n.Extension? ==> res == []
    ensures n.Leaf? || n.Extension? ==>
      |res| == |NibsOf(n)| + 1 && forall i :: 0 <= i <= |NibsOf(n)| ==> res[i] == Shortened(n, i)
  {
    hide PrefixNibs, ToEncodedPath;
    res := [];
    var nibs := NibsOf(n);
    if n.Leaf? || n.Extension? {
      for i := 0 to |nibs| + 1
        invariant |res| == i && forall j :: 0 <= j < i ==> res[j] == Shortened(n, j)
      {
        res := res + [Shortened(n, i)];
      }
    }
  }

  /** `n` is one of the shortened versions of `whole`. */
  ghost predicate IsShortened(n: Node, whole: Node) {
    (whole.Leaf? || whole.Extension?) && exists i :: 0 <= i <= |NibsOf(whole)| && n == Shortened(whole, i)
  }

  /** The child that is left alone when deleting `key` empties the other slots of a branch. */
  ghost function OrphanOf(n: Node, key: Nibbles): Option<Node> {
    match n
    case Branch(children) =>
      if key != [] && key[0] in children then
        var r := Delete(children[key[0]], key[1..]);
        if r.Done? && r.changed && r.node.Null? then
          if exists j: nibble :: Only(children - {key[0]}, j) then
            var j: nibble :| Only(children - {key[0]}, j);
            (assert j in (children - {key[0]}).Keys; Some(children[j]))
          else None
        else OrphanOf(children[key[0]], key[1..])
      else None
    case Extension(path, child) =>
      if PrefixNibs(path) <= key then OrphanOf(child, key[|PrefixNibs(path)|..]) else None
    case _ => None
  }

  /** The node at which the lookup of a key ends. */
  function PathEnd(n: Node, key: Nibbles): Node {
    match n
    case Branch(children) => if key != [] && key[0] in children then PathEnd(children[key[0]], key[1..]) else n
    case Extension(path, child) =>
      if PrefixNibs(path) <= key then PathEnd(child, key[|PrefixNibs(path)|..]) else n
    case _ => n
  }

  /** A lookup fails just where its way ends at a digest, and names it. */
  lemma {:induction false} DigestIsMet(n: Node, key: Nibbles)
    ensures Get(n, key).Unresolved? <==> PathEnd(n, key).Digest?
    ensures PathEnd(n, key).Digest? ==> Get(n, key) == Unresolved(NodeNotResolved(PathEnd(n, key).hash))
  {
    hide PrefixNibs;
    match n
    case Branch(children) => if key != [] && key[0] in children { DigestIsMet(children[key[0]], key[1..]); }
    case Extension(path, child) => if PrefixNibs(path) <= key { DigestIsMet(child, key[|PrefixNibs(path)|..]); }
    case _ =>
  }

  /** `whole` is `orphan` with a longer path. */
  predicate Extends(whole: Node, orphan: Node) {
    || (whole.Leaf? && orphan.Leaf? && whole.value == orphan.value && Suffix(NibsOf(orphan), NibsOf(whole)))
    || (whole.Extension? && orphan.Extension? && whole.child == orphan.child && Suffix(NibsOf(orphan), NibsOf(whole)))
  }

  predicate Suffix(a: Nibbles, b: Nibbles) {
    |a| <= |b| && b[|b| - |a|..] == a
  }

  lemma ExtendsIsShortened(whole: Node, orphan: Node)
    requires Extends(whole, orphan) && Proper(orphan)
    ensures IsShortened(orphan, whole)
  {
    hide PrefixNibs, ToEncodedPath;
    assert orphan == Shortened(whole, |NibsOf(whole)| - |NibsOf(orphan)|);
  }

  /** After the deletion the lookup of the key ends at the orphan, with its longer path. */
  lemma {:induction false} OrphanEndsThePath(n: Node, key: Nibbles)
    requires Normal(n) && Delete(n, key).Done?
    requires OrphanOf(n, key).Some? && (OrphanOf(n, key).value.Leaf? || OrphanOf(n, key).value.Extension?)
    ensures Delete(n, key).changed && Extends(PathEnd(Delete(n, key).node, key), OrphanOf(n, key).value)
    ensures Proper(OrphanOf(n, key).value)
    ensures n.Branch? && Delete(n, key).node.Extension? ==> !(NibsOf(Delete(n, key).node) <= key)
    decreases n, 1
  {
    hide PrefixNibs, ToEncodedPath, Canonical, Merge, Shrink;
    if n.Extension? {
      OrphanBelowExtension(n, key);
    } else {
      var r := Delete(n.children[key[0]], key[1..]);
      if r.Done? && r.changed && r.node.Null? {
        OrphanHere(n, key);
      } else {
        OrphanEndsThePath(n.children[key[0]], key[1..]);
        ShrinkReplaced(n, key[0], r.node);
      }
    }
  }

  lemma OrphanHere(n: Node, key: Nibbles)
    requires n.Branch? && Normal(n) && key != [] && key[0] in n.children
    requires var r := Delete(n.children[key[0]], key[1..]); r.Done? && r.changed && r.node.Null?
    requires OrphanOf(n, key).Some? && (OrphanOf(n, key).value.Leaf? || OrphanOf(n, key).value.Extension?)
    ensures Delete(n, key).Done? && Delete(n, key).changed
    ensures var m := Delete(n, key).node;
      && Extends(m, OrphanOf(n, key).value) && PathEnd(m, key) == m
      && (m.Extension? ==> !(NibsOf(m) <= key))
    ensures Proper(OrphanOf(n, key).value)
  {
    hide PrefixNibs, ToEncodedPath, Canonical, Shrink;
    var rest := n.children - {key[0]};
    var j: nibble :| Only(rest, j);
    assert j in rest.Keys;
    assert OrphanOf(n, key) == Some(n.children[j]);
    ShrinkOnly(rest, j);
    var orphan := n.children[j];
    assert Proper(orphan);
    assert ([j] + NibsOf(orphan))[1..] == NibsOf(orphan);
  }

  lemma {:induction false} OrphanBelowExtension(n: Node, key: Nibbles)
    requires n.Extension? && Normal(n) && Delete(n, key).Done?
    requires OrphanOf(n, key).Some? && (OrphanOf(n, key).value.Leaf? || OrphanOf(n, key).value.Extension?)
    ensures Delete(n, key).changed && Extends(PathEnd(Delete(n, key).node, key), OrphanOf(n, key).value)
    ensures Proper(OrphanOf(n, key).value)
    decreases n, 0
  {
    hide PrefixNibs, ToEncodedPath, Canonical, Merge, Shrink, Extends;
    var nibs := PrefixNibs(n.path);
    var tail := key[|nibs|..];
    assert key == nibs + tail;
    assert Normal(n.child);
    OrphanEndsThePath(n.child, tail);
    MergeEnd(n.path, Delete(n.child, tail).node, tail, OrphanOf(n, key).value);
  }

  lemma MergeEnd(path: Path, child: Node, tail: Nibbles, orphan: Node)
    requires Extends(PathEnd(child, tail), orphan)
    requires child.Extension? ==> !(NibsOf(child) <= tail)
    ensures Extends(PathEnd(Merge(path, child), PrefixNibs(path) + tail), orphan)
  {
    hide PrefixNibs, ToEncodedPath, Extends;
    var nibs := PrefixNibs(path);
    assert (nibs + tail)[|nibs|..] == tail;
    if child.Leaf? || child.Extension? {
      MergedIsLonger(path, child, orphan);
      PrefixAfter(nibs, NibsOf(child), tail);
    }
  }

  lemma PrefixAfter(nibs: Nibbles, p: Nibbles, tail: Nibbles)
    ensures nibs + p <= nibs + tail <==> p <= tail
  {
    PrefixByParts(nibs + p, nibs + tail, |nibs|);
    assert (nibs + p)[|nibs|..] == p && (nibs + p)[..|nibs|] == nibs && (nibs + tail)[|nibs|..] == tail;
  }

  /** Pulled up, a leaf or an extension has a longer path. */
  lemma MergedIsLonger(path: Path, child: Node, orphan: Node)
    requires (child.Leaf? || child.Extension?) && Extends(child, orphan)
    ensures Extends(Merge(path, child), orphan) && NibsOf(Merge(path, child)) == PrefixNibs(path) + NibsOf(child)
  {
    hide PrefixNibs, ToEncodedPath;
    var nibs, p, o := PrefixNibs(path), NibsOf(child), NibsOf(orphan);
    assert (nibs + p)[|nibs + p| - |o|..] == p[|p| - |o|..];
  }
}
