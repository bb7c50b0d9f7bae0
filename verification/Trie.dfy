/** The sparse Merkle Patricia trie as a value: lookups, insertion and deletion. */
module Trie {
  import opened Basics
  import opened HexPrefix

  datatype Node =
    | Null
    | Branch(children: Children)
    | Leaf(path: Path, value: Bytes)
    | Extension(path: Path, child: Node)
    | Digest(hash: Hash)

  /** The sixteen child slots of a branch: the domain is the set of occupied slots. */
  type Children = map<nibble, Node>

  datatype Error = NodeNotResolved(hash: Hash) | ValueInBranch

  datatype Lookup = Found(value: Option<Bytes>) | Unresolved(error: Error)

  /** How a mutation ends: with the new trie and the flag it returns, with an error that leaves the
      trie as it was, or with a panic. */
  datatype Outcome = Done(node: Node, changed: bool) | Failed(error: Error) | Panicked

  function MakeLeaf(nibs: Nibbles, value: Bytes): Node {
    Leaf(ToEncodedPath(nibs, true), value)
  }

  function MakeExtension(nibs: Nibbles, child: Node): Node {
    Extension(ToEncodedPath(nibs, false), child)
  }

  /** An extension over `child`, or `child` itself when there is no common path. */
  function Extended(nibs: Nibbles, child: Node): Node {
    if |nibs| > 0 then MakeExtension(nibs, child) else child
  }

  /** The length of the longest common prefix. */
  function Lcp(a: Nibbles, b: Nibbles): (n: nat)
    ensures n <= |a| && n <= |b|
    ensures a[..n] == b[..n]
    ensures n < |a| && n < |b| ==> a[n] != b[n]
  {
    if a == [] || b == [] || a[0] != b[0] then 0 else
    var m := Lcp(a[1..], b[1..]);
    assert a[..m + 1] == [a[0]] + a[1..][..m];
    assert b[..m + 1] == [b[0]] + b[1..][..m];
    m + 1
  }

  method CommonPrefix(a: Nibbles, b: Nibbles) returns (n: nat)
    ensures n == Lcp(a, b)
  {
    var shorter := if |a| < |b| then |a| else |b|;
    for i := 0 to shorter
      invariant a[..i] == b[..i] && i <= Lcp(a, b)
    {
      if a[i] != b[i] {
        assert Lcp(a, b) > i ==> a[..Lcp(a, b)][i] == b[..Lcp(a, b)][i];
        return i;
      }
      assert a[..i + 1] == a[..i] + [a[i]] && b[..i + 1] == b[..i] + [b[i]];
    }
    n := shorter;
  }

  /** A branch with two children, in different slots. */
  function Fork(i: nibble, a: Node, j: nibble, b: Node): Node {
    Branch(map[i := a][j := b])
  }

  /** The node that takes the place of one with path `nibs` where `key` leaves that path; what was
      below the fork is now `rest`. */
  function Split(nibs: Nibbles, rest: Node, key: Nibbles, value: Bytes): Node
    requires Lcp(nibs, key) < |nibs| && Lcp(nibs, key) < |key|
  {
    var common := Lcp(nibs, key);
    Extended(nibs[..common], Fork(nibs[common], rest, key[common], MakeLeaf(key[common + 1..], value)))
  }

  function Get(n: Node, key: Nibbles): Lookup {
    match n
    case Null => Found(None)
    case Branch(children) =>
      if key == [] then Found(None) else
      if key[0] in children then Get(children[key[0]], key[1..]) else Found(None)
    case Leaf(path, value) =>
      if PrefixNibs(path) == key then Found(Some(value)) else Found(None)
    case Extension(path, child) =>
      var nibs := PrefixNibs(path);
      if nibs <= key then Get(child, key[|nibs|..]) else Found(None)
    case Digest(hash) => Unresolved(NodeNotResolved(hash))
  }

  function Insert(n: Node, key: Nibbles, value: Bytes): Outcome {
    match n
    case Null => Done(MakeLeaf(key, value), true)
    case Branch(children) =>
      if key == [] then Failed(ValueInBranch) else
      var i := key[0];
      if i in children then
        (match Insert(children[i], key[1..], value)
         case Done(child, changed) =>
           if changed then Done(Branch(children[i := child]), true) else Done(n, false)
         case other => other)
      else Done(Branch(children[i := MakeLeaf(key[1..], value)]), true)
    case Leaf(path, oldValue) =>
      var nibs := PrefixNibs(path);
      var common := Lcp(nibs, key);
      if common == |nibs| && common == |key| then
        if oldValue == value then Done(n, false) else Done(Leaf(path, value), true)
      else if common == |nibs| || common == |key| then
        Failed(ValueInBranch)
      else
        Done(Split(nibs, MakeLeaf(nibs[common + 1..], oldValue), key, value), true)
    case Extension(path, child) =>
      var nibs := PrefixNibs(path);
      var common := Lcp(nibs, key);
      if common == |nibs| then
        (match Insert(child, key[common..], value)
         case Done(child', changed) =>
           if changed then Done(Extension(path, child'), true) else Done(n, false)
         case other => other)
      else if common == |key| then
        Failed(ValueInBranch)
      else
        Done(Split(nibs, Extended(nibs[common + 1..], child), key, value), true)
    case Digest(hash) => Failed(NodeNotResolved(hash))
  }

  /** The first occupied slot at or after `from`, 16 when there is none. */
  function NextChild<T>(children: map<nibble, T>, from: nat): (i: nat)
    requires from <= 16
    ensures from <= i <= 16
    ensures i < 16 ==> i as nibble in children
    ensures forall j: nibble :: from <= j as int < i ==> j !in children
    decreases 16 - from
  {
    if from == 16 || from as nibble in children then from else NextChild(children, from + 1)
  }

  /** The order of the slots is all that matters to the search. */
  lemma {:induction false} SameNextChild<S, T>(s: map<nibble, S>, f: map<nibble, T>, from: nat)
    requires s.Keys == f.Keys && from <= 16
    ensures NextChild(s, from) == NextChild(f, from)
    decreases 16 - from
  {
    if from < 16 && from as nibble !in s {
      assert from as nibble !in f.Keys;
      SameNextChild(s, f, from + 1);
    } else {
      assert from < 16 ==> from as nibble in f.Keys;
    }
  }

  /** What a branch turns into when a single child is left in slot `i`. */
  function Collapse(i: nibble, orphan: Node): (r: Outcome)
    ensures !r.Failed? && (r.Done? ==> r.changed)
  {
    match orphan
    case Leaf(path, value) => Done(MakeLeaf([i] + PrefixNibs(path), value), true)
    case Extension(path, child) => Done(MakeExtension([i] + PrefixNibs(path), child), true)
    case Branch(_) => Done(MakeExtension([i], orphan), true)
    case Digest(_) => Done(MakeExtension([i], orphan), true)
    case Null => Panicked
  }

  /** A branch after one of its children was changed or removed. */
  function Shrink(children: Children): (r: Outcome)
    ensures !r.Failed? && (r.Done? ==> r.changed)
  {
    var first := NextChild(children, 0);
    if first == 16 then Panicked
    else if NextChild(children, first + 1) == 16 then
      Collapse(first as nibble, children[first as nibble])
    else Done(Branch(children), true)
  }

  /** An extension after its child was changed. */
  function Merge(path: Path, child: Node): Node {
    match child
    case Null => Null
    case Leaf(tail, value) => MakeLeaf(PrefixNibs(path) + PrefixNibs(tail), value)
    case Extension(tail, grandchild) =>
      MakeExtension(PrefixNibs(path) + PrefixNibs(tail), grandchild)
    case Branch(_) => Extension(path, child)
    case Digest(_) => Extension(path, child)
  }

  /** The children of a branch after the one in slot `i` was deleted from. */
  function Rest(children: Children, i: nibble, child: Node): Children {
    if child.Null? then children - {i} else children[i := child]
  }

  function Delete(n: Node, key: Nibbles): Outcome {
    match n
    case Null => Done(n, false)
    case Branch(children) =>
      if key == [] then Failed(ValueInBranch) else
      var i := key[0];
      if i in children then
        (match Delete(children[i], key[1..])
         case Done(child, changed) =>
           if changed then Shrink(Rest(children, i, child))
           else Done(n, false)
         case other => other)
      else Done(n, false)
    case Leaf(path, _) =>
      if PrefixNibs(path) == key then Done(Null, true) else Done(n, false)
    case Extension(path, child) =>
      var nibs := PrefixNibs(path);
      if nibs <= key then
        (match Delete(child, key[|nibs|..])
         case Done(child', changed) =>
           if changed then Done(Merge(path, child'), true) else Done(n, false)
         case other => other)
      else Done(n, false)
    case Digest(hash) => Failed(NodeNotResolved(hash))
  }
}
