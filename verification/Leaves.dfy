/** Visiting all leaves with an explicit stack. */
module Leaves {
  import opened Basics
  import opened HexPrefix
  import opened Trie
  import opened NormalForm

  type Visit = (Nibbles, Bytes)

  /** The leaves below a node that is reached by `path`, in the order of the visits: the last slot of
      a branch comes first. */
  function LeavesOf(n: Node, path: Nibbles): seq<Visit>
    decreases n, 17
  {
    match n
    case Null => []
    case Digest(_) => []
    case Branch(_) => LeavesOfSlots(n, path, 16)
    case Leaf(prefix, value) => [(path + PrefixNibs(prefix), value)]
    case Extension(prefix, child) => LeavesOf(child, path + PrefixNibs(prefix))
  }

  /** The leaves below the slots before `upTo`. */
  function LeavesOfSlots(n: Node, path: Nibbles, upTo: nat): seq<Visit>
    requires n.Branch? && upTo <= 16
    decreases n, upTo
  {
    if upTo == 0 then [] else
    var i := (upTo - 1) as nibble;
    (if i in n.children then LeavesOf(n.children[i], path + [i]) else []) + LeavesOfSlots(n, path, upTo - 1)
  }

  type Stack = seq<(Node, Nibbles)>

  /** What is still to be visited: the top of the stack is its last element. */
  function LeavesOfStack(stack: Stack): seq<Visit> {
    if stack == [] then [] else
    var top := stack[|stack| - 1];
    LeavesOf(top.0, top.1) + LeavesOfStack(stack[..|stack| - 1])
  }

  function Size(n: Node): nat
    decreases n, 17
  {
    match n
    case Branch(_) => 1 + SizeOfSlots(n, 16)
    case Extension(_, child) => 1 + Size(child)
    case _ => 1
  }

  function SizeOfSlots(n: Node, upTo: nat): nat
    requires n.Branch? && upTo <= 16
    decreases n, upTo
  {
    if upTo == 0 then 0 else
    var i := (upTo - 1) as nibble;
    (if i in n.children then Size(n.children[i]) else 0) + SizeOfSlots(n, upTo - 1)
  }

  function SizeOfStack(stack: Stack): nat {
    if stack == [] then 0 else Size(stack[|stack| - 1].0) + SizeOfStack(stack[..|stack| - 1])
  }

  /** A path as bytes; a last single nibble becomes the high half of a byte. */
  function Packed(path: Nibbles): Bytes {
    if |path| % 2 == 0 then PackPairs(path) else PackPairs(path + [0])
  }

  function Calls(visits: seq<Visit>): (r: seq<(Bytes, Bytes)>)
    ensures |r| == |visits|
    ensures forall i :: 0 <= i < |r| ==> r[i] == (Packed(visits[i].0), visits[i].1)
  {
    seq(|visits|, i requires 0 <= i < |visits| => (Packed(visits[i].0), visits[i].1))
  }

  lemma PushTop(stack: Stack, n: Node, path: Nibbles)
    ensures LeavesOfStack(stack + [(n, path)]) == LeavesOf(n, path) + LeavesOfStack(stack)
    ensures SizeOfStack(stack + [(n, path)]) == Size(n) + SizeOfStack(stack)
  {
    assert (stack + [(n, path)])[..|stack|] == stack;
  }

  /** Calls back for every leaf: the result is the sequence of calls. */
  method ForEachLeaves(root: Node) returns (calls: seq<(Bytes, Bytes)>)
    ensures calls == Calls(LeavesOf(root, []))
  {
    hide PrefixNibs, LeavesOf, Size, Packed;
    var stack: Stack := [(root, [])];
    calls := [];
    ghost var visits: seq<Visit> := [];
    PushTop([], root, []);
    assert stack == [] + [(root, [])];
    while stack != []
      invariant calls == Calls(visits)
      invariant visits + LeavesOfStack(stack) == LeavesOf(root, [])
      decreases SizeOfStack(stack)
    {
      var (node, path) := stack[|stack| - 1];
      ghost var before := stack;
      stack := stack[..|stack| - 1];
      assert before == stack + [(node, path)];
      PushTop(stack, node, path);
      match node {
        case Null => EmptyNode(node, path);
        case Digest(_) => EmptyNode(node, path);
        case Branch(_) => stack := PushChildren(stack, node, path);
        case Leaf(prefix, value) =>
          LeafNode(node, path);
          var fullPath := path + PrefixNibs(prefix);
          calls := calls + [(Packed(fullPath), value)];
          visits := visits + [(fullPath, value)];
        case Extension(prefix, child) =>
          ExtensionNode(node, path);
          PushTop(stack, child, path + PrefixNibs(prefix));
          stack := stack + [(child, path + PrefixNibs(prefix))];
      }
    }
  }

  lemma EmptyNode(n: Node, path: Nibbles)
    requires n.Null? || n.Digest?
    ensures LeavesOf(n, path) == [] && Size(n) == 1
  {
  }

  lemma LeafNode(n: Node, path: Nibbles)
    requires n.Leaf?
    ensures LeavesOf(n, path) == [(path + PrefixNibs(n.path), n.value)] && Size(n) == 1
  {
  }

  lemma ExtensionNode(n: Node, path: Nibbles)
    requires n.Extension?
    ensures LeavesOf(n, path) == LeavesOf(n.child, path + PrefixNibs(n.path)) && Size(n) == 1 + Size(n.child)
  {
  }

  /** Pushes the children of a branch in the order of their slots. */
  method PushChildren(stack: Stack, node: Node, path: Nibbles) returns (pushed: Stack)
    requires node.Branch?
    ensures LeavesOfStack(pushed) == LeavesOf(node, path) + LeavesOfStack(stack)
    ensures SizeOfStack(pushed) == Size(node) - 1 + SizeOfStack(stack)
  {
    hide PrefixNibs;
    pushed := stack;
    for i := 0 to 16
      invariant LeavesOfStack(pushed) == LeavesOfSlots(node, path, i) + LeavesOfStack(stack)
      invariant SizeOfStack(pushed) == SizeOfSlots(node, i) + SizeOfStack(stack)
    {
      if i as nibble in node.children {
        PushTop(pushed, node.children[i as nibble], path + [i as nibble]);
        pushed := pushed + [(node.children[i as nibble], path + [i as nibble])];
      }
    }
  }

  // The visits are the pairs that lookups report.

  /** A leaf found below `path` has a key that starts with it, and a lookup finds it. */
  lemma {:induction false} VisitedIsPresent(n: Node, path: Nibbles, v: Visit)
    requires v in LeavesOf(n, path)
    ensures path <= v.0 && Get(n, v.0[|path|..]) == Found(Some(v.1))
    decreases n, 17
  {
    hide PrefixNibs;
    match n
    case Branch(_) => VisitedInSlot(n, path, v, 16);
    case Extension(prefix, child) =>
      VisitedIsPresent(child, path + PrefixNibs(prefix), v);
      PathTail(path, PrefixNibs(prefix), v.0);
    case Leaf(prefix, _) => PathTail(path, PrefixNibs(prefix), v.0);
  }

  lemma PathTail(path: Nibbles, more: Nibbles, key: Nibbles)
    requires path + more <= key
    ensures path <= key && more <= key[|path|..]
    ensures key[|path + more|..] == key[|path|..][|more|..]
    ensures key == path + more ==> key[|path|..] == more
  {
    assert path == (path + more)[..|path|];
  }

  lemma {:induction false} VisitedInSlot(n: Node, path: Nibbles, v: Visit, upTo: nat)
    requires n.Branch? && upTo <= 16 && v in LeavesOfSlots(n, path, upTo)
    ensures path < v.0 && v.0[|path|] as int < upTo
    ensures Get(n, v.0[|path|..]) == Found(Some(v.1))
    decreases n, upTo
  {
    hide PrefixNibs;
    var i := (upTo - 1) as nibble;
    if i in n.children && v in LeavesOf(n.children[i], path + [i]) {
      VisitedIsPresent(n.children[i], path + [i], v);
      PathTail(path, [i], v.0);
    } else {
      VisitedInSlot(n, path, v, upTo - 1);
    }
  }

  /** Every key that a lookup finds is visited. */
  lemma {:induction false} PresentIsVisited(n: Node, path: Nibbles, key: Nibbles)
    requires Present(n, key)
    ensures (path + key, Get(n, key).value.value) in LeavesOf(n, path)
    decreases n, 17
  {
    hide PrefixNibs;
    match n
    case Branch(children) =>
      assert (path + [key[0]]) + key[1..] == path + key;
      PresentIsVisited(children[key[0]], path + [key[0]], key[1..]);
      InSlots(n, path, key[0], 16, (path + key, Get(n, key).value.value));
    case Extension(prefix, child) =>
      var nibs := PrefixNibs(prefix);
      PresentIsVisited(child, path + nibs, key[|nibs|..]);
      assert (path + nibs) + key[|nibs|..] == path + key;
    case Leaf(_, _) =>
  }

  lemma {:induction false} InSlots(n: Node, path: Nibbles, i: nibble, upTo: nat, v: Visit)
    requires n.Branch? && i in n.children && i as int < upTo <= 16
    requires v in LeavesOf(n.children[i], path + [i])
    ensures v in LeavesOfSlots(n, path, upTo)
  {
    if (upTo - 1) as nibble != i {
      InSlots(n, path, i, upTo - 1, v);
    }
  }

  /** `a` comes after `b` in the order of the nibbles; neither is a prefix of the other. */
  predicate Larger(a: Nibbles, b: Nibbles) {
    exists i :: 0 <= i < |a| && i < |b| && a[..i] == b[..i] && a[i] > b[i]
  }

  predicate Descending(visits: seq<Visit>) {
    forall i, j :: 0 <= i < j < |visits| ==> Larger(visits[i].0, visits[j].0)
  }

  /** The keys are visited from the largest one down, and so none twice. */
  lemma {:induction false} VisitsDescend(n: Node, path: Nibbles)
    ensures Descending(LeavesOf(n, path))
    decreases n, 17
  {
    hide PrefixNibs;
    match n
    case Branch(_) => SlotsDescend(n, path, 16);
    case Extension(prefix, child) => VisitsDescend(child, path + PrefixNibs(prefix));
    case _ =>
  }

  lemma {:induction false} SlotsDescend(n: Node, path: Nibbles, upTo: nat)
    requires n.Branch? && upTo <= 16
    ensures Descending(LeavesOfSlots(n, path, upTo))
    decreases n, upTo
  {
    hide PrefixNibs, LeavesOf;
    if upTo > 0 {
      var i := (upTo - 1) as nibble;
      SlotsDescend(n, path, upTo - 1);
      if i in n.children {
        VisitsDescend(n.children[i], path + [i]);
        var a, b := LeavesOf(n.children[i], path + [i]), LeavesOfSlots(n, path, upTo - 1);
        forall v, w | v in a && w in b
          ensures Larger(v.0, w.0)
        {
          VisitedIsPresent(n.children[i], path + [i], v);
          VisitedInSlot(n, path, w, upTo - 1);
          assert v.0[|path|] == (path + [i])[|path|];
          assert v.0[..|path|] == path == w.0[..|path|];
        }
        DescendingUnion(a, b);
      }
    }
  }

  lemma DescendingUnion(a: seq<Visit>, b: seq<Visit>)
    requires Descending(a) && Descending(b)
    requires forall v, w :: v in a && w in b ==> Larger(v.0, w.0)
    ensures Descending(a + b)
  {
    hide Larger;
    forall i, j | 0 <= i < j < |a + b|
      ensures Larger((a + b)[i].0, (a + b)[j].0)
    {
      if i < |a| <= j {
        assert a[i] in a && b[j - |a|] in b;
      }
    }
  }

  /** The bytes of a path have its nibbles, and a zero after the last single one. */
  lemma PackedNibs(path: Nibbles)
    ensures ToNibs(Packed(path)) == if |path| % 2 == 0 then path else path + [0]
  {
  }

  ghost predicate WholeBytes(n: Node) {
    forall k :: Present(n, k) ==> |k| % 2 == 0
  }

  /** The calls are exactly the pairs that lookups by byte keys report, each once, in every trie in
      which all keys are whole bytes. */
  lemma CallsAreTheEntries(n: Node)
    requires WholeBytes(n)
    ensures var calls := Calls(LeavesOf(n, []));
      && (forall key, value :: (key, value) in calls <==> Get(n, ToNibs(key)) == Found(Some(value)))
      && (forall i, j :: 0 <= i < j < |calls| ==> calls[i].0 != calls[j].0)
  {
    hide PrefixNibs, LeavesOf, PackPairs, Get;
    var visits := LeavesOf(n, []);
    var calls := Calls(visits);
    VisitsDescend(n, []);
    forall i | 0 <= i < |visits|
      ensures Get(n, visits[i].0) == Found(Some(visits[i].1)) && ToNibs(calls[i].0) == visits[i].0
    {
      VisitedIsPresent(n, [], visits[i]);
      assert visits[i].0[0..] == visits[i].0;
      assert Present(n, visits[i].0);
    }
    forall key, value | Get(n, ToNibs(key)) == Found(Some(value))
      ensures (key, value) in calls
    {
      PresentIsVisited(n, [], ToNibs(key));
      assert [] + ToNibs(key) == ToNibs(key);
      var i :| 0 <= i < |visits| && visits[i] == (ToNibs(key), value);
      NibsInjective(calls[i].0, key);
      assert calls[i] == (key, value);
    }
  }
}
