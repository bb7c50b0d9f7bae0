/** The normal form is canonical: a trie, and so its root hash, depends only on the key/value map
    it stands for, not on the insertions and deletions that led to it. */
module History {
  import opened Basics
  import opened HexPrefix
  import opened Trie
  import opened NormalForm
  import opened InsertCorrect
  import opened DeleteCorrect

  ghost predicate SameLookups(a: Node, b: Node) {
    forall k :: Get(a, k) == Get(b, k)
  }

  lemma SameLookupsBelow(a: Node, b: Node, i: nibble)
    requires a.Branch? && b.Branch? && SameLookups(a, b) && i in a.children && i in b.children
    ensures SameLookups(a.children[i], b.children[i])
  {
    forall k
      ensures Get(a.children[i], k) == Get(b.children[i], k)
    {
      GetBranch(a.children, i, k);
      GetBranch(b.children, i, k);
    }
  }

  lemma SameSlots(a: Node, b: Node)
    requires a.Branch? && b.Branch? && Normal(a) && Normal(b) && SameLookups(a, b)
    ensures a.children.Keys <= b.children.Keys
  {
    hide PrefixNibs, ToEncodedPath, Canonical;
    forall i | i in a.children
      ensures i in b.children
    {
      var k := SomeKey(a.children[i]);
      GetBranch(a.children, i, k);
      GetBranch(b.children, i, k);
    }
  }

  /** No branch holds the same keys as a leaf or an extension. */
  lemma BranchDiffers(a: Node, b: Node)
    requires Normal(a) && Normal(b) && SameLookups(a, b) && a.Branch?
    ensures b.Branch?
  {
    hide PrefixNibs, ToEncodedPath, Canonical;
    var x, y := TwoKeys(a);
    assert Present(b, x) && Present(b, y);
  }

  /** A leaf has one key, an extension at least two. */
  lemma LeafDiffers(a: Node, b: Node)
    requires a.Leaf? && b.Extension? && Normal(b)
    ensures !SameLookups(a, b)
  {
    hide PrefixNibs, ToEncodedPath, Canonical;
    assert Proper(b.child) && DigestFree(b.child);
    var x, y := TwoKeys(b.child);
    GetExtension(b.path, b.child, x);
    GetExtension(b.path, b.child, y);
    RelatedAfter(PrefixNibs(b.path), x, y);
    assert Present(b, PrefixNibs(b.path) + x) && Present(b, PrefixNibs(b.path) + y);
  }

  /** A path that two forking keys share ends before they fork. */
  lemma CommonPath(p: Nibbles, x: Nibbles, y: Nibbles, q: Nibbles)
    requires ForkAfter([], x, y) && q <= p + x && q <= p + y
    ensures q <= p
  {
    assert (p + x)[|p|] == x[0] && (p + y)[|p|] == y[0];
  }

  /** The path of an extension is fixed by its keys: it cannot be longer than the common prefix. */
  lemma ShorterPath(a: Node, b: Node)
    requires Normal(a) && Normal(b) && SameLookups(a, b) && a.Extension? && b.Extension?
    ensures PrefixNibs(b.path) <= PrefixNibs(a.path)
  {
    hide PrefixNibs, ToEncodedPath, Canonical;
    assert Proper(a.child) && DigestFree(a.child);
    var x, y := TwoKeys(a.child);
    GetExtension(a.path, a.child, x);
    GetExtension(a.path, a.child, y);
    var p := PrefixNibs(a.path);
    assert Present(b, p + x) && Present(b, p + y);
    CommonPath(p, x, y, PrefixNibs(b.path));
  }

  lemma SameLookupsUnder(a: Node, b: Node)
    requires a.Extension? && b.Extension? && PrefixNibs(a.path) == PrefixNibs(b.path) && SameLookups(a, b)
    ensures SameLookups(a.child, b.child)
  {
    forall k
      ensures Get(a.child, k) == Get(b.child, k)
    {
      GetExtension(a.path, a.child, k);
      GetExtension(b.path, b.child, k);
    }
  }

  /** Two tries in normal form with the same key/value map are equal. */
  lemma {:induction false} NormalFormIsUnique(a: Node, b: Node)
    requires Normal(a) && Normal(b) && SameLookups(a, b)
    ensures a == b
  {
    hide PrefixNibs, ToEncodedPath, Canonical;
    if a.Null? || b.Null? {
      if !a.Null? {
        var k := SomeKey(a);
      }
      if !b.Null? {
        var k := SomeKey(b);
      }
    } else if a.Branch? || b.Branch? {
      if a.Branch? { BranchDiffers(a, b); } else { BranchDiffers(b, a); }
      SameSlots(a, b);
      SameSlots(b, a);
      forall i | i in a.children
        ensures a.children[i] == b.children[i]
      {
        SameLookupsBelow(a, b, i);
        NormalFormIsUnique(a.children[i], b.children[i]);
      }
      assert a.children == b.children;
    } else if a.Leaf? && b.Leaf? {
      assert Get(b, PrefixNibs(a.path)) == Found(Some(a.value));
      SamePath(a.path, b.path, true);
    } else if a.Extension? && b.Extension? {
      ShorterPath(a, b);
      ShorterPath(b, a);
      SamePath(a.path, b.path, false);
      SameLookupsUnder(a, b);
      NormalFormIsUnique(a.child, b.child);
    } else if a.Leaf? {
      LeafDiffers(a, b);
    } else {
      LeafDiffers(b, a);
    }
  }

  lemma SamePath(p: Path, q: Path, isLeaf: bool)
    requires Canonical(p, isLeaf) && Canonical(q, isLeaf) && PrefixNibs(p) == PrefixNibs(q)
    ensures p == q
  {
  }

  // Runs of operations and the map they compute.

  datatype Op = Put(key: Nibbles, value: Bytes) | Remove(key: Nibbles)

  /** A value to insert is never empty. */
  predicate ValidOps(ops: seq<Op>) {
    forall op :: op in ops && op.Put? ==> op.value != []
  }

  /** One operation on a trie; a failing one leaves the trie as it was. */
  function Step(n: Node, op: Op): Node {
    var r := match op
      case Put(key, value) => Insert(n, key, value)
      case Remove(key) => Delete(n, key);
    if r.Done? then r.node else n
  }

  function Run(ops: seq<Op>): Node {
    if ops == [] then Null else Step(Run(ops[..|ops| - 1]), ops[|ops| - 1])
  }

  /** The same operation on a map in which no key is a prefix of another one. */
  ghost function StepMap(m: map<Nibbles, Bytes>, op: Op): map<Nibbles, Bytes> {
    match op
    case Put(key, value) =>
      if exists k :: k in m && k != key && Related(k, key) then m else m[key := value]
    case Remove(key) => m - {key}
  }

  ghost function RunMap(ops: seq<Op>): map<Nibbles, Bytes> {
    if ops == [] then map[] else StepMap(RunMap(ops[..|ops| - 1]), ops[|ops| - 1])
  }

  ghost predicate Represents(n: Node, m: map<Nibbles, Bytes>) {
    forall k :: Get(n, k) == Found(if k in m then Some(m[k]) else None)
  }

  /** No key of a trie is a proper prefix of another one. */
  lemma {:induction false} KeysAreUnrelated(n: Node, a: Nibbles, b: Nibbles)
    requires Present(n, a) && Present(n, b) && a <= b
    ensures a == b
  {
    hide PrefixNibs;
    match n
    case Branch(children) =>
      assert a == [a[0]] + a[1..] && b == [b[0]] + b[1..];
      KeysAreUnrelated(children[a[0]], a[1..], b[1..]);
    case Leaf(_, _) =>
    case Extension(path, child) =>
      var nibs := PrefixNibs(path);
      assert a == nibs + a[|nibs|..] && b == nibs + b[|nibs|..];
      KeysAreUnrelated(child, a[|nibs|..], b[|nibs|..]);
  }

  lemma StepRefines(n: Node, m: map<Nibbles, Bytes>, op: Op)
    requires Normal(n) && Represents(n, m) && (op.Put? ==> op.value != [])
    ensures Normal(Step(n, op)) && Represents(Step(n, op), StepMap(m, op))
  {
    hide PrefixNibs, ToEncodedPath, Canonical, Insert, Delete, Get;
    assert forall k :: Present(n, k) <==> k in m;
    match op
    case Put(key, value) =>
      InsertIsCorrect(n, key, value);
      assert Conflicts(n, key) <==> exists k :: k in m && k != key && Related(k, key);
    case Remove(key) =>
      DeleteIsCorrect(n, key);
      if a, b :| Present(n, a) && Present(n, b) && ForkAfter(key, a, b) {
        if key in m {
          KeysAreUnrelated(n, key, a);
        }
        assert m - {key} == m;
      }
  }

  /** Every run of operations computes the map that the operations describe, in normal form. */
  lemma {:induction false} RunRefines(ops: seq<Op>)
    requires ValidOps(ops)
    ensures Normal(Run(ops)) && Represents(Run(ops), RunMap(ops))
  {
    if ops != [] {
      RunRefines(ops[..|ops| - 1]);
      StepRefines(Run(ops[..|ops| - 1]), RunMap(ops[..|ops| - 1]), ops[|ops| - 1]);
    }
  }

  /** Two runs that end in the same map end in the same trie. */
  lemma HistoryDoesNotMatter(ops: seq<Op>, ops': seq<Op>)
    requires ValidOps(ops) && ValidOps(ops') && RunMap(ops) == RunMap(ops')
    ensures Run(ops) == Run(ops')
  {
    RunRefines(ops);
    RunRefines(ops');
    assert SameLookups(Run(ops), Run(ops'));
    NormalFormIsUnique(Run(ops), Run(ops'));
  }
}
