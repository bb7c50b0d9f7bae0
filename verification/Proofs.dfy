/** Putting a trie together from the nodes of an EIP-1186 proof. */
module Proofs {
  import opened Basics
  import opened HexPrefix
  import opened Trie
  import opened NormalForm
  import opened Encoding
  import opened Decoding
  import opened Sparse

  datatype ProofError =
    | NodeNotFoundByHash(index: nat)
    | NodeHasInvalidSuccessor(index: nat)
    | NodeCannotHaveChildren(index: nat)

  datatype FromProof = Joined(trie: Node) | Rejected(error: ProofError)

  /** The first slot at or after `from` that holds just the digest, 16 when there is none. */
  function FindDigest(children: Children, hash: Hash, from: nat): (i: nat)
    requires from <= 16
    ensures from <= i <= 16
    ensures i < 16 ==> i as nibble in children && children[i as nibble] == Digest(hash)
    ensures forall j: nibble :: from <= j as int < i ==> !(j in children && children[j] == Digest(hash))
    decreases 16 - from
  {
    if from == 16 || (from as nibble in children && children[from as nibble] == Digest(hash)) then from
    else FindDigest(children, hash, from + 1)
  }

  /** Puts `next` in the place where proof node number `i` refers to it. */
  function Splice(K: Keccak, i: nat, node: Node, next: Node): FromProof {
    match ReferenceOf(K, next)
    case Inline(_) => Rejected(NodeNotFoundByHash(i + 1))
    case ByDigest(hash) =>
      match node
      case Branch(children) =>
        var slot := FindDigest(children, hash, 0);
        if slot < 16 then Joined(Branch(children[slot as nibble := next]))
        else Rejected(NodeHasInvalidSuccessor(i))
      case Extension(path, child) =>
        if child == Digest(hash) then Joined(Extension(path, next)) else Rejected(NodeHasInvalidSuccessor(i))
      case _ => Rejected(NodeCannotHaveChildren(i))
  }

  /** The trie of the proof nodes from number `i` on. */
  function Join(K: Keccak, nodes: seq<Node>, i: nat): FromProof
    requires i < |nodes|
    decreases |nodes| - i
  {
    if i + 1 == |nodes| then Joined(nodes[i]) else
    match Join(K, nodes, i + 1)
    case Joined(next) => Splice(K, i, nodes[i], next)
    case rejected => rejected
  }

  /** The whole proof; no nodes at all make the empty trie. */
  function JoinAll(K: Keccak, nodes: seq<Node>): FromProof {
    if nodes == [] then Joined(Null) else Join(K, nodes, 0)
  }

  /** Works from the last node back to the root. */
  method MptFromProof(K: Keccak, nodes: seq<Node>) returns (r: FromProof)
    ensures r == JoinAll(K, nodes)
  {
    var next: Option<Node> := None;
    for i := |nodes| downto 0
      invariant i == |nodes| ==> next == None
      invariant i < |nodes| ==> next.Some? && Join(K, nodes, i) == Joined(next.value)
    {
      if next.None? {
        next := Some(nodes[i]);
      } else {
        var joined := Splice(K, i, nodes[i], next.value);
        if joined.Rejected? {
          RejectedFrom(K, nodes, 0, i);
          return joined;
        }
        next := Some(joined.trie);
      }
    }
    r := Joined(if next.Some? then next.value else Null);
  }

  lemma {:induction false} RejectedFrom(K: Keccak, nodes: seq<Node>, i: nat, at: nat)
    requires i <= at < |nodes| && Join(K, nodes, at).Rejected?
    ensures Join(K, nodes, i) == Join(K, nodes, at)
    decreases at - i
  {
    if i < at {
      RejectedFrom(K, nodes, i + 1, at);
    }
  }

  /** Proof node `i` holds the next one by its digest. */
  predicate Linked(K: Keccak, nodes: seq<Node>, i: nat)
    requires i + 1 < |nodes|
  {
    match ReferenceOf(K, nodes[i + 1])
    case Inline(_) => false
    case ByDigest(hash) =>
      match nodes[i]
      case Branch(children) => exists j :: j in children && children[j] == Digest(hash)
      case Extension(_, child) => child == Digest(hash)
      case _ => false
  }

  lemma SpliceLinks(K: Keccak, nodes: seq<Node>, i: nat, next: Node)
    requires i + 1 < |nodes| && ReferenceOf(K, next) == ReferenceOf(K, nodes[i + 1])
    ensures Linked(K, nodes, i) <==> Splice(K, i, nodes[i], next).Joined?
    ensures !Linked(K, nodes, i) ==> Splice(K, i, nodes[i], next) == Rejected(
      if ReferenceOf(K, nodes[i + 1]).Inline? then NodeNotFoundByHash(i + 1)
      else if nodes[i].Branch? || nodes[i].Extension? then NodeHasInvalidSuccessor(i)
      else NodeCannotHaveChildren(i))
  {
    hide ReferenceOf;
  }

  /** Splicing a node in at its own digest leaves the reference of its parent as it was. */
  lemma SplicePrunes(K: Keccak, i: nat, node: Node, next: Node)
    requires Splice(K, i, node, next).Joined?
    ensures Prunes(K, node, Splice(K, i, node, next).trie)
  {
    hide ReferenceOf;
    if node.Branch? {
      forall j | j in node.children
        ensures Prunes(K, node.children[j], Splice(K, i, node, next).trie.children[j])
      {
        PrunesReflexive(K, node.children[j]);
      }
    }
  }

  predicate AllLinked(K: Keccak, nodes: seq<Node>, from: nat) {
    forall i :: from <= i && i + 1 < |nodes| ==> Linked(K, nodes, i)
  }

  /** A proof is accepted exactly when every node holds the next one by digest; the trie then has the
      reference of the first node, which it completes. A rejected proof is rejected for its last
      broken link. */
  lemma {:induction false} JoinIsCorrect(K: Keccak, nodes: seq<Node>, i: nat)
    requires i < |nodes|
    ensures Join(K, nodes, i).Joined? <==> AllLinked(K, nodes, i)
    ensures var r := Join(K, nodes, i);
      r.Joined? ==>
        && Prunes(K, nodes[i], r.trie)
        && ReferenceOf(K, r.trie) == ReferenceOf(K, nodes[i])
        && HashOf(K, r.trie) == HashOf(K, nodes[i])
    ensures var r := Join(K, nodes, i);
      r.Rejected? ==> exists j: nat :: (
        && i <= j && j + 1 < |nodes| && !Linked(K, nodes, j) && AllLinked(K, nodes, j + 1)
        && r.error == if ReferenceOf(K, nodes[j + 1]).Inline? then NodeNotFoundByHash(j + 1)
                      else if nodes[j].Branch? || nodes[j].Extension? then NodeHasInvalidSuccessor(j)
                      else NodeCannotHaveChildren(j))
    decreases |nodes| - i
  {
    hide ReferenceOf, HashOf, Linked, Splice;
    if i + 1 == |nodes| {
      PrunesReflexive(K, nodes[i]);
    } else {
      JoinIsCorrect(K, nodes, i + 1);
      var rest := Join(K, nodes, i + 1);
      if rest.Joined? {
        SpliceLinks(K, nodes, i, rest.trie);
        if Linked(K, nodes, i) {
          SplicePrunes(K, i, nodes[i], rest.trie);
          PrunesReference(K, nodes[i], Join(K, nodes, i).trie);
          PrunesHash(K, nodes[i], Join(K, nodes, i).trie);
        }
      }
    }
  }

  // The proof of a key.

  /** The nodes of the proof for `key`, as they are read back: the root, then every node on the way
      that is held by digest. */
  function ProofOf(K: Keccak, f: Node, key: Nibbles): (r: seq<Node>)
    ensures |r| > 0 && r[0] == Shallow(K, f)
    decreases f, 1
  {
    [Shallow(K, f)] + ProofBelow(K, f, key)
  }

  function ProofBelow(K: Keccak, f: Node, key: Nibbles): seq<Node>
    decreases f, 0
  {
    match f
    case Branch(children) =>
      if key != [] && key[0] in children && ReferenceOf(K, children[key[0]]).ByDigest?
      then ProofOf(K, children[key[0]], key[1..]) else []
    case Extension(path, child) =>
      if PrefixNibs(path) <= key && ReferenceOf(K, child).ByDigest?
      then ProofOf(K, child, key[|PrefixNibs(path)|..]) else []
    case _ => []
  }

  lemma {:induction false} SlotInside(K: Keccak, n: Node, i: nibble, from: nat)
    requires n.Branch? && from <= i as int
    ensures |EncodeSlot(K, n, i)| <= |EncodeSlots(K, n, from)|
    decreases 16 - from
  {
    hide EncodeSlot;
    if from < i as int {
      SlotInside(K, n, i, from + 1);
    }
  }

  /** A node that is held in line holds its own children in line: nothing of it is left out. */
  lemma {:induction false} InlineIsWhole(K: Keccak, n: Node)
    requires ReferenceOf(K, n).Inline?
    ensures Shallow(K, n) == n
  {
    match n
    case Branch(children) =>
      forall i | i in children
        ensures Stub(K, children[i]) == children[i]
      {
        SlotInside(K, n, i, 0);
        InlineChild(K, n, children[i]);
        InlineIsWhole(K, children[i]);
      }
      assert Shallow(K, n).children == children;
    case Extension(_, child) =>
      InlineChild(K, n, child);
      InlineIsWhole(K, child);
    case _ =>
  }

  lemma InlineChild(K: Keccak, n: Node, child: Node)
    requires n.Branch? || n.Extension?
    requires |Encode(K, n)| < 32 && |WriteReference(ReferenceOf(K, child))| <= |Payload(K, n)|
    ensures ReferenceOf(K, child).Inline?
  {
    hide ReferenceOf, Payload;
  }

  /** On the way to `key`, no branch has an earlier child that is held by the same digest. */
  ghost predicate NoTwin(K: Keccak, f: Node, key: Nibbles) {
    match f
    case Branch(children) =>
      key != [] && key[0] in children && ReferenceOf(K, children[key[0]]).ByDigest? ==>
        && (forall j :: j in children && j < key[0] ==> ReferenceOf(K, children[j]) != ReferenceOf(K, children[key[0]]))
        && NoTwin(K, children[key[0]], key[1..])
    case Extension(path, child) =>
      PrefixNibs(path) <= key ==> NoTwin(K, child, key[|PrefixNibs(path)|..])
    case _ => true
  }

  /** The stub of a child shows the digest by which it is held. */
  lemma StubShowsDigest(K: Keccak, n: Node, hash: Hash)
    ensures Stub(K, n) == Digest(hash) <==> ReferenceOf(K, n) == ByDigest(hash)
  {
    if n.Digest? {
      DigestReference(K, n);
    }
  }

  /** The proof of a key of a full trie is always accepted. The trie it makes answers for the key as
      the full trie does if and only if no branch on the way has an earlier twin of the child that
      leads to the key; if there is one, the answer is an error. */
  lemma {:induction false} ProofAnswers(K: Keccak, f: Node, key: Nibbles, p: seq<Node>, i: nat)
    requires DigestFree(f) && i < |p| && p[i..] == ProofOf(K, f, key)
    ensures Join(K, p, i).Joined?
    ensures ReferenceOf(K, Join(K, p, i).trie) == ReferenceOf(K, f)
    ensures NoTwin(K, f, key) ==> Prunes(K, Join(K, p, i).trie, f) && Get(Join(K, p, i).trie, key) == Get(f, key)
    ensures !NoTwin(K, f, key) ==> Get(Join(K, p, i).trie, key).Unresolved?
    decreases f
  {
    hide ReferenceOf, PrefixNibs, Shallow, Stub, Prunes, Get, NoTwin, Splice;
    assert p[i] == Shallow(K, f);
    if ProofBelow(K, f, key) == [] {
      LastNodeAnswers(K, f, key);
      ShallowPrunes(K, f);
      PrunesReference(K, Shallow(K, f), f);
      assert i + 1 == |p|;
    } else if f.Branch? {
      var c := f.children[key[0]];
      assert p[i + 1..] == p[i..][1..];
      ProofAnswers(K, c, key[1..], p, i + 1);
      SpliceBranch(K, f, key, i, Join(K, p, i + 1).trie);
    } else {
      var c := f.child;
      assert p[i + 1..] == p[i..][1..];
      ProofAnswers(K, c, key[|PrefixNibs(f.path)|..], p, i + 1);
      SpliceExtension(K, f, key, i, Join(K, p, i + 1).trie);
    }
  }

  lemma LastNodeAnswers(K: Keccak, f: Node, key: Nibbles)
    requires DigestFree(f) && ProofBelow(K, f, key) == []
    ensures Get(Shallow(K, f), key) == Get(f, key) && NoTwin(K, f, key)
  {
    hide ReferenceOf, PrefixNibs;
    match f
    case Branch(children) =>
      if key != [] && key[0] in children {
        InlineIsWhole(K, children[key[0]]);
      }
    case Extension(path, child) =>
      if PrefixNibs(path) <= key {
        InlineIsWhole(K, child);
        InlineNoTwin(K, child, key[|PrefixNibs(path)|..]);
      }
    case _ =>
  }

  lemma {:induction false} InlineNoTwin(K: Keccak, n: Node, key: Nibbles)
    requires ReferenceOf(K, n).Inline?
    ensures NoTwin(K, n, key)
  {
    if n.Branch? && key != [] && key[0] in n.children {
      SlotInside(K, n, key[0], 0);
      InlineChild(K, n, n.children[key[0]]);
    }
    if n.Extension? && PrefixNibs(n.path) <= key {
      InlineChild(K, n, n.child);
      InlineNoTwin(K, n.child, key[|PrefixNibs(n.path)|..]);
    }
  }

  lemma SpliceBranch(K: Keccak, f: Node, key: Nibbles, at: nat, next: Node)
    requires f.Branch? && key != [] && key[0] in f.children && DigestFree(f)
    requires var c := f.children[key[0]];
      && ReferenceOf(K, c).ByDigest? && ReferenceOf(K, next) == ReferenceOf(K, c)
      && (NoTwin(K, c, key[1..]) ==> Prunes(K, next, c) && Get(next, key[1..]) == Get(c, key[1..]))
      && (!NoTwin(K, c, key[1..]) ==> Get(next, key[1..]).Unresolved?)
    ensures var r := Splice(K, at, Shallow(K, f), next);
      && r.Joined? && ReferenceOf(K, r.trie) == ReferenceOf(K, f)
      && (NoTwin(K, f, key) ==> Prunes(K, r.trie, f) && Get(r.trie, key) == Get(f, key))
      && (!NoTwin(K, f, key) ==> Get(r.trie, key).Unresolved?)
  {
    hide ReferenceOf, PrefixNibs, Stub;
    var c := f.children[key[0]];
    var hash := ReferenceOf(K, c).hash;
    var s := Shallow(K, f);
    forall j | j in f.children
      ensures s.children[j] == Stub(K, f.children[j])
      ensures s.children[j] == Digest(hash) <==> ReferenceOf(K, f.children[j]) == ReferenceOf(K, c)
      ensures Prunes(K, s.children[j], f.children[j])
    {
      StubShowsDigest(K, f.children[j], hash);
      ShallowPrunes(K, f.children[j]);
    }
    assert s.children.Keys == f.children.Keys;
    var slot := FindDigest(s.children, hash, 0);
    assert slot <= key[0] as int;
    SplicePrunes(K, at, s, next);
    var t := Splice(K, at, s, next).trie;
    PrunesReference(K, s, t);
    ShallowPrunes(K, f);
    PrunesReference(K, s, f);
    if slot == key[0] as int {
      assert NoTwin(K, f, key) <==> NoTwin(K, c, key[1..]);
    } else {
      assert !NoTwin(K, f, key);
    }
  }

  lemma SpliceExtension(K: Keccak, f: Node, key: Nibbles, at: nat, next: Node)
    requires f.Extension? && PrefixNibs(f.path) <= key && DigestFree(f)
    requires var c, tail := f.child, key[|PrefixNibs(f.path)|..];
      && ReferenceOf(K, c).ByDigest? && ReferenceOf(K, next) == ReferenceOf(K, c)
      && (NoTwin(K, c, tail) ==> Prunes(K, next, c) && Get(next, tail) == Get(c, tail))
      && (!NoTwin(K, c, tail) ==> Get(next, tail).Unresolved?)
    ensures var r := Splice(K, at, Shallow(K, f), next);
      && r.Joined? && ReferenceOf(K, r.trie) == ReferenceOf(K, f)
      && (NoTwin(K, f, key) ==> Prunes(K, r.trie, f) && Get(r.trie, key) == Get(f, key))
      && (!NoTwin(K, f, key) ==> Get(r.trie, key).Unresolved?)
  {
    hide ReferenceOf, PrefixNibs, Stub;
    var s := Shallow(K, f);
    StubShowsDigest(K, f.child, ReferenceOf(K, f.child).hash);
    SplicePrunes(K, at, s, next);
    PrunesReference(K, s, Splice(K, at, s, next).trie);
    ShallowPrunes(K, f);
    PrunesReference(K, s, f);
  }
}
