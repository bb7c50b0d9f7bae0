/** Orphans are recovered: with the orphan in the node store, deletion from the sparse trie ends in
    the root hash of the full one. */
module OrphanRecovery {
  import opened Basics
  import opened HexPrefix
  import opened Rlp
  import opened Trie
  import opened NormalForm
  import opened DeleteCorrect
  import opened Encoding
  import opened Decoding
  import opened RoundTrip
  import opened Resolution
  import opened Proofs
  import opened Orphans

  // The node store.

  datatype Parsed = Nodes(nodes: seq<Node>) | Unreadable | ParsePanic

  function ParseProof(proof: seq<Bytes>): Parsed {
    if proof == [] then Nodes([]) else
    match Decode(proof[0])
    case Ok(node) =>
      (match ParseProof(proof[1..])
       case Nodes(rest) => Nodes([node] + rest)
       case other => other)
    case DecodePanic => ParsePanic
    case _ => Unreadable
  }

  datatype Inclusion = Included | NotIncluded | InclusionPanic

  /** Whether a proof shows that a key is absent. */
  function IsNotIncluded(K: Keccak, key: Nibbles, nodes: seq<Node>): Inclusion {
    match JoinAll(K, nodes)
    case Rejected(_) => InclusionPanic
    case Joined(trie) =>
      match Get(trie, key)
      case Unresolved(_) => InclusionPanic
      case Found(value) => if value.None? then NotIncluded else Included
  }

  function FileAll(K: Keccak, store: Store, nodes: seq<Node>): Store
    decreases |nodes|
  {
    if nodes == [] then store else FileAll(K, File(K, store, nodes[0]), nodes[1..])
  }

  /** The shortened versions of a node, the longest first. */
  function AllShortened(n: Node): seq<Node> {
    if n.Leaf? || n.Extension? then
      seq(|NibsOf(n)| + 1, i requires 0 <= i <= |NibsOf(n)| => Shortened(n, i))
    else []
  }

  datatype Added = Added(store: Store) | NotDecoded | AddPanic

  /** What `AddOrphanedLeafs` makes of a proof. */
  function AfterOrphans(K: Keccak, key: Bytes, proof: seq<Bytes>, store: Store): Added {
    if proof == [] then Added(store) else
    match ParseProof(proof)
    case Unreadable => NotDecoded
    case ParsePanic => AddPanic
    case Nodes(nodes) =>
      match IsNotIncluded(K, ToNibs(K(key)), nodes)
      case InclusionPanic => AddPanic
      case Included => Added(store)
      case NotIncluded =>
        if nodes == [] then AddPanic else Added(FileAll(K, store, AllShortened(nodes[|nodes| - 1])))
  }

  /** Files all shortened versions of the last node of an exclusion proof. */
  method AddOrphanedLeafs(K: Keccak, key: Bytes, proof: seq<Bytes>, store: Store) returns (r: Added)
    ensures r == AfterOrphans(K, key, proof, store)
  {
    hide JoinAll, Get, FileAll, Decode, Shortened, PrefixNibs, ReferenceOf;
    if proof == [] {
      return Added(store);
    }
    var parsed := ParseProof(proof);
    if parsed.Unreadable? {
      return NotDecoded;
    }
    if parsed.ParsePanic? {
      return AddPanic;
    }
    var nodes := parsed.nodes;
    match IsNotIncluded(K, ToNibs(K(key)), nodes) {
      case InclusionPanic => r := AddPanic;
      case Included => r := Added(store);
      case NotIncluded =>
        if nodes == [] {
          return AddPanic;
        }
        var leaf := nodes[|nodes| - 1];
        var shortened := ShortenNodePath(leaf);
        assert shortened == AllShortened(leaf);
        var store' := FileEach(K, store, shortened);
        r := Added(store');
    }
  }

  method FileEach(K: Keccak, store: Store, nodes: seq<Node>) returns (r: Store)
    ensures r == FileAll(K, store, nodes)
  {
    hide ReferenceOf;
    r := store;
    for i := 0 to |nodes|
      invariant FileAll(K, r, nodes[i..]) == FileAll(K, store, nodes)
    {
      assert nodes[i..][1..] == nodes[i + 1..];
      r := File(K, r, nodes[i]);
    }
  }

  lemma {:induction false} FileAllHas(K: Keccak, store: Store, nodes: seq<Node>)
    ensures var r := FileAll(K, store, nodes);
      && (Keyed(K, store) ==> Keyed(K, r))
      && (forall reference :: reference in store ==> reference in r)
      && (forall n :: n in nodes ==> ReferenceOf(K, n) in r)
    decreases |nodes|
  {
    hide ReferenceOf;
    if nodes != [] {
      FileAllHas(K, File(K, store, nodes[0]), nodes[1..]);
      assert nodes == [nodes[0]] + nodes[1..];
      assert ReferenceOf(K, nodes[0]) in File(K, store, nodes[0]);
    }
  }

  // What is filed, exactly.

  predicate NoneHas(K: Keccak, nodes: seq<Node>, r: Reference) {
    forall i :: 0 <= i < |nodes| ==> ReferenceOf(K, nodes[i]) != r
  }

  /** The last node with the reference. */
  predicate LastWith(K: Keccak, nodes: seq<Node>, r: Reference, i: nat) {
    i < |nodes| && ReferenceOf(K, nodes[i]) == r && forall j :: i < j < |nodes| ==> ReferenceOf(K, nodes[j]) != r
  }

  /** The nodes are filed under their references, the later ones over the earlier ones; nothing else
      has changed. */
  ghost predicate AreFiled(K: Keccak, store: Store, nodes: seq<Node>, filed: Store) {
    forall r ::
      && (NoneHas(K, nodes, r) ==> (r in filed <==> r in store) && (r in filed ==> filed[r] == store[r]))
      && (forall i: nat :: LastWith(K, nodes, r, i) ==> r in filed && filed[r] == nodes[i])
  }

  lemma {:induction false} FilesOne(K: Keccak, store: Store, nodes: seq<Node>, r: Reference)
    ensures var filed := FileAll(K, store, nodes);
      && (NoneHas(K, nodes, r) ==> (r in filed <==> r in store) && (r in filed ==> filed[r] == store[r]))
      && (forall i: nat :: LastWith(K, nodes, r, i) ==> r in filed && filed[r] == nodes[i])
    decreases |nodes|
  {
    hide ReferenceOf, NoneHas;
    if nodes == [] {
      WithNone(K, r);
    } else {
      FilesOne(K, File(K, store, nodes[0]), nodes[1..], r);
      WithFirst(K, nodes, r);
      forall i: nat | LastWith(K, nodes, r, i)
        ensures r in FileAll(K, store, nodes) && FileAll(K, store, nodes)[r] == nodes[i]
      {
        if i > 0 {
          assert LastWith(K, nodes[1..], r, i - 1) && nodes[1..][i - 1] == nodes[i];
        } else {
          assert LastWith(K, nodes, r, 0);
        }
      }
    }
  }

  lemma WithNone(K: Keccak, r: Reference)
    ensures NoneHas(K, [], r) && forall i: nat :: !LastWith(K, [], r, i)
  {
  }

  lemma WithFirst(K: Keccak, nodes: seq<Node>, r: Reference)
    requires nodes != []
    ensures NoneHas(K, nodes, r) <==> ReferenceOf(K, nodes[0]) != r && NoneHas(K, nodes[1..], r)
    ensures LastWith(K, nodes, r, 0) <==> ReferenceOf(K, nodes[0]) == r && NoneHas(K, nodes[1..], r)
    ensures forall i: nat :: i > 0 ==> (LastWith(K, nodes, r, i) <==> LastWith(K, nodes[1..], r, i - 1))
  {
    hide ReferenceOf;
    var rest := nodes[1..];
    assert forall i :: 0 < i < |nodes| ==> nodes[i] == rest[i - 1];
    assert forall i :: 0 <= i < |rest| ==> rest[i] == nodes[i + 1];
    forall i: nat | i > 0
      ensures LastWith(K, nodes, r, i) <==> LastWith(K, rest, r, i - 1)
    {
      if LastWith(K, rest, r, i - 1) {
        assert forall j :: i < j < |nodes| ==> nodes[j] == rest[j - 1];
      }
    }
  }

  lemma FilesExactly(K: Keccak, store: Store, nodes: seq<Node>)
    ensures AreFiled(K, store, nodes, FileAll(K, store, nodes))
  {
    hide NoneHas, LastWith, FileAll;
    forall r {
      FilesOne(K, store, nodes, r);
    }
  }

  /** Everything up to there is a node, and this is none. */
  predicate BreaksAt(proof: seq<Bytes>, i: nat) {
    i < |proof| && !Decode(proof[i]).Ok? && forall j :: 0 <= j < i ==> Decode(proof[j]).Ok?
  }

  /** A proof is readable just when all its nodes are; the first one that is not decides what happens. */
  lemma {:induction false} ParsesExactly(proof: seq<Bytes>)
    ensures var r := ParseProof(proof);
      && (r.Nodes? <==> forall i :: 0 <= i < |proof| ==> Decode(proof[i]).Ok?)
      && (r.Nodes? ==> |r.nodes| == |proof| && forall i :: 0 <= i < |proof| ==> Decode(proof[i]) == Ok(r.nodes[i]))
      && (!r.Nodes? ==> exists i: nat :: BreaksAt(proof, i) && (r.ParsePanic? <==> Decode(proof[i]) == DecodePanic))
  {
    hide Decode;
    if proof != [] {
      var rest := proof[1..];
      ParsesExactly(rest);
      assert proof == [proof[0]] + rest;
      if !Decode(proof[0]).Ok? {
        assert BreaksAt(proof, 0);
      } else if !ParseProof(rest).Nodes? {
        var i: nat :| BreaksAt(rest, i) && (ParseProof(rest).ParsePanic? <==> Decode(rest[i]) == DecodePanic);
        BreaksLater(proof, i);
      }
    }
  }

  lemma BreaksLater(proof: seq<Bytes>, i: nat)
    requires proof != [] && Decode(proof[0]).Ok? && BreaksAt(proof[1..], i)
    ensures BreaksAt(proof, i + 1) && proof[i + 1] == proof[1..][i]
  {
    hide Decode;
    forall j | 0 < j < i + 1
      ensures Decode(proof[j]).Ok?
    {
      assert proof[j] == proof[1..][j - 1];
    }
  }

  /** All bytes are nodes, and every node holds the next one by its digest. */
  ghost predicate IsChain(K: Keccak, proof: seq<Bytes>) {
    ParseProof(proof).Nodes? && AllLinked(K, ParseProof(proof).nodes, 0)
  }

  /** A proof that can be followed to the end: the key is there, or it is not. */
  ghost predicate SaysThat(K: Keccak, proof: seq<Bytes>, key: Hash, there: bool) {
    && IsChain(K, proof) && proof != [] && JoinAll(K, ParseProof(proof).nodes).Joined?
    && var r := Get(JoinAll(K, ParseProof(proof).nodes).trie, ToNibs(key));
       r.Found? && (r.value.Some? <==> there)
  }

  /** What is done with a proof from after the block. Nothing at all, or a proof that the key is there,
      changes nothing; for a proof that the key is not there, just the shortened versions of its last node
      are filed; bytes that cannot be read are an error, and everything else panics. */
  lemma OrphansExactly(K: Keccak, key: Bytes, proof: seq<Bytes>, store: Store)
    ensures var r := AfterOrphans(K, key, proof, store);
      if proof == [] || SaysThat(K, proof, K(key), true) then r == Added(store)
      else if SaysThat(K, proof, K(key), false) then r.Added? && FilesShortened(K, proof, store, r.store)
      else if ParseProof(proof).Unreadable? then r == NotDecoded
      else r == AddPanic
  {
    hide ReferenceOf, Decode, Get, Join, FileAll, AreFiled, AllShortened, AreShortened, AllLinked, ToNibs, ParseProof;
    ParsesExactly(proof);
    if proof != [] && ParseProof(proof).Nodes? {
      var nodes := ParseProof(proof).nodes;
      JoinIsCorrect(K, nodes, 0);
      var last := nodes[|nodes| - 1];
      FilesExactly(K, store, AllShortened(last));
      ShortenedExactly(last);
    }
  }

  /** The last node of a proof; an empty trie when there is none. */
  function LastNode(proof: seq<Bytes>): Node {
    match ParseProof(proof)
    case Nodes(nodes) => if nodes == [] then Null else nodes[|nodes| - 1]
    case _ => Null
  }

  /** The shortened versions of the last node of the proof are filed. */
  ghost predicate FilesShortened(K: Keccak, proof: seq<Bytes>, store: Store, filed: Store) {
    exists shortened :: AreShortened(shortened, LastNode(proof)) && AreFiled(K, store, shortened, filed)
  }

  /** All versions of a leaf or an extension with a shorter path, the node itself included; none of
      any other node. */
  ghost predicate AreShortened(nodes: seq<Node>, whole: Node) {
    forall n :: n in nodes <==> IsShorter(n, whole)
  }

  predicate IsShorter(n: Node, whole: Node) {
    Extends(whole, n) && n == if n.Leaf? then MakeLeaf(NibsOf(n), n.value) else MakeExtension(NibsOf(n), n.child)
  }

  lemma ShortenedExactly(whole: Node)
    ensures AreShortened(AllShortened(whole), whole)
  {
    hide IsShorter, Shortened, NibsOf;
    var all := AllShortened(whole);
    if whole.Leaf? || whole.Extension? {
      forall i | 0 <= i <= |NibsOf(whole)|
        ensures IsShorter(Shortened(whole, i), whole)
      {
        ShortenedIsShorter(whole, i);
      }
      forall n | IsShorter(n, whole)
        ensures n in all
      {
        ShorterIsShortened(n, whole);
        assert all[|NibsOf(whole)| - |NibsOf(n)|] == n;
      }
    } else {
      forall n
        ensures !IsShorter(n, whole)
      {
        ShorterIsShortened(n, whole);
      }
    }
  }

  lemma ShortenedIsShorter(whole: Node, i: nat)
    requires (whole.Leaf? || whole.Extension?) && i <= |NibsOf(whole)|
    ensures IsShorter(Shortened(whole, i), whole)
  {
    hide PrefixNibs, ToEncodedPath;
    assert NibsOf(Shortened(whole, i)) == NibsOf(whole)[i..];
  }

  lemma ShorterIsShortened(n: Node, whole: Node)
    ensures IsShorter(n, whole) ==>
      && (whole.Leaf? || whole.Extension?) && |NibsOf(n)| <= |NibsOf(whole)|
      && n == Shortened(whole, |NibsOf(whole)| - |NibsOf(n)|)
  {
    hide PrefixNibs, ToEncodedPath;
  }

  // The raw proof of a key.

  /** The proof as it comes over the wire: the encodings of the nodes. */
  function RawProof(K: Keccak, f: Node, key: Nibbles): (r: seq<Bytes>)
    ensures |r| > 0
    decreases f, 1
  {
    [Encode(K, f)] + RawBelow(K, f, key)
  }

  function RawBelow(K: Keccak, f: Node, key: Nibbles): seq<Bytes>
    decreases f, 0
  {
    match f
    case Branch(children) =>
      if key != [] && key[0] in children && ReferenceOf(K, children[key[0]]).ByDigest?
      then RawProof(K, children[key[0]], key[1..]) else []
    case Extension(path, child) =>
      if PrefixNibs(path) <= key && ReferenceOf(K, child).ByDigest?
      then RawProof(K, child, key[|PrefixNibs(path)|..]) else []
    case _ => []
  }

  lemma {:induction false} RawProofParses(K: Keccak, f: Node, key: Nibbles)
    requires Writable(f)
    ensures ParseProof(RawProof(K, f, key)) == Nodes(ProofOf(K, f, key))
  {
    hide ReferenceOf, Encode, Decode, PrefixNibs, Shallow;
    DecodeEncode(K, f);
    var rest := RawBelow(K, f, key);
    assert RawProof(K, f, key)[1..] == rest;
    assert ParseProof([]) == Nodes([]);
    match f
    case Branch(children) =>
      if rest != [] {
        RawProofParses(K, children[key[0]], key[1..]);
      }
    case Extension(path, child) =>
      if rest != [] {
        RawProofParses(K, child, key[|PrefixNibs(path)|..]);
      }
    case _ =>
  }

  // The end of the path in the proof.

  lemma {:induction false} EndOfInline(K: Keccak, n: Node, key: Nibbles)
    requires ReferenceOf(K, n).Inline?
    ensures ReferenceOf(K, PathEnd(n, key)).Inline?
  {
    if n.Branch? && key != [] && key[0] in n.children {
      SlotInside(K, n, key[0], 0);
      InlineChild(K, n, n.children[key[0]]);
      EndOfInline(K, n.children[key[0]], key[1..]);
    }
    if n.Extension? && PrefixNibs(n.path) <= key {
      InlineChild(K, n, n.child);
      EndOfInline(K, n.child, key[|PrefixNibs(n.path)|..]);
    }
  }

  /** The lookup of the key does not get past this node. */
  predicate EndsHere(n: Node, key: Nibbles) {
    match n
    case Branch(children) => key == [] || key[0] !in children
    case Extension(path, _) => !(PrefixNibs(path) <= key)
    case _ => true
  }

  /** The node where a lookup ends is itself in the proof: it is the root, or held by digest. */
  predicate EndIsProofNode(K: Keccak, n: Node, key: Nibbles) {
    EndsHere(n, key) || ReferenceOf(K, PathEnd(n, key)).ByDigest?
  }

  /** The node where the lookup ends is then the last one of the proof. */
  lemma {:induction false} ProofEndsThere(K: Keccak, f: Node, key: Nibbles)
    requires EndIsProofNode(K, f, key)
    ensures var p := ProofOf(K, f, key); p[|p| - 1] == Shallow(K, PathEnd(f, key))
  {
    hide ReferenceOf, PrefixNibs, Shallow;
    if EndsHere(f, key) {
    } else if f.Branch? {
      var c := f.children[key[0]];
      if ReferenceOf(K, c).Inline? {
        EndOfInline(K, c, key[1..]);
      } else {
        ProofEndsThere(K, c, key[1..]);
      }
    } else {
      var tail := key[|PrefixNibs(f.path)|..];
      if ReferenceOf(K, f.child).Inline? {
        EndOfInline(K, f.child, tail);
      } else {
        ProofEndsThere(K, f.child, tail);
      }
    }
  }

  // Short nodes stay short.

  lemma LengthOfLengthGrows(a: nat, b: nat)
    requires a <= b
    ensures LengthOfLength(a) <= LengthOfLength(b)
  {
    BigEndianGrows(a, b);
    if a >= 56 {
      assert |BigEndian(a)| >= 1;
    }
  }

  lemma {:induction false} BigEndianGrows(a: nat, b: nat)
    requires a <= b
    ensures |BigEndian(a)| <= |BigEndian(b)|
  {
    if a != 0 {
      BigEndianGrows(a / 0x100, b / 0x100);
    }
  }

  lemma PathLengthGrows(a: Nibbles, b: Nibbles, isLeaf: bool)
    requires |a| <= |b|
    ensures StringLength(ToEncodedPath(a, isLeaf)) <= StringLength(ToEncodedPath(b, isLeaf))
  {
    hide ToEncodedPath, PrefixNibs;
    LengthOfLengthGrows(|ToEncodedPath(a, isLeaf)|, |ToEncodedPath(b, isLeaf)|);
  }

  /** A node with a shorter path has no longer encoding. */
  lemma ShorterEncoding(K: Keccak, orphan: Node, whole: Node)
    requires Extends(whole, orphan) && Proper(whole) && Proper(orphan)
    ensures |Encode(K, orphan)| <= |Encode(K, whole)|
  {
    hide ReferenceOf, PrefixNibs, ToEncodedPath, StringLength, LengthOfLength;
    LengthIsExact(K, orphan);
    LengthIsExact(K, whole);
    PathLengthGrows(NibsOf(orphan), NibsOf(whole), orphan.Leaf?);
    LengthOfLengthGrows(PayloadLength(K, orphan), PayloadLength(K, whole));
  }

  // The orphan of a deletion is in the store, or in line.

  /** The shortened versions of what is read back are the shortened versions, as read back. */
  lemma ShortenedShallow(K: Keccak, whole: Node, orphan: Node)
    requires IsShortened(orphan, whole)
    ensures Shallow(K, orphan) in AllShortened(Shallow(K, whole))
  {
    hide PrefixNibs, ToEncodedPath, ReferenceOf, Stub;
    var i :| 0 <= i <= |NibsOf(whole)| && orphan == Shortened(whole, i);
    var s := Shallow(K, whole);
    assert AllShortened(s)[i] == Shortened(s, i) == Shallow(K, orphan);
  }

  /** Orphan recovery: the exclusion proof for a deleted key, taken from the trie after the deletion,
      puts the reference of the orphan into the store if the orphan's node is part of that proof;
      otherwise the orphan is held in line and is never missing. */
  lemma OrphanIsKnown(K: Keccak, f: Node, key: Bytes, store: Store)
    requires var k := ToNibs(K(key));
      && Normal(f) && Delete(f, k).Done? && OrphanOf(f, k).Some?
      && (OrphanOf(f, k).value.Leaf? || OrphanOf(f, k).value.Extension?)
      && Writable(Delete(f, k).node) && NoTwin(K, Delete(f, k).node, k)
    ensures var k := ToNibs(K(key));
      var f', orphan := Delete(f, k).node, OrphanOf(f, k).value;
      var r := AfterOrphans(K, key, RawProof(K, f', k), store);
      && r.Added?
      && (EndIsProofNode(K, f', k) ==> ReferenceOf(K, orphan) in r.store)
      && (!EndIsProofNode(K, f', k) ==> ReferenceOf(K, orphan).Inline?)
  {
    hide PrefixNibs, ToEncodedPath, ReferenceOf, Encode, Delete, Get, NoTwin, Canonical, FileAll, ProofOf,
      AllShortened, Shallow, OrphanOf, PathEnd, ToNibs, Writable, Join, ParseProof;
    var k := ToNibs(K(key));
    var f', orphan := Delete(f, k).node, OrphanOf(f, k).value;
    DeleteIsCorrect(f, k);
    RawProofParses(K, f', k);
    var nodes := ProofOf(K, f', k);
    assert nodes[0..] == nodes;
    ProofAnswers(K, f', k, nodes, 0);
    assert IsNotIncluded(K, k, nodes) == NotIncluded;
    OrphanEndsThePath(f, k);
    var end := PathEnd(f', k);
    ExtendsIsShortened(end, orphan);
    if EndIsProofNode(K, f', k) {
      ProofEndsThere(K, f', k);
      ShortenedShallow(K, end, orphan);
      ShallowEncodes(K, orphan);
      FileAllHas(K, store, AllShortened(Shallow(K, end)));
    } else {
      EndIsProper(f', k);
      ShorterEncoding(K, orphan, end);
      assert ReferenceOf(K, end).Inline?;
      InlineIsShort(K, end, orphan);
    }
  }

  lemma InlineIsShort(K: Keccak, whole: Node, orphan: Node)
    requires ReferenceOf(K, whole).Inline? && (whole.Leaf? || whole.Extension?) && !orphan.Digest?
    requires |Encode(K, orphan)| <= |Encode(K, whole)|
    ensures ReferenceOf(K, orphan).Inline?
  {
    hide Encode;
  }

  lemma {:induction false} EndIsProper(n: Node, key: Nibbles)
    requires WellFormed(n)
    ensures WellFormed(PathEnd(n, key))
  {
    hide PrefixNibs, Canonical;
    match n
    case Branch(children) => if key != [] && key[0] in children { EndIsProper(children[key[0]], key[1..]); }
    case Extension(path, child) =>
      if PrefixNibs(path) <= key { EndIsProper(child, key[|PrefixNibs(path)|..]); }
    case _ =>
  }
}
