/** The RLP encoding of a node, the reference by which its parent holds it, and its hash. */
module Encoding {
  import opened Basics
  import opened Rlp
  import opened Trie

  /** A short encoding is held in line, a long one by its digest. */
  datatype Reference = Inline(bytes: Bytes) | ByDigest(hash: Hash)

  function ReferenceOf(K: Keccak, n: Node): Reference
    decreases n, 4
  {
    match n
    case Null => Inline([EMPTY_STRING_CODE])
    case Digest(hash) => ByDigest(hash)
    case _ =>
      var encoded := Encode(K, n);
      if |encoded| < 32 then Inline(encoded) else ByDigest(K(encoded))
  }

  /** A reference as it is written into the parent's encoding. */
  function WriteReference(r: Reference): Bytes {
    match r
    case Inline(bytes) => bytes
    case ByDigest(hash) => [EMPTY_STRING_CODE + 32] + hash
  }

  function ReferenceLength(K: Keccak, n: Node): nat
    decreases n, 5
  {
    match ReferenceOf(K, n)
    case Inline(bytes) => |bytes|
    case ByDigest(_) => 1 + 32
  }

  /** The length of the RLP payload, as the program computes it. */
  function PayloadLength(K: Keccak, n: Node): nat
    decreases n, 2
  {
    match n
    case Null => 0
    case Branch(_) => 1 + SlotsLength(K, n, 0)
    case Leaf(path, value) => StringLength(path) + StringLength(value)
    case Extension(path, child) => StringLength(path) + ReferenceLength(K, child)
    case Digest(_) => 32
  }

  function SlotsLength(K: Keccak, n: Node, from: nat): nat
    requires n.Branch? && from <= 16
    decreases n, 1, 16 - from
  {
    if from == 16 then 0 else
    var i := from as nibble;
    (if i in n.children then ReferenceLength(K, n.children[i]) else 1) + SlotsLength(K, n, from + 1)
  }

  function Length(K: Keccak, n: Node): nat {
    PayloadLength(K, n) + LengthOfLength(PayloadLength(K, n))
  }

  function Encode(K: Keccak, n: Node): Bytes
    decreases n, 3
  {
    match n
    case Null => [EMPTY_STRING_CODE]
    case Digest(hash) => EncodeString(hash)
    case _ => Header(LIST_CODE, PayloadLength(K, n)) + Payload(K, n)
  }

  /** What is written after the list header: in a branch, an empty value follows the children. */
  function Payload(K: Keccak, n: Node): Bytes
    requires n.Branch? || n.Leaf? || n.Extension?
    decreases n, 2
  {
    match n
    case Branch(_) => EncodeSlots(K, n, 0) + [EMPTY_STRING_CODE]
    case Leaf(path, value) => EncodeString(path) + EncodeString(value)
    case Extension(path, child) => EncodeString(path) + WriteReference(ReferenceOf(K, child))
  }

  function EncodeSlot(K: Keccak, n: Node, i: nibble): Bytes
    requires n.Branch?
    decreases n, 1, 0
  {
    if i in n.children then WriteReference(ReferenceOf(K, n.children[i])) else [EMPTY_STRING_CODE]
  }

  function EncodeSlots(K: Keccak, n: Node, from: nat): Bytes
    requires n.Branch? && from <= 16
    decreases n, 1, 17 - from
  {
    if from == 16 then [] else EncodeSlot(K, n, from as nibble) + EncodeSlots(K, n, from + 1)
  }

  /** The root hash of a trie. */
  function HashOf(K: Keccak, n: Node): Hash {
    if n.Null? then EMPTY_ROOT else
    match ReferenceOf(K, n)
    case ByDigest(hash) => hash
    case Inline(bytes) => K(bytes)
  }

  /** Within its parent a node stands itself if its encoding has fewer than 32 bytes; else a string header
      and the digest of the encoding stand for it. */
  lemma ShortIsInline(K: Keccak, n: Node)
    requires !n.Null? && !n.Digest?
    ensures WriteReference(ReferenceOf(K, n)) == if |Encode(K, n)| < 32 then Encode(K, n) else [0xa0] + K(Encode(K, n))
  {
    hide Encode;
  }

  /** In the bytes of an extension. */
  lemma ChildIsWritten(K: Keccak, n: Node)
    requires n.Extension? && !n.child.Null? && !n.child.Digest?
    ensures var e := Encode(K, n.child);
      Payload(K, n) == EncodeString(n.path) + if |e| < 32 then e else [0xa0] + K(e)
  {
    hide Encode, ReferenceOf;
    ShortIsInline(K, n.child);
  }

  /** In the bytes of a branch. */
  lemma SlotIsWritten(K: Keccak, n: Node, i: nibble)
    requires n.Branch? && i in n.children && !n.children[i].Null? && !n.children[i].Digest?
    ensures var e := Encode(K, n.children[i]);
      EncodeSlots(K, n, i as nat) == (if |e| < 32 then e else [0xa0] + K(e)) + EncodeSlots(K, n, i as nat + 1)
  {
    hide Encode, ReferenceOf;
    ShortIsInline(K, n.children[i]);
  }

  // Lengths.

  lemma ReferenceLengthIsExact(K: Keccak, n: Node)
    ensures ReferenceLength(K, n) == |WriteReference(ReferenceOf(K, n))| <= 33
  {
  }

  lemma {:induction false} SlotsLengthIsExact(K: Keccak, n: Node, from: nat)
    requires n.Branch? && from <= 16
    ensures SlotsLength(K, n, from) == |EncodeSlots(K, n, from)| <= 33 * (16 - from)
    decreases 16 - from
  {
    if from < 16 {
      var i := from as nibble;
      if i in n.children {
        ReferenceLengthIsExact(K, n.children[i]);
      }
      SlotsLengthIsExact(K, n, from + 1);
    }
  }

  /** The length computed in advance is the number of bytes that are written, for every node, and
      the payload of a branch is at most 529 bytes. */
  lemma LengthIsExact(K: Keccak, n: Node)
    ensures Length(K, n) == |Encode(K, n)|
    ensures n.Branch? || n.Leaf? || n.Extension? ==> PayloadLength(K, n) == |Payload(K, n)|
    ensures n.Branch? ==> PayloadLength(K, n) <= 529
  {
    match n
    case Branch(_) => SlotsLengthIsExact(K, n, 0);
    case Extension(_, child) => ReferenceLengthIsExact(K, child);
    case _ =>
  }

  /** The root hash is the digest of the encoding. */
  lemma HashIsDigestOfEncoding(K: Keccak, n: Node)
    requires !n.Digest?
    ensures HashOf(K, n) == K(Encode(K, n))
  {
  }

  lemma HashOfDigest(K: Keccak, hash: Hash)
    ensures HashOf(K, Digest(hash)) == hash
  {
  }

  lemma HashOfEmpty(K: Keccak)
    ensures HashOf(K, Null) == EMPTY_ROOT
  {
  }

  /** The encodings of a node and of all nodes below it. */
  ghost function Encodings(K: Keccak, n: Node): set<Bytes> {
    match n
    case Branch(children) => {Encode(K, n)} + (set i, x | i in children && x in Encodings(K, children[i]) :: x)
    case Extension(_, child) => {Encode(K, n)} + Encodings(K, child)
    case Digest(_) => {}
    case _ => {Encode(K, n)}
  }

  /** Nodes with different encodings have different references and hashes, collisions aside. */
  lemma DifferentEncodings(K: Keccak, a: Node, b: Node)
    requires !a.Digest? && !b.Digest? && Encode(K, a) != Encode(K, b)
    requires NoCollision(K, Encodings(K, a), Encodings(K, b))
    ensures ReferenceOf(K, a) != ReferenceOf(K, b) && HashOf(K, a) != HashOf(K, b)
  {
    assert Encode(K, a) in Encodings(K, a) && Encode(K, b) in Encodings(K, b);
    HashIsDigestOfEncoding(K, a);
    HashIsDigestOfEncoding(K, b);
  }
}
