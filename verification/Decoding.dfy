/** Decoding a node, and the round trip through its encoding. */
module Decoding {
  import opened Basics
  import opened HexPrefix
  import opened Rlp
  import opened Trie
  import opened Encoding

  datatype Decoded = Ok(node: Node) | Malformed | BranchWithValue | DecodePanic

  datatype DecodedSlots = Slots(children: Children) | Broken(why: Decoded)

  function Decode(b: Bytes): Decoded
    decreases |b|, 1, 0
  {
    if b == [] then Ok(Null) else
    match FirstItem(b)
    case None => Malformed
    case Some(item) =>
      if item.isList then
        match Items(item.payload)
        case None => Malformed
        case Some(items) =>
          if |items| == 2 then DecodePair(items)
          else if |items| == 17 then DecodeBranch(items)
          else Malformed
      else if item.payload == [] then Ok(Null)
      else if |item.payload| == 32 then Ok(Digest(item.payload))
      else Malformed
  }

  /** The size of the longest item. */
  function Longest(items: seq<Bytes>): (n: nat)
    ensures forall x :: x in items ==> |x| <= n
    ensures items != [] ==> exists x :: x in items && |x| == n
  {
    if items == [] then 0 else
    var rest := Longest(items[1..]);
    assert items == [items[0]] + items[1..];
    if |items[0]| > rest || |items| == 1 then
      assert items[0] in items;
      |items[0]|
    else
      rest
  }

  function DecodePair(items: seq<Bytes>): Decoded
    requires |items| == 2
    decreases Longest(items) + 1, 0, 0
  {
    match StringOf(items[0])
    case None => Malformed
    case Some(path) =>
      if path == [] then DecodePanic
      else if LeafFlag(path) then
        match StringOf(items[1])
        case None => Malformed
        case Some(value) => Ok(Leaf(path, value))
      else
        match Decode(items[1])
        case Ok(child) => Ok(Extension(path, child))
        case other => other
  }

  function DecodeBranch(items: seq<Bytes>): Decoded
    requires |items| == 17
    decreases Longest(items) + 1, 0, 18
  {
    match DecodeSlots(items, 0)
    case Broken(why) => why
    case Slots(children) =>
      match StringOf(items[16])
      case None => Malformed
      case Some(value) => if value == [] then Ok(Branch(children)) else BranchWithValue
  }

  /** The children in the slots from `from` on; an empty string marks a free slot. */
  function DecodeSlots(items: seq<Bytes>, from: nat): DecodedSlots
    requires |items| == 17 && from <= 16
    decreases Longest(items) + 1, 0, 17 - from
  {
    if from == 16 then Slots(map[])
    else if IsEmptyItem(items[from]) then DecodeSlots(items, from + 1)
    else
      match Decode(items[from])
      case Ok(child) =>
        (match DecodeSlots(items, from + 1)
         case Slots(rest) => Slots(rest[from as nibble := child])
         case broken => broken)
      case other => Broken(other)
  }

  predicate IsEmptyItem(b: Bytes) {
    b == [] || StringOf(b) == Some([])
  }

  /** What is left of a node when it is written out: long children become digests, short ones stay. */
  function Shallow(K: Keccak, n: Node): Node
    decreases n, 0
  {
    match n
    case Branch(children) => Branch(map i | i in children :: Stub(K, children[i]))
    case Extension(path, child) => Extension(path, Stub(K, child))
    case _ => n
  }

  function Stub(K: Keccak, n: Node): Node
    decreases n, 1
  {
    match ReferenceOf(K, n)
    case ByDigest(hash) => Digest(hash)
    case Inline(_) => Shallow(K, n)
  }

  /** A node that can be written and read back: the flag of its path says what it is, no slot holds
      an empty trie, and its lengths fit in a `usize`. */
  predicate Writable(n: Node) {
    match n
    case Null => true
    case Branch(children) => forall i :: i in children ==> !children[i].Null? && Writable(children[i])
    case Leaf(path, value) => LeafFlag(path) && StringLength(path) + StringLength(value) < USIZE_LIMIT
    case Extension(path, child) => !LeafFlag(path) && StringLength(path) + 33 < USIZE_LIMIT && Writable(child)
    case Digest(_) => true
  }

  /** The lengths of the node's own byte strings fit in a `usize`. */
  predicate Sized(n: Node) {
    match n
    case Branch(children) => forall i :: i in children ==> Sized(children[i])
    case Leaf(path, value) => StringLength(path) + StringLength(value) < USIZE_LIMIT
    case Extension(path, child) => StringLength(path) + 33 < USIZE_LIMIT && Sized(child)
    case _ => true
  }
}
