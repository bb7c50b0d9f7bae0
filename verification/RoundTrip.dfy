/** Reading back what was written: the round trip of a node through its encoding. */
module RoundTrip {
  import opened Basics
  import opened HexPrefix
  import opened Rlp
  import opened Trie
  import opened Encoding
  import opened Decoding

  lemma PayloadFits(K: Keccak, n: Node)
    requires Writable(n) && (n.Branch? || n.Leaf? || n.Extension?)
    ensures |Payload(K, n)| < USIZE_LIMIT
  {
    LengthIsExact(K, n);
    if n.Extension? {
      ReferenceLengthIsExact(K, n.child);
    }
  }

  lemma ListOf(K: Keccak, n: Node)
    requires Writable(n) && (n.Branch? || n.Leaf? || n.Extension?)
    ensures FirstItem(Encode(K, n)) == Some(Item(true, Payload(K, n), |Encode(K, n)|))
    ensures IsItem(Encode(K, n))
  {
    hide FirstItem, Header, Payload;
    PayloadFits(K, n);
    LengthIsExact(K, n);
    ListItem(Payload(K, n));
  }

  lemma DigestItem(hash: Hash)
    ensures EncodeString(hash) == [EMPTY_STRING_CODE + 32] + hash
    ensures IsItem(EncodeString(hash)) && Decode(EncodeString(hash)) == Ok(Digest(hash))
    ensures !IsEmptyItem(EncodeString(hash))
  {
    hide FirstItem;
    StringItem(hash);
  }

  lemma EmptyItem()
    ensures var e := [EMPTY_STRING_CODE];
      IsItem(e) && Decode(e) == Ok(Null) && IsEmptyItem(e) && StringOf(e) == Some([])
  {
    hide FirstItem;
    StringItem([]);
    assert EncodeString([]) == [EMPTY_STRING_CODE];
  }

  /** Reading a reference gives the stub of the node it was written for. */
  lemma {:induction false} ReadReference(K: Keccak, n: Node)
    requires Writable(n)
    ensures var w := WriteReference(ReferenceOf(K, n));
      && IsItem(w)
      && Decode(w) == Ok(Stub(K, n))
      && (IsEmptyItem(w) <==> n.Null?)
    decreases n, 1
  {
    hide FirstItem, Payload, Items;
    match n
    case Null => EmptyItem();
    case Digest(hash) => DigestItem(hash);
    case _ =>
      DecodeEncode(K, n);
      ListOf(K, n);
      var encoded := Encode(K, n);
      if |encoded| >= 32 {
        DigestItem(K(encoded));
      }
  }

  /** The items of a branch from a slot on. */
  function SlotItems(K: Keccak, n: Node, from: nat): (r: seq<Bytes>)
    requires n.Branch? && from <= 16
    ensures |r| == 17 - from
    ensures forall i: nibble :: from <= i as nat ==> r[i as nat - from] == EncodeSlot(K, n, i)
    ensures r[16 - from] == [EMPTY_STRING_CODE]
  {
    seq(17 - from, i requires 0 <= i < 17 - from =>
      if from + i < 16 then EncodeSlot(K, n, (from + i) as nibble) else [EMPTY_STRING_CODE])
  }

  /** The unused value of a branch is an item by itself. */
  lemma ValueItem()
    ensures var last := [EMPTY_STRING_CODE]; Items(last) == Some([last])
  {
    hide IsItem, Items, Decode, IsEmptyItem, StringOf;
    EmptyItem();
    SingleItem([EMPTY_STRING_CODE]);
  }

  lemma {:induction false} ItemsOfSlots(K: Keccak, n: Node, from: nat)
    requires n.Branch? && from <= 16
    requires forall i: nibble :: IsItem(EncodeSlot(K, n, i))
    ensures Items(EncodeSlots(K, n, from) + [EMPTY_STRING_CODE]) == Some(SlotItems(K, n, from))
    decreases 16 - from
  {
    hide *;
    if from == 16 {
      NoSlots(K, n);
    } else {
      ItemsOfSlots(K, n, from + 1);
      SlotsStep(K, n, from);
      ItemsCons(EncodeSlot(K, n, from as nibble), EncodeSlots(K, n, from + 1) + [EMPTY_STRING_CODE]);
    }
  }

  lemma NoSlots(K: Keccak, n: Node)
    requires n.Branch?
    ensures Items(EncodeSlots(K, n, 16) + [EMPTY_STRING_CODE]) == Some(SlotItems(K, n, 16))
  {
    hide *;
    ValueItem();
    NothingWritten(K, n);
    assert SlotItems(K, n, 16) == [[EMPTY_STRING_CODE]];
    assert EncodeSlots(K, n, 16) + [EMPTY_STRING_CODE] == [EMPTY_STRING_CODE];
  }

  lemma NothingWritten(K: Keccak, n: Node)
    requires n.Branch?
    ensures EncodeSlots(K, n, 16) == []
  {
    hide EncodeSlot;
  }

  lemma SlotsStep(K: Keccak, n: Node, from: nat)
    requires n.Branch? && from < 16
    ensures var slot := EncodeSlot(K, n, from as nibble);
      && EncodeSlots(K, n, from) + [EMPTY_STRING_CODE] == slot + (EncodeSlots(K, n, from + 1) + [EMPTY_STRING_CODE])
      && SlotItems(K, n, from) == [slot] + SlotItems(K, n, from + 1)
  {
    hide EncodeSlot;
  }

  /** The stubs of the children in the slots from `from` on. */
  function Stubs(K: Keccak, children: Children, from: nat): Children {
    map i | i in children && from <= i as nat :: Stub(K, children[i])
  }

  /** What is read back for one slot. */
  predicate SlotReads(K: Keccak, n: Node, i: nibble)
    requires n.Branch?
  {
    var w := EncodeSlot(K, n, i);
    if i in n.children then !IsEmptyItem(w) && Decode(w) == Ok(Stub(K, n.children[i])) else IsEmptyItem(w)
  }

  lemma {:induction false} SlotsDecode(K: Keccak, n: Node, from: nat)
    requires n.Branch? && from <= 16
    requires forall i: nibble :: SlotReads(K, n, i)
    ensures DecodeSlots(SlotItems(K, n, 0), from) == Slots(Stubs(K, n.children, from))
    decreases 16 - from
  {
    hide EncodeSlot, Decode, Stub, SlotItems, IsEmptyItem;
    var items := SlotItems(K, n, 0);
    if from < 16 {
      var i := from as nibble;
      SlotsDecode(K, n, from + 1);
      assert items[from] == EncodeSlot(K, n, i);
      assert SlotReads(K, n, i);
      StubsStep(K, n.children, i);
    } else {
      assert Stubs(K, n.children, from) == map[];
    }
  }

  lemma StubsStep(K: Keccak, children: Children, i: nibble)
    ensures Stubs(K, children, i as nat)
         == if i in children then Stubs(K, children, i as nat + 1)[i := Stub(K, children[i])]
            else Stubs(K, children, i as nat + 1)
  {
    hide Stub;
  }

  /** Decoding the encoding of a node gives the node with its long children replaced by digests. */
  lemma {:induction false} DecodeEncode(K: Keccak, n: Node)
    requires Writable(n)
    ensures Decode(Encode(K, n)) == Ok(Shallow(K, n))
    decreases n, 0
  {
    match n
    case Null => EmptyItem();
    case Digest(hash) => DigestItem(hash);
    case Leaf(_, _) => DecodeLeaf(K, n);
    case Extension(_, child) =>
      ReadReference(K, child);
      DecodeExtension(K, n);
    case Branch(children) =>
      EmptyItem();
      forall i: nibble
        ensures IsItem(EncodeSlot(K, n, i)) && SlotReads(K, n, i)
      {
        if i in children {
          ReadReference(K, children[i]);
        }
      }
      DecodeWrittenBranch(K, n);
  }

  /** Which children are still there after the round trip: those with encodings of fewer than 32 bytes.
      The others have become the digests of their encodings. */
  lemma DecodedChildren(K: Keccak, n: Node)
    requires Writable(n) && (n.Branch? || n.Extension?)
    ensures var r := Decode(Encode(K, n));
      && r.Ok? && (n.Branch? ==> r.node.Branch? && r.node.children.Keys == n.children.Keys)
      && (n.Extension? ==> r.node.Extension? && r.node.path == n.path)
      && (n.Branch? ==> forall i :: i in n.children && !n.children[i].Null? && !n.children[i].Digest? ==>
            r.node.children[i]
            == if |Encode(K, n.children[i])| < 32 then Shallow(K, n.children[i]) else Digest(K(Encode(K, n.children[i]))))
      && (n.Extension? && !n.child.Null? && !n.child.Digest? ==>
            r.node.child == if |Encode(K, n.child)| < 32 then Shallow(K, n.child) else Digest(K(Encode(K, n.child))))
      && (n.Branch? ==> forall i :: i in n.children && !n.children[i].Null? ==>
            (r.node.children[i].Digest? <==> n.children[i].Digest? || |Encode(K, n.children[i])| >= 32))
      && (n.Extension? && !n.child.Null? ==>
            (r.node.child.Digest? <==> n.child.Digest? || |Encode(K, n.child)| >= 32))
  {
    hide Encode, Decode;
    DecodeEncode(K, n);
    var m := Shallow(K, n);
    forall i | n.Branch? && i in n.children
      ensures m.children[i] == Stub(K, n.children[i])
    {
    }
  }

  lemma DecodeLeaf(K: Keccak, n: Node)
    requires n.Leaf? && Writable(n)
    ensures Decode(Encode(K, n)) == Ok(n)
  {
    hide FirstItem, Items, EncodeString, Encode;
    ListOf(K, n);
    StringItem(n.path);
    StringItem(n.value);
    PairItems(EncodeString(n.path), EncodeString(n.value));
  }

  lemma DecodeExtension(K: Keccak, n: Node)
    requires n.Extension? && Writable(n)
    requires var w := WriteReference(ReferenceOf(K, n.child)); IsItem(w) && Decode(w) == Ok(Stub(K, n.child))
    ensures Decode(Encode(K, n)) == Ok(Shallow(K, n))
  {
    hide FirstItem, Items, EncodeString, Encode, WriteReference, ReferenceOf, Stub;
    ListOf(K, n);
    StringItem(n.path);
    PairItems(EncodeString(n.path), WriteReference(ReferenceOf(K, n.child)));
  }

  lemma DecodeWrittenBranch(K: Keccak, n: Node)
    requires n.Branch? && Writable(n)
    requires forall i: nibble :: IsItem(EncodeSlot(K, n, i)) && SlotReads(K, n, i)
    ensures Decode(Encode(K, n)) == Ok(Shallow(K, n))
  {
    hide *;
    BranchItems(K, n);
    BranchItemsDecode(K, n);
  }

  lemma BranchItems(K: Keccak, n: Node)
    requires n.Branch? && Writable(n)
    requires forall i: nibble :: IsItem(EncodeSlot(K, n, i))
    ensures Decode(Encode(K, n)) == DecodeBranch(SlotItems(K, n, 0))
  {
    hide FirstItem, Items, Encode, IsItem, EncodeSlot, EncodeSlots, SlotItems, DecodeBranch;
    ListOf(K, n);
    ItemsOfSlots(K, n, 0);
    assert Payload(K, n) == EncodeSlots(K, n, 0) + [EMPTY_STRING_CODE];
  }

  lemma BranchItemsDecode(K: Keccak, n: Node)
    requires n.Branch?
    requires forall i: nibble :: SlotReads(K, n, i)
    ensures DecodeBranch(SlotItems(K, n, 0)) == Ok(Shallow(K, n))
  {
    hide DecodeSlots, Stub, SlotItems, SlotReads, Encode, StringOf;
    SlotsDecode(K, n, 0);
    EmptyItem();
    assert Shallow(K, n).children == Stubs(K, n.children, 0);
  }

  /** Writing out a decoded node gives the same bytes: nothing that a parent or a root hash sees is
      lost in the round trip. */
  lemma {:induction false} ShallowEncodes(K: Keccak, n: Node)
    ensures Encode(K, Shallow(K, n)) == Encode(K, n)
    ensures ReferenceOf(K, Shallow(K, n)) == ReferenceOf(K, n)
    ensures ReferenceOf(K, Stub(K, n)) == ReferenceOf(K, n)
    ensures HashOf(K, Shallow(K, n)) == HashOf(K, n)
  {
    match n
    case Branch(children) =>
      var m := Shallow(K, n);
      forall i | i in children
        ensures ReferenceOf(K, m.children[i]) == ReferenceOf(K, children[i])
      {
        ShallowEncodes(K, children[i]);
      }
      SameReferencesSameEncoding(K, n, m);
    case Extension(path, child) =>
      ShallowEncodes(K, child);
      SameReferenceSameExtension(K, path, child, Stub(K, child));
    case _ =>
  }

  /** The encoding of a branch depends on the references of its children only. */
  lemma SameReferencesSameEncoding(K: Keccak, a: Node, b: Node)
    requires a.Branch? && b.Branch? && a.children.Keys == b.children.Keys
    requires forall i :: i in a.children ==> ReferenceOf(K, a.children[i]) == ReferenceOf(K, b.children[i])
    ensures Encode(K, a) == Encode(K, b)
  {
    hide ReferenceOf;
    SameSlots(K, a, b, 0);
  }

  lemma SameReferenceSameExtension(K: Keccak, path: Path, a: Node, b: Node)
    requires ReferenceOf(K, a) == ReferenceOf(K, b)
    ensures Encode(K, Extension(path, a)) == Encode(K, Extension(path, b))
  {
    hide ReferenceOf;
    assert ReferenceLength(K, a) == ReferenceLength(K, b);
    assert Payload(K, Extension(path, a)) == Payload(K, Extension(path, b));
  }

  lemma {:induction false} SameSlots(K: Keccak, a: Node, b: Node, from: nat)
    requires from <= 16
    requires a.Branch? && b.Branch? && a.children.Keys == b.children.Keys
    requires forall i :: i in a.children ==> ReferenceOf(K, a.children[i]) == ReferenceOf(K, b.children[i])
    ensures EncodeSlots(K, a, from) == EncodeSlots(K, b, from)
    ensures SlotsLength(K, a, from) == SlotsLength(K, b, from)
    decreases 16 - from
  {
    hide ReferenceOf;
    if from < 16 {
      SameSlots(K, a, b, from + 1);
      var i := from as nibble;
      assert i in a.children <==> i in b.children;
    }
  }

  /** Every path says by its flag whether it belongs to a leaf, and no slot holds an empty trie. */
  predicate Typed(n: Node) {
    match n
    case Branch(children) => forall i :: i in children ==> !children[i].Null? && Typed(children[i])
    case Leaf(path, _) => LeafFlag(path)
    case Extension(path, child) => !LeafFlag(path) && Typed(child)
    case _ => true
  }

  /** Whatever bytes are decoded, from an honest source or not: the result is typed, and only bytes
      that say so are the empty trie. */
  lemma {:induction false} DecodedIsTyped(b: Bytes)
    ensures Decode(b).Ok? ==> Typed(Decode(b).node) && (Decode(b).node.Null? ==> IsEmptyItem(b))
    decreases |b|, 1, 0
  {
    hide Items, FirstItem;
    if b != [] && FirstItem(b).Some? && FirstItem(b).value.isList && Items(FirstItem(b).value.payload).Some? {
      var items := Items(FirstItem(b).value.payload).value;
      if |items| == 2 {
        DecodedPairIsTyped(items);
      } else if |items| == 17 {
        DecodedBranchIsTyped(items);
      }
    }
  }

  lemma {:induction false} DecodedBranchIsTyped(items: seq<Bytes>)
    requires |items| == 17
    ensures DecodeBranch(items).Ok? ==> Typed(DecodeBranch(items).node) && !DecodeBranch(items).node.Null?
    decreases Longest(items) + 1, 0, 18
  {
    hide DecodeSlots;
    DecodedSlotsAreTyped(items, 0);
  }

  lemma {:induction false} DecodedPairIsTyped(items: seq<Bytes>)
    requires |items| == 2
    ensures DecodePair(items).Ok? ==> Typed(DecodePair(items).node) && !DecodePair(items).node.Null?
    decreases Longest(items) + 1, 0, 0
  {
    hide FirstItem, Decode, IsEmptyItem;
    assert items[1] in items;
    DecodedIsTyped(items[1]);
  }

  lemma {:induction false} DecodedSlotsAreTyped(items: seq<Bytes>, from: nat)
    requires |items| == 17 && from <= 16
    ensures var r := DecodeSlots(items, from);
      && (r.Slots? ==> forall i :: i in r.children ==> !r.children[i].Null? && Typed(r.children[i]))
      && (r.Broken? ==> !r.why.Ok?)
    decreases Longest(items) + 1, 0, 17 - from
  {
    hide FirstItem, Decode, IsEmptyItem, Typed;
    if from < 16 {
      assert items[from] in items;
      DecodedIsTyped(items[from]);
      DecodedSlotsAreTyped(items, from + 1);
      var r := DecodeSlots(items, from);
      if r.Slots? {
        var rest := DecodeSlots(items, from + 1);
        assert rest.Slots?;
        if !IsEmptyItem(items[from]) {
          var child := Decode(items[from]);
          assert child.Ok? && r.children == rest.children[from as nibble := child.node];
          forall i | i in r.children
            ensures !r.children[i].Null? && Typed(r.children[i])
          {
            assert i == from as nibble || i in rest.children;
          }
        }
      }
    }
  }
}
