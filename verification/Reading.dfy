/** Exactly which bytes decode to which node, whoever wrote them. */
module Reading {
  import opened Basics
  import opened HexPrefix
  import opened Rlp
  import opened Trie
  import opened Decoding
  import opened RoundTrip

  /** A node with everything that it shows written in line, however long. */
  function Raw(n: Node): Bytes
    decreases n, 1
  {
    match n
    case Null => EncodeString([])
    case Digest(hash) => EncodeString(hash)
    case _ => EncodeList(Joined(Parts(n)))
  }

  /** The items of a node: path and value, path and child, or sixteen slots and an empty value. */
  function Parts(n: Node): (parts: seq<Bytes>)
    requires n.Branch? || n.Leaf? || n.Extension?
    ensures |parts| == if n.Branch? then 17 else 2
    decreases n, 0
  {
    match n
    case Branch(children) =>
      seq(17, i requires 0 <= i < 17 =>
        if i < 16 && i as nibble in children then Raw(children[i as nibble]) else EncodeString([]))
    case Leaf(path, value) => [EncodeString(path), EncodeString(value)]
    case Extension(path, child) => [EncodeString(path), Raw(child)]
  }

  // Reading what is written.

  lemma RawIsItem(n: Node)
    requires |Raw(n)| < USIZE_LIMIT
    ensures IsItem(Raw(n)) && (IsEmptyItem(Raw(n)) <==> n.Null?)
  {
    hide FirstItem, Parts, Joined, Header, EncodeString;
    match n
    case Null => StringItem([]);
    case Digest(hash) => StringItem(hash);
    case _ => ListItem(Joined(Parts(n)));
  }

  lemma {:induction false} PartFits(parts: seq<Bytes>, x: Bytes)
    requires x in parts
    ensures |x| <= |Joined(parts)|
  {
    if x != parts[0] {
      PartFits(parts[1..], x);
    }
  }

  lemma PartsAreItems(n: Node)
    requires n.Branch? || n.Leaf? || n.Extension?
    requires |Raw(n)| < USIZE_LIMIT
    ensures Items(Joined(Parts(n))) == Some(Parts(n)) && FirstItem(Raw(n)) == Some(Item(true, Joined(Parts(n)), |Raw(n)|))
    ensures forall x :: x in Parts(n) ==> |x| < USIZE_LIMIT
  {
    hide FirstItem, Items, Joined, EncodeString, LengthOfLength, Header;
    var parts := Parts(n);
    forall x | x in parts
      ensures IsItem(x) && |x| < USIZE_LIMIT
    {
      PartFits(parts, x);
      PartIsItem(n, x);
    }
    JoinedAreItems(parts);
    ListItem(Joined(parts));
  }

  lemma PartIsItem(n: Node, x: Bytes)
    requires (n.Branch? || n.Leaf? || n.Extension?) && x in Parts(n) && |x| < USIZE_LIMIT
    ensures IsItem(x)
  {
    hide FirstItem, EncodeString;
    StringItem([]);
    match n
    case Branch(children) =>
      var i :| 0 <= i < 17 && Parts(n)[i] == x;
      if i < 16 && i as nibble in children {
        RawIsItem(children[i as nibble]);
      }
    case Leaf(path, value) =>
      StringFits(path);
      StringFits(value);
      if x == EncodeString(path) { StringItem(path); } else { StringItem(value); }
    case Extension(path, child) =>
      StringFits(path);
      if x == EncodeString(path) { StringItem(path); } else { RawIsItem(child); }
  }

  lemma StringFits(s: Bytes)
    ensures |s| <= |EncodeString(s)|
  {
  }

  lemma PathOf(s: Bytes)
    requires |EncodeString(s)| < USIZE_LIMIT
    ensures StringOf(EncodeString(s)) == Some(s)
  {
    hide FirstItem;
    StringFits(s);
    StringItem(s);
  }

  /** Every typed node is read back from its raw form. */
  lemma {:induction false} ReadRaw(n: Node)
    requires Typed(n) && |Raw(n)| < USIZE_LIMIT
    ensures Decode(Raw(n)) == Ok(n)
    decreases n, 2
  {
    hide FirstItem, Items, Joined, EncodeString, EncodeList, LeafFlag, StringOf, Parts;
    match n
    case Null => StringItem([]);
    case Digest(hash) => StringItem(hash);
    case _ =>
      PartsAreItems(n);
      ReadParts(n);
  }

  lemma {:induction false} ReadParts(n: Node)
    requires (n.Branch? || n.Leaf? || n.Extension?) && Typed(n) && forall x :: x in Parts(n) ==> |x| < USIZE_LIMIT
    ensures (if n.Branch? then DecodeBranch(Parts(n)) else DecodePair(Parts(n))) == Ok(n)
    decreases n, 1
  {
    hide FirstItem, EncodeString, LeafFlag, StringOf, DecodeSlots, Decode;
    var parts := Parts(n);
    match n
    case Branch(children) =>
      assert parts[16] == EncodeString([]) && parts[16] in parts;
      PathOf([]);
      ReadSlots(n, 0);
      ChildrenStep(children, 0);
    case Leaf(path, value) =>
      assert parts[0] in parts && parts[1] in parts;
      PathOf(path);
      PathOf(value);
    case Extension(path, child) =>
      assert parts[0] in parts && parts[1] in parts;
      PathOf(path);
      ReadRaw(child);
  }

  function ChildrenFrom(children: Children, from: nat): Children {
    map i | i in children && from <= i as nat :: children[i]
  }

  lemma ChildrenStep(children: Children, i: nibble)
    ensures ChildrenFrom(children, i as nat)
         == if i in children then ChildrenFrom(children, i as nat + 1)[i := children[i]] else ChildrenFrom(children, i as nat + 1)
    ensures ChildrenFrom(children, 0) == children && ChildrenFrom(children, 16).Keys == {}
  {
  }

  lemma {:induction false} ReadSlots(n: Node, from: nat)
    requires n.Branch? && Typed(n) && from <= 16 && forall x :: x in Parts(n) ==> |x| < USIZE_LIMIT
    ensures DecodeSlots(Parts(n), from) == Slots(ChildrenFrom(n.children, from))
    decreases n, 0, 17 - from
  {
    hide FirstItem, EncodeString, StringOf, Decode, Raw, ChildrenFrom, IsEmptyItem, Longest;
    var parts, children := Parts(n), n.children;
    if from == 16 {
      ChildrenStep(children, 0);
      assert ChildrenFrom(children, 16) == map[];
    } else {
      var i := from as nibble;
      ReadSlots(n, from + 1);
      ChildrenStep(children, i);
      assert parts[from] in parts;
      ReadSlot(n, i);
    }
  }

  lemma {:induction false} ReadSlot(n: Node, i: nibble)
    requires n.Branch? && Typed(n) && |Parts(n)[i as nat]| < USIZE_LIMIT
    ensures var x := Parts(n)[i as nat];
      if i in n.children then !IsEmptyItem(x) && Decode(x) == Ok(n.children[i]) else IsEmptyItem(x)
    decreases n, 0, 0
  {
    hide FirstItem, EncodeString, StringOf, Decode, Raw;
    if i in n.children {
      RawIsItem(n.children[i]);
      ReadRaw(n.children[i]);
    } else {
      PathOf([]);
    }
  }

  // Nothing else is read.

  lemma EmptyIsWritten(x: Bytes)
    requires IsItem(x) && IsEmptyItem(x)
    ensures x == EncodeString([])
  {
    hide FirstItem, EncodeString, EncodeList;
    ItemIsWritten(x);
  }

  lemma StringIsWritten(x: Bytes)
    requires IsItem(x) && StringOf(x).Some?
    ensures x == EncodeString(StringOf(x).value)
  {
    hide FirstItem, EncodeString, EncodeList;
    ItemIsWritten(x);
  }

  /** What decodes to a node starts with the raw form of that node. */
  lemma {:induction false} DecodedIsRaw(b: Bytes)
    requires b != [] && Decode(b).Ok?
    ensures FirstItem(b).Some? && b[..FirstItem(b).value.size] == Raw(Decode(b).node)
    decreases |b|, 1, 0
  {
    hide FirstItem, Items, Joined, EncodeString, EncodeList, Parts, DecodePair, DecodeBranch;
    var item := FirstItem(b).value;
    var x := b[..item.size];
    FirstIsItem(b);
    ItemIsWritten(x);
    if item.isList {
      ItemsAreJoined(item.payload);
      var items := Items(item.payload).value;
      if |items| == 2 {
        PairIsRaw(items);
      } else {
        BranchIsRaw(items);
      }
    }
  }

  lemma {:induction false} WholeIsRaw(x: Bytes)
    requires IsItem(x) && Decode(x).Ok?
    ensures x == Raw(Decode(x).node)
    decreases |x|, 2, 0
  {
    hide FirstItem, Raw;
    DecodedIsRaw(x);
    assert x[..|x|] == x;
  }

  lemma {:induction false} PairIsRaw(items: seq<Bytes>)
    requires |items| == 2 && (forall x :: x in items ==> IsItem(x)) && DecodePair(items).Ok?
    ensures var n := DecodePair(items).node; (n.Leaf? || n.Extension?) && Parts(n) == items
    decreases Longest(items) + 1, 0, 0
  {
    hide FirstItem, EncodeString, Decode, IsItem, StringOf;
    assert items[0] in items && items[1] in items;
    StringIsWritten(items[0]);
    if LeafFlag(StringOf(items[0]).value) {
      StringIsWritten(items[1]);
    } else {
      WholeIsRaw(items[1]);
    }
  }

  lemma {:induction false} BranchIsRaw(items: seq<Bytes>)
    requires |items| == 17 && (forall x :: x in items ==> IsItem(x)) && DecodeBranch(items).Ok?
    ensures var n := DecodeBranch(items).node; n.Branch? && Parts(n) == items
    decreases Longest(items) + 1, 0, 18
  {
    hide FirstItem, EncodeString, Decode, IsItem, StringOf, DecodeSlots, Raw;
    DecodedSlotsAreTyped(items, 0);
    SlotsAreRaw(items, 0);
    assert items[16] in items;
    StringIsWritten(items[16]);
  }

  /** The bytes in a slot. */
  function SlotOf(children: Children, i: nibble): Bytes {
    if i in children then Raw(children[i]) else EncodeString([])
  }

  lemma {:induction false} SlotsAreRaw(items: seq<Bytes>, from: nat)
    requires |items| == 17 && from <= 16 && (forall x :: x in items ==> IsItem(x)) && DecodeSlots(items, from).Slots?
    ensures var children := DecodeSlots(items, from).children;
      forall i: nibble :: if from <= i as nat then items[i] == SlotOf(children, i) else i !in children
    decreases Longest(items) + 1, 0, 17 - from
  {
    hide FirstItem, EncodeString, Decode, IsItem, IsEmptyItem, Raw, Longest;
    if from < 16 {
      assert items[from] in items;
      var i, next := from as nibble, DecodeSlots(items, from + 1);
      if IsEmptyItem(items[from]) {
        SlotsAreRaw(items, from + 1);
        EmptyIsWritten(items[from]);
      } else {
        var child := Decode(items[from]);
        assert child.Ok? && next.Slots?;
        SlotsAreRaw(items, from + 1);
        WholeIsRaw(items[from]);
        var children := DecodeSlots(items, from).children;
        assert children == next.children[i := child.node];
        forall j: nibble | from < j as nat
          ensures SlotOf(children, j) == SlotOf(next.children, j)
        {
        }
      }
    }
  }

  /** Exactly the bytes that start with the raw form of a typed node decode to that node, and the empty
      string to the empty trie: in particular every other number of items, a value in a branch, a long
      string or a length that is written in another way is refused. */
  lemma DecodeExactly(b: Bytes, n: Node)
    requires |b| < USIZE_LIMIT
    ensures Decode(b) == Ok(n) <==> (b == [] && n.Null?) || (b != [] && Typed(n) && Raw(n) <= b)
  {
    hide FirstItem, Decode, Raw, Typed;
    if b == [] {
      NothingIsRead();
    } else {
      if Decode(b) == Ok(n) {
        DecodedIsRaw(b);
        DecodedIsTyped(b);
      }
      if Typed(n) && Raw(n) <= b {
        RawPrefix(b, n);
      }
    }
  }

  lemma NothingIsRead()
    ensures Decode([]) == Ok(Null)
  {
  }

  lemma RawPrefix(b: Bytes, n: Node)
    requires Typed(n) && Raw(n) <= b && |b| < USIZE_LIMIT
    ensures Decode(b) == Ok(n)
  {
    hide FirstItem, Decode, Raw, Typed;
    RawIsItem(n);
    ReadRaw(n);
    var rest := b[|Raw(n)|..];
    assert b == Raw(n) + rest;
    ItemPrefix(Raw(n), rest);
    SameFirstItem(Raw(n), b);
  }

  lemma SameFirstItem(a: Bytes, b: Bytes)
    requires a != [] && b != [] && FirstItem(a) == FirstItem(b)
    ensures Decode(a) == Decode(b)
  {
    hide FirstItem, Items, DecodePair, DecodeBranch;
  }

  // What is refused, and how.

  lemma {:induction false} SameFront(a: seq<Bytes>, b: seq<Bytes>, from: nat)
    requires |a| == |b| == 17 && a[..16] == b[..16] && from <= 16
    ensures DecodeSlots(a, from) == DecodeSlots(b, from)
    decreases 16 - from
  {
    hide Decode, IsEmptyItem;
    if from < 16 {
      assert a[from] == a[..16][from] == b[..16][from] == b[from];
      SameFront(a, b, from + 1);
    }
  }

  lemma ListIsRead(items: seq<Bytes>)
    requires (forall x :: x in items ==> IsItem(x)) && |Joined(items)| < USIZE_LIMIT
    ensures FirstItem(EncodeList(Joined(items))) == Some(Item(true, Joined(items), |EncodeList(Joined(items))|))
    ensures Items(Joined(items)) == Some(items)
  {
    hide FirstItem, Items, Joined, IsItem, Header;
    JoinedAreItems(items);
    ListItem(Joined(items));
  }

  /** A branch with a value is refused as such. */
  lemma ValueIsRefused(n: Node, value: Bytes)
    requires n.Branch? && Typed(n) && |Raw(n)| < USIZE_LIMIT && value != [] && |value| < USIZE_LIMIT
    requires |Joined(Parts(n)[16 := EncodeString(value)])| < USIZE_LIMIT
    ensures Decode(EncodeList(Joined(Parts(n)[16 := EncodeString(value)]))) == BranchWithValue
  {
    hide FirstItem, Items, Joined, EncodeString, EncodeList, Parts, DecodeSlots;
    var parts := Parts(n);
    var items := parts[16 := EncodeString(value)];
    PartsAreItems(n);
    StringItem(value);
    forall x | x in items
      ensures IsItem(x)
    {
      if x in parts {
        PartIsItem(n, x);
      }
    }
    ListIsRead(items);
    ReadSlots(n, 0);
    SameFront(parts, items, 0);
  }

  /** A pair with an empty path makes the program panic. */
  lemma EmptyPathPanics(x: Bytes)
    requires IsItem(x) && |Joined([EncodeString([]), x])| < USIZE_LIMIT
    ensures Decode(EncodeList(Joined([EncodeString([]), x]))) == DecodePanic
  {
    hide FirstItem, Items, Joined, EncodeString, EncodeList, Decode;
    StringItem([]);
    ListIsRead([EncodeString([]), x]);
    PairIsDecoded([EncodeString([]), x]);
  }

  lemma PairIsDecoded(items: seq<Bytes>)
    requires |items| == 2 && Items(Joined(items)) == Some(items)
    requires FirstItem(EncodeList(Joined(items))) == Some(Item(true, Joined(items), |EncodeList(Joined(items))|))
    ensures Decode(EncodeList(Joined(items))) == DecodePair(items)
  {
    hide FirstItem, Items, Joined, DecodePair;
  }
}
