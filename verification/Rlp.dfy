/** Recursive length prefix encoding (Appendix B of the Ethereum Yellow Paper). */
module Rlp {
  import opened Basics

  /** The program counts bytes in a 64-bit `usize`. */
  const USIZE_LIMIT := 0x1_0000_0000_0000_0000

  /** The code that starts a list; `EMPTY_STRING_CODE` starts a string. */
  const LIST_CODE: byte := 0xc0

  function BigEndian(n: nat): (b: Bytes)
    ensures b != [] ==> b[0] != 0
    ensures b == [] <==> n == 0
  {
    if n == 0 then [] else BigEndian(n / 0x100) + [(n % 0x100) as byte]
  }

  function FromBigEndian(b: Bytes): nat {
    if b == [] then 0 else FromBigEndian(b[..|b| - 1]) * 0x100 + b[|b| - 1] as nat
  }

  lemma {:induction false} FromToBigEndian(n: nat)
    ensures FromBigEndian(BigEndian(n)) == n
  {
    if n != 0 {
      FromToBigEndian(n / 0x100);
      var b := BigEndian(n);
      assert b[..|b| - 1] == BigEndian(n / 0x100);
    }
  }

  /** Without leading zeros there is just one way to write a number. */
  lemma {:induction false} ToFromBigEndian(b: Bytes)
    requires b != [] ==> b[0] != 0
    ensures BigEndian(FromBigEndian(b)) == b
  {
    if b != [] {
      var init := b[..|b| - 1];
      ToFromBigEndian(init);
      assert FromBigEndian(init) == 0 ==> init == [];
      assert b == init + [b[|b| - 1]];
    }
  }

  /** 256 to the power `k`. */
  function Power(k: nat): (p: nat)
    ensures p > 0
  {
    if k == 0 then 1 else 0x100 * Power(k - 1)
  }

  /** A number fits into `k` bytes if it is below that power. */
  lemma {:induction false} BigEndianSize(n: nat, k: nat)
    ensures |BigEndian(n)| <= k <==> n < Power(k)
  {
    if n != 0 && k > 0 {
      BigEndianSize(n / 0x100, k - 1);
    }
  }

  lemma UsizeHasEightBytes(n: nat)
    requires n < USIZE_LIMIT
    ensures |BigEndian(n)| <= 8
  {
    assert Power(8) == 0x100 * (0x100 * (0x100 * (0x100 * Power(4))));
    assert Power(4) == 0x1_0000_0000;
    BigEndianSize(n, 8);
  }

  /** The header of a string or a list with a payload of the given length. */
  function Header(code: byte, length: nat): (h: Bytes)
    requires code == EMPTY_STRING_CODE || code == LIST_CODE
    ensures |h| == LengthOfLength(length)
  {
    if length < 56 then [code + length as byte]
    else
      var size := BigEndian(length);
      [((code as nat + 55 + |size|) % 0x100) as byte] + size
  }

  function LengthOfLength(length: nat): nat {
    if length < 56 then 1 else 1 + |BigEndian(length)|
  }

  predicate IsSmallByte(s: Bytes) {
    |s| == 1 && s[0] < EMPTY_STRING_CODE
  }

  function EncodeString(s: Bytes): Bytes {
    if IsSmallByte(s) then s else Header(EMPTY_STRING_CODE, |s|) + s
  }

  /** The number of bytes of an encoded string. */
  function StringLength(s: Bytes): (n: nat)
    ensures n == |EncodeString(s)|
  {
    if IsSmallByte(s) then 1 else LengthOfLength(|s|) + |s|
  }

  // Decoding.

  /** The first item of a byte string: its kind, its payload and how many bytes it takes. */
  datatype Item = Item(isList: bool, payload: Bytes, size: nat)

  function TakeItem(b: Bytes, isList: bool, header: nat, length: nat): (r: Option<Item>)
    requires 1 <= header <= |b|
    ensures r.Some? ==> r.value.size <= |b| && |r.value.payload| < r.value.size
  {
    if header + length > |b| then None
    else if !isList && header == 1 && IsSmallByte(b[1..1 + length]) then None
    else Some(Item(isList, b[header..header + length], header + length))
  }

  /** An item whose length is itself written out, in `sizeLength` bytes. */
  function TakeLongItem(b: Bytes, isList: bool, sizeLength: nat): (r: Option<Item>)
    requires 0 < |b|
    ensures r.Some? ==> r.value.size <= |b| && |r.value.payload| < r.value.size
  {
    if 1 + sizeLength > |b| || sizeLength == 0 || b[1] == 0 then None
    else
      var length := FromBigEndian(b[1..1 + sizeLength]);
      if length < 56 then None else TakeItem(b, isList, 1 + sizeLength, length)
  }

  function FirstItem(b: Bytes): (r: Option<Item>)
    ensures r.Some? ==> 0 < r.value.size <= |b|
    ensures r.Some? && r.value.isList ==> |r.value.payload| < r.value.size
  {
    if b == [] then None
    else if b[0] < 0x80 then Some(Item(false, [b[0]], 1))
    else if b[0] < 0xb8 then TakeItem(b, false, 1, b[0] as nat - 0x80)
    else if b[0] < 0xc0 then TakeLongItem(b, false, b[0] as nat - 0xb7)
    else if b[0] < 0xf8 then TakeItem(b, true, 1, b[0] as nat - 0xc0)
    else TakeLongItem(b, true, b[0] as nat - 0xf7)
  }

  /** Cuts a list payload into its items. */
  function Items(b: Bytes): (r: Option<seq<Bytes>>)
    ensures r.Some? ==> forall x :: x in r.value ==> 0 < |x| <= |b|
    decreases |b|
  {
    if b == [] then Some([])
    else
      var first := FirstItem(b);
      if first.None? then None
      else
        var rest := Items(b[first.value.size..]);
        if rest.None? then None else Some([b[..first.value.size]] + rest.value)
  }

  /** The bytes of a string item. */
  function StringOf(b: Bytes): Option<Bytes> {
    var item := FirstItem(b);
    if item.None? || item.value.isList then None else Some(item.value.payload)
  }

  /** A byte string that is exactly one item. */
  predicate IsItem(b: Bytes) {
    FirstItem(b).Some? && FirstItem(b).value.size == |b|
  }

  lemma ListItem(payload: Bytes)
    requires |payload| < USIZE_LIMIT
    ensures FirstItem(Header(LIST_CODE, |payload|) + payload)
         == Some(Item(true, payload, LengthOfLength(|payload|) + |payload|))
  {
    LongItem(LIST_CODE, payload);
  }

  lemma StringItem(s: Bytes)
    requires |s| < USIZE_LIMIT
    ensures FirstItem(EncodeString(s)) == Some(Item(false, s, |EncodeString(s)|))
    ensures StringOf(EncodeString(s)) == Some(s)
  {
    if IsSmallByte(s) {
      assert s == [s[0]];
    } else {
      LongItem(EMPTY_STRING_CODE, s);
    }
  }

  lemma LongItem(code: byte, s: Bytes)
    requires code == EMPTY_STRING_CODE || code == LIST_CODE
    requires |s| < USIZE_LIMIT && (code == EMPTY_STRING_CODE ==> !IsSmallByte(s))
    ensures var h := Header(code, |s|);
      FirstItem(h + s) == Some(Item(code == LIST_CODE, s, |h| + |s|))
  {
    hide FromBigEndian, BigEndian;
    var h := Header(code, |s|);
    var b := h + s;
    assert b[|h|..|h| + |s|] == s;
    if |s| < 56 {
      assert b[0] == code + |s| as byte;
    } else {
      SizedItem(code, s);
    }
  }

  lemma SizedItem(code: byte, s: Bytes)
    requires code == EMPTY_STRING_CODE || code == LIST_CODE
    requires 56 <= |s| < USIZE_LIMIT
    ensures var h := Header(code, |s|);
      FirstItem(h + s) == Some(Item(code == LIST_CODE, s, |h| + |s|))
  {
    hide FromBigEndian, BigEndian;
    var size := BigEndian(|s|);
    UsizeHasEightBytes(|s|);
    FromToBigEndian(|s|);
    var first := code + 55 + |size| as byte;
    var b := [first] + size + s;
    assert Header(code, |s|) == [first] + size;
    assert b[1..1 + |size|] == size && b[1] == size[0];
    assert b[1 + |size|..1 + |size| + |s|] == s;
    var isList := code == LIST_CODE;
    assert TakeLongItem(b, isList, |size|) == TakeItem(b, isList, 1 + |size|, |s|);
    assert FirstItem(b) == TakeLongItem(b, isList, |size|);
  }

  /** What follows an item does not change how it is read. */
  lemma ItemPrefix(x: Bytes, rest: Bytes)
    requires FirstItem(x).Some?
    ensures FirstItem(x + rest) == FirstItem(x)
  {
    var b := x + rest;
    assert b[0] == x[0];
    if 0x80 <= x[0] {
      var isList := x[0] >= 0xc0;
      var short := x[0] < 0xb8 || 0xc0 <= x[0] < 0xf8;
      var header := if short then 1 else 1 + x[0] as nat - (if isList then 0xf7 else 0xb7);
      assert b[1..header] == x[1..header];
      var length := if short then x[0] as nat - (if isList then 0xc0 else 0x80) else FromBigEndian(x[1..header]);
      assert b[header..header + length] == x[header..header + length];
      assert b[1..1 + length] == x[1..1 + length] || header != 1;
    }
  }

  lemma ItemsCons(x: Bytes, rest: Bytes)
    requires IsItem(x) && Items(rest).Some?
    ensures Items(x + rest) == Some([x] + Items(rest).value)
  {
    ItemPrefix(x, rest);
    assert (x + rest)[..|x|] == x && (x + rest)[|x|..] == rest;
  }

  lemma EmptyItems()
    ensures Items([]) == Some([])
  {
  }

  lemma SingleItem(x: Bytes)
    requires IsItem(x)
    ensures Items(x) == Some([x])
  {
    hide FirstItem, Items;
    EmptyItems();
    ItemsCons(x, []);
    assert x + [] == x;
    assert [x] + [] == [x];
  }

  lemma PairItems(a: Bytes, b: Bytes)
    requires IsItem(a) && IsItem(b)
    ensures Items(a + b) == Some([a, b])
  {
    hide IsItem, Items;
    SingleItem(b);
    ItemsCons(a, b);
    assert [a] + [b] == [a, b];
  }

  // The code is canonical.

  /** A list with the given payload. */
  function EncodeList(payload: Bytes): (b: Bytes)
    ensures |b| == LengthOfLength(|payload|) + |payload|
  {
    Header(LIST_CODE, |payload|) + payload
  }

  lemma ShortItem(b: Bytes, isList: bool, code: byte)
    requires code == (if isList then LIST_CODE else EMPTY_STRING_CODE) && b != [] && code <= b[0] < code + 56
    requires TakeItem(b, isList, 1, (b[0] - code) as nat).Some? && TakeItem(b, isList, 1, (b[0] - code) as nat).value.size == |b|
    ensures var item := TakeItem(b, isList, 1, (b[0] - code) as nat).value;
      item.isList == isList && b == if isList then EncodeList(item.payload) else EncodeString(item.payload)
  {
    var p := b[1..];
    assert b[1..1 + (b[0] - code) as nat] == p;
    assert b == [b[0]] + p;
  }

  lemma LongerItem(b: Bytes, isList: bool, code: byte)
    requires code == (if isList then LIST_CODE else EMPTY_STRING_CODE) && b != [] && code + 56 <= b[0] && (b[0] - code) as int <= 63
    requires var r := TakeLongItem(b, isList, (b[0] - code) as nat - 55); r.Some? && r.value.size == |b|
    ensures var item := TakeLongItem(b, isList, (b[0] - code) as nat - 55).value;
      item.isList == isList && b == if isList then EncodeList(item.payload) else EncodeString(item.payload)
  {
    hide BigEndian, FromBigEndian;
    var sizeLength := (b[0] - code) as nat - 55;
    var size, p := b[1..1 + sizeLength], b[1 + sizeLength..];
    var length := FromBigEndian(size);
    ToFromBigEndian(size);
    assert b[1 + sizeLength..1 + sizeLength + length] == p;
    assert |p| == length && BigEndian(|p|) == size;
    assert b == [b[0]] + size + p;
    assert (code as nat + 55 + |size|) % 0x100 == b[0] as nat;
  }

  /** What is read as one item was written in the one way there is. */
  lemma ItemIsWritten(b: Bytes)
    requires IsItem(b)
    ensures var item := FirstItem(b).value; b == if item.isList then EncodeList(item.payload) else EncodeString(item.payload)
  {
    hide TakeItem, TakeLongItem, EncodeList, EncodeString;
    if b[0] < 0x80 {
      SmallByteIsWritten(b);
    } else if b[0] < 0xb8 {
      ShortItem(b, false, EMPTY_STRING_CODE);
    } else if b[0] < 0xc0 {
      LongerItem(b, false, EMPTY_STRING_CODE);
    } else if b[0] < 0xf8 {
      ShortItem(b, true, LIST_CODE);
    } else {
      LongerItem(b, true, LIST_CODE);
    }
  }

  lemma SmallByteIsWritten(b: Bytes)
    requires |b| == 1 && b[0] < 0x80
    ensures b == [b[0]] == EncodeString([b[0]])
  {
  }

  /** Two byte strings that are read as the same item are equal. */
  lemma ItemIsUnique(a: Bytes, b: Bytes)
    requires IsItem(a) && IsItem(b)
    requires FirstItem(a).value.isList == FirstItem(b).value.isList && FirstItem(a).value.payload == FirstItem(b).value.payload
    ensures a == b
  {
    hide FirstItem, EncodeList, EncodeString;
    ItemIsWritten(a);
    ItemIsWritten(b);
  }

  /** All items, one after the other. */
  function Joined(items: seq<Bytes>): Bytes {
    if items == [] then [] else items[0] + Joined(items[1..])
  }

  /** The first item of a byte string is one item by itself. */
  lemma FirstIsItem(b: Bytes)
    requires FirstItem(b).Some?
    ensures var x := b[..FirstItem(b).value.size];
      IsItem(x) && FirstItem(x) == FirstItem(b)
  {
    var size := FirstItem(b).value.size;
    var x := b[..size];
    assert x[0] == b[0];
    if 0x80 <= b[0] {
      var isList := b[0] >= 0xc0;
      var short := b[0] < 0xb8 || 0xc0 <= b[0] < 0xf8;
      var header := if short then 1 else 1 + b[0] as nat - (if isList then 0xf7 else 0xb7);
      assert x[1..header] == b[1..header];
      var length := if short then b[0] as nat - (if isList then 0xc0 else 0x80) else FromBigEndian(b[1..header]);
      assert x[header..header + length] == b[header..header + length];
      assert x[1..1 + length] == b[1..1 + length] || header != 1;
    }
  }

  /** Cutting a payload into items loses nothing. */
  lemma {:induction false} ItemsAreJoined(b: Bytes)
    requires Items(b).Some?
    ensures Joined(Items(b).value) == b && forall x :: x in Items(b).value ==> IsItem(x)
    decreases |b|
  {
    hide IsItem, FirstItem;
    if b != [] {
      var size := FirstItem(b).value.size;
      FirstIsItem(b);
      ItemsAreJoined(b[size..]);
      var items, rest := Items(b).value, Items(b[size..]).value;
      assert items == [b[..size]] + rest;
      assert items[1..] == rest;
    }
  }

  /** Items put one after the other are cut apart again. */
  lemma {:induction false} JoinedAreItems(items: seq<Bytes>)
    requires forall x :: x in items ==> IsItem(x)
    ensures Items(Joined(items)) == Some(items)
  {
    hide IsItem, Items;
    if items == [] {
      EmptyItems();
    } else {
      assert items[0] in items && items == [items[0]] + items[1..];
      JoinedAreItems(items[1..]);
      ItemsCons(items[0], Joined(items[1..]));
    }
  }
}
