/** The values in the tries: account records and storage words, in RLP. */
module Accounts {
  import opened Basics
  import opened Rlp

  /** An account as the state trie stores it. */
  datatype TrieAccount = TrieAccount(nonce: nat, balance: nat, storageRoot: Hash, codeHash: Hash)

  function EncodeWord(w: nat): (b: Bytes)
    ensures b != []
  {
    EncodeString(BigEndian(w))
  }

  /** A number of at most `size` bytes. */
  function DecodeUint(b: Bytes, size: nat): Option<nat> {
    match StringOf(b)
    case None => None
    case Some(s) => if (s != [] && s[0] == 0) || |s| > size then None else Some(FromBigEndian(s))
  }

  /** Words have 256 bits. */
  function DecodeWord(b: Bytes): Option<nat> {
    DecodeUint(b, 32)
  }

  function AccountPayload(a: TrieAccount): Bytes {
    EncodeWord(a.nonce) + (EncodeWord(a.balance) + (EncodeString(a.storageRoot) + EncodeString(a.codeHash)))
  }

  function EncodeAccount(a: TrieAccount): (b: Bytes)
    ensures b != []
  {
    Header(LIST_CODE, |AccountPayload(a)|) + AccountPayload(a)
  }

  function DecodeHash(b: Bytes): Option<Hash> {
    match StringOf(b)
    case None => None
    case Some(s) => if |s| == 32 then Some(s) else None
  }

  function DecodeAccount(b: Bytes): Option<TrieAccount> {
    match FirstItem(b)
    case None => None
    case Some(item) =>
      if !item.isList then None else
      match Items(item.payload)
      case None => None
      case Some(items) =>
        if |items| != 4 then None else
        var nonce, balance := DecodeUint(items[0], 8), DecodeWord(items[1]);
        var storageRoot, codeHash := DecodeHash(items[2]), DecodeHash(items[3]);
        if nonce.None? || balance.None? || storageRoot.None? || codeHash.None? then None
        else Some(TrieAccount(nonce.value, balance.value, storageRoot.value, codeHash.value))
  }

  predicate IsWord(w: nat) {
    w < Power(32)
  }

  /** Nonces have 64 bits. */
  predicate IsNonce(n: nat) {
    n < Power(8)
  }

  lemma UintRoundTrip(w: nat, size: nat)
    requires w < Power(size) && size <= 32
    ensures DecodeUint(EncodeWord(w), size) == Some(w) && IsItem(EncodeWord(w)) && |EncodeWord(w)| <= 33
  {
    hide FirstItem, Power;
    BigEndianSize(w, size);
    StringItem(BigEndian(w));
    FromToBigEndian(w);
  }

  /** Storage words can be read back, and zero is the only one with an empty payload. */
  lemma WordRoundTrip(w: nat)
    requires IsWord(w)
    ensures DecodeWord(EncodeWord(w)) == Some(w) && IsItem(EncodeWord(w)) && |EncodeWord(w)| <= 33
  {
    hide DecodeUint, IsItem, Power;
    UintRoundTrip(w, 32);
  }

  lemma HashItem(h: Hash)
    ensures DecodeHash(EncodeString(h)) == Some(h) && IsItem(EncodeString(h)) && |EncodeString(h)| == 33
  {
    hide FirstItem;
    StringItem(h);
  }

  /** Account records can be read back. */
  lemma AccountRoundTrip(a: TrieAccount)
    requires IsNonce(a.nonce) && IsWord(a.balance)
    ensures DecodeAccount(EncodeAccount(a)) == Some(a)
  {
    hide FirstItem, Items, IsItem, EncodeString, EncodeWord, DecodeUint, DecodeWord, DecodeHash, Power;
    UintRoundTrip(a.nonce, 8);
    WordRoundTrip(a.balance);
    HashItem(a.storageRoot);
    HashItem(a.codeHash);
    var s, c := EncodeString(a.storageRoot), EncodeString(a.codeHash);
    PairItems(s, c);
    ItemsCons(EncodeWord(a.balance), s + c);
    ItemsCons(EncodeWord(a.nonce), EncodeWord(a.balance) + (s + c));
    ListItem(AccountPayload(a));
  }

  // What is read was written.

  /** A string is read from the front of a byte string just when its code stands there. */
  lemma StringIsWritten(b: Bytes, s: Bytes)
    requires |s| < USIZE_LIMIT
    ensures StringOf(b) == Some(s) <==> EncodeString(s) <= b
  {
    hide FirstItem, EncodeString;
    if StringOf(b) == Some(s) {
      FirstIsItem(b);
      ItemIsWritten(b[..FirstItem(b).value.size]);
    }
    if EncodeString(s) <= b {
      StringItem(s);
      ItemPrefix(EncodeString(s), b[|EncodeString(s)|..]);
      assert EncodeString(s) + b[|EncodeString(s)|..] == b;
    }
  }

  lemma UintIsWritten(b: Bytes, w: nat, size: nat)
    requires size <= 32
    ensures DecodeUint(b, size) == Some(w) <==> w < Power(size) && EncodeWord(w) <= b
  {
    hide StringOf, EncodeString, Power;
    BigEndianSize(w, size);
    FromToBigEndian(w);
    if DecodeUint(b, size) == Some(w) {
      ToFromBigEndian(StringOf(b).value);
    }
    if |BigEndian(w)| <= size {
      StringIsWritten(b, BigEndian(w));
    }
  }

  /** A word is read just when its code stands in front; it is the only way to write it. */
  lemma WordIsWritten(b: Bytes, w: nat)
    ensures DecodeWord(b) == Some(w) <==> IsWord(w) && EncodeWord(w) <= b
  {
    hide DecodeUint, Power;
    UintIsWritten(b, w, 32);
  }

  /** An item that stands in front of an item is that item. */
  lemma ItemInItem(x: Bytes, b: Bytes)
    requires IsItem(x) && IsItem(b) && x <= b
    ensures x == b
  {
    hide FirstItem;
    ItemPrefix(x, b[|x|..]);
    assert x + b[|x|..] == b;
  }

  lemma UintItem(x: Bytes, w: nat, size: nat)
    requires IsItem(x) && DecodeUint(x, size) == Some(w) && size <= 32
    ensures x == EncodeWord(w) && w < Power(size)
  {
    hide IsItem, DecodeUint, EncodeWord, Power;
    UintIsWritten(x, w, size);
    UintRoundTrip(w, size);
    ItemInItem(EncodeWord(w), x);
  }

  lemma HashIsItem(x: Bytes, h: Hash)
    requires IsItem(x) && DecodeHash(x) == Some(h)
    ensures x == EncodeString(h)
  {
    hide IsItem, StringOf, EncodeString;
    StringIsWritten(x, h);
    HashItem(h);
    ItemInItem(EncodeString(h), x);
  }

  lemma FourJoined(items: seq<Bytes>)
    requires |items| == 4
    ensures Joined(items) == items[0] + (items[1] + (items[2] + items[3]))
  {
    assert items[1..][1..] == items[2..] && items[2..][1..] == items[3..] && items[3..][1..] == [];
    assert Joined(items[3..]) == items[3] + Joined([]) == items[3];
    assert Joined(items[2..]) == items[2] + Joined(items[3..]);
    assert Joined(items[1..]) == items[1] + Joined(items[2..]);
  }

  /** An account is read just when its record stands in front. */
  lemma AccountIsWritten(b: Bytes, a: TrieAccount)
    ensures DecodeAccount(b) == Some(a) <==> IsNonce(a.nonce) && IsWord(a.balance) && EncodeAccount(a) <= b
  {
    hide *;
    if DecodeAccount(b) == Some(a) {
      ReadWasWritten(b, a);
    }
    if IsNonce(a.nonce) && IsWord(a.balance) && EncodeAccount(a) <= b {
      AccountRoundTrip(a);
      var rest := b[|EncodeAccount(a)|..];
      assert EncodeAccount(a) + rest == b;
      AccountPrefix(EncodeAccount(a), rest);
    }
  }

  lemma AccountPrefix(x: Bytes, rest: Bytes)
    requires DecodeAccount(x).Some?
    ensures DecodeAccount(x + rest) == DecodeAccount(x)
  {
    hide FirstItem, Items, DecodeUint, DecodeWord, DecodeHash;
    ItemPrefix(x, rest);
  }

  lemma ReadWasWritten(b: Bytes, a: TrieAccount)
    requires DecodeAccount(b) == Some(a)
    ensures IsNonce(a.nonce) && IsWord(a.balance) && EncodeAccount(a) <= b
  {
    hide FirstItem, Items, IsItem, Joined, DecodeUint, DecodeHash, EncodeString, EncodeWord, Power, Header;
    var item := FirstItem(b).value;
    var items := Items(item.payload).value;
    FirstIsItem(b);
    ItemIsWritten(b[..item.size]);
    ItemsAreJoined(item.payload);
    FourJoined(items);
    assert items[0] in items && items[1] in items && items[2] in items && items[3] in items;
    UintItem(items[0], a.nonce, 8);
    UintItem(items[1], a.balance, 32);
    HashIsItem(items[2], a.storageRoot);
    HashIsItem(items[3], a.codeHash);
    assert item.payload == AccountPayload(a);
  }
}
