/** The program computes what the Ethereum Yellow Paper defines: every encoding, every reference and every
    root hash is the one of the paper. */
module Agreement {
  import opened Basics
  import opened HexPrefix
  import opened Rlp
  import opened Trie
  import opened NormalForm
  import opened DeleteCorrect
  import opened Encoding
  import opened History
  import opened Accounts
  import Paper = YellowPaper

  // Appendix B.

  lemma {:induction false} SameBigEndian(n: nat)
    ensures BigEndian(n) == Paper.Be(n)
  {
    if n != 0 {
      SameBigEndian(n / 0x100);
    }
  }

  lemma StringsAgree(s: Bytes)
    ensures EncodeString(s) == Paper.StringRlp(s)
  {
    hide BigEndian;
    SameBigEndian(|s|);
  }

  lemma ListsAgree(payload: Bytes)
    ensures Header(LIST_CODE, |payload|) + payload == Paper.ListRlp(payload)
  {
    hide BigEndian;
    SameBigEndian(|payload|);
  }

  /** Storage words and account records are written as the paper says, the fields in its order. */
  lemma RecordsAgree(w: nat, a: TrieAccount)
    ensures EncodeWord(w) == Paper.WordRlp(w)
    ensures EncodeAccount(a) == Paper.AccountRlp(a.nonce, a.balance, a.storageRoot, a.codeHash)
  {
    hide BigEndian, EncodeString, Paper.StringRlp, Paper.ListRlp, Header, Paper.Be;
    SameBigEndian(w);
    SameBigEndian(a.nonce);
    SameBigEndian(a.balance);
    StringsAgree(BigEndian(w));
    StringsAgree(BigEndian(a.nonce));
    StringsAgree(BigEndian(a.balance));
    StringsAgree(a.storageRoot);
    StringsAgree(a.codeHash);
    ListsAgree(AccountPayload(a));
    var n, b, r, c := EncodeWord(a.nonce), EncodeWord(a.balance), EncodeString(a.storageRoot), EncodeString(a.codeHash);
    assert n + (b + (r + c)) == n + b + r + c;
  }

  // Appendix C.

  lemma PackIsPair(hi: nibble, lo: nibble)
    ensures Pack(hi, lo) == 16 * hi as byte + lo as byte
  {
  }

  lemma {:induction false} PairsAgree(nibs: Nibbles)
    requires |nibs| % 2 == 0
    ensures PackPairs(nibs) == Paper.Pairs(nibs)
  {
    hide Pack, High, Low, ToNibs;
    if nibs != [] {
      var first, rest := Pack(nibs[0], nibs[1]), nibs[2..];
      PackIsPair(nibs[0], nibs[1]);
      PairsAgree(rest);
      assert PackPairs(nibs) == [first] + PackPairs(rest);
      assert Paper.Pairs(nibs) == [first] + Paper.Pairs(rest);
    }
  }

  /** The stored paths are the hex-prefix codes of the paper. */
  lemma PathsAgree(nibs: Nibbles, isLeaf: bool)
    ensures ToEncodedPath(nibs, isLeaf) == Paper.HexPrefixCode(nibs, isLeaf)
  {
    hide PackPairs, Paper.Pairs;
    PairsAgree(if |nibs| % 2 != 0 then nibs[1..] else nibs);
  }

  /** The nibbles of a key are those of the paper. */
  lemma {:induction false} NibblesAgree(key: Bytes)
    ensures ToNibs(key) == Paper.NibblesOf(key)
  {
    if key != [] {
      NibblesAgree(key[1..]);
      var rest := Paper.NibblesOf(key[1..]);
      var whole := Paper.NibblesOf(key);
      assert forall i :: 0 <= i < |rest| ==> whole[i + 2] == rest[i];
      assert whole == [High(key[0]), Low(key[0])] + rest;
    }
  }

  // Appendix D.

  /** A reference is written as the paper caps a subtree. */
  lemma CapAgrees(K: Keccak, n: Node)
    requires !n.Null? && !n.Digest?
    ensures WriteReference(ReferenceOf(K, n))
         == if |Encode(K, n)| < 32 then Encode(K, n) else Paper.StringRlp(K(Encode(K, n)))
  {
    hide Encode;
  }

  lemma NullAgrees(K: Keccak)
    ensures WriteReference(ReferenceOf(K, Null)) == Paper.StringRlp([]) && HashOf(K, Null) == K(Paper.StringRlp([]))
  {
  }

  /** The map below a prefix is what the trie below it stands for. */
  lemma BelowRepresents(f: Node, m: Paper.Map, p: Nibbles, child: Node)
    requires Represents(f, m) && forall tail :: Get(f, p + tail) == Get(child, tail)
    ensures Represents(child, Paper.Below(m, p))
    ensures forall tail :: tail in Paper.Below(m, p) ==> p + tail in m
  {
    hide Get;
    var below := Paper.Below(m, p);
    forall tail
      ensures tail in below <==> p + tail in m
      ensures tail in below ==> below[tail] == m[p + tail]
    {
      if p + tail in m {
        assert (p + tail)[|p|..] == tail;
      }
    }
    forall tail
      ensures Get(child, tail) == Found(if tail in below then Some(below[tail]) else None)
    {
      assert Get(f, p + tail) == Get(child, tail);
    }
  }

  lemma LeafAgrees(K: Keccak, f: Node, m: Paper.Map, bound: nat)
    requires f.Leaf? && Normal(f) && Represents(f, m) && Paper.Bounded(m, bound)
    ensures m != map[] && Encode(K, f) == Paper.Composition(K, m, bound)
  {
    hide PrefixNibs, ToEncodedPath, EncodeString, Header, Paper.StringRlp, Paper.ListRlp, Paper.HexPrefixCode;
    var nibs := PrefixNibs(f.path);
    assert Get(f, nibs) == Found(Some(f.value));
    forall k | k in m
      ensures k == nibs
    {
      assert Get(f, k) == Found(Some(m[k]));
    }
    assert m == map[nibs := f.value];
    PathsAgree(nibs, true);
    StringsAgree(f.path);
    StringsAgree(f.value);
    LengthIsExact(K, f);
    ListsAgree(Payload(K, f));
  }

  lemma CommonIsShort(q: Nibbles, p: Nibbles, a: Nibbles, b: Nibbles)
    requires q <= p + a && q <= p + b && ForkAfter([], a, b)
    ensures q <= p && p + a != p + b
  {
    assert (p + a)[|p|] == a[0] && (p + b)[|p|] == b[0];
  }

  /** The prefix that all keys share ends where two of them fork. */
  lemma ForkedPrefix(m: Paper.Map, p: Nibbles, a: Nibbles, b: Nibbles)
    requires Paper.IsCommon(m, p) && p + a in m && p + b in m && ForkAfter([], a, b)
    ensures m != map[] && Paper.CommonPrefix(m) == p && |m| != 1
  {
    CommonIsShort(Paper.CommonPrefix(m), p, a, b);
    assert p + b in m.Keys - {p + a};
    assert |m.Keys - {p + a}| == |m.Keys| - 1;
  }

  lemma ExtensionKeys(f: Node, m: Paper.Map, nibs: Nibbles)
    requires f.Extension? && Normal(f) && Represents(f, m) && nibs == PrefixNibs(f.path)
    ensures f.child.Branch? && Normal(f.child) && Represents(f.child, Paper.Below(m, nibs))
    ensures m != map[] && |m| != 1 && Paper.CommonPrefix(m) == nibs && nibs != []
  {
    hide PrefixNibs, Canonical, Paper.Below;
    assert Proper(f.child) && DigestFree(f.child) && f.child.Branch?;
    forall tail: Nibbles
      ensures Get(f, nibs + tail) == Get(f.child, tail)
    {
      assert (nibs + tail)[|nibs|..] == tail;
    }
    BelowRepresents(f, m, nibs, f.child);
    var a, b := TwoKeys(f.child);
    assert Present(f, nibs + a) && Present(f, nibs + b);
    forall k | k in m
      ensures nibs <= k
    {
      assert Present(f, k);
    }
    ForkedPrefix(m, nibs, a, b);
  }

  lemma PrefixFits(m: Paper.Map, bound: nat)
    requires m != map[] && Paper.Bounded(m, bound)
    ensures |Paper.CommonPrefix(m)| <= bound
    ensures forall tail :: tail in Paper.Below(m, Paper.CommonPrefix(m)) ==> |tail| <= bound - |Paper.CommonPrefix(m)|
  {
    var p := Paper.CommonPrefix(m);
    var k :| k in m;
    assert p <= k;
    assert forall tail :: tail in Paper.Below(m, p) ==> p + tail in m;
  }

  lemma ExtensionComposition(K: Keccak, m: Paper.Map, bound: nat)
    requires m != map[] && |m| != 1 && Paper.Bounded(m, bound) && Paper.CommonPrefix(m) != []
    ensures var p := Paper.CommonPrefix(m);
      && |p| <= bound && Paper.Bounded(Paper.Below(m, p), bound - |p|)
      && Paper.Composition(K, m, bound)
         == Paper.ListRlp(Paper.StringRlp(Paper.HexPrefixCode(p, false)) + Paper.Cap(K, Paper.Below(m, p), bound - |p|))
  {
    hide Paper.ListRlp, Paper.StringRlp, Paper.HexPrefixCode, Paper.CommonPrefix, Paper.Cap, Paper.Below;
    PrefixFits(m, bound);
  }

  /** A subtree that is not empty appears in the node above it as its reference. */
  lemma ChildAgrees(K: Keccak, n: Node, m: Paper.Map, bound: nat)
    requires !n.Null? && !n.Digest? && m != map[] && Paper.Bounded(m, bound)
    requires Encode(K, n) == Paper.Composition(K, m, bound)
    ensures WriteReference(ReferenceOf(K, n)) == Paper.Cap(K, m, bound)
  {
    hide Encode, ReferenceOf, WriteReference, Paper.Composition;
    CapAgrees(K, n);
  }

  lemma ExtensionAgrees(K: Keccak, f: Node, m: Paper.Map, bound: nat)
    requires f.Extension? && Normal(f) && Represents(f, m) && Paper.Bounded(m, bound)
    ensures m != map[] && Encode(K, f) == Paper.Composition(K, m, bound)
    decreases f, 0
  {
    hide PrefixNibs, ToEncodedPath, EncodeString, Header, Paper.StringRlp, Paper.ListRlp, Paper.HexPrefixCode, Encode, ReferenceOf,
      WriteReference, Represents, Get, Paper.CommonPrefix, Paper.Composition, Paper.Cap, Paper.Below, Payload;
    var nibs := PrefixNibs(f.path);
    ExtensionKeys(f, m, nibs);
    ExtensionComposition(K, m, bound);
    var below, rest := Paper.Below(m, nibs), bound - |nibs|;
    EncodesMap(K, f.child, below, rest);
    ChildAgrees(K, f.child, below, rest);
    PathsAgree(nibs, false);
    StringsAgree(f.path);
    ExtensionEncoding(K, f);
    ListsAgree(Payload(K, f));
  }

  lemma ExtensionEncoding(K: Keccak, f: Node)
    requires f.Extension? || f.Branch?
    ensures Encode(K, f) == Header(LIST_CODE, |Payload(K, f)|) + Payload(K, f)
    ensures f.Extension? ==> Payload(K, f) == EncodeString(f.path) + WriteReference(ReferenceOf(K, f.child))
    ensures f.Branch? ==> Payload(K, f) == EncodeSlots(K, f, 0) + [EMPTY_STRING_CODE]
  {
    hide ReferenceOf, EncodeSlots, Header;
    LengthIsExact(K, f);
  }

  lemma BranchAgrees(K: Keccak, f: Node, m: Paper.Map, bound: nat)
    requires f.Branch? && Normal(f) && Represents(f, m) && Paper.Bounded(m, bound)
    ensures m != map[] && Encode(K, f) == Paper.Composition(K, m, bound)
    decreases f, 18
  {
    hide Header, Paper.ListRlp, Encode, ReferenceOf, EncodeSlots, Paper.Slots, Canonical;
    var a, b := TwoKeys(f);
    assert [] + a == a && [] + b == b;
    assert Present(f, a) && Present(f, b);
    ForkedPrefix(m, [], a, b);
    Paper.ManyKeys(m, bound);
    SlotsAgree(K, f, m, bound, 0);
    assert [] !in m by {
      assert Get(f, []) == Found(None);
    }
    ExtensionEncoding(K, f);
    ListsAgree(Payload(K, f));
    assert Paper.StringRlp([]) == [EMPTY_STRING_CODE];
  }

  lemma {:induction false} SlotsAgree(K: Keccak, f: Node, m: Paper.Map, bound: nat, from: nat)
    requires f.Branch? && Normal(f) && Represents(f, m) && Paper.Bounded(m, bound) && bound > 0 && from <= 16
    ensures EncodeSlots(K, f, from) == Paper.Slots(K, m, bound, from)
    decreases f, 16 - from
  {
    hide EncodeSlot, Paper.Cap, Paper.Below;
    if from < 16 {
      SlotAgrees(K, f, m, bound, from as nibble);
      SlotsAgree(K, f, m, bound, from + 1);
    }
  }

  lemma SlotAgrees(K: Keccak, f: Node, m: Paper.Map, bound: nat, i: nibble)
    requires f.Branch? && Normal(f) && Represents(f, m) && Paper.Bounded(m, bound) && bound > 0
    ensures Paper.Bounded(Paper.Below(m, [i]), bound - 1)
    ensures EncodeSlot(K, f, i) == Paper.Cap(K, Paper.Below(m, [i]), bound - 1)
    decreases f, 0
  {
    hide ReferenceOf, Encode, Paper.Composition, WriteReference, Represents, Get, Paper.Below, Paper.Cap, Normal;
    var below := Paper.Below(m, [i]);
    SlotKeys(f, m, i);
    if i in f.children {
      EncodesMap(K, f.children[i], below, bound - 1);
      ChildAgrees(K, f.children[i], below, bound - 1);
    } else {
      NothingRepresents(below);
      NothingIsCapped(K, bound - 1);
    }
  }

  lemma NothingIsCapped(K: Keccak, bound: nat)
    ensures Paper.Cap(K, map[], bound) == [EMPTY_STRING_CODE]
  {
  }

  lemma SlotKeys(f: Node, m: Paper.Map, i: nibble)
    requires f.Branch? && Normal(f) && Represents(f, m)
    ensures forall tail :: tail in Paper.Below(m, [i]) ==> [i] + tail in m
    ensures var child := if i in f.children then f.children[i] else Null;
      Normal(child) && Represents(child, Paper.Below(m, [i])) && (i in f.children ==> !child.Null? && !child.Digest?)
  {
    hide Canonical, Paper.Below;
    var child := if i in f.children then f.children[i] else Null;
    forall tail: Nibbles
      ensures Get(f, [i] + tail) == Get(child, tail)
    {
      assert ([i] + tail)[1..] == tail;
    }
    BelowRepresents(f, m, [i], child);
    if i in f.children {
      assert Proper(child);
    }
  }

  /** The empty trie stands for the empty map only. */
  lemma NothingRepresents(m: Paper.Map)
    requires Represents(Null, m)
    ensures m == map[]
  {
    forall k
      ensures k !in m
    {
      assert Get(Null, k) == Found(None);
    }
  }

  /** The encoding of a trie in normal form is the structural composition of its key/value map. */
  lemma {:induction false} EncodesMap(K: Keccak, f: Node, m: Paper.Map, bound: nat)
    requires Normal(f) && !f.Null? && Represents(f, m) && Paper.Bounded(m, bound)
    ensures m != map[] && Encode(K, f) == Paper.Composition(K, m, bound)
    decreases f, 19
  {
    match f
    case Leaf(_, _) => LeafAgrees(K, f, m, bound);
    case Extension(_, _) => ExtensionAgrees(K, f, m, bound);
    case Branch(_) => BranchAgrees(K, f, m, bound);
  }

  /** The root hash of a trie in normal form is the root that the paper defines for its key/value map. */
  lemma RootAgrees(K: Keccak, f: Node, m: Paper.Map, bound: nat)
    requires Normal(f) && Represents(f, m) && Paper.Bounded(m, bound)
    ensures HashOf(K, f) == Paper.TrieRoot(K, m, bound)
  {
    hide Encode, Paper.Composition;
    if f.Null? {
      NothingRepresents(m);
      NullAgrees(K);
    } else {
      EncodesMap(K, f, m, bound);
      HashIsDigestOfEncoding(K, f);
    }
  }

  /** After any run of insertions and deletions the root hash is the root of the map that is left. */
  lemma RunRoot(K: Keccak, ops: seq<Op>, bound: nat)
    requires ValidOps(ops) && Paper.Bounded(RunMap(ops), bound)
    ensures HashOf(K, Run(ops)) == Paper.TrieRoot(K, RunMap(ops), bound)
  {
    hide *;
    RunRefines(ops);
    RootAgrees(K, Run(ops), RunMap(ops), bound);
  }
}
