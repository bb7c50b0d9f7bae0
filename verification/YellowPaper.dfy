/** The encodings that the Ethereum Yellow Paper defines, in its own terms: RLP (Appendix B), the hex-prefix
    code (Appendix C) and the trie of a key/value map (Appendix D). Nothing here refers to the program. */
module YellowPaper {
  import opened Basics

  // Appendix B.

  /** The big-endian bytes of a number, without leading zeros. */
  function Be(x: nat): Bytes {
    if x == 0 then [] else Be(x / 256) + [(x % 256) as byte]
  }

  /** The RLP of a byte string. The paper has no encoding for 2^64 bytes or more. */
  function StringRlp(x: Bytes): Bytes {
    if |x| == 1 && x[0] < 128 then x
    else if |x| < 56 then [128 + |x| as byte] + x
    else [((183 + |Be(|x|)|) % 256) as byte] + Be(|x|) + x
  }

  /** The RLP of a list, given the concatenated RLP of its items. */
  function ListRlp(s: Bytes): Bytes {
    if |s| < 56 then [192 + |s| as byte] + s
    else [((247 + |Be(|s|)|) % 256) as byte] + Be(|s|) + s
  }

  // Appendix C.

  /** Two nibbles to a byte, the first one in the high half. */
  function Pairs(x: Nibbles): Bytes
    requires |x| % 2 == 0
  {
    if x == [] then [] else [16 * x[0] as byte + x[1] as byte] + Pairs(x[2..])
  }

  /** The hex-prefix code of a path, with the flag of a leaf. */
  function HexPrefixCode(x: Nibbles, t: bool): Bytes {
    var f: byte := if t then 2 else 0;
    if |x| % 2 == 0 then [16 * f] + Pairs(x) else [16 * (f + 1) + x[0] as byte] + Pairs(x[1..])
  }

  // Appendix D.

  type Map = map<Nibbles, Bytes>

  /** The nibbles of a key: the high half of byte `i` comes at `2 * i`. */
  function NibblesOf(key: Bytes): Nibbles {
    seq(2 * |key|, i requires 0 <= i < 2 * |key| =>
      if i % 2 == 0 then (key[i / 2] / 16) as nibble else (key[i / 2] % 16) as nibble)
  }

  ghost predicate Bounded(m: Map, bound: nat) {
    forall k :: k in m ==> |k| <= bound
  }

  ghost predicate IsCommon(m: Map, p: Nibbles) {
    forall k :: k in m ==> p <= k
  }

  /** The longest of the first `n` prefixes of `k` that all keys share. */
  ghost function LongestUpTo(m: Map, k: Nibbles, n: nat): (p: Nibbles)
    requires k in m && n <= |k|
    ensures IsCommon(m, p)
    ensures forall q :: IsCommon(m, q) && |q| <= n ==> |q| <= |p|
  {
    if IsCommon(m, k[..n]) then k[..n]
    else
      assert forall q :: IsCommon(m, q) && |q| <= n ==> q <= k && q == k[..|q|];
      LongestUpTo(m, k, n - 1)
  }

  /** The longest prefix that all keys share. */
  ghost function CommonPrefix(m: Map): (p: Nibbles)
    requires m != map[]
    ensures IsCommon(m, p)
    ensures forall q :: IsCommon(m, q) ==> |q| <= |p|
  {
    var k :| k in m;
    LongestUpTo(m, k, |k|)
  }

  /** The keys that start with `p`, without it. */
  function Below(m: Map, p: Nibbles): Map {
    var tails := set k | k in m && p <= k :: k[|p|..];
    map tail | tail in tails && p + tail in m :: m[p + tail]
  }

  lemma ManyKeys(m: Map, bound: nat)
    requires m != map[] && |m| != 1 && Bounded(m, bound)
    ensures bound > 0
  {
    var k :| k in m;
    assert |m.Keys - {k}| == |m.Keys| - 1;
    var other :| other in m.Keys - {k};
    assert k != [] || other != [];
  }

  /** The structural composition of a map that is not empty; no key is longer than `bound`. */
  ghost function Composition(K: Keccak, m: Map, bound: nat): Bytes
    requires m != map[] && Bounded(m, bound)
    decreases bound, 18
  {
    if |m| == 1 then
      var k :| k in m;
      ListRlp(StringRlp(HexPrefixCode(k, true)) + StringRlp(m[k]))
    else
      ManyKeys(m, bound);
      var p := CommonPrefix(m);
      if p != [] then
        var k :| k in m;
        assert p <= k;
        ListRlp(StringRlp(HexPrefixCode(p, false)) + Cap(K, Below(m, p), bound - |p|))
      else
        ListRlp(Slots(K, m, bound, 0) + (if [] in m then StringRlp(m[[]]) else StringRlp([])))
  }

  /** How a subtree appears in the node above it: itself when it is short, else its digest. */
  ghost function Cap(K: Keccak, m: Map, bound: nat): Bytes
    requires Bounded(m, bound)
    decreases bound, 19
  {
    if m == map[] then StringRlp([]) else
    var c := Composition(K, m, bound);
    if |c| < 32 then c else StringRlp(K(c))
  }

  /** The subtrees of a branch from a nibble on. */
  ghost function Slots(K: Keccak, m: Map, bound: nat, from: nat): Bytes
    requires Bounded(m, bound) && bound > 0 && from <= 16
    decreases bound, 16 - from
  {
    if from == 16 then [] else Cap(K, Below(m, [from as nibble]), bound - 1) + Slots(K, m, bound, from + 1)
  }

  /** The root of the trie of a map. */
  ghost function TrieRoot(K: Keccak, m: Map, bound: nat): Hash
    requires Bounded(m, bound)
  {
    if m == map[] then K(StringRlp([])) else K(Composition(K, m, bound))
  }

  /** The map of nibble keys for a map of 32-byte keys. */
  ghost function Expand(entries: map<Hash, Bytes>): (m: Map)
    ensures Bounded(m, 64)
  {
    map k | k in ExpandedKeys(entries) :: EntryAt(entries, k)
  }

  ghost function ExpandedKeys(entries: map<Hash, Bytes>): set<Nibbles> {
    set key | key in entries :: NibblesOf(key)
  }

  ghost function EntryAt(entries: map<Hash, Bytes>, k: Nibbles): Bytes
    requires k in ExpandedKeys(entries)
  {
    var key :| key in entries && NibblesOf(key) == k;
    entries[key]
  }

  // Section 4.1.

  /** An account: nonce, balance, storage root and code hash. */
  function AccountRlp(nonce: nat, balance: nat, storageRoot: Hash, codeHash: Hash): Bytes {
    ListRlp(StringRlp(Be(nonce)) + StringRlp(Be(balance)) + StringRlp(storageRoot) + StringRlp(codeHash))
  }

  /** A storage word. */
  function WordRlp(word: nat): Bytes {
    StringRlp(Be(word))
  }

  /** An account with its storage; a word that is zero is the same as none. */
  datatype WorldAccount = WorldAccount(nonce: nat, balance: nat, codeHash: Hash, storage: map<Hash, nat>)

  /** The accounts, by the digests of their addresses. */
  type World = map<Hash, WorldAccount>

  /** The entries of a storage trie: zeros are left out. */
  function StorageEntries(storage: map<Hash, nat>): map<Hash, Bytes> {
    map key | key in storage && storage[key] != 0 :: WordRlp(storage[key])
  }

  ghost function StorageRoot(K: Keccak, storage: map<Hash, nat>): Hash {
    TrieRoot(K, Expand(StorageEntries(storage)), 64)
  }

  /** The entries of the state trie. */
  ghost function AccountEntries(K: Keccak, w: World): map<Hash, Bytes> {
    map a | a in w :: AccountRlp(w[a].nonce, w[a].balance, StorageRoot(K, w[a].storage), w[a].codeHash)
  }

  ghost function WorldRoot(K: Keccak, w: World): Hash {
    TrieRoot(K, Expand(AccountEntries(K, w)), 64)
  }
}
