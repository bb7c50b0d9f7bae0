/** What the host builds from the proofs is what the state update needs. */
module Handover {
  import opened Basics
  import opened HexPrefix
  import opened Rlp
  import opened Trie
  import opened NormalForm
  import opened InsertCorrect
  import opened Encoding
  import opened Decoding
  import opened Sparse
  import opened Resolution
  import opened Proofs
  import opened Authentication
  import opened StorageUpdate
  import opened Transition
  import EthereumStates

  ghost predicate KeysHave(n: Node, length: nat) {
    forall k :: Present(n, k) ==> |k| == length
  }

  function AtMost33(n: nat): nat {
    if n < 33 then n else 33
  }

  /** The longer the keys that are left, the longer the encoding. */
  lemma {:induction false} LongKeysLongEncoding(K: Keccak, n: Node, length: nat)
    requires Proper(n) && DigestFree(n) && KeysHave(n, length)
    ensures |Encode(K, n)| >= AtMost33(length / 2 + 3)
  {
    hide PrefixNibs, ToEncodedPath, Canonical, Encode, Get;
    match n
    case Leaf(_, _) => LongLeaf(K, n, length);
    case Extension(path, child) =>
      KeysBelow(n, length);
      LongKeysLongEncoding(K, child, length - |PrefixNibs(path)|);
      LongExtension(K, n, length);
    case Branch(children) =>
      var i :| i in children;
      KeysInSlot(n, i, length);
      LongKeysLongEncoding(K, children[i], length - 1);
      LongBranch(K, n, i, length);
  }

  lemma KeysBelow(n: Node, length: nat)
    requires n.Extension? && Proper(n) && DigestFree(n) && KeysHave(n, length)
    ensures |PrefixNibs(n.path)| <= length && KeysHave(n.child, length - |PrefixNibs(n.path)|)
  {
    hide PrefixNibs, Canonical;
    var some := SomeKey(n.child);
    GetExtension(n.path, n.child, some);
    assert |PrefixNibs(n.path) + some| == length;
    forall k | Present(n.child, k)
      ensures |k| == length - |PrefixNibs(n.path)|
    {
      GetExtension(n.path, n.child, k);
      assert Present(n, PrefixNibs(n.path) + k);
    }
  }

  lemma KeysInSlot(n: Node, i: nibble, length: nat)
    requires n.Branch? && i in n.children && Proper(n) && DigestFree(n) && KeysHave(n, length)
    ensures 1 <= length && KeysHave(n.children[i], length - 1)
  {
    hide PrefixNibs, Canonical;
    var some := SomeKey(n.children[i]);
    GetBranch(n.children, i, some);
    assert |[i] + some| == length;
    forall k | Present(n.children[i], k)
      ensures |k| == length - 1
    {
      GetBranch(n.children, i, k);
      assert Present(n, [i] + k);
    }
  }

  /** A canonical path takes a byte and half a byte for every nibble. */
  lemma PathBytes(path: Path, isLeaf: bool)
    requires Canonical(path, isLeaf)
    ensures StringLength(path) >= 1 + |PrefixNibs(path)| / 2
  {
    hide PrefixNibs, ToEncodedPath;
    assert |path| == 1 + |PrefixNibs(path)| / 2;
  }

  lemma LongLeaf(K: Keccak, n: Node, length: nat)
    requires n.Leaf? && Proper(n) && KeysHave(n, length)
    ensures |Encode(K, n)| >= length / 2 + 3
  {
    hide PrefixNibs, ToEncodedPath;
    LengthIsExact(K, n);
    PathBytes(n.path, true);
    assert Present(n, PrefixNibs(n.path));
  }

  lemma LongExtension(K: Keccak, n: Node, length: nat)
    requires n.Extension? && Proper(n) && |PrefixNibs(n.path)| <= length
    requires |Encode(K, n.child)| >= AtMost33((length - |PrefixNibs(n.path)|) / 2 + 3)
    ensures |Encode(K, n)| >= AtMost33(length / 2 + 3)
  {
    hide PrefixNibs, ToEncodedPath, StringLength, LengthOfLength;
    LengthIsExact(K, n);
    PathBytes(n.path, false);
    ReferenceLengthIsExact(K, n.child);
    ReferenceIsLong(K, n.child);
    assert PayloadLength(K, n) == StringLength(n.path) + ReferenceLength(K, n.child);
    OneByteHeader(PayloadLength(K, n));
  }

  lemma OneByteHeader(length: nat)
    ensures LengthOfLength(length) >= 1
  {
  }

  /** A reference is as long as the encoding, or 33 bytes. */
  lemma ReferenceIsLong(K: Keccak, n: Node)
    requires !n.Null?
    ensures ReferenceLength(K, n) >= AtMost33(|Encode(K, n)|)
  {
    hide Encode;
  }

  lemma LongBranch(K: Keccak, n: Node, i: nibble, length: nat)
    requires n.Branch? && i in n.children && !n.children[i].Null? && 1 <= length
    requires |Encode(K, n.children[i])| >= AtMost33((length - 1) / 2 + 3)
    ensures |Encode(K, n)| >= AtMost33(length / 2 + 3)
  {
    hide ReferenceOf, EncodeSlots, LengthOfLength;
    LengthIsExact(K, n);
    SlotInside(K, n, i, 0);
    ReferenceLengthIsExact(K, n.children[i]);
    ReferenceIsLong(K, n.children[i]);
    OneByteHeader(PayloadLength(K, n));
  }

  /** The digest of a full trie stands for it: with 32-byte keys no root is short enough to be held in
      line. */
  lemma DigestStands(K: Keccak, f: Node, hash: Hash)
    requires Full(f) && !f.Null? && HashOf(K, f) == hash
    ensures Prunes(K, Digest(hash), f)
  {
    hide Encode, Normal;
    FullForm(f);
    LongKeysLongEncoding(K, f, 64);
  }

  lemma FullForm(f: Node)
    requires Full(f) && !f.Null?
    ensures Proper(f) && DigestFree(f) && KeysHave(f, 64)
  {
    hide Get, Proper, DigestFree;
  }

  /** A trie with the right root, built or known by its digest only, stands for the full trie. */
  lemma RootStands(K: Keccak, n: Node, f: Node)
    requires Full(f) && HashOf(K, n) == HashOf(K, f) && Comparable(K, n, f)
    requires f.Null? ==> !n.Digest?
    ensures Prunes(K, n, f)
  {
    hide HashOf, Comparable, Full;
    if n.Digest? {
      HashOfDigest(K, n.hash);
      DigestStands(K, f, n.hash);
    } else {
      SameHashPrunes(K, n, f);
    }
  }

  /** The proofs before the block name the storage roots of the full state. */
  ghost predicate NamesRoots(K: Keccak, before: AccountProofs, full: EthereumStates.State) {
    forall a :: a in before ==>
      K(a) in full.storages && HashOf(K, full.storages[K(a)]) == before[a].storageRoot && before[a].storageRoot != ZERO
  }

  /** The tries can be compared with the full ones; an empty trie is not left out. */
  ghost predicate Matchable(K: Keccak, trie: Node, storages: Transition.Tries, full: EthereumStates.State) {
    && Comparable(K, trie, full.trie) && (full.trie.Null? ==> !trie.Digest?)
    && storages.Keys == full.storages.Keys
    && forall h :: h in storages ==>
         Comparable(K, storages[h], full.storages[h]) && (full.storages[h].Null? ==> !storages[h].Digest?)
  }

  /** The state built from the proofs stands for every full state with that root and those storage
      roots: it is what the state update asks for. */
  lemma TransitionStands(K: Keccak, stateRoot: Hash, before: AccountProofs, trie: Node, storages: Transition.Tries,
                         full: EthereumStates.State)
    requires HashOf(K, trie) == stateRoot == HashOf(K, full.trie)
    requires StoragesMatch(K, before, before.Keys, storages) && NamesRoots(K, before, full)
    requires EthereumStates.StateFull(full) && Matchable(K, trie, storages, full)
    ensures EthereumStates.StatePrunes(K, EthereumStates.State(trie, storages), full)
  {
    hide HashOf, Comparable, Full, Prunes;
    RootStands(K, trie, full.trie);
    forall h | h in storages
      ensures Prunes(K, storages[h], full.storages[h])
    {
      var a :| a in before.Keys && K(a) == h && StorageMatches(K, before[a], storages[h]);
      NamedRoot(K, before[a].storageRoot);
      assert h in storages.Keys;
      RootStands(K, storages[h], full.storages[h]);
    }
  }

  /** Below a node that is held in line there is nothing to look for in the store. */
  lemma {:induction false} InlineIsCovered(K: Keccak, f: Node, key: Nibbles, store: Store)
    requires ReferenceOf(K, f).Inline?
    ensures Covers(K, store, f, key)
  {
    if f.Branch? && key != [] && key[0] in f.children {
      SlotInside(K, f, key[0], 0);
      InlineChild(K, f, f.children[key[0]]);
      InlineIsCovered(K, f.children[key[0]], key[1..], store);
    }
    if f.Extension? && PrefixNibs(f.path) <= key {
      InlineChild(K, f, f.child);
      InlineIsCovered(K, f.child, key[|PrefixNibs(f.path)|..], store);
    }
  }

  /** A store with the nodes of the proof for a key covers that key: reading it from the resolved
      trie cannot fail. */
  lemma {:induction false} ProofCovers(K: Keccak, f: Node, key: Nibbles, store: Store)
    requires DigestFree(f)
    requires forall n :: n in ProofOf(K, f, key) && ReferenceOf(K, n).ByDigest? ==>
      ReferenceOf(K, n) in store && store[ReferenceOf(K, n)] == n
    ensures Covers(K, store, f, key)
  {
    hide ReferenceOf, PrefixNibs, Shallow;
    var rest := ProofBelow(K, f, key);
    assert ProofOf(K, f, key) == [Shallow(K, f)] + rest;
    assert Shallow(K, f) in ProofOf(K, f, key);
    ShallowIsNoDigest(K, f);
    ShallowPrunes(K, f);
    PrunesReference(K, Shallow(K, f), f);
    if f.Branch? && key != [] && key[0] in f.children {
      if ReferenceOf(K, f.children[key[0]]).ByDigest? {
        ProofCovers(K, f.children[key[0]], key[1..], store);
      } else {
        InlineIsCovered(K, f.children[key[0]], key[1..], store);
      }
    }
    if f.Extension? && PrefixNibs(f.path) <= key {
      var tail := key[|PrefixNibs(f.path)|..];
      if ReferenceOf(K, f.child).ByDigest? {
        ProofCovers(K, f.child, tail, store);
      } else {
        InlineIsCovered(K, f.child, tail, store);
      }
    }
  }

  lemma ShallowIsNoDigest(K: Keccak, f: Node)
    ensures Shallow(K, f).Digest? ==> f.Digest?
  {
  }
}
