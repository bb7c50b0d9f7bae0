/** Writing the changed slots of an account into its storage trie. */
module StorageUpdate {
  import opened Basics
  import opened HexPrefix
  import opened Trie
  import opened NormalForm
  import opened InsertCorrect
  import opened DeleteCorrect
  import opened History
  import opened Sparse
  import opened Loose
  import opened MptNodes
  import opened Accounts

  /** All keys are 32 bytes. */
  ghost predicate FixedKeys(n: Node) {
    forall k :: Present(n, k) ==> |k| == 64
  }

  /** A trie in normal form with 32-byte keys. */
  ghost predicate Full(n: Node) {
    Normal(n) && FixedKeys(n)
  }

  /** Insertion with a 32-byte key cannot fail. */
  lemma FullInsert(n: Node, key: Hash, value: Bytes)
    requires Full(n) && value != []
    ensures var r := Insert(n, ToNibs(key), value);
      && r.Done? && Full(r.node)
      && (forall k :: Get(r.node, k) == if k == ToNibs(key) then Found(Some(value)) else Get(n, k))
  {
    hide Normal, Get, Insert;
    InsertIsCorrect(n, ToNibs(key), value);
    if k :| Present(n, k) && k != ToNibs(key) && Related(k, ToNibs(key)) {
    }
    var r := Insert(n, ToNibs(key), value);
    forall k | Present(r.node, k)
      ensures |k| == 64
    {
      assert k == ToNibs(key) || Present(n, k);
    }
  }

  /** Nor can deletion. */
  lemma FullDelete(n: Node, key: Hash)
    requires Full(n)
    ensures var r := Delete(n, ToNibs(key));
      && r.Done? && Full(r.node)
      && (forall k :: Get(r.node, k) == if k == ToNibs(key) then Found(None) else Get(n, k))
  {
    hide Normal, Get, Delete;
    DeleteIsCorrect(n, ToNibs(key));
    var r := Delete(n, ToNibs(key));
    forall k | r.Done? && Present(r.node, k)
      ensures |k| == 64
    {
      assert Present(n, k);
    }
  }

  datatype HashedStorage = HashedStorage(wiped: bool, slots: map<Hash, nat>)

  /** What a storage trie answers for a slot with a value: zero is never stored. */
  function SlotLookup(value: nat): Lookup {
    Found(if value == 0 then None else Some(EncodeWord(value)))
  }

  /** `n` is `base` with the slots in `keys` overwritten. */
  ghost predicate IsOverlay(n: Node, base: Node, slots: map<Hash, nat>, keys: set<Hash>)
    requires keys <= slots.Keys
  {
    && (forall h :: h in keys ==> Get(n, ToNibs(h)) == SlotLookup(slots[h]))
    && (forall k :: (forall h :: h in keys ==> ToNibs(h) != k) ==> Get(n, k) == Get(base, k))
  }

  lemma OverlayStep(n: Node, base: Node, slots: map<Hash, nat>, keys: set<Hash>, key: Hash, n': Node)
    requires keys <= slots.Keys && key in slots && IsOverlay(n, base, slots, keys)
    requires forall k :: Get(n', k) == if k == ToNibs(key) then SlotLookup(slots[key]) else Get(n, k)
    ensures IsOverlay(n', base, slots, keys + {key})
  {
    hide Get, SlotLookup, ToNibs;
    forall h | h in keys + {key}
      ensures Get(n', ToNibs(h)) == SlotLookup(slots[h])
    {
      if ToNibs(h) == ToNibs(key) {
        NibsInjective(h, key);
      }
    }
    forall k | forall h :: h in keys + {key} ==> ToNibs(h) != k
      ensures Get(n', k) == Get(base, k)
    {
      assert key in keys + {key};
      assert forall h :: h in keys ==> h in keys + {key};
    }
  }

  /** There is only one trie in normal form that overlays a base with given slots: the order in which
      the slots were written does not show. */
  lemma OverlayIsUnique(a: Node, b: Node, base: Node, slots: map<Hash, nat>)
    requires Normal(a) && Normal(b)
    requires IsOverlay(a, base, slots, slots.Keys) && IsOverlay(b, base, slots, slots.Keys)
    ensures a == b
  {
    hide Get, Normal, SlotLookup, ToNibs;
    forall k
      ensures Get(a, k) == Get(b, k)
    {
      if h :| h in slots.Keys && ToNibs(h) == k {
        assert Get(a, ToNibs(h)) == Get(b, ToNibs(h));
      }
    }
    NormalFormIsUnique(a, b);
  }

  // What a sparse trie can do.

  /** An insertion stops at something that was left out exactly when a lookup does, and names the same
      digest. */
  lemma {:induction false} InsertReaches(n: Node, key: Nibbles, value: Bytes)
    ensures var r := Insert(n, key, value); r.Failed? && r.error.NodeNotResolved? <==> Get(n, key).Unresolved?
    ensures Get(n, key).Unresolved? ==> Insert(n, key, value) == Failed(Get(n, key).error)
  {
    hide PrefixNibs, ToEncodedPath, Split;
    match n
    case Branch(children) => if key != [] && key[0] in children { InsertReaches(children[key[0]], key[1..], value); }
    case Extension(path, child) =>
      if PrefixNibs(path) <= key {
        assert key[..|PrefixNibs(path)|] == PrefixNibs(path);
        InsertReaches(child, key[|PrefixNibs(path)|..], value);
      }
    case _ =>
  }

  /** So does a deletion. */
  lemma {:induction false} DeleteReaches(n: Node, key: Nibbles)
    ensures var r := Delete(n, key); r.Failed? && r.error.NodeNotResolved? <==> Get(n, key).Unresolved?
    ensures Get(n, key).Unresolved? ==> Delete(n, key) == Failed(Get(n, key).error)
  {
    hide PrefixNibs, ToEncodedPath, Merge;
    match n
    case Branch(children) => if key != [] && key[0] in children { DeleteReaches(children[key[0]], key[1..]); }
    case Extension(path, child) => if PrefixNibs(path) <= key { DeleteReaches(child, key[|PrefixNibs(path)|..]); }
    case _ =>
  }

  /** The lookup of a key gets to an end. */
  predicate Reaches(n: Node, key: Hash) {
    Get(n, ToNibs(key)).Found?
  }

  /** Lookups of other keys are as before. */
  ghost predicate OnlyChanges(before: Node, key: Hash, after: Node) {
    forall k :: k != ToNibs(key) ==> Get(after, k) == Get(before, k)
  }

  ghost predicate AllReached(n: Node, keys: set<Hash>) {
    forall key :: key in keys ==> Reaches(n, key)
  }

  lemma ReachedStep(before: Node, key: Hash, after: Node, keys: set<Hash>)
    requires OnlyChanges(before, key, after) && key !in keys
    ensures AllReached(before, keys) <==> AllReached(after, keys)
    ensures AllReached(before, keys + {key}) <==> AllReached(before, keys) && Reaches(before, key)
  {
    hide Get, ToNibs;
    forall other | other in keys
      ensures Reaches(after, other) <==> Reaches(before, other)
    {
      if ToNibs(other) == ToNibs(key) {
        NibsInjective(other, key);
      }
    }
    assert forall other :: other in keys ==> other in keys + {key};
  }

  /** Every slot that is written can be looked up. */
  ghost predicate Writes(n: Node, storage: HashedStorage) {
    storage.wiped || AllReached(n, storage.slots.Keys)
  }

  ghost predicate Clears(storage: HashedStorage) {
    exists key :: key in storage.slots && storage.slots[key] == 0
  }

  /** Only these keys have changed, and they can all be looked up. */
  ghost predicate OnlyWritten(before: Node, after: Node, keys: set<Hash>) {
    && AllReached(after, keys)
    && forall k :: (forall key :: key in keys ==> ToNibs(key) != k) ==> Get(after, k) == Get(before, k)
  }

  lemma OnlyWrittenStep(start: Node, before: Node, keys: set<Hash>, key: Hash, after: Node)
    requires OnlyWritten(start, before, keys) && OnlyChanges(before, key, after) && Reaches(after, key) && key !in keys
    ensures OnlyWritten(start, after, keys + {key})
  {
    hide Get, ToNibs, AllReached, Reaches;
    ReachedStep(before, key, after, keys);
    MoreReached(after, keys, key);
    forall k | forall other :: other in keys + {key} ==> ToNibs(other) != k
      ensures Get(after, k) == Get(start, k)
    {
      assert key in keys + {key};
      assert forall other :: other in keys ==> other in keys + {key};
    }
  }

  lemma MoreReached(n: Node, keys: set<Hash>, key: Hash)
    requires AllReached(n, keys) && Reaches(n, key)
    ensures AllReached(n, keys + {key})
  {
    hide Reaches;
  }

  /** A change of a sparse trie `s` and of the full trie `f` it stands for, loosely: it still does; if they
      were the same they still are; and if nothing was removed, then `s` has not come to stand for `f`
      just loosely. */
  ghost predicate Keeps(K: Keccak, s: Node, f: Node, s': Node, f': Node, removes: bool) {
    && LooselyPrunes(K, s', f')
    && (s == f ==> s' == f')
    && (Prunes(K, s, f) && !removes ==> Prunes(K, s', f'))
  }

  /** Writes the slots of one account, in any order, into a sparse trie that stands for `full`. The answer
      is false when an `unwrap` fails: just when one of the slots cannot be looked up beforehand. */
  method WriteSlots(K: Keccak, trie: MptNode, storage: HashedStorage, ghost full: Node)
    returns (ok: bool, ghost full': Node)
    requires trie.Valid(K) && Full(full) && LooselyPrunes(K, trie.model, full)
    modifies trie.Repr
    ensures fresh(trie.Repr - old(trie.Repr))
    ensures ok <==> Writes(old(trie.model), storage)
    ensures ok ==>
      && trie.Valid(K) && Full(full') && Keeps(K, old(trie.model), full, trie.model, full', Clears(storage))
      && IsOverlay(full', if storage.wiped then Null else full, storage.slots, storage.slots.Keys)
      && OnlyWritten(if storage.wiped then Null else old(trie.model), trie.model, storage.slots.Keys)
  {
    hide Normal, Get, Prunes, LooselyPrunes, ToNibs, IsOverlay, Full, Reaches, OnlyChanges, AllReached, SlotLookup, Keeps, OnlyWritten;
    full' := full;
    ghost var known := trie.model;
    KeepsReflexive(K, known, full);
    if storage.wiped {
      trie.Clear(K);
      full' := Null;
      EmptyIsFull(K, known, full);
    }
    ghost var base, start := full', trie.model;
    var slots := storage.slots;
    var remaining := slots.Keys;
    EmptyReaches(start, slots.Keys);
    OverlayOfNothing(base, start, slots);
    while remaining != {}
      invariant remaining <= slots.Keys
      invariant trie.Valid(K) && fresh(trie.Repr - old(trie.Repr)) && Full(full')
      invariant Keeps(K, known, full, trie.model, full', Clears(storage))
      invariant SlotsWritten(base, full', start, trie.model, slots, remaining)
      decreases |remaining|
    {
      var key :| key in remaining;
      ghost var before, now, had := full', trie.model, remaining;
      remaining := remaining - {key};
      NotReached(now, had, key);
      KeepsLoosely(K, known, full, now, before, Clears(storage));
      ok, full' := WriteSlot(K, trie, key, slots[key], before);
      if !ok {
        return;
      }
      SlotsStep(base, before, full', start, now, trie.model, slots, had, key);
      KeepsMore(K, known, full, now, before, Clears(storage), trie.model, full', slots[key] == 0);
    }
    EmptyReaches(trie.model, {});
    assert slots.Keys - {} == slots.Keys;
    ok := true;
  }

  lemma KeepsReflexive(K: Keccak, s: Node, f: Node)
    requires LooselyPrunes(K, s, f)
    ensures forall removes :: Keeps(K, s, f, s, f, removes)
  {
    hide LooselyPrunes, Prunes;
  }

  lemma KeepsLoosely(K: Keccak, s: Node, f: Node, s': Node, f': Node, removes: bool)
    requires Keeps(K, s, f, s', f', removes)
    ensures LooselyPrunes(K, s', f')
  {
    hide LooselyPrunes, Prunes;
  }

  lemma KeepsMore(K: Keccak, s: Node, f: Node, s1: Node, f1: Node, removed: bool, s2: Node, f2: Node, removes: bool)
    requires Keeps(K, s, f, s1, f1, removed) && Keeps(K, s1, f1, s2, f2, removes) && (removes ==> removed)
    ensures Keeps(K, s, f, s2, f2, removed)
  {
    hide LooselyPrunes, Prunes;
  }

  /** All slots but the remaining ones are written, and those are as far as before. */
  ghost predicate SlotsWritten(base: Node, full: Node, start: Node, now: Node, slots: map<Hash, nat>, remaining: set<Hash>) {
    && IsOverlay(full, base, slots, slots.Keys - remaining)
    && OnlyWritten(start, now, slots.Keys - remaining)
    && (AllReached(start, slots.Keys) <==> AllReached(now, remaining))
  }

  lemma SlotsStep(base: Node, before: Node, after: Node, start: Node, known: Node, now: Node,
                  slots: map<Hash, nat>, remaining: set<Hash>, key: Hash)
    requires remaining <= slots.Keys && key in remaining && SlotsWritten(base, before, start, known, slots, remaining)
    requires OnlyChanges(known, key, now) && Reaches(known, key) && Reaches(now, key)
    requires forall k :: Get(after, k) == if k == ToNibs(key) then SlotLookup(slots[key]) else Get(before, k)
    ensures SlotsWritten(base, after, start, now, slots, remaining - {key})
  {
    hide Get, ToNibs, SlotLookup, IsOverlay, AllReached, Reaches, OnlyChanges, OnlyWritten;
    ReachedStep(known, key, now, remaining - {key});
    assert remaining - {key} + {key} == remaining;
    OverlayAfter(before, base, slots, slots.Keys - remaining, key, after);
    OnlyWrittenStep(start, known, slots.Keys - remaining, key, now);
    assert slots.Keys - remaining + {key} == slots.Keys - (remaining - {key});
  }

  /** Writes one slot; a zero removes it. */
  method WriteSlot(K: Keccak, trie: MptNode, key: Hash, value: nat, ghost full: Node) returns (ok: bool, ghost full': Node)
    requires trie.Valid(K) && Full(full) && LooselyPrunes(K, trie.model, full)
    modifies trie.Repr
    ensures fresh(trie.Repr - old(trie.Repr))
    ensures ok <==> Reaches(old(trie.model), key)
    ensures ok ==>
      && trie.Valid(K) && Full(full') && Keeps(K, old(trie.model), full, trie.model, full', value == 0)
      && OnlyChanges(old(trie.model), key, trie.model) && Reaches(trie.model, key)
      && forall k :: Get(full', k) == if k == ToNibs(key) then SlotLookup(value) else Get(full, k)
  {
    hide Normal, Get, Insert, Delete, Prunes, LooselyPrunes, ToNibs, Full, Reaches, OnlyChanges, Keeps;
    ghost var known := trie.model;
    var r;
    if value == 0 {
      DeleteOnBoth(K, known, full, key);
      full' := Delete(full, ToNibs(key)).node;
      r := trie.DeleteKey(K, key);
    } else {
      InsertOnBoth(K, known, full, key, EncodeWord(value));
      full' := Insert(full, ToNibs(key), EncodeWord(value)).node;
      r := trie.InsertRlp(K, key, EncodeWord(value));
    }
    ok := r.Ok?;
  }

  lemma EmptyReaches(n: Node, keys: set<Hash>)
    ensures n.Null? ==> AllReached(n, keys)
    ensures AllReached(n, {})
  {
  }

  lemma NotReached(n: Node, keys: set<Hash>, key: Hash)
    requires key in keys
    ensures AllReached(n, keys) ==> Reaches(n, key)
  {
    hide Reaches;
  }

  /** Clearing a trie. */
  lemma EmptyIsFull(K: Keccak, s: Node, f: Node)
    ensures Full(Null) && forall removes :: Keeps(K, s, f, Null, Null, removes)
  {
  }

  lemma OverlayOfNothing(base: Node, start: Node, slots: map<Hash, nat>)
    ensures slots.Keys - slots.Keys == {} && IsOverlay(base, base, slots, {}) && OnlyWritten(start, start, {})
  {
    hide Get;
  }

  lemma OverlayAfter(before: Node, base: Node, slots: map<Hash, nat>, keys: set<Hash>, key: Hash, after: Node)
    requires keys <= slots.Keys && key in slots && IsOverlay(before, base, slots, keys)
    requires forall k :: Get(after, k) == if k == ToNibs(key) then SlotLookup(slots[key]) else Get(before, k)
    ensures IsOverlay(after, base, slots, keys + {key})
  {
    OverlayStep(before, base, slots, keys, key, after);
  }

  /** A deletion on a trie and on the full trie that it stands for: it succeeds just when the key can be
      looked up. */
  lemma DeleteOnBoth(K: Keccak, s: Node, f: Node, key: Hash)
    requires Full(f) && LooselyPrunes(K, s, f)
    ensures var k := ToNibs(key);
      var r, r' := Delete(s, k), Delete(f, k);
      && (r.Done? <==> Reaches(s, key))
      && (r.Done? && !r.changed ==> r.node == s)
      && r'.Done? && Full(r'.node)
      && (forall k' :: Get(r'.node, k') == if k' == k then SlotLookup(0) else Get(f, k'))
      && (r.Done? ==> OnlyChanges(s, key, r.node) && Reaches(r.node, key) && Keeps(K, s, f, r.node, r'.node, true))
  {
    hide Get, Delete, Prunes, LooselyPrunes, ToNibs;
    var k := ToNibs(key);
    DeleteReaches(s, k);
    FullDelete(f, key);
    DeleteLoosely(K, s, f, k);
    if Delete(s, k).Done? {
      forall k'
        ensures Get(Delete(s, k).node, k') == if k' == k then Found(None) else Get(s, k')
      {
        DeleteGet(s, k, k');
      }
      DeleteGet(s, k, []);
    }
  }

  /** And so does an insertion, which leaves nothing standing loosely that did not before. */
  lemma InsertOnBoth(K: Keccak, s: Node, f: Node, key: Hash, value: Bytes)
    requires Full(f) && LooselyPrunes(K, s, f) && value != []
    ensures var k := ToNibs(key);
      var r, r' := Insert(s, k, value), Insert(f, k, value);
      && (r.Done? <==> Reaches(s, key))
      && (r.Done? && !r.changed ==> r.node == s)
      && r'.Done? && Full(r'.node)
      && (forall k' :: Get(r'.node, k') == if k' == k then Found(Some(value)) else Get(f, k'))
      && (r.Done? ==> OnlyChanges(s, key, r.node) && Reaches(r.node, key) && Keeps(K, s, f, r.node, r'.node, false))
  {
    hide Get, Insert, Prunes, LooselyPrunes, ToNibs;
    var k := ToNibs(key);
    InsertReaches(s, k, value);
    FullInsert(f, key, value);
    InsertLoosely(K, s, f, k, value);
    if Insert(s, k, value).Done? {
      forall k'
        ensures Get(Insert(s, k, value).node, k') == if k' == k then Found(Some(value)) else Get(s, k')
      {
        InsertGet(s, k, value, k');
      }
      InsertGet(s, k, value, []);
      if Prunes(K, s, f) {
        InsertSimulates(K, s, f, k, value);
      }
    }
  }
}
