/** Orphan recovery for a whole block: whatever was inserted and deleted in between, with the proofs
    after the block in the store no extension is left that stands loosely. */
module Recovery {
  import opened Basics
  import opened HexPrefix
  import opened Trie
  import opened NormalForm
  import opened InsertCorrect
  import opened Encoding
  import opened Decoding
  import opened RoundTrip
  import opened Sparse
  import opened Resolution
  import opened Ranking
  import opened Proofs
  import opened Orphans
  import opened OrphanRecovery
  import opened SparseTransition
  import opened Loose

  /** Shortened versions of the nodes of the tries are among the tries: their digests are told apart,
      too. */
  ghost predicate Closed(tries: seq<Node>) {
    forall m, i :: IsNode(tries, m) && (m.Leaf? || m.Extension?) && 0 <= i <= |NibsOf(m)| ==> Shortened(m, i) in tries
  }

  /** The store has every shortened version of the last node of the proof that a key is absent. */
  ghost predicate OrphansFiled(K: Keccak, store: Store, g: Node, key: Nibbles) {
    Get(g, key) == Found(None) ==>
      var proof := ProofOf(K, g, key);
      forall n :: n in AllShortened(proof[|proof| - 1]) ==> ReferenceOf(K, n) in store
  }

  /** The store knows the orphans of a key that is absent from `g`: every node of `f` that the node where the
      lookup ends turns into when its path is cut, unless it is held in line. */
  ghost predicate OrphansKnown(K: Keccak, store: Store, f: Node, g: Node, key: Nibbles) {
    Get(g, key) == Found(None) ==>
      var whole := PathEnd(g, key);
      forall orphan :: IsShorter(orphan, whole) && Within(orphan, f) && ReferenceOf(K, orphan).ByDigest? ==>
        ReferenceOf(K, orphan) in store
  }

  /** A leaf or an extension with a shorter path; the path of an extension is not cut to nothing. */
  ghost predicate IsShorter(orphan: Node, whole: Node) {
    (whole.Leaf? || whole.Extension?) &&
    exists i :: 0 <= i <= |NibsOf(whole)| && (whole.Extension? ==> i < |NibsOf(whole)|) && orphan == Shortened(whole, i)
  }

  // A loose spot.

  /** Below `at`, the tries are what `spot` and `whole` are. */
  ghost predicate IsSpot(K: Keccak, s: Node, f: Node, at: Nibbles, spot: Node, whole: Node) {
    && spot.Extension? && spot.child.Digest? && StandsLoosely(K, spot.path, spot.child.hash, whole)
    && Within(whole, f) && Proper(whole)
    && forall tail :: Get(s, at + tail) == Get(spot, tail) && Get(f, at + tail) == Get(whole, tail)
                      && PathEnd(f, at + tail) == PathEnd(whole, tail)
  }

  lemma SpotBelow(K: Keccak, s: Node, f: Node, front: Nibbles, child: Node, child': Node, at: Nibbles, spot: Node, whole: Node)
    requires IsSpot(K, child, child', at, spot, whole)
    requires Within(child', f)
    requires forall tail :: Get(s, front + tail) == Get(child, tail) && Get(f, front + tail) == Get(child', tail)
                            && PathEnd(f, front + tail) == PathEnd(child', tail)
    ensures IsSpot(K, s, f, front + at, spot, whole)
  {
    hide ReferenceOf, PrefixNibs, StandsLoosely, Get, PathEnd, Within, Proper;
    WithinTransitive(whole, child', f);
    forall tail
      ensures Get(s, front + at + tail) == Get(spot, tail) && Get(f, front + at + tail) == Get(whole, tail)
      ensures PathEnd(f, front + at + tail) == PathEnd(whole, tail)
    {
      assert front + at + tail == front + (at + tail);
    }
  }

  lemma SpotHere(K: Keccak, s: Node, f: Node)
    requires s.Extension? && s.child.Digest? && StandsLoosely(K, s.path, s.child.hash, f) && WellFormed(f)
    ensures IsSpot(K, s, f, [], s, f)
  {
    hide ReferenceOf, PrefixNibs, Canonical, Get, PathEnd;
    forall tail: Nibbles
      ensures Get(s, [] + tail) == Get(s, tail) && Get(f, [] + tail) == Get(f, tail)
      ensures PathEnd(f, [] + tail) == PathEnd(f, tail)
    {
      assert [] + tail == tail;
    }
    assert Within(f, f);
  }

  /** A trie that stands for the full one, but only loosely, has a loose spot. */
  lemma {:induction false} FindSpot(K: Keccak, s: Node, f: Node) returns (at: Nibbles, spot: Node, whole: Node)
    requires LooselyPrunes(K, s, f) && !Prunes(K, s, f) && WellFormed(f)
    ensures IsSpot(K, s, f, at, spot, whole)
  {
    hide ReferenceOf, PrefixNibs, StandsLoosely, Canonical;
    match s
    case Branch(children) =>
      var i :| i in children && !Prunes(K, children[i], f.children[i]);
      at, spot, whole := FindSpot(K, children[i], f.children[i]);
      assert Within(f.children[i], f.children[i]);
      assert forall tail: Nibbles :: ([i] + tail)[1..] == tail;
      SpotBelow(K, s, f, [i], children[i], f.children[i], at, spot, whole);
      at := [i] + at;
    case Extension(path, child) =>
      if f.Extension? && f.path == path && LooselyPrunes(K, child, f.child) {
        var nibs := PrefixNibs(path);
        at, spot, whole := FindSpot(K, child, f.child);
        assert forall tail: Nibbles :: (nibs + tail)[|nibs|..] == tail;
        assert Within(f.child, f.child);
        SpotBelow(K, s, f, nibs, child, f.child, at, spot, whole);
        at := nibs + at;
      } else {
        at, spot, whole := [], s, f;
        SpotHere(K, s, f);
      }
  }

  /** Beside the loose path both tries are empty, and there the lookups end at the node that the spot
      stands for. */
  lemma BesideSpot(K: Keccak, s: Node, f: Node, at: Nibbles, spot: Node, whole: Node, tail: Nibbles)
    requires IsSpot(K, s, f, at, spot, whole) && !(PrefixNibs(spot.path) <= tail)
    ensures Get(s, at + tail) == Found(None) == Get(f, at + tail)
    ensures PathEnd(f, at + tail) == whole && EndsHere(whole, tail)
  {
    hide ReferenceOf;
    assert Get(spot, tail) == Found(None);
  }

  lemma BelowSpot(K: Keccak, s: Node, f: Node, at: Nibbles, spot: Node, whole: Node, tail: Nibbles)
    requires IsSpot(K, s, f, at, spot, whole)
    ensures Get(s, at + PrefixNibs(spot.path) + tail) == Unresolved(NodeNotResolved(spot.child.hash))
  {
    hide ReferenceOf, PathEnd, Within, PrefixNibs, StandsLoosely, Canonical;
    var nibs := PrefixNibs(spot.path);
    assert at + nibs + tail == at + (nibs + tail);
    assert (nibs + tail)[|nibs|..] == tail;
    assert Get(spot, nibs + tail) == Get(spot.child, tail);
  }

  // The siblings of a digest.

  /** The key leaves the path just before its end. */
  predicate LeavesAt(path: Nibbles, key: Nibbles)
    requires path != []
  {
    path[..|path| - 1] <= key && !(path <= key)
  }

  lemma PrefixAfter(front: Nibbles, a: Nibbles, b: Nibbles)
    ensures front + a <= front + b <==> a <= b
  {
    if front + a <= front + b {
      assert a == (front + a)[|front|..] == (front + b)[..|front + a|][|front|..];
      assert a == b[..|a|];
    }
  }

  lemma LeavesAfter(front: Nibbles, path: Nibbles, key: Nibbles)
    requires path != []
    ensures LeavesAt(front + path, front + key) <==> LeavesAt(path, key)
  {
    assert (front + path)[..|front + path| - 1] == front + path[..|path| - 1];
    PrefixAfter(front, path[..|path| - 1], key);
    PrefixAfter(front, path, key);
  }

  /** A digest at `at` in a sparse trie stands for a node of the full trie; that is a branch, or another key of the full trie leaves the
      path just before it. */
  lemma {:induction false} FindSibling(K: Keccak, s: Node, f: Node, at: Nibbles, hash: Hash) returns (key: Nibbles, b: Node)
    requires Prunes(K, s, f) && Normal(f) && at != []
    requires forall tail :: Get(s, at + tail) == Unresolved(NodeNotResolved(hash))
    requires forall key :: LeavesAt(at, key) ==> Get(s, key).Found?
    ensures Within(b, f) && ReferenceOf(K, b) == ByDigest(hash)
    ensures b.Branch? || (Present(f, key) && LeavesAt(at, key))
    decreases s, 1
  {
    hide ReferenceOf, PrefixNibs, Canonical;
    key, b := [], Null;
    assert at + [] == at;
    assert LeavesAt(at, at[..|at| - 1]);
    match s
    case Digest(_) =>
    case Branch(children) =>
      var i, rest := at[0], at[1..];
      assert forall tail :: (at + tail)[1..] == rest + tail;
      assert i in children;
      if rest == [] {
        key := SiblingKey(K, f, i);
        assert (at + [])[1..] == [];
        DigestSlot(K, s, f, i, hash);
        b := f.children[i];
      } else {
        forall k | LeavesAt(rest, k)
          ensures Get(children[i], k).Found?
        {
          assert ([i] + k)[1..] == k && at == [i] + rest;
          LeavesAfter([i], rest, k);
          assert Get(s, [i] + k).Found?;
        }
        assert Proper(f.children[i]);
        key, b := FindSibling(K, children[i], f.children[i], rest, hash);
        if !b.Branch? {
          GetBranch(f.children, i, key);
          LeavesAfter([i], rest, key);
          assert at == [i] + rest;
          key := [i] + key;
        }
      }
    case Extension(path, child) =>
      key, b := FindSiblingBelow(K, s, f, at, hash);
  }

  lemma DigestSlot(K: Keccak, s: Node, f: Node, i: nibble, hash: Hash)
    requires s.Branch? && Prunes(K, s, f) && Normal(f) && i in s.children
    requires Get(s.children[i], []) == Unresolved(NodeNotResolved(hash))
    ensures Within(f.children[i], f) && ReferenceOf(K, f.children[i]) == ByDigest(hash)
  {
    hide ReferenceOf, PrefixNibs, Canonical;
    assert Proper(f.children[i]) && Within(f.children[i], f.children[i]);
  }

  lemma DigestChild(K: Keccak, s: Node, f: Node, hash: Hash)
    requires s.Extension? && Prunes(K, s, f) && Normal(f) && Get(s.child, []) == Unresolved(NodeNotResolved(hash))
    ensures f.child.Branch? && Within(f.child, f) && ReferenceOf(K, f.child) == ByDigest(hash)
  {
    hide ReferenceOf, PrefixNibs, Canonical;
    assert DigestFree(f.child) && Within(f.child, f.child);
  }

  lemma {:induction false} FindSiblingBelow(K: Keccak, s: Node, f: Node, at: Nibbles, hash: Hash) returns (key: Nibbles, b: Node)
    requires s.Extension? && Prunes(K, s, f) && Normal(f) && at != []
    requires forall tail :: Get(s, at + tail) == Unresolved(NodeNotResolved(hash))
    requires forall key :: LeavesAt(at, key) ==> Get(s, key).Found?
    ensures Within(b, f) && ReferenceOf(K, b) == ByDigest(hash)
    ensures b.Branch? || (Present(f, key) && LeavesAt(at, key))
    decreases s, 0
  {
    hide ReferenceOf, PrefixNibs, Canonical;
    key, b := [], Null;
    var nibs := PrefixNibs(s.path);
    assert at + [] == at;
    assert nibs <= at;
    var rest := at[|nibs|..];
    assert at == nibs + rest;
    if rest == [] {
      assert Get(s.child, []) == Unresolved(NodeNotResolved(hash));
      DigestChild(K, s, f, hash);
      b := f.child;
    } else {
      forall tail
        ensures Get(s.child, rest + tail) == Unresolved(NodeNotResolved(hash))
      {
        assert (at + tail)[|nibs|..] == rest + tail;
        assert Get(s, at + tail) == Unresolved(NodeNotResolved(hash));
      }
      forall k | LeavesAt(rest, k)
        ensures Get(s.child, k).Found?
      {
        assert (nibs + k)[|nibs|..] == k;
        LeavesAfter(nibs, rest, k);
        assert Get(s, nibs + k).Found?;
      }
      key, b := FindSibling(K, s.child, f.child, rest, hash);
      if !b.Branch? {
        GetExtension(f.path, f.child, key);
        LeavesAfter(nibs, rest, key);
        key := nibs + key;
      }
    }
  }

  /** Another child of a branch holds a key. */
  lemma SiblingKey(K: Keccak, f: Node, i: nibble) returns (key: Nibbles)
    requires f.Branch? && Normal(f) && i in f.children
    ensures Present(f, key) && key != [] && key[0] != i
  {
    hide PrefixNibs, Canonical, Get;
    var x, y :| x in f.children && y in f.children && x != y;
    var j := if x == i then y else x;
    assert Proper(f.children[j]);
    var tail := SomeKey(f.children[j]);
    GetBranch(f.children, j, tail);
    key := [j] + tail;
  }

  // The whole block.

  /** A shortened version of the node where the lookup ends is filed, unless it is held in line: if it is
      held by digest, so is the node, which is then the last one of the proof. */
  lemma OrphanIsFiled(K: Keccak, store: Store, g: Node, key: Nibbles, i: nat)
    requires WellFormed(g) && OrphansFiled(K, store, g, key) && Get(g, key) == Found(None)
    requires var whole := PathEnd(g, key);
      && (whole.Leaf? || whole.Extension?) && i <= |NibsOf(whole)| && (whole.Extension? ==> i < |NibsOf(whole)|)
      && ReferenceOf(K, Shortened(whole, i)).ByDigest?
    ensures ReferenceOf(K, Shortened(PathEnd(g, key), i)) in store
  {
    hide ReferenceOf, PrefixNibs, Get, ProofOf, AllShortened, Proper, Shortened, Shallow, PathEnd;
    var whole := PathEnd(g, key);
    EndIsProper(g, key);
    LongerIsDigest(K, whole, i);
    ProofEndsThere(K, g, key);
    assert IsShortened(Shortened(whole, i), whole);
    ShortenedShallow(K, whole, Shortened(whole, i));
    ShallowEncodes(K, Shortened(whole, i));
  }

  /** Adding the proof that a key is absent makes its orphans known. */
  lemma FiledIsKnown(K: Keccak, store: Store, f: Node, g: Node, key: Nibbles)
    requires WellFormed(g) && OrphansFiled(K, store, g, key)
    ensures OrphansKnown(K, store, f, g, key)
  {
    hide ReferenceOf, PrefixNibs, Get, Within, ProofOf, AllShortened, Proper, Shortened, PathEnd, OrphansFiled, WellFormed;
    var whole := PathEnd(g, key);
    forall orphan | Get(g, key) == Found(None) && IsShorter(orphan, whole) && ReferenceOf(K, orphan).ByDigest?
      ensures ReferenceOf(K, orphan) in store
    {
      var i :| 0 <= i <= |NibsOf(whole)| && (whole.Extension? ==> i < |NibsOf(whole)|) && orphan == Shortened(whole, i);
      OrphanIsFiled(K, store, g, key, i);
    }
  }

  /** The orphan that a loose spot misses is in the store, if the orphans of a key beside the spot are
      known. */
  lemma SpotIsKnown(K: Keccak, store: Store, s: Node, f: Node, g: Node, at: Nibbles, spot: Node, whole: Node, tail: Nibbles)
    requires IsSpot(K, s, g, at, spot, whole) && !(PrefixNibs(spot.path) <= tail)
    requires OrphansKnown(K, store, f, g, at + tail) && Within(Shortened(whole, |PrefixNibs(spot.path)|), f)
    ensures ByDigest(spot.child.hash) in store
  {
    hide ReferenceOf, PrefixNibs, Get, Within, Proper, Shortened, PathEnd;
    BesideSpot(K, s, g, at, spot, whole, tail);
    assert IsShorter(Shortened(whole, |PrefixNibs(spot.path)|), whole);
  }

  /** If a shortened node is held by digest, so is the node itself. */
  lemma LongerIsDigest(K: Keccak, whole: Node, i: nat)
    requires Proper(whole) && (whole.Leaf? || whole.Extension?) && i <= |NibsOf(whole)|
    requires whole.Extension? ==> i < |NibsOf(whole)|
    requires ReferenceOf(K, Shortened(whole, i)).ByDigest?
    ensures ReferenceOf(K, whole).ByDigest?
  {
    hide ReferenceOf, PrefixNibs, ToEncodedPath, Encode, Canonical, Proper;
    var orphan := Shortened(whole, i);
    assert NibsOf(whole)[|NibsOf(whole)| - |NibsOf(orphan)|..] == NibsOf(orphan);
    OrphanIsProper(whole, i);
    ShorterEncoding(K, orphan, whole);
    if ReferenceOf(K, whole).Inline? {
      InlineIsShort(K, whole, orphan);
    }
  }

  lemma OrphanIsProper(whole: Node, i: nat)
    requires Proper(whole) && (whole.Leaf? || whole.Extension?) && i <= |NibsOf(whole)|
    requires whole.Extension? ==> i < |NibsOf(whole)|
    ensures Proper(Shortened(whole, i))
  {
    hide PrefixNibs, ToEncodedPath;
    if whole.Leaf? {
      MakeLeafProper(NibsOf(whole)[i..], whole.value);
    } else {
      ExtendedProper(NibsOf(whole)[i..], whole.child);
    }
  }

  /** A key is either as it was on both sides, or it can be looked up before and after, and its orphans are
      known, if it is absent afterwards. */
  ghost predicate Accounted(K: Keccak, store: Store, s0: Node, f: Node, s: Node, g: Node, key: Nibbles) {
    || (Get(s, key) == Get(s0, key) && Get(g, key) == Get(f, key))
    || (Get(s0, key).Found? && Get(s, key).Found? && OrphansKnown(K, store, f, g, key))
  }

  /** A sparse trie `s0`, in which no digest is left that the store knows, stands for the full trie `f`.
      Whatever was then inserted and deleted: if the result stands loosely for the full trie `g` and all
      keys are accounted for, then it stands for `g` altogether. */
  lemma Recovered(K: Keccak, tries: seq<Node>, store: Store, s0: Node, f: Node, s: Node, g: Node)
    requires Sources(K, tries) && Closed(tries) && f in tries && g in tries && Normal(f) && Normal(g)
    requires NothingKnown(store, s0) && Prunes(K, s0, f) && LooselyPrunes(K, s, g)
    requires forall key :: Accounted(K, store, s0, f, s, g, key)
    ensures Prunes(K, s, g)
  {
    hide ReferenceOf, Within, Sources, Closed, Proper, IsSpot, NothingKnown, Accounted, DigestFree;
    if !Prunes(K, s, g) {
      var at, spot, whole := FindSpot(K, s, g);
      SpotIsFound(K, tries, store, s0, f, s, g, at, spot, whole);
    }
  }

  /** If the keys are accounted for, then the digest of a loose spot was there before, at the same path. */
  lemma SpotWasThere(K: Keccak, store: Store, s0: Node, f: Node, s: Node, g: Node, at: Nibbles, spot: Node, whole: Node, tail: Nibbles)
    requires IsSpot(K, s, g, at, spot, whole)
    requires Accounted(K, store, s0, f, s, g, at + PrefixNibs(spot.path) + tail)
    ensures Get(s0, at + PrefixNibs(spot.path) + tail) == Unresolved(NodeNotResolved(spot.child.hash))
  {
    hide ReferenceOf, PrefixNibs, Get, Within, Proper, OrphansKnown, PathEnd, StandsLoosely;
    BelowSpot(K, s, g, at, spot, whole, tail);
  }

  /** And the lookups beside it came to an end. */
  lemma BesideWasFound(K: Keccak, store: Store, s0: Node, f: Node, s: Node, g: Node, at: Nibbles, spot: Node, whole: Node, key: Nibbles)
    requires IsSpot(K, s, g, at, spot, whole) && PrefixNibs(spot.path) != [] && LeavesAt(at + PrefixNibs(spot.path), key)
    requires Accounted(K, store, s0, f, s, g, key)
    ensures Get(s0, key).Found? && Get(g, key) == Found(None)
  {
    hide ReferenceOf, PrefixNibs, Get, Within, Proper, OrphansKnown, PathEnd, StandsLoosely;
    LeavesBeside(at, PrefixNibs(spot.path), key);
    BesideSpot(K, s, g, at, spot, whole, key[|at|..]);
  }

  lemma ChangedIsKnown(K: Keccak, store: Store, s0: Node, f: Node, s: Node, g: Node, key: Nibbles)
    requires Accounted(K, store, s0, f, s, g, key) && Present(f, key) && Get(g, key) == Found(None)
    ensures OrphansKnown(K, store, f, g, key)
  {
    hide Get, OrphansKnown;
  }

  /** A loose spot is not accounted for. */
  lemma SpotIsFound(K: Keccak, tries: seq<Node>, store: Store, s0: Node, f: Node, s: Node, g: Node,
                    at: Nibbles, spot: Node, whole: Node)
    requires Sources(K, tries) && Closed(tries) && f in tries && g in tries && Normal(f)
    requires NothingKnown(store, s0) && Prunes(K, s0, f) && IsSpot(K, s, g, at, spot, whole)
    ensures exists key :: !Accounted(K, store, s0, f, s, g, key)
  {
    hide ReferenceOf, PrefixNibs, ToEncodedPath, Get, Within, Sources, Proper, NothingKnown, OrphansKnown, DigestFree, PathEnd,
      Prunes, LeavesAt, Accounted;
    if forall key :: Accounted(K, store, s0, f, s, g, key) {
      var nibs, hash := PrefixNibs(spot.path), spot.child.hash;
      var path := at + nibs;
      forall tail
        ensures Get(s0, path + tail) == Unresolved(NodeNotResolved(hash))
      {
        assert Accounted(K, store, s0, f, s, g, path + tail);
        SpotWasThere(K, store, s0, f, s, g, at, spot, whole, tail);
      }
      forall key | LeavesAt(path, key)
        ensures Get(s0, key).Found? && Get(g, key) == Found(None)
      {
        assert Accounted(K, store, s0, f, s, g, key);
        BesideWasFound(K, store, s0, f, s, g, at, spot, whole, key);
      }
      assert path + [] == path;
      UnresolvedIsUnknown(store, s0, path, hash);
      var key := OrphanHasSibling(K, tries, s0, f, path, Shortened(whole, |nibs|));
      LeavesBeside(at, nibs, key);
      assert Accounted(K, store, s0, f, s, g, key);
      ChangedIsKnown(K, store, s0, f, s, g, key);
      SpotIsKnown(K, store, s, f, g, at, spot, whole, key[|at|..]);
      assert false;
    }
  }

  /** A leaf or an extension that is held by the digest at `path` is a node of the full trie, in which
      another key leaves the path just before it. */
  lemma OrphanHasSibling(K: Keccak, tries: seq<Node>, s: Node, f: Node, path: Nibbles, orphan: Node) returns (key: Nibbles)
    requires Sources(K, tries) && f in tries && orphan in tries && !orphan.Branch? && ReferenceOf(K, orphan).ByDigest?
    requires Prunes(K, s, f) && Normal(f) && path != []
    requires forall tail :: Get(s, path + tail) == Unresolved(NodeNotResolved(ReferenceOf(K, orphan).hash))
    requires forall key :: LeavesAt(path, key) ==> Get(s, key).Found?
    ensures Present(f, key) && LeavesAt(path, key) && Within(orphan, f)
  {
    hide ReferenceOf, Get, Within, Sources, Normal, Prunes, LeavesAt;
    var b;
    key, b := FindSibling(K, s, f, path, ReferenceOf(K, orphan).hash);
    IsNodeItself(tries, orphan);
    OneNode(K, tries, b, orphan, ReferenceOf(K, orphan).hash);
  }

  lemma LeavesBeside(at: Nibbles, nibs: Nibbles, key: Nibbles)
    requires nibs != [] && LeavesAt(at + nibs, key)
    ensures at <= key && key == at + key[|at|..] && !(nibs <= key[|at|..])
  {
    assert (at + nibs)[..|at + nibs| - 1] == at + nibs[..|nibs| - 1];
    assert at <= key;
    PrefixAfter(at, nibs, key[|at|..]);
  }
}
